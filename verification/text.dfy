/** The JavaScript string operations the page objects rely on, over `string`: `indexOf`,
    `includes`, `replace` with a string pattern (first occurrence only), `split`, `trim` and
    `toLowerCase`. A Dafny character is a Unicode scalar value, not a UTF-16 code unit: a
    character outside the Basic Multilingual Plane counts as one character here (two code units
    in JavaScript), and lone surrogates cannot occur. `toLowerCase` folds ASCII letters only. */
module Text {
  import opened Wrappers
  import Seqs

  /** `sub` occurs in `s` starting at index `i`. */
  predicate IsOccurrence(s: string, sub: string, i: nat) {
    i + |sub| <= |s| && s[i..i + |sub|] == sub
  }

  /** Where a string occurs, so does each of its prefixes. */
  lemma OccurrenceOfPrefix(s: string, sub: string, part: string, i: nat)
    requires IsOccurrence(s, sub, i) && |part| <= |sub| && sub[..|part|] == part
    ensures IsOccurrence(s, part, i)
  {
    assert s[i..i + |sub|][..|part|] == s[i..i + |part|];
  }

  /** The first index at or after `from` where `sub` occurs (`s.indexOf(sub, from)`). */
  function IndexFrom(s: string, sub: string, from: nat): (r: Option<nat>)
    ensures r.Some? ==> from <= r.value && IsOccurrence(s, sub, r.value)
    ensures forall i: nat :: from <= i && (r.None? || i < r.value) ==> !IsOccurrence(s, sub, i)
    decreases |s| - from
  {
    if |s| < from + |sub| then None
    else if s[from..from + |sub|] == sub then Some(from)
    else IndexFrom(s, sub, from + 1)
  }

  /** The first index where `sub` occurs (`s.indexOf(sub)`). */
  function IndexOf(s: string, sub: string): (r: Option<nat>)
    ensures r.Some? ==> IsOccurrence(s, sub, r.value)
    ensures forall i: nat :: (r.None? || i < r.value) ==> !IsOccurrence(s, sub, i)
  {
    IndexFrom(s, sub, 0)
  }

  /** `s.includes(sub)`. */
  predicate Contains(s: string, sub: string)
    ensures Contains(s, sub) <==> exists i: nat :: IsOccurrence(s, sub, i)
  {
    IndexOf(s, sub).Some?
  }

  lemma OccurrenceInMiddle(a: string, x: string, b: string)
    ensures IsOccurrence(a + x + b, x, |a|)
  {
    assert (a + x + b)[|a|..|a| + |x|] == x;
  }

  /** Any text that has `x` in it includes `x`. */
  lemma ContainsInfix(a: string, x: string, b: string)
    ensures Contains(a + x + b, x)
  {
    OccurrenceInMiddle(a, x, b);
  }

  /** An occurrence of `u` inside an occurrence of `t` is an occurrence of `u` in `s`. */
  lemma ContainsTransitive(s: string, t: string, u: string)
    requires Contains(s, t) && Contains(t, u)
    ensures Contains(s, u)
  {
    var i: nat :| IsOccurrence(s, t, i);
    var j: nat :| IsOccurrence(t, u, j);
    forall m | 0 <= m < |u| ensures s[i + j + m] == u[m] {
      assert s[i..i + |t|][j + m] == t[j + m];
      assert t[j..j + |u|][m] == u[m];
    }
    assert s[i + j..i + j + |u|] == u;
    assert IsOccurrence(s, u, i + j);
  }

  /** An occurrence of `sub` at `i` puts `sub[d]` at `i + d`; so when that character appears in
      `s` only at `pos + d`, `pos` is the only place `sub` can occur. */
  lemma OccurrenceAnchoredBy(s: string, sub: string, d: nat, pos: nat)
    requires d < |sub|
    requires forall k | 0 <= k < |s| && k != pos + d :: s[k] != sub[d]
    ensures forall i: nat :: IsOccurrence(s, sub, i) ==> i == pos
  {
    forall i: nat | IsOccurrence(s, sub, i) ensures i == pos {
      assert s[i..i + |sub|][d] == s[i + d];
    }
  }

  /** An occurrence that is the only one is what `indexOf` finds, and nothing is found after it. */
  lemma OnlyOccurrence(s: string, sub: string, pos: nat)
    requires sub != [] && IsOccurrence(s, sub, pos)
    requires forall i: nat :: IsOccurrence(s, sub, i) ==> i == pos
    ensures IndexOf(s, sub) == Some(pos) && IndexFrom(s, sub, pos + |sub|) == None
  {
  }

  /** When `sub` occurs at `first` and at `second` and nowhere else before `second`, `indexOf`
      finds `first`, and searching on after it finds `second`. */
  lemma TwoOccurrences(s: string, sub: string, first: nat, second: nat)
    requires sub != [] && first + |sub| <= second
    requires IsOccurrence(s, sub, first) && IsOccurrence(s, sub, second)
    requires forall i: nat :: i < second && i != first ==> !IsOccurrence(s, sub, i)
    ensures IndexOf(s, sub) == Some(first) && IndexFrom(s, sub, first + |sub|) == Some(second)
  {
  }

  /** An occurrence with none between `from` and it is what `s.indexOf(sub, from)` finds. */
  lemma FirstOccurrenceFrom(s: string, sub: string, from: nat, pos: nat)
    requires from <= pos && IsOccurrence(s, sub, pos)
    requires forall i: nat :: from <= i < pos ==> !IsOccurrence(s, sub, i)
    ensures IndexFrom(s, sub, from) == Some(pos)
  {
  }

  /** Occurrences in `t` are those in `a + t`, shifted by `|a|`. */
  lemma OccurrenceAfter(a: string, t: string, sub: string, i: nat)
    requires |a| <= i
    ensures IsOccurrence(a + t, sub, i) <==> IsOccurrence(t, sub, i - |a|)
  {
    if i + |sub| <= |a + t| {
      assert (a + t)[i..i + |sub|] == t[i - |a|..i - |a| + |sub|];
    }
  }

  /** `sep` ends in `x`, and `x` appears in it nowhere else. */
  predicate EndsInOnly(sep: string, x: char) {
    |sep| > 0 && sep[|sep| - 1] == x && x !in sep[..|sep| - 1]
  }

  /** After a text without `sep`, the first occurrence is the appended one when `sep` ends in a
      character it has nowhere else: an occurrence straddling the join would put that character
      inside the appended copy, short of its end. */
  lemma AnchoredSepEnds(a: string, sep: string, b: string, x: char)
    requires EndsInOnly(sep, x) && !Contains(a, sep)
    ensures IsOccurrence(a + sep + b, sep, |a|)
    ensures forall i: nat :: i < |a| ==> !IsOccurrence(a + sep + b, sep, i)
  {
    var s := a + sep + b;
    var n := |a|;
    var m := |sep|;
    OccurrenceInMiddle(a, sep, b);
    forall i: nat | i < n ensures !IsOccurrence(s, sep, i) {
      if i + m <= n {
        assert s[i..i + m] == a[i..i + m];
        assert !IsOccurrence(a, sep, i);
      } else if i + m <= |s| {
        assert s[i..i + m][m - 1] == s[i + m - 1] == sep[..m - 1][i + m - 1 - n];
      }
    }
  }

  /** Between two copies of such a `sep`, after a text without it, lies exactly a piece without
      it: that piece is `split(sep)[1]`, and what follows the second copy is dropped. */
  lemma PieceBetweenAnchored(a: string, sep: string, piece: string, more: string, x: char)
    requires EndsInOnly(sep, x) && !Contains(a, sep) && !Contains(piece, sep)
    ensures SplitSecond(a + sep + (piece + sep + more), sep) == Some(piece)
  {
    var tail := piece + sep + more;
    var s := a + sep + tail;
    var start := |a| + |sep|;
    var second := start + |piece|;
    AnchoredSepEnds(a, sep, tail, x);
    FirstOccurrenceFrom(s, sep, 0, |a|);
    AnchoredSepEnds(piece, sep, more, x);
    forall i: nat | start <= i < second ensures !IsOccurrence(s, sep, i) {
      OccurrenceAfter(a + sep, tail, sep, i);
    }
    OccurrenceAfter(a + sep, tail, sep, second);
    FirstOccurrenceFrom(s, sep, start, second);
    assert s[start..second] == piece;
    SecondPiece(s, sep, |a|, start, second, piece);
  }

  /** The second piece of a split is what lies between the first two occurrences. */
  lemma SecondPiece(s: string, sep: string, first: nat, from: nat, second: nat, piece: string)
    requires sep != [] && from == first + |sep|
    requires IndexOf(s, sep) == Some(first)
    requires IndexFrom(s, sep, from) == Some(second)
    requires s[from..second] == piece
    ensures Contains(s, sep) && SplitSecond(s, sep) == Some(piece)
  {
    assert SplitSecond(s, sep) == Some(s[from..second]);
  }

  /** `s.replace(pat, rep)` with a string pattern: only the first occurrence is rewritten. */
  function ReplaceFirst(s: string, pat: string, rep: string): (r: string)
    ensures !Contains(s, pat) ==> r == s
    ensures Contains(s, pat) ==> |r| == |s| - |pat| + |rep|
  {
    match IndexOf(s, pat)
    case None => s
    case Some(i) => s[..i] + rep + s[i + |pat|..]
  }

  /** Replacing a one-character pattern rewrites the leftmost occurrence of that character and
      leaves every other character, later occurrences included, in place. */
  lemma ReplaceFirstChar(s: string, c: char, d: char)
    ensures c !in s ==> ReplaceFirst(s, [c], [d]) == s
    ensures c in s ==> exists i :: 0 <= i < |s| && s[i] == c && c !in s[..i]
                                   && ReplaceFirst(s, [c], [d]) == s[..i] + [d] + s[i + 1..]
  {
    match IndexOf(s, [c])
    case None =>
      forall i | 0 <= i < |s| ensures s[i] != c {
        assert !IsOccurrence(s, [c], i);
        assert s[i..i + 1] == [s[i]];
      }
    case Some(i) =>
      assert s[i..i + 1] == [s[i]];
      forall k | 0 <= k < i ensures s[..i][k] != c {
        assert !IsOccurrence(s, [c], k);
        assert s[k..k + 1] == [s[k]];
      }
  }

  /** Replacing the first `c` by nothing, where the text before it has none, keeps what is on
      either side of it. */
  lemma RemoveFirstOf(a: string, c: char, b: string)
    requires c !in a
    ensures ReplaceFirst(a + [c] + b, [c], "") == a + b
  {
    var s := a + [c] + b;
    assert IsOccurrence(s, [c], |a|);
    forall i: nat | i < |a| ensures !IsOccurrence(s, [c], i) {
      assert s[i..i + 1][0] == a[i];
    }
    assert IndexOf(s, [c]) == Some(|a|);
    assert s[..|a|] + "" + s[|a| + 1..] == a + b;
  }

  /** `s.split(sep)[0]`: the text before the first occurrence of `sep`, or all of `s`. An empty
      separator splits into single characters, so the head is the first one; the empty text then
      has no pieces, and its missing head is read as "". */
  function SplitHead(s: string, sep: string): (r: string)
    ensures |r| <= |s|
    ensures !Contains(r, sep) || sep == []
  {
    if sep == [] then (if s == [] then [] else s[..1])
    else match IndexOf(s, sep)
    case None => s
    case Some(i) =>
      assert forall k: nat :: IsOccurrence(s[..i], sep, k) ==> IsOccurrence(s, sep, k) by {
        forall k: nat | IsOccurrence(s[..i], sep, k) ensures IsOccurrence(s, sep, k) {
          assert s[..i][k..k + |sep|] == s[k..k + |sep|];
        }
      }
      s[..i]
  }

  /** The head of a split is a prefix of the text. */
  lemma SplitHeadIsPrefix(s: string, sep: string)
    ensures SplitHead(s, sep) == s[..|SplitHead(s, sep)|]
  {
  }

  /** `s.split(sep)[1]` for a non-empty separator: the text between the first and the second
      occurrence of `sep` (or up to the end), and `None` (undefined) when `sep` does not occur. */
  function SplitSecond(s: string, sep: string): (r: Option<string>)
    requires sep != []
    ensures r.Some? <==> Contains(s, sep)
  {
    match IndexOf(s, sep)
    case None => None
    case Some(i) =>
      var j := i + |sep|;
      match IndexFrom(s, sep, j)
      case None => Some(s[j..])
      case Some(k) => Some(s[j..k])
  }

  /** `s.split(sep)` for a one-character separator: the maximal pieces between separators. */
  function Split(s: string, sep: char): (pieces: seq<string>)
    ensures |pieces| > 0
    ensures forall k :: 0 <= k < |pieces| ==> sep !in pieces[k]
  {
    if s == [] then [""]
    else
      var rest := Split(s[1..], sep);
      if s[0] == sep then [""] + rest
      else [[s[0]] + rest[0]] + rest[1..]
  }

  /** `pieces.join(sep)`. */
  function Join(pieces: seq<string>, sep: char): string
  {
    if pieces == [] then ""
    else if |pieces| == 1 then pieces[0]
    else pieces[0] + [sep] + Join(pieces[1..], sep)
  }

  /** Splitting loses nothing: joining the pieces gives the text back. */
  lemma {:induction false} JoinSplit(s: string, sep: char)
    ensures Join(Split(s, sep), sep) == s
  {
    if s != [] {
      var rest := Split(s[1..], sep);
      JoinSplit(s[1..], sep);
      if s[0] == sep {
        assert Split(s, sep) == [""] + rest;
        assert ([""] + rest)[1..] == rest;
        assert s == [sep] + s[1..];
      } else if |rest| == 1 {
        assert Split(s, sep) == [[s[0]] + rest[0]];
        assert s == [s[0]] + s[1..];
      } else {
        var pieces := [[s[0]] + rest[0]] + rest[1..];
        assert pieces[1..] == rest[1..];
        assert Join(rest, sep) == rest[0] + [sep] + Join(rest[1..], sep);
        assert s == [s[0]] + s[1..];
      }
    }
  }

  lemma {:induction false} SplitPieceThenSep(p: string, sep: char, t: string)
    requires sep !in p
    ensures Split(p + [sep] + t, sep) == [p] + Split(t, sep)
  {
    if p == [] {
      assert p + [sep] + t == [sep] + t;
      assert ([sep] + t)[1..] == t;
    } else {
      assert (p + [sep] + t)[1..] == p[1..] + [sep] + t;
      SplitPieceThenSep(p[1..], sep, t);
      assert [p[0]] + p[1..] == p;
    }
  }

  lemma {:induction false} SplitSinglePiece(p: string, sep: char)
    requires sep !in p
    ensures Split(p, sep) == [p]
  {
    if p != [] {
      SplitSinglePiece(p[1..], sep);
      assert [p[0]] + p[1..] == p;
    }
  }

  /** Joining pieces that do not contain the separator and splitting again gives the pieces back. */
  lemma {:induction false} SplitJoin(pieces: seq<string>, sep: char)
    requires |pieces| > 0
    requires forall k :: 0 <= k < |pieces| ==> sep !in pieces[k]
    ensures Split(Join(pieces, sep), sep) == pieces
  {
    if |pieces| == 1 {
      SplitSinglePiece(pieces[0], sep);
    } else {
      SplitJoin(pieces[1..], sep);
      SplitPieceThenSep(pieces[0], sep, Join(pieces[1..], sep));
      assert [pieces[0]] + pieces[1..] == pieces;
    }
  }

  /** The characters `String.prototype.trim` removes: ECMAScript WhiteSpace and LineTerminator. */
  predicate IsJsWhitespace(c: char) {
    c == '\t' || c == '\n' || c == '\U{000B}' || c == '\U{000C}' || c == '\r' || c == ' '
    || c == '\U{00A0}' || c == '\U{1680}' || ('\U{2000}' <= c <= '\U{200A}')
    || c == '\U{2028}' || c == '\U{2029}' || c == '\U{202F}' || c == '\U{205F}'
    || c == '\U{3000}' || c == '\U{FEFF}'
  }

  /** Neither end of `s` is whitespace. */
  predicate IsTrimmed(s: string) {
    s == [] || (!IsJsWhitespace(s[0]) && !IsJsWhitespace(s[|s| - 1]))
  }

  function TrimStart(s: string): (r: string)
    ensures |r| <= |s|
    ensures r != [] ==> !IsJsWhitespace(r[0])
    ensures forall i :: 0 <= i < |s| - |r| ==> IsJsWhitespace(s[i])
  {
    if s != [] && IsJsWhitespace(s[0]) then TrimStart(s[1..]) else s
  }

  function TrimEnd(s: string): (r: string)
    ensures |r| <= |s|
    ensures r != [] ==> !IsJsWhitespace(r[|r| - 1])
    ensures forall i :: |r| <= i < |s| ==> IsJsWhitespace(s[i])
  {
    if s != [] && IsJsWhitespace(s[|s| - 1]) then TrimEnd(s[..|s| - 1]) else s
  }

  /** `s.trim()`: `s` without its leading and trailing whitespace. */
  function Trim(s: string): (r: string)
    ensures IsTrimmed(r)
    ensures |r| <= |s|
  {
    var t := TrimStart(s);
    TrimEndIsPrefix(t);
    TrimEnd(t)
  }

  /** A text trims to nothing exactly when all of it is whitespace. */
  lemma BlankTrim(s: string)
    ensures Trim(s) == [] <==> forall i :: 0 <= i < |s| ==> IsJsWhitespace(s[i])
  {
    if forall i :: 0 <= i < |s| ==> IsJsWhitespace(s[i]) {
      TrimPadded(s, [], []);
      assert s + [] + [] == s;
    }
    if Trim(s) == [] {
      var t := TrimStart(s);
      assert t == [];
    }
  }

  /** `TrimEnd` only removes characters from the end. */
  lemma {:induction false} TrimEndIsPrefix(s: string)
    ensures TrimEnd(s) == s[..|TrimEnd(s)|]
  {
    if s != [] && IsJsWhitespace(s[|s| - 1]) {
      var s' := s[..|s| - 1];
      TrimEndIsPrefix(s');
      assert s'[..|TrimEnd(s')|] == s[..|TrimEnd(s')|];
    }
  }

  lemma {:induction false} TrimStartAllSpace(a: string, t: string)
    requires forall i :: 0 <= i < |a| ==> IsJsWhitespace(a[i])
    ensures TrimStart(a + t) == TrimStart(t)
  {
    if a != [] {
      assert (a + t)[0] == a[0];
      assert (a + t)[1..] == a[1..] + t;
      TrimStartAllSpace(a[1..], t);
    } else {
      assert a + t == t;
    }
  }

  lemma {:induction false} TrimEndAllSpace(t: string, b: string)
    requires forall i :: 0 <= i < |b| ==> IsJsWhitespace(b[i])
    ensures TrimEnd(t + b) == TrimEnd(t)
  {
    if b != [] {
      assert (t + b)[|t + b| - 1] == b[|b| - 1];
      assert (t + b)[..|t + b| - 1] == t + b[..|b| - 1];
      TrimEndAllSpace(t, b[..|b| - 1]);
    } else {
      assert t + b == t;
    }
  }

  /** Trimming text padded only with whitespace around a trimmed core gives the core back. */
  lemma TrimPadded(a: string, n: string, b: string)
    requires forall i :: 0 <= i < |a| ==> IsJsWhitespace(a[i])
    requires forall i :: 0 <= i < |b| ==> IsJsWhitespace(b[i])
    requires IsTrimmed(n)
    ensures Trim(a + n + b) == n
  {
    assert a + n + b == a + (n + b);
    TrimStartAllSpace(a, n + b);
    if n == [] {
      assert n + b == b;
      TrimStartAllSpace(b, []);
      assert b + [] == b;
    } else {
      assert TrimStart(n + b) == n + b;
      TrimEndAllSpace(n, b);
    }
  }

  lemma TrimOfTrimmed(n: string)
    requires IsTrimmed(n)
    ensures Trim(n) == n
  {
    TrimPadded([], n, []);
    assert [] + n + [] == n;
  }

  /** Trimming twice is trimming once. */
  lemma TrimIdempotent(s: string)
    ensures Trim(Trim(s)) == Trim(s)
  {
    TrimOfTrimmed(Trim(s));
  }

  /** ASCII case folding: the one place a letter changes under `toLowerCase` in this model. */
  function LowerChar(c: char): char {
    if 'A' <= c <= 'Z' then (c as int + 32) as char else c
  }

  /** `s.toLowerCase()` restricted to ASCII letters. */
  function ToLower(s: string): (r: string)
    ensures |r| == |s|
  {
    Seqs.Map(LowerChar, s)
  }

  lemma ToLowerConcat(a: string, b: string)
    ensures ToLower(a + b) == ToLower(a) + ToLower(b)
  {
    assert forall i :: 0 <= i < |a + b| ==> ToLower(a + b)[i] == (ToLower(a) + ToLower(b))[i];
  }

  lemma ToLowerIdempotent(s: string)
    ensures ToLower(ToLower(s)) == ToLower(s)
  {
    assert forall i :: 0 <= i < |s| ==> ToLower(ToLower(s))[i] == ToLower(s)[i];
  }
}
