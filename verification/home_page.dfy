/** pages/HomePage.ts: the popular-destination list read from the home page's destination
    links, the checks built on it, and the console-error filter of the load check. */
module HomePage {
  import opened Wrappers
  import opened Text
  import Seqs
  import Numerals
  import opened SailyTypes
  import opened SearchModal

  /** `DEFAULT_MAX_DESTINATIONS`: at most this many links are inspected. */
  const MaxDestinations: nat := 10

  /** The path fragment every country page address carries. */
  const DestinationMarker: string := "/pl/esim-"

  const UltraPlan: string := "ultra-plan"
  const ChevronRight: string := "Chevron right"

  /** One link matched by the popular-destination selector: its `href` and its text content. */
  datatype DestinationLink = DestinationLink(href: Option<string>, text: Option<string>)

  /** `isValidDestination`: the address has the country marker somewhere and "ultra-plan"
      nowhere. */
  predicate IsValidDestination(href: string)
    ensures IsValidDestination(href) <==>
      (exists i: nat :: IsOccurrence(href, DestinationMarker, i)) &&
      (forall i: nat :: !IsOccurrence(href, UltraPlan, i))
  {
    Contains(href, DestinationMarker) && !Contains(href, UltraPlan)
  }

  /** The characters `[\d,]` matches. */
  predicate IsPriceDigit(c: char) {
    Numerals.IsDecimalDigit(c) || c == ','
  }

  /** `Od US\$[\d,]+` can start matching at `i`: the marker is there and one price digit follows. */
  predicate PriceMatchAt(text: string, i: nat) {
    IsOccurrence(text, PricePrefix, i) && i + |PricePrefix| < |text| && IsPriceDigit(text[i + |PricePrefix|])
  }

  /** The end of the run of price digits starting at `j`. */
  function PriceRunEnd(text: string, j: nat): (e: nat)
    requires j <= |text|
    ensures j <= e <= |text|
    ensures forall k :: j <= k < e ==> IsPriceDigit(text[k])
    ensures e < |text| ==> !IsPriceDigit(text[e])
    decreases |text| - j
  {
    if j < |text| && IsPriceDigit(text[j]) then PriceRunEnd(text, j + 1) else j
  }

  function FirstPriceMatchFrom(text: string, from: nat): (r: Option<nat>)
    ensures r.Some? ==> from <= r.value && PriceMatchAt(text, r.value)
    ensures forall i: nat :: from <= i && (r.None? || i < r.value) ==> !PriceMatchAt(text, i)
    decreases |text| - from
  {
    if from >= |text| then None
    else if PriceMatchAt(text, from) then Some(from)
    else FirstPriceMatchFrom(text, from + 1)
  }

  /** A price text: the marker followed by one or more price digits. */
  predicate IsPriceText(p: string) {
    |PricePrefix| < |p| && p[..|PricePrefix|] == PricePrefix
    && forall k :: |PricePrefix| <= k < |p| ==> IsPriceDigit(p[k])
  }

  /** The leftmost, greedy match of `Od US\$[\d,]+` in `text`, as its start and end. */
  function PriceMatch(text: string): (m: Option<(nat, nat)>)
    ensures m.None? <==> forall i: nat :: !PriceMatchAt(text, i)
    ensures m.Some? ==> PriceMatchAt(text, m.value.0)
    ensures m.Some? ==> forall i: nat :: i < m.value.0 ==> !PriceMatchAt(text, i)
    ensures m.Some? ==> m.value.0 + |PricePrefix| < m.value.1 <= |text| && IsPriceText(text[m.value.0..m.value.1])
    ensures m.Some? ==> m.value.1 == |text| || !IsPriceDigit(text[m.value.1])
  {
    match FirstPriceMatchFrom(text, 0)
    case None => None
    case Some(i) =>
      var e := PriceRunEnd(text, i + |PricePrefix|);
      assert text[i..e][..|PricePrefix|] == text[i..i + |PricePrefix|];
      Some((i, e))
  }

  /** `priceFrom`: the matched text, or "" when nothing matches. */
  function PriceFrom(text: string): (price: string)
    ensures price == "" || IsPriceText(price)
  {
    match PriceMatch(text)
    case None => ""
    case Some((i, e)) => text[i..e]
  }

  /** The text with its first price match cut out. */
  function WithoutPrice(text: string): (rest: string)
    ensures PriceMatch(text).None? ==> rest == text
    ensures PriceMatch(text).Some? ==>
      rest == text[..PriceMatch(text).value.0] + text[PriceMatch(text).value.1..]
    ensures |rest| <= |text|
  {
    match PriceMatch(text)
    case None => text
    case Some((i, e)) => text[..i] + text[e..]
  }

  /** `name`: the price match and then the first "Chevron right" removed, then trimmed. */
  function DestinationName(text: string): (name: string)
    ensures IsTrimmed(name)
    ensures !Contains(WithoutPrice(text), ChevronRight) ==> name == Trim(WithoutPrice(text))
  {
    Trim(ReplaceFirst(WithoutPrice(text), ChevronRight, ""))
  }

  /** `code`: the part of `href` after the first marker (up to a second one) with its first '/'
      removed, or "" when the marker is absent. */
  function DestinationCode(href: string): (code: string)
    ensures !Contains(href, DestinationMarker) ==> code == ""
  {
    match SplitSecond(href, DestinationMarker)
    case None => ""
    case Some(segment) => ReplaceFirst(segment, "/", "")
  }

  /** `extractDestinationData`: a record exactly when both name and code are non-empty. */
  function ExtractDestinationData(href: string, text: string): (r: Option<CountryDestination>)
    ensures r.Some? <==> DestinationName(text) != "" && DestinationCode(href) != ""
    ensures r.Some? ==> r.value.url == href && Contains(href, DestinationMarker)
    ensures r.Some? ==> r.value.name != "" && IsTrimmed(r.value.name) && r.value.code != ""
    ensures r.Some? ==> r.value.priceFrom == "" || IsPriceText(r.value.priceFrom)
  {
    var name := DestinationName(text);
    var code := DestinationCode(href);
    if name != "" && code != "" then Some(CountryDestination(name, code, PriceFrom(text), href)) else None
  }

  /** What every returned destination satisfies: a valid address, a non-empty trimmed name, a
      non-empty code, and a price that is empty or a price text. */
  predicate IsDestinationRecord(d: CountryDestination) {
    IsValidDestination(d.url) && d.name != "" && IsTrimmed(d.name) && d.code != ""
    && (d.priceFrom == "" || IsPriceText(d.priceFrom))
  }

  /** The link's text content, trimmed; "" when it has none. */
  function LinkText(link: DestinationLink): string {
    match link.text
    case None => ""
    case Some(t) => Trim(t)
  }

  /** What the loop makes of one link: nothing, or the one destination it describes. */
  function LinkDestination(link: DestinationLink): (ds: seq<CountryDestination>)
    ensures |ds| <= 1
    ensures forall k :: 0 <= k < |ds| ==> IsDestinationRecord(ds[k])
  {
    var href := link.href.GetOr("");
    var text := LinkText(link);
    if !IsValidDestination(href) then []
    else match ExtractDestinationData(href, text)
      case None => []
      case Some(d) => [d]
  }

  /** A link whose address mentions "ultra-plan" anywhere yields no destination, whatever its
      text. */
  lemma UltraPlanLinkSkipped(before: string, after: string, text: Option<string>)
    ensures LinkDestination(DestinationLink(Some(before + UltraPlan + after), text)) == []
  {
    ContainsInfix(before, UltraPlan, after);
  }

  /** The destinations the given links describe, in link order. */
  function DestinationsOf(links: seq<DestinationLink>): (ds: seq<CountryDestination>)
    ensures |ds| <= |links|
    ensures forall k :: 0 <= k < |ds| ==> IsDestinationRecord(ds[k])
  {
    if links == [] then []
    else DestinationsOf(links[..|links| - 1]) + LinkDestination(links[|links| - 1])
  }

  /** One more link, by cases on its address and its text: nothing added, or one destination. */
  lemma DestinationsStep(links: seq<DestinationLink>, i: nat, href: string, text: string)
    requires i < |links| && href == links[i].href.GetOr("") && text == LinkText(links[i])
    ensures !IsValidDestination(href) ==> DestinationsOf(links[..i + 1]) == DestinationsOf(links[..i])
    ensures IsValidDestination(href) && ExtractDestinationData(href, text).None? ==>
      DestinationsOf(links[..i + 1]) == DestinationsOf(links[..i])
    ensures IsValidDestination(href) && ExtractDestinationData(href, text).Some? ==>
      DestinationsOf(links[..i + 1]) == DestinationsOf(links[..i]) + [ExtractDestinationData(href, text).value]
  {
    assert links[..i + 1][..i] == links[..i];
    assert DestinationsOf(links[..i]) + [] == DestinationsOf(links[..i]);
  }

  /** The destinations `getPopularDestinations` returns for the links on the page. */
  function PopularDestinations(links: seq<DestinationLink>): (ds: seq<CountryDestination>)
    ensures |ds| <= MaxDestinations
    ensures forall k :: 0 <= k < |ds| ==> IsDestinationRecord(ds[k])
  {
    DestinationsOf(links[..if |links| < MaxDestinations then |links| else MaxDestinations])
  }

  /** `getPopularDestinations` after its first link has appeared: inspects the first
      `min(count, 10)` links in order, skipping invalid addresses and incomplete records. */
  method GetPopularDestinations(links: seq<DestinationLink>) returns (destinations: seq<CountryDestination>)
    ensures destinations == PopularDestinations(links)
    ensures |destinations| <= MaxDestinations
    ensures forall k :: 0 <= k < |destinations| ==> IsDestinationRecord(destinations[k])
  {
    var limit := if |links| < MaxDestinations then |links| else MaxDestinations;
    destinations := [];
    for i := 0 to limit
      invariant destinations == DestinationsOf(links[..i])
    {
      var link := links[i];
      var href := link.href.GetOr("");
      var text := LinkText(link);
      DestinationsStep(links, i, href, text);
      if !IsValidDestination(href) {
        continue;
      }
      var dest := ExtractDestinationData(href, text);
      if dest.Some? {
        destinations := destinations + [dest.value];
      }
    }
  }

  /** One more link at the end adds that link's destination, if any, at the end. */
  lemma DestinationsOfSnoc(links: seq<DestinationLink>, link: DestinationLink)
    ensures DestinationsOf(links + [link]) == DestinationsOf(links) + LinkDestination(link)
  {
    assert (links + [link])[..|links|] == links;
  }

  /** Destinations of consecutive runs of links concatenate, so the list keeps link order. */
  lemma {:induction false} DestinationsOfConcat(a: seq<DestinationLink>, b: seq<DestinationLink>)
    ensures DestinationsOf(a + b) == DestinationsOf(a) + DestinationsOf(b)
    decreases |b|
  {
    if b == [] {
      assert a + b == a;
      assert DestinationsOf(b) == [];
      assert DestinationsOf(a) + [] == DestinationsOf(a);
    } else {
      var b', last := b[..|b| - 1], b[|b| - 1];
      assert a + b == (a + b') + [last];
      assert b == b' + [last];
      DestinationsOfConcat(a, b');
      DestinationsOfSnoc(a + b', last);
      DestinationsOfSnoc(b', last);
      Seqs.ConcatAssoc(DestinationsOf(a), DestinationsOf(b'), LinkDestination(last));
      calc {
        DestinationsOf(a + b);
        DestinationsOf(a + b') + LinkDestination(last);
        DestinationsOf(a) + DestinationsOf(b') + LinkDestination(last);
        DestinationsOf(a) + (DestinationsOf(b') + LinkDestination(last));
        DestinationsOf(a) + DestinationsOf(b);
      }
    }
  }

  /** Links after the tenth are never inspected: appending any links to ten or more changes
      nothing, and the first ten contribute their destinations in order. */
  lemma OnlyFirstTenInspected(links: seq<DestinationLink>, more: seq<DestinationLink>)
    requires |links| >= MaxDestinations
    ensures PopularDestinations(links + more) == PopularDestinations(links)
    ensures PopularDestinations(links) ==
      DestinationsOf(links[..MaxDestinations - 1]) + LinkDestination(links[MaxDestinations - 1])
  {
    assert (links + more)[..MaxDestinations] == links[..MaxDestinations];
    assert links[..MaxDestinations][..MaxDestinations - 1] == links[..MaxDestinations - 1];
  }

  /** In a name, a space, the marker and price digits, the price match is everything after the
      space. */
  lemma PriceMatchAfterName(name: string, digits: string)
    requires '$' !in name
    requires digits != [] && forall k :: 0 <= k < |digits| ==> IsPriceDigit(digits[k])
    ensures var text := name + " " + PricePrefix + digits;
      PriceMatch(text) == Some((|name| + 1, |text|))
  {
    var text := name + " " + PricePrefix + digits;
    var n := |name|;
    assert '$' !in digits by {
      forall k | 0 <= k < |digits| ensures digits[k] != '$' {
        assert IsPriceDigit(digits[k]);
      }
    }
    MarkerAfterName(name, digits);
    assert text[n + 7] == digits[0];
    assert PriceMatchAt(text, n + 1);
    assert FirstPriceMatchFrom(text, 0) == Some(n + 1);
    forall k | n + 7 <= k < |text| ensures IsPriceDigit(text[k]) {
      assert text[k] == digits[k - n - 7];
    }
    assert PriceRunEnd(text, n + 7) == |text|;
  }

  /** A trimmed name not containing "Chevron right" does not gain it from a trailing space. */
  lemma NoChevronWithSpace(name: string)
    requires !Contains(name, ChevronRight)
    ensures !Contains(name + " ", ChevronRight)
  {
    var s := name + " ";
    forall i: nat ensures !IsOccurrence(s, ChevronRight, i) {
      if i + |ChevronRight| <= |name| {
        assert s[i..i + |ChevronRight|] == name[i..i + |ChevronRight|];
        assert !IsOccurrence(name, ChevronRight, i);
      } else if i + |ChevronRight| == |s| {
        assert s[i..i + |ChevronRight|][12] == ' ';
      }
    }
  }

  /** A country address `/pl/esim-<code>/` gives back its code. */
  lemma CodeOfCountryAddress(code: string)
    requires code != "" && '/' !in code
    ensures DestinationCode(DestinationMarker + code + "/") == code
  {
    var href := DestinationMarker + code + "/";
    var m := |DestinationMarker|;
    assert IsOccurrence(href, DestinationMarker, 0) by {
      assert href[..m] == DestinationMarker;
    }
    assert IndexOf(href, DestinationMarker) == Some(0);
    forall i: nat | i >= m ensures !IsOccurrence(href, DestinationMarker, i) {
      if i + m <= |href| {
        assert href[i..i + m][0] == href[i];
        assert href[i] == code[i - m];
      }
    }
    assert IndexFrom(href, DestinationMarker, m) == None;
    assert href[m..] == code + "/";
    var segment := code + "/";
    assert IsOccurrence(segment, "/", |code|);
    forall i: nat | i < |code| ensures !IsOccurrence(segment, "/", i) {
      assert segment[i..i + 1][0] == code[i];
    }
    assert IndexOf(segment, "/") == Some(|code|);
    assert segment[..|code|] + "" + segment[|code| + 1..] == code;
  }

  /** In "/pl/esim-" the '-' comes last and nowhere else. */
  lemma MarkerEndsInDash()
    ensures EndsInOnly(DestinationMarker, '-')
  {
    assert DestinationMarker[..|DestinationMarker| - 1] == "/pl/esim";
  }

  /** After a prefix without the marker, the first marker is the appended one: no occurrence can
      straddle the boundary, as the marker's last character '-' appears in it nowhere else. */
  lemma MarkerFirstAfterPrefix(prefix: string, rest: string)
    requires !Contains(prefix, DestinationMarker)
    ensures IndexOf(prefix + DestinationMarker + rest, DestinationMarker) == Some(|prefix|)
  {
    MarkerEndsInDash();
    AnchoredSepEnds(prefix, DestinationMarker, rest, '-');
    FirstOccurrenceFrom(prefix + DestinationMarker + rest, DestinationMarker, 0, |prefix|);
  }

  /** With the marker once, after a prefix without it, the segment after the marker is all the
      rest of the address. */
  lemma SegmentAfterMarker(prefix: string, rest: string)
    requires !Contains(prefix, DestinationMarker)
    requires !Contains(rest, DestinationMarker)
    ensures SplitSecond(prefix + DestinationMarker + rest, DestinationMarker) == Some(rest)
  {
    var href := prefix + DestinationMarker + rest;
    var start := |prefix| + |DestinationMarker|;
    MarkerFirstAfterPrefix(prefix, rest);
    forall i: nat | i >= start ensures !IsOccurrence(href, DestinationMarker, i) {
      if i + |DestinationMarker| <= |href| {
        assert href[i..i + |DestinationMarker|] == rest[i - start..i - start + |DestinationMarker|];
        assert !IsOccurrence(rest, DestinationMarker, i - start);
      }
    }
    assert IndexFrom(href, DestinationMarker, start) == None;
    assert href[start..] == rest;
  }

  /** A second marker ends the code: `<prefix>/pl/esim-<code>/<tail>/pl/esim-<more>` gives
      `<code><tail>`, whatever `<more>` holds. */
  lemma CodeBeforeSecondMarker(prefix: string, code: string, tail: string, more: string)
    requires !Contains(prefix, DestinationMarker)
    requires '/' !in code
    requires !Contains(code + "/" + tail, DestinationMarker)
    ensures DestinationCode(prefix + DestinationMarker + code + "/" + tail + DestinationMarker + more)
      == code + tail
  {
    var rest := code + "/" + tail;
    var head := prefix + DestinationMarker;
    Seqs.ConcatAssoc(head, code, "/");
    Seqs.ConcatAssoc(head, code + "/", tail);
    Seqs.ConcatAssoc(head, rest, DestinationMarker);
    Seqs.ConcatAssoc(head, rest + DestinationMarker, more);
    MarkerEndsInDash();
    PieceBetweenAnchored(prefix, DestinationMarker, rest, more, '-');
    RemoveFirstOf(code, '/', tail);
  }

  /** Any address with the marker once: the code is the segment after the marker with its first
      '/' removed, so the rest of the address after that '/' is kept. */
  lemma CodeOfAddress(prefix: string, code: string, tail: string)
    requires !Contains(prefix, DestinationMarker)
    requires '/' !in code
    requires !Contains(code + "/" + tail, DestinationMarker)
    ensures DestinationCode(prefix + DestinationMarker + code + "/" + tail) == code + tail
  {
    var rest := code + "/" + tail;
    Seqs.ConcatAssoc(prefix + DestinationMarker, code + "/", tail);
    Seqs.ConcatAssoc(prefix + DestinationMarker, code, "/");
    SegmentAfterMarker(prefix, rest);
    RemoveFirstOf(code, '/', tail);
  }

  /** Cutting the price out of a link text leaves the name and its trailing space. */
  lemma WithoutPriceAfterName(name: string, digits: string)
    requires '$' !in name
    requires digits != [] && forall k :: 0 <= k < |digits| ==> IsPriceDigit(digits[k])
    ensures WithoutPrice(name + " " + PricePrefix + digits) == name + " "
  {
    var text := name + " " + PricePrefix + digits;
    PriceMatchAfterName(name, digits);
    Seqs.CutAfterFirst(name + " ", PricePrefix, digits);
    assert text[|text|..] == [];
  }

  /** The name read from a link text made of a name, a space and a starting price. */
  lemma NameOfLinkText(name: string, digits: string)
    requires name != "" && IsTrimmed(name) && '$' !in name && !Contains(name, ChevronRight)
    requires digits != [] && forall k :: 0 <= k < |digits| ==> IsPriceDigit(digits[k])
    ensures DestinationName(name + " " + PricePrefix + digits) == name
  {
    WithoutPriceAfterName(name, digits);
    NoChevronWithSpace(name);
    TrimPadded("", name, " ");
    assert "" + name + " " == name + " ";
  }

  /** The price read from a link text made of a name, a space and a starting price. */
  lemma PriceOfLinkText(name: string, digits: string)
    requires '$' !in name
    requires digits != [] && forall k :: 0 <= k < |digits| ==> IsPriceDigit(digits[k])
    ensures PriceFrom(name + " " + PricePrefix + digits) == PricePrefix + digits
  {
    var text := name + " " + PricePrefix + digits;
    PriceMatchAfterName(name, digits);
    Seqs.CutAfterFirst(name + " ", PricePrefix, digits);
    assert text[|name| + 1..|text|] == text[|name| + 1..];
  }

  /** A name, a space and a price, followed by text that does not go on with price digits: the
      price match ends where the digits do. */
  lemma PriceMatchBeforeSuffix(name: string, digits: string, after: string)
    requires '$' !in name && '$' !in after
    requires digits != [] && forall k :: 0 <= k < |digits| ==> IsPriceDigit(digits[k])
    requires after == [] || !IsPriceDigit(after[0])
    ensures var text := name + " " + PricePrefix + digits + after;
      PriceMatch(text) == Some((|name| + 1, |name| + 7 + |digits|))
  {
    var head := name + " " + PricePrefix;
    var rest := digits + after;
    var text := head + rest;
    var n := |name|;
    var e := n + 7 + |digits|;
    Seqs.ConcatAssoc(head, digits, after);
    assert '$' !in rest by {
      forall k | 0 <= k < |digits| ensures digits[k] != '$' {
        assert IsPriceDigit(digits[k]);
      }
    }
    MarkerAfterName(name, rest);
    assert text[n + 7] == rest[0] == digits[0];
    assert PriceMatchAt(text, n + 1);
    assert FirstPriceMatchFrom(text, 0) == Some(n + 1);
    forall k | n + 7 <= k < e ensures IsPriceDigit(text[k]) {
      assert text[k] == rest[k - n - 7] == digits[k - n - 7];
    }
    if after != [] {
      assert text[e] == rest[|digits|] == after[0];
    }
    RunEndsAt(text, n + 7, e);
  }

  /** A run of price digits from `j` that stops at the end of the text or before a character
      that is not a price digit ends exactly there. */
  lemma RunEndsAt(text: string, j: nat, e: nat)
    requires j <= e <= |text|
    requires forall k :: j <= k < e ==> IsPriceDigit(text[k])
    requires e == |text| || !IsPriceDigit(text[e])
    ensures PriceRunEnd(text, j) == e
  {
  }

  /** Cutting the price out keeps what comes before it and what comes after it. */
  lemma WithoutPriceBeforeSuffix(name: string, digits: string, after: string)
    requires '$' !in name && '$' !in after
    requires digits != [] && forall k :: 0 <= k < |digits| ==> IsPriceDigit(digits[k])
    requires after == [] || !IsPriceDigit(after[0])
    ensures WithoutPrice(name + " " + PricePrefix + digits + after) == name + " " + after
  {
    var text := name + " " + PricePrefix + digits + after;
    PriceMatchBeforeSuffix(name, digits, after);
    assert text[..|name| + 1] == name + " ";
    assert text[|name| + 7 + |digits|..] == after;
  }

  /** In "Chevron right" the capital 'C' comes first and nowhere else. */
  lemma ChevronCapitalFirstOnly()
    ensures forall k :: 1 <= k < |ChevronRight| ==> ChevronRight[k] != 'C'
  {
  }

  /** In a name without "Chevron right", a space and then "Chevron right", the first occurrence
      is the appended one, so replacing it removes exactly that. */
  lemma ChevronRemovedAfterName(name: string)
    requires !Contains(name, ChevronRight)
    ensures ReplaceFirst(name + " " + ChevronRight, ChevronRight, "") == name + " "
  {
    var s := name + " " + ChevronRight;
    var n := |name| + 1;
    NoChevronWithSpace(name);
    ChevronCapitalFirstOnly();
    OccurrenceInMiddle(name + " ", ChevronRight, "");
    assert name + " " + ChevronRight + "" == s;
    forall i: nat | i < n ensures !IsOccurrence(s, ChevronRight, i) {
      if i + |ChevronRight| <= n {
        assert s[i..i + |ChevronRight|] == (name + " ")[i..i + |ChevronRight|];
        assert !IsOccurrence(name + " ", ChevronRight, i);
      } else if i + |ChevronRight| <= |s| {
        assert s[i..i + |ChevronRight|][n - i] == s[n] == 'C';
      }
    }
    assert IndexOf(s, ChevronRight) == Some(n);
    assert s[..n] == name + " " && s[n + |ChevronRight|..] == [];
  }

  /** A link text with the "Chevron right" icon label after the price gives the bare name: the
      price and the label are both cut out. */
  lemma NameOfLinkTextWithChevron(name: string, digits: string)
    requires name != "" && IsTrimmed(name) && '$' !in name && !Contains(name, ChevronRight)
    requires digits != [] && forall k :: 0 <= k < |digits| ==> IsPriceDigit(digits[k])
    ensures DestinationName(name + " " + PricePrefix + digits + ChevronRight) == name
  {
    assert ChevronRight[0] == 'C';
    WithoutPriceBeforeSuffix(name, digits, ChevronRight);
    ChevronRemovedAfterName(name);
    TrimPadded("", name, " ");
    assert "" + name + " " == name + " ";
  }

  /** A link text made of a name, a space and a starting price gives that name and price. */
  lemma NameAndPriceOfLinkText(name: string, digits: string)
    requires name != "" && IsTrimmed(name) && '$' !in name && !Contains(name, ChevronRight)
    requires digits != [] && forall k :: 0 <= k < |digits| ==> IsPriceDigit(digits[k])
    ensures DestinationName(name + " " + PricePrefix + digits) == name
    ensures PriceFrom(name + " " + PricePrefix + digits) == PricePrefix + digits
  {
    NameOfLinkText(name, digits);
    PriceOfLinkText(name, digits);
  }

  /** A link text made of a name and a starting price, on a country address, yields exactly
      that name, code, price and address. */
  lemma ExtractRoundTrip(name: string, digits: string, code: string)
    requires name != "" && IsTrimmed(name) && '$' !in name && !Contains(name, ChevronRight)
    requires digits != [] && forall k :: 0 <= k < |digits| ==> IsPriceDigit(digits[k])
    requires code != "" && '/' !in code
    ensures var href := DestinationMarker + code + "/";
      ExtractDestinationData(href, name + " " + PricePrefix + digits)
        == Some(CountryDestination(name, code, PricePrefix + digits, href))
  {
    NameAndPriceOfLinkText(name, digits);
    CodeOfCountryAddress(code);
  }

  /** The result of a check that may throw. */
  datatype Attempt = Returned(value: bool) | Threw

  /** `safeCheck`: the check's own answer, or false when it throws. */
  function SafeCheck(a: Attempt): (ok: bool)
    ensures ok <==> a == Returned(true)
  {
    match a
    case Returned(v) => v
    case Threw => false
  }

  /** Reading the popular destinations: `None` when a page read fails. With no link at all the
      wait for the first link times out, which throws as well. */
  function ReadPopularDestinations(links: Option<seq<DestinationLink>>): (r: Option<seq<CountryDestination>>)
    ensures r.Some? <==> links.Some? && |links.value| > 0
    ensures r.Some? ==> r.value == PopularDestinations(links.value)
  {
    match links
    case None => None
    case Some(ls) => if |ls| == 0 then None else Some(PopularDestinations(ls))
  }

  /** `hasPopularDestinations`. */
  function HasPopularDestinations(links: Option<seq<DestinationLink>>): (ok: bool)
    ensures ok <==> (ReadPopularDestinations(links).Some? && |ReadPopularDestinations(links).value| > 0
      && Contains(ReadPopularDestinations(links).value[0].priceFrom, "US$"))
  {
    SafeCheck(
      match ReadPopularDestinations(links)
      case None => Threw
      case Some(ds) => Returned(|ds| > 0 && Contains(ds[0].priceFrom, "US$")))
  }

  /** A price is empty or starts with `Od US$`, so it contains `US$` exactly when it is not empty. */
  lemma PriceShowsCurrency(p: string)
    requires p == "" || IsPriceText(p)
    ensures Contains(p, "US$") <==> p != ""
  {
    if p != "" {
      assert p[..|PricePrefix|] == PricePrefix;
      assert p[3..6] == PricePrefix[3..6];
      assert IsOccurrence(p, "US$", 3);
    }
  }

  /** The `US$` test of `hasPopularDestinations` only asks whether the first destination shows
      a price. */
  lemma HasPopularMeansFirstIsPriced(links: Option<seq<DestinationLink>>)
    ensures HasPopularDestinations(links) <==>
      (var r := ReadPopularDestinations(links); r.Some? && |r.value| > 0 && r.value[0].priceFrom != "")
  {
    var r := ReadPopularDestinations(links);
    if r.Some? && |r.value| > 0 {
      PriceShowsCurrency(r.value[0].priceFrom);
    }
  }

  /** `canNavigateToCountryPage`: its extra conditions on the first destination's name and
      address always hold, so it agrees with `hasPopularDestinations`. */
  function CanNavigateToCountryPage(links: Option<seq<DestinationLink>>): (ok: bool)
    ensures ok == HasPopularDestinations(links)
  {
    SafeCheck(
      match ReadPopularDestinations(links)
      case None => Threw
      case Some(ds) =>
        if |ds| == 0 then Returned(false)
        else
          var d := ds[0];
          Returned(|d.name| > 0 && Contains(d.url, DestinationMarker) && Contains(d.priceFrom, "US$")))
  }

  /** Console errors matching `/Failed to load resource|consent|network/` are not critical. */
  predicate IsBenignError(e: string) {
    Contains(e, "Failed to load resource") || Contains(e, "consent") || Contains(e, "network")
  }

  predicate IsCriticalError(e: string) {
    !IsBenignError(e)
  }

  function CriticalErrors(errors: seq<string>): seq<string> {
    Seqs.Filter(IsCriticalError, errors)
  }

  /** The filter leaves nothing exactly when every error is benign, and it keeps the critical
      errors in the order they were logged. */
  lemma NoCriticalErrorsIffAllBenign(errors: seq<string>)
    ensures |CriticalErrors(errors)| == 0 <==> forall i :: 0 <= i < |errors| ==> IsBenignError(errors[i])
    ensures forall e :: e in CriticalErrors(errors) <==> e in errors && !IsBenignError(e)
  {
    if |CriticalErrors(errors)| == 0 {
      Seqs.FilterEmpty(IsCriticalError, errors);
    }
    if forall i :: 0 <= i < |errors| ==> IsBenignError(errors[i]) {
      Seqs.FilterNone(IsCriticalError, errors);
    }
  }

  /** `loadsWithoutCriticalErrors`: `pageLoaded` says whether navigation, the cookie banner and
      the wait for the heading all completed; `errors` are the console errors logged by then. */
  function LoadsWithoutCriticalErrors(pageLoaded: bool, errors: seq<string>): (ok: bool)
    ensures ok <==> pageLoaded && forall i :: 0 <= i < |errors| ==> IsBenignError(errors[i])
  {
    NoCriticalErrorsIffAllBenign(errors);
    SafeCheck(if pageLoaded then Returned(|CriticalErrors(errors)| == 0) else Threw)
  }
}
