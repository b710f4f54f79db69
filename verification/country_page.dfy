/** pages/CountryPage.ts: the data read off a country page (its name, code, packages, tab
    texts and notice) and the plan comparison table. */
module CountryPage {
  import opened Wrappers
  import opened Text
  import Seqs
  import Numerals
  import opened SailyTypes

  /** `(text)?.trim() || ''`: a missing text reads as "". */
  function TrimmedOr(text: Option<string>): (r: string)
    ensures IsTrimmed(r)
    ensures text.None? ==> r == ""
  {
    match text
    case None => ""
    case Some(t) => Trim(t)
  }

  // ---------------------------------------------------------------- packages

  /** The reads `getAllPackages` makes on one package element: the first two paragraphs, the
      two price paragraphs, the text of the "%" element, whether the "best choice" badge is
      visible, and the radio input's `value`. */
  datatype PackageElement = PackageElement(
    dataAmountText: Option<string>,
    durationText: Option<string>,
    priceText: Option<string>,
    originalText: Option<string>,
    cashbackText: Option<string>,
    recommendedVisible: bool,
    inputValue: Option<string>)

  /** `parseInt(text.replace('%', '')) || undefined`, then `|| 0`: the parsed integer, with 0
      for a missing or unparsable text. */
  function CashbackPercentage(text: Option<string>): (pct: int)
    ensures text.None? ==> pct == 0
    ensures pct != 0 ==> text.Some? && Numerals.ParseInt(ReplaceFirst(text.value, "%", "")) == Some(pct)
    ensures text.Some? && Numerals.ParseInt(ReplaceFirst(text.value, "%", "")).None? ==> pct == 0
    ensures text.Some? && Numerals.ParseInt(ReplaceFirst(text.value, "%", "")).Some? ==>
      pct == Numerals.ParseInt(ReplaceFirst(text.value, "%", "")).value
  {
    match text
    case None => 0
    case Some(t) => Numerals.ParseInt(ReplaceFirst(t, "%", "")).GetOr(0)
  }

  /** A rendered percentage `<n>%` gives back `n`. */
  lemma CashbackOfRenderedPercent(n: nat)
    ensures CashbackPercentage(Some(Numerals.DecimalString(n) + "%")) == n
  {
    var digits := Numerals.DecimalString(n);
    var t := digits + "%";
    assert IsOccurrence(t, "%", |digits|);
    forall i: nat | i < |digits| ensures !IsOccurrence(t, "%", i) {
      assert t[i..i + 1][0] == digits[i];
      assert Numerals.IsDecimalDigit(digits[i]);
    }
    assert IndexOf(t, "%") == Some(|digits|);
    assert t[..|digits|] + "" + t[|digits| + 1..] == digits;
    Numerals.ParseIntDecimalString(n);
  }

  const UnlimitedMarker: string := "Nielimitowane"

  /** The discount every package with a crossed-out price is reported with. */
  const AssumedDiscount: int := 5

  /** The package record built from one element. */
  function ReadPackage(e: PackageElement): (p: DataPackage)
    ensures p.isUnlimited <==> Contains(p.dataAmount, UnlimitedMarker)
    ensures p.originalPrice.Some? <==> p.discountPercentage.Some?
    ensures p.discountPercentage.Some? ==> p.discountPercentage.value == AssumedDiscount
    ensures p.originalPrice.Some? ==> p.originalPrice.value != "" && IsTrimmed(p.originalPrice.value)
    ensures p.originalPrice.None? <==> TrimmedOr(e.originalText) == ""
    ensures IsTrimmed(p.dataAmount) && IsTrimmed(p.duration) && IsTrimmed(p.price)
    ensures p.dataAmount == TrimmedOr(e.dataAmountText) && p.duration == TrimmedOr(e.durationText)
    ensures p.price == TrimmedOr(e.priceText)
    ensures p.originalPrice.Some? ==> p.originalPrice.value == TrimmedOr(e.originalText)
    ensures p.cashbackPercentage == CashbackPercentage(e.cashbackText)
    ensures p.isRecommended == e.recommendedVisible && p.id == e.inputValue.GetOr("")
  {
    var dataAmount := TrimmedOr(e.dataAmountText);
    var original := TrimmedOr(e.originalText);
    var originalPrice := if original == "" then None else Some(original);
    DataPackage(
      e.inputValue.GetOr(""),
      dataAmount,
      TrimmedOr(e.durationText),
      TrimmedOr(e.priceText),
      originalPrice,
      if originalPrice.Some? then Some(AssumedDiscount) else None,
      CashbackPercentage(e.cashbackText),
      e.recommendedVisible,
      Contains(dataAmount, UnlimitedMarker))
  }

  /** `getAllPackages`: one record per package element, in page order. */
  method GetAllPackages(elements: seq<PackageElement>) returns (packages: seq<DataPackage>)
    ensures packages == Seqs.Map(ReadPackage, elements)
    ensures |packages| == |elements|
  {
    packages := [];
    for i := 0 to |elements|
      invariant packages == Seqs.Map(ReadPackage, elements[..i])
    {
      assert elements[..i + 1] == elements[..i] + [elements[i]];
      Seqs.MapAppend(ReadPackage, elements[..i], elements[i]);
      packages := packages + [ReadPackage(elements[i])];
    }
    assert elements[..|elements|] == elements;
  }

  // ---------------------------------------------------------------- page data

  /** `eSIM (do|na) ` occurs at `i`. */
  predicate TitlePrefixAt(title: string, i: nat) {
    IsOccurrence(title, "eSIM do ", i) || IsOccurrence(title, "eSIM na ", i)
  }

  function FirstTitlePrefixFrom(title: string, from: nat): (r: Option<nat>)
    ensures r.Some? ==> from <= r.value && TitlePrefixAt(title, r.value)
    ensures forall i: nat :: from <= i && (r.None? || i < r.value) ==> !TitlePrefixAt(title, i)
    decreases |title| - from
  {
    if from >= |title| then None
    else if TitlePrefixAt(title, from) then Some(from)
    else FirstTitlePrefixFrom(title, from + 1)
  }

  /** `countryName`: the title with its leftmost `eSIM do ` or `eSIM na ` removed. */
  function CountryName(title: string): (name: string)
    ensures (forall i: nat :: !TitlePrefixAt(title, i)) ==> name == title
    ensures (exists i: nat :: TitlePrefixAt(title, i)) ==> |name| == |title| - 8
  {
    match FirstTitlePrefixFrom(title, 0)
    case None => title
    case Some(i) => title[..i] + title[i + 8..]
  }

  /** A title `eSIM do <name>` or `eSIM na <name>` gives `<name>`. */
  lemma CountryNameOfTitle(prefix: string, name: string)
    requires prefix == "eSIM do " || prefix == "eSIM na "
    ensures CountryName(prefix + name) == name
  {
    var title := prefix + name;
    OccurrenceInMiddle([], prefix, name);
    assert [] + prefix + name == title;
    Seqs.CutAfterFirst(prefix, name, []);
    assert title[|prefix|..] == name;
    CountryNameOfPrefixedTitle(title);
  }

  /** A prefix standing after text that holds neither prefix is the one removed, where it stands:
      `Kup eSIM do Hiszpanii` gives `Kup Hiszpanii`. */
  lemma CountryNameOfInnerPrefix(before: string, prefix: string, after: string)
    requires prefix == "eSIM do " || prefix == "eSIM na "
    requires forall i: nat :: !TitlePrefixAt(before, i)
    ensures CountryName(before + prefix + after) == before + after
  {
    var title := before + prefix + after;
    var n := |before|;
    OccurrenceInMiddle(before, prefix, after);
    assert TitlePrefixAt(title, n);
    forall i: nat | i < n ensures !TitlePrefixAt(title, i) {
      NoTitlePrefixAcrossJoin(before, prefix, after, i);
    }
    assert FirstTitlePrefixFrom(title, 0) == Some(n);
    assert title[..n] == before;
    assert title[n + 8..] == after;
  }

  /** Before the appended prefix no prefix starts: inside `before` there is none, and one
      straddling the join would put the appended prefix's leading 'e' at one of its own
      positions 1 to 7, which hold no 'e'. */
  lemma NoTitlePrefixAcrossJoin(before: string, prefix: string, after: string, i: nat)
    requires prefix == "eSIM do " || prefix == "eSIM na "
    requires forall j: nat :: !TitlePrefixAt(before, j)
    requires i < |before|
    ensures !TitlePrefixAt(before + prefix + after, i)
  {
    var title := before + prefix + after;
    var n := |before|;
    if i + 8 <= n {
      assert title[i..i + 8] == before[i..i + 8];
      assert !TitlePrefixAt(before, i);
    } else if i + 8 <= |title| {
      TitlePrefixesHaveOneE();
      assert title[i..i + 8][n - i] == title[n] == prefix[0] == 'e';
    }
  }

  /** Each title prefix has its 'e' first and nowhere else. */
  lemma TitlePrefixesHaveOneE()
    ensures forall k :: 1 <= k < 8 ==> "eSIM do "[k] != 'e' && "eSIM na "[k] != 'e'
  {
  }

  /** A title that starts with `eSIM do ` or `eSIM na ` loses those eight characters. */
  lemma CountryNameOfPrefixedTitle(title: string)
    requires TitlePrefixAt(title, 0)
    ensures CountryName(title) == title[8..]
  {
    assert FirstTitlePrefixFrom(title, 0) == Some(0);
    assert title[..0] + title[8..] == title[8..];
  }

  /** A title without `eSIM ` is kept as it is. */
  lemma CountryNameWithoutPrefix(title: string)
    requires !Contains(title, "eSIM ")
    ensures CountryName(title) == title
  {
    TitlePrefixesStartWithEsim();
    forall i: nat ensures !TitlePrefixAt(title, i) {
      if TitlePrefixAt(title, i) {
        if IsOccurrence(title, "eSIM do ", i) {
          OccurrenceOfPrefix(title, "eSIM do ", "eSIM ", i);
        } else {
          OccurrenceOfPrefix(title, "eSIM na ", "eSIM ", i);
        }
        assert false;
      }
    }
  }

  /** Both title prefixes begin with `eSIM `. */
  lemma TitlePrefixesStartWithEsim()
    ensures "eSIM do "[..5] == "eSIM " && "eSIM na "[..5] == "eSIM "
  {
  }

  predicate IsNonEmpty(s: string) {
    s != ""
  }

  /** A tab's text split into lines, each trimmed, blank ones dropped; no text gives none. */
  function TabLines(text: Option<string>): (lines: seq<string>)
    ensures forall l :: l in lines ==> l != "" && IsTrimmed(l)
    ensures text.None? ==> lines == []
    ensures text.Some? ==> lines == Seqs.Filter(IsNonEmpty, Seqs.Map(Trim, Split(text.value, '\n')))
  {
    match text
    case None => []
    case Some(t) =>
      var trimmed := Seqs.Map(Trim, Split(t, '\n'));
      assert forall l :: l in trimmed ==> IsTrimmed(l);
      Seqs.Filter(IsNonEmpty, trimmed)
  }

  /** Lines joined with newlines are split back into the same lines. */
  lemma TabLinesOfJoinedLines(lines: seq<string>)
    requires |lines| > 0
    requires forall k :: 0 <= k < |lines| ==> lines[k] != "" && IsTrimmed(lines[k]) && '\n' !in lines[k]
    ensures TabLines(Some(Join(lines, '\n'))) == lines
  {
    SplitJoin(lines, '\n');
    forall k | 0 <= k < |lines| ensures Trim(lines[k]) == lines[k] {
      TrimOfTrimmed(lines[k]);
    }
    assert Seqs.Map(Trim, lines) == lines;
    Seqs.FilterKeepsAll(IsNonEmpty, lines);
  }

  /** Lines with surrounding whitespace are kept trimmed, not dropped; only the lines that are
      blank disappear, and the others keep their order. */
  lemma TabLinesOfPaddedLines(padded: seq<string>)
    requires |padded| > 0
    requires forall k :: 0 <= k < |padded| ==> '\n' !in padded[k]
    ensures TabLines(Some(Join(padded, '\n'))) == Seqs.Filter(IsNonEmpty, Seqs.Map(Trim, padded))
    ensures (forall k :: 0 <= k < |padded| ==> Trim(padded[k]) != "") ==>
      TabLines(Some(Join(padded, '\n'))) == Seqs.Map(Trim, padded)
  {
    SplitJoin(padded, '\n');
    if forall k :: 0 <= k < |padded| ==> Trim(padded[k]) != "" {
      Seqs.FilterKeepsAll(IsNonEmpty, Seqs.Map(Trim, padded));
    }
  }

  const EsimMarker: string := "/esim-"

  /** The end of the run of non-'/' characters starting at `j`. */
  function SlashFreeEnd(url: string, j: nat): (k: nat)
    requires j <= |url|
    ensures j <= k <= |url|
    ensures forall m :: j <= m < k ==> url[m] != '/'
    ensures k < |url| ==> url[k] == '/'
    decreases |url| - j
  {
    if j < |url| && url[j] != '/' then SlashFreeEnd(url, j + 1) else j
  }

  /** `\/esim-([^\/]+)\/` matches at `i`: the marker, one or more non-'/' characters, then '/'. */
  predicate CodeMatchAt(url: string, i: nat) {
    IsOccurrence(url, EsimMarker, i) &&
    var k := SlashFreeEnd(url, i + |EsimMarker|);
    i + |EsimMarker| < k < |url|
  }

  function FirstCodeMatchFrom(url: string, from: nat): (r: Option<nat>)
    ensures r.Some? ==> from <= r.value && CodeMatchAt(url, r.value)
    ensures forall i: nat :: from <= i && (r.None? || i < r.value) ==> !CodeMatchAt(url, i)
    decreases |url| - from
  {
    if from >= |url| then None
    else if CodeMatchAt(url, from) then Some(from)
    else FirstCodeMatchFrom(url, from + 1)
  }

  /** `extractCountryCodeFromURL`: the captured run of the leftmost match, or "" when nothing
      matches. */
  function ExtractCountryCodeFromUrl(url: string): (code: string)
    ensures code == "" <==> forall i: nat :: !CodeMatchAt(url, i)
    ensures '/' !in code
  {
    match FirstCodeMatchFrom(url, 0)
    case None => ""
    case Some(i) =>
      var j := i + |EsimMarker|;
      var code := url[j..SlashFreeEnd(url, j)];
      assert forall m :: 0 <= m < |code| ==> code[m] == url[j + m];
      code
  }

  /** No `/esim-` starts inside a prefix free of it when a '/' follows that prefix. */
  lemma NoMarkerBefore(prefix: string, tail: string)
    requires !Contains(prefix, EsimMarker)
    requires |tail| > 0 && tail[0] == '/'
    ensures forall i: nat :: i < |prefix| ==> !IsOccurrence(prefix + tail, EsimMarker, i)
  {
    var url := prefix + tail;
    var p := |prefix|;
    forall i: nat | i < p ensures !IsOccurrence(url, EsimMarker, i) {
      if i + |EsimMarker| <= p {
        assert url[i..i + |EsimMarker|] == prefix[i..i + |EsimMarker|];
        assert !IsOccurrence(prefix, EsimMarker, i);
      } else if i + |EsimMarker| <= |url| {
        assert url[i..i + |EsimMarker|][p - i] == url[p] == '/';
      }
    }
  }

  /** A match with no marker before it is the leftmost match. */
  lemma LeftmostCodeMatch(url: string, p: nat)
    requires CodeMatchAt(url, p)
    requires forall i: nat :: i < p ==> !IsOccurrence(url, EsimMarker, i)
    ensures FirstCodeMatchFrom(url, 0) == Some(p)
  {
  }

  /** A slash-free run from `j` ended by '/' at `k` is what `SlashFreeEnd` finds. */
  lemma SlashFreeRun(url: string, j: nat, k: nat)
    requires j <= k < |url| && url[k] == '/'
    requires forall m :: j <= m < k ==> url[m] != '/'
    ensures SlashFreeEnd(url, j) == k
  {
  }

  /** Where the pieces of `<prefix>/esim-<code>/<rest>` sit. */
  lemma AddressLayout(prefix: string, code: string, rest: string)
    requires '/' !in code
    ensures var url := prefix + EsimMarker + code + "/" + rest;
      var j := |prefix| + |EsimMarker|;
      && IsOccurrence(url, EsimMarker, |prefix|)
      && j + |code| < |url| && url[j + |code|] == '/' && url[j..j + |code|] == code
      && forall m :: j <= m < j + |code| ==> url[m] != '/'
  {
    var url := prefix + EsimMarker + code + "/" + rest;
    var p := |prefix|;
    var j := p + |EsimMarker|;
    assert url[p..j] == EsimMarker;
    assert url[j..j + |code|] == code;
    forall m | j <= m < j + |code| ensures url[m] != '/' {
      assert url[m] == code[m - j];
    }
  }

  /** An address with no earlier `/esim-` and a segment `/esim-<code>/` gives `<code>`. */
  lemma CountryCodeOfAddress(prefix: string, code: string, rest: string)
    requires !Contains(prefix, EsimMarker)
    requires code != "" && '/' !in code
    ensures ExtractCountryCodeFromUrl(prefix + EsimMarker + code + "/" + rest) == code
  {
    var tail := EsimMarker + code + "/" + rest;
    var url := prefix + EsimMarker + code + "/" + rest;
    assert url == prefix + tail;
    var p := |prefix|;
    var j := p + |EsimMarker|;
    NoMarkerBefore(prefix, tail);
    AddressLayout(prefix, code, rest);
    SlashFreeRun(url, j, j + |code|);
    LeftmostCodeMatch(url, p);
  }

  /** What `getCountryPageData` reads: the heading's text, the page address, the texts of the
      features, description and technical tabs, the notice's text and the package elements. */
  datatype CountryPageReads = CountryPageReads(
    title: Option<string>,
    url: string,
    featuresText: Option<string>,
    descriptionText: Option<string>,
    technicalText: Option<string>,
    noticeText: Option<string>,
    packageElements: seq<PackageElement>)

  /** `getCountryPageData`. */
  method GetCountryPageData(page: CountryPageReads) returns (data: CountryPageData)
    ensures data.countryName == CountryName(page.title.GetOr(""))
    ensures data.countryCode == ExtractCountryCodeFromUrl(page.url)
    ensures data.packages == Seqs.Map(ReadPackage, page.packageElements)
    ensures data.specialNotice.Some? <==> page.noticeText.GetOr("") != ""
    ensures data.specialNotice.Some? ==> data.specialNotice == page.noticeText
    ensures data.features == TabLines(page.featuresText)
    ensures data.description == TrimmedOr(page.descriptionText)
    ensures data.technicalSpecs == TabLines(page.technicalText)
  {
    var countryName := CountryName(page.title.GetOr(""));
    var features := TabLines(page.featuresText);
    var description := TrimmedOr(page.descriptionText);
    var technicalSpecs := TabLines(page.technicalText);
    var packages := GetAllPackages(page.packageElements);
    var notice := if page.noticeText.GetOr("") == "" then None else page.noticeText;
    data := CountryPageData(countryName, ExtractCountryCodeFromUrl(page.url), packages, notice,
      features, description, technicalSpecs);
  }

  // ---------------------------------------------------------------- comparison table

  /** The key of the `k`-th competitor column: `competitor_<k>`. */
  function CompetitorKey(k: nat): string {
    "competitor_" + Numerals.DecimalString(k)
  }

  /** Every competitor key is `competitor_` followed by at least one digit. */
  lemma CompetitorKeyPrefix(k: nat)
    ensures |CompetitorKey(k)| > 11 && CompetitorKey(k)[..11] == "competitor_"
  {
    var key := CompetitorKey(k);
    assert key[..11] == "competitor_";
  }

  lemma CompetitorKeyInjective(a: nat, b: nat)
    ensures CompetitorKey(a) == CompetitorKey(b) ==> a == b
  {
    if CompetitorKey(a) == CompetitorKey(b) {
      assert CompetitorKey(a)[11..] == Numerals.DecimalString(a);
      assert CompetitorKey(b)[11..] == Numerals.DecimalString(b);
      Numerals.DecimalStringInjective(a, b);
    }
  }

  /** The competitor map after the inner loop has visited cells `2..j-1`. */
  function CompetitorsBelow(cells: seq<Option<string>>, j: nat): map<string, string>
    requires j <= |cells| || j <= 2
  {
    if j <= 2 then map[] else CompetitorsBelow(cells, j - 1)[CompetitorKey(j - 2) := TrimmedOr(cells[j - 1])]
  }

  /** The competitor map of a row of `j` cells has exactly the keys `competitor_1` to
      `competitor_<j-2>`. */
  lemma {:induction false} CompetitorKeys(cells: seq<Option<string>>, j: nat)
    requires j <= |cells|
    ensures CompetitorsBelow(cells, j).Keys == set k: nat | 1 <= k <= j - 2 :: CompetitorKey(k)
    ensures |CompetitorsBelow(cells, j)| == if j > 2 then j - 2 else 0
  {
    if j > 2 {
      CompetitorKeys(cells, j - 1);
      CompetitorKeysStep(j - 2);
      var m := CompetitorsBelow(cells, j - 1);
      assert CompetitorsBelow(cells, j) == m[CompetitorKey(j - 2) := TrimmedOr(cells[j - 1])];
    }
  }

  /** In that map `competitor_<k>` holds cell `k + 1`, trimmed. */
  lemma {:induction false} CompetitorValues(cells: seq<Option<string>>, j: nat)
    requires j <= |cells|
    ensures forall k: nat :: 1 <= k <= j - 2 ==>
      CompetitorKey(k) in CompetitorsBelow(cells, j) && CompetitorsBelow(cells, j)[CompetitorKey(k)] == TrimmedOr(cells[k + 1])
  {
    if j > 2 {
      CompetitorValues(cells, j - 1);
      forall k: nat | 1 <= k <= j - 3 ensures CompetitorKey(k) != CompetitorKey(j - 2) {
        CompetitorKeyInjective(k, j - 2);
      }
    }
  }

  /** The keys up to `competitor_<n>` are those up to `competitor_<n-1>` and one new key. */
  lemma CompetitorKeysStep(n: nat)
    requires n >= 1
    ensures CompetitorKey(n) !in set k: nat | 1 <= k <= n - 1 :: CompetitorKey(k)
    ensures (set k: nat | 1 <= k <= n :: CompetitorKey(k))
         == (set k: nat | 1 <= k <= n - 1 :: CompetitorKey(k)) + {CompetitorKey(n)}
  {
    forall k: nat | 1 <= k <= n - 1 ensures CompetitorKey(k) != CompetitorKey(n) {
      CompetitorKeyInjective(k, n);
    }
    var below := set k: nat | 1 <= k <= n - 1 :: CompetitorKey(k);
    var keys := set k: nat | 1 <= k <= n :: CompetitorKey(k);
    forall x | x in keys ensures x in below + {CompetitorKey(n)} {
      var k: nat :| 1 <= k <= n && x == CompetitorKey(k);
      if k < n {
        assert x in below;
      }
    }
  }

  /** The record for one row with at least one cell. */
  function RowRecord(cells: seq<Option<string>>): (r: ComparisonTableData)
    ensures |cells| > 0 ==> r.feature == TrimmedOr(cells[0])
    ensures r.saily == if |cells| > 1 then TrimmedOr(cells[1]) else ""
    ensures |r.competitors| == if |cells| > 2 then |cells| - 2 else 0
    ensures r.competitors.Keys == set k: nat | 1 <= k <= |cells| - 2 :: CompetitorKey(k)
    ensures forall k: nat :: 1 <= k <= |cells| - 2 ==>
      CompetitorKey(k) in r.competitors && r.competitors[CompetitorKey(k)] == TrimmedOr(cells[k + 1])
  {
    CompetitorKeys(cells, |cells|);
    CompetitorValues(cells, |cells|);
    ComparisonTableData(
      if |cells| > 0 then TrimmedOr(cells[0]) else "",
      if |cells| > 1 then TrimmedOr(cells[1]) else "",
      CompetitorsBelow(cells, |cells|))
  }

  predicate HasCells(cells: seq<Option<string>>) {
    |cells| > 0
  }

  /** The records `getComparisonData` returns: one per row with cells, in row order. */
  function ComparisonData(rows: seq<seq<Option<string>>>): seq<ComparisonTableData> {
    Seqs.Map(RowRecord, Seqs.Filter(HasCells, rows))
  }

  /** The inner loop of `getComparisonData`: cell `j`, from the third on, is stored under
      `competitor_<j-1>`. */
  method ReadCompetitors(cells: seq<Option<string>>) returns (competitors: map<string, string>)
    ensures competitors == CompetitorsBelow(cells, |cells|)
  {
    competitors := map[];
    var j := 2;
    while j < |cells|
      invariant j == 2 || 2 < j <= |cells|
      invariant competitors == CompetitorsBelow(cells, j)
    {
      competitors := competitors[CompetitorKey(j - 1) := TrimmedOr(cells[j])];
      j := j + 1;
    }
  }

  /** `getComparisonData`: rows without cells are skipped; for each other row the inner loop
      fills the competitor map from the third cell on. */
  method GetComparisonData(rows: seq<seq<Option<string>>>) returns (data: seq<ComparisonTableData>)
    ensures data == ComparisonData(rows)
  {
    data := [];
    for i := 0 to |rows|
      invariant data == ComparisonData(rows[..i])
    {
      var cells := rows[i];
      assert rows[..i + 1] == rows[..i] + [cells];
      Seqs.FilterAppend(HasCells, rows[..i], cells);
      if |cells| == 0 {
        assert Seqs.Filter(HasCells, rows[..i + 1]) == Seqs.Filter(HasCells, rows[..i]);
        continue;
      }
      var feature := TrimmedOr(cells[0]);
      var saily := if |cells| > 1 then TrimmedOr(cells[1]) else "";
      var competitors := ReadCompetitors(cells);
      assert ComparisonTableData(feature, saily, competitors) == RowRecord(cells);
      data := data + [ComparisonTableData(feature, saily, competitors)];
      Seqs.MapAppend(RowRecord, Seqs.Filter(HasCells, rows[..i]), cells);
    }
    assert rows[..|rows|] == rows;
  }

  /** Rows without cells contribute nothing, so there are never more records than rows; when
      every row has cells the records are the rows' records, one for one. */
  lemma {:induction false} ComparisonDataRows(rows: seq<seq<Option<string>>>)
    ensures |ComparisonData(rows)| <= |rows|
    ensures (forall i :: 0 <= i < |rows| ==> |rows[i]| > 0) ==>
      |ComparisonData(rows)| == |rows| && forall i :: 0 <= i < |rows| ==> ComparisonData(rows)[i] == RowRecord(rows[i])
    ensures ComparisonData(rows + [[]]) == ComparisonData(rows)
  {
    if forall i :: 0 <= i < |rows| ==> |rows[i]| > 0 {
      Seqs.FilterKeepsAll(HasCells, rows);
    }
    Seqs.FilterAppend(HasCells, rows, []);
  }
}
