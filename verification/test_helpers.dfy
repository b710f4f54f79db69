/** The decision logic of utils/testHelpers.ts: block-page detection, the guarded navigation
    that reports whether a visit succeeded, the swallow-or-rethrow rule of `waitForPageLoad`,
    and the price normalisation behind `formatPrice` and `isValidPrice`. Every browser read is
    an input. */
module TestHelpers {
  import opened Wrappers
  import opened Text
  import Seqs
  import Numerals

  /** Phrases whose presence, ignoring case, marks an anti-bot interstitial. */
  const BlockingIndicators: seq<string> := [
    "Sorry, you have been blocked",
    "Access denied",
    "Cloudflare",
    "Please complete the security check",
    "DDoS protection by Cloudflare",
    "Error 403",
    "Error 1020"
  ]

  /** What block detection reads from the page: the body text and the title, each `None` when
      its own read failed (each is caught separately) or gave null; `Unreadable` when the check
      throws outside those two reads. */
  datatype PageView = PageView(body: Option<string>, title: Option<string>) | Unreadable

  /** `text.toLowerCase().includes(indicator.toLowerCase())`. */
  predicate Mentions(text: string, indicator: string) {
    Contains(ToLower(text), ToLower(indicator))
  }

  /** The `.some` over an indicator list, from position `k` on. */
  predicate AnyIndicatorFrom(body: string, title: string, indicators: seq<string>, k: nat)
    requires k <= |indicators|
    ensures AnyIndicatorFrom(body, title, indicators, k) <==>
      exists j :: k <= j < |indicators| && (Mentions(body, indicators[j]) || Mentions(title, indicators[j]))
    decreases |indicators| - k
  {
    k < |indicators| &&
    (Mentions(body, indicators[k]) || Mentions(title, indicators[k])
     || AnyIndicatorFrom(body, title, indicators, k + 1))
  }

  /** `isPageBlocked`: some indicator occurs, ignoring case, in the body text or in the title;
      an unread body or title counts as empty, and an exception outside the two reads means
      "not blocked". */
  function IsPageBlocked(view: PageView): (blocked: bool)
    ensures blocked <==> (view.PageView? &&
      exists k :: 0 <= k < |BlockingIndicators| &&
        (Mentions(view.body.GetOr(""), BlockingIndicators[k])
         || Mentions(view.title.GetOr(""), BlockingIndicators[k])))
  {
    match view
    case Unreadable => false
    case PageView(body, title) => AnyIndicatorFrom(body.GetOr(""), title.GetOr(""), BlockingIndicators, 0)
  }

  /** A body that carries an indicator verbatim, anywhere, is a block page. */
  lemma IndicatorInBodyBlocks(before: string, k: nat, after: string, title: Option<string>)
    requires k < |BlockingIndicators|
    ensures IsPageBlocked(PageView(Some(before + BlockingIndicators[k] + after), title))
  {
    var ind := BlockingIndicators[k];
    ToLowerConcat(before + ind, after);
    ToLowerConcat(before, ind);
    ContainsInfix(ToLower(before), ToLower(ind), ToLower(after));
    assert Mentions(before + ind + after, ind);
  }

  /** Detection ignores case: lower-casing the body first changes nothing. */
  lemma BlockingIgnoresCase(body: string, title: Option<string>)
    ensures IsPageBlocked(PageView(Some(ToLower(body)), title)) == IsPageBlocked(PageView(Some(body), title))
  {
    ToLowerIdempotent(body);
  }

  /** A page whose body and title could not be read is never judged blocked. */
  lemma UnreadPageIsNotBlocked()
    ensures !IsPageBlocked(PageView(None, None))
    ensures !IsPageBlocked(Unreadable)
  {
    IndicatorsAreNonEmpty();
    forall k | 0 <= k < |BlockingIndicators|
      ensures !Mentions("", BlockingIndicators[k])
    {
      NothingMentionedInEmpty(BlockingIndicators[k]);
    }
  }

  /** No indicator is the empty phrase. */
  lemma IndicatorsAreNonEmpty()
    ensures forall k :: 0 <= k < |BlockingIndicators| ==> BlockingIndicators[k] != []
  {
  }

  /** The empty text mentions no non-empty phrase. */
  lemma NothingMentionedInEmpty(phrase: string)
    requires phrase != []
    ensures !Mentions("", phrase)
  {
    assert |ToLower(phrase)| > 0;
  }

  /** "DDoS protection by Cloudflare" can never be the only indicator that matches: any text
      mentioning it also mentions "Cloudflare". */
  lemma DdosIndicatorIsSubsumed(text: string)
    requires Mentions(text, BlockingIndicators[4])
    ensures Mentions(text, BlockingIndicators[2])
  {
    CloudflareInDdosIndicator();
    MentionsOccurrence(text, BlockingIndicators[4], BlockingIndicators[2], 19);
  }

  /** "Cloudflare" sits at position 19 of "DDoS protection by Cloudflare". */
  lemma CloudflareInDdosIndicator()
    ensures IsOccurrence(BlockingIndicators[4], BlockingIndicators[2], 19)
  {
    var ddos, cloudflare := BlockingIndicators[4], BlockingIndicators[2];
    assert ddos[19..29] == cloudflare;
  }

  /** A text that mentions a phrase mentions whatever occurs inside that phrase. */
  lemma MentionsOccurrence(text: string, phrase: string, part: string, i: nat)
    requires Mentions(text, phrase) && IsOccurrence(phrase, part, i)
    ensures Mentions(text, part)
  {
    var lower := ToLower(phrase);
    forall k | 0 <= k < |part| ensures lower[i + k] == ToLower(part)[k] {
      assert phrase[i..i + |part|][k] == part[k];
    }
    assert lower[i..i + |part|] == ToLower(part);
    assert IsOccurrence(lower, ToLower(part), i);
    ContainsTransitive(ToLower(text), lower, ToLower(part));
  }

  /** What `page.goto` gives: a response with its status, no response (null), or an exception. */
  datatype GotoOutcome = Response(status: int) | NoResponse | NavigationError

  /** `handleBlockedNavigation`: a visit succeeded when it produced a response that is not an
      error status on a block page. It never throws. */
  function HandleBlockedNavigation(outcome: GotoOutcome, after: PageView): (allowed: bool)
    ensures outcome.NoResponse? || outcome.NavigationError? ==> !allowed
    ensures outcome.Response? && outcome.status < 400 ==> allowed
    ensures outcome.Response? && outcome.status >= 400 ==> (allowed <==> !IsPageBlocked(after))
  {
    match outcome
    case NavigationError => false
    case NoResponse => false
    case Response(status) => !(status >= 400 && IsPageBlocked(after))
  }

  /** Why `waitForPageLoad` raised. */
  datatype LoadError = BlockedWithStatus(status: int) | LoadStateTimeout

  datatype LoadOutcome = Proceeded | Raised(error: LoadError)

  /** The first response seen has an error status and the page read after it is blocked: the
      `try` block throws `Page blocked with status …`. */
  predicate BlockedAtResponse(firstStatus: Option<int>, pageAtResponse: PageView) {
    firstStatus.Some? && firstStatus.value >= 400 && IsPageBlocked(pageAtResponse)
  }

  /** `waitForPageLoad` as a decision. `firstStatus` is the status of the first response seen
      (`None` when none came in time), `pageAtResponse` the page read after an error status,
      `loadCompletes` whether DOMContentLoaded arrived in time, and `pageOnError` the page read
      in the catch block. An error is re-raised only when that last read finds a block page. */
  function WaitForPageLoad(firstStatus: Option<int>, pageAtResponse: PageView, loadCompletes: bool,
                           pageOnError: PageView): (r: LoadOutcome)
    ensures r.Raised? <==>
      (BlockedAtResponse(firstStatus, pageAtResponse) || !loadCompletes) && IsPageBlocked(pageOnError)
    ensures r.Raised? && BlockedAtResponse(firstStatus, pageAtResponse) ==>
      r.error == BlockedWithStatus(firstStatus.value)
    ensures r.Raised? && !BlockedAtResponse(firstStatus, pageAtResponse) ==> r.error == LoadStateTimeout
    ensures r == Raised(LoadStateTimeout) ==> !loadCompletes
    ensures r.Raised? && r.error.BlockedWithStatus? ==>
      firstStatus == Some(r.error.status) && r.error.status >= 400 && IsPageBlocked(pageAtResponse)
    ensures loadCompletes && (firstStatus.None? || firstStatus.value < 400) ==> r == Proceeded
  {
    var thrown :=
      if BlockedAtResponse(firstStatus, pageAtResponse) then Some(BlockedWithStatus(firstStatus.value))
      else if !loadCompletes then Some(LoadStateTimeout)
      else None;
    match thrown
    case None => Proceeded
    case Some(e) => if IsPageBlocked(pageOnError) then Raised(e) else Proceeded
  }

  /** The characters `formatPrice` keeps: ASCII digits, '.' and ','. */
  predicate IsPriceChar(c: char) {
    Numerals.IsDecimalDigit(c) || c == '.' || c == ','
  }

  /** The string `formatPrice` hands to parseFloat: every other character dropped, then the
      first ',' (only the first) turned into '.'. */
  function NormalizePrice(price: string): (n: string)
    ensures forall i :: 0 <= i < |n| ==> IsPriceChar(n[i])
    ensures |n| == |Seqs.Filter(IsPriceChar, price)|
  {
    var kept := Seqs.Filter(IsPriceChar, price);
    assert forall i :: 0 <= i < |kept| ==> IsPriceChar(kept[i]) by {
      forall i | 0 <= i < |kept| ensures IsPriceChar(kept[i]) {
        assert kept[i] in kept;
      }
    }
    ReplaceFirst(kept, ",", ".")
  }

  /** Normalisation rewrites only the leftmost ',' of the kept characters, into '.'. */
  lemma NormalizeRewritesFirstComma(price: string)
    ensures var kept := Seqs.Filter(IsPriceChar, price);
      && (',' !in kept ==> NormalizePrice(price) == kept)
      && (',' in kept ==> exists i :: 0 <= i < |kept| && kept[i] == ',' && ',' !in kept[..i]
                                     && NormalizePrice(price) == kept[..i] + "." + kept[i + 1..])
  {
    ReplaceFirstChar(Seqs.Filter(IsPriceChar, price), ',', '.');
  }

  /** Normalisation keeps every digit of the price, in order. */
  lemma NormalizeKeepsDigits(price: string)
    ensures Seqs.Filter(Numerals.IsDecimalDigit, NormalizePrice(price))
         == Seqs.Filter(Numerals.IsDecimalDigit, price)
  {
    var kept := Seqs.Filter(IsPriceChar, price);
    Seqs.FilterFilter(IsPriceChar, Numerals.IsDecimalDigit, price);
    match IndexOf(kept, ",")
    case None =>
    case Some(i) =>
      var a, b := kept[..i], kept[i + 1..];
      assert kept[i] == kept[i..i + 1][0];
      Seqs.SplitAround(kept, i);
      Seqs.FilterSkip(Numerals.IsDecimalDigit, a, ',', b);
      Seqs.FilterSkip(Numerals.IsDecimalDigit, a, '.', b);
      assert NormalizePrice(price) == a + ['.'] + b;
  }

  /** The digits parseFloat reads at the start of a normalised price: an integer part and,
      after a '.', a fraction part. `None` stands for NaN (neither part has a digit). */
  function LeadingDecimalDigits(n: string): (r: Option<string>)
    ensures r.Some? ==> r.value != [] && forall i :: 0 <= i < |r.value| ==> Numerals.IsDecimalDigit(r.value[i])
  {
    var a := Numerals.DigitRun(n, 10);
    var fraction :=
      if a < |n| && n[a] == '.' then n[a + 1..][..Numerals.DigitRun(n[a + 1..], 10)] else [];
    if a == 0 && fraction == [] then None else Some(n[..a] + fraction)
  }

  predicate HasNonzeroDigit(ds: string) {
    exists i :: 0 <= i < |ds| && '1' <= ds[i] <= '9'
  }

  /** `isValidPrice`: the normalised price starts with a numeral (not NaN) whose value is
      positive, i.e. one of its digits is not zero. */
  predicate IsValidPrice(price: string)
    ensures IsValidPrice(price) ==> HasNonzeroDigit(price)
  {
    match LeadingDecimalDigits(NormalizePrice(price))
    case None => false
    case Some(digits) => LeadingDigitsComeFromPrice(price); HasNonzeroDigit(digits)
  }

  /** Every digit parseFloat reads comes from the price itself, so a positive reading needs a
      non-zero digit in the price. */
  lemma LeadingDigitsComeFromPrice(price: string)
    requires LeadingDecimalDigits(NormalizePrice(price)).Some?
    ensures HasNonzeroDigit(LeadingDecimalDigits(NormalizePrice(price)).value) ==> HasNonzeroDigit(price)
  {
    var n := NormalizePrice(price);
    var ds := LeadingDecimalDigits(n).value;
    if HasNonzeroDigit(ds) {
      var j :| 0 <= j < |ds| && '1' <= ds[j] <= '9';
      var c := ds[j];
      assert c in n by { DigitsAreInText(n, j); }
      NormalizeKeepsDigits(price);
      assert c in Seqs.Filter(Numerals.IsDecimalDigit, n);
      assert c in price;
      var i :| 0 <= i < |price| && price[i] == c;
    }
  }

  lemma DigitsAreInText(n: string, j: nat)
    requires LeadingDecimalDigits(n).Some? && j < |LeadingDecimalDigits(n).value|
    ensures LeadingDecimalDigits(n).value[j] in n
  {
    var a := Numerals.DigitRun(n, 10);
    if j < a {
      assert LeadingDecimalDigits(n).value[j] == n[j];
    } else {
      assert LeadingDecimalDigits(n).value[j] == n[a + 1 + (j - a)];
    }
  }

  /** A price with no digit at all normalises to something parseFloat reads as NaN. */
  lemma NoDigitIsNotAPrice(price: string)
    requires forall i :: 0 <= i < |price| ==> !Numerals.IsDecimalDigit(price[i])
    ensures LeadingDecimalDigits(NormalizePrice(price)).None?
    ensures !IsValidPrice(price)
  {
    var n := NormalizePrice(price);
    Seqs.FilterNone(Numerals.IsDecimalDigit, price);
    NormalizeKeepsDigits(price);
    Seqs.FilterEmpty(Numerals.IsDecimalDigit, n);
    var a := Numerals.DigitRun(n, 10);
    assert a == 0;
    if 0 < |n| && n[0] == '.' {
      var rest := n[1..];
      if 0 < |rest| {
        assert rest[0] == n[1];
      }
      assert Numerals.DigitRun(rest, 10) == 0;
    }
  }

  /** Dropping a label without price characters in front of price characters keeps exactly them. */
  lemma KeepPriceChars(currency: string, kept: string)
    requires forall i :: 0 <= i < |currency| ==> !IsPriceChar(currency[i])
    requires forall i :: 0 <= i < |kept| ==> IsPriceChar(kept[i])
    ensures Seqs.Filter(IsPriceChar, currency + kept) == kept
  {
    Seqs.FilterConcat(IsPriceChar, currency, kept);
    Seqs.FilterNone(IsPriceChar, currency);
    Seqs.FilterKeepsAll(IsPriceChar, kept);
  }

  lemma FirstCommaAfterDigits(whole: string, fraction: string)
    requires forall i :: 0 <= i < |whole| ==> Numerals.IsDecimalDigit(whole[i])
    ensures ReplaceFirst(whole + "," + fraction, ",", ".") == whole + "." + fraction
  {
    var kept := whole + "," + fraction;
    assert kept[|whole|..|whole| + 1] == ",";
    assert IsOccurrence(kept, ",", |whole|);
    assert forall i: nat :: i < |whole| ==> !IsOccurrence(kept, ",", i) by {
      forall i: nat | i < |whole| ensures !IsOccurrence(kept, ",", i) {
        assert kept[i..i + 1][0] == whole[i];
      }
    }
    assert IndexOf(kept, ",") == Some(|whole|);
    assert kept[..|whole|] == whole;
    assert kept[|whole| + 1..] == fraction;
  }

  lemma LeadingDigitsOfDecimal(whole: string, fraction: string)
    requires whole != [] && forall i :: 0 <= i < |whole| ==> Numerals.IsDecimalDigit(whole[i])
    requires forall i :: 0 <= i < |fraction| ==> Numerals.IsDecimalDigit(fraction[i])
    ensures LeadingDecimalDigits(whole + "." + fraction) == Some(whole + fraction)
  {
    var n := whole + "." + fraction;
    assert Numerals.DigitRun(n, 10) == |whole| by {
      assert forall i :: 0 <= i < |whole| ==> n[i] == whole[i];
      assert n[|whole|] == '.';
      assert Numerals.DigitValue('.') == 36;
    }
    assert n[|whole| + 1..] == fraction;
    assert Numerals.DigitRun(fraction, 10) == |fraction|;
    assert fraction[..|fraction|] == fraction;
    assert n[..|whole|] == whole;
  }

  /** Only the first ',' becomes '.': after a label and an integer part, the first comma turns
      into the decimal point, and every later ',' and '.' is kept as it is. */
  lemma FirstCommaOnly(currency: string, whole: string, rest: string)
    requires forall i :: 0 <= i < |currency| ==> !IsPriceChar(currency[i])
    requires forall i :: 0 <= i < |whole| ==> Numerals.IsDecimalDigit(whole[i])
    ensures NormalizePrice(currency + whole + "," + rest) == whole + "." + Seqs.Filter(IsPriceChar, rest)
  {
    KeepPriceHead(currency, whole, rest);
    FirstCommaAfterDigits(whole, Seqs.Filter(IsPriceChar, rest));
  }

  lemma KeepPriceHead(currency: string, whole: string, rest: string)
    requires forall i :: 0 <= i < |currency| ==> !IsPriceChar(currency[i])
    requires forall i :: 0 <= i < |whole| ==> Numerals.IsDecimalDigit(whole[i])
    ensures Seqs.Filter(IsPriceChar, currency + whole + "," + rest) == whole + "," + Seqs.Filter(IsPriceChar, rest)
  {
    var head := whole + ",";
    assert forall i :: 0 <= i < |head| ==> IsPriceChar(head[i]);
    KeepPriceChars(currency, head);
    Seqs.ConcatAssoc(currency, whole, ",");
    Seqs.FilterConcat(IsPriceChar, currency + head, rest);
  }

  /** Prices written like `US$12,34`: any label without digits, '.' or ',', then an integer part,
      a decimal comma and a fraction part. They normalise to `12.34` and are valid exactly when
      some digit is not zero. */
  lemma CommaDecimalPrice(currency: string, whole: string, fraction: string)
    requires forall i :: 0 <= i < |currency| ==> !IsPriceChar(currency[i])
    requires whole != [] && forall i :: 0 <= i < |whole| ==> Numerals.IsDecimalDigit(whole[i])
    requires forall i :: 0 <= i < |fraction| ==> Numerals.IsDecimalDigit(fraction[i])
    ensures NormalizePrice(currency + whole + "," + fraction) == whole + "." + fraction
    ensures IsValidPrice(currency + whole + "," + fraction) <==> HasNonzeroDigit(whole + fraction)
  {
    var kept := whole + "," + fraction;
    assert currency + whole + "," + fraction == currency + kept;
    assert forall i :: 0 <= i < |kept| ==> IsPriceChar(kept[i]);
    KeepPriceChars(currency, kept);
    FirstCommaAfterDigits(whole, fraction);
    LeadingDigitsOfDecimal(whole, fraction);
  }
}
