/** The policy for an owner's proof-of-address documents and how long they stay current. */
module AddressPolicy {
  import opened Base
  import opened Calendar
  import opened KycPolicy

  datatype AddressStatus =
    | AddressNotStarted | AddressCreating | AddressCreationFailed | AddressInProgress
    | AddressManualReview | Current | Insufficient | AddressExpired
    | AddressRestartRequired | AddressAnomaly

  datatype AddressOutcome = AddressOutcome(status: AddressStatus, reason: Reason, currentUntil: Option<int>)

  // ---- Countries and dates of one document ----

  const COUNTRY_CODES := map[
    "AT" := "AT", "AUT" := "AT", "BE" := "BE", "BEL" := "BE", "BG" := "BG", "BGR" := "BG",
    "HR" := "HR", "HRV" := "HR", "CY" := "CY", "CYP" := "CY", "CZ" := "CZ", "CZE" := "CZ",
    "DK" := "DK", "DNK" := "DK", "EE" := "EE", "EST" := "EE", "FI" := "FI", "FIN" := "FI",
    "FR" := "FR", "FRA" := "FR", "DE" := "DE", "DEU" := "DE", "GR" := "GR", "GRC" := "GR",
    "HU" := "HU", "HUN" := "HU", "IE" := "IE", "IRL" := "IE", "IT" := "IT", "ITA" := "IT",
    "LV" := "LV", "LVA" := "LV", "LT" := "LT", "LTU" := "LT", "LU" := "LU", "LUX" := "LU",
    "MT" := "MT", "MLT" := "MT", "NL" := "NL", "NLD" := "NL", "PL" := "PL", "POL" := "PL",
    "PT" := "PT", "PRT" := "PT", "RO" := "RO", "ROU" := "RO", "SK" := "SK", "SVK" := "SK",
    "SI" := "SI", "SVN" := "SI", "ES" := "ES", "ESP" := "ES", "SE" := "SE", "SWE" := "SE",
    "IS" := "IS", "ISL" := "IS", "LI" := "LI", "LIE" := "LI", "NO" := "NO", "NOR" := "NO"]

  function NormalizeCountry(code: Option<string>): Option<string> {
    if code.Some? && Upper(code.value) in COUNTRY_CODES then Some(COUNTRY_CODES[Upper(code.value)]) else None
  }

  function ParseIsoDate(value: Option<string>): (day: Option<int>)
    ensures day.Some? ==> MonthOf(day.value) >= 1200
  {
    if value.Some? && IsIsoDate(value.value) then
      hide *;
      ParsedYearIsFull(value.value);
      Some(DayIn(value.value))
    else None
  }

  function DayIn(s: string): int
    requires IsIsoShape(s)
  {
    Utc(YearOf(s), MonthIn(s) - 1, DateIn(s))
  }

  lemma ParsedYearIsFull(s: string)
    requires IsIsoDate(s)
    ensures MonthOf(DayIn(s)) >= 1200
  {
    hide MonthStart, MonthOf, IsLeap, Digits, Utc, LengthOnCalendar;
    DigitsAreNatural(s[..4]);
    ReadsBackIff(YearOf(s), MonthIn(s) - 1, DateIn(s));
  }

  lemma {:induction false} DigitsAreNatural(s: string)
    requires forall i :: 0 <= i < |s| ==> IsDigit(s[i])
    ensures Digits(s) >= 0
  {
    if s != [] { DigitsAreNatural(s[..|s| - 1]); }
  }

  // ---- Three clamped months ----

  function Min(a: int, b: int): int { if a < b then a else b }

  function AddMonthsClamped(day: int, months: int): int {
    var targetMonth := MonthOf(day) % 12 + months;
    var targetYear := MonthOf(day) / 12 + targetMonth / 12;
    var finalDay := DayOfMonth(Utc(targetYear, targetMonth % 12 + 1, 0));
    Utc(targetYear, targetMonth % 12, Min(DayOfMonth(day), finalDay))
  }

  /** The clamped date is the same day of the target month, or that month's last day. */
  lemma ClampedDate(day: int, months: int)
    requires MonthOf(day) + months >= 1200
    ensures var m := MonthOf(day) + months;
            AddMonthsClamped(day, months) == MonthStart(m) + Min(DayOfMonth(day), MonthLength(m)) - 1
  {
    hide MonthStart;
    var m := MonthOf(day) + months;
    var targetMonth := MonthOf(day) % 12 + months;
    var targetYear := MonthOf(day) / 12 + targetMonth / 12;
    assert 12 * targetYear + targetMonth % 12 == m;
    MonthLengths(m);
    MonthOfIsUnique(MonthStart(m + 1) - 1, m);
    assert Utc(targetYear, targetMonth % 12 + 1, 0) == MonthStart(m + 1) - 1;
  }

  lemma ClampedIsMonotone(a: int, b: int, months: int)
    requires a <= b && MonthOf(a) + months >= 1200
    ensures AddMonthsClamped(a, months) <= AddMonthsClamped(b, months)
  {
    hide MonthStart;
    var p, q := MonthOf(a), MonthOf(b);
    if p > q && q + 1 < p { MonthStartIncreases(q + 1, p); }
    ClampedDate(a, months);
    ClampedDate(b, months);
    MonthLengths(p + months);
    MonthLengths(q + months);
    if p < q && p + months + 1 < q + months { MonthStartIncreases(p + months + 1, q + months); }
  }

  lemma ThreeMonthsAhead(day: int)
    requires MonthOf(day) >= 1200
    ensures 89 <= AddMonthsClamped(day, 3) - day <= 92
  {
    hide MonthStart, AddMonthsClamped, MonthOf;
    ClampedDate(day, 3);
    QuarterLengths(MonthOf(day), DayOfMonth(day));
  }

  // A quarter is 89 to 92 days long, and clamping into its last month never costs more than it can spare.
  lemma QuarterLengths(m: int, date: int)
    requires 1 <= date <= MonthLength(m)
    ensures MonthStart(m + 3) - MonthStart(m) <= 92
    ensures 89 <= MonthStart(m + 3) - MonthStart(m) + Min(date, MonthLength(m + 3)) - date
  {
    MonthLengths(m);
    MonthLengths(m + 1);
    MonthLengths(m + 2);
    MonthLengths(m + 3);
    hide MonthStart, IsLeap;
    var c := m % 12;
    assert (m + 1) % 12 == (c + 1) % 12 && (m + 2) % 12 == (c + 2) % 12 && (m + 3) % 12 == (c + 3) % 12;
    assert MonthStart(m + 3) - MonthStart(m) == MonthLength(m) + MonthLength(m + 1) + MonthLength(m + 2);
  }

  // ---- The outcome ----

  predicate IsApproved(d: AddressDocument) {
    d.feature.status == APPROVED && d.feature.warnings == []
  }

  predicate IsUsable(d: AddressDocument, residence: string, at: int) {
    && ParseIsoDate(d.issueDate).Some?
    && MS_PER_DAY * ParseIsoDate(d.issueDate).value <= at
    && NormalizeCountry(d.countryCode) == Some(residence)
  }

  function FreshUntil(d: AddressDocument): int {
    if ParseIsoDate(d.issueDate).Some? then MS_PER_DAY * AddMonthsClamped(ParseIsoDate(d.issueDate).value, 3) else 0
  }

  function Earliest(docs: seq<AddressDocument>): (t: int)
    requires docs != []
    ensures forall d :: d in docs ==> t <= FreshUntil(d)
    ensures exists d :: d in docs && t == FreshUntil(d)
  {
    hide FreshUntil;
    if |docs| == 1 then assert docs[0] in docs; FreshUntil(docs[0])
    else
      var front, last := docs[..|docs| - 1], docs[|docs| - 1];
      assert docs == front + [last];
      assert last in docs;
      Min(FreshUntil(last), Earliest(front))
  }

  function Plain(status: AddressStatus, reason: Reason): AddressOutcome { AddressOutcome(status, reason, None) }

  function ApprovedOutcome(docs: seq<AddressDocument>, residence: Option<string>, at: int): AddressOutcome {
    if docs == [] || residence.None? then Plain(AddressAnomaly, ProviderStatusAnomaly)
    else if exists d :: d in docs && !IsApproved(d) then Plain(AddressManualReview, AddressInsufficient)
    else if exists d :: d in docs && !IsUsable(d, residence.value, at) then
      Plain(AddressManualReview, AddressInsufficient)
    else if Earliest(docs) <= at then Plain(AddressExpired, AddressMissing)
    else AddressOutcome(Current, AddressApproved, Some(Earliest(docs)))
  }

  function EvaluateAddress(
    status: Option<DiditStatus>, decision: Option<Decision>, residence: Option<string>, at: int): (o: AddressOutcome)
    ensures o.status.Current? <==> o.currentUntil.Some?
    ensures o.status.Current? ==> o.currentUntil.value > at
    ensures !o.status.AddressCreating?
  {
    hide IsApproved, IsUsable;
    match status
    case Some(NotStarted) => Plain(AddressInProgress, AddressPending)
    case Some(InProgress) => Plain(AddressInProgress, AddressPending)
    case Some(Resubmitted) => Plain(AddressInProgress, AddressPending)
    case Some(InReview) => Plain(AddressManualReview, AddressInsufficient)
    case Some(Declined) => Plain(Insufficient, AddressInsufficient)
    case Some(Expired) => Plain(AddressRestartRequired, AddressMissing)
    case Some(Abandoned) => Plain(AddressRestartRequired, AddressMissing)
    case Some(KycExpired) => Plain(AddressRestartRequired, AddressMissing)
    case Some(AwaitingUser) => Plain(AddressAnomaly, ProviderStatusAnomaly)
    case None => Plain(AddressAnomaly, ProviderStatusAnomaly)
    case Some(Approved) =>
      ApprovedOutcome(if decision.Some? then decision.value.addressDocuments else [], residence, at)
  }

  /**
   * evaluateApprovedProofOfAddress: it collects one freshness date per document and stops at the
   * first unusable one.
   */
  method EvaluateApprovedAddress(docs: seq<AddressDocument>, residence: Option<string>,
      at: int) returns (o: AddressOutcome)
    ensures o == ApprovedOutcome(docs, residence, at)
  {
    hide IsApproved, IsUsable, FreshUntil;
    if docs == [] || residence.None? {
      return Plain(AddressAnomaly, ProviderStatusAnomaly);
    }
    if exists d :: d in docs && !IsApproved(d) {
      return Plain(AddressManualReview, AddressInsufficient);
    }
    var dates: seq<int> := [];
    for i := 0 to |docs|
      invariant |dates| == i
      invariant forall k :: 0 <= k < i ==> IsUsable(docs[k], residence.value, at) && dates[k] == FreshUntil(docs[k])
    {
      if !IsUsable(docs[i], residence.value, at) {
        assert docs[i] in docs;
        return Plain(AddressManualReview, AddressInsufficient);
      }
      dates := dates + [FreshUntil(docs[i])];
    }
    var earliest := dates[0];
    for i := 1 to |docs|
      invariant earliest == Earliest(docs[..i])
    {
      assert docs[..i + 1] == docs[..i] + [docs[i]];
      if dates[i] < earliest { earliest := dates[i]; }
    }
    assert docs[..|docs|] == docs;
    if earliest <= at {
      return Plain(AddressExpired, AddressMissing);
    }
    return AddressOutcome(Current, AddressApproved, Some(earliest));
  }

  /** When a set of documents is current, and until when. */
  lemma CurrentIff(docs: seq<AddressDocument>, residence: Option<string>, at: int)
    ensures ApprovedOutcome(docs, residence, at).status.Current? <==>
            && docs != [] && residence.Some?
            && forall d :: d in docs ==> IsApproved(d) && IsUsable(d, residence.value, at) && FreshUntil(d) > at
  {
    hide IsApproved, IsUsable, FreshUntil, Earliest;
    if docs != [] && residence.Some? {
      var until := Earliest(docs);
      var first :| first in docs && until == FreshUntil(first);
    }
  }

  lemma CurrentUntilIsEarliest(docs: seq<AddressDocument>, residence: Option<string>, at: int)
    requires ApprovedOutcome(docs, residence, at).status.Current?
    ensures var until := ApprovedOutcome(docs, residence, at).currentUntil;
            && until.Some? && (forall d :: d in docs ==> until.value <= FreshUntil(d))
            && exists d :: d in docs && until.value == FreshUntil(d)
  {
    hide IsApproved, IsUsable, FreshUntil, Earliest;
    var first :| first in docs && Earliest(docs) == FreshUntil(first);
  }

  /** The order in which the provider lists the documents does not matter. */
  lemma OrderDoesNotMatter(a: seq<AddressDocument>, b: seq<AddressDocument>, residence: Option<string>, at: int)
    requires multiset(a) == multiset(b)
    ensures ApprovedOutcome(a, residence, at) == ApprovedOutcome(b, residence, at)
  {
    hide IsApproved, IsUsable, FreshUntil, Earliest;
    assert forall d :: (d in a <==> d in multiset(a)) && (d in b <==> d in multiset(b));
    assert |a| == |multiset(a)| && |b| == |multiset(b)|;
    if a != [] {
      var p :| p in a && Earliest(a) == FreshUntil(p);
      var q :| q in b && Earliest(b) == FreshUntil(q);
    }
  }

  /** A current document was issued within the last 92 days and stays current for at most 92 more. */
  lemma CurrentWindow(docs: seq<AddressDocument>, residence: Option<string>, at: int)
    requires ApprovedOutcome(docs, residence, at).status.Current?
    ensures forall d :: d in docs ==> MS_PER_DAY * ParseIsoDate(d.issueDate).value > at - 92 * MS_PER_DAY
    ensures ApprovedOutcome(docs, residence, at).currentUntil.value <= at + 92 * MS_PER_DAY
  {
    hide IsApproved, ParseIsoDate, NormalizeCountry, AddMonthsClamped, MonthOf;
    forall d | d in docs
      ensures MS_PER_DAY * ParseIsoDate(d.issueDate).value > at - 92 * MS_PER_DAY
      ensures FreshUntil(d) <= at + 92 * MS_PER_DAY
    {
      assert IsUsable(d, residence.value, at);
      ThreeMonthsAhead(ParseIsoDate(d.issueDate).value);
    }
  }
}
