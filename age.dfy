/** The age helpers of the tool: the relative-age label of a commit
    (`getRelativeTime`) and the colour band used when listing branches
    (`getAgeColor`), with the clock passed in as `now`. Instants are integer
    milliseconds; `/` by a positive divisor is the floor division the source
    performs with `Math.floor`, negative elapsed times included. */
module Age {
  import opened SeqUtil
  import opened Text

  const MsPerMinute: int := 60 * 1000
  const MsPerDay: int := 24 * 60 * 60 * 1000

  /** The units of the label ladder. */
  datatype Unit = Year | Month | Week | Day | Hour | Minute

  /** Position of a unit in the ladder, largest unit first. */
  function Rank(u: Unit): nat {
    match u
    case Year => 0
    case Month => 1
    case Week => 2
    case Day => 3
    case Hour => 4
    case Minute => 5
  }

  /** The floored number of `u` in `elapsed` milliseconds, derived as the
      source derives it: seconds, minutes, hours and days by successive floors,
      then weeks, months and years from the days. */
  function Count(u: Unit, elapsed: int): int {
    var seconds := elapsed / 1000;
    var minutes := seconds / 60;
    var hours := minutes / 60;
    var days := hours / 24;
    match u
    case Year => days / 365
    case Month => days / 30
    case Week => days / 7
    case Day => days
    case Hour => hours
    case Minute => minutes
  }

  /** What the label says: "just now", or a count of one unit. */
  datatype RelativeAge = JustNow | Ago(count: nat, unit: Unit)

  /** The ladder: the first unit, largest first, whose count is above zero. */
  function Classify(elapsed: int): RelativeAge {
    if Count(Year, elapsed) > 0 then Ago(Count(Year, elapsed), Year)
    else if Count(Month, elapsed) > 0 then Ago(Count(Month, elapsed), Month)
    else if Count(Week, elapsed) > 0 then Ago(Count(Week, elapsed), Week)
    else if Count(Day, elapsed) > 0 then Ago(Count(Day, elapsed), Day)
    else if Count(Hour, elapsed) > 0 then Ago(Count(Hour, elapsed), Hour)
    else if Count(Minute, elapsed) > 0 then Ago(Count(Minute, elapsed), Minute)
    else JustNow
  }

  function Singular(u: Unit): string {
    match u
    case Year => "year"
    case Month => "month"
    case Week => "week"
    case Day => "day"
    case Hour => "hour"
    case Minute => "minute"
  }

  function Plural(u: Unit): string {
    match u
    case Year => "years"
    case Month => "months"
    case Week => "weeks"
    case Day => "days"
    case Hour => "hours"
    case Minute => "minutes"
  }

  /** The unit word: singular for a count of exactly one, plural otherwise. */
  function UnitWord(u: Unit, n: nat): string {
    if n == 1 then Singular(u) else Plural(u)
  }

  /** The text of a label: "<n> <unit> ago" or "just now". */
  function Render(a: RelativeAge): string {
    match a
    case JustNow => "just now"
    case Ago(n, u) => NatToString(n) + " " + UnitWord(u, n) + " ago"
  }

  /** `getRelativeTime(date)` evaluated at instant `now`. */
  function RelativeTime(now: int, date: int): string {
    Render(Classify(now - date))
  }

  /** The chosen unit is the largest one with a positive count: every larger
      unit counts zero or less, and the label carries that unit's count. */
  lemma ClassifyPicksLargestUnit(elapsed: int, n: nat, u: Unit)
    ensures Classify(elapsed) == Ago(n, u) <==>
              n == Count(u, elapsed) && n > 0 &&
              forall v :: Rank(v) < Rank(u) ==> Count(v, elapsed) <= 0
  {
    var d := elapsed / 1000 / 60 / 60 / 24;
    assert Count(Day, elapsed) == d;
  }

  /** The counts are nested: a positive count of a unit makes the count of
      every smaller unit positive too. */
  lemma LadderNested(elapsed: int, u: Unit, v: Unit)
    requires Rank(u) <= Rank(v) && Count(u, elapsed) > 0
    ensures Count(v, elapsed) > 0
  {
  }

  /** "just now" is exactly the label of an elapsed time under one minute. */
  lemma JustNowIffUnderAMinute(elapsed: int)
    ensures Classify(elapsed) == JustNow <==> elapsed < MsPerMinute
  {
    forall u | Count(u, elapsed) > 0
      ensures Count(Minute, elapsed) > 0
    {
      LadderNested(elapsed, u, Minute);
    }
  }

  /** A commit dated after `now` (clock skew) is labelled "just now". */
  lemma FutureCommitIsJustNow(now: int, date: int)
    requires date > now
    ensures RelativeTime(now, date) == "just now"
  {
    JustNowIffUnderAMinute(now - date);
  }

  /** Below years the ladder never reaches the next unit's size: at most
      12 months, 4 weeks, 6 days, 23 hours or 59 minutes. */
  lemma CountsStayBelowNextUnit(elapsed: int)
    ensures Classify(elapsed).Ago? && Classify(elapsed).unit == Month ==> Classify(elapsed).count <= 12
    ensures Classify(elapsed).Ago? && Classify(elapsed).unit == Week ==> Classify(elapsed).count <= 4
    ensures Classify(elapsed).Ago? && Classify(elapsed).unit == Day ==> Classify(elapsed).count <= 6
    ensures Classify(elapsed).Ago? && Classify(elapsed).unit == Hour ==> Classify(elapsed).count <= 23
    ensures Classify(elapsed).Ago? && Classify(elapsed).unit == Minute ==> Classify(elapsed).count <= 59
  {
  }

  /** The day count of the label is the single floor division by a day's length
      that the age band uses. */
  lemma LabelDaysAreBandDays(elapsed: int)
    ensures Count(Day, elapsed) == elapsed / MsPerDay
  {
  }

  // --- Reading a label back ---

  /** The unit and plurality a unit word names. */
  function ParseUnitWord(w: string): Option<(Unit, bool)> {
    if w == "year" then Some((Year, true)) else if w == "years" then Some((Year, false))
    else if w == "month" then Some((Month, true)) else if w == "months" then Some((Month, false))
    else if w == "week" then Some((Week, true)) else if w == "weeks" then Some((Week, false))
    else if w == "day" then Some((Day, true)) else if w == "days" then Some((Day, false))
    else if w == "hour" then Some((Hour, true)) else if w == "hours" then Some((Hour, false))
    else if w == "minute" then Some((Minute, true)) else if w == "minutes" then Some((Minute, false))
    else None
  }

  /** Reads a label back; a count-and-unit label must use the singular word
      exactly when the count is one. */
  function ParseRelativeAge(s: string): Option<RelativeAge> {
    if s == "just now" then Some(JustNow)
    else
      match IndexOf(s, " ")
      case None => None
      case Some(i) =>
        var digits, rest := s[..i], s[i + 1..];
        if digits == [] || !AllDigits(digits) || |rest| < 4 || rest[|rest| - 4..] != " ago" then None
        else
          match ParseUnitWord(rest[..|rest| - 4])
          case None => None
          case Some(w) =>
            var n := DigitsValue(digits);
            if w.1 == (n == 1) then Some(Ago(n, w.0)) else None
  }

  lemma UnitWordRoundTrip(u: Unit, n: nat)
    ensures ParseUnitWord(UnitWord(u, n)) == Some((u, n == 1))
  {
  }

  /** In "<digits> <rest>" the first space follows the digits. */
  lemma FirstSpaceAfterDigits(digits: string, rest: string)
    requires AllDigits(digits)
    ensures IndexOf(digits + " " + rest, " ") == Some(|digits|)
  {
    var s := digits + " " + rest;
    assert s[|digits|..|digits| + 1] == " ";
    assert OccursAt(s, " ", |digits|);
    forall j: nat | j < |digits|
      ensures !OccursAt(s, " ", j)
    {
      assert s[j..j + 1] == [digits[j]];
    }
  }

  /** Every label reads back as what it says: the label text determines the
      count, the unit, and the singular or plural form. */
  lemma {:induction false} RenderRoundTrip(a: RelativeAge)
    ensures ParseRelativeAge(Render(a)) == Some(a)
  {
    match a
    case JustNow =>
    case Ago(n, u) =>
      var digits, word := NatToString(n), UnitWord(u, n);
      var s := Render(a);
      assert s == digits + " " + (word + " ago");
      assert s[0] == digits[0];
      FirstSpaceAfterDigits(digits, word + " ago");
      assert s[..|digits|] == digits;
      var rest := s[|digits| + 1..];
      assert rest == word + " ago";
      assert rest[..|rest| - 4] == word;
      UnitWordRoundTrip(u, n);
  }

  /** Two ages with the same label are the same age. */
  lemma RenderInjective(a: RelativeAge, b: RelativeAge)
    ensures Render(a) == Render(b) ==> a == b
  {
    RenderRoundTrip(a);
    RenderRoundTrip(b);
  }

  // --- Age band ---

  /** The three display bands of `getAgeColor`: red, yellow and green. */
  datatype AgeBand = Fresh | Aging | Stale

  function Severity(b: AgeBand): nat {
    match b
    case Fresh => 0
    case Aging => 1
    case Stale => 2
  }

  /** Whole days elapsed since `date`, floored. */
  function DaysOld(now: int, date: int): int {
    (now - date) / MsPerDay
  }

  /** `getAgeColor(date)` evaluated at instant `now`. */
  function Band(now: int, date: int): AgeBand {
    var d := DaysOld(now, date);
    if d > 90 then Stale
    else if d > 30 then Aging
    else Fresh
  }

  /** The bands in terms of elapsed milliseconds: stale from 91 whole days on,
      aging from 31 whole days up to 91, fresh below 31 (future dates included). */
  lemma BandThresholds(now: int, date: int)
    ensures Band(now, date) == Stale <==> now - date >= 91 * MsPerDay
    ensures Band(now, date) == Aging <==> 31 * MsPerDay <= now - date < 91 * MsPerDay
    ensures Band(now, date) == Fresh <==> now - date < 31 * MsPerDay
  {
  }

  /** An older commit is never in a fresher band. */
  lemma BandNeverFresherWithAge(now: int, older: int, newer: int)
    requires older <= newer
    ensures Severity(Band(now, older)) >= Severity(Band(now, newer))
  {
    BandThresholds(now, older);
    BandThresholds(now, newer);
  }
}
