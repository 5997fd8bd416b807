/**
Reading and writing recurrence rules. `Parse` and `Print` say what the loops of
`ParseRecurrence` and `String` compute; the lemmas show that printing and parsing
are inverse up to the order of BYDAY, which never matters to a series.
*/
module RuleText {
  import opened Options
  import opened Calendar
  import opened Recurrence
  import opened Text

  /** Why a rule is refused. */
  datatype Reason =
    | Empty | NotAPair | BadFrequency | BadInterval | BadCount | BadUntil | BadDay
    | Unsupported | NoFrequency | ByDayNeedsWeekly | CountAndUntil

  datatype Parsed = Ok(rule: Rule) | Err(reason: Reason)

  // ---- the vocabulary ------------------------------------------------------------

  const CODES: seq<string> := ["SU", "MO", "TU", "WE", "TH", "FR", "SA"]

  function CodeOf(w: Weekday): string {
    CODES[w]
  }

  function WeekdayOfCode(code: string): Option<Weekday> {
    if code == "SU" then Some(0)
    else if code == "MO" then Some(1)
    else if code == "TU" then Some(2)
    else if code == "WE" then Some(3)
    else if code == "TH" then Some(4)
    else if code == "FR" then Some(5)
    else if code == "SA" then Some(6)
    else None
  }

  function FrequencyName(f: Frequency): string {
    match f
    case Unset => ""
    case Daily => "DAILY"
    case Weekly => "WEEKLY"
    case Monthly => "MONTHLY"
  }

  // ---- UNTIL ---------------------------------------------------------------------

  /** Four-digit year, two-digit month and day, if they name a real date. */
  function ParseDate(s: string): Option<Day>
    requires |s| == 8
  {
    if !AllDigits(s) then None
    else
      var c := Civil(NumberOf(s[..4]), NumberOf(s[4..6]), NumberOf(s[6..]));
      if ValidCivil(c) then Some(ToDay(c)) else None
  }

  /** Two-digit hour, minute and second, if they name a real time of day. */
  function ParseClock(s: string): Option<int>
    requires |s| == 6
  {
    if !AllDigits(s) then None
    else
      var h, m, sec := NumberOf(s[..2]), NumberOf(s[2..4]), NumberOf(s[4..]);
      if h < 24 && m < 60 && sec < 60 then Some(3600 * h + 60 * m + sec) else None
  }

  /** The three layouts of an UNTIL value; only the date form may leave out the time. */
  function ParseUntil(s: string): Option<Instant> {
    if |s| == 8 then
      match ParseDate(s)
      case Some(d) => Some(At(d, 0))
      case None => None
    else if (|s| == 15 || (|s| == 16 && s[15] == 'Z')) && s[8] == 'T' then
      match (ParseDate(s[..8]), ParseClock(s[9..15]))
      case (Some(d), Some(clock)) => Some(At(d, clock))
      case _ => None
    else None
  }

  function PrintClock(clock: int): string
    requires 0 <= clock < SECONDS_PER_DAY
  {
    Pad(clock / 3600, 2) + Pad(clock / 60 % 60, 2) + Pad(clock % 60, 2)
  }

  function PrintDate(c: Civil): string
    requires ValidCivil(c) && 0 <= c.year
  {
    Pad(c.year, 4) + Pad(c.month, 2) + Pad(c.day, 2)
  }

  /** Instants whose year has four digits, the only ones the UNTIL layouts can write. */
  predicate FourDigitYear(t: Instant) {
    0 <= YearOf(DayOf(t)) <= 9999
  }

  function PrintUntil(t: Instant): string
    requires FourDigitYear(t)
  {
    CivilOfDay(DayOf(t));
    PrintDate(FromDay(DayOf(t))) + "T" + PrintClock(ClockOf(t)) + "Z"
  }

  // ---- parsing -------------------------------------------------------------------

  function ParseDays(codes: seq<string>): Option<seq<Weekday>> {
    if codes == [] then Some([])
    else
      match (WeekdayOfCode(TrimSpace(codes[0])), ParseDays(codes[1..]))
      case (Some(w), Some(rest)) => Some([w] + rest)
      case _ => None
  }

  function ParsePair(key: string, value: string, r: Rule): Parsed {
    if key == "FREQ" then
      if value == "DAILY" then Ok(r.(freq := Daily))
      else if value == "WEEKLY" then Ok(r.(freq := Weekly))
      else if value == "MONTHLY" then Ok(r.(freq := Monthly))
      else Err(BadFrequency)
    else if key == "INTERVAL" then
      match Atoi(value)
      case Some(n) => if n >= 1 then Ok(r.(interval := n)) else Err(BadInterval)
      case None => Err(BadInterval)
    else if key == "COUNT" then
      match Atoi(value)
      case Some(n) => if n >= 1 then Ok(r.(count := n)) else Err(BadCount)
      case None => Err(BadCount)
    else if key == "UNTIL" then
      match ParseUntil(value)
      case Some(t) => Ok(r.(until := t))
      case None => Err(BadUntil)
    else if key == "BYDAY" then
      match ParseDays(Split(value, ','))
      case Some(days) => Ok(r.(byDay := r.byDay + days))
      case None => Err(BadDay)
    else Err(Unsupported)
  }

  function ParsePart(part: string, r: Rule): Parsed {
    if TrimSpace(part) == "" then Ok(r)
    else
      match Cut(part, '=')
      case None => Err(NotAPair)
      case Some((key, value)) => ParsePair(TrimSpace(key), TrimSpace(value), r)
  }

  function ParseParts(parts: seq<string>, r: Rule): Parsed {
    if parts == [] then Ok(r)
    else
      match ParsePart(parts[0], r)
      case Err(e) => Err(e)
      case Ok(next) => ParseParts(parts[1..], next)
  }

  function CheckRule(r: Rule): Parsed {
    if r.freq == Unset then Err(NoFrequency)
    else if r.byDay != [] && r.freq != Weekly then Err(ByDayNeedsWeekly)
    else if r.count > 0 && r.until != 0 then Err(CountAndUntil)
    else Ok(r)
  }

  const BLANK := Rule(Unset, 1, [], 0, 0)

  function Parse(text: string): Parsed {
    var raw := TrimPrefix(ToUpper(TrimSpace(text)), "RRULE:");
    if raw == "" then Err(Empty)
    else
      match ParseParts(Split(raw, ';'), BLANK)
      case Err(e) => Err(e)
      case Ok(r) => CheckRule(r)
  }

  /** The body of the BYDAY case: each code is appended as it is recognised. */
  method ReadDays(value: string, r: Rule) returns (p: Parsed)
    ensures p == match ParseDays(Split(value, ','))
                 case Some(days) => Ok(r.(byDay := r.byDay + days))
                 case None => Err(BadDay)
  {
    hide WeekdayOfCode, TrimSpace, Split;
    var codes, out := Split(value, ','), r;
    for i := 0 to |codes|
      invariant out == r.(byDay := out.byDay)
      invariant match ParseDays(codes)
                case Some(days) => ParseDays(codes[i..]).Some?
                  && r.byDay + days == out.byDay + ParseDays(codes[i..]).value
                case None => ParseDays(codes[i..]).None?
    {
      assert codes[i..][1..] == codes[i + 1..];
      var day := WeekdayOfCode(TrimSpace(codes[i]));
      if day.None? {
        return Err(BadDay);
      }
      out := out.(byDay := out.byDay + [day.value]);
    }
    return Ok(out);
  }

  method ParseRecurrence(text: string) returns (p: Parsed)
    ensures p == Parse(text)
  {
    var raw := TrimPrefix(ToUpper(TrimSpace(text)), "RRULE:");
    if raw == "" {
      return Err(Empty);
    }
    var parts, out := Split(raw, ';'), BLANK;
    for i := 0 to |parts|
      invariant ParseParts(parts, BLANK) == ParseParts(parts[i..], out)
    {
      hide ParsePair;
      assert parts[i..][1..] == parts[i + 1..];
      if TrimSpace(parts[i]) == "" {
        continue;
      }
      var pair := Cut(parts[i], '=');
      if pair.None? {
        return Err(NotAPair);
      }
      var step := ReadPair(TrimSpace(pair.value.0), TrimSpace(pair.value.1), out);
      if step.Err? {
        return step;
      }
      out := step.rule;
    }
    if out.freq == Unset {
      return Err(NoFrequency);
    }
    if |out.byDay| > 0 && out.freq != Weekly {
      return Err(ByDayNeedsWeekly);
    }
    if out.count > 0 && out.until != 0 {
      return Err(CountAndUntil);
    }
    return Ok(out);
  }

  /** The switch over the names of a rule's parts. */
  method ReadPair(key: string, value: string, r: Rule) returns (p: Parsed)
    ensures p == ParsePair(key, value, r)
  {
    if key == "BYDAY" {
      p := ReadDays(value, r);
    } else {
      p := ParsePair(key, value, r);
    }
  }

  // ---- printing ------------------------------------------------------------------

  /** The weekdays from w to Saturday that are in the set, in order. */
  function DaysFrom(sel: set<Weekday>, w: int): seq<Weekday>
    requires 0 <= w <= 7
    decreases 7 - w
  {
    if w == 7 then []
    else (if w in sel then [w] else []) + DaysFrom(sel, w + 1)
  }

  function SortDays(days: seq<Weekday>): seq<Weekday> {
    DaysFrom(Selected(days), 0)
  }

  function Codes(days: seq<Weekday>): (codes: seq<string>)
    ensures |codes| == |days|
  {
    seq(|days|, i requires 0 <= i < |days| => CodeOf(days[i]))
  }

  function FreqPart(r: Rule): seq<string> {
    ["FREQ=" + FrequencyName(r.freq)]
  }

  function IntervalPart(r: Rule): seq<string> {
    if r.interval > 1 then ["INTERVAL=" + Itoa(r.interval)] else []
  }

  function DayPart(r: Rule): seq<string> {
    if r.byDay != [] then ["BYDAY=" + Join(Codes(SortDays(r.byDay)), ',')] else []
  }

  function CountPart(r: Rule): seq<string> {
    if r.count > 0 then ["COUNT=" + Itoa(r.count)] else []
  }

  function UntilPart(r: Rule): seq<string>
    requires FourDigitYear(r.until)
  {
    if r.until != 0 then ["UNTIL=" + PrintUntil(r.until)] else []
  }

  function Parts(r: Rule): seq<string>
    requires FourDigitYear(r.until)
  {
    FreqPart(r) + (IntervalPart(r) + (DayPart(r) + (CountPart(r) + UntilPart(r))))
  }

  function Print(r: Rule): string
    requires FourDigitYear(r.until)
  {
    Join(Parts(r), ';')
  }

  lemma CodesOfConcat(a: seq<Weekday>, b: seq<Weekday>)
    ensures Codes(a + b) == Codes(a) + Codes(b)
  {
    hide CodeOf;
  }

  lemma DaysFromStep(sel: set<Weekday>, w: Weekday)
    ensures Codes(DaysFrom(sel, w)) == (if w in sel then [CodeOf(w)] else []) + Codes(DaysFrom(sel, w + 1))
  {
    hide CodeOf;
    var head: seq<Weekday> := if w in sel then [w] else [];
    CodesOfConcat(head, DaysFrom(sel, w + 1));
    assert Codes(head) == if w in sel then [CodeOf(w)] else [];
  }

  method SortByWeekday(days: seq<Weekday>) returns (out: seq<string>)
    ensures out == Codes(SortDays(days))
  {
    var seen := SelectedDays(days);
    hide Codes, CodeOf, Selected, DaysFrom;
    out := [];
    for w := 0 to 7
      invariant out + Codes(DaysFrom(seen, w)) == Codes(SortDays(days))
    {
      DaysFromStep(seen, w);
      if w in seen {
        out := out + [CodeOf(w)];
      }
    }
    NoDaysLeft(seen);
  }

  lemma NoDaysLeft(sel: set<Weekday>)
    ensures DaysFrom(sel, 7) == [] && Codes(DaysFrom(sel, 7)) == []
  {
  }

  method String(r: Rule) returns (s: string)
    requires FourDigitYear(r.until)
    ensures s == Print(r)
  {
    hide FourDigitYear, PrintUntil, Itoa, SortDays, Codes, Join, FrequencyName;
    var parts := ["FREQ=" + FrequencyName(r.freq)];
    if r.interval > 1 {
      parts := parts + ["INTERVAL=" + Itoa(r.interval)];
    }
    assert parts == FreqPart(r) + IntervalPart(r);
    if |r.byDay| > 0 {
      var codes := SortByWeekday(r.byDay);
      parts := parts + ["BYDAY=" + Join(codes, ',')];
    }
    assert parts == FreqPart(r) + IntervalPart(r) + DayPart(r);
    if r.count > 0 {
      parts := parts + ["COUNT=" + Itoa(r.count)];
    }
    assert parts == FreqPart(r) + IntervalPart(r) + DayPart(r) + CountPart(r);
    if r.until != 0 {
      parts := parts + ["UNTIL=" + PrintUntil(r.until)];
    }
    assert parts == FreqPart(r) + IntervalPart(r) + DayPart(r) + CountPart(r) + UntilPart(r);
    assert parts == Parts(r);
    s := Join(parts, ';');
  }

  // ---- rules that the parser can return ------------------------------------------

  predicate WellFormed(r: Rule) {
    && r.freq != Unset
    && 1 <= r.interval <= MAX_INT
    && 0 <= r.count <= MAX_INT
    && (r.byDay != [] ==> r.freq == Weekly)
    && !(r.count > 0 && r.until != 0)
    && FourDigitYear(r.until)
  }

  /** The rule as its canonical text gives it back. */
  function Canonical(r: Rule): Rule {
    r.(byDay := SortDays(r.byDay))
  }
}
