/**
Rule texts people type rather than those the service writes: other layouts of UNTIL, other
orders of the parts, other letter case; and what storing a typed rule keeps.
*/
module RuleMeaning {
  import opened Arithmetic
  import opened Options
  import opened Calendar
  import opened Text
  import opened Recurrence
  import opened Expansion
  import opened RuleText
  import opened RoundTrip
  import opened Events

  // ---- UNTIL ---------------------------------------------------------------------

  /** The date alone, and the date and time without the final letter. */
  function DateText(t: Instant): string
    requires FourDigitYear(t)
  {
    CivilOfDay(DayOf(t));
    PrintDate(FromDay(DayOf(t)))
  }

  function LocalText(t: Instant): string
    requires FourDigitYear(t)
  {
    DateText(t) + "T" + PrintClock(ClockOf(t))
  }

  /** Eight digits that read as a date are what that date is written as. */
  lemma DateWrites(s: string)
    requires |s| == 8 && ParseDate(s).Some?
    ensures var d := ParseDate(s).value;
            && 0 <= YearOf(d) <= 9999 && ValidCivil(FromDay(d)) && FromDay(d).year >= 0
            && PrintDate(FromDay(d)) == s
  {
    hide Pad, NumberOf, ToDay, IsLeap, FromDay, YearOf;
    var c := Civil(NumberOf(s[..4]), NumberOf(s[4..6]), NumberOf(s[6..]));
    PadOfNumber(s[..4]);
    PadOfNumber(s[4..6]);
    PadOfNumber(s[6..]);
    DayOfCivil(c);
    ParsedDateYear(s);
    assert s == s[..4] + s[4..6] + s[6..];
  }

  lemma ClockWrites(s: string)
    requires |s| == 6 && ParseClock(s).Some?
    ensures 0 <= ParseClock(s).value < SECONDS_PER_DAY && PrintClock(ParseClock(s).value) == s
  {
    hide Pad, NumberOf;
    var h, m, sec := NumberOf(s[..2]), NumberOf(s[2..4]), NumberOf(s[4..]);
    var clock := ParseClock(s).value;
    PadOfNumber(s[..2]);
    PadOfNumber(s[2..4]);
    PadOfNumber(s[4..]);
    Euclid(clock, 3600, h, 60 * m + sec);
    Euclid(clock, 60, 60 * h + m, sec);
    Euclid(60 * h + m, 60, h, m);
    assert s == s[..2] + s[2..4] + s[4..];
  }

  lemma LayoutsRead(t: Instant)
    requires FourDigitYear(t)
    ensures ParseUntil(PrintUntil(t)) == Some(t) && ParseUntil(LocalText(t)) == Some(t)
    ensures ClockOf(t) == 0 ==> ParseUntil(DateText(t)) == Some(t)
  {
    hide PrintDate, PrintClock, ParseDate, ParseClock, FromDay, ToDay, DayOf, ClockOf;
    UntilReads(t);
    var d, clock := DayOf(t), ClockOf(t);
    CivilOfDay(d);
    YearField(d);
    SplitInstant(t);
    DateReads(FromDay(d));
    ClockReads(clock);
    var s := LocalText(t);
    assert s[..8] == DateText(t) && s[9..15] == PrintClock(clock);
  }

  /** A text in one of the layouts is split into its date and its time. */
  lemma LayoutsWrite(s: string)
    requires ParseUntil(s).Some?
    ensures var t := ParseUntil(s).value;
            && FourDigitYear(t)
            && (s == PrintUntil(t) || s == LocalText(t) || (ClockOf(t) == 0 && s == DateText(t)))
  {
    hide ParseDate, ParseClock, PrintDate, PrintClock, FromDay, ToDay, YearOf;
    ParsedUntilYear(s);
    var date := s[..8];
    assert |s| == 8 ==> date == s;
    DateWrites(date);
    var d := ParseDate(date).value;
    if |s| == 8 {
      AtParts(d, 0);
    } else {
      ClockWrites(s[9..15]);
      AtParts(d, ParseClock(s[9..15]).value);
      assert s[..15] == date + "T" + s[9..15];
      if |s| == 16 {
        assert s == s[..15] + "Z";
      } else {
        assert s == s[..15];
      }
    }
  }

  /**
  UNTIL means an instant exactly in the three layouts: date, time and Z; date and time; and
  the date alone for its first second.
  */
  lemma UntilExactly(s: string, t: Instant)
    ensures ParseUntil(s) == Some(t)
            <==> FourDigitYear(t)
                 && (s == PrintUntil(t) || s == LocalText(t) || (ClockOf(t) == 0 && s == DateText(t)))
  {
    if ParseUntil(s) == Some(t) {
      LayoutsWrite(s);
    }
    if FourDigitYear(t) {
      LayoutsRead(t);
    }
    hide ParseUntil, PrintUntil, LocalText, DateText, FourDigitYear, ClockOf;
  }

  // ---- what each part may say ----------------------------------------------------

  /** A number is some decimal digits, perhaps signed, within 64 bits. */
  lemma NumberExactly(s: string, n: int)
    ensures Atoi(s) == Some(n) <==>
            && -0x8000_0000_0000_0000 <= n <= 0x7FFF_FFFF_FFFF_FFFF
            && exists sign, digits :: SignedNumber(s, sign, digits, n)
  {
    hide NumberOf;
    if Atoi(s) == Some(n) {
      var signed := s[0] == '+' || s[0] == '-';
      var sign, digits := if signed then s[..1] else "", if signed then s[1..] else s;
      assert s == sign + digits;
      assert signed ==> sign == [s[0]];
      assert sign == "" || sign == "+" || sign == "-";
      assert SignedNumber(s, sign, digits, n);
    }
    forall sign, digits | SignedNumber(s, sign, digits, n) && -MAX_INT - 1 <= n <= MAX_INT ensures Atoi(s) == Some(n) {
      assert digits[0] in digits;
      if sign == "" {
        assert s == digits;
      } else {
        assert s[0] == sign[0] && s[1..] == digits;
      }
    }
  }

  predicate SignedNumber(s: string, sign: string, digits: string, n: int) {
    && s == sign + digits && digits != "" && AllDigits(digits)
    && ((sign in {"", "+"} && n == NumberOf(digits)) || (sign == "-" && 0 - n == NumberOf(digits)))
  }

  /** The seven codes, Sunday first; nothing else names a day. */
  lemma DayCodes(code: string, w: Weekday)
    ensures WeekdayOfCode(code) == Some(w) <==> code == ["SU", "MO", "TU", "WE", "TH", "FR", "SA"][w]
    ensures CodeOf(w) == ["SU", "MO", "TU", "WE", "TH", "FR", "SA"][w]
  {
  }

  lemma {:induction false} DaysExactly(codes: seq<string>, days: seq<Weekday>)
    ensures ParseDays(codes) == Some(days) <==>
            |codes| == |days| && forall i :: 0 <= i < |days| ==> WeekdayOfCode(TrimSpace(codes[i])) == Some(days[i])
  {
    hide WeekdayOfCode, TrimSpace;
    if codes != [] && days != [] {
      DaysExactly(codes[1..], days[1..]);
      assert days == [days[0]] + days[1..];
      assert forall i :: 1 <= i < |days| ==> days[i] == days[1..][i - 1];
      assert forall i :: 1 <= i < |codes| ==> codes[i] == codes[1..][i - 1];
    }
  }

  /** What each of the five parts takes and sets; no other name and no other value is taken. */
  lemma PairExactly(key: string, value: string, r: Rule, next: Rule)
    ensures ParsePair(key, value, r) == Ok(next) <==>
            || (key == "FREQ" && value == "DAILY" && next == r.(freq := Daily))
            || (key == "FREQ" && value == "WEEKLY" && next == r.(freq := Weekly))
            || (key == "FREQ" && value == "MONTHLY" && next == r.(freq := Monthly))
            || (key == "INTERVAL" && next.interval >= 1 && Atoi(value) == Some(next.interval)
                && next == r.(interval := next.interval))
            || (key == "COUNT" && next.count >= 1 && Atoi(value) == Some(next.count) && next == r.(count := next.count))
            || (key == "UNTIL" && ParseUntil(value) == Some(next.until) && next == r.(until := next.until))
            || (key == "BYDAY" && next == r.(byDay := next.byDay)
                && exists days :: ParseDays(Split(value, ',')) == Some(days) && next.byDay == r.byDay + days)
  {
    hide Atoi, ParseUntil, ParseDays, Split;
  }

  /** A part that is neither blank nor a pair refuses the rule, wherever it stands. */
  lemma NotAPairRefuses(xs: seq<string>, part: string, ys: seq<string>, r: Rule)
    requires TrimSpace(part) != "" && Cut(part, '=').None?
    ensures ParseParts(xs + [part] + ys, r).Err?
  {
    hide ParsePart, ParseParts;
    ParsePartsOfConcat(xs + [part], ys, r);
    ParsePartsOfConcat(xs, [part], r);
    if ParseParts(xs, r).Ok? {
      OnePart(part, ParseParts(xs, r).rule);
      assert ParsePart(part, ParseParts(xs, r).rule) == Err(NotAPair) by { NoPair(part, ParseParts(xs, r).rule); }
    }
  }

  lemma NoPair(part: string, r: Rule)
    requires TrimSpace(part) != "" && Cut(part, '=').None?
    ensures ParsePart(part, r) == Err(NotAPair)
  {
    hide TrimSpace, Cut;
  }

  /** A text is accepted exactly if its parts are and they make a whole rule. */
  lemma AcceptedExactly(text: string, r: Rule)
    ensures Parse(text) == Ok(r) <==>
            && TrimPrefix(ToUpper(TrimSpace(text)), "RRULE:") != ""
            && ParseParts(Split(TrimPrefix(ToUpper(TrimSpace(text)), "RRULE:"), ';'), Rule(Unset, 1, [], 0, 0)) == Ok(r)
            && r.freq != Unset && (r.byDay != [] ==> r.freq == Weekly) && !(r.count > 0 && r.until != 0)
  {
    hide ParseParts, Split, TrimSpace, ToUpper;
  }

  // ---- the order of the parts ----------------------------------------------------

  /** The name of a part, if it is a pair. */
  function KeyOf(part: string): Option<string> {
    match Cut(part, '=')
    case None => None
    case Some((key, _)) => Some(TrimSpace(key))
  }

  lemma PairsCommute(k: string, v: string, l: string, w: string, r: Rule)
    requires k != l && ParsePair(k, v, r).Ok? && ParsePair(l, w, ParsePair(k, v, r).rule).Ok?
    ensures ParsePair(l, w, r).Ok?
    ensures ParsePair(k, v, ParsePair(l, w, r).rule) == ParsePair(l, w, ParsePair(k, v, r).rule)
  {
    hide Atoi, ParseUntil, ParseDays, Split;
  }

  lemma PartsCommute(a: string, b: string, r: Rule)
    requires KeyOf(a) != KeyOf(b) && ParsePart(a, r).Ok? && ParsePart(b, ParsePart(a, r).rule).Ok?
    ensures ParsePart(b, r).Ok?
    ensures ParsePart(a, ParsePart(b, r).rule) == ParsePart(b, ParsePart(a, r).rule)
  {
    hide ParsePair, TrimSpace, Cut;
    if TrimSpace(a) != "" && TrimSpace(b) != "" {
      var x, y := Cut(a, '=').value, Cut(b, '=').value;
      PairsCommute(TrimSpace(x.0), TrimSpace(x.1), TrimSpace(y.0), TrimSpace(y.1), r);
    }
  }

  lemma {:induction false} ParsePartsOfConcat(xs: seq<string>, ys: seq<string>, r: Rule)
    ensures ParseParts(xs + ys, r) ==
            match ParseParts(xs, r)
            case Err(e) => Err(e)
            case Ok(next) => ParseParts(ys, next)
  {
    hide ParsePart;
    if xs == [] {
      assert xs + ys == ys;
    } else {
      assert (xs + ys)[0] == xs[0] && (xs + ys)[1..] == xs[1..] + ys;
      match ParsePart(xs[0], r)
      case Err(_) =>
      case Ok(next) => ParsePartsOfConcat(xs[1..], ys, next);
    }
  }

  lemma TwoParts(a: string, b: string, r: Rule)
    ensures ParseParts([a, b], r) ==
            match ParsePart(a, r)
            case Err(e) => Err(e)
            case Ok(next) => ParsePart(b, next)
  {
    hide ParsePart, ParseParts;
    assert [a, b] == [a] + [b];
    ParsePartsOfConcat([a], [b], r);
    OnePart(a, r);
    if ParsePart(a, r).Ok? {
      OnePart(b, ParsePart(a, r).rule);
    }
  }

  lemma OnePart(a: string, r: Rule)
    ensures ParseParts([a], r) == ParsePart(a, r)
  {
    hide ParsePart;
    assert [a][1..] == [];
  }

  /** Parts with different names may stand in any order: swapping neighbours changes nothing. */
  lemma SwapParts(xs: seq<string>, a: string, b: string, ys: seq<string>, r: Rule)
    requires KeyOf(a) != KeyOf(b) && ParseParts(xs + [a, b] + ys, r).Ok?
    ensures ParseParts(xs + [b, a] + ys, r) == ParseParts(xs + [a, b] + ys, r)
  {
    hide ParsePart, KeyOf, ParseParts;
    ParsePartsOfConcat(xs + [a, b], ys, r);
    ParsePartsOfConcat(xs, [a, b], r);
    ParsePartsOfConcat(xs + [b, a], ys, r);
    ParsePartsOfConcat(xs, [b, a], r);
    var m := ParseParts(xs, r).rule;
    TwoParts(a, b, m);
    TwoParts(b, a, m);
    PartsCommute(a, b, m);
  }

  // ---- letter case, prefix and surrounding space ---------------------------------

  lemma LowerThenUpper(s: string)
    requires forall c :: c in s ==> Plain(c) || c == ';' || c == ':'
    ensures ToUpper(ToLower(s)) == s
    ensures forall i :: 0 <= i < |s| ==> !IsSpace(ToLower(s)[i])
  {
    forall i | 0 <= i < |s| ensures ToUpper(ToLower(s))[i] == s[i] && !IsSpace(ToLower(s)[i]) {
      assert s[i] in s;
    }
  }

  lemma PrintedChars(r: Rule)
    requires WellFormed(r)
    ensures forall c :: c in Print(r) ==> Plain(c) || c == ';'
  {
    hide Parts, Join, PlainText;
    PartsRead(r);
    JoinPlain(Parts(r), ';');
  }

  lemma NoColonNoPrefix(s: string)
    ensures HasPrefix(s, "RRULE:") ==> ':' in s
    ensures TrimPrefix("RRULE:" + s, "RRULE:") == s
  {
    if HasPrefix(s, "RRULE:") {
      assert s[5] == "RRULE:"[5];
    }
  }

  /** Parsing looks at the text in capitals, without surrounding space and without the prefix. */
  lemma SameBareText(t: string, s: string)
    requires TrimPrefix(ToUpper(TrimSpace(t)), "RRULE:") == TrimPrefix(ToUpper(TrimSpace(s)), "RRULE:")
    ensures Parse(t) == Parse(s)
  {
    hide ParseParts, Split, TrimSpace, ToUpper;
  }

  lemma SpacedAway(s: string, a: string, b: string)
    requires AllSpace(a) && AllSpace(b) && s != "" && forall c :: c in s ==> Plain(c) || c == ';' || c == ':'
    ensures ToUpper(TrimSpace(a + ToLower(s) + b)) == s
  {
    LowerThenUpper(s);
    hide IsSpace, ToLower, ToUpper, TrimSpace, Plain;
    TrimSpaceOf(a, ToLower(s), b);
  }

  lemma PrintedFacts(r: Rule)
    requires WellFormed(r)
    ensures Print(r) != "" && ':' !in Print(r) && Parse(Print(r)) == Ok(Canonical(r))
    ensures forall c :: c in Print(r) ==> Plain(c) || c == ';' || c == ':'
    ensures TrimPrefix(ToUpper(TrimSpace(Print(r))), "RRULE:") == Print(r)
  {
    hide Print, Parse, ParseParts, Split, TrimSpace, ToUpper, HasPrefix, FourDigitYear, Canonical;
    PrintedChars(r);
    PrintedSplits(r);
    ParseOfPrint(r);
  }

  lemma PrefixedFacts(p: string, prefix: string)
    requires p != "" && ':' !in p && forall c :: c in p ==> Plain(c) || c == ';' || c == ':'
    requires prefix == "" || prefix == "RRULE:"
    ensures prefix + p != "" && forall c :: c in prefix + p ==> Plain(c) || c == ';' || c == ':'
    ensures TrimPrefix(prefix + p, "RRULE:") == p
  {
    NoColonNoPrefix(p);
    hide HasPrefix;
    assert prefix == "" ==> prefix + p == p;
  }

  /** A rule typed in lower case, with or without the prefix, in any surrounding space, is that rule. */
  lemma LowerCaseReads(r: Rule, a: string, prefix: string, b: string)
    requires WellFormed(r) && AllSpace(a) && AllSpace(b) && (prefix == "" || prefix == "RRULE:")
    ensures Parse(a + ToLower(prefix + Print(r)) + b) == Ok(Canonical(r))
  {
    hide Print, Parse, IsSpace, ToLower, Plain, ToUpper, TrimSpace, HasPrefix, TrimPrefix, AllSpace, Canonical;
    PrintedFacts(r);
    PrefixedFacts(Print(r), prefix);
    SpacedAway(prefix + Print(r), a, b);
    SameBareText(a + ToLower(prefix + Print(r)) + b, Print(r));
  }

  // ---- what storing keeps --------------------------------------------------------

  lemma {:induction false} CanonicalKeepsWindow(r: Rule, start: Instant, from: Instant, to: Instant, n: nat)
    ensures Window(Canonical(r), start, from, to, n) == Window(r, start, from, to, n)
  {
    hide Series, Canonical;
    if n > 0 {
      CanonicalKeepsWindow(r, start, from, to, n - 1);
      CanonicalKeepsSeries(r, start, n - 1);
      CanonicalParts(r);
    }
  }

  lemma CanonicalParts(r: Rule)
    ensures Canonical(r).freq == r.freq && Canonical(r).count == r.count && Canonical(r).until == r.until
    ensures Canonical(r).interval == r.interval
  {
  }

  /** The dates of a form: the start as given, the end as given or two hours on; and what is refused. */
  lemma FormDates(input: Input)
    ensures var end := if input.endDate == 0 then input.startDate + 7200 else input.endDate;
            match Normalised(input)
            case None => input.startDate == 0 || end <= input.startDate
                         || (TrimSpace(input.recurrenceRule) != "" && Parse(input.recurrenceRule).Err?)
            case Some(clean) =>
              && input.startDate != 0 && input.startDate < end
              && clean.startDate == input.startDate && clean.endDate == end
              && (clean.recurrenceRule == "" <==> TrimSpace(input.recurrenceRule) == "")
  {
    if TrimSpace(input.recurrenceRule) != "" && Parse(input.recurrenceRule).Ok? {
      ParseIsWellFormed(input.recurrenceRule);
      PrintedIsNotBlank(Parse(input.recurrenceRule).rule);
    }
    hide Parse, Print, TrimSpace, WellFormed;
  }

  /** An event stored from a form repeats by the very rule typed: every window of it shows the same dates. */
  lemma StoredRuleIsTyped(input: Input, id: Id, from: Instant, to: Instant, limit: int)
    requires Normalised(input).Some? && TrimSpace(input.recurrenceRule) != ""
    ensures Parse(input.recurrenceRule).Ok?
    ensures var typed, e := Parse(input.recurrenceRule).rule, Stored(id, Normalised(input).value);
            && RuleOf(e) == Some(Canonical(typed))
            && OccurrencesOf(e, from, to, limit) == Expand(typed, input.startDate, from, to, limit)
  {
    var text := input.recurrenceRule;
    ParseIsWellFormed(text);
    var typed := Parse(text).rule;
    PrintedIsNotBlank(typed);
    ParseOfPrint(typed);
    hide Parse, Print, TrimSpace, WellFormed, Canonical, Window;
    CanonicalParts(typed);
    CanonicalKeepsWindow(typed, input.startDate, from, to, MAX_OCCURRENCE_SCAN);
  }
}
