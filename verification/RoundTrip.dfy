/** Printing and parsing recurrence rules are inverse, and printing keeps every date. */
module RoundTrip {
  import opened Arithmetic
  import opened Options
  import opened Calendar
  import opened Recurrence
  import opened Text
  import opened RuleText

  // ---- text the printer writes ---------------------------------------------------

  predicate Plain(c: char) {
    'A' <= c <= 'Z' || IsDigit(c) || c == '=' || c == ','
  }

  predicate PlainText(s: string) {
    forall c :: c in s ==> Plain(c)
  }

  /** Upper-casing and trimming leave printed text as it is. */
  lemma PrintedIsStable(s: string)
    requires forall c :: c in s ==> Plain(c) || c == ';'
    ensures ToUpper(s) == s && TrimSpace(s) == s
  {
    if s != "" {
      assert s[0] in s && s[|s| - 1] in s;
    }
    forall i | 0 <= i < |s| ensures ToUpper(s)[i] == s[i] {
      assert s[i] in s;
    }
  }

  lemma ConcatPlain(a: string, b: string)
    requires PlainText(a) && PlainText(b)
    ensures PlainText(a + b)
  {
  }

  lemma {:induction false} JoinPlain(parts: seq<string>, sep: char)
    requires forall p :: p in parts ==> PlainText(p)
    ensures forall c :: c in Join(parts, sep) ==> Plain(c) || c == sep
  {
    if |parts| > 0 {
      assert parts[0] in parts;
      JoinPlain(parts[1..], sep);
    }
  }

  lemma {:induction false} ItoaPlain(n: nat)
    ensures Itoa(n) != "" && PlainText(Itoa(n))
  {
    NumberOfItoa(n);
  }

  // ---- one part at a time --------------------------------------------------------

  lemma PairPart(key: string, value: string, r: Rule)
    requires PlainText(key) && PlainText(value) && key != "" && '=' !in key
    ensures ParsePart(key + "=" + value, r) == ParsePair(key, value, r)
    ensures PlainText(key + "=" + value)
  {
    hide ParsePair, TrimSpace, Cut;
    CutAt(key, value, '=');
    PrintedIsStable(key);
    PrintedIsStable(value);
    ConcatPlain(key, "=");
    ConcatPlain(key + "=", value);
    PrintedIsStable(key + "=" + value);
  }

  /** A list of at most one part that turns rule r into rule next. */
  ghost predicate Reads(part: seq<string>, r: Rule, next: Rule) {
    && |part| <= 1
    && (part == [] ==> next == r)
    && (part != [] ==> PlainText(part[0]) && ParsePart(part[0], r) == Ok(next))
  }

  ghost predicate AllPlain(parts: seq<string>) {
    forall p :: p in parts ==> PlainText(p)
  }

  lemma ReadsThen(part: seq<string>, rest: seq<string>, r: Rule, next: Rule)
    requires Reads(part, r, next)
    ensures ParseParts(part + rest, r) == ParseParts(rest, next)
    ensures AllPlain(rest) ==> AllPlain(part + rest)
  {
    hide ParsePart;
    if part == [] {
      assert part + rest == rest;
    } else {
      assert (part + rest)[1..] == rest;
    }
  }

  lemma FreqReads(f: Frequency, r: Rule)
    requires f != Unset
    ensures Reads(["FREQ=" + FrequencyName(f)], r, r.(freq := f))
  {
    PairPart("FREQ", FrequencyName(f), r);
    assert "FREQ=" + FrequencyName(f) == "FREQ" + "=" + FrequencyName(f);
  }

  lemma NumberReads(key: string, n: nat, r: Rule)
    requires key == "INTERVAL" || key == "COUNT"
    requires 1 <= n <= MAX_INT
    ensures Reads([key + "=" + Itoa(n)], r, if key == "COUNT" then r.(count := n) else r.(interval := n))
  {
    ItoaPlain(n);
    AtoiOfItoa(n);
    PairPart(key, Itoa(n), r);
  }

  // ---- BYDAY ---------------------------------------------------------------------

  lemma CodeReads(w: Weekday)
    ensures WeekdayOfCode(TrimSpace(CodeOf(w))) == Some(w)
    ensures PlainText(CodeOf(w)) && CodeOf(w) != "" && ',' !in CodeOf(w)
  {
    PrintedIsStable(CodeOf(w));
  }

  lemma {:induction false} CodesRead(days: seq<Weekday>)
    ensures ParseDays(Codes(days)) == Some(days)
    ensures forall c :: c in Codes(days) ==> PlainText(c) && ',' !in c
  {
    hide WeekdayOfCode, TrimSpace, CodeOf;
    if days != [] {
      CodesRead(days[1..]);
      CodeReads(days[0]);
      assert Codes(days)[1..] == Codes(days[1..]);
      assert Codes(days) == [CodeOf(days[0])] + Codes(days[1..]);
      assert days == [days[0]] + days[1..];
    }
  }

  lemma {:induction false} DaysFromMembers(sel: set<Weekday>, w: int)
    requires 0 <= w <= 7
    ensures forall d: Weekday :: d in DaysFrom(sel, w) <==> w <= d && d in sel
    decreases 7 - w
  {
    if w < 7 {
      var rest := DaysFrom(sel, w + 1);
      DaysFromMembers(sel, w + 1);
      assert DaysFrom(sel, w) == if w in sel then [w] + rest else rest by {
        assert [] + rest == rest;
      }
      hide DaysFrom;
    }
  }

  lemma {:induction false} DaysFromSorted(sel: set<Weekday>, w: int)
    requires 0 <= w <= 7
    ensures forall i, j :: 0 <= i < j < |DaysFrom(sel, w)| ==> DaysFrom(sel, w)[i] < DaysFrom(sel, w)[j]
    decreases 7 - w
  {
    if w < 7 {
      var rest := DaysFrom(sel, w + 1);
      DaysFromSorted(sel, w + 1);
      DaysFromMembers(sel, w + 1);
      forall i | 0 <= i < |rest| ensures w < rest[i] {
        assert rest[i] in rest;
      }
    }
  }

  /** Sorting BYDAY keeps its days, each once, Sunday first; sorting again changes nothing. */
  lemma SortDaysMeaning(days: seq<Weekday>)
    ensures forall d: Weekday :: d in SortDays(days) <==> d in days
    ensures forall i, j :: 0 <= i < j < |SortDays(days)| ==> SortDays(days)[i] < SortDays(days)[j]
    ensures Selected(SortDays(days)) == Selected(days)
    ensures SortDays(SortDays(days)) == SortDays(days)
    ensures SortDays(days) == [] <==> days == []
  {
    hide DaysFrom;
    DaysFromMembers(Selected(days), 0);
    DaysFromSorted(Selected(days), 0);
    assert Selected(SortDays(days)) == Selected(days);
    if days != [] {
      assert days[0] in SortDays(days);
    } else if SortDays(days) != [] {
      assert SortDays(days)[0] in SortDays(days);
    }
  }

  lemma DaysRead(r: Rule, into: Rule)
    requires r.byDay != []
    ensures Reads(DayPart(r), into, into.(byDay := into.byDay + SortDays(r.byDay)))
  {
    var days := SortDays(r.byDay);
    var value := Join(Codes(days), ',');
    hide SortDays, Codes, Split, Join, ParsePart, TrimSpace, Selected;
    SortDaysMeaning(r.byDay);
    CodesRead(days);
    SplitOfJoin(Codes(days), ',');
    JoinPlain(Codes(days), ',');
    assert PlainText(value);
    PairPart("BYDAY", value, into);
    assert "BYDAY=" + value == "BYDAY" + "=" + value;
  }

  // ---- UNTIL ---------------------------------------------------------------------

  lemma {:induction false} PadTwo(n: nat)
    requires n < 100
    ensures |Pad(n, 2)| == 2 && AllDigits(Pad(n, 2)) && NumberOf(Pad(n, 2)) == n
  {
    assert Pow10(2) == 100 by { assert Pow10(1) == 10; }
    NumberOfPad(n, 2);
  }

  lemma PadFour(n: nat)
    requires n < 10000
    ensures |Pad(n, 4)| == 4 && AllDigits(Pad(n, 4)) && NumberOf(Pad(n, 4)) == n
  {
    assert Pow10(4) == 10000 by { assert Pow10(2) == 100 by { assert Pow10(1) == 10; } assert Pow10(3) == 1000; }
    NumberOfPad(n, 4);
  }

  lemma DateReads(c: Civil)
    requires ValidCivil(c) && 0 <= c.year <= 9999
    ensures |PrintDate(c)| == 8 && AllDigits(PrintDate(c)) && ParseDate(PrintDate(c)) == Some(ToDay(c))
  {
    hide Pad, NumberOf, ToDay, IsLeap;
    PadFour(c.year);
    PadTwo(c.month);
    PadTwo(c.day);
    var s := PrintDate(c);
    assert s[..4] == Pad(c.year, 4) && s[4..6] == Pad(c.month, 2) && s[6..] == Pad(c.day, 2);
  }

  lemma ClockParts(clock: int)
    requires 0 <= clock < SECONDS_PER_DAY
    ensures 0 <= clock / 3600 < 24
    ensures 3600 * (clock / 3600) + 60 * (clock / 60 % 60) + clock % 60 == clock
  {
    Euclid(clock, 3600, clock / 60 / 60, clock / 60 % 60 * 60 + clock % 60);
  }

  lemma ClockReads(clock: int)
    requires 0 <= clock < SECONDS_PER_DAY
    ensures |PrintClock(clock)| == 6 && AllDigits(PrintClock(clock)) && ParseClock(PrintClock(clock)) == Some(clock)
  {
    hide Pad, NumberOf;
    var h, m, sec := clock / 3600, clock / 60 % 60, clock % 60;
    ClockParts(clock);
    PadTwo(h);
    PadTwo(m);
    PadTwo(sec);
    var s := PrintClock(clock);
    assert s[..2] == Pad(h, 2) && s[2..4] == Pad(m, 2) && s[4..] == Pad(sec, 2);
  }

  /** An UNTIL value reads back as the instant it was written from. */
  lemma UntilReads(t: Instant)
    requires FourDigitYear(t)
    ensures ParseUntil(PrintUntil(t)) == Some(t) && PlainText(PrintUntil(t))
  {
    hide PrintDate, PrintClock, ParseDate, ParseClock, FromDay, ToDay, DayOf, ClockOf;
    var d, clock := DayOf(t), ClockOf(t);
    CivilOfDay(d);
    YearField(d);
    SplitInstant(t);
    DateReads(FromDay(d));
    ClockReads(clock);
    var s := PrintUntil(t);
    assert s[..8] == PrintDate(FromDay(d)) && s[9..15] == PrintClock(clock);
  }

  lemma YearField(d: Day)
    ensures FromDay(d).year == YearOf(d)
  {
  }

  // ---- the whole rule ------------------------------------------------------------

  lemma PartsRead(r: Rule)
    requires WellFormed(r)
    ensures ParseParts(Parts(r), BLANK) == Ok(Canonical(r))
    ensures AllPlain(Parts(r))
  {
    hide ParsePart, FourDigitYear, PrintUntil, Itoa, SortDays, Codes, Join, FrequencyName;
    var r1 := BLANK.(freq := r.freq);
    FreqReads(r.freq, BLANK);
    var r2 := r1.(interval := r.interval);
    if r.interval > 1 {
      NumberReads("INTERVAL", r.interval, r1);
      assert "INTERVAL=" + Itoa(r.interval) == "INTERVAL" + "=" + Itoa(r.interval);
    }
    var r3 := r2.(byDay := SortDays(r.byDay));
    SortDaysMeaning(r.byDay);
    if r.byDay != [] {
      DaysRead(r, r2);
      assert r2.byDay + SortDays(r.byDay) == SortDays(r.byDay);
    }
    var r4 := r3.(count := r.count);
    if r.count > 0 {
      NumberReads("COUNT", r.count, r3);
      assert "COUNT=" + Itoa(r.count) == "COUNT" + "=" + Itoa(r.count);
    }
    var r5 := r4.(until := r.until);
    if r.until != 0 {
      UntilPartReads(r.until, r4);
    }
    assert r5 == Canonical(r);
    PartsChain(r, r1, r2, r3, r4, r5);
  }

  lemma UntilPartReads(t: Instant, r: Rule)
    requires FourDigitYear(t)
    ensures Reads(["UNTIL=" + PrintUntil(t)], r, r.(until := t))
  {
    hide ParseUntil, PrintUntil, FourDigitYear;
    UntilReads(t);
    PairPart("UNTIL", PrintUntil(t), r);
    assert "UNTIL=" + PrintUntil(t) == "UNTIL" + "=" + PrintUntil(t);
  }

  lemma PartsChain(r: Rule, r1: Rule, r2: Rule, r3: Rule, r4: Rule, r5: Rule)
    requires FourDigitYear(r.until)
    requires Reads(FreqPart(r), BLANK, r1) && Reads(IntervalPart(r), r1, r2) && Reads(DayPart(r), r2, r3)
    requires Reads(CountPart(r), r3, r4) && Reads(UntilPart(r), r4, r5)
    ensures ParseParts(Parts(r), BLANK) == Ok(r5)
    ensures AllPlain(Parts(r))
  {
    hide ParsePart, FreqPart, IntervalPart, DayPart, CountPart, UntilPart, PlainText, AllPlain, FourDigitYear, Reads;
    assert AllPlain([]) by { NothingIsPlain(); }
    var f, i, d, c, u := FreqPart(r), IntervalPart(r), DayPart(r), CountPart(r), UntilPart(r);
    ReadsThen(f, i + (d + (c + u)), BLANK, r1);
    ReadsThen(i, d + (c + u), r1, r2);
    ReadsThen(d, c + u, r2, r3);
    ReadsThen(c, u, r3, r4);
    ReadsThen(u, [], r4, r5);
    assert u + [] == u;
  }

  lemma NothingIsPlain()
    ensures AllPlain([])
  {
  }

  lemma PrintedSplits(r: Rule)
    requires WellFormed(r)
    ensures TrimPrefix(ToUpper(TrimSpace(Print(r))), "RRULE:") == Print(r) != ""
    ensures Split(Print(r), ';') == Parts(r)
  {
    hide ParseParts, FourDigitYear, PrintUntil, Itoa, SortDays, Codes, Split, IntervalPart, DayPart, CountPart,
      UntilPart;
    PartsRead(r);
    var parts := Parts(r);
    assert parts[0] == "FREQ=" + FrequencyName(r.freq);
    JoinPlain(parts, ';');
    PrintedIsStable(Print(r));
    forall p | p in parts ensures ';' !in p {
      assert PlainText(p);
    }
    SplitOfJoin(parts, ';');
    assert Print(r)[0] == 'F';
  }

  /** Parsing the canonical text of a rule gives the rule, BYDAY sorted and de-duplicated. */
  lemma ParseOfPrint(r: Rule)
    requires WellFormed(r)
    ensures Parse(Print(r)) == Ok(Canonical(r))
  {
    hide ParseParts, FourDigitYear, Print, SortDays, Split, Parts, ToUpper, TrimSpace, TrimPrefix;
    PrintedSplits(r);
    PartsRead(r);
    SortDaysMeaning(r.byDay);
  }

  /** Canonical rules print as the rules they come from. */
  lemma PrintOfCanonical(r: Rule)
    requires WellFormed(r)
    ensures WellFormed(Canonical(r)) && Canonical(Canonical(r)) == Canonical(r)
    ensures Print(Canonical(r)) == Print(r)
  {
    hide FourDigitYear, SortDays, Codes, Join;
    SortDaysMeaning(r.byDay);
    assert Parts(Canonical(r)) == Parts(r);
  }

  // ---- what the parser lets through ----------------------------------------------

  ghost predicate Bounded(r: Rule) {
    1 <= r.interval <= MAX_INT && 0 <= r.count <= MAX_INT && FourDigitYear(r.until)
  }

  lemma ParsedDateYear(s: string)
    requires |s| == 8 && ParseDate(s).Some?
    ensures 0 <= YearOf(ParseDate(s).value) <= 9999
  {
    hide ToDay, YearOf, IsLeap, NumberOf, Pad;
    PadOfNumber(s[..4]);
    assert Pow10(4) == 10000 by { assert Pow10(2) == 100 by { assert Pow10(1) == 10; } assert Pow10(3) == 1000; }
    var c := Civil(NumberOf(s[..4]), NumberOf(s[4..6]), NumberOf(s[6..]));
    DayOfCivil(c);
    YearField(ToDay(c));
  }

  lemma ParsedUntilYear(s: string)
    requires ParseUntil(s).Some?
    ensures FourDigitYear(ParseUntil(s).value)
  {
    hide ParseDate, YearOf, NumberOf, DayOf, At;
    if |s| == 8 {
      ParsedDateYear(s);
      AtParts(ParseDate(s).value, 0);
    } else {
      ParsedDateYear(s[..8]);
      ParsedClockRange(s[9..15]);
      AtParts(ParseDate(s[..8]).value, ParseClock(s[9..15]).value);
    }
  }

  lemma ParsedClockRange(s: string)
    requires |s| == 6 && ParseClock(s).Some?
    ensures 0 <= ParseClock(s).value < SECONDS_PER_DAY
  {
  }

  lemma PairBounded(key: string, value: string, r: Rule)
    requires Bounded(r) && ParsePair(key, value, r).Ok?
    ensures Bounded(ParsePair(key, value, r).rule)
  {
    hide ParseUntil, FourDigitYear, ParseDays, Split, AllDigits, NumberOf;
    if key == "UNTIL" {
      ParsedUntilYear(value);
    }
  }

  lemma {:induction false} PartsBounded(parts: seq<string>, r: Rule)
    requires Bounded(r) && ParseParts(parts, r).Ok?
    ensures Bounded(ParseParts(parts, r).rule)
  {
    hide Bounded, ParsePair, Cut, TrimSpace;
    if parts != [] {
      var step := ParsePart(parts[0], r);
      var pair := Cut(parts[0], '=');
      if TrimSpace(parts[0]) != "" {
        PairBounded(TrimSpace(pair.value.0), TrimSpace(pair.value.1), r);
      }
      PartsBounded(parts[1..], step.rule);
    }
  }

  /** Every rule the parser accepts is well formed, so it can be expanded and printed. */
  lemma ParseIsWellFormed(text: string)
    requires Parse(text).Ok?
    ensures WellFormed(Parse(text).rule) && Usable(Parse(text).rule)
  {
    hide ParseParts, Split, ToUpper, TrimSpace, TrimPrefix;
    var raw := TrimPrefix(ToUpper(TrimSpace(text)), "RRULE:");
    assert FourDigitYear(0);
    PartsBounded(Split(raw, ';'), BLANK);
  }

  /** What `normalise` stores is a fixpoint: parsing and printing it again gives the same text. */
  lemma StoredTextIsFixpoint(text: string)
    requires Parse(text).Ok?
    ensures FourDigitYear(Parse(text).rule.until)
    ensures var stored := Print(Parse(text).rule);
            Parse(stored).Ok? && FourDigitYear(Parse(stored).rule.until) && Print(Parse(stored).rule) == stored
  {
    hide Parse, Print, FourDigitYear, SortDays;
    ParseIsWellFormed(text);
    ParseOfPrint(Parse(text).rule);
    PrintOfCanonical(Parse(text).rule);
  }

  /** Two rules are stored as the same text exactly when they differ at most in how BYDAY is written. */
  lemma SameTextIffSameRule(r: Rule, q: Rule)
    requires WellFormed(r) && WellFormed(q)
    ensures Print(r) == Print(q) <==> Canonical(r) == Canonical(q)
  {
    hide Parse, Print, FourDigitYear, Canonical;
    ParseOfPrint(r);
    ParseOfPrint(q);
    PrintOfCanonical(r);
    PrintOfCanonical(q);
  }

  /** Storing the canonical form moves no occurrence. */
  lemma {:induction false} CanonicalKeepsSeries(r: Rule, start: Instant, k: nat)
    ensures Series(Canonical(r), start, k) == Series(r, start, k)
  {
    hide SortDays, NextByDay, NextMonthly, AddDays, At, Selected;
    SortDaysMeaning(r.byDay);
    if k > 0 {
      CanonicalKeepsSeries(r, start, k - 1);
    }
  }
}
