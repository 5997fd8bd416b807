/**
Stored events seen through their recurrence rule: which staging a check-in belongs
to, and what the next visible staging is.
*/
module Events {
  import opened Options
  import opened Calendar
  import opened Text
  import opened Recurrence
  import opened Expansion
  import opened RuleText
  import opened RoundTrip

  /** An ObjectID is a 96-bit number; hex strings of equal length compare as the numbers do. */
  type Id = nat

  datatype Event = Event(id: Id, startDate: Instant, endDate: Instant, isRecurring: bool, recurrenceRule: string)

  const SNAP_WINDOW: int := 31 * SECONDS_PER_DAY
  const SNAP_LIMIT := 128
  const OCCURRENCE_HORIZON: int := 365 * SECONDS_PER_DAY

  /** The rule an event repeats by, if it has one that parses. */
  function RuleOf(e: Event): Option<Rule> {
    if !e.isRecurring || e.recurrenceRule == "" then None
    else
      match Parse(e.recurrenceRule)
      case Ok(r) => Some(r)
      case Err(_) => None
  }

  lemma RuleIsUsable(e: Event)
    requires RuleOf(e).Some?
    ensures Usable(RuleOf(e).value) && RuleOf(e).value.freq != Unset
  {
    hide Parse, WellFormed, Usable;
    ParseIsWellFormed(e.recurrenceRule);
    assert WellFormed(RuleOf(e).value);
    WellFormedHasFrequency(RuleOf(e).value);
  }

  lemma WellFormedHasFrequency(r: Rule)
    requires WellFormed(r)
    ensures r.freq != Unset
  {
  }

  // ---- what may be stored --------------------------------------------------------

  /** The part of a form that decides an event's dates; a zero instant is a field left empty. */
  datatype Input = Input(startDate: Instant, endDate: Instant, recurrenceRule: string)

  const DEFAULT_LENGTH: int := 7200

  /** The cleaned input, or nothing where it is refused. */
  function Normalised(input: Input): Option<Input> {
    var end := if input.endDate == 0 then input.startDate + DEFAULT_LENGTH else input.endDate;
    if input.startDate == 0 || end <= input.startDate then None
    else if TrimSpace(input.recurrenceRule) == "" then Some(Input(input.startDate, end, ""))
    else
      match Parse(input.recurrenceRule)
      case Err(_) => None
      case Ok(r) =>
        ParseIsWellFormed(input.recurrenceRule);
        Some(Input(input.startDate, end, Print(r)))
  }

  method Normalise(input: Input) returns (clean: Option<Input>)
    ensures clean == Normalised(input)
  {
    hide TrimSpace, Parse, Print, WellFormed;
    var out := input;
    if out.startDate == 0 {
      return None;
    }
    if out.endDate == 0 {
      out := out.(endDate := out.startDate + DEFAULT_LENGTH);
    }
    if out.endDate <= out.startDate {
      return None;
    }
    if TrimSpace(out.recurrenceRule) == "" {
      return Some(out.(recurrenceRule := ""));
    }
    var p := ParseRecurrence(out.recurrenceRule);
    if p.Err? {
      return None;
    }
    ParsedYear(out.recurrenceRule);
    var text := String(p.rule);
    return Some(out.(recurrenceRule := text));
  }

  lemma ParsedYear(text: string)
    requires Parse(text).Ok?
    ensures FourDigitYear(Parse(text).rule.until)
  {
    ParseIsWellFormed(text);
    hide Parse;
  }

  /** What `Create` and `Update` write for a cleaned input. */
  function Stored(id: Id, clean: Input): Event {
    Event(id, clean.startDate, clean.endDate, clean.recurrenceRule != "", clean.recurrenceRule)
  }

  /**
  A start, a later end, and a rule exactly when it repeats, in canonical form. An end that
  is the zero instant reads as none given, so it is stored only where the default puts it.
  */
  predicate Storable(e: Event) {
    && e.startDate != 0 && e.startDate < e.endDate
    && (e.endDate == 0 ==> e.startDate == -DEFAULT_LENGTH)
    && e.isRecurring == (e.recurrenceRule != "")
    && (e.isRecurring ==>
          && Parse(e.recurrenceRule).Ok?
          && WellFormed(Parse(e.recurrenceRule).rule)
          && Print(Parse(e.recurrenceRule).rule) == e.recurrenceRule)
  }

  lemma PrintedIsNotBlank(r: Rule)
    requires WellFormed(r)
    ensures TrimSpace(Print(r)) != "" && Print(r) != ""
  {
    PrintedSplits(r);
  }

  /** The storable events are exactly those some accepted form writes. */
  lemma StorableExactly(e: Event)
    ensures Storable(e) <==> exists input: Input ::
              Normalised(input).Some? && e == Stored(e.id, Normalised(input).value)
  {
    if Storable(e) {
      StorableIsStored(e);
    }
    hide Normalised, Storable;
    forall input: Input | Normalised(input).Some? && e == Stored(e.id, Normalised(input).value) ensures Storable(e) {
      NormalisedIsStorable(input, e.id);
    }
  }

  /** A storable event read back into the form is accepted and written as it is. */
  lemma StorableIsStored(e: Event)
    requires Storable(e)
    ensures var again := Normalised(Input(e.startDate, e.endDate, e.recurrenceRule));
            again.Some? && e == Stored(e.id, again.value)
  {
    if e.isRecurring {
      PrintedIsNotBlank(Parse(e.recurrenceRule).rule);
    }
    hide Parse, Print, WellFormed;
  }

  lemma NormalisedIsStorable(input: Input, id: Id)
    requires Normalised(input).Some?
    ensures Storable(Stored(id, Normalised(input).value))
  {
    hide Parse, Print, TrimSpace, WellFormed;
    var text := input.recurrenceRule;
    if TrimSpace(text) != "" {
      assert Parse(text).Ok?;
      ParseIsWellFormed(text);
      PrintedIsNotBlank(Parse(text).rule);
      StoredTextIsFixpoint(text);
      ParseIsWellFormed(Print(Parse(text).rule));
    }
  }

  // ---- snapping a check-in to its occurrence -------------------------------------

  function Gap(a: Instant, b: Instant): int {
    if a < b then b - a else a - b
  }

  /** The running best of the snapping loop. */
  function Nearest(candidates: seq<Instant>, at: Instant): Instant
    requires candidates != []
  {
    var last := candidates[|candidates| - 1];
    if |candidates| == 1 then last
    else
      var best := Nearest(candidates[..|candidates| - 1], at);
      if Gap(at, last) < Gap(at, best) then last else best
  }

  function FiledUnder(e: Event, at: Instant): Instant {
    match RuleOf(e)
    case None => e.startDate
    case Some(r) =>
      var candidates := Expand(r, e.startDate, at - SNAP_WINDOW, at + SNAP_WINDOW, SNAP_LIMIT);
      if candidates == [] then e.startDate else Nearest(candidates, at)
  }

  method OccurrenceFor(e: Event, at: Instant) returns (best: Instant)
    ensures best == FiledUnder(e, at)
  {
    hide Parse, Expand, Gap;
    if !e.isRecurring || e.recurrenceRule == "" {
      return e.startDate;
    }
    var parsed := ParseRecurrence(e.recurrenceRule);
    if parsed.Err? {
      return e.startDate;
    }
    RuleIsUsable(e);
    var candidates := Occurrences(parsed.rule, e.startDate, at - SNAP_WINDOW, at + SNAP_WINDOW, SNAP_LIMIT);
    if |candidates| == 0 {
      return e.startDate;
    }
    best := candidates[0];
    var bestGap := Gap(at, best);
    assert candidates[..1] == [best];
    for i := 1 to |candidates|
      invariant best == Nearest(candidates[..i], at) && bestGap == Gap(at, best)
    {
      assert candidates[..i + 1][..i] == candidates[..i];
      var gap := Gap(at, candidates[i]);
      if gap < bestGap {
        best, bestGap := candidates[i], gap;
      }
    }
    assert candidates[..|candidates|] == candidates;
  }

  lemma {:induction false} NearestMeaning(candidates: seq<Instant>, at: Instant)
    requires candidates != [] && Increasing(candidates)
    ensures Nearest(candidates, at) in candidates
    ensures forall t :: t in candidates ==> Gap(at, Nearest(candidates, at)) <= Gap(at, t)
    ensures forall t :: t in candidates && Gap(at, t) == Gap(at, Nearest(candidates, at))
              ==> Nearest(candidates, at) <= t
  {
    if |candidates| > 1 {
      var n := |candidates| - 1;
      var init := candidates[..n];
      NearestMeaning(init, at);
      assert forall t :: t in init ==> t < candidates[n];
      assert forall t :: t in candidates <==> t in init || t == candidates[n];
    }
  }

  /** Every member comes at least a day after the one before. */
  predicate Spread(w: seq<Instant>) {
    forall i, j :: 0 <= i <= j < |w| ==> w[i] + SECONDS_PER_DAY * (j - i) <= w[j]
  }

  lemma SpreadSnoc(w: seq<Instant>, t: Instant)
    requires Spread(w) && (w != [] ==> w[|w| - 1] + SECONDS_PER_DAY <= t)
    ensures Spread(w + [t])
  {
    forall i | 0 <= i < |w| ensures w[i] + SECONDS_PER_DAY * (|w| - i) <= t {
      assert w[i] + SECONDS_PER_DAY * (|w| - 1 - i) <= w[|w| - 1];
    }
  }

  /** The members of a window are at least a day apart. */
  lemma {:induction false} WindowSpread(r: Rule, start: Instant, from: Instant, to: Instant, n: nat)
    requires Usable(r) && r.freq != Unset
    ensures Spread(Window(r, start, from, to, n))
  {
    hide Series, Usable, Admitted;
    if n > 0 {
      WindowSpread(r, start, from, to, n - 1);
      var w := Window(r, start, from, to, n - 1);
      hide Spread;
      if |w| > 0 {
        WindowMembers(r, start, from, to, n - 1);
        assert w[|w| - 1] in w;
        var k: nat :| k < n - 1 && Series(r, start, k) == w[|w| - 1];
        SeriesApart(r, start, k, n - 1);
      }
      assert |w| > 0 ==> w[|w| - 1] + SECONDS_PER_DAY <= Series(r, start, n - 1);
      SpreadSnoc(w, Series(r, start, n - 1));
    }
  }

  /** The 62 days of the snapping window hold at most 62 members, so the limit of 128 cuts none. */
  lemma SnapLimitIsEnough(r: Rule, start: Instant, at: Instant)
    requires Usable(r) && r.freq != Unset
    ensures Expand(r, start, at - SNAP_WINDOW, at + SNAP_WINDOW, SNAP_LIMIT)
            == Window(r, start, at - SNAP_WINDOW, at + SNAP_WINDOW, MAX_OCCURRENCE_SCAN)
  {
    hide Series, Window, Usable, InSeries;
    var w := Window(r, start, at - SNAP_WINDOW, at + SNAP_WINDOW, MAX_OCCURRENCE_SCAN);
    WindowSpread(r, start, at - SNAP_WINDOW, at + SNAP_WINDOW, MAX_OCCURRENCE_SCAN);
    WindowMembers(r, start, at - SNAP_WINDOW, at + SNAP_WINDOW, MAX_OCCURRENCE_SCAN);
    if w != [] {
      var last := |w| - 1;
      assert w[0] in w && w[last] in w;
      assert w[0] + SECONDS_PER_DAY * (last - 0) <= w[last];
      assert last < 62;
    }
  }

  /** Occurrence k is among the first 5000 and inside COUNT and UNTIL. */
  predicate Scanned(r: Rule, start: Instant, k: nat) {
    k < 5000 && InSeries(r, start, k)
  }

  predicate InSnapWindow(r: Rule, start: Instant, at: Instant, k: nat) {
    Scanned(r, start, k) && at - 31 * 86400 <= Series(r, start, k) < at + 31 * 86400
  }

  /**
  A check-in is filed under a nearest occurrence of the whole scanned series, the
  earlier of two equally near ones, whenever any lies within its window; with none
  there it is filed under the start of the series.
  */
  lemma FiledUnderNearest(e: Event, at: Instant)
    requires RuleOf(e).Some?
    ensures var r := RuleOf(e).value;
            if exists k: nat :: InSnapWindow(r, e.startDate, at, k) then
              (exists j: nat :: Scanned(r, e.startDate, j) && FiledUnder(e, at) == Series(r, e.startDate, j))
              && forall k: nat :: Scanned(r, e.startDate, k) ==>
                   Gap(at, FiledUnder(e, at)) < Gap(at, Series(r, e.startDate, k))
                   || (Gap(at, FiledUnder(e, at)) == Gap(at, Series(r, e.startDate, k))
                       && FiledUnder(e, at) <= Series(r, e.startDate, k))
            else FiledUnder(e, at) == e.startDate
  {
    hide Parse, Series, Window, Usable, InSeries, Nearest;
    RuleIsUsable(e);
    var r := RuleOf(e).value;
    var start := e.startDate;
    var w := Window(r, start, at - SNAP_WINDOW, at + SNAP_WINDOW, MAX_OCCURRENCE_SCAN);
    SnapLimitIsEnough(r, start, at);
    WindowMembers(r, start, at - SNAP_WINDOW, at + SNAP_WINDOW, MAX_OCCURRENCE_SCAN);
    forall k: nat ensures InSnapWindow(r, start, at, k) ==> Series(r, start, k) in w {
      if InSnapWindow(r, start, at, k) {
        assert Admitted(r, start, at - SNAP_WINDOW, at + SNAP_WINDOW, k);
      }
    }
    if w != [] {
      NearestMeaning(w, at);
      var best := Nearest(w, at);
      var j: nat :| j < MAX_OCCURRENCE_SCAN && Admitted(r, start, at - SNAP_WINDOW, at + SNAP_WINDOW, j)
        && Series(r, start, j) == best;
      assert InSnapWindow(r, start, at, j);
      forall k: nat | Scanned(r, start, k)
        ensures Gap(at, best) < Gap(at, Series(r, start, k))
                || (Gap(at, best) == Gap(at, Series(r, start, k)) && best <= Series(r, start, k))
      {
        if InSnapWindow(r, start, at, k) {
          assert Series(r, start, k) in w;
        }
      }
    }
  }

  // ---- expanding one event -------------------------------------------------------

  function OccurrencesOf(e: Event, from: Instant, to: Instant, limit: int): seq<Instant> {
    match RuleOf(e)
    case None => if e.startDate < from then [] else [e.startDate]
    case Some(r) => Expand(r, e.startDate, from, to, limit)
  }

  method ExpandEvent(e: Event, from: Instant, to: Instant, limit: int) returns (out: seq<Instant>)
    ensures out == OccurrencesOf(e, from, to, limit)
  {
    hide Parse, Expand;
    if !e.isRecurring || e.recurrenceRule == "" {
      return if e.startDate < from then [] else [e.startDate];
    }
    var parsed := ParseRecurrence(e.recurrenceRule);
    if parsed.Err? {
      return if e.startDate < from then [] else [e.startDate];
    }
    RuleIsUsable(e);
    out := Occurrences(parsed.rule, e.startDate, from, to, limit);
  }

  // ---- the next visible staging --------------------------------------------------

  function ProjectNext(e: Event, now: Instant): Option<Event> {
    if !e.isRecurring then (if e.endDate < now then None else Some(e))
    else
      var duration := e.endDate - e.startDate;
      if duration < 0 then None
      else
        var next := OccurrencesOf(e, now - duration, now + OCCURRENCE_HORIZON, 1);
        if next == [] then None
        else if next[0] + duration < now then None
        else Some(e.(startDate := next[0], endDate := next[0] + duration))
  }

  method ProjectNextOccurrence(e: Event, now: Instant) returns (p: Option<Event>)
    ensures p == ProjectNext(e, now)
  {
    hide OccurrencesOf;
    if !e.isRecurring {
      return if e.endDate < now then None else Some(e);
    }
    var duration := e.endDate - e.startDate;
    if duration < 0 {
      return None;
    }
    var next := ExpandEvent(e, now - duration, now + OCCURRENCE_HORIZON, 1);
    if |next| == 0 {
      return None;
    }
    var found := e.(startDate := next[0], endDate := next[0] + duration);
    if found.endDate < now {
      return None;
    }
    return Some(found);
  }

  /** The first member of an expansion is its earliest admitted occurrence. */
  lemma FirstOfExpansion(r: Rule, start: Instant, from: Instant, to: Instant)
    requires Usable(r) && r.freq != Unset
    ensures var x := Expand(r, start, from, to, 1);
            if x == [] then forall k: nat :: k < MAX_OCCURRENCE_SCAN ==> !Admitted(r, start, from, to, k)
            else
              exists j: nat :: j < MAX_OCCURRENCE_SCAN && Admitted(r, start, from, to, j)
                && x[0] == Series(r, start, j) && forall k: nat :: k < j ==> !Admitted(r, start, from, to, k)
  {
    hide Series, Window, Usable, Admitted;
    var w := Window(r, start, from, to, MAX_OCCURRENCE_SCAN);
    WindowMembers(r, start, from, to, MAX_OCCURRENCE_SCAN);
    if w == [] {
      forall k: nat | k < MAX_OCCURRENCE_SCAN ensures !Admitted(r, start, from, to, k) {
        assert Series(r, start, k) !in w;
      }
    } else {
      assert w[0] in w;
      var j: nat :| j < MAX_OCCURRENCE_SCAN && Admitted(r, start, from, to, j) && Series(r, start, j) == w[0];
      forall k: nat | k < j ensures !Admitted(r, start, from, to, k) {
        SeriesApart(r, start, k, j);
        assert Series(r, start, k) !in w;
      }
    }
  }

  /** Occurrence k has not ended before now and starts within the horizon. */
  predicate StillAhead(e: Event, r: Rule, now: Instant, k: nat) {
    && Scanned(r, e.startDate, k)
    && now <= Series(r, e.startDate, k) + (e.endDate - e.startDate)
    && Series(r, e.startDate, k) < now + 365 * 86400
  }

  /** Occurrence j of a repeating event, as long as the event is. */
  function StagedAt(e: Event, r: Rule, j: nat): Event {
    var at := Series(r, e.startDate, j);
    e.(startDate := at, endDate := at + (e.endDate - e.startDate))
  }

  ghost predicate FirstAhead(e: Event, r: Rule, now: Instant, j: nat) {
    StillAhead(e, r, now, j) && forall k: nat :: k < j ==> !StillAhead(e, r, now, k)
  }

  /** A repeating event is shown at its earliest occurrence that is not over yet. */
  lemma ProjectionIsEarliest(e: Event, now: Instant)
    requires RuleOf(e).Some? && e.startDate <= e.endDate
    ensures var r := RuleOf(e).value;
            match ProjectNext(e, now)
            case None => forall k: nat :: !StillAhead(e, r, now, k)
            case Some(p) => exists j: nat :: FirstAhead(e, r, now, j) && p == StagedAt(e, r, j)
  {
    hide Parse, Series, Usable, InSeries, Expand;
    RuleIsUsable(e);
    var r := RuleOf(e).value;
    var from, to := now - (e.endDate - e.startDate), now + OCCURRENCE_HORIZON;
    FirstOfExpansion(r, e.startDate, from, to);
    forall k: nat
      ensures StillAhead(e, r, now, k) <==> k < MAX_OCCURRENCE_SCAN && Admitted(r, e.startDate, from, to, k) {
    }
    var x := Expand(r, e.startDate, from, to, 1);
    if x != [] {
      var j: nat :| j < MAX_OCCURRENCE_SCAN && Admitted(r, e.startDate, from, to, j)
                    && x[0] == Series(r, e.startDate, j)
                    && forall k: nat :: k < j ==> !Admitted(r, e.startDate, from, to, k);
      assert FirstAhead(e, r, now, j);
    }
  }

  /** The last guard of the projection never fires: a found occurrence is never already over. */
  lemma ProjectedIsNotOver(e: Event, now: Instant)
    requires e.isRecurring && e.startDate <= e.endDate
    ensures ProjectNext(e, now).None?
            <==> OccurrencesOf(e, now - (e.endDate - e.startDate), now + OCCURRENCE_HORIZON, 1) == []
  {
    hide Parse, Series, Usable, InSeries, Expand;
    if RuleOf(e).Some? {
      RuleIsUsable(e);
      FirstOfExpansion(RuleOf(e).value, e.startDate, now - (e.endDate - e.startDate), now + OCCURRENCE_HORIZON);
    }
  }

  // ---- events with one date ------------------------------------------------------

  /** Nothing to expand by: not repeating, no rule, or one that does not parse. */
  predicate OneDate(e: Event) {
    !e.isRecurring || e.recurrenceRule == "" || Parse(e.recurrenceRule).Err?
  }

  lemma OneDateHasNoRule(e: Event)
    ensures OneDate(e) <==> RuleOf(e).None?
    ensures !OneDate(e) ==> RuleOf(e) == Some(Parse(e.recurrenceRule).rule)
  {
    hide Parse;
  }

  /** Every check-in to such an event is filed under its start, and it is listed at its start unless that is past. */
  lemma OneDateIsItsStart(e: Event, at: Instant, from: Instant, to: Instant, limit: int)
    requires OneDate(e)
    ensures FiledUnder(e, at) == e.startDate
    ensures OccurrencesOf(e, from, to, limit) == if from <= e.startDate then [e.startDate] else []
  {
    OneDateHasNoRule(e);
    hide Parse, OneDate;
  }

  /**
  How an event shows on the listing at `now`, said without expanding it: with one date as it
  is stored, until it ends; with a rule at its earliest staging that has not ended and
  starts within a year.
  */
  ghost predicate ShownAs(e: Event, now: Instant, p: Event) {
    if OneDate(e) then p == e && now <= e.endDate && (e.isRecurring ==> e.startDate <= e.endDate)
    else
      var r := Parse(e.recurrenceRule).rule;
      e.startDate <= e.endDate && exists j: nat :: FirstAhead(e, r, now, j) && p == StagedAt(e, r, j)
  }

  lemma OneDateProjection(e: Event, now: Instant)
    requires OneDate(e)
    ensures ProjectNext(e, now) ==
            if now <= e.endDate && (e.isRecurring ==> e.startDate <= e.endDate) then Some(e) else None
  {
    OneDateIsItsStart(e, now, now - (e.endDate - e.startDate), now + OCCURRENCE_HORIZON, 1);
    hide OneDate, OccurrencesOf;
    assert e.(startDate := e.startDate, endDate := e.startDate + (e.endDate - e.startDate)) == e;
  }

  /** There is at most one first staging ahead. */
  lemma FirstAheadIsOne(e: Event, r: Rule, now: Instant, i: nat, j: nat)
    requires FirstAhead(e, r, now, i) && FirstAhead(e, r, now, j)
    ensures i == j
  {
    hide StillAhead;
  }

  /** The projection is exactly that. */
  lemma ProjectionExactly(e: Event, now: Instant, p: Event)
    ensures ProjectNext(e, now) == Some(p) <==> ShownAs(e, now, p)
  {
    OneDateHasNoRule(e);
    if OneDate(e) {
      OneDateProjection(e, now);
    } else if e.startDate <= e.endDate {
      ProjectionIsEarliest(e, now);
      hide Parse, OneDate, StillAhead, Series, ProjectNext, RuleOf, StagedAt;
      var r := Parse(e.recurrenceRule).rule;
      forall i: nat, j: nat | FirstAhead(e, r, now, i) && FirstAhead(e, r, now, j) ensures i == j {
        FirstAheadIsOne(e, r, now, i, j);
      }
    } else {
      hide OneDate, Parse, OccurrencesOf;
    }
  }
}
