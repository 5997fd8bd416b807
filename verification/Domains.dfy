/**
The life of a church's own domain: claimed, proven by a DNS record, served, suspended
when the plan lapses and restored. The service's invariant holds over every run.
*/
module Domains {
  import opened Options
  import opened Calendar
  import opened Text
  import opened Hostnames
  import opened HostHeaders
  import opened Slugs

  type DomainId = nat

  /** `Verified` is part of the vocabulary; nothing ever stores it. */
  datatype Status = Pending | Verified | Active | Suspended

  datatype Domain = Domain(
    churchId: string, hostname: string, status: Status, token: string,
    verifiedAt: Option<Instant>, activatedAt: Option<Instant>, lastCheckedAt: Option<Instant>, lastError: string)

  /** What looking a church up tells: gone, on a plan with or without custom domains, or no answer. */
  datatype Owner = Missing | NotEntitled | Entitled | Unavailable

  /** What the DNS lookup of the verification record answers. */
  datatype Dns = LookupFailed | Records(values: seq<string>)

  datatype Fault =
    | HostnameInvalid | HostnameReserved | HostnameTaken | ChurchLookupFailed | PlanLacksDomains
    | TooManyDomains | DomainNotFound | VerificationFailed | NotVerified

  datatype Reply<T> = Ok(value: T) | Refused(fault: Fault)

  const MAX_DOMAINS_PER_CHURCH := 3

  // ---- the verification record ---------------------------------------------------

  function RecordText(value: string): string {
    ToLower(TrimChar(TrimSpace(value), '"'))
  }

  /** The published values hold the token, up to case, surrounding space and quotes. */
  predicate HoldsToken(dns: Dns, token: string) {
    dns.Records? && exists value :: value in dns.values && RecordText(value) == ToLower(TrimSpace(token))
  }

  method ContainsToken(values: seq<string>, token: string) returns (found: bool)
    ensures found == HoldsToken(Records(values), token)
  {
    hide RecordText, ToLower, TrimSpace;
    var want := ToLower(TrimSpace(token));
    for i := 0 to |values|
      invariant forall v :: v in values[..i] ==> RecordText(v) != want
    {
      if RecordText(values[i]) == want {
        assert values[i] in values;
        return true;
      }
      assert values[..i + 1] == values[..i] + [values[i]];
    }
    assert values[..|values|] == values;
    return false;
  }

  /** The token in some letter case, perhaps quoted, perhaps with space around it. */
  ghost predicate Dressed(value: string, token: string) {
    exists a, open, typed, close, b :: DressedAs(value, token, a, open, typed, close, b)
  }

  predicate DressedAs(value: string, token: string, a: string, open: string, typed: string, close: string, b: string) {
    && value == a + (open + typed + close) + b && ToLower(typed) == ToLower(token)
    && AllSpace(a) && AllSpace(b) && AllChar(open, '"') && AllChar(close, '"')
  }

  lemma DressedReads(value: string, token: string, a: string, open: string, typed: string, close: string, b: string)
    requires DressedAs(value, token, a, open, typed, close, b)
    requires token != "" && !IsSpace(token[0]) && !IsSpace(token[|token| - 1])
    requires token[0] != '"' && token[|token| - 1] != '"'
    ensures RecordText(value) == ToLower(token)
  {
    var inner := open + typed + close;
    assert |typed| == |token|;
    SameEnds(token, typed);
    assert !IsSpace('"');
    assert inner[0] == (if open == "" then typed[0] else open[0]);
    assert inner[|inner| - 1] == (if close == "" then typed[|typed| - 1] else close[|close| - 1]);
    assert open != "" ==> open[0] in open;
    assert close != "" ==> close[|close| - 1] in close;
    hide IsSpace, TrimSpace, TrimChar, ToLower;
    TrimSpaceOf(a, inner, b);
    TrimCharOf(open, typed, close, '"');
  }

  lemma SameEnds(s: string, typed: string)
    requires ToLower(typed) == ToLower(s) && s != ""
    ensures typed != "" && |typed| == |s|
    ensures forall i :: 0 <= i < |s| ==>
              (IsSpace(typed[i]) <==> IsSpace(s[i])) && (typed[i] == '"' <==> s[i] == '"')
  {
    assert |ToLower(typed)| == |ToLower(s)|;
    hide IsSpace;
    forall i | 0 <= i < |s|
      ensures (IsSpace(typed[i]) <==> IsSpace(s[i])) && (typed[i] == '"' <==> s[i] == '"')
    {
      LowerSpaces(typed[i]);
      LowerSpaces(s[i]);
      assert ToLower(typed)[i] == ToLower(s)[i];
    }
  }

  lemma ReadsAreDressed(value: string, token: string)
    requires RecordText(value) == ToLower(token)
    ensures Dressed(value, token)
  {
    hide IsSpace, TrimSpace, TrimChar, ToLower;
    var a, b := TrimSpaceSplits(value);
    var open, close := TrimCharSplits(TrimSpace(value), '"');
    assert DressedAs(value, token, a, open, TrimChar(TrimSpace(value), '"'), close, b);
  }

  /** Some published value is the token, in some letter case, quotes and space; and then only is it found. */
  lemma HoldsTokenExactly(values: seq<string>, token: string)
    requires token != "" && !IsSpace(token[0]) && !IsSpace(token[|token| - 1])
    requires token[0] != '"' && token[|token| - 1] != '"'
    ensures HoldsToken(Records(values), token) <==> exists value :: value in values && Dressed(value, token)
  {
    assert "" + token + "" == token && AllSpace("");
    TrimSpaceOf("", token, "");
    hide IsSpace, RecordText, TrimSpace, ToLower, AllSpace, DressedAs;
    forall value | value in values ensures RecordText(value) == ToLower(token) <==> Dressed(value, token) {
      if RecordText(value) == ToLower(token) {
        ReadsAreDressed(value, token);
      }
      if a, open, typed, close, b :| DressedAs(value, token, a, open, typed, close, b) {
        DressedReads(value, token, a, open, typed, close, b);
      }
    }
  }

  // ---- single writes -------------------------------------------------------------

  function Claimed(churchId: string, hostname: string, token: string): Domain {
    Domain(churchId, hostname, Pending, token, None, None, None, "")
  }

  function Activated(d: Domain, now: Instant): Domain {
    d.(status := Active, verifiedAt := Some(now), activatedAt := Some(now), lastCheckedAt := Some(now), lastError := "")
  }

  function Failed(d: Domain, now: Instant, why: string): Domain {
    d.(lastCheckedAt := Some(now), lastError := why)
  }

  const PAUSED := "This domain is paused because the church's plan no longer includes custom domains."

  function Paused(d: Domain): Domain {
    d.(status := Suspended, lastError := PAUSED)
  }

  function Restored(d: Domain, now: Instant): Domain {
    d.(status := Active, activatedAt := Some(now), lastError := "")
  }

  /** What the sweep makes of a domain whose church answers. */
  function Swept(d: Domain, owner: Owner): Domain {
    if d.status == Active && (owner == Missing || owner == NotEntitled) then Paused(d) else d
  }

  function OwnerOf(owners: map<string, Owner>, churchId: string): Owner {
    if churchId in owners then owners[churchId] else Missing
  }

  function SweptAll(domains: map<DomainId, Domain>, owners: map<string, Owner>): map<DomainId, Domain> {
    map id | id in domains :: Swept(domains[id], OwnerOf(owners, domains[id].churchId))
  }

  // ---- the invariant -------------------------------------------------------------

  /** A domain serves or has served exactly when its ownership was proven; its name is claimable. */
  predicate DomainInv(d: Domain) {
    && d.churchId != ""
    && IsHostname(d.hostname)
    && (d.status == Active || d.status == Suspended <==> d.verifiedAt.Some?)
    && d.status != Verified
    && (d.status == Active ==> d.activatedAt.Some?)
  }

  predicate UniqueHostnames(domains: map<DomainId, Domain>) {
    forall a, b :: a in domains && b in domains && domains[a].hostname == domains[b].hostname ==> a == b
  }

  /** The service's invariant, with the proofs of ownership seen so far. */
  ghost predicate Sound(domains: map<DomainId, Domain>, base: string, proven: set<(DomainId, string)>) {
    && UniqueHostnames(domains)
    && (forall id :: id in domains ==> DomainInv(domains[id]) && !IsReserved(domains[id].hostname, base))
    && (forall id :: id in domains && domains[id].verifiedAt.Some? ==> (id, domains[id].token) in proven)
  }

  /**
  What the invariant says of every stored domain: it has served exactly if it was verified,
  a verified one was seen to publish its own token, its name may be claimed, and no other
  domain has that name.
  */
  lemma SoundMeans(domains: map<DomainId, Domain>, base: string, proven: set<(DomainId, string)>, id: DomainId)
    requires Sound(domains, base, proven) && id in domains
    ensures domains[id].status in {Active, Suspended} <==> domains[id].verifiedAt.Some?
    ensures domains[id].verifiedAt.Some? ==> (id, domains[id].token) in proven
    ensures domains[id].status in {Pending, Active, Suspended}
    ensures domains[id].status == Active ==> domains[id].activatedAt.Some?
    ensures IsHostname(domains[id].hostname) && !IsReserved(domains[id].hostname, base)
    ensures forall x :: x in domains && domains[x].hostname == domains[id].hostname ==> x == id
  {
    hide IsHostname, IsReserved;
  }

  lemma ClaimingKeepsSound(
    before: map<DomainId, Domain>, base: string, proven: set<(DomainId, string)>, id: DomainId, d: Domain)
    requires Sound(before, base, proven) && id !in before
    requires DomainInv(d) && !IsReserved(d.hostname, base) && d.verifiedAt.None?
    requires forall x :: x in before ==> before[x].hostname != d.hostname
    ensures Sound(before[id := d], base, proven)
  {
    hide IsHostname, IsReserved, DomainInv;
  }

  // ---- the sweep -----------------------------------------------------------------

  function PausedIn(before: map<DomainId, Domain>, paused: set<DomainId>): map<DomainId, Domain> {
    map id | id in before :: if id in paused then Paused(before[id]) else before[id]
  }

  lemma PauseOneMore(before: map<DomainId, Domain>, paused: set<DomainId>, id: DomainId)
    requires id in before && id !in paused
    ensures id in PausedIn(before, paused) && PausedIn(before, paused)[id] == before[id]
    ensures PausedIn(before, paused)[id := Paused(before[id])] == PausedIn(before, paused + {id})
  {
  }

  lemma NothingHandled(before: map<DomainId, Domain>, owners: map<string, Owner>)
    ensures PausedIn(before, {}) == before && HandledTo(before, owners, {}, {})
  {
  }

  lemma PausedKeys(before: map<DomainId, Domain>, paused: set<DomainId>)
    ensures PausedIn(before, paused).Keys == before.Keys
  {
  }

  function ActiveIn(domains: map<DomainId, Domain>): set<DomainId> {
    set id | id in domains && domains[id].status == Active
  }

  predicate Answered(before: map<DomainId, Domain>, owners: map<string, Owner>, id: DomainId)
    requires id in before
  {
    OwnerOf(owners, before[id].churchId) != Unavailable
  }

  /** The churches of `handled` answered, and just the domains of the missing and unentitled were paused. */
  predicate HandledTo(
    before: map<DomainId, Domain>, owners: map<string, Owner>, handled: set<DomainId>, paused: set<DomainId>)
  {
    && paused <= handled <= ActiveIn(before)
    && (forall id :: id in handled ==>
          Answered(before, owners, id) && (id in paused <==> OwnerOf(owners, before[id].churchId) != Entitled))
  }

  /** The sweep's worklist: what is left and what is handled. */
  predicate Parts<T>(all: set<T>, left: set<T>, handled: set<T>) {
    handled !! left && handled + left == all
  }

  lemma MoveAcross<T>(all: set<T>, left: set<T>, handled: set<T>, x: T)
    requires Parts(all, left, handled) && x in left
    ensures x in all && x !in handled && Parts(all, left - {x}, handled + {x})
  {
  }

  lemma NoneAcross<T>(all: set<T>)
    ensures Parts(all, all, {})
  {
  }

  lemma AcrossAll<T>(all: set<T>, left: set<T>, handled: set<T>)
    requires Parts(all, left, handled)
    ensures left == {} ==> handled == all
  {
  }

  lemma OneLarger<T>(s: set<T>, x: T)
    requires x !in s
    ensures |s + {x}| == |s| + 1
  {
  }

  lemma HandledPaused(
    before: map<DomainId, Domain>, owners: map<string, Owner>, handled: set<DomainId>, paused: set<DomainId>)
    requires HandledTo(before, owners, handled, paused)
    ensures paused <= handled <= ActiveIn(before)
    ensures forall id :: id in handled ==> Answered(before, owners, id)
  {
  }

  lemma HandleOneMore(
    before: map<DomainId, Domain>, owners: map<string, Owner>,
    handled: set<DomainId>, paused: set<DomainId>, id: DomainId)
    requires HandledTo(before, owners, handled, paused) && id in ActiveIn(before) && id !in handled
    requires Answered(before, owners, id)
    ensures id !in paused
    ensures HandledTo(before, owners, handled + {id},
                      if OwnerOf(owners, before[id].churchId) == Entitled then paused else paused + {id})
  {
    hide OwnerOf;
  }

  /** The sweep's pauses, wherever it stops, keep the invariant. */
  lemma PausingKeepsSound(
    before: map<DomainId, Domain>, base: string, proven: set<(DomainId, string)>, paused: set<DomainId>)
    requires Sound(before, base, proven) && paused <= ActiveIn(before)
    ensures Sound(PausedIn(before, paused), base, proven)
  {
    hide IsHostname, IsReserved;
    var domains := PausedIn(before, paused);
    forall a, b | a in domains && b in domains && domains[a].hostname == domains[b].hostname ensures a == b {
      assert before[a].hostname == before[b].hostname;
    }
  }

  lemma PausedAreChanged(before: map<DomainId, Domain>, paused: set<DomainId>)
    requires paused <= ActiveIn(before)
    ensures paused == set id | id in before && PausedIn(before, paused)[id] != before[id]
  {
  }

  /** A paused domain was active, its church is gone or off the plan, and nothing else of it changes. */
  lemma PausedMeaning(
    before: map<DomainId, Domain>, owners: map<string, Owner>, handled: set<DomainId>, paused: set<DomainId>)
    requires HandledTo(before, owners, handled, paused)
    ensures forall id :: id in before && PausedIn(before, paused)[id] != before[id] ==>
              && before[id].status == Active
              && (before[id].churchId in owners ==> owners[before[id].churchId] in {Missing, NotEntitled})
              && PausedIn(before, paused)[id] == before[id].(status := Suspended, lastError := PAUSED)
  {
    forall id | id in before && PausedIn(before, paused)[id] != before[id]
      ensures id in paused && id in handled && Answered(before, owners, id)
    {
    }
  }

  lemma HandledAllIsSwept(before: map<DomainId, Domain>, owners: map<string, Owner>, paused: set<DomainId>)
    requires HandledTo(before, owners, ActiveIn(before), paused)
    ensures PausedIn(before, paused) == SweptAll(before, owners)
  {
    hide Paused;
    forall id | id in before ensures PausedIn(before, paused)[id] == SweptAll(before, owners)[id] {
      assert before[id].status == Active <==> id in ActiveIn(before);
    }
  }

  lemma HandledIsSwept(
    before: map<DomainId, Domain>, owners: map<string, Owner>,
    handled: set<DomainId>, paused: set<DomainId>, id: DomainId)
    requires HandledTo(before, owners, handled, paused) && id in before
    ensures PausedIn(before, paused)[id] ==
            if id in handled then Swept(before[id], OwnerOf(owners, before[id].churchId)) else before[id]
  {
    hide Paused;
  }

  class DomainService {
    var domains: map<DomainId, Domain>
    const base: string
    /** Every (domain, token) whose published record was seen to hold the token. */
    ghost var proven: set<(DomainId, string)>

    ghost predicate Valid()
      reads this
    {
      Sound(domains, base, proven)
    }

    constructor (base: string)
      ensures Valid() && domains == map[] && proven == {} && this.base == base
    {
      this.base := base;
      domains, proven := map[], {};
    }

    predicate Owns(churchId: string, id: DomainId)
      reads this
    {
      id in domains && domains[id].churchId == churchId
    }

    method Claim(churchId: string, raw: string, owner: Owner, token: string, newId: DomainId)
        returns (r: Reply<DomainId>)
      requires Valid() && newId !in domains && churchId != ""
      modifies this`domains
      ensures Valid()
      ensures r == if Normalise(raw).None? then Refused(HostnameInvalid)
                   else if IsReserved(Normalise(raw).value, base) then Refused(HostnameReserved)
                   else if owner == Missing || owner == Unavailable then Refused(ChurchLookupFailed)
                   else if owner == NotEntitled then Refused(PlanLacksDomains)
                   else if |set id | id in old(domains) && old(domains)[id].churchId == churchId| >= 3 then
                     Refused(TooManyDomains)
                   else if exists id :: id in old(domains) && old(domains)[id].hostname == Normalise(raw).value
                     then Refused(HostnameTaken)
                   else Ok(newId)
      ensures domains == if r.Ok? then
                old(domains)[newId := Domain(churchId, Normalise(raw).value, Pending, token, None, None, None, "")]
              else old(domains)
    {
      hide IsHostname, HostPart, IsReserved, Sound;
      var hostname := NormaliseHostname(raw);
      if hostname.None? {
        return Refused(HostnameInvalid);
      }
      if IsReserved(hostname.value, base) {
        return Refused(HostnameReserved);
      }
      if owner == Missing || owner == Unavailable {
        return Refused(ChurchLookupFailed);
      }
      if owner == NotEntitled {
        return Refused(PlanLacksDomains);
      }
      var held := set id | id in domains && domains[id].churchId == churchId;
      if |held| >= MAX_DOMAINS_PER_CHURCH {
        return Refused(TooManyDomains);
      }
      if exists id :: id in domains && domains[id].hostname == hostname.value {
        return Refused(HostnameTaken);
      }
      ClaimingKeepsSound(domains, base, proven, newId, Claimed(churchId, hostname.value, token));
      domains := domains[newId := Claimed(churchId, hostname.value, token)];
      return Ok(newId);
    }

    method Verify(churchId: string, id: DomainId, owner: Owner, dns: Dns, now: Instant) returns (r: Reply<Domain>)
      requires Valid()
      modifies this
      ensures Valid()
      ensures if !(id in old(domains) && old(domains)[id].churchId == churchId) then
                r == Refused(DomainNotFound) && domains == old(domains)
              else if owner == Missing || owner == Unavailable then
                r == Refused(ChurchLookupFailed) && domains == old(domains)
              else if owner == NotEntitled then r == Refused(PlanLacksDomains) && domains == old(domains)
              else if HoldsToken(dns, old(domains)[id].token) then
                r == Ok(old(domains)[id].(status := Active, verifiedAt := Some(now), activatedAt := Some(now),
                                          lastCheckedAt := Some(now), lastError := ""))
                && domains == old(domains)[id := r.value]
              else
                r == Refused(VerificationFailed)
                && domains == old(domains)[id := old(domains)[id].(
                     lastCheckedAt := Some(now),
                     lastError := if dns.LookupFailed? then "lookup failed" else "none matching")]
      ensures proven == old(proven) + (if r.Ok? then {(id, r.value.token)} else {})
    {
      hide IsHostname, HoldsToken, IsReserved;
      if !Owns(churchId, id) {
        return Refused(DomainNotFound);
      }
      if owner == Missing || owner == Unavailable {
        return Refused(ChurchLookupFailed);
      }
      if owner == NotEntitled {
        return Refused(PlanLacksDomains);
      }
      var domain := domains[id];
      if dns.LookupFailed? {
        NoAnswerHoldsNothing(domain.token);
        domains := domains[id := Failed(domain, now, "lookup failed")];
        return Refused(VerificationFailed);
      }
      var found := ContainsToken(dns.values, domain.token);
      if !found {
        domains := domains[id := Failed(domain, now, "none matching")];
        return Refused(VerificationFailed);
      }
      proven := proven + {(id, domain.token)};
      domains := domains[id := Activated(domain, now)];
      return Ok(domains[id]);
    }

    method Release(churchId: string, id: DomainId) returns (r: Reply<()>)
      requires Valid()
      modifies this`domains
      ensures Valid()
      ensures if !(id in old(domains) && old(domains)[id].churchId == churchId) then
                r == Refused(DomainNotFound) && domains == old(domains)
              else r == Ok(()) && domains == old(domains) - {id}
    {
      hide IsHostname, IsReserved;
      if !Owns(churchId, id) {
        return Refused(DomainNotFound);
      }
      domains := domains - {id};
      return Ok(());
    }

    method Restore(churchId: string, id: DomainId, owner: Owner, now: Instant) returns (r: Reply<Domain>)
      requires Valid()
      modifies this`domains
      ensures Valid()
      ensures if !(id in old(domains) && old(domains)[id].churchId == churchId) then
                r == Refused(DomainNotFound) && domains == old(domains)
              else if old(domains)[id].verifiedAt.None? then r == Refused(NotVerified) && domains == old(domains)
              else if owner == Missing || owner == Unavailable then
                r == Refused(ChurchLookupFailed) && domains == old(domains)
              else if owner == NotEntitled then r == Refused(PlanLacksDomains) && domains == old(domains)
              else r == Ok(old(domains)[id].(status := Active, activatedAt := Some(now), lastError := ""))
                   && domains == old(domains)[id := r.value]
    {
      hide IsHostname, IsReserved;
      if !Owns(churchId, id) {
        return Refused(DomainNotFound);
      }
      if domains[id].verifiedAt.None? {
        return Refused(NotVerified);
      }
      if owner == Missing || owner == Unavailable {
        return Refused(ChurchLookupFailed);
      }
      if owner == NotEntitled {
        return Refused(PlanLacksDomains);
      }
      domains := domains[id := Restored(domains[id], now)];
      return Ok(domains[id]);
    }

    /**
    The sweep over all active domains, in some order. It stops at the first church lookup
    that fails, having settled a set of domains whose churches answered.
    */
    method SuspendUnentitled(owners: map<string, Owner>)
        returns (suspended: nat, completed: bool, ghost handled: set<DomainId>)
      requires Valid()
      modifies this`domains
      ensures Valid()
      ensures domains.Keys == old(domains).Keys && handled <= ActiveIn(old(domains))
      ensures forall id :: id in domains ==>
                domains[id] == if id in handled then Swept(old(domains)[id], OwnerOf(owners, old(domains)[id].churchId))
                               else old(domains)[id]
      ensures completed ==> domains == SweptAll(old(domains), owners)
      ensures completed ==> forall id :: id in domains && domains[id].status == Active ==>
                domains[id].churchId in owners && owners[domains[id].churchId] == Entitled
      ensures forall id :: id in domains && domains[id] != old(domains)[id] ==>
                && old(domains)[id].status == Active
                && (old(domains)[id].churchId in owners ==> owners[old(domains)[id].churchId] in {Missing, NotEntitled})
                && domains[id] == old(domains)[id].(status := Suspended, lastError := PAUSED)
      ensures completed <==> forall id :: id in ActiveIn(old(domains)) ==> Answered(old(domains), owners, id)
      ensures suspended == |set id | id in old(domains) && domains[id] != old(domains)[id]|
    {
      hide OwnerOf, Sound, PausedIn, Swept, SweptAll, Paused, HandledTo, Parts;
      var active := set id | id in domains && domains[id].status == Active;
      var left := active;
      suspended, completed, handled := 0, true, {};
      ghost var paused: set<DomainId> := {};
      ghost var before := domains;
      NothingHandled(before, owners);
      assert Parts(active, active, {}) by { NoneAcross(active); }
      while left != {}
        invariant before == old(domains) && active == ActiveIn(before) && Parts(active, left, handled)
        invariant HandledTo(before, owners, handled, paused)
        invariant domains == PausedIn(before, paused) && domains.Keys == before.Keys
        invariant suspended == |paused|
        decreases left
      {
        var id :| id in left;
        MoveAcross(active, left, handled, id);
        assert id !in paused by { HandledPaused(before, owners, handled, paused); }
        PauseOneMore(before, paused, id);
        var owner := OwnerOf(owners, domains[id].churchId);
        if owner == Unavailable {
          completed := false;
          assert !Answered(before, owners, id);
          break;
        }
        HandleOneMore(before, owners, handled, paused, id);
        left, handled := left - {id}, handled + {id};
        if owner == Entitled {
          continue;
        }
        domains := domains[id := Paused(domains[id])];
        suspended := suspended + 1;
        OneLarger(paused, id);
        paused := paused + {id};
        PausedKeys(before, paused);
      }
      assert completed ==> handled == active by { AcrossAll(active, left, handled); }
      HandledPaused(before, owners, handled, paused);
      PausingKeepsSound(before, base, proven, paused);
      PausedAreChanged(before, paused);
      PausedMeaning(before, owners, handled, paused);
      forall id | id in before
        ensures domains[id] == if id in handled then Swept(before[id], OwnerOf(owners, before[id].churchId))
                               else before[id]
      {
        HandledIsSwept(before, owners, handled, paused, id);
      }
      if completed {
        HandledAllIsSwept(before, owners, paused);
        SweepLeavesNoneUnentitled(before, owners);
      }
    }

    /** The church an inbound Host header is served for. */
    method ChurchFor(host: string) returns (r: Option<string>)
      requires Valid()
      ensures r == Serving(domains, host)
    {
      hide IsHostname, IsReserved, LookupForm;
      forall id | ServedBy(domains, host, id) ensures LookupForm(host) != "" {
        ServedHasName(domains, host, id);
      }
      var hits := set id | id in domains && ServedBy(domains, host, id);
      assert forall id :: ServedBy(domains, host, id) ==> id in hits;
      if LookupForm(host) == "" || hits == {} {
        return None;
      }
      var id :| id in hits;
      ServingIsUnique(domains, host, id);
      return Some(domains[id].churchId);
    }

    method MayIssueCertificate(host: string) returns (yes: bool)
      requires Valid()
      ensures yes <==> exists id :: ServedBy(domains, host, id)
    {
      hide IsHostname, IsReserved, LookupForm;
      var church := ChurchFor(host);
      yes := church.Some? && church.value != "";
    }
  }

  lemma NoAnswerHoldsNothing(token: string)
    ensures !HoldsToken(LookupFailed, token)
  {
  }

  // ---- serving -------------------------------------------------------------------

  predicate ServedBy(domains: map<DomainId, Domain>, host: string, id: DomainId) {
    id in domains && domains[id].status == Active && domains[id].hostname == LookupForm(host)
  }

  /** The church with an active domain of that name. */
  ghost function Serving(domains: map<DomainId, Domain>, host: string): Option<string> {
    if exists id :: ServedBy(domains, host, id) then
      var id :| ServedBy(domains, host, id);
      Some(domains[id].churchId)
    else None
  }

  lemma ServingIsUnique(domains: map<DomainId, Domain>, host: string, id: DomainId)
    requires UniqueHostnames(domains) && ServedBy(domains, host, id)
    ensures Serving(domains, host) == Some(domains[id].churchId)
  {
    hide LookupForm;
  }

  lemma ServedHasName(domains: map<DomainId, Domain>, host: string, id: DomainId)
    requires ServedBy(domains, host, id) && IsHostname(domains[id].hostname)
    ensures LookupForm(host) != ""
  {
    NonEmptyHost(domains[id].hostname);
  }

  /** Host routing: a church subdomain first, then the custom domains. */
  datatype Route = Subdomain(slug: string) | OwnDomain(churchId: string) | Platform

  /** `alive` are the churches that can still be read; the name is brought into lookup form twice. */
  ghost function RouteOf(
    domains: map<DomainId, Domain>, alive: set<string>, host: string, base: string): Route
  {
    var slug := SubdomainOf(host, base);
    var name := LookupForm(host);
    if slug != "" && !IsReservedSlug(slug) then Subdomain(slug)
    else if name == "" || IsIPv4(name) then Platform
    else
      match Serving(domains, name)
      case Some(churchId) => if churchId in alive then OwnDomain(churchId) else Platform
      case None => Platform
  }

  /**
  For every store the service can reach, a hostname is routed to a church's own site
  exactly when that church has it active: never read as a subdomain, and no platform
  name, reserved slug or not, is ever captured.
  */
  lemma HostnameIsRouted(
    domains: map<DomainId, Domain>, proven: set<(DomainId, string)>, alive: set<string>,
    h: string, base: string, churchId: string)
    requires Sound(domains, base, proven) && IsHostname(h)
    ensures RouteOf(domains, alive, h, base) == OwnDomain(churchId)
            <==> churchId in alive && exists id :: ServedBy(domains, h, id) && domains[id].churchId == churchId
    ensures IsReserved(h, base) ==> !RouteOf(domains, alive, h, base).OwnDomain?
  {
    HostnameRoute(domains, alive, h, base);
    forall id | ServedBy(domains, h, id)
      ensures Serving(domains, h) == Some(domains[id].churchId) && SubdomainOf(h, base) == "" && !IsReserved(h, base)
    {
      ServedIsClaimable(domains, proven, h, base, id);
    }
    hide IsHostname, IsReserved, SubdomainOf, RouteOf, Sound, ServedBy;
    ServingIsServed(domains, h);
  }

  /** A hostname is looked up as it stands. */
  lemma HostnameRoute(domains: map<DomainId, Domain>, alive: set<string>, h: string, base: string)
    requires IsHostname(h)
    ensures RouteOf(domains, alive, h, base) ==
            if SubdomainOf(h, base) != "" && !IsReservedSlug(SubdomainOf(h, base)) then Subdomain(SubdomainOf(h, base))
            else if Serving(domains, h).Some? && Serving(domains, h).value in alive then
              OwnDomain(Serving(domains, h).value)
            else Platform
  {
    LookupFindsStoredForm(h);
    HostnameIsNoAddress(h);
    hide IsHostname, LookupForm, SubdomainOf, IsIPv4, Serving;
  }

  lemma ServedIsClaimable(
    domains: map<DomainId, Domain>, proven: set<(DomainId, string)>, h: string, base: string, id: DomainId)
    requires Sound(domains, base, proven) && IsHostname(h) && ServedBy(domains, h, id)
    ensures Serving(domains, h) == Some(domains[id].churchId) && SubdomainOf(h, base) == "" && !IsReserved(h, base)
  {
    LookupFindsStoredForm(h);
    hide IsHostname, IsReserved, LookupForm, SubdomainOf;
    ServingIsUnique(domains, h, id);
    ClaimableIsNoSubdomain(h, base);
  }

  lemma ServingIsServed(domains: map<DomainId, Domain>, h: string)
    ensures Serving(domains, h).Some? ==>
              exists id :: ServedBy(domains, h, id) && domains[id].churchId == Serving(domains, h).value
  {
    hide LookupForm;
  }

  /** Nothing a header's lookup finds is under the base domain, so the subdomain reader finds no slug in it. */
  lemma ServedHeader(
    domains: map<DomainId, Domain>, proven: set<(DomainId, string)>, raw: string, base: string, id: DomainId)
    requires Sound(domains, base, proven) && ReadableBase(base)
    requires ServedBy(domains, LookupForm(raw), id)
    ensures Serving(domains, LookupForm(raw)) == Some(domains[id].churchId)
    ensures SubdomainOf(raw, base) == "" && !IsReserved(domains[id].hostname, base)
    ensures LookupForm(raw) != "" && !IsIPv4(LookupForm(raw))
  {
    var h := LookupForm(LookupForm(raw));
    assert domains[id].hostname == h && IsHostname(h) && !IsReserved(h, base);
    ServingIsUnique(domains, LookupForm(raw), id);
    LookedUpIsNoAddress(raw);
    HostnameIsFixed(h);
    HostnameIsNoAddress(h);
    hide IsHostname, LookupForm, SubdomainOf, TrimSpace, ToLower, IsReserved, PlainBase, ReadableBase;
    if SubdomainOf(raw, base) != "" {
      SlugIsUnderBase(raw, base);
      UnderSuffixIsReserved(h, base);
    }
  }

  lemma UnderSuffixIsReserved(host: string, base: string)
    requires TrimSpace(host) == host && ToLower(host) == host && PlainBase(ToLower(TrimSpace(base)))
    requires HasSuffix(host, "." + ToLower(TrimSpace(base)))
    ensures IsReserved(host, base)
  {
    hide TrimSpace, ToLower, HasSuffix, RESERVED_SUFFIXES;
  }

  /**
  For every Host header as it arrives, with a port, capitals, spaces or a final dot, and
  every store the service can reach: it leads to a church's own site exactly when that
  church has the name it is looked up by active, and a reserved name never does.
  */
  lemma HeaderIsRouted(
    domains: map<DomainId, Domain>, proven: set<(DomainId, string)>, alive: set<string>,
    raw: string, base: string, churchId: string)
    requires Sound(domains, base, proven) && ReadableBase(base)
    ensures RouteOf(domains, alive, raw, base) == OwnDomain(churchId)
            <==> churchId in alive
                 && exists id :: ServedBy(domains, LookupForm(raw), id) && domains[id].churchId == churchId
    ensures IsReserved(LookupForm(LookupForm(raw)), base) ==> !RouteOf(domains, alive, raw, base).OwnDomain?
  {
    forall id | ServedBy(domains, LookupForm(raw), id)
      ensures Serving(domains, LookupForm(raw)) == Some(domains[id].churchId)
      ensures SubdomainOf(raw, base) == "" && !IsReserved(LookupForm(LookupForm(raw)), base)
      ensures LookupForm(raw) != "" && !IsIPv4(LookupForm(raw))
    {
      ServedHeader(domains, proven, raw, base, id);
    }
    ServingIsServed(domains, LookupForm(raw));
    hide IsReserved, SubdomainOf, LookupForm, IsIPv4, Sound, ServedBy, Serving, ReadableBase;
  }

  // ---- records made some other way -----------------------------------------------

  /** An active record in a store the service may not have written itself. */
  predicate Forced(domains: map<DomainId, Domain>, alive: set<string>, id: DomainId, h: string) {
    && UniqueHostnames(domains) && id in domains && domains[id].status == Active
    && domains[id].hostname == h && IsHostname(h) && domains[id].churchId in alive
  }

  /**
  The routing alone does not keep platform hosts: an active record, however it was made,
  captures its host if and only if the host names no subdomain or a reserved one.
  */
  lemma CaptureExactly(domains: map<DomainId, Domain>, alive: set<string>, id: DomainId, h: string, base: string)
    requires Forced(domains, alive, id, h)
    ensures RouteOf(domains, alive, h, base) == OwnDomain(domains[id].churchId)
            <==> SubdomainOf(h, base) == "" || IsReservedSlug(SubdomainOf(h, base))
  {
    LookupFindsStoredForm(h);
    HostnameRoute(domains, alive, h, base);
    hide IsHostname, LookupForm, SubdomainOf, RouteOf, IsReservedSlug;
    ServingIsUnique(domains, h, id);
  }

  /** Read off the name: the base domain itself, every name two or more labels below it, and the reserved slugs. */
  lemma PlatformHostCapture(
    domains: map<DomainId, Domain>, alive: set<string>, id: DomainId, h: string, part: string, base: string)
    requires Forced(domains, alive, id, h) && IsHostname(base)
    requires h == base || (part != "" && h == part + "." + base)
    ensures RouteOf(domains, alive, h, base) == OwnDomain(domains[id].churchId)
            <==> h == base || '.' in part || IsReservedSlug(part)
  {
    CaptureExactly(domains, alive, id, h, base);
    NamesUnderBase(part, base);
    hide IsHostname, SubdomainOf, RouteOf, IsReservedSlug;
    if h != base && '.' !in part {
      assert SubdomainOf(h, base) == part;
    }
    if h == base && part != "" && h == part + "." + base {
      assert |h| == |base|;
    }
  }

  lemma LabelFacts(part: string)
    requires ValidLabel(part)
    ensures 0 < |part| <= MAX_LABEL && '.' !in part && '*' !in part
  {
  }

  lemma JoinTwo(a: string, b: string)
    ensures Join([a, b], '.') == a + "." + b
  {
    assert [a, b][1..] == [b];
  }

  lemma TwoLabels(a: string, b: string)
    requires ValidLabel(a) && ValidLabel(b)
    ensures IsHostname(a + "." + b)
  {
    LabelFacts(a);
    LabelFacts(b);
    JoinTwo(a, b);
    hide ValidLabel, Split, Join;
    SplitOfJoin([a, b], '.');
    assert (a + "." + b)[|a|] == '.';
  }

  lemma ThreeLabels(a: string, b: string, c: string)
    requires ValidLabel(a) && ValidLabel(b) && ValidLabel(c)
    ensures IsHostname(a + "." + (b + "." + c))
  {
    LabelFacts(a);
    LabelFacts(b);
    LabelFacts(c);
    JoinTwo(b, c);
    assert Join([a, b, c], '.') == a + "." + (b + "." + c) by {
      assert [a, b, c][1..] == [b, c];
    }
    hide ValidLabel, Split, Join;
    SplitOfJoin([a, b, c], '.');
    assert (a + "." + (b + "." + c))[|a|] == '.';
  }

  const BASE := "altaros" + "." + "com"
  const API := "api" + "." + BASE

  lemma ApiIsHostname()
    ensures IsHostname(API) && IsHostname(BASE)
  {
    assert ValidLabel("api") && ValidLabel("altaros") && ValidLabel("com");
    hide ValidLabel, IsHostname;
    TwoLabels("altaros", "com");
    ThreeLabels("api", "altaros", "com");
  }

  lemma ApiIsReserved()
    ensures IsReservedSlug("api")
  {
    assert TrimSpace("api") == "api";
    assert ToLower("api") == "api";
  }

  /** The host api.altaros.com: no claim of it is accepted, yet a record made some other way captures it. */
  lemma ApiHostIsCaptured(domains: map<DomainId, Domain>, alive: set<string>, id: DomainId)
    requires UniqueHostnames(domains) && id in domains && domains[id].status == Active
    requires domains[id].hostname == API && domains[id].churchId in alive
    ensures IsReserved(API, BASE) && Normalise(API) == Some(API)
    ensures RouteOf(domains, alive, API, BASE) == OwnDomain(domains[id].churchId)
  {
    ApiIsHostname();
    ApiIsReserved();
    NormaliseFixpoint(API);
    UnderBaseIsReserved("api", BASE);
    hide IsHostname, IsReserved, Normalise, IsReservedSlug, RouteOf, BASE;
    PlatformHostCapture(domains, alive, id, API, "api", BASE);
  }

  lemma HasItsSuffix(s: string, suffix: string)
    ensures HasSuffix(s + suffix, suffix)
  {
  }

  lemma SuffixIsReserved(host: string, base: string)
    requires TrimSpace(host) == host && ToLower(host) == host && TrimSpace(base) == base && ToLower(base) == base
    requires base != "" && HasSuffix(host, "." + base)
    ensures IsReserved(host, base)
  {
    hide TrimSpace, ToLower, HasSuffix, RESERVED_SUFFIXES;
  }

  lemma UnderBaseIsReserved(part: string, base: string)
    requires IsHostname(base) && IsHostname(part + "." + base)
    ensures IsReserved(part + "." + base, base)
  {
    hide IsHostname, TrimSpace, ToLower, TrimSuffix, WithoutPort, HasSuffix, IsReserved, Cut, TrimPrefix;
    HostnameIsFixed(base);
    HostnameIsFixed(part + "." + base);
    HostnameIsNoAddress(base);
    HasItsSuffix(part, "." + base);
    assert part + ("." + base) == part + "." + base;
    SuffixIsReserved(part + "." + base, base);
  }

  // ---- suspension ----------------------------------------------------------------

  /** After a complete sweep every active domain belongs to a church that is entitled to it. */
  lemma SweepLeavesNoneUnentitled(domains: map<DomainId, Domain>, owners: map<string, Owner>)
    requires forall id :: id in ActiveIn(domains) ==> Answered(domains, owners, id)
    ensures forall id :: id in SweptAll(domains, owners) && SweptAll(domains, owners)[id].status == Active ==>
              SweptAll(domains, owners)[id].churchId in owners
              && owners[SweptAll(domains, owners)[id].churchId] == Entitled
  {
    var swept := SweptAll(domains, owners);
    forall id | id in swept && swept[id].status == Active
      ensures swept[id].churchId in owners && owners[swept[id].churchId] == Entitled
    {
      assert id in ActiveIn(domains) && Answered(domains, owners, id);
    }
  }

  lemma SweptIsPaused(domains: map<DomainId, Domain>, owners: map<string, Owner>) returns (paused: set<DomainId>)
    ensures paused <= ActiveIn(domains) && SweptAll(domains, owners) == PausedIn(domains, paused)
  {
    paused := set id | id in domains && domains[id].status == Active
      && OwnerOf(owners, domains[id].churchId) in {Missing, NotEntitled};
    hide Paused;
  }

  /** Pausing and restoring keeps the proof of ownership: nothing has to be verified again. */
  lemma RestoreNeedsNoProof(d: Domain, owner: Owner, now: Instant)
    requires DomainInv(d) && d.status == Active
    ensures Swept(d, owner).verifiedAt.Some?
    ensures Restored(Swept(d, owner), now) == d.(activatedAt := Some(now), lastError := "")
    ensures DomainInv(Restored(Swept(d, owner), now))
  {
    hide IsHostname;
  }

  lemma ReplacingKeepsSound(
    before: map<DomainId, Domain>, base: string, proven: set<(DomainId, string)>, id: DomainId, d: Domain)
    requires Sound(before, base, proven) && id in before && DomainInv(d)
    requires d.hostname == before[id].hostname && d.token == before[id].token && d.verifiedAt == before[id].verifiedAt
    ensures Sound(before[id := d], base, proven)
  {
    hide IsHostname, IsReserved, DomainInv;
    var after := before[id := d];
    forall a, b | a in before && b in before && after[a].hostname == after[b].hostname ensures a == b {
      assert before[a].hostname == before[b].hostname;
    }
  }

  /**
  Losing the plan and getting it back: whatever a sweep made of an active domain, `Restore`
  is not refused for want of a proof, gives the domain back as it was but for the moment of
  activation, and leaves every name and proof in order.
  */
  lemma SuspensionIsReversible(
    domains: map<DomainId, Domain>, owners: map<string, Owner>, base: string, proven: set<(DomainId, string)>,
    id: DomainId, now: Instant)
    requires Sound(domains, base, proven) && id in domains && domains[id].status == Active
    ensures var swept := SweptAll(domains, owners);
            && Sound(swept, base, proven) && swept[id].verifiedAt.Some?
            && Restored(swept[id], now) == domains[id].(activatedAt := Some(now), lastError := "")
            && Sound(swept[id := Restored(swept[id], now)], base, proven)
  {
    var swept := SweptAll(domains, owners);
    var paused := SweptIsPaused(domains, owners);
    PausingKeepsSound(domains, base, proven, paused);
    RestoreNeedsNoProof(domains[id], OwnerOf(owners, domains[id].churchId), now);
    assert swept[id] == Swept(domains[id], OwnerOf(owners, domains[id].churchId));
    assert swept[id].hostname == domains[id].hostname && swept[id].token == domains[id].token;
    hide SweptAll, PausedIn, Sound, Swept, DomainInv;
    ReplacingKeepsSound(swept, base, proven, id, Restored(swept[id], now));
  }
}
