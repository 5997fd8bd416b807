/**
Hostnames: what a church may claim, how a Host header is read, and why no name is both
a platform subdomain and claimable. Labels follow sections 2.3.1 and 2.3.4 of RFC 1035.
*/
module Hostnames {
  import opened Options
  import opened Text

  // ---- pieces of Go's net package ------------------------------------------------

  function IndexOf(s: string, c: char): Option<nat> {
    if s == "" then None
    else if s[0] == c then Some(0)
    else
      match IndexOf(s[1..], c)
      case Some(i) => Some(i + 1)
      case None => None
  }

  function LastIndexOf(s: string, c: char): (r: Option<nat>)
    ensures r.Some? ==> r.value < |s|
  {
    if s == "" then None
    else if s[|s| - 1] == c then Some(|s| - 1)
    else LastIndexOf(s[..|s| - 1], c)
  }

  /** The host of net.SplitHostPort, or nothing where that reports an error. */
  function HostOfHostPort(s: string): Option<string> {
    match LastIndexOf(s, ':')
    case None => None
    case Some(i) =>
      if s[0] == '[' then
        match IndexOf(s, ']')
        case None => None
        case Some(end) =>
          if end + 1 != i || end < 1 || end > |s| then None
          else if '[' in s[1..] || ']' in s[end + 1..] then None
          else Some(s[1..end])
      else if ':' in s[..i] || '[' in s || ']' in s then None
      else Some(s[..i])
  }

  function WithoutPort(s: string): string {
    match HostOfHostPort(s)
    case Some(host) => host
    case None => s
  }

  /**
  net.ParseIP for dotted addresses: four decimal numbers up to 255 without leading zeros.
  An IPv6 address has a colon, which no label may hold, so the label check refuses it.
  */
  predicate IsIPv4(s: string) {
    var parts := Split(s, '.');
    |parts| == 4 && forall p :: p in parts ==>
      p != "" && AllDigits(p) && (|p| > 1 ==> p[0] != '0') && NumberOf(p) <= 255
  }

  /** A decimal number without leading zeros is written one way. */
  lemma {:induction false} WrittenOnce(s: string)
    requires s != "" && AllDigits(s) && (|s| > 1 ==> s[0] != '0')
    ensures Itoa(NumberOf(s)) == s
  {
    var init, last := s[..|s| - 1], s[|s| - 1];
    assert last in s && s == init + [last];
    if init != "" {
      assert forall c :: c in init ==> c in s;
      WrittenOnce(init);
      NotZero(init);
      assert NumberOf(s) == 10 * NumberOf(init) + DigitValue(last);
      assert NumberOf(s) / 10 == NumberOf(init) && NumberOf(s) % 10 == DigitValue(last);
    } else {
      assert NumberOf(init) == 0;
    }
  }

  lemma {:induction false} NotZero(s: string)
    requires s != "" && AllDigits(s) && s[0] != '0'
    ensures NumberOf(s) > 0
  {
    assert s[0] in s;
    var init := s[..|s| - 1];
    if init == "" {
      assert s == [s[0]];
    } else {
      assert forall c :: c in init ==> c in s;
      NotZero(init);
    }
  }

  lemma {:induction false} NoLeadingZero(n: nat)
    ensures |Itoa(n)| > 1 ==> Itoa(n)[0] != '0'
    ensures n > 0 ==> Itoa(n)[0] != '0'
  {
    if n >= 10 {
      NoLeadingZero(n / 10);
    }
  }

  ghost predicate IsByte(p: string) {
    exists n: nat :: n <= 255 && p == Itoa(n)
  }

  lemma ByteText(p: string)
    ensures (p != "" && AllDigits(p) && (|p| > 1 ==> p[0] != '0') && NumberOf(p) <= 255)
            <==> IsByte(p)
  {
    if p != "" && AllDigits(p) && (|p| > 1 ==> p[0] != '0') && NumberOf(p) <= 255 {
      WrittenOnce(p);
      assert IsByte(p);
    }
    forall n: nat | n <= 255 && p == Itoa(n)
      ensures p != "" && AllDigits(p) && (|p| > 1 ==> p[0] != '0') && NumberOf(p) <= 255
    {
      NumberOfItoa(n);
      NoLeadingZero(n);
    }
  }

  lemma NoDotInNumber(n: nat)
    ensures '.' !in Itoa(n)
  {
    NumberOfItoa(n);
  }

  /** The IPv4 addresses are four numbers up to 255, written in decimal with dots between. */
  lemma AddressExactly(s: string)
    ensures IsIPv4(s) <==> exists parts ::
              |parts| == 4 && s == Join(parts, '.') && forall p :: p in parts ==> IsByte(p)
  {
    hide Split, Join, Itoa, NumberOf, AllDigits;
    forall p ensures IsByte(p) <==> p != "" && AllDigits(p) && (|p| > 1 ==> p[0] != '0') && NumberOf(p) <= 255 {
      ByteText(p);
    }
    JoinOfSplit(s, '.');
    forall parts | |parts| == 4 && s == Join(parts, '.') && forall p :: p in parts ==> IsByte(p) ensures IsIPv4(s) {
      forall p | p in parts ensures '.' !in p {
        var n: nat :| n <= 255 && p == Itoa(n);
        NoDotInNumber(n);
      }
      SplitOfJoin(parts, '.');
    }
  }

  // ---- claimable hostnames -------------------------------------------------------

  const MAX_HOST := 253
  const MAX_LABEL := 63

  predicate LabelChar(c: char) {
    'a' <= c <= 'z' || IsDigit(c) || c == '-'
  }

  predicate ValidLabel(part: string) {
    && part != "" && |part| <= MAX_LABEL
    && part[0] != '-' && part[|part| - 1] != '-'
    && forall c :: c in part ==> LabelChar(c)
  }

  /** The host in a pasted address, before it is checked. */
  function HostPart(raw: string): string {
    var host := TrimPrefix(TrimPrefix(ToLower(TrimSpace(raw)), "https://"), "http://");
    var bare := match Cut(host, '/') case Some((before, _)) => before case None => host;
    WithoutPort(TrimSuffix(bare, "."))
  }

  /** A dotted name of letter, digit and hyphen labels that is not an address. */
  predicate IsHostname(host: string) {
    && host != "" && |host| <= MAX_HOST
    && !IsIPv4(host)
    && '.' in host && '*' !in host
    && forall part :: part in Split(host, '.') ==> ValidLabel(part)
  }

  function Normalise(raw: string): Option<string> {
    if IsHostname(HostPart(raw)) then Some(HostPart(raw)) else None
  }

  method CheckLabel(part: string) returns (ok: bool)
    ensures ok == ValidLabel(part)
  {
    if part == "" || |part| > MAX_LABEL || part[0] == '-' || part[|part| - 1] == '-' {
      return false;
    }
    for i := 0 to |part|
      invariant forall j :: 0 <= j < i ==> LabelChar(part[j])
    {
      var isAlnum := 'a' <= part[i] <= 'z' || '0' <= part[i] <= '9';
      if !isAlnum && part[i] != '-' {
        assert part[i] in part;
        return false;
      }
    }
    return true;
  }

  method NormaliseHostname(raw: string) returns (r: Option<string>)
    ensures r == Normalise(raw)
  {
    hide TrimSpace, ToLower, HostOfHostPort, IsIPv4, ValidLabel, Split;
    var host := ToLower(TrimSpace(raw));
    host := TrimPrefix(host, "https://");
    host := TrimPrefix(host, "http://");
    var slash := Cut(host, '/');
    if slash.Some? {
      host := slash.value.0;
    }
    host := TrimSuffix(host, ".");
    var hostport := HostOfHostPort(host);
    if hostport.Some? {
      host := hostport.value;
    }
    assert host == HostPart(raw);
    if host == "" || |host| > MAX_HOST || IsIPv4(host) || '.' !in host || '*' in host {
      return None;
    }
    var labels := Split(host, '.');
    for i := 0 to |labels|
      invariant forall part :: part in labels[..i] ==> ValidLabel(part)
    {
      var ok := CheckLabel(labels[i]);
      if !ok {
        assert labels[i] in labels;
        return None;
      }
      assert labels[..i + 1] == labels[..i] + [labels[i]];
    }
    assert labels[..|labels|] == labels;
    return Some(host);
  }

  // ---- reserved names and subdomains ---------------------------------------------

  const RESERVED_SUFFIXES: seq<string> :=
    [".localhost", ".local", ".test", ".example", ".invalid", ".internal", ".onion", ".arpa"]

  predicate IsReserved(rawHost: string, baseDomain: string) {
    var host, base := ToLower(TrimSpace(rawHost)), ToLower(TrimSpace(baseDomain));
    || (base != "" && (host == base || HasSuffix(host, "." + base)))
    || host == "localhost" || host == "localhost.localdomain"
    || exists suffix :: suffix in RESERVED_SUFFIXES && HasSuffix(host, suffix)
  }

  /** The church slug of a Host header, or the empty text when it names none. */
  function SubdomainOf(rawHost: string, baseDomain: string): string {
    var host := ToLower(TrimSuffix(TrimSpace(WithoutPort(rawHost)), "."));
    var base := ToLower(TrimSpace(baseDomain));
    if host == "" || base == "" || IsIPv4(host) || !HasSuffix(host, "." + base) then ""
    else
      var part := TrimSuffix(host, "." + base);
      if part == "" || '.' in part then "" else part
  }

  /** How a Host header is looked up among the custom domains. */
  function LookupForm(rawHost: string): string {
    WithoutPort(ToLower(TrimSuffix(TrimSpace(rawHost), ".")))
  }

  // ---- hostnames stay as they are ------------------------------------------------

  predicate HostChar(c: char) {
    LabelChar(c) || c == '.'
  }

  lemma {:induction false} JoinedChars(parts: seq<string>, sep: char)
    requires forall p, c :: p in parts && c in p ==> LabelChar(c)
    ensures forall c :: c in Join(parts, sep) ==> LabelChar(c) || c == sep
  {
    if |parts| > 1 {
      assert forall p :: p in parts[1..] ==> p in parts;
      JoinedChars(parts[1..], sep);
      assert parts[0] in parts;
    } else if |parts| == 1 {
      assert parts[0] in parts;
    }
  }

  /** The last part of a text that ends with the separator is empty. */
  lemma {:induction false} EndsWithEmptyPart(s: string, sep: char)
    requires s != "" && s[|s| - 1] == sep
    ensures "" in Split(s, sep)
  {
    var init := s[..|s| - 1];
    assert s == init + [sep];
    SplitSnoc(init, sep);
    assert Split(s, sep)[|Split(s, sep)| - 1] == "";
  }

  lemma {:induction false} SplitSnoc(s: string, sep: char)
    ensures Split(s + [sep], sep) == Split(s, sep) + [""]
  {
    if s == "" {
      assert s + [sep] == [sep];
    } else {
      SplitSnoc(s[1..], sep);
      assert (s + [sep])[1..] == s[1..] + [sep];
    }
  }

  lemma HostnameChars(h: string)
    requires IsHostname(h)
    ensures forall c :: c in h ==> HostChar(c)
    ensures h[|h| - 1] != '.'
  {
    hide Split, Join, IsIPv4;
    JoinOfSplit(h, '.');
    JoinedChars(Split(h, '.'), '.');
    if h[|h| - 1] == '.' {
      EndsWithEmptyPart(h, '.');
    }
  }

  lemma {:induction false} NoLastIndex(s: string, c: char)
    requires c !in s
    ensures LastIndexOf(s, c).None?
  {
    if s != "" {
      NoLastIndex(s[..|s| - 1], c);
    }
  }

  lemma {:induction false} NoCut(s: string, c: char)
    requires c !in s
    ensures Cut(s, c).None?
  {
    if s != "" {
      NoCut(s[1..], c);
    }
  }

  lemma LowerFixes(h: string)
    requires forall c :: c in h ==> HostChar(c)
    ensures ToLower(h) == h
  {
    forall i | 0 <= i < |h| ensures ToLower(h)[i] == h[i] {
      assert h[i] in h;
    }
  }

  lemma TrimFixes(h: string)
    requires h != "" && forall c :: c in h ==> HostChar(c)
    ensures TrimSpace(h) == h
  {
    assert h[0] in h && h[|h| - 1] in h;
  }

  /** Every text operation on a Host header leaves letters, digits, hyphens and inner dots as they are. */
  lemma PlainIsFixed(h: string)
    requires h != "" && h[|h| - 1] != '.' && forall c :: c in h ==> HostChar(c)
    ensures TrimSpace(h) == h && ToLower(h) == h && TrimSuffix(h, ".") == h && WithoutPort(h) == h
    ensures LookupForm(h) == h
  {
    LowerFixes(h);
    TrimFixes(h);
    assert ':' !in h;
    NoLastIndex(h, ':');
    hide TrimSpace, ToLower;
  }

  lemma HostnameIsFixed(h: string)
    requires IsHostname(h)
    ensures TrimSpace(h) == h && ToLower(h) == h && TrimSuffix(h, ".") == h && WithoutPort(h) == h
    ensures Cut(h, '/').None? && TrimPrefix(h, "https://") == h && TrimPrefix(h, "http://") == h
  {
    HostnameChars(h);
    hide IsHostname, TrimSpace, ToLower, TrimSuffix, WithoutPort;
    assert h != "" by { NonEmptyHost(h); }
    PlainIsFixed(h);
    assert ':' !in h && '/' !in h;
    NoCut(h, '/');
    assert "https://"[5] == ':' && "http://"[4] == ':';
    if HasPrefix(h, "https://") { PrefixChars(h, "https://"); }
    if HasPrefix(h, "http://") { PrefixChars(h, "http://"); }
  }

  lemma PrefixChars(h: string, prefix: string)
    requires HasPrefix(h, prefix)
    ensures forall c :: c in prefix ==> c in h
  {
    forall c | c in prefix ensures c in h {
      var i :| 0 <= i < |prefix| && prefix[i] == c;
      assert h[i] == c;
    }
  }

  lemma NonEmptyHost(h: string)
    requires IsHostname(h)
    ensures h != ""
  {
  }

  lemma HostnameIsNoAddress(h: string)
    requires IsHostname(h)
    ensures h != "" && !IsIPv4(h)
  {
  }

  /** Normalising is idempotent: its outputs are exactly the hostnames, and it returns those unchanged. */
  lemma NormaliseFixpoint(h: string)
    ensures IsHostname(h) <==> Normalise(h) == Some(h)
    ensures (exists raw :: Normalise(raw) == Some(h)) <==> IsHostname(h)
  {
    if IsHostname(h) {
      HostnameIsFixed(h);
      hide IsHostname, TrimSpace, ToLower, WithoutPort;
      assert Normalise(h) == Some(h);
    }
  }

  /** A normalised hostname is looked up as it is stored. */
  lemma LookupFindsStoredForm(h: string)
    requires IsHostname(h)
    ensures LookupForm(h) == h
  {
    HostnameIsFixed(h);
  }

  ghost predicate EndsIn(s: string, suffix: string) {
    exists x :: s == x + suffix
  }

  lemma SuffixMeaning(s: string, suffix: string)
    ensures HasSuffix(s, suffix) <==> EndsIn(s, suffix)
  {
    if HasSuffix(s, suffix) {
      assert s == s[..|s| - |suffix|] + suffix;
    }
    if x :| s == x + suffix {
      assert s[|s| - |suffix|..] == suffix;
    }
  }

  const SET_ASIDE: set<string> := {
    ".localhost", ".local", ".test", ".example", ".invalid", ".internal", ".onion", ".arpa"
  }

  lemma SameSuffixes(suffix: string)
    ensures suffix in SET_ASIDE <==> suffix in RESERVED_SUFFIXES
  {
  }

  /**
  The hostnames no church may claim: the base domain, everything under it, and the names set
  aside for software, testing and documentation.
  */
  lemma ReservedExactly(h: string, base: string)
    requires IsHostname(h) && IsHostname(base)
    ensures IsReserved(h, base) <==>
            || h == base || EndsIn(h, "." + base) || h == "localhost.localdomain"
            || exists suffix :: suffix in SET_ASIDE && EndsIn(h, suffix)
  {
    HostnameIsFixed(h);
    HostnameIsFixed(base);
    HostnameIsNoAddress(base);
    assert h != "localhost" by { assert '.' in h; }
    SuffixMeaning(h, "." + base);
    hide IsHostname, TrimSpace, ToLower, HasSuffix, RESERVED_SUFFIXES, SET_ASIDE, EndsIn, Cut, TrimSuffix, WithoutPort;
    forall suffix
      ensures (suffix in SET_ASIDE && EndsIn(h, suffix)) <==> (suffix in RESERVED_SUFFIXES && HasSuffix(h, suffix))
    {
      SameSuffixes(suffix);
      SuffixMeaning(h, suffix);
    }
  }

  /** No name is both a subdomain of the platform and claimable as a church's own domain. */
  lemma ClaimableIsNoSubdomain(h: string, base: string)
    requires IsHostname(h) && !IsReserved(h, base)
    ensures SubdomainOf(h, base) == ""
  {
    HostnameIsFixed(h);
    hide IsHostname, TrimSpace, ToLower, WithoutPort, IsIPv4;
  }
}
