/**
Host headers as they arrive: with a port, capitals, spaces or a final dot. The subdomain
reader and the custom-domain lookup strip these in different orders; here they are shown
to agree about every name that may be claimed.
*/
module HostHeaders {
  import opened Options
  import opened Text
  import opened Hostnames

  // ---- the shapes of a host with a port ------------------------------------------

  /** Without the characters that mark a port or an address. */
  predicate Free(s: string) {
    ':' !in s && '[' !in s && ']' !in s
  }

  predicate PlainShape(s: string, host: string, port: string) {
    s == host + ":" + port && Free(host) && Free(port)
  }

  predicate BracketShape(s: string, host: string, port: string) {
    s == "[" + host + "]" + ":" + port && '[' !in host && ']' !in host && Free(port)
  }

  lemma {:induction false} IndexOfMeaning(s: string, c: char)
    ensures match IndexOf(s, c)
            case None => c !in s
            case Some(i) => i < |s| && s[i] == c && c !in s[..i]
  {
    if s != "" && s[0] != c {
      IndexOfMeaning(s[1..], c);
      if IndexOf(s[1..], c).Some? {
        var i := IndexOf(s[1..], c).value;
        assert s[..i + 1] == [s[0]] + s[1..][..i];
      }
    }
  }

  lemma {:induction false} LastIndexOfMeaning(s: string, c: char)
    ensures match LastIndexOf(s, c)
            case None => c !in s
            case Some(i) => i < |s| && s[i] == c && c !in s[i + 1..]
  {
    var n := |s| - 1;
    if s != "" && s[n] != c {
      LastIndexOfMeaning(s[..n], c);
      if LastIndexOf(s[..n], c).Some? {
        var i := LastIndexOf(s[..n], c).value;
        assert s[i + 1..] == s[..n][i + 1..] + [s[n]];
      }
    }
  }

  lemma {:induction false} LastIndexAt(a: string, c: char, b: string)
    requires c !in b
    ensures LastIndexOf(a + [c] + b, c) == Some(|a|)
  {
    var s := a + [c] + b;
    if b != "" {
      LastIndexAt(a, c, b[..|b| - 1]);
      assert s[..|s| - 1] == a + [c] + b[..|b| - 1];
      assert s[|s| - 1] == b[|b| - 1];
    }
  }

  lemma {:induction false} IndexAt(a: string, c: char, b: string)
    requires c !in a
    ensures IndexOf(a + [c] + b, c) == Some(|a|)
  {
    var s := a + [c] + b;
    if a != "" {
      IndexAt(a[1..], c, b);
      assert s[1..] == a[1..] + [c] + b;
      assert s[0] == a[0];
    }
  }

  /** A host with a port has one of the two shapes. */
  lemma PortShape(s: string) returns (port: string)
    requires HostOfHostPort(s).Some?
    ensures PlainShape(s, HostOfHostPort(s).value, port) || BracketShape(s, HostOfHostPort(s).value, port)
  {
    LastIndexOfMeaning(s, ':');
    IndexOfMeaning(s, ']');
    hide LastIndexOf, IndexOf;
    var i := LastIndexOf(s, ':').value;
    port := s[i + 1..];
    var host := HostOfHostPort(s).value;
    if s[0] == '[' {
      assert s[1..][i..] == port;
      assert '[' !in port && ']' !in port by {
        assert forall c :: c in port ==> c in s[1..] && c in s[i..];
      }
      assert forall c :: c in host ==> c in s[1..] && c in s[..i - 1];
      assert s == "[" + host + "]" + ":" + port;
    } else {
      assert s == host + ":" + port;
    }
  }

  lemma PlainPort(host: string, port: string)
    requires Free(host) && Free(port)
    ensures WithoutPort(host + ":" + port) == host
  {
    var s := host + ":" + port;
    LastIndexAt(host, ':', port);
    assert s[..|host|] == host;
    hide LastIndexOf, IndexOf;
    assert s[0] != '[';
    assert '[' !in s && ']' !in s;
  }

  lemma BracketPort(host: string, port: string)
    requires '[' !in host && ']' !in host && Free(port)
    ensures WithoutPort("[" + host + "]" + ":" + port) == host
  {
    var open := "[" + host;
    var s := open + "]" + ":" + port;
    assert s == "[" + host + "]" + ":" + port;
    LastIndexAt(open + "]", ':', port);
    IndexAt(open, ']', ":" + port);
    assert s == open + [']'] + (":" + port);
    hide LastIndexOf, IndexOf;
    assert s[1..|open|] == host;
    assert s[1..] == host + "]" + ":" + port;
    assert s[|open| + 1..] == ":" + port;
  }

  lemma NoPort(s: string)
    requires ':' !in s
    ensures WithoutPort(s) == s
  {
    NoLastIndex(s, ':');
  }

  /** What is left without a port was there before. */
  lemma WithoutPortChars(s: string, c: char)
    requires c !in s
    ensures c !in WithoutPort(s)
  {
    if HostOfHostPort(s).Some? {
      hide HostOfHostPort;
      var port := PortShape(s);
      var host := HostOfHostPort(s).value;
    }
  }

  // ---- trimming and lower case ---------------------------------------------------

  /** What both readers do to a header besides dropping its port. */
  function Strip(s: string): string {
    ToLower(TrimSuffix(TrimSpace(s), "."))
  }

  lemma {:induction false} TrimLeftOver(a: string, c: char, b: string)
    requires !IsSpace(c)
    ensures TrimLeft(a + [c] + b) == TrimLeft(a) + [c] + b
  {
    hide IsSpace;
    var s := a + [c] + b;
    if a != "" {
      assert s[0] == a[0];
      if IsSpace(a[0]) {
        TrimLeftOver(a[1..], c, b);
        assert s[1..] == a[1..] + [c] + b;
      }
    }
  }

  lemma {:induction false} TrimRightOver(a: string, c: char, b: string)
    requires !IsSpace(c)
    ensures TrimRight(a + [c] + b) == a + [c] + TrimRight(b)
  {
    hide IsSpace;
    var s := a + [c] + b;
    if b != "" {
      assert s[|s| - 1] == b[|b| - 1];
      if IsSpace(b[|b| - 1]) {
        TrimRightOver(a, c, b[..|b| - 1]);
        assert s[..|s| - 1] == a + [c] + b[..|b| - 1];
      }
    }
  }

  lemma TrimSuffixOver(a: string, c: char, b: string)
    requires c != '.'
    ensures TrimSuffix(a + [c] + b, ".") == a + [c] + TrimSuffix(b, ".")
  {
    var s := a + [c] + b;
    if b == "" {
      assert s[|s| - 1] == c;
    } else {
      assert s[|s| - 1] == b[|b| - 1];
      assert s[..|s| - 1] == a + [c] + b[..|b| - 1];
      assert s[|s| - 1..] == [b[|b| - 1]] && b[|b| - 1..] == [b[|b| - 1]];
    }
  }

  lemma LowerConcat(a: string, b: string)
    ensures ToLower(a + b) == ToLower(a) + ToLower(b)
  {
  }

  /** The port's text once stripped. */
  function StrippedPort(port: string): string {
    ToLower(TrimSuffix(TrimRight(port), "."))
  }

  /** Stripping works on the two sides of a colon apart. */
  lemma StripOver(a: string, b: string)
    ensures Strip(a + ":" + b) == ToLower(TrimLeft(a)) + ":" + StrippedPort(b)
  {
    TrimLeftOver(a, ':', b);
    TrimRightOver(TrimLeft(a), ':', b);
    TrimSuffixOver(TrimLeft(a), ':', TrimRight(b));
    hide TrimLeft, TrimRight, TrimSuffix, ToLower;
    LowerConcat(TrimLeft(a) + ":", TrimSuffix(TrimRight(b), "."));
    LowerConcat(TrimLeft(a), ":");
    assert ToLower(":") == ":" by { LowerColon(); }
  }

  lemma LowerColon()
    ensures ToLower(":") == ":" && ToLower("[") == "[" && ToLower("]") == "]"
  {
  }

  lemma {:induction false} TrimLeftEnds(s: string)
    ensures |TrimLeft(s)| <= |s| && TrimLeft(s) == s[|s| - |TrimLeft(s)|..]
    ensures TrimLeft(s) != "" ==> !IsSpace(TrimLeft(s)[0])
    ensures TrimLeft(TrimLeft(s)) == TrimLeft(s)
  {
    hide IsSpace;
    if s != "" && IsSpace(s[0]) {
      TrimLeftEnds(s[1..]);
    }
  }

  lemma {:induction false} TrimRightEnds(s: string)
    ensures TrimRight(s) <= s
  {
    hide IsSpace;
    if s != "" && IsSpace(s[|s| - 1]) {
      TrimRightEnds(s[..|s| - 1]);
    }
  }

  /** The characters that mean something to these readers are not made by lower case. */
  predicate Mark(c: char) {
    c == ':' || c == '[' || c == ']' || c == '.'
  }

  lemma LowerMarks(s: string, c: char)
    requires Mark(c)
    ensures c in ToLower(s) <==> c in s
  {
    if c in ToLower(s) {
      var i :| 0 <= i < |s| && ToLower(s)[i] == c;
      assert s[i] == c;
    }
    if c in s {
      var i :| 0 <= i < |s| && s[i] == c;
      assert ToLower(s)[i] == c;
    }
  }

  lemma StripMarks(s: string, c: char)
    requires Mark(c) && c !in s
    ensures c !in Strip(s) && c !in StrippedPort(s) && c !in ToLower(TrimLeft(s))
  {
    TrimLeftEnds(s);
    TrimRightEnds(s);
    TrimRightEnds(TrimLeft(s));
    hide TrimLeft, TrimRight, ToLower, Mark;
    assert forall x :: x in TrimLeft(s) ==> x in s;
    assert forall x :: x in TrimRight(s) ==> x in s;
    assert forall x :: x in TrimSpace(s) ==> x in TrimLeft(s);
    LowerMarks(TrimLeft(s), c);
    LowerMarks(TrimSuffix(TrimSpace(s), "."), c);
    LowerMarks(TrimSuffix(TrimRight(s), "."), c);
  }

  lemma LowerSpaces(c: char)
    ensures IsSpace(Lower(c)) <==> IsSpace(c)
    ensures Lower(Lower(c)) == Lower(c)
  {
  }

  lemma LowerTwice(s: string)
    ensures ToLower(ToLower(s)) == ToLower(s)
  {
    hide Lower;
    forall i | 0 <= i < |s| ensures ToLower(ToLower(s))[i] == ToLower(s)[i] {
      LowerSpaces(s[i]);
    }
  }

  lemma {:induction false} LowerTrimLeft(s: string)
    ensures TrimLeft(ToLower(s)) == ToLower(TrimLeft(s))
  {
    hide IsSpace, Lower;
    if s != "" {
      LowerSpaces(s[0]);
      if IsSpace(s[0]) {
        LowerTrimLeft(s[1..]);
        assert ToLower(s)[1..] == ToLower(s[1..]);
      }
    }
  }

  lemma {:induction false} LowerTrimRight(s: string)
    ensures TrimRight(ToLower(s)) == ToLower(TrimRight(s))
  {
    hide IsSpace, Lower;
    if s != "" {
      var n := |s| - 1;
      LowerSpaces(s[n]);
      if IsSpace(s[n]) {
        LowerTrimRight(s[..n]);
        assert ToLower(s)[..n] == ToLower(s[..n]);
      }
    }
  }

  lemma LowerTrimDot(s: string)
    ensures TrimSuffix(ToLower(s), ".") == ToLower(TrimSuffix(s, "."))
  {
    if s != "" {
      var n := |s| - 1;
      assert Lower(s[n]) == '.' <==> s[n] == '.';
      assert ToLower(s)[n..] == [Lower(s[n])] && s[n..] == [s[n]];
      assert ToLower(s)[..n] == ToLower(s[..n]);
    }
  }

  /** Stripping does not mind whether its input is in lower case or trimmed on the left. */
  lemma StripAgain(s: string)
    ensures Strip(ToLower(s)) == Strip(s) && Strip(TrimLeft(s)) == Strip(s)
  {
    LowerTrimLeft(s);
    LowerTrimRight(TrimLeft(s));
    LowerTrimDot(TrimSpace(s));
    LowerTwice(TrimSuffix(TrimSpace(s), "."));
    TrimLeftEnds(s);
    hide TrimLeft, TrimRight, TrimSuffix, ToLower;
  }

  /** A stripped text that ends in neither space nor dot is stripped already. */
  lemma StripTwice(s: string)
    requires Strip(s) != "" && !IsSpace(Strip(s)[|Strip(s)| - 1]) && Strip(s)[|Strip(s)| - 1] != '.'
    ensures Strip(Strip(s)) == Strip(s)
  {
    var t, u := Strip(s), TrimSuffix(TrimSpace(s), ".");
    TrimLeftEnds(s);
    TrimRightEnds(TrimLeft(s));
    assert u != "" && u[0] == TrimLeft(s)[0];
    LowerTwice(u);
    LowerSpaces(u[0]);
    assert !IsSpace(t[0]);
    hide IsSpace, ToLower;
    assert TrimLeft(t) == t && TrimRight(t) == t;
  }

  // ---- both readers --------------------------------------------------------------

  predicate PlainBase(base: string) {
    base != "" && base[|base| - 1] != '.' && forall c :: c in base ==> HostChar(c)
  }

  /** A configured base domain: none, or a plain name up to case and surrounding space. */
  predicate ReadableBase(base: string) {
    var b := ToLower(TrimSpace(base));
    b == "" || PlainBase(b)
  }

  /** A subdomain of the base, taken for a host with a port, leaves a host without a dot. */
  lemma SubdomainWithPort(slug: string, base: string)
    requires '.' !in slug && PlainBase(base)
    ensures var host := slug + "." + base; WithoutPort(host) == host || '.' !in WithoutPort(host)
  {
    var host := slug + "." + base;
    assert forall i :: |slug| <= i < |host| ==> host[i] != ':' by {
      forall i | |slug| < i < |host| ensures host[i] != ':' {
        assert host[i] == base[i - |slug| - 1] && base[i - |slug| - 1] in base;
      }
    }
    if HostOfHostPort(host).Some? {
      hide HostOfHostPort;
      var port := PortShape(host);
      var y := HostOfHostPort(host).value;
      if PlainShape(host, y, port) {
        assert host[|y|] == ':';
        assert forall i :: 0 <= i < |y| ==> y[i] == slug[i];
      } else {
        assert host[|y| + 2] == ':';
        assert forall i :: 0 <= i < |y| ==> y[i] == host[i + 1] == slug[i + 1];
      }
    }
  }

  /** The header with a plain port, with a bracketed one, and without. */
  lemma PlainHeader(raw: string, host: string, port: string)
    requires PlainShape(raw, host, port)
    ensures WithoutPort(raw) == host && LookupForm(LookupForm(raw)) == Strip(host)
  {
    hide IsSpace, TrimLeft, TrimRight, TrimSuffix, ToLower, WithoutPort, StrippedPort, TrimSpace;
    PlainPort(host, port);
    StripOver(host, port);
    var left := ToLower(TrimLeft(host));
    assert Free(left) && Free(StrippedPort(port)) && ':' !in Strip(left) by {
      FreeParts(host, port);
      StripMarks(left, ':');
    }
    assert LookupForm(raw) == WithoutPort(Strip(raw));
    PlainPort(left, StrippedPort(port));
    StripAgain(TrimLeft(host));
    StripAgain(host);
    NoPort(Strip(left));
  }

  lemma FreeParts(host: string, port: string)
    requires Free(host) && Free(port)
    ensures Free(ToLower(TrimLeft(host))) && Free(StrippedPort(port))
  {
    StripMarks(host, ':');
    StripMarks(host, '[');
    StripMarks(host, ']');
    StripMarks(port, ':');
    StripMarks(port, '[');
    StripMarks(port, ']');
  }

  lemma BracketHeader(raw: string, host: string, port: string)
    requires BracketShape(raw, host, port)
    ensures WithoutPort(raw) == host && LookupForm(LookupForm(raw)) == WithoutPort(Strip(host))
  {
    var inner := "[" + host + "]";
    assert TrimLeft(inner) == inner && raw == inner + ":" + port;
    hide IsSpace, TrimLeft, TrimRight, TrimSuffix, ToLower, WithoutPort, StrippedPort, TrimSpace;
    BracketPort(host, port);
    StripOver(inner, port);
    LowerConcat("[" + host, "]");
    LowerConcat("[", host);
    LowerColon();
    LowerMarks(host, '[');
    LowerMarks(host, ']');
    FreeParts("", port);
    assert LookupForm(raw) == WithoutPort(Strip(raw));
    BracketPort(ToLower(host), StrippedPort(port));
    StripAgain(host);
  }

  /**
  If the subdomain reader finds a slug in a header, then what the lookup makes of that
  header is, if it is a hostname at all, a name under the base domain.
  */
  lemma SlugIsUnderBase(raw: string, base: string)
    requires ReadableBase(base) && SubdomainOf(raw, base) != ""
    ensures PlainBase(ToLower(TrimSpace(base)))
    ensures var h := LookupForm(LookupForm(raw));
            IsHostname(h) ==> HasSuffix(h, "." + ToLower(TrimSpace(base)))
  {
    var b, slug := ToLower(TrimSpace(base)), SubdomainOf(raw, base);
    var host := Strip(WithoutPort(raw));
    assert host == slug + "." + b && '.' !in slug && HasSuffix(host, "." + b);
    SubdomainWithPort(slug, b);
    hide IsSpace, TrimLeft, TrimRight, TrimSuffix, ToLower, TrimSpace, Strip, HasSuffix, SubdomainOf, LookupForm;
    if HostOfHostPort(raw).Some? {
      var port := PortShape(raw);
      var y := HostOfHostPort(raw).value;
      hide HostOfHostPort;
      if PlainShape(raw, y, port) {
        PlainHeader(raw, y, port);
      } else {
        BracketHeader(raw, y, port);
        NoDotNoHostname(WithoutPort(host));
      }
    } else {
      BareHeader(raw, host, b);
      NoDotNoHostname(LookupForm(LookupForm(raw)));
    }
  }

  lemma NoDotNoHostname(s: string)
    ensures '.' !in s ==> !IsHostname(s)
  {
  }

  lemma BareHeader(raw: string, host: string, base: string)
    requires host == Strip(raw) && PlainBase(base) && HasSuffix(host, "." + base)
    requires WithoutPort(host) == host || '.' !in WithoutPort(host)
    ensures LookupForm(LookupForm(raw)) == host || '.' !in LookupForm(LookupForm(raw))
  {
    assert host[|host| - 1] == base[|base| - 1] && base[|base| - 1] in base;
    assert !IsSpace(host[|host| - 1]);
    StripTwice(raw);
    hide IsSpace, TrimSpace, ToLower, TrimSuffix, WithoutPort;
    assert LookupForm(raw) == WithoutPort(host);
    if WithoutPort(host) != host {
      StripMarks(WithoutPort(host), '.');
      WithoutPortChars(Strip(WithoutPort(host)), '.');
    }
  }

  // ---- addresses -----------------------------------------------------------------

  lemma DigitsArePlain(part: string)
    requires AllDigits(part)
    ensures forall c :: c in part ==> LabelChar(c)
  {
  }

  /** An IPv4 address is looked up as it stands. */
  lemma AddressIsFixed(s: string)
    requires IsIPv4(s)
    ensures LookupForm(s) == s
  {
    var parts := Split(s, '.');
    forall p, c | p in parts && c in p ensures LabelChar(c) {
      DigitsArePlain(p);
    }
    assert "" !in parts;
    hide Split, Join, IsIPv4;
    JoinOfSplit(s, '.');
    JoinedChars(parts, '.');
    if s == "" {
      EmptySplits();
    } else {
      if s[|s| - 1] == '.' {
        EndsWithEmptyPart(s, '.');
      }
      PlainIsFixed(s);
    }
  }

  lemma EmptySplits()
    ensures "" in Split("", '.')
  {
  }

  lemma NothingLooksUp()
    ensures LookupForm("") == ""
  {
  }

  /** A header whose lookup is a hostname is not taken for an address or for nothing. */
  lemma LookedUpIsNoAddress(raw: string)
    requires IsHostname(LookupForm(LookupForm(raw)))
    ensures LookupForm(raw) != "" && !IsIPv4(LookupForm(raw))
  {
    NothingLooksUp();
    HostnameIsNoAddress(LookupForm(LookupForm(raw)));
    hide LookupForm, IsHostname;
    if IsIPv4(LookupForm(raw)) {
      AddressIsFixed(LookupForm(raw));
    }
  }

  // ---- names as people and browsers write them -----------------------------------

  lemma LowerEnds(h: string, typed: string)
    requires ToLower(typed) == h && h != "" && !IsSpace(h[0]) && !IsSpace(h[|h| - 1]) && h[|h| - 1] != '.'
    ensures typed != "" && typed[|typed| - 1] != '.' && !IsSpace(typed[0]) && !IsSpace(typed[|typed| - 1])
  {
    LowerSpaces(typed[0]);
    LowerSpaces(typed[|typed| - 1]);
    hide IsSpace;
    assert h[|h| - 1] == Lower(typed[|typed| - 1]);
  }

  lemma NoSlash(h: string, typed: string)
    requires ToLower(typed) == h && '/' !in h
    ensures '/' !in typed
  {
    forall i | 0 <= i < |typed| ensures typed[i] != '/' {
      assert h[i] in h;
    }
  }

  lemma NoMarks(h: string, typed: string)
    requires ToLower(typed) == h && Free(h)
    ensures Free(typed)
  {
    LowerMarks(typed, ':');
    LowerMarks(typed, '[');
    LowerMarks(typed, ']');
  }

  lemma HostnameEnds(h: string)
    requires IsHostname(h)
    ensures h != "" && !IsSpace(h[0]) && !IsSpace(h[|h| - 1]) && h[|h| - 1] != '.'
    ensures Free(h) && '/' !in h && '.' in h
  {
    HostnameChars(h);
    NonEmptyHost(h);
    assert h[0] in h && h[|h| - 1] in h;
    assert '.' in h;
    hide IsHostname;
  }

  lemma AsWritten(h: string, typed: string)
    requires IsHostname(h) && ToLower(typed) == h
    ensures typed != "" && typed[|typed| - 1] != '.' && !IsSpace(typed[0]) && !IsSpace(typed[|typed| - 1])
    ensures Free(typed) && '/' !in typed && '.' in h && ':' !in h && '/' !in h
    ensures Strip(typed) == h
  {
    hide IsHostname, IsSpace, ToLower, TrimSpace, TrimSuffix;
    HostnameEnds(h);
    HostnameIsFixed(h);
    LowerEnds(h, typed);
    NoMarks(h, typed);
    NoSlash(h, typed);
    StripAgain(typed);
  }

  /** In any letter case, any surrounding space, with a final dot or a port, a hostname is looked up as it is stored. */
  lemma WrittenHeader(h: string, typed: string, a: string, b: string, port: string)
    requires IsHostname(h) && ToLower(typed) == h && AllSpace(a) && AllSpace(b) && AllDigits(port)
    ensures LookupForm(a + typed + b) == h && LookupForm(a + (typed + ".") + b) == h
    ensures LookupForm(typed + ":" + port) == h
  {
    AsWritten(h, typed);
    HostnameIsFixed(h);
    assert TrimSuffix(typed, ".") == typed && TrimSuffix(typed + ".", ".") == typed;
    hide TrimSpace, ToLower, IsSpace, WithoutPort, TrimSuffix, IsHostname;
    TrimSpaceOf(a, typed, b);
    assert !IsSpace('.') by { DotIsNoSpace(); }
    TrimSpaceOf(a, typed + ".", b);
    StripOver(typed, port);
    TrimLeftKeeps(typed);
    DigitsAreFree(port);
    FreeParts(typed, port);
    PlainPort(ToLower(typed), StrippedPort(port));
  }

  lemma DotIsNoSpace()
    ensures !IsSpace('.')
  {
  }

  lemma TrimLeftKeeps(s: string)
    requires s != "" && !IsSpace(s[0])
    ensures TrimLeft(s) == s
  {
  }

  lemma DigitsAreFree(port: string)
    requires AllDigits(port)
    ensures Free(port)
  {
  }

  /** The address as it is read: in lower case, without the space around it. */
  lemma BareAddress(h: string, scheme: string, typed: string, path: string, a: string, b: string)
    requires IsHostname(h) && ToLower(typed) == h && AllSpace(a) && AllSpace(b)
    requires ToLower(scheme) in {"", "https://", "http://"}
    requires path != "" ==> !IsSpace(path[|path| - 1])
    ensures ToLower(TrimSpace(a + (scheme + typed + path) + b)) == ToLower(scheme) + h + ToLower(path)
  {
    hide IsSpace, IsHostname, TrimSpace, ToLower;
    AsWritten(h, typed);
    SchemeStarts(scheme);
    var s := scheme + typed + path;
    assert s[0] == (if scheme == "" then typed[0] else scheme[0]);
    assert s[|s| - 1] == (if path == "" then typed[|typed| - 1] else path[|path| - 1]);
    LowerConcat(scheme + typed, path);
    LowerConcat(scheme, typed);
    TrimSpaceOf(a, s, b);
  }

  lemma LowerSlash(path: string)
    requires path == "" || path[0] == '/'
    ensures ToLower(path) == "" || ToLower(path)[0] == '/'
  {
  }

  /** A pasted address is taken for its host: scheme, letter case, path and surrounding space do not matter. */
  lemma PastedAddress(h: string, scheme: string, typed: string, path: string, a: string, b: string)
    requires IsHostname(h) && ToLower(typed) == h && AllSpace(a) && AllSpace(b)
    requires ToLower(scheme) in {"", "https://", "http://"} && (path == "" || path[0] == '/')
    requires path != "" ==> !IsSpace(path[|path| - 1])
    ensures Normalise(a + (scheme + typed + path) + b) == Some(h)
  {
    hide IsSpace, IsHostname, TrimSpace, ToLower, TrimPrefix, Cut, TrimSuffix, WithoutPort, HasPrefix;
    AsWritten(h, typed);
    HostnameIsFixed(h);
    BareAddress(h, scheme, typed, path, a, b);
    LowerSlash(path);
    var rest := ToLower(path);
    NoScheme(h, rest);
    SchemeGoes(ToLower(scheme), h, rest);
    HostBeforePath(h, rest);
  }

  lemma SchemeStarts(scheme: string)
    requires ToLower(scheme) in {"", "https://", "http://"}
    ensures scheme != "" ==> !IsSpace(scheme[0])
  {
    if scheme != "" {
      LowerSpaces(scheme[0]);
      assert ToLower(scheme)[0] == 'h';
    }
  }

  lemma NotPrefix(s: string, prefix: string, k: nat)
    requires k < |s| && k < |prefix| && s[k] != prefix[k]
    ensures !HasPrefix(s, prefix)
  {
  }

  lemma NoScheme(h: string, rest: string)
    requires '.' in h && ':' !in h
    ensures !HasPrefix(h + rest, "https://") && !HasPrefix(h + rest, "http://")
  {
    hide HasPrefix;
    var s := h + rest;
    var i :| 0 <= i < |h| && h[i] == '.';
    assert s[i] == '.' && forall k :: 0 <= k < |h| ==> s[k] == h[k] && h[k] != ':';
    assert '.' !in "https://" && '.' !in "http://";
    NotPrefix(s, "https://", if i < 5 then i else 5);
    NotPrefix(s, "http://", if i < 4 then i else 4);
  }

  lemma SchemeGoes(scheme: string, h: string, rest: string)
    requires scheme in {"", "https://", "http://"}
    requires !HasPrefix(h + rest, "https://") && !HasPrefix(h + rest, "http://")
    ensures TrimPrefix(TrimPrefix(scheme + h + rest, "https://"), "http://") == h + rest
  {
    var s := scheme + h + rest;
    assert s == scheme + (h + rest);
    if scheme == "" {
      assert s == h + rest;
    } else if scheme == "https://" {
      assert s[..8] == "https://" && s[8..] == h + rest;
    } else {
      assert s[..7] == "http://" && s[7..] == h + rest && s[4] == ':';
    }
  }

  lemma HostBeforePath(h: string, rest: string)
    requires '/' !in h && (rest == "" || rest[0] == '/')
    ensures match Cut(h + rest, '/') case Some((before, _)) => before == h case None => h + rest == h
  {
    if rest == "" {
      assert h + rest == h;
      NoCut(h, '/');
    } else {
      assert h + rest == h + ['/'] + rest[1..];
      CutAt(h, rest[1..], '/');
    }
  }
}
