/** The parts of Go's `strings` and `strconv` packages that the modelled code uses. */
module Text {
  import opened Arithmetic
  import opened Options

  // ---- characters ----------------------------------------------------------------

  /** unicode.IsSpace. */
  predicate IsSpace(c: char) {
    var n := c as int;
    9 <= n <= 13 || n == 0x20 || n == 0x85 || n == 0xA0 || n == 0x1680
    || 0x2000 <= n <= 0x200A || n == 0x2028 || n == 0x2029 || n == 0x202F || n == 0x205F || n == 0x3000
  }

  /**
  unicode.ToUpper as far as an ASCII comparison can see it: besides a-z, the only
  code points with an ASCII capital are the dotless i and the long s.
  */
  function Upper(c: char): char {
    if 'a' <= c <= 'z' then (c as int - 32) as char
    else if c as int == 0x131 then 'I'
    else if c as int == 0x17F then 'S'
    else c
  }

  /** unicode.ToLower as far as an ASCII comparison can see it: A-Z, the dotted I, the Kelvin sign. */
  function Lower(c: char): char {
    if 'A' <= c <= 'Z' then (c as int + 32) as char
    else if c as int == 0x130 then 'i'
    else if c as int == 0x212A then 'k'
    else c
  }

  /** Letter by letter, capitals and small letters are each other's; no other ASCII character changes. */
  lemma LetterCase(i: nat, c: char)
    requires i < 26
    ensures Lower(('A' as int + i) as char) == ('a' as int + i) as char
    ensures Upper(('a' as int + i) as char) == ('A' as int + i) as char
    ensures c as int < 128 && !('A' <= c <= 'Z') ==> Lower(c) == c
    ensures c as int < 128 && !('a' <= c <= 'z') ==> Upper(c) == c
  {
  }

  function ToUpper(s: string): (u: string)
    ensures |u| == |s|
  {
    seq(|s|, i requires 0 <= i < |s| => Upper(s[i]))
  }

  function ToLower(s: string): (u: string)
    ensures |u| == |s|
  {
    seq(|s|, i requires 0 <= i < |s| => Lower(s[i]))
  }

  predicate IsDigit(c: char) {
    '0' <= c <= '9'
  }

  // ---- trimming ------------------------------------------------------------------

  function TrimLeft(s: string): string {
    if s != "" && IsSpace(s[0]) then TrimLeft(s[1..]) else s
  }

  function TrimRight(s: string): string {
    if s != "" && IsSpace(s[|s| - 1]) then TrimRight(s[..|s| - 1]) else s
  }

  function TrimSpace(s: string): string {
    TrimRight(TrimLeft(s))
  }

  function TrimCharLeft(s: string, c: char): string {
    if s != "" && s[0] == c then TrimCharLeft(s[1..], c) else s
  }

  function TrimCharRight(s: string, c: char): string {
    if s != "" && s[|s| - 1] == c then TrimCharRight(s[..|s| - 1], c) else s
  }

  /** strings.Trim with a cutset of one character. */
  function TrimChar(s: string, c: char): string {
    TrimCharRight(TrimCharLeft(s, c), c)
  }

  predicate HasPrefix(s: string, prefix: string) {
    prefix <= s
  }

  predicate HasSuffix(s: string, suffix: string) {
    |suffix| <= |s| && s[|s| - |suffix|..] == suffix
  }

  function TrimPrefix(s: string, prefix: string): string {
    if HasPrefix(s, prefix) then s[|prefix|..] else s
  }

  function TrimSuffix(s: string, suffix: string): string {
    if HasSuffix(s, suffix) then s[..|s| - |suffix|] else s
  }

  predicate AllSpace(s: string) {
    forall c :: c in s ==> IsSpace(c)
  }

  lemma {:induction false} TrimLeftOfSpace(a: string, s: string)
    requires AllSpace(a) && s != "" && !IsSpace(s[0])
    ensures TrimLeft(a + s) == s
  {
    hide IsSpace;
    if a == "" {
      assert a + s == s;
    } else {
      assert IsSpace(a[0]) && (a + s)[0] == a[0] && (a + s)[1..] == a[1..] + s;
      TrimLeftOfSpace(a[1..], s);
    }
  }

  lemma {:induction false} TrimRightOfSpace(s: string, b: string)
    requires AllSpace(b) && s != "" && !IsSpace(s[|s| - 1])
    ensures TrimRight(s + b) == s
  {
    hide IsSpace;
    if b == "" {
      assert s + b == s;
    } else {
      var n := |b| - 1;
      assert IsSpace(b[n]) && (s + b)[|s| + n] == b[n] && (s + b)[..|s| + n] == s + b[..n];
      TrimRightOfSpace(s, b[..n]);
    }
  }

  /** Trimming takes off just the space around a text. */
  lemma TrimSpaceOf(a: string, s: string, b: string)
    requires AllSpace(a) && AllSpace(b) && s != "" && !IsSpace(s[0]) && !IsSpace(s[|s| - 1])
    ensures TrimSpace(a + s + b) == s
  {
    hide IsSpace;
    assert a + s + b == a + (s + b) && (s + b)[0] == s[0];
    TrimLeftOfSpace(a, s + b);
    TrimRightOfSpace(s, b);
  }

  lemma {:induction false} TrimLeftSplits(s: string) returns (a: string)
    ensures s == a + TrimLeft(s) && AllSpace(a) && (TrimLeft(s) != "" ==> !IsSpace(TrimLeft(s)[0]))
  {
    hide IsSpace;
    a := "";
    if s != "" && IsSpace(s[0]) {
      var rest := TrimLeftSplits(s[1..]);
      a := [s[0]] + rest;
    }
  }

  lemma {:induction false} TrimRightSplits(s: string) returns (b: string)
    ensures s == TrimRight(s) + b && AllSpace(b)
    ensures TrimRight(s) != "" ==> !IsSpace(TrimRight(s)[|TrimRight(s)| - 1])
  {
    hide IsSpace;
    b := "";
    if s != "" && IsSpace(s[|s| - 1]) {
      var rest := TrimRightSplits(s[..|s| - 1]);
      b := rest + [s[|s| - 1]];
    }
  }

  /** Every text is its trimmed self with space around it, and that self has none at its ends. */
  lemma TrimSpaceSplits(s: string) returns (a: string, b: string)
    ensures s == a + TrimSpace(s) + b && AllSpace(a) && AllSpace(b)
    ensures TrimSpace(s) != "" ==> !IsSpace(TrimSpace(s)[0]) && !IsSpace(TrimSpace(s)[|TrimSpace(s)| - 1])
  {
    hide IsSpace;
    a := TrimLeftSplits(s);
    b := TrimRightSplits(TrimLeft(s));
    assert TrimSpace(s) != "" ==> TrimSpace(s)[0] == TrimLeft(s)[0];
  }

  predicate AllChar(s: string, c: char) {
    forall x :: x in s ==> x == c
  }

  lemma {:induction false} TrimCharLeftOf(a: string, s: string, c: char)
    requires AllChar(a, c) && s != "" && s[0] != c
    ensures TrimCharLeft(a + s, c) == s
  {
    if a == "" {
      assert a + s == s;
    } else {
      assert a[0] in a && (a + s)[0] == a[0] && (a + s)[1..] == a[1..] + s;
      assert forall x :: x in a[1..] ==> x in a;
      TrimCharLeftOf(a[1..], s, c);
    }
  }

  lemma {:induction false} TrimCharRightOf(s: string, b: string, c: char)
    requires AllChar(b, c) && s != "" && s[|s| - 1] != c
    ensures TrimCharRight(s + b, c) == s
  {
    if b == "" {
      assert s + b == s;
    } else {
      var n := |b| - 1;
      assert b[n] in b && (s + b)[|s| + n] == b[n] && (s + b)[..|s| + n] == s + b[..n];
      assert forall x :: x in b[..n] ==> x in b;
      TrimCharRightOf(s, b[..n], c);
    }
  }

  /** And trimming one character takes off just that, on both sides. */
  lemma TrimCharOf(a: string, s: string, b: string, c: char)
    requires AllChar(a, c) && AllChar(b, c) && s != "" && s[0] != c && s[|s| - 1] != c
    ensures TrimChar(a + s + b, c) == s
  {
    assert a + s + b == a + (s + b) && (s + b)[0] == s[0];
    TrimCharLeftOf(a, s + b, c);
    TrimCharRightOf(s, b, c);
  }

  lemma {:induction false} TrimCharLeftSplits(s: string, c: char) returns (a: string)
    ensures s == a + TrimCharLeft(s, c) && AllChar(a, c)
    ensures TrimCharLeft(s, c) != "" ==> TrimCharLeft(s, c)[0] != c
  {
    a := "";
    if s != "" && s[0] == c {
      var rest := TrimCharLeftSplits(s[1..], c);
      a := [c] + rest;
    }
  }

  lemma {:induction false} TrimCharRightSplits(s: string, c: char) returns (b: string)
    ensures s == TrimCharRight(s, c) + b && AllChar(b, c)
    ensures TrimCharRight(s, c) != "" ==> TrimCharRight(s, c)[|TrimCharRight(s, c)| - 1] != c
  {
    b := "";
    if s != "" && s[|s| - 1] == c {
      var rest := TrimCharRightSplits(s[..|s| - 1], c);
      b := rest + [c];
    }
  }

  lemma TrimCharSplits(s: string, c: char) returns (a: string, b: string)
    ensures s == a + TrimChar(s, c) + b && AllChar(a, c) && AllChar(b, c)
  {
    a := TrimCharLeftSplits(s, c);
    b := TrimCharRightSplits(TrimCharLeft(s, c), c);
  }

  // ---- splitting -----------------------------------------------------------------

  function Split(s: string, sep: char): (parts: seq<string>)
    ensures |parts| >= 1
  {
    if s == "" then [""]
    else
      var rest := Split(s[1..], sep);
      if s[0] == sep then [""] + rest else [[s[0]] + rest[0]] + rest[1..]
  }

  function Join(parts: seq<string>, sep: char): string {
    if |parts| == 0 then ""
    else if |parts| == 1 then parts[0]
    else parts[0] + [sep] + Join(parts[1..], sep)
  }

  /** The text before and after the first separator. */
  function Cut(s: string, sep: char): Option<(string, string)> {
    if s == "" then None
    else if s[0] == sep then Some(("", s[1..]))
    else
      match Cut(s[1..], sep)
      case None => None
      case Some((before, after)) => Some(([s[0]] + before, after))
  }

  lemma {:induction false} SplitFirst(a: string, b: string, sep: char)
    requires sep !in a
    ensures Split(a, sep) == [a]
    ensures Split(a + [sep] + b, sep) == [a] + Split(b, sep)
  {
    if a == "" {
      assert a + [sep] + b == [sep] + b;
    } else {
      SplitFirst(a[1..], b, sep);
      assert (a + [sep] + b)[1..] == a[1..] + [sep] + b;
      assert [a[0]] + a[1..] == a;
    }
  }

  /** Splitting undoes joining. */
  lemma {:induction false} SplitOfJoin(parts: seq<string>, sep: char)
    requires |parts| >= 1
    requires forall p :: p in parts ==> sep !in p
    ensures Split(Join(parts, sep), sep) == parts
  {
    if |parts| == 1 {
      SplitFirst(parts[0], "", sep);
    } else {
      var rest := parts[1..];
      SplitFirst(parts[0], Join(rest, sep), sep);
      SplitOfJoin(rest, sep);
      assert [parts[0]] + rest == parts;
    }
  }

  /** Joining undoes splitting, and no part keeps a separator. */
  lemma {:induction false} JoinOfSplit(s: string, sep: char)
    ensures Join(Split(s, sep), sep) == s
    ensures forall p :: p in Split(s, sep) ==> sep !in p
  {
    if s != "" {
      JoinOfSplit(s[1..], sep);
      var rest := Split(s[1..], sep);
      if s[0] == sep {
        assert ([""] + rest)[1..] == rest;
      } else {
        var parts := [[s[0]] + rest[0]] + rest[1..];
        assert parts[1..] == rest[1..];
        assert s == [s[0]] + s[1..];
      }
    }
  }

  lemma {:induction false} CutAt(a: string, b: string, sep: char)
    requires sep !in a
    ensures Cut(a + [sep] + b, sep) == Some((a, b))
  {
    if a == "" {
      assert a + [sep] + b == [sep] + b;
    } else {
      CutAt(a[1..], b, sep);
      assert (a + [sep] + b)[1..] == a[1..] + [sep] + b;
      assert [a[0]] + a[1..] == a;
    }
  }

  // ---- numbers -------------------------------------------------------------------

  const MAX_INT := 0x7FFF_FFFF_FFFF_FFFF

  predicate AllDigits(s: string) {
    forall c :: c in s ==> IsDigit(c)
  }

  function DigitValue(c: char): (n: nat)
    requires IsDigit(c)
    ensures n < 10
  {
    c as int - '0' as int
  }

  function NumberOf(s: string): nat
    requires AllDigits(s)
  {
    if s == "" then 0
    else
      var last := s[|s| - 1];
      assert last in s;
      10 * NumberOf(s[..|s| - 1]) + DigitValue(last)
  }

  /** strconv.Atoi: an optional sign, then decimal digits, within 64 bits. */
  function Atoi(s: string): Option<int> {
    var signed := s != "" && (s[0] == '+' || s[0] == '-');
    var digits := if signed then s[1..] else s;
    if digits == "" || !AllDigits(digits) then None
    else
      var n: int := if signed && s[0] == '-' then 0 - NumberOf(digits) else NumberOf(digits);
      if -MAX_INT - 1 <= n <= MAX_INT then Some(n) else None
  }

  function Digit(n: int): char
    requires 0 <= n < 10
  {
    ('0' as int + n) as char
  }

  function Itoa(n: nat): string {
    if n < 10 then [Digit(n)] else Itoa(n / 10) + [Digit(n % 10)]
  }

  /** A number in exactly `width` digits, zero-padded, as time.Format writes it. */
  function Pad(n: nat, width: nat): string
    decreases width
  {
    if width == 0 then "" else Pad(n / 10, width - 1) + [Digit(n % 10)]
  }

  function Pow10(k: nat): nat {
    if k == 0 then 1 else 10 * Pow10(k - 1)
  }

  lemma {:induction false} NumberOfItoa(n: nat)
    ensures Itoa(n) != "" && AllDigits(Itoa(n)) && NumberOf(Itoa(n)) == n
  {
    if n >= 10 {
      NumberOfItoa(n / 10);
      assert Itoa(n)[..|Itoa(n)| - 1] == Itoa(n / 10);
    }
  }

  lemma AtoiOfItoa(n: nat)
    requires n <= MAX_INT
    ensures Atoi(Itoa(n)) == Some(n)
  {
    NumberOfItoa(n);
    assert IsDigit(Itoa(n)[0]);
  }

  lemma {:induction false} NumberOfPad(n: nat, width: nat)
    requires n < Pow10(width)
    ensures |Pad(n, width)| == width && AllDigits(Pad(n, width)) && NumberOf(Pad(n, width)) == n
    decreases width
  {
    if width > 0 {
      NumberOfPad(n / 10, width - 1);
      assert Pad(n, width)[..width - 1] == Pad(n / 10, width - 1);
    }
  }

  lemma {:induction false} PadOfNumber(s: string)
    requires AllDigits(s)
    ensures NumberOf(s) < Pow10(|s|) && Pad(NumberOf(s), |s|) == s
    decreases |s|
  {
    if s != "" {
      var init := s[..|s| - 1];
      PadOfNumber(init);
      var last := s[|s| - 1];
      assert last in s;
      Euclid(NumberOf(s), 10, NumberOf(init), DigitValue(last));
      assert s == init + [last];
    }
  }
}
