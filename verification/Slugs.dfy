/**
A church's web address: the slug made from its name, what slugs look like, and that the
host built from one is read back as that slug.
*/
module Slugs {
  import opened Text
  import opened Hostnames

  predicate WordChar(c: char) {
    'a' <= c <= 'z' || IsDigit(c)
  }

  /** A non-empty run of lower-case letters and digits. */
  predicate Word(part: string) {
    part != "" && forall c :: c in part ==> 'a' <= c <= 'z' || '0' <= c <= '9'
  }

  /** The public slug pattern: words with single hyphens between them. */
  predicate IsSlug(s: string) {
    forall part :: part in Split(s, '-') ==> Word(part)
  }

  /** Everything that is not a letter or a digit is as good as a hyphen. */
  function Masked(s: string): (m: string)
    ensures |m| == |s|
  {
    seq(|s|, i requires 0 <= i < |s| => if WordChar(s[i]) then s[i] else '-')
  }

  function NonEmpty(parts: seq<string>): seq<string> {
    if parts == [] then []
    else
      var init := NonEmpty(parts[..|parts| - 1]);
      if parts[|parts| - 1] == "" then init else init + [parts[|parts| - 1]]
  }

  /** The words of a name, in lower case. */
  function WordsOf(name: string): seq<string> {
    NonEmpty(Split(Masked(ToLower(name)), '-'))
  }

  function Slug(name: string): string {
    Join(WordsOf(name), '-')
  }

  // ---- the loop ------------------------------------------------------------------

  /** The builder after some of the text: its words so far, and a hyphen if one is over. */
  function Built(parts: seq<string>): string
    requires parts != []
  {
    Join(NonEmpty(parts), '-') + (if parts[|parts| - 1] == "" && NonEmpty(parts) != [] then "-" else "")
  }

  lemma {:induction false} JoinSnoc(parts: seq<string>, part: string, sep: char)
    ensures Join(parts + [part], sep) == if parts == [] then part else Join(parts, sep) + [sep] + part
  {
    if |parts| == 1 {
      assert (parts + [part])[1..] == [part];
    } else if |parts| > 1 {
      JoinSnoc(parts[1..], part, sep);
      assert (parts + [part])[1..] == parts[1..] + [part];
    }
  }

  /** The last part with one more character. */
  function Grown(parts: seq<string>, c: char): seq<string>
    requires parts != []
  {
    parts[..|parts| - 1] + [parts[|parts| - 1] + [c]]
  }

  lemma GrowHead(first: char, rest: seq<string>, c: char)
    requires rest != []
    ensures |Grown(rest, c)| == |rest|
    ensures [""] + Grown(rest, c) == Grown([""] + rest, c)
    ensures [[first] + Grown(rest, c)[0]] + Grown(rest, c)[1..] == Grown([[first] + rest[0]] + rest[1..], c)
  {
    if |rest| == 1 {
      assert [first] + (rest[0] + [c]) == ([first] + rest[0]) + [c];
    }
  }

  lemma {:induction false} SplitGrow(s: string, c: char, sep: char)
    requires c != sep
    ensures Split(s + [c], sep) == Grown(Split(s, sep), c)
  {
    if s == "" {
      assert s + [c] == [c];
      assert [c][1..] == "" && [c] + "" == [c];
      assert Split([c], sep) == [[c]];
    } else {
      hide Grown;
      SplitGrow(s[1..], c, sep);
      assert (s + [c])[1..] == s[1..] + [c] && (s + [c])[0] == s[0];
      GrowHead(s[0], Split(s[1..], sep), c);
    }
  }

  lemma MaskedSnoc(s: string, c: char)
    ensures Masked(s + [c]) == Masked(s) + [if WordChar(c) then c else '-']
  {
  }

  lemma NonEmptySnoc(parts: seq<string>, part: string)
    ensures NonEmpty(parts + [part]) == if part == "" then NonEmpty(parts) else NonEmpty(parts) + [part]
  {
    assert (parts + [part])[..|parts|] == parts;
  }

  lemma JoinGrow(words: seq<string>, last: string, c: char)
    ensures Join(words + [last + [c]], '-') == Join(words + [last], '-') + [c]
  {
    hide Join;
    JoinSnoc(words, last, '-');
    JoinSnoc(words, last + [c], '-');
    var before := Join(words, '-') + ['-'];
    assert before + (last + [c]) == (before + last) + [c];
  }

  /** A letter or digit is written. */
  lemma BuiltGrow(parts: seq<string>, c: char)
    requires parts != []
    ensures Built(Grown(parts, c)) == Built(parts) + [c]
  {
    var init, last := parts[..|parts| - 1], parts[|parts| - 1];
    var words := NonEmpty(init);
    assert parts == init + [last];
    assert Grown(parts, c) == init + [last + [c]] && Grown(parts, c)[|init|] == last + [c];
    hide NonEmpty, Join, Grown;
    NonEmptySnoc(init, last);
    NonEmptySnoc(init, last + [c]);
    if last == "" {
      assert "" + [c] == [c];
      JoinSnoc(words, [c], '-');
    } else {
      JoinGrow(words, last, c);
    }
  }

  /** Anything else at most closes a word. */
  lemma BuiltClose(parts: seq<string>)
    requires parts != []
    ensures Built(parts + [""]) == Built(parts) + if parts[|parts| - 1] != "" then "-" else ""
  {
    var init, last := parts[..|parts| - 1], parts[|parts| - 1];
    assert parts == init + [last];
    hide NonEmpty, Join;
    NonEmptySnoc(init, last);
    NonEmptySnoc(parts, "");
    assert (parts + [""])[|parts|] == "";
  }

  lemma BuiltSnoc(s: string, c: char)
    ensures var parts, more := Split(Masked(s), '-'), Split(Masked(s + [c]), '-');
            Built(more) == Built(parts) + (if WordChar(c) then [c] else if parts[|parts| - 1] != "" then "-" else "")
            && (more[|more| - 1] == "" <==> !WordChar(c))
  {
    MaskedSnoc(s, c);
    var parts := Split(Masked(s), '-');
    if WordChar(c) {
      SplitGrow(Masked(s), c, '-');
      BuiltGrow(parts, c);
      hide Masked, Split, Built;
    } else {
      hide Masked, Split, Built;
      SplitSnoc(Masked(s), '-');
      BuiltClose(parts);
    }
  }

  predicate Clean(s: string) {
    s != "" ==> s[0] != '-' && s[|s| - 1] != '-'
  }

  lemma {:induction false} WordsJoinClean(words: seq<string>)
    requires forall w :: w in words ==> w != "" && '-' !in w
    ensures Clean(Join(words, '-')) && (words != [] ==> Join(words, '-') != "")
  {
    if words != [] {
      var init, last := words[..|words| - 1], words[|words| - 1];
      assert words == init + [last];
      assert last in words && forall w :: w in init ==> w in words;
      WordsJoinClean(init);
      JoinSnoc(init, last, '-');
    }
  }

  lemma {:induction false} NonEmptyMembers(parts: seq<string>)
    ensures forall w :: w in NonEmpty(parts) <==> w in parts && w != ""
  {
    if parts != [] {
      var init, last := parts[..|parts| - 1], parts[|parts| - 1];
      assert parts == init + [last];
      NonEmptyMembers(init);
    }
  }

  lemma TrimBuilt(name: string)
    ensures TrimChar(Built(Split(Masked(ToLower(name)), '-')), '-') == Slug(name)
  {
    hide Masked, Split, NonEmpty, ToLower, Join;
    var parts := Split(Masked(ToLower(name)), '-');
    JoinOfSplit(Masked(ToLower(name)), '-');
    NonEmptyMembers(parts);
    WordsJoinClean(NonEmpty(parts));
    TrimOneHyphen(Slug(name));
  }

  lemma TrimOneHyphen(s: string)
    requires Clean(s)
    ensures TrimChar(s, '-') == s && (s != "" ==> TrimChar(s + "-", '-') == s)
  {
    if s != "" {
      assert (s + "-")[0] == s[0];
      assert (s + "-")[..|s + "-"| - 1] == s;
    }
  }

  method Slugify(name: string) returns (slug: string)
    ensures slug == Slug(name)
  {
    var text := ToLower(name);
    hide Masked, Split, NonEmpty, ToLower, Built, Slug, TrimChar;
    var b, lastDash := "", true;
    NothingBuilt();
    for i := 0 to |text|
      invariant b == Built(Split(Masked(text[..i]), '-'))
      invariant var parts := Split(Masked(text[..i]), '-'); lastDash == (parts[|parts| - 1] == "")
    {
      BuiltSnoc(text[..i], text[i]);
      assert text[..i + 1] == text[..i] + [text[i]];
      if 'a' <= text[i] <= 'z' || '0' <= text[i] <= '9' {
        b := b + [text[i]];
        lastDash := false;
      } else if !lastDash {
        b := b + "-";
        lastDash := true;
      }
    }
    assert text[..|text|] == text;
    TrimBuilt(name);
    slug := TrimChar(b, '-');
  }

  lemma NothingBuilt()
    ensures Split(Masked(""), '-') == [""] && Built([""]) == ""
  {
  }

  // ---- what slugs are ------------------------------------------------------------

  lemma PartChars(s: string, part: string, c: char)
    requires part in Split(s, '-') && c in part
    ensures c in s
  {
    SplitChars(s, '-');
  }

  lemma {:induction false} SplitChars(s: string, sep: char)
    ensures forall part, c :: part in Split(s, sep) && c in part ==> c in s
  {
    if s != "" {
      SplitChars(s[1..], sep);
      var rest := Split(s[1..], sep);
      forall part, c | part in Split(s, sep) && c in part ensures c in s {
        if s[0] != sep && part == [s[0]] + rest[0] {
          assert rest[0] in rest;
        } else {
          assert part == "" || part in rest;
        }
      }
    }
  }

  lemma MaskedChars(s: string)
    ensures forall c :: c in Masked(s) ==> WordChar(c) || c == '-'
    ensures forall c :: WordChar(c) ==> (c in Masked(s) <==> c in s)
  {
    forall c | WordChar(c) && c in s ensures c in Masked(s) {
      var i :| 0 <= i < |s| && s[i] == c;
      assert Masked(s)[i] == c;
    }
  }

  /** A slug is made of words, so it meets the pattern unless the name has no letter or digit at all. */
  lemma SlugMeetsPattern(name: string)
    ensures Slug(name) != "" ==> IsSlug(Slug(name))
    ensures Slug(name) == "" <==> forall c :: c in ToLower(name) ==> !('a' <= c <= 'z' || '0' <= c <= '9')
  {
    hide Masked, Split, NonEmpty, ToLower, Join;
    var text := Masked(ToLower(name));
    var parts, words := Split(text, '-'), WordsOf(name);
    MaskedChars(ToLower(name));
    JoinOfSplit(text, '-');
    NonEmptyMembers(parts);
    WordsJoinClean(words);
    forall w | w in words ensures Word(w) {
      forall c | c in w ensures WordChar(c) {
        PartChars(text, w, c);
      }
    }
    if words != [] {
      SplitOfJoin(words, '-');
      assert words[0] in words;
      assert words[0][0] in words[0];
      PartChars(text, words[0], words[0][0]);
    } else {
      JoinOfNothing();
      if c :| c in ToLower(name) && WordChar(c) {
        WordIsSomewhere(text, c);
      }
    }
  }

  lemma JoinOfNothing()
    ensures Join([], '-') == ""
  {
  }

  lemma {:induction false} WordIsSomewhere(s: string, c: char)
    requires c in s && c != '-'
    ensures exists part :: part in Split(s, '-') && part != ""
  {
    var rest := Split(s[1..], '-');
    if s[0] != '-' {
      assert [s[0]] + rest[0] in Split(s, '-');
    } else {
      WordIsSomewhere(s[1..], c);
      var part :| part in rest && part != "";
      assert part in Split(s, '-');
    }
  }

  lemma SlugChars(s: string)
    requires IsSlug(s)
    ensures s != "" && forall c :: c in s ==> WordChar(c) || c == '-'
  {
    hide Split, Join;
    JoinOfSplit(s, '-');
    JoinedWords(Split(s, '-'));
    assert Split(s, '-')[0] in Split(s, '-');
    WordsJoinClean(Split(s, '-'));
  }

  lemma {:induction false} JoinedWords(words: seq<string>)
    requires forall w :: w in words ==> Word(w)
    ensures forall c :: c in Join(words, '-') ==> WordChar(c) || c == '-'
    ensures forall w :: w in words ==> '-' !in w
  {
    if words != [] {
      var init, last := words[..|words| - 1], words[|words| - 1];
      assert words == init + [last];
      assert last in words && forall w :: w in init ==> w in words;
      JoinedWords(init);
      JoinSnoc(init, last, '-');
    }
  }

  lemma {:induction false} NonEmptyKeeps(parts: seq<string>)
    requires "" !in parts
    ensures NonEmpty(parts) == parts
  {
    if parts != [] {
      assert parts == parts[..|parts| - 1] + [parts[|parts| - 1]];
      NonEmptyKeeps(parts[..|parts| - 1]);
    }
  }

  /** Exactly the texts of the pattern are left as they are, so making a slug twice is making it once. */
  lemma SlugFixpoint(s: string)
    ensures IsSlug(s) <==> s != "" && Slug(s) == s
  {
    if IsSlug(s) {
      SlugChars(s);
      assert ToLower(s) == s by { LowerKeeps(s); }
      assert Masked(s) == s;
      hide IsSlug, Masked, ToLower;
      NonEmptyKeeps(Split(s, '-')) by { NoEmptyWord(s); }
      JoinOfSplit(s, '-');
    } else if s != "" && Slug(s) == s {
      SlugMeetsPattern(s);
    }
  }

  lemma NoEmptyWord(s: string)
    requires IsSlug(s)
    ensures "" !in Split(s, '-')
  {
  }

  lemma LowerKeeps(s: string)
    requires forall c :: c in s ==> WordChar(c) || c == '-'
    ensures ToLower(s) == s
  {
    forall i | 0 <= i < |s| ensures ToLower(s)[i] == s[i] {
      assert s[i] in s;
    }
  }

  // ---- slugs as hosts ------------------------------------------------------------

  /** The names the platform keeps for itself. */
  const RESERVED_SLUGS: set<string> := {
    "admin", "api", "app", "assets", "auth", "blog", "cdn", "checkout", "dashboard", "dev", "docs", "ftp",
    "help", "internal", "login", "mail", "my", "pay", "secure", "smtp", "staging", "static", "status",
    "support", "test", "www", "abuse", "administrator", "hostmaster", "postmaster", "root", "ssl", "sysadmin",
    "webmaster", "account", "accounts", "billing", "cms", "console", "email", "events", "files", "give",
    "giving", "graphql", "img", "media", "metrics", "mobile", "ns1", "ns2", "portal", "public", "sms", "sso",
    "track", "web", "webhook", "webhooks"
  }

  predicate IsReservedSlug(slug: string) {
    ToLower(TrimSpace(slug)) in RESERVED_SLUGS
  }

  /** The address a church is given, as typed into a browser, is routed back to its slug. */
  lemma SlugIsRoutedBack(slug: string, base: string)
    requires IsSlug(slug) && base != "" && forall c :: c in base ==> HostChar(c)
    requires base[|base| - 1] != '.' && !IsIPv4(slug + "." + base)
    ensures SubdomainOf(slug + "." + base, base) == slug
  {
    SlugChars(slug);
    hide IsSlug, IsIPv4;
    var host := slug + "." + base;
    assert forall c :: c in host ==> HostChar(c);
    assert '.' !in slug && ':' !in host && host[|host| - 1] == base[|base| - 1];
    NoLastIndex(host, ':');
    TrimFixes(host);
    TrimFixes(base);
    LowerFixes(host);
    LowerFixes(base);
    assert WithoutPort(host) == host && TrimSuffix(host, ".") == host;
    PlainSubdomain(slug, base);
  }

  lemma PlainSubdomain(slug: string, base: string)
    requires var host := slug + "." + base;
             && WithoutPort(host) == host && TrimSpace(host) == host
             && TrimSuffix(host, ".") == host && ToLower(host) == host
    requires TrimSpace(base) == base && ToLower(base) == base
    requires slug != "" && base != "" && !IsIPv4(slug + "." + base)
    ensures SubdomainOf(slug + "." + base, base) == if '.' in slug then "" else slug
  {
    hide WithoutPort, TrimSpace, ToLower, IsIPv4;
    var host := slug + "." + base;
    assert host[|slug|..] == "." + base;
    assert |host| - |"." + base| == |slug| && host[..|slug|] == slug;
  }

  /** Among the base domain and the names under it, only those with one label more name a slug. */
  lemma NamesUnderBase(part: string, base: string)
    requires IsHostname(base)
    ensures SubdomainOf(base, base) == ""
    ensures part != "" && IsHostname(part + "." + base) ==>
              SubdomainOf(part + "." + base, base) == if '.' in part then "" else part
  {
    HostnameIsFixed(base);
    if part != "" && IsHostname(part + "." + base) {
      HostnameIsFixed(part + "." + base);
      HostnameIsNoAddress(part + "." + base);
      HostnameIsNoAddress(base);
      hide IsHostname, WithoutPort, TrimSpace, ToLower, IsIPv4;
      PlainSubdomain(part, base);
    }
  }
}
