/** Image references: parsing user input and printing the normal form. */
module ImageRef {
  import opened Wrappers

  datatype ImageReference = ImageReference(registry: string, repository: string, reference: string)

  datatype RefError = EmptyReference

  const HUB: string := "registry-1.docker.io"
  const SHA256: string := "sha256:"

  // ---------------------------------------------------------------- string operations

  /** The Unicode White_Space property. */
  predicate IsSpace(c: char) {
    var u := c as int;
    || 0x9 <= u <= 0xD || u == 0x20 || u == 0x85 || u == 0xA0 || u == 0x1680
    || 0x2000 <= u <= 0x200A || u == 0x2028 || u == 0x2029 || u == 0x202F || u == 0x205F || u == 0x3000
  }

  function TrimStart(s: string): (r: string) {
    if s != "" && IsSpace(s[0]) then TrimStart(s[1..]) else s
  }

  function TrimEnd(s: string): (r: string) {
    if s != "" && IsSpace(s[|s| - 1]) then TrimEnd(s[..|s| - 1]) else s
  }

  function Trim(s: string): (r: string) {
    TrimEnd(TrimStart(s))
  }

  /** The first position of `c`. */
  function Find(s: string, c: char): (r: Option<nat>)
    ensures r.Some? ==> r.value < |s| && s[r.value] == c && forall j :: 0 <= j < r.value ==> s[j] != c
    ensures r.None? <==> c !in s
  {
    if s == "" then None
    else if s[0] == c then Some(0)
    else
      match Find(s[1..], c)
      case None => None
      case Some(i) => Some(i + 1)
  }

  /** The last position of `c`. */
  function RFind(s: string, c: char): (r: Option<nat>)
    ensures r.Some? ==> r.value < |s| && s[r.value] == c && forall j :: r.value < j < |s| ==> s[j] != c
    ensures r.None? <==> c !in s
  {
    if s == "" then None
    else if s[|s| - 1] == c then Some(|s| - 1)
    else RFind(s[..|s| - 1], c)
  }

  // ---------------------------------------------------------------- parse and print

  /** The name and the tag or digest of a trimmed, non-empty input. */
  function SplitRef(x: string): (r: (string, string)) {
    match Find(x, '@')
    case Some(i) => (x[..i], x[i + 1..])
    case None =>
      match RFind(x, ':')
      case Some(i) =>
        var slash := Find(x, '/');
        if slash.None? || i > slash.value then (x[..i], x[i + 1..]) else (x, "latest")
      case None => (x, "latest")
  }

  /** The registry and the repository of a name. */
  function Resolve(name: string): (r: (string, string)) {
    match Find(name, '/')
    case Some(k) =>
      if '.' in name[..k] || ':' in name[..k] then (name[..k], name[k + 1..]) else (HUB, name)
    case None => (HUB, "library/" + name)
  }

  function Parse(input: string): (r: Result<ImageReference, RefError>) {
    var x := Trim(input);
    if x == "" then Err(EmptyReference)
    else
      var (name, reference) := SplitRef(x);
      var (registry, repository) := Resolve(name);
      Ok(ImageReference(registry, repository, reference))
  }

  function Print(r: ImageReference): (s: string) {
    r.registry + "/" + r.repository + (if SHA256 <= r.reference then "@" else ":") + r.reference
  }

  // ---------------------------------------------------------------- trimming

  predicate Tight(s: string) {
    s != "" && !IsSpace(s[0]) && !IsSpace(s[|s| - 1])
  }

  lemma {:induction false} TrimStartTight(s: string)
    ensures TrimStart(s) == "" || !IsSpace(TrimStart(s)[0])
  {
    if s != "" && IsSpace(s[0]) {
      TrimStartTight(s[1..]);
    }
  }

  lemma {:induction false} TrimEndTight(s: string)
    requires s == "" || !IsSpace(s[0])
    ensures TrimEnd(s) == "" || Tight(TrimEnd(s))
  {
    if s != "" && IsSpace(s[|s| - 1]) {
      TrimEndTight(s[..|s| - 1]);
    }
  }

  lemma TrimTight(s: string)
    ensures Trim(s) == "" || Tight(Trim(s))
    ensures Tight(s) ==> Trim(s) == s
  {
    hide IsSpace;
    TrimStartTight(s);
    TrimEndTight(TrimStart(s));
  }

  // ---------------------------------------------------------------- finding the separators

  lemma {:induction false} FindAt(a: string, c: char, b: string)
    requires c !in a
    ensures Find(a + [c] + b, c) == Some(|a|)
  {
    hide Find;
    var s := a + [c] + b;
    assert s[|a|] == c;
    assert forall j :: 0 <= j < |a| ==> s[j] == a[j];
  }

  lemma {:induction false} RFindAt(a: string, c: char, b: string)
    requires c !in b
    ensures RFind(a + [c] + b, c) == Some(|a|)
  {
    hide RFind;
    var s := a + [c] + b;
    assert s[|a|] == c;
    forall j | |a| < j < |s|
      ensures s[j] != c
    {
      assert s[j] == b[j - |a| - 1];
    }
  }

  /** A resolved name names its registry explicitly, so resolving it again changes nothing. */
  lemma ResolveStable(name: string)
    ensures var (registry, repository) := Resolve(name);
            && registry != "" && '/' !in registry && ('.' in registry || ':' in registry)
            && Resolve(registry + "/" + repository) == (registry, repository)
            && (registry == HUB || registry <= name)
            && ('@' !in name ==> '@' !in registry && '@' !in repository)
  {
    hide Find, Resolve;
    var (registry, repository) := Resolve(name);
    RegistryIsHost(name);
    HostResolves(registry, repository);
  }

  lemma RegistryIsHost(name: string)
    ensures var (registry, repository) := Resolve(name);
            && registry != "" && '/' !in registry && ('.' in registry || ':' in registry)
            && (registry == HUB || registry <= name)
            && ('@' !in name ==> '@' !in registry && '@' !in repository)
  {
    hide Find;
    assert HUB[10] == '.';
    assert '/' !in HUB && '@' !in HUB;
  }

  lemma HostResolves(registry: string, repository: string)
    requires '/' !in registry && ('.' in registry || ':' in registry)
    ensures Resolve(registry + "/" + repository) == (registry, repository)
  {
    hide Find;
    FindAt(registry, '/', repository);
    var full := registry + "/" + repository;
    assert full == registry + ['/'] + repository;
    assert full[..|registry|] == registry && full[|registry| + 1..] == repository;
  }

  /** A tag without a colon is split off at the last colon. */
  lemma SplitTag(registry: string, repository: string, tag: string)
    requires '/' !in registry
    requires '@' !in registry && '@' !in repository && '@' !in tag && ':' !in tag
    ensures SplitRef(registry + "/" + repository + ":" + tag) == (registry + "/" + repository, tag)
  {
    var name := registry + "/" + repository;
    var s := name + ":" + tag;
    assert s == name + [':'] + tag;
    assert s == registry + ['/'] + (repository + ":" + tag);
    assert '@' !in s;
    RFindAt(name, ':', tag);
    FindAt(registry, '/', repository + ":" + tag);
    assert s[..|name|] == name && s[|name| + 1..] == tag;
  }

  lemma SplitDigest(name: string, digest: string)
    requires '@' !in name
    ensures SplitRef(name + "@" + digest) == (name, digest)
  {
    var s := name + "@" + digest;
    assert s == name + ['@'] + digest;
    FindAt(name, '@', digest);
    assert s[..|name|] == name && s[|name| + 1..] == digest;
  }

  lemma SplitAtLosesDigest(name: string, digest: string)
    requires '@' !in name && '@' in digest
    ensures |SplitRef(name + ":" + digest).1| < |digest|
  {
    hide Find;
    var s := name + ":" + digest;
    assert forall j :: 0 <= j < |name| ==> s[j] == name[j];
    var k :| 0 <= k < |digest| && digest[k] == '@';
    assert s[|name| + 1 + k] == '@' && s[|name|] == ':';
  }

  lemma SplitColonLosesDigest(registry: string, rest: string, digest: string)
    requires '/' !in registry && '@' !in registry && '@' !in rest && '@' !in digest && ':' in digest
    ensures |SplitRef(registry + "/" + rest + ":" + digest).1| < |digest|
  {
    hide Find, RFind;
    var name := registry + "/" + rest;
    var s := name + ":" + digest;
    assert '@' !in s;
    var k :| 0 <= k < |digest| && digest[k] == ':';
    assert s[|name| + 1 + k] == ':';
    assert s == registry + ['/'] + (rest + ":" + digest);
    FindAt(registry, '/', rest + ":" + digest);
  }

  /** Printed with a colon, a digest that contains a separator is cut short when read again. */
  lemma SplitLosesDigest(registry: string, repository: string, digest: string)
    requires '/' !in registry && '@' !in registry && '@' !in repository
    requires '@' in digest || ':' in digest
    ensures |SplitRef(registry + "/" + repository + ":" + digest).1| < |digest|
  {
    hide SplitRef;
    if '@' in digest {
      SplitAtLosesDigest(registry + "/" + repository, digest);
    } else {
      SplitColonLosesDigest(registry, repository, digest);
    }
  }

  // ---------------------------------------------------------------- normalisation

  /** What the caller can see of the digest part of an input. */
  predicate Normalises(input: string) {
    var x := Trim(input);
    match Find(x, '@')
    case None => true
    case Some(i) =>
      var digest := x[i + 1..];
      SHA256 <= digest || (':' !in digest && '@' !in digest)
  }

  lemma SplitFacts(x: string)
    requires Tight(x)
    ensures var (name, reference) := SplitRef(x);
            && '@' !in name && (name != "" ==> name[0] == x[0])
            && (reference != "" ==> !IsSpace(reference[|reference| - 1]))
            && (Find(x, '@').None? ==> '@' !in reference && ':' !in reference && !(SHA256 <= reference))
            && (Find(x, '@').Some? ==> reference == x[Find(x, '@').value + 1..])
  {
    hide IsSpace;
    NotSpace('t');
    assert SHA256[0] == 's' && "latest"[0] == 'l' && SHA256[6] == ':';
    assert "latest"[|"latest"| - 1] == 't';
    if Find(x, '@').None? {
      assert '@' !in x;
    }
  }

  lemma NotSpace(c: char)
    requires 0x21 <= c as int <= 0x7E
    ensures !IsSpace(c)
  {
  }

  lemma PrintTight(r: ImageReference, x: string)
    requires Tight(x) && r.registry != "" && (r.registry == HUB || r.registry[0] == x[0])
    requires r.reference != "" ==> !IsSpace(r.reference[|r.reference| - 1])
    ensures Tight(Print(r)) && Trim(Print(r)) == Print(r)
  {
    hide IsSpace, Trim;
    NotSpace(':');
    NotSpace('@');
    NotSpace('r');
    var s := Print(r);
    assert s[0] == r.registry[0];
    assert HUB[0] == 'r';
    assert r.reference != "" ==> s[|s| - 1] == r.reference[|r.reference| - 1];
    assert r.reference == "" ==> s[|s| - 1] == ':';
    TrimTight(s);
  }

  /** Reading a printed reference splits it into the registry-qualified name and, at best, the same reference. */
  lemma PrintedSplits(r: ImageReference)
    requires '/' !in r.registry && '@' !in r.registry && '@' !in r.repository
    ensures SHA256 <= r.reference || (':' !in r.reference && '@' !in r.reference)
            <==> SplitRef(Print(r)).1 == r.reference
    ensures SplitRef(Print(r)).1 == r.reference ==> SplitRef(Print(r)).0 == r.registry + "/" + r.repository
  {
    hide SplitRef;
    var name := r.registry + "/" + r.repository;
    if SHA256 <= r.reference {
      SplitDigest(name, r.reference);
    } else if ':' in r.reference || '@' in r.reference {
      SplitLosesDigest(r.registry, r.repository, r.reference);
    } else {
      SplitTag(r.registry, r.repository, r.reference);
    }
  }

  /** What an accepted input gives: a host, names without `@`, the written digest, and a print without outer spaces. */
  lemma ParsedFacts(input: string)
    requires Parse(input).Ok?
    ensures var r := Parse(input).value;
            && '/' !in r.registry && ('.' in r.registry || ':' in r.registry)
            && Resolve(r.registry + "/" + r.repository) == (r.registry, r.repository)
            && '@' !in r.registry && '@' !in r.repository
            && Print(r) != "" && Trim(Print(r)) == Print(r)
    ensures var x, reference := Trim(input), Parse(input).value.reference;
            match Find(x, '@')
            case None => '@' !in reference && ':' !in reference && !(SHA256 <= reference)
            case Some(i) => reference == x[i + 1..]
  {
    hide Find, RFind, Trim, IsSpace, SplitRef, Resolve, Print;
    var x := Trim(input);
    TrimTight(input);
    SplitFacts(x);
    ResolveStable(SplitRef(x).0);
    PrintTight(Parse(input).value, x);
  }

  /**
   Printing normalises: the printed form of an accepted input reads back as the same
   reference, exactly for the inputs without a digest, with a SHA-256 digest, or
   with a digest free of separators.
   */
  lemma PrintNormalisesIff(input: string)
    requires Parse(input).Ok?
    ensures Parse(Print(Parse(input).value)) == Parse(input) <==> Normalises(input)
  {
    hide Find, RFind, Trim, IsSpace, SplitRef, Resolve, Print;
    ParsedFacts(input);
    PrintedSplits(Parse(input).value);
  }

  /** The printed form prints as itself: what the caller can see of the digest part. */
  predicate PrintsStably(input: string) {
    var x := Trim(input);
    match Find(x, '@')
    case None => true
    case Some(i) =>
      var digest := x[i + 1..];
      || SHA256 <= digest
      || (match Find(digest, '@')
          case None => true
          case Some(k) => SHA256 <= digest[k + 1..])
  }

  /** A printed reference whose digest has colons but no `@` is cut at the last colon and glued together again. */
  lemma ColonPrintsAlike(r: ImageReference)
    requires '/' !in r.registry && ('.' in r.registry || ':' in r.registry)
    requires '@' !in r.registry && '@' !in r.repository && '@' !in r.reference && ':' in r.reference
    ensures var (name, reference) := SplitRef(r.registry + "/" + r.repository + ":" + r.reference);
            var (registry, repository) := Resolve(name);
            Print(ImageReference(registry, repository, reference)) == r.registry + "/" + r.repository + ":" + r.reference
  {
    hide Find, RFind, Resolve;
    var digest := r.reference;
    var s := r.registry + "/" + r.repository + ":" + digest;
    var k := RFind(digest, ':').value;
    var head, tag := digest[..k], digest[k + 1..];
    assert digest == head + [':'] + tag;
    var name := r.registry + "/" + r.repository + ":" + head;
    assert s == name + ":" + tag;
    var repository := r.repository + ":" + head;
    assert name == r.registry + "/" + repository;
    hide SplitRef;
    SplitTag(r.registry, repository, tag);
    HostResolves(r.registry, repository);
    NoDigest(tag);
    PrintedWithColon(ImageReference(r.registry, repository, tag));
  }

  /** One with an `@` in its digest is cut there, and the second part decides how it prints again. */
  lemma AtPrintsAlikeIff(r: ImageReference)
    requires '/' !in r.registry && ('.' in r.registry || ':' in r.registry)
    requires '@' !in r.registry && '@' !in r.repository && '@' in r.reference
    ensures var s := r.registry + "/" + r.repository + ":" + r.reference;
            var (name, reference) := SplitRef(s);
            var (registry, repository) := Resolve(name);
            Print(ImageReference(registry, repository, reference)) == s <==>
              SHA256 <= r.reference[Find(r.reference, '@').value + 1..]
  {
    hide Find, RFind, Resolve, SplitRef;
    var digest := r.reference;
    var s := r.registry + "/" + r.repository + ":" + digest;
    var k := Find(digest, '@').value;
    var head, rest := digest[..k], digest[k + 1..];
    assert digest == head + ['@'] + rest && '@' !in head;
    var repository := r.repository + ":" + head;
    var name := r.registry + "/" + repository;
    assert s == name + "@" + rest;
    SplitDigest(name, rest);
    HostResolves(r.registry, repository);
    var back := Print(ImageReference(r.registry, repository, rest));
    assert back[|name|] == if SHA256 <= rest then '@' else ':';
    assert s[|name|] == '@';
  }

  /**
   Printing what was parsed from the printed form changes nothing, exactly for the
   inputs without a digest, with a SHA-256 digest, with a digest that has no second
   `@`, or with a SHA-256 digest behind it.
   */
  lemma PrintIdempotentIff(input: string)
    requires Parse(input).Ok?
    ensures var s := Print(Parse(input).value);
            Parse(s).Ok? && (Print(Parse(s).value) == s <==> PrintsStably(input))
  {
    hide Find, RFind, Trim, IsSpace, SplitRef, Resolve, Print;
    ParsedFacts(input);
    if Normalises(input) {
      PrintNormalisesIff(input);
      NormalisesStably(input);
    } else {
      var r := Parse(input).value;
      PrintedWithColon(r);
      if '@' in r.reference {
        AtPrintsAlikeIff(r);
      } else {
        ColonPrintsAlike(r);
      }
    }
  }

  lemma NormalisesStably(input: string)
    requires Normalises(input)
    ensures PrintsStably(input)
  {
    hide Find, Trim;
  }

  lemma NoDigest(tag: string)
    requires ':' !in tag
    ensures !(SHA256 <= tag)
  {
    assert SHA256[6] == ':';
  }

  lemma PrintedWithColon(r: ImageReference)
    requires !(SHA256 <= r.reference)
    ensures Print(r) == r.registry + "/" + r.repository + ":" + r.reference
  {
  }

  /** Only blank input is refused. */
  lemma RefusedIffBlank(input: string)
    ensures Parse(input).Err? <==> forall i :: 0 <= i < |input| ==> IsSpace(input[i])
  {
    hide IsSpace;
    BlankStart(input);
    TrimStartTight(input);
    if TrimStart(input) != "" {
      KeepsFirst(TrimStart(input));
    }
  }

  lemma {:induction false} BlankStart(s: string)
    ensures TrimStart(s) == "" <==> forall i :: 0 <= i < |s| ==> IsSpace(s[i])
  {
    hide IsSpace;
    if s != "" && IsSpace(s[0]) {
      BlankStart(s[1..]);
      assert forall i :: 1 <= i < |s| ==> s[i] == s[1..][i - 1];
    }
  }

  lemma {:induction false} KeepsFirst(s: string)
    requires s != "" && !IsSpace(s[0])
    ensures TrimEnd(s) != ""
  {
    if IsSpace(s[|s| - 1]) {
      KeepsFirst(s[..|s| - 1]);
    }
  }
}
