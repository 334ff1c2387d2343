/** ociref/reference.go: references as host/name:tag@digest. */
module Reference {
  import opened Bytes
  import opened Text
  import opened Names

  /** A missing part is the empty string. */
  datatype Ref = Ref(host: string, repository: string, tag: string, digest: Digest)

  // The syntax of hosts.

  predicate IsAlnum(c: char) {
    ('a' <= c <= 'z') || ('A' <= c <= 'Z') || ('0' <= c <= '9')
  }

  /** domainNameComponent */
  predicate IsHostComponent(s: string) {
    s != [] && IsAlnum(s[0]) && IsAlnum(s[|s| - 1]) && forall c :: c in s ==> IsAlnum(c) || c == '-'
  }

  /** domainName: two or more components joined by dots. */
  predicate IsDomainName(s: string) {
    var parts := Split(s, {'.'});
    |parts| >= 2 && forall p :: p in parts ==> IsHostComponent(p)
  }

  predicate IsHexOrColon(c: char) {
    ('a' <= c <= 'f') || ('A' <= c <= 'F') || ('0' <= c <= '9') || c == ':'
  }

  /** ipv6address */
  predicate IsIPv6(s: string) {
    |s| >= 3 && s[0] == '[' && s[|s| - 1] == ']' && forall i :: 1 <= i < |s| - 1 ==> IsHexOrColon(s[i])
  }

  predicate IsPort(s: string) {
    s != [] && forall c :: c in s ==> '0' <= c <= '9'
  }

  predicate IsBareHost(s: string) {
    IsDomainName(s) || IsIPv6(s)
  }

  /** domainAndPort: a port has no colon, so it is what follows the last one. A
      single component is a host only with a port. */
  predicate IsValidHost(s: string) {
    || IsBareHost(s)
    || (var i := LastColon(s);
        i >= 0 && IsPort(s[i + 1..]) && (IsBareHost(s[..i]) || IsHostComponent(s[..i])))
  }

  // Parsing.

  /** The length of the longest part of s without ':' or '@'. */
  function NameLength(s: string): (n: nat)
    ensures n <= |s| && ':' !in s[..n] && '@' !in s[..n]
    ensures n < |s| ==> s[n] == ':' || s[n] == '@'
  {
    if s == [] || s[0] == ':' || s[0] == '@' then 0
    else
      var n := NameLength(s[1..]);
      assert s[..n + 1] == [s[0]] + s[1..][..n];
      n + 1
  }

  datatype Tail = Tail(repository: string, tag: string, digest: string)

  /** What the last capture takes: anything but nothing, on one line. */
  predicate IsDigestText(s: string) {
    s != [] && '\n' !in s
  }

  /** What follows the name: :tag, then @digest, each or both or nothing. */
  function MatchMarks(s: string): Option<(string, string)> {
    if s == [] then Some(("", ""))
    else if s[0] == '@' then
      if IsDigestText(s[1..]) then Some(("", s[1..])) else None
    else if s[0] == ':' then
      var (tag, digest, hasDigest) := Cut(s[1..], '@');
      if tag == [] || (hasDigest && !IsDigestText(digest)) then None
      else Some((tag, digest))
    else None
  }

  /** The part of the pattern after the host. */
  function MatchTail(s: string): Option<Tail> {
    var n := NameLength(s);
    if !Scans(Need, s[..n]) then None
    else
      match MatchMarks(s[n..])
      case None => None
      case Some((tag, digest)) => Some(Tail(s[..n], tag, digest))
  }

  /** The whole pattern: a host is tried first. It has no slash, so it can only be
      what comes before the first one. */
  function Match(s: string): Option<(string, Tail)> {
    var (host, rest, slash) := Cut(s, '/');
    if slash && IsValidHost(host) && MatchTail(rest).Some? then Some((host, MatchTail(rest).value))
    else if MatchTail(s).Some? then Some(("", MatchTail(s).value))
    else None
  }

  /** parse */
  function ParseAny(validDigest: Digest -> bool, s: string): Option<Ref> {
    match Match(s)
    case None => None
    case Some((host, tail)) =>
      if tail.digest != "" && !validDigest(tail.digest) then None
      else if |tail.repository| > 255 then None
      else if |tail.tag| > 0 && !IsValidTag(tail.tag) then None
      else Some(Ref(host, tail.repository, tail.tag, tail.digest))
  }

  /** Parse */
  function Parse(validDigest: Digest -> bool, s: string): Option<Ref> {
    var ref := ParseAny(validDigest, s);
    if ref.None? || ref.value.host == "" then None else ref
  }

  function Marks(tag: string, digest: string): string {
    (if |tag| > 0 then ":" + tag else "") + (if digest != "" then "@" + digest else "")
  }

  function TailString(repository: string, tag: string, digest: string): string {
    repository + Marks(tag, digest)
  }

  /** String */
  function String(ref: Ref): string {
    (if ref.host != "" then ref.host + "/" else "") + TailString(ref.repository, ref.tag, ref.digest)
  }

  // Printing what was parsed.

  lemma MarksPrintAsMatched(s: string)
    requires MatchMarks(s).Some?
    ensures var (tag, digest) := MatchMarks(s).value; Marks(tag, digest) == s
  {
    if s != [] {
      var more := s[1..];
      assert s == [s[0]] + more;
      if s[0] == ':' {
        var (tag, digest, hasDigest) := Cut(more, '@');
        if hasDigest {
          assert s == (":" + tag) + ("@" + digest);
        } else {
          assert s == (":" + tag) + "";
        }
      } else {
        assert s == "" + ("@" + more);
      }
    }
  }

  lemma TailPrintsAsMatched(s: string)
    requires MatchTail(s).Some?
    ensures var t := MatchTail(s).value; TailString(t.repository, t.tag, t.digest) == s
  {
    var n := NameLength(s);
    TailParts(s);
    MarksPrintAsMatched(s[n..]);
    SplitName(s, n);
  }

  lemma TailParts(s: string)
    requires MatchTail(s).Some?
    ensures var n, t := NameLength(s), MatchTail(s).value;
            t.repository == s[..n] && MatchMarks(s[n..]) == Some((t.tag, t.digest))
  {
  }

  lemma SplitName(s: string, n: nat)
    requires n <= |s|
    ensures s[..n] + s[n..] == s
  {
  }

  lemma MatchPrints(s: string)
    requires Match(s).Some?
    ensures var (host, t) := Match(s).value; String(Ref(host, t.repository, t.tag, t.digest)) == s
  {
    var (host, rest, slash) := Cut(s, '/');
    if slash && IsValidHost(host) && MatchTail(rest).Some? {
      TailPrintsAsMatched(rest);
      assert s == (host + "/") + rest;
      assert host != "" by { HostChars(host); }
    } else {
      TailPrintsAsMatched(s);
      assert "" + s == s;
    }
  }

  /** Every accepted string is printed as it was. */
  lemma PrintsAsParsed(validDigest: Digest -> bool, s: string)
    requires ParseAny(validDigest, s).Some?
    ensures String(ParseAny(validDigest, s).value) == s
  {
    MatchPrints(s);
  }

  // Parsing what was printed.

  lemma {:induction false} NameLengthAt(name: string, rest: string)
    requires ':' !in name && '@' !in name && (rest == [] || rest[0] == ':' || rest[0] == '@')
    ensures NameLength(name + rest) == |name|
  {
    if name == [] {
      assert name + rest == rest;
    } else {
      assert name[0] in name && forall c :: c in name[1..] ==> c in name;
      assert (name + rest)[1..] == name[1..] + rest;
      NameLengthAt(name[1..], rest);
    }
  }

  lemma ScannedHasNoMarks(name: string)
    requires Scans(Need, name)
    ensures ':' !in name && '@' !in name && name != []
  {
    ScannedChars(Need, name);
    assert !IsRepositoryChar(':') && !IsRepositoryChar('@');
  }

  lemma MarksMatchAsPrinted(tag: string, digest: string)
    requires '@' !in tag && (digest == "" || IsDigestText(digest))
    ensures MatchMarks(Marks(tag, digest)) == Some((tag, digest))
    ensures Marks(tag, digest) != [] ==> Marks(tag, digest)[0] == ':' || Marks(tag, digest)[0] == '@'
  {
    var s := Marks(tag, digest);
    if |tag| > 0 {
      if digest != "" {
        CutAt(tag, '@', digest);
        assert s[1..] == tag + ['@'] + digest;
      } else {
        assert s[1..] == tag;
      }
    } else if digest != "" {
      assert s[1..] == digest;
    }
  }

  lemma TailMatchesAsPrinted(repository: string, tag: string, digest: string)
    requires Scans(Need, repository) && '@' !in tag && (digest == "" || IsDigestText(digest))
    ensures MatchTail(TailString(repository, tag, digest)) == Some(Tail(repository, tag, digest))
  {
    ScannedHasNoMarks(repository);
    var rest := Marks(tag, digest);
    MarksMatchAsPrinted(tag, digest);
    NameLengthAt(repository, rest);
    assert (repository + rest)[..|repository|] == repository && (repository + rest)[|repository|..] == rest;
  }

  lemma {:induction false} SplitCovers(s: string, seps: set<char>, c: char)
    requires c in s && c !in seps
    ensures exists p :: p in Split(s, seps) && c in p
  {
    var rest := Split(s[1..], seps);
    if s[0] == c {
      assert c in Split(s, seps)[0];
    } else {
      assert s == [s[0]] + s[1..];
      SplitCovers(s[1..], seps, c);
      var p :| p in rest && c in p;
      var i :| 0 <= i < |rest| && rest[i] == p;
      if s[0] in seps {
        assert Split(s, seps)[i + 1] == p;
      } else if i == 0 {
        assert c in Split(s, seps)[0];
      } else {
        assert Split(s, seps)[i] == p;
      }
    }
  }

  predicate IsHostChar(c: char) {
    IsAlnum(c) || c == '-' || c == '.' || c == '[' || c == ']' || c == ':'
  }

  lemma BareHostChars(s: string)
    requires IsBareHost(s)
    ensures s != [] && forall c :: c in s ==> IsHostChar(c)
  {
    forall c | c in s ensures IsHostChar(c) {
      if IsDomainName(s) && c != '.' {
        SplitCovers(s, {'.'}, c);
      } else if c != '.' {
        var i :| 0 <= i < |s| && s[i] == c;
        assert i == 0 || i == |s| - 1 || IsHexOrColon(s[i]);
      }
    }
  }

  lemma HostChars(s: string)
    requires IsValidHost(s)
    ensures s != [] && forall c :: c in s ==> IsHostChar(c)
  {
    if IsBareHost(s) {
      BareHostChars(s);
    } else {
      var i := LastColon(s);
      if IsBareHost(s[..i]) { BareHostChars(s[..i]); }
      assert s == s[..i] + [':'] + s[i + 1..];
      forall c | c in s ensures IsHostChar(c) {
        assert c in s[..i] || c == ':' || c in s[i + 1..];
      }
    }
  }

  /** The parts of a reference as the parser would accept them, with or without a host. */
  predicate WellFormed(validDigest: Digest -> bool, ref: Ref) {
    && (ref.host == "" || IsValidHost(ref.host))
    && IsValidRepository(ref.repository)
    && (ref.tag == "" || IsValidTag(ref.tag))
    && (ref.digest == "" || (validDigest(ref.digest) && IsDigestText(ref.digest)))
  }

  /** The first component of a repository name that has several, if a host could
      be written like that. */
  predicate StartsLikeHost(repository: string) {
    var (first, _, slash) := Cut(repository, '/');
    slash && IsValidHost(first)
  }

  lemma {:induction false} ScansAfterSlash(state: Scan, a: string, b: string)
    requires Scans(state, a + ['/'] + b)
    ensures Scans(Need, b)
    decreases |a|
  {
    var s := a + ['/'] + b;
    if a == [] {
      assert s[1..] == b;
    } else {
      assert s[1..] == a[1..] + ['/'] + b;
      ScansAfterSlash(Next(state, s[0]).0, a[1..], b);
    }
  }

  /** Without a host, what comes before the first slash of the printed form is the
      name's first component, or has an '@' in it. */
  lemma FirstSlash(repository: string, tag: string, digest: string)
    requires IsValidRepository(repository) && (tag == "" || IsValidTag(tag))
    ensures var s := TailString(repository, tag, digest);
            var (first, rest, slash) := Cut(repository, '/');
            if slash then Cut(s, '/') == (first, TailString(rest, tag, digest), true)
            else Cut(s, '/').2 ==> '@' in Cut(s, '/').0
  {
    var more := Marks(tag, digest);
    var s := repository + more;
    var (first, rest, slash) := Cut(repository, '/');
    if slash {
      assert s == first + ['/'] + (rest + more);
      CutAt(first, '/', rest + more);
    } else if digest != "" {
      var before := repository + if |tag| > 0 then ":" + tag else "";
      assert '/' !in before by {
        if |tag| > 0 { TagChars(tag); }
      }
      assert s == before + ['@'] + digest;
      var (h, _, found) := Cut(s, '/');
      if found {
        assert |h| > |before| by {
          assert s[|h|] == '/';
          assert forall j :: 0 <= j < |before| ==> s[j] == before[j] && s[j] in before;
          assert s[|before|] == '@';
        }
        assert h[|before|] == s[|before|];
      }
    } else {
      assert '/' !in s by {
        if |tag| > 0 { TagChars(tag); }
      }
    }
  }

  /** Printing and parsing gives the reference back, always with a host, and
      without one exactly when the name does not start like a host. */
  lemma ParsesAsPrinted(validDigest: Digest -> bool, ref: Ref)
    requires WellFormed(validDigest, ref)
    ensures ParseAny(validDigest, String(ref)) == Some(ref) <==> ref.host != "" || !StartsLikeHost(ref.repository)
    ensures Parse(validDigest, String(ref)) == Some(ref) <==> ref.host != ""
  {
    if ref.tag != "" { TagChars(ref.tag); }
    var tail := TailString(ref.repository, ref.tag, ref.digest);
    TailMatchesAsPrinted(ref.repository, ref.tag, ref.digest);
    if ref.host != "" {
      WithHost(ref.host, tail);
    } else {
      assert String(ref) == tail;
      if StartsLikeHost(ref.repository) {
        NameTakenForHost(ref.repository, ref.tag, ref.digest);
      } else {
        WithoutHost(ref.repository, ref.tag, ref.digest);
      }
    }
  }

  /** For instance "a.b/c" without a host is read back as repository "c" of host
      "a.b". */
  lemma NameReadAsHost(validDigest: Digest -> bool, ref: Ref, a: string, b: string)
    requires IsHostComponent(a) && IsHostComponent(b) && '/' !in a && '/' !in b
    requires ref == Ref("", a + ['.'] + b + ['/'] + "c", "", "") && IsValidRepository(ref.repository)
    ensures ParseAny(validDigest, String(ref)) != Some(ref)
  {
    TwoComponents(a, b);
    CutAt(a + ['.'] + b, '/', "c");
    ParsesAsPrinted(validDigest, ref);
  }

  lemma WithHost(host: string, tail: string)
    requires IsValidHost(host) && MatchTail(tail).Some?
    ensures host != "" && Match(host + "/" + tail) == Some((host, MatchTail(tail).value))
  {
    HostChars(host);
    assert !IsHostChar('/');
    assert host + "/" + tail == host + ['/'] + tail;
    CutAt(host, '/', tail);
  }

  /** A name that starts like a host is taken apart as if it did. */
  lemma NameTakenForHost(repository: string, tag: string, digest: string)
    requires IsValidRepository(repository) && (tag == "" || IsValidTag(tag)) && (digest == "" || IsDigestText(digest))
    requires StartsLikeHost(repository)
    ensures var m := Match(TailString(repository, tag, digest)); m.Some? && m.value.0 != ""
  {
    if tag != "" { TagChars(tag); }
    FirstSlash(repository, tag, digest);
    var (first, rest, slash) := Cut(repository, '/');
    HostChars(first);
    ScansAfterSlash(Need, first, rest);
    TailMatchesAsPrinted(rest, tag, digest);
  }

  lemma HostHasNoAt(h: string)
    ensures IsValidHost(h) ==> '@' !in h
  {
    if IsValidHost(h) {
      assert !IsHostChar('@');
      HostChars(h);
    }
  }

  lemma WithoutHost(repository: string, tag: string, digest: string)
    requires IsValidRepository(repository) && (tag == "" || IsValidTag(tag)) && (digest == "" || IsDigestText(digest))
    requires !StartsLikeHost(repository)
    ensures Match(TailString(repository, tag, digest)) == Some(("", Tail(repository, tag, digest)))
  {
    if tag != "" { TagChars(tag); }
    TailMatchesAsPrinted(repository, tag, digest);
    FirstSlash(repository, tag, digest);
    var h := Cut(TailString(repository, tag, digest), '/').0;
    HostHasNoAt(h);
  }

  // Relative references.

  /** DockerHubHosts */
  const HUB_HOSTS: set<string> := {"docker.io", "index.docker.io", "registry-1.docker.io", "registry.hub.docker.com"}

  /** Docker Hub and its library are the defaults; None when the name gets too long. */
  function WithDefaults(ref: Ref): Option<Ref> {
    var host := if ref.host in HUB_HOSTS || ref.host == "" then "docker.io" else ref.host;
    var repository :=
      if host == "docker.io" && '/' !in ref.repository then "library/" + ref.repository else ref.repository;
    if |repository| > 255 then None else Some(ref.(host := host, repository := repository))
  }

  /** ParseRelative */
  function ParseRelative(validDigest: Digest -> bool, s: string): Option<Ref> {
    match ParseAny(validDigest, s)
    case None => None
    case Some(ref) => WithDefaults(ref)
  }

  lemma MarksHaveDigestText(s: string)
    requires MatchMarks(s).Some?
    ensures MatchMarks(s).value.1 == "" || IsDigestText(MatchMarks(s).value.1)
  {
  }

  lemma ParsedIsWellFormed(validDigest: Digest -> bool, s: string)
    requires ParseAny(validDigest, s).Some?
    ensures WellFormed(validDigest, ParseAny(validDigest, s).value)
  {
    var (host, rest, slash) := Cut(s, '/');
    var tail := if slash && IsValidHost(host) && MatchTail(rest).Some? then rest else s;
    assert MatchTail(tail).Some?;
    MarksHaveDigestText(tail[NameLength(tail)..]);
  }

  lemma LibraryScans(name: string)
    requires Scans(Need, name)
    ensures Scans(Need, "library/" + name)
  {
    ScansThrough("library", name);
    assert "library/" + name == "library" + ['/'] + name;
  }

  lemma {:induction false} ScansThrough(word: string, name: string)
    requires Scans(Need, name) && word != [] && forall c :: c in word ==> IsLowerAlnum(c)
    ensures Scans(Run, word + ['/'] + name) && Scans(Need, word + ['/'] + name)
    decreases |word|
  {
    var s := word + ['/'] + name;
    assert word[0] in word && s[0] == word[0];
    assert s[1..] == word[1..] + ['/'] + name;
    if |word| == 1 {
      assert s[1..] == ['/'] + name;
      assert s[1..][1..] == name;
    } else {
      assert forall c :: c in word[1..] ==> c in word;
      ScansThrough(word[1..], name);
    }
  }

  lemma TwoComponents(a: string, b: string)
    requires IsHostComponent(a) && IsHostComponent(b)
    ensures IsDomainName(a + ['.'] + b)
  {
    SplitAtSeparator(a, '.', b, {'.'});
    SplitOfFree(a, {'.'});
    SplitOfFree(b, {'.'});
  }

  lemma HubIsHost()
    ensures IsValidHost("docker.io")
  {
    TwoComponents("docker", "io");
    assert "docker.io" == "docker" + ['.'] + "io";
  }

  /** Applying the defaults keeps a reference well-formed, and they are applied once. */
  lemma DefaultsOnce(validDigest: Digest -> bool, given: Ref)
    requires WellFormed(validDigest, given) && WithDefaults(given).Some?
    ensures var ref := WithDefaults(given).value;
            WellFormed(validDigest, ref) && ref.host != "" && WithDefaults(ref) == Some(ref)
  {
    var ref := WithDefaults(given).value;
    if ref.host != given.host { HubIsHost(); }
    if ref.repository != given.repository {
      LibraryScans(given.repository);
      assert ref.repository[7] == '/';
    }
  }

  /** What a relative reference means can be printed and read back, by either
      parser: the defaults are applied once. */
  lemma RelativeReadsBack(validDigest: Digest -> bool, s: string)
    requires ParseRelative(validDigest, s).Some?
    ensures var ref := ParseRelative(validDigest, s).value;
            Parse(validDigest, String(ref)) == Some(ref) && ParseRelative(validDigest, String(ref)) == Some(ref)
  {
    ParsedIsWellFormed(validDigest, s);
    var given := ParseAny(validDigest, s).value;
    DefaultsOnce(validDigest, given);
    ParsesAsPrinted(validDigest, WithDefaults(given).value);
  }
}
