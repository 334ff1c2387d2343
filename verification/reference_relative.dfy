/** What relative references mean (ociref/reference.go), on their text. */
module RelativeReference {
  import opened Bytes
  import opened Text
  import opened Names
  import opened Reference

  /** A reference as it is written; a missing part is the empty string. */
  function Written(host: string, name: string, tag: string, digest: string): string {
    (if host == "" then "" else host + "/") + name +
    (if tag == "" then "" else ":" + tag) + (if digest == "" then "" else "@" + digest)
  }

  /** A name that can be written with this tag and this digest. */
  predicate Good(validDigest: Digest -> bool, name: string, tag: string, digest: string) {
    && IsValidRepository(name)
    && (tag == "" || IsValidTag(tag))
    && (digest == "" || (validDigest(digest) && IsDigestText(digest)))
  }

  predicate IsHub(host: string) {
    || host == "docker.io"
    || host == "index.docker.io"
    || host == "registry-1.docker.io"
    || host == "registry.hub.docker.com"
  }

  lemma WrittenIsPrinted(host: string, name: string, tag: string, digest: string)
    ensures Written(host, name, tag, digest) == String(Ref(host, name, tag, digest))
  {
    var h := if host == "" then "" else host + "/";
    var t := if tag == "" then "" else ":" + tag;
    var d := if digest == "" then "" else "@" + digest;
    assert h + name + t + d == h + (name + (t + d));
  }

  lemma WrittenParses(validDigest: Digest -> bool, host: string, name: string, tag: string, digest: string)
    requires Good(validDigest, name, tag, digest)
    requires IsValidHost(host) || (host == "" && !StartsLikeHost(name))
    ensures ParseAny(validDigest, Written(host, name, tag, digest)) == Some(Ref(host, name, tag, digest))
  {
    if IsValidHost(host) { HostChars(host); }
    WrittenIsPrinted(host, name, tag, digest);
    ParsesAsPrinted(validDigest, Ref(host, name, tag, digest));
  }

  lemma DefaultsApply(validDigest: Digest -> bool, text: string, ref: Ref, meant: Option<Ref>)
    requires ParseAny(validDigest, text) == Some(ref) && WithDefaults(ref) == meant
    ensures ParseRelative(validDigest, text) == meant
  {
  }

  /** The defaults, on the parts. */
  lemma HubDefaults(ref: Ref)
    requires (ref.host == "" || IsHub(ref.host)) && |ref.repository| <= 255
    ensures WithDefaults(ref) ==
            if '/' in ref.repository then Some(ref.(host := "docker.io"))
            else if |ref.repository| <= 247 then
              Some(ref.(host := "docker.io", repository := "library/" + ref.repository))
            else None
  {
  }

  lemma ForeignDefaults(ref: Ref)
    requires ref.host != "" && !IsHub(ref.host) && |ref.repository| <= 255
    ensures WithDefaults(ref) == Some(ref)
  {
  }

  lemma MeansByDefault(validDigest: Digest -> bool, host: string, name: string, tag: string, digest: string)
    requires Good(validDigest, name, tag, digest)
    requires IsValidHost(host) || (host == "" && !StartsLikeHost(name))
    ensures var meant := ParseRelative(validDigest, Written(host, name, tag, digest));
            if host != "" && !IsHub(host) then meant == Some(Ref(host, name, tag, digest))
            else if '/' in name then meant == Some(Ref("docker.io", name, tag, digest))
            else if |name| <= 247 then meant == Some(Ref("docker.io", "library/" + name, tag, digest))
            else meant == None
  {
    var ref := Ref(host, name, tag, digest);
    WrittenParses(validDigest, host, name, tag, digest);
    DefaultsApply(validDigest, Written(host, name, tag, digest), ref, WithDefaults(ref));
    if host != "" && !IsHub(host) { ForeignDefaults(ref); } else { HubDefaults(ref); }
  }

  /** A name of one component is one of the library of Docker Hub; adding that
      must not make it too long. */
  lemma BareName(validDigest: Digest -> bool, name: string, tag: string, digest: string)
    requires Good(validDigest, name, tag, digest) && '/' !in name
    ensures ParseRelative(validDigest, Written("", name, tag, digest)) ==
            if |name| <= 247 then Some(Ref("docker.io", "library/" + name, tag, digest)) else None
  {
    MeansByDefault(validDigest, "", name, tag, digest);
  }

  /** A name of several, the first of which could not be a host, is one of Docker Hub. */
  lemma PathName(validDigest: Digest -> bool, name: string, tag: string, digest: string)
    requires Good(validDigest, name, tag, digest) && '/' in name && !StartsLikeHost(name)
    ensures ParseRelative(validDigest, Written("", name, tag, digest)) == Some(Ref("docker.io", name, tag, digest))
  {
    MeansByDefault(validDigest, "", name, tag, digest);
  }

  /** Every host of Docker Hub means docker.io, where names have a library too. */
  lemma HubName(validDigest: Digest -> bool, host: string, name: string, tag: string, digest: string)
    requires Good(validDigest, name, tag, digest) && IsHub(host)
    ensures ParseRelative(validDigest, Written(host, name, tag, digest)) ==
            if '/' in name then Some(Ref("docker.io", name, tag, digest))
            else if |name| <= 247 then Some(Ref("docker.io", "library/" + name, tag, digest)) else None
  {
    HubsAreHosts(host);
    MeansByDefault(validDigest, host, name, tag, digest);
  }

  /** Any other host and its names stay as they are. */
  lemma ForeignName(validDigest: Digest -> bool, host: string, name: string, tag: string, digest: string)
    requires Good(validDigest, name, tag, digest) && IsValidHost(host) && !IsHub(host)
    ensures ParseRelative(validDigest, Written(host, name, tag, digest)) == Some(Ref(host, name, tag, digest))
  {
    HostChars(host);
    MeansByDefault(validDigest, host, name, tag, digest);
  }

  /** Of any text that parses at all, only a Docker Hub name of one component that
      is too long for its library is refused. */
  lemma RefusedExactly(validDigest: Digest -> bool, text: string)
    requires ParseAny(validDigest, text).Some?
    ensures var ref := ParseAny(validDigest, text).value;
            ParseRelative(validDigest, text) == None <==>
            (ref.host == "" || IsHub(ref.host)) && '/' !in ref.repository && |ref.repository| > 247
  {
    ParsedIsWellFormed(validDigest, text);
  }

  lemma OneMoreComponent(first: string, rest: string)
    requires IsHostComponent(first) && IsDomainName(rest)
    ensures IsDomainName(first + ['.'] + rest)
  {
    SplitAtSeparator(first, '.', rest, {'.'});
    SplitOfFree(first, {'.'});
  }

  lemma DomainIsHost(host: string, first: string, rest: string)
    requires IsHostComponent(first) && IsDomainName(rest) && host == first + ['.'] + rest
    ensures IsDomainName(host) && IsValidHost(host)
  {
    OneMoreComponent(first, rest);
  }

  lemma DockerIo(domain: string)
    requires domain == "docker.io"
    ensures IsDomainName(domain) && IsValidHost(domain)
  {
    TwoComponents("docker", "io");
    assert domain == "docker" + ['.'] + "io";
  }

  lemma HubDockerCom(domain: string)
    requires domain == "hub.docker.com"
    ensures IsDomainName(domain)
  {
    TwoComponents("docker", "com");
    assert domain[4..] == "docker" + ['.'] + "com";
    DomainIsHost(domain, "hub", domain[4..]);
  }

  lemma PrefixedIsHost(host: string, first: string)
    requires host == first + ['.'] + "docker.io" && IsHostComponent(first)
    ensures IsValidHost(host)
  {
    DockerIo(host[|first| + 1..]);
    DomainIsHost(host, first, host[|first| + 1..]);
  }

  lemma HubDomainIsHost(host: string)
    requires host == "registry.hub.docker.com"
    ensures IsValidHost(host)
  {
    HubDockerCom(host[9..]);
    DomainIsHost(host, "registry", host[9..]);
  }

  lemma HubsAreHosts(host: string)
    requires IsHub(host)
    ensures IsValidHost(host)
  {
    if host == "docker.io" {
      DockerIo(host);
    } else if host == "registry.hub.docker.com" {
      HubDomainIsHost(host);
    } else {
      PrefixedIsHost(host, if host == "index.docker.io" then "index" else "registry-1");
    }
  }
}
