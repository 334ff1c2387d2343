/** ocimem: the in-memory registry's repositories and the graph of references
    between manifests. JSON decoding, hashing and name syntax are parameters. */
module Mem {
  import opened Bytes
  import opened Text

  datatype Descriptor = Descriptor(digest: Digest, mediaType: string, size: nat, hasURLs: bool)

  datatype RefKind = SubjectManifest | BlobKind | ManifestKind
  datatype DescInfo = DescInfo(kind: RefKind, desc: Descriptor)

  /** A decoded and validated IndexOrManifest. */
  datatype Manifest = Manifest(
    manifests: seq<Descriptor>,
    layers: seq<Descriptor>,
    config: Option<Descriptor>,
    subject: Option<Descriptor>)

  datatype Stored = Stored(mediaType: string, data: Bytes)

  datatype Repository = Repository(
    tags: map<string, Descriptor>,
    manifests: map<Digest, Stored>,
    blobs: map<Digest, Stored>)

  const NEW_REPOSITORY := Repository(map[], map[], map[])

  /** The foreign code the registry calls. rank is part of no computation: it
      orders digests so that a manifest comes after everything it names. */
  datatype World = World(
    hash: (string, Bytes) -> Digest,          // algorithm name, content
    decode: (string, Bytes) -> Option<Manifest>,
    validName: string -> bool,
    validTag: string -> bool,
    validDigest: Digest -> bool,
    rank: Digest -> nat)

  const CANONICAL := "sha256"
  const KNOWN_TYPES: set<string> := {
    "application/vnd.oci.image.manifest.v1+json",
    "application/vnd.docker.distribution.manifest.v2+json",
    "application/vnd.oci.image.index.v1+json",
    "application/vnd.docker.distribution.manifest.list.v2+json"
  }

  /** Digest.Algorithm */
  function Algorithm(d: Digest): string {
    Cut(d, ':').0
  }

  function Infos(kind: RefKind, descs: seq<Descriptor>): seq<DescInfo> {
    seq(|descs|, i requires 0 <= i < |descs| => DescInfo(kind, descs[i]))
  }

  function InfoOf(kind: RefKind, desc: Option<Descriptor>): seq<DescInfo> {
    if desc.Some? then [DescInfo(kind, desc.value)] else []
  }

  /** getManifestInfo: the direct references of a manifest, in iteration order;
      None when it cannot be decoded. */
  function References(w: World, mediaType: string, data: Bytes): Option<seq<DescInfo>> {
    if mediaType !in KNOWN_TYPES then Some([])
    else
      match w.decode(mediaType, data)
      case None => None
      case Some(m) => Some(Infos(ManifestKind, m.manifests) + Infos(BlobKind, m.layers) +
                           InfoOf(BlobKind, m.config) + InfoOf(SubjectManifest, m.subject))
  }

  // The reference graph, from the decoded manifests alone.

  /** The media types that are looked into. */
  predicate LookedInto(mediaType: string) {
    || mediaType == "application/vnd.oci.image.manifest.v1+json"
    || mediaType == "application/vnd.docker.distribution.manifest.v2+json"
    || mediaType == "application/vnd.oci.image.index.v1+json"
    || mediaType == "application/vnd.docker.distribution.manifest.list.v2+json"
  }

  /** The manifest names desc, as something of the given kind. */
  predicate Lists(m: Manifest, kind: RefKind, desc: Descriptor) {
    match kind
    case ManifestKind => desc in m.manifests
    case BlobKind => desc in m.layers || m.config == Some(desc)
    case SubjectManifest => m.subject == Some(desc)
  }

  /** Content of the given type is a manifest that names info. */
  predicate Names(w: World, mediaType: string, data: Bytes, info: DescInfo) {
    && LookedInto(mediaType) && w.decode(mediaType, data).Some?
    && Lists(w.decode(mediaType, data).value, info.kind, info.desc)
  }

  /** An edge of the graph: from is a manifest of repo that names to. */
  predicate RefersDirectly(w: World, repo: Repository, from: DescInfo, to: DescInfo) {
    && !from.kind.BlobKind? && from.desc.digest in repo.manifests
    && Names(w, from.desc.mediaType, repo.manifests[from.desc.digest].data, to)
  }

  lemma InfosAre(kind: RefKind, descs: seq<Descriptor>, desc: Option<Descriptor>, info: DescInfo)
    ensures info in Infos(kind, descs) <==> info.kind == kind && info.desc in descs
    ensures info in InfoOf(kind, desc) <==> info.kind == kind && desc == Some(info.desc)
  {
    if info.kind == kind && info.desc in descs {
      var i :| 0 <= i < |descs| && descs[i] == info.desc;
      assert Infos(kind, descs)[i] == info;
    }
  }

  /** getManifestInfo lists what the decoded manifest names, each under its kind,
      and nothing else; it fails exactly on a manifest that cannot be decoded. */
  lemma ReferencesAreTheNames(w: World, mediaType: string, data: Bytes)
    ensures References(w, mediaType, data).None? <==> LookedInto(mediaType) && w.decode(mediaType, data).None?
    ensures var refs := References(w, mediaType, data);
            refs.Some? ==> forall info :: info in refs.value <==> Names(w, mediaType, data, info)
  {
    var refs := References(w, mediaType, data);
    if mediaType in KNOWN_TYPES && refs.Some? {
      var m := w.decode(mediaType, data).value;
      forall info ensures info in refs.value <==> Names(w, mediaType, data, info) {
        InfosAre(ManifestKind, m.manifests, None, info);
        InfosAre(BlobKind, m.layers, m.config, info);
        InfosAre(SubjectManifest, [], m.subject, info);
      }
    }
  }

  // What is assumed of hashing.

  ghost predicate Hashes(w: World, d: Digest, data: Bytes) {
    exists alg :: d == w.hash(alg, data)
  }

  /** Equal digests mean equal bytes. */
  ghost predicate CollisionFree(w: World) {
    forall d, x, y :: Hashes(w, d, x) && Hashes(w, d, y) ==> x == y
  }

  /** No manifest can contain its own digest, directly or through others. */
  ghost predicate NoHashCycles(w: World) {
    forall d, mediaType, data, info ::
      Hashes(w, d, data) && Names(w, mediaType, data, info) ==> w.rank(info.desc.digest) < w.rank(d)
  }

  ghost predicate SoundWorld(w: World) {
    CollisionFree(w) && NoHashCycles(w)
  }

  /** Content is stored under its digest. */
  ghost predicate Addressed(w: World, repo: Repository) {
    && (forall d :: d in repo.manifests ==> Hashes(w, d, repo.manifests[d].data))
    && (forall d :: d in repo.blobs ==> Hashes(w, d, repo.blobs[d].data))
  }

  // refersTo.

  /** One more than the highest rank among the items. */
  function Level(w: World, items: seq<DescInfo>): (n: nat)
    ensures forall info :: info in items ==> w.rank(info.desc.digest) < n
  {
    if items == [] then 0
    else
      var n := Level(w, items[1..]);
      var r := w.rank(items[0].desc.digest) + 1;
      assert items == [items[0]] + items[1..];
      if r > n then r else n
  }

  lemma {:induction false} LevelBound(w: World, items: seq<DescInfo>, n: nat)
    requires forall info :: info in items ==> w.rank(info.desc.digest) < n
    ensures Level(w, items) <= n
  {
    if items != [] {
      assert items[0] in items && forall x :: x in items[1..] ==> x in items;
      LevelBound(w, items[1..], n);
    }
  }

  lemma LevelDescends(w: World, repo: Repository, items: seq<DescInfo>)
    requires SoundWorld(w) && Addressed(w, repo) && items != []
    ensures Level(w, items[1..]) <= Level(w, items)
    ensures items[0].desc.digest in repo.manifests ==>
              var refs := References(w, items[0].desc.mediaType, repo.manifests[items[0].desc.digest].data);
              refs.Some? ==> Level(w, refs.value) < Level(w, items)
  {
    var d := items[0].desc.digest;
    if d in repo.manifests {
      var data := repo.manifests[d].data;
      var refs := References(w, items[0].desc.mediaType, data);
      if refs.Some? {
        assert Hashes(w, d, data);
        ReferencesAreTheNames(w, items[0].desc.mediaType, data);
        LevelBound(w, refs.value, w.rank(d));
        assert items[0] in items;
      }
    }
  }

  /** refersTo: whether digest is met when walking the reference graph from the
      items; None when a manifest on the way cannot be decoded. */
  function RefersTo(w: World, repo: Repository, items: seq<DescInfo>, digest: Digest): Option<bool>
    requires SoundWorld(w) && Addressed(w, repo)
    decreases Level(w, items), |items|
  {
    if items == [] then Some(false)
    else
      var info, rest := items[0], items[1..];
      LevelDescends(w, repo, items);
      if info.desc.digest == digest then Some(true)
      else if info.kind.BlobKind? || info.desc.digest !in repo.manifests then RefersTo(w, repo, rest, digest)
      else
        match References(w, info.desc.mediaType, repo.manifests[info.desc.digest].data)
        case None => None
        case Some(refs) =>
          var found := RefersTo(w, repo, refs, digest);
          if found == Some(false) then RefersTo(w, repo, rest, digest) else found
  }

  /** The references that the walk goes on to from info. */
  function Children(w: World, repo: Repository, info: DescInfo): seq<DescInfo> {
    if info.kind.BlobKind? || info.desc.digest !in repo.manifests then []
    else
      match References(w, info.desc.mediaType, repo.manifests[info.desc.digest].data)
      case None => []
      case Some(refs) => refs
  }

  lemma ChildrenAreTheEdges(w: World, repo: Repository, info: DescInfo)
    ensures forall child :: child in Children(w, repo, info) <==> RefersDirectly(w, repo, info, child)
  {
    if !info.kind.BlobKind? && info.desc.digest in repo.manifests {
      ReferencesAreTheNames(w, info.desc.mediaType, repo.manifests[info.desc.digest].data);
    }
  }

  // Reachability, independently of the walk.

  ghost predicate IsPath(w: World, repo: Repository, p: seq<DescInfo>) {
    p != [] && forall i :: 0 <= i < |p| - 1 ==> RefersDirectly(w, repo, p[i], p[i + 1])
  }

  ghost predicate PathTo(w: World, repo: Repository, items: seq<DescInfo>, digest: Digest, p: seq<DescInfo>) {
    IsPath(w, repo, p) && p[0] in items && p[|p| - 1].desc.digest == digest
  }

  ghost predicate Reaches(w: World, repo: Repository, items: seq<DescInfo>, digest: Digest) {
    exists p :: PathTo(w, repo, items, digest, p)
  }

  ghost predicate Undecodable(w: World, repo: Repository, info: DescInfo) {
    && !info.kind.BlobKind? && info.desc.digest in repo.manifests
    && LookedInto(info.desc.mediaType)
    && w.decode(info.desc.mediaType, repo.manifests[info.desc.digest].data).None?
  }

  lemma PathExtends(w: World, repo: Repository, info: DescInfo, p: seq<DescInfo>)
    requires IsPath(w, repo, p) && RefersDirectly(w, repo, info, p[0])
    ensures IsPath(w, repo, [info] + p)
  {
  }

  lemma PathTail(w: World, repo: Repository, p: seq<DescInfo>)
    requires IsPath(w, repo, p) && |p| > 1
    ensures IsPath(w, repo, p[1..]) && RefersDirectly(w, repo, p[0], p[1])
  {
  }

  /** The body of refersTo's loop in terms of Children. */
  lemma RefersToStep(w: World, repo: Repository, items: seq<DescInfo>, digest: Digest)
    requires SoundWorld(w) && Addressed(w, repo) && items != [] && items[0].desc.digest != digest
    ensures Undecodable(w, repo, items[0]) ==> RefersTo(w, repo, items, digest).None?
    ensures !Undecodable(w, repo, items[0]) ==>
              var found := RefersTo(w, repo, Children(w, repo, items[0]), digest);
              RefersTo(w, repo, items, digest) ==
              if found == Some(false) then RefersTo(w, repo, items[1..], digest) else found
    ensures !Undecodable(w, repo, items[0]) ==> Level(w, Children(w, repo, items[0])) < Level(w, items)
    ensures Level(w, items[1..]) <= Level(w, items)
  {
    LevelDescends(w, repo, items);
    assert items[0] in items;
    var info := items[0];
    if !info.kind.BlobKind? && info.desc.digest in repo.manifests {
      ReferencesAreTheNames(w, info.desc.mediaType, repo.manifests[info.desc.digest].data);
    }
  }

  /** refersTo answers exactly the reachability question. */
  lemma {:induction false} RefersToIsReachability(w: World, repo: Repository, items: seq<DescInfo>, digest: Digest)
    requires SoundWorld(w) && Addressed(w, repo)
    ensures RefersTo(w, repo, items, digest) == Some(true) ==> Reaches(w, repo, items, digest)
    ensures RefersTo(w, repo, items, digest) == Some(false) ==> !Reaches(w, repo, items, digest)
    decreases Level(w, items), |items|
  {
    if items != [] {
      if items[0].desc.digest == digest {
        assert PathTo(w, repo, items, digest, [items[0]]);
      } else {
        RefersToStep(w, repo, items, digest);
        RefersToIsReachability(w, repo, items[1..], digest);
        if !Undecodable(w, repo, items[0]) {
          RefersToIsReachability(w, repo, Children(w, repo, items[0]), digest);
        }
        ThroughHead(w, repo, items, digest);
      }
    }
  }

  ghost predicate UndecodablePath(w: World, repo: Repository, items: seq<DescInfo>, p: seq<DescInfo>) {
    IsPath(w, repo, p) && p[0] in items && Undecodable(w, repo, p[|p| - 1])
  }

  ghost predicate LeadsToUndecodable(w: World, repo: Repository, items: seq<DescInfo>) {
    exists p :: UndecodablePath(w, repo, items, p)
  }

  lemma LeadsThroughHead(w: World, repo: Repository, items: seq<DescInfo>)
    requires items != []
    ensures Undecodable(w, repo, items[0]) ==> LeadsToUndecodable(w, repo, items)
    ensures LeadsToUndecodable(w, repo, Children(w, repo, items[0])) ==> LeadsToUndecodable(w, repo, items)
    ensures LeadsToUndecodable(w, repo, items[1..]) ==> LeadsToUndecodable(w, repo, items)
  {
    assert items[0] in items;
    ChildrenAreTheEdges(w, repo, items[0]);
    if Undecodable(w, repo, items[0]) {
      assert UndecodablePath(w, repo, items, [items[0]]);
    }
    if LeadsToUndecodable(w, repo, Children(w, repo, items[0])) {
      var p :| UndecodablePath(w, repo, Children(w, repo, items[0]), p);
      PathExtends(w, repo, items[0], p);
      assert UndecodablePath(w, repo, items, [items[0]] + p);
    }
    if LeadsToUndecodable(w, repo, items[1..]) {
      var p :| UndecodablePath(w, repo, items[1..], p);
      assert UndecodablePath(w, repo, items, p);
    }
  }

  /** refersTo fails only when the items lead to a manifest that cannot be decoded. */
  lemma {:induction false} RefersToFailure(w: World, repo: Repository, items: seq<DescInfo>, digest: Digest)
    requires SoundWorld(w) && Addressed(w, repo)
    ensures RefersTo(w, repo, items, digest).None? ==> LeadsToUndecodable(w, repo, items)
    decreases Level(w, items), |items|
  {
    if items != [] && items[0].desc.digest != digest {
      RefersToStep(w, repo, items, digest);
      LeadsThroughHead(w, repo, items);
      RefersToFailure(w, repo, items[1..], digest);
      if !Undecodable(w, repo, items[0]) {
        RefersToFailure(w, repo, Children(w, repo, items[0]), digest);
      }
    }
  }

  lemma Widen(w: World, repo: Repository, few: seq<DescInfo>, many: seq<DescInfo>, digest: Digest)
    requires forall x :: x in few ==> x in many
    ensures Reaches(w, repo, few, digest) ==> Reaches(w, repo, many, digest)
  {
    if Reaches(w, repo, few, digest) {
      var p :| PathTo(w, repo, few, digest, p);
      assert PathTo(w, repo, many, digest, p);
    }
  }

  lemma ThroughHead(w: World, repo: Repository, items: seq<DescInfo>, digest: Digest)
    requires items != [] && items[0].desc.digest != digest
    ensures Reaches(w, repo, items, digest) <==>
            Reaches(w, repo, Children(w, repo, items[0]), digest) || Reaches(w, repo, items[1..], digest)
  {
    var info, rest := items[0], items[1..];
    assert items == [info] + rest;
    ChildrenAreTheEdges(w, repo, info);
    if Reaches(w, repo, Children(w, repo, info), digest) {
      var p :| PathTo(w, repo, Children(w, repo, info), digest, p);
      PathExtends(w, repo, info, p);
      assert PathTo(w, repo, items, digest, [info] + p);
    }
    Widen(w, repo, rest, items, digest);
    if Reaches(w, repo, items, digest) {
      var p :| PathTo(w, repo, items, digest, p);
      if p[0] in rest {
        assert PathTo(w, repo, rest, digest, p);
      } else {
        PathTail(w, repo, p);
        assert PathTo(w, repo, Children(w, repo, info), digest, p[1..]);
      }
    }
  }
}
