/** ocimem/writer.go and ocimem/deleter.go: the operations that change the
    registry, as functions on its repositories. */
module MemOps {
  import opened Bytes
  import opened Mem

  datatype Config = Config(immutableTags: bool, laxChildReferences: bool)

  type Repositories = map<string, Repository>

  datatype Error =
    | NameInvalid | NameUnknown | BlobUnknown | ManifestUnknown
    | DigestInvalid | TagInvalid | DescriptorInvalid | ManifestInvalid | Undecoded
    | Denied

  datatype Outcome = Done | Refused(error: Error)

  datatype Op =
    | PushBlob(repo: string, desc: Descriptor, data: Bytes)
    | CommitUpload(repo: string, digest: Digest, data: Bytes)
    | MountBlob(fromRepo: string, toRepo: string, digest: Digest)
    | PushManifest(repo: string, data: Bytes, mediaType: string, given: Option<Digest>, tags: seq<string>)
    | DeleteBlob(repo: string, digest: Digest, order: seq<string>)
    | DeleteManifest(repo: string, digest: Digest, order: seq<string>)
    | DeleteTag(repo: string, tag: string)

  /** makeRepo, for a valid name. */
  function MakeRepo(repos: Repositories, name: string): (r: Repositories)
    ensures name in r
  {
    if name in repos then repos else repos[name := NEW_REPOSITORY]
  }

  /** CheckDescriptor with data. */
  function DescriptorMatches(w: World, desc: Descriptor, data: Bytes): bool {
    w.validDigest(desc.digest) && w.hash(Algorithm(desc.digest), data) == desc.digest &&
    desc.size == |data| && desc.mediaType != ""
  }

  /** CheckDescriptor without data. */
  function DescriptorSane(w: World, desc: Descriptor): bool {
    w.validDigest(desc.digest) &&
    (desc.size == 0 ==> w.hash(Algorithm(desc.digest), []) == desc.digest) && desc.mediaType != ""
  }

  /** repoTagIter: one item a tag, in the order in which the map is visited. */
  function TagItems(repo: Repository, order: seq<string>): seq<DescInfo>
    requires forall t :: t in order ==> t in repo.tags
  {
    seq(|order|, i requires 0 <= i < |order| => DescInfo(ManifestKind, repo.tags[order[i]]))
  }

  /** The order visits every tag. */
  predicate VisitsTags(repo: Repository, order: seq<string>) {
    (forall t :: t in order ==> t in repo.tags) && (forall t :: t in repo.tags ==> t in order)
  }

  /** One turn of the tag loop of PushManifest: None to go on, else the result. */
  function CheckTag(w: World, cfg: Config, repo: Repository, tag: string, dig: Digest,
                    mediaType: string): Option<Outcome> {
    if !w.validTag(tag) then Some(Refused(TagInvalid))
    else if cfg.immutableTags && tag in repo.tags then
      if repo.tags[tag].digest != dig then Some(Refused(Denied))
      else if repo.tags[tag].mediaType != mediaType then Some(Refused(Denied))
      else Some(Done)
    else None
  }

  function CheckTags(w: World, cfg: Config, repo: Repository, tags: seq<string>, dig: Digest,
                     mediaType: string): Option<Outcome> {
    if tags == [] then None
    else
      var first := CheckTag(w, cfg, repo, tags[0], dig, mediaType);
      if first.Some? then first else CheckTags(w, cfg, repo, tags[1..], dig, mediaType)
  }

  /** One turn of the loop of checkManifestReferences. */
  function ReferencePresent(w: World, repo: Repository, info: DescInfo): bool {
    DescriptorSane(w, info.desc) &&
    match info.kind
    case BlobKind => info.desc.hasURLs || info.desc.digest in repo.blobs
    case ManifestKind => info.desc.digest in repo.manifests
    case SubjectManifest => true
  }

  /** checkManifestReferences */
  function ReferencesOk(w: World, cfg: Config, repo: Repository, mediaType: string, data: Bytes): bool {
    match References(w, mediaType, data)
    case None => false
    case Some(infos) => cfg.laxChildReferences || forall info :: info in infos ==> ReferencePresent(w, repo, info)
  }

  function WithTags(tags: map<string, Descriptor>, names: seq<string>, desc: Descriptor): (r: map<string, Descriptor>)
    ensures forall t :: t in r <==> t in tags || t in names
    ensures forall t :: t in r ==> r[t] == if t in names then desc else tags[t]
  {
    if names == [] then tags
    else
      assert names == names[..|names| - 1] + [names[|names| - 1]];
      WithTags(tags, names[..|names| - 1], desc)[names[|names| - 1] := desc]
  }

  /** PushManifest, from the digest on. */
  function StoreManifest(w: World, cfg: Config, repo: Repository, data: Bytes, mediaType: string, dig: Digest,
                         tags: seq<string>)
    : (Repository, Outcome)
  {
    var desc := Descriptor(dig, mediaType, |data|, false);
    var stop := CheckTags(w, cfg, repo, tags, dig, mediaType);
    if stop.Some? then (repo, stop.value)
    else if mediaType == "" || !w.validDigest(dig) then (repo, Refused(DescriptorInvalid))
    else if !ReferencesOk(w, cfg, repo, mediaType, data) then (repo, Refused(ManifestInvalid))
    else (repo.(manifests := repo.manifests[dig := Stored(mediaType, data)], tags := WithTags(repo.tags, tags,
      desc)), Done)
  }

  /** The digest PushManifest works with, or None when the given one is wrong. */
  function ManifestDigest(w: World, data: Bytes, digest: Option<Digest>): Option<Digest> {
    match digest
    case None => Some(w.hash(CANONICAL, data))
    case Some(d) => if w.validDigest(d) && w.hash(Algorithm(d), data) == d then Some(d) else None
  }

  /** The guard of both deletions under ImmutableTags. */
  function Guard(w: World, cfg: Config, repo: Repository, order: seq<string>, digest: Digest): Option<Error>
    requires SoundWorld(w) && Addressed(w, repo) && VisitsTags(repo, order)
  {
    if !cfg.immutableTags then None
    else
      match RefersTo(w, repo, TagItems(repo, order), digest)
      case None => Some(Undecoded)
      case Some(found) => if found then Some(Denied) else None
  }

  /** What the registry always satisfies. */
  ghost predicate AllAddressed(w: World, repos: Repositories) {
    forall name :: name in repos ==> Addressed(w, repos[name])
  }

  predicate Visits(repos: Repositories, op: Op) {
    (op.DeleteBlob? || op.DeleteManifest?) && op.repo in repos ==> VisitsTags(repos[op.repo], op.order)
  }

  function Apply(w: World, cfg: Config, repos: Repositories, op: Op): (Repositories, Outcome)
    requires SoundWorld(w) && AllAddressed(w, repos) && Visits(repos, op)
  {
    match op
    case PushBlob(name, desc, data) =>
      if !DescriptorMatches(w, desc, data) then (repos, Refused(DescriptorInvalid))
      else if !w.validName(name) then (repos, Refused(NameInvalid))
      else
        var repos1 := MakeRepo(repos, name);
        var repo := repos1[name];
        (repos1[name := repo.(blobs := repo.blobs[desc.digest := Stored(desc.mediaType, data)])], Done)
    case CommitUpload(name, digest, data) =>
      if !w.validName(name) then (repos, Refused(NameInvalid))
      else
        var repos1 := MakeRepo(repos, name);
        var repo := repos1[name];
        if w.hash(Algorithm(digest), data) != digest then (repos1, Refused(DigestInvalid))
        else (repos1[name := repo.(blobs := repo.blobs[digest := Stored("application/octet-stream", data)])], Done)
    case MountBlob(from, to, digest) =>
      if !w.validName(to) then (repos, Refused(NameInvalid))
      else
        var repos1 := MakeRepo(repos, to);
        var repo := repos1[to];
        if from !in repos1 then (repos1, Refused(NameUnknown))
        else if digest !in repos1[from].blobs then (repos1, Refused(BlobUnknown))
        else (repos1[to := repo.(blobs := repo.blobs[digest := repos1[from].blobs[digest]])], Done)
    case PushManifest(name, data, mediaType, digest, tags) =>
      if !w.validName(name) then (repos, Refused(NameInvalid))
      else
        var repos1 := MakeRepo(repos, name);
        var dig := ManifestDigest(w, data, digest);
        if dig.None? then (repos1, Refused(DigestInvalid))
        else
          var (repo, outcome) := StoreManifest(w, cfg, repos1[name], data, mediaType, dig.value, tags);
          (repos1[name := repo], outcome)
    case DeleteBlob(name, digest, order) =>
      if name !in repos then (repos, Refused(NameUnknown))
      else if digest !in repos[name].blobs then (repos, Refused(BlobUnknown))
      else
        var guard := Guard(w, cfg, repos[name], order, digest);
        if guard.Some? then (repos, Refused(guard.value))
        else (repos[name := repos[name].(blobs := repos[name].blobs - {digest})], Done)
    case DeleteManifest(name, digest, order) =>
      if name !in repos then (repos, Refused(NameUnknown))
      else if digest !in repos[name].manifests then (repos, Refused(ManifestUnknown))
      else
        var guard := Guard(w, cfg, repos[name], order, digest);
        if guard.Some? then (repos, Refused(guard.value))
        else (repos[name := repos[name].(manifests := repos[name].manifests - {digest})], Done)
    case DeleteTag(name, tag) =>
      if name !in repos then (repos, Refused(NameUnknown))
      else if tag !in repos[name].tags then (repos, Refused(ManifestUnknown))
      else if cfg.immutableTags then (repos, Refused(Denied))
      else (repos[name := repos[name].(tags := repos[name].tags - {tag})], Done)
  }
}
