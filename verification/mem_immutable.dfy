/** What ImmutableTags guarantees over every run of the in-memory registry. */
module MemImmutable {
  import opened Bytes
  import opened Mem
  import opened MemOps

  /** The reference graph is entered through the tags. */
  ghost predicate FromTag(repo: Repository, info: DescInfo) {
    info.kind.ManifestKind? && exists t :: t in repo.tags && repo.tags[t] == info.desc
  }

  ghost predicate TagPath(w: World, repo: Repository, digest: Digest, p: seq<DescInfo>) {
    IsPath(w, repo, p) && FromTag(repo, p[0]) && p[|p| - 1].desc.digest == digest
  }

  /** digest is reachable from some tag through config, layer, manifest or
      subject references of manifests that are present. */
  ghost predicate TagReaches(w: World, repo: Repository, digest: Digest) {
    exists p :: TagPath(w, repo, digest, p)
  }

  /** The walk of the guards starts from the same places in any visiting order. */
  lemma TagItemsAreTheTags(w: World, repo: Repository, order: seq<string>, digest: Digest)
    requires VisitsTags(repo, order)
    ensures Reaches(w, repo, TagItems(repo, order), digest) <==> TagReaches(w, repo, digest)
  {
    var items := TagItems(repo, order);
    forall info ensures info in items <==> FromTag(repo, info) {
      if FromTag(repo, info) {
        var t :| t in repo.tags && repo.tags[t] == info.desc;
        var i :| 0 <= i < |order| && order[i] == t;
        assert items[i] == info;
      }
    }
    if Reaches(w, repo, items, digest) {
      var p :| PathTo(w, repo, items, digest, p);
      assert TagPath(w, repo, digest, p);
    }
    if TagReaches(w, repo, digest) {
      var p :| TagPath(w, repo, digest, p);
      assert PathTo(w, repo, items, digest, p);
    }
  }

  /** Every repository: content under its digest, and every tag's manifest there. */
  ghost predicate RepoInv(w: World, repo: Repository) {
    && Addressed(w, repo)
    && (forall t :: t in repo.tags ==> repo.tags[t].digest in repo.manifests)
  }

  ghost predicate Inv(w: World, repos: Repositories) {
    forall name :: name in repos ==> RepoInv(w, repos[name])
  }

  /** What may happen to one repository: tags stay, content that is present and
      reachable from a tag stays with the same bytes. */
  ghost predicate Preserves(w: World, before: Repository, after: Repository) {
    && (forall t :: t in before.tags ==> t in after.tags && after.tags[t] == before.tags[t])
    && (forall d :: d in before.manifests && TagReaches(w, before, d) ==>
          d in after.manifests && after.manifests[d].data == before.manifests[d].data)
    && (forall d :: d in before.blobs && TagReaches(w, before, d) ==>
          d in after.blobs && after.blobs[d].data == before.blobs[d].data)
  }

  lemma PathPrefix(w: World, repo: Repository, p: seq<DescInfo>, n: nat)
    requires IsPath(w, repo, p) && 0 < n <= |p|
    ensures IsPath(w, repo, p[..n])
  {
  }

  /** What was reachable stays reachable. */
  lemma PreservedPath(w: World, before: Repository, after: Repository, digest: Digest, p: seq<DescInfo>)
    requires Preserves(w, before, after) && TagPath(w, before, digest, p)
    ensures TagPath(w, after, digest, p)
  {
    forall i | 0 <= i < |p| - 1 ensures RefersDirectly(w, after, p[i], p[i + 1]) {
      PathPrefix(w, before, p, i + 1);
      assert TagPath(w, before, p[i].desc.digest, p[..i + 1]);
      assert RefersDirectly(w, before, p[i], p[i + 1]);
    }
  }

  lemma PreservesIsTransitive(w: World, a: Repository, b: Repository, c: Repository)
    requires Preserves(w, a, b) && Preserves(w, b, c)
    ensures Preserves(w, a, c)
  {
    forall d | TagReaches(w, a, d) ensures TagReaches(w, b, d) {
      var p :| TagPath(w, a, d, p);
      PreservedPath(w, a, b, d, p);
    }
  }

  ghost predicate AllPreserved(w: World, before: Repositories, after: Repositories) {
    forall name :: name in before ==> name in after && Preserves(w, before[name], after[name])
  }

  // The single changes.

  lemma AddedBlobPreserves(w: World, repo: Repository, digest: Digest, stored: Stored)
    requires SoundWorld(w) && RepoInv(w, repo) && Hashes(w, digest, stored.data)
    ensures var after := repo.(blobs := repo.blobs[digest := stored]);
            RepoInv(w, after) && Preserves(w, repo, after)
  {
  }

  lemma CheckedTagsAreNew(w: World, cfg: Config, repo: Repository, tags: seq<string>, dig: Digest, mediaType: string)
    requires cfg.immutableTags && CheckTags(w, cfg, repo, tags, dig, mediaType).None?
    ensures forall t :: t in tags ==> t !in repo.tags
  {
    if tags != [] {
      CheckedTagsAreNew(w, cfg, repo, tags[1..], dig, mediaType);
      assert tags == [tags[0]] + tags[1..];
    }
  }

  lemma StoredManifestPreserves(w: World, cfg: Config, repo: Repository, data: Bytes, mediaType: string, dig: Digest,
                                tags: seq<string>)
    requires SoundWorld(w) && cfg.immutableTags && RepoInv(w, repo) && Hashes(w, dig, data)
    ensures var after := StoreManifest(w, cfg, repo, data, mediaType, dig, tags).0;
            RepoInv(w, after) && Preserves(w, repo, after)
  {
    if CheckTags(w, cfg, repo, tags, dig, mediaType).None? {
      CheckedTagsAreNew(w, cfg, repo, tags, dig, mediaType);
    }
  }

  /** A deletion that passes the guard deletes nothing a tag reaches. */
  lemma GuardedIsUnreachable(w: World, cfg: Config, repo: Repository, order: seq<string>, digest: Digest)
    requires SoundWorld(w) && cfg.immutableTags && Addressed(w, repo) && VisitsTags(repo, order)
    ensures Guard(w, cfg, repo, order, digest).None? ==> !TagReaches(w, repo, digest)
    ensures Guard(w, cfg, repo, order, digest) == Some(Denied) ==> TagReaches(w, repo, digest)
    ensures Guard(w, cfg, repo, order, digest) == Some(Undecoded) ==>
              LeadsToUndecodable(w, repo, TagItems(repo, order))
  {
    RefersToIsReachability(w, repo, TagItems(repo, order), digest);
    RefersToFailure(w, repo, TagItems(repo, order), digest);
    TagItemsAreTheTags(w, repo, order, digest);
  }

  /** m names a descriptor: as a manifest, as a layer, as its config or as its
      subject. */
  predicate NamedIn(m: Manifest, desc: Descriptor) {
    desc in m.manifests || desc in m.layers || m.config == Some(desc) || m.subject == Some(desc)
  }

  /** Whatever a tagged manifest of one of the four types names is reachable. */
  lemma TaggedManifestReaches(w: World, repo: Repository, tag: string, m: Manifest, desc: Descriptor)
    requires tag in repo.tags && repo.tags[tag].digest in repo.manifests && NamedIn(m, desc)
    requires var mediaType := repo.tags[tag].mediaType;
             || mediaType == "application/vnd.oci.image.manifest.v1+json"
             || mediaType == "application/vnd.docker.distribution.manifest.v2+json"
             || mediaType == "application/vnd.oci.image.index.v1+json"
             || mediaType == "application/vnd.docker.distribution.manifest.list.v2+json"
    requires w.decode(repo.tags[tag].mediaType, repo.manifests[repo.tags[tag].digest].data) == Some(m)
    ensures TagReaches(w, repo, desc.digest)
  {
    var kind := if desc in m.manifests then ManifestKind
                else if desc in m.layers || m.config == Some(desc) then BlobKind else SubjectManifest;
    var top, child := DescInfo(ManifestKind, repo.tags[tag]), DescInfo(kind, desc);
    assert RefersDirectly(w, repo, top, child);
    assert TagPath(w, repo, desc.digest, [top, child]);
  }

  /** With immutable tags, nothing that a tagged manifest names can be deleted. */
  lemma NamedByTagStays(w: World, cfg: Config, repos: Repositories, name: string, tag: string, m: Manifest,
                        desc: Descriptor, op: Op)
    requires SoundWorld(w) && cfg.immutableTags && AllAddressed(w, repos) && Visits(repos, op)
    requires name in repos && tag in repos[name].tags && repos[name].tags[tag].digest in repos[name].manifests
    requires var top := repos[name].tags[tag];
             LookedInto(top.mediaType) && NamedIn(m, desc) &&
             w.decode(top.mediaType, repos[name].manifests[top.digest].data) == Some(m)
    requires (op.DeleteBlob? || op.DeleteManifest?) && op.repo == name && op.digest == desc.digest
    ensures Apply(w, cfg, repos, op).1.Refused? && Apply(w, cfg, repos, op).0 == repos
  {
    TaggedManifestReaches(w, repos[name], tag, m, desc);
    GuardedIsUnreachable(w, cfg, repos[name], op.order, desc.digest);
  }

  lemma DeletedManifestPreserves(w: World, repo: Repository, digest: Digest)
    requires RepoInv(w, repo) && !TagReaches(w, repo, digest)
    ensures var after := repo.(manifests := repo.manifests - {digest});
            RepoInv(w, after) && Preserves(w, repo, after)
  {
    forall t | t in repo.tags ensures repo.tags[t].digest != digest {
      assert TagPath(w, repo, repo.tags[t].digest, [DescInfo(ManifestKind, repo.tags[t])]);
    }
  }

  lemma DeletedBlobPreserves(w: World, repo: Repository, digest: Digest)
    requires RepoInv(w, repo) && !TagReaches(w, repo, digest)
    ensures var after := repo.(blobs := repo.blobs - {digest});
            RepoInv(w, after) && Preserves(w, repo, after)
  {
  }

  // Steps and runs.

  lemma OneRepoChanged(w: World, repos: Repositories, name: string, after: Repository)
    requires Inv(w, repos) && RepoInv(w, after)
    requires Preserves(w, MakeRepo(repos, name)[name], after)
    ensures Inv(w, MakeRepo(repos, name)) && AllPreserved(w, repos, MakeRepo(repos, name))
    ensures Inv(w, repos[name := after]) && AllPreserved(w, repos, repos[name := after])
    ensures MakeRepo(repos, name)[name := after] == repos[name := after]
  {
  }

  lemma Unchanged(w: World, repo: Repository)
    ensures Preserves(w, repo, repo)
  {
  }

  lemma EmptyRepoInv(w: World, repos: Repositories, name: string)
    requires Inv(w, repos)
    ensures RepoInv(w, MakeRepo(repos, name)[name])
    ensures Inv(w, MakeRepo(repos, name)) && AllPreserved(w, repos, MakeRepo(repos, name))
  {
  }

  /** No operation on a registry with immutable tags moves or removes a tag or
      deletes anything that a tag reaches. */
  lemma StepPreserves(w: World, cfg: Config, repos: Repositories, op: Op)
    requires SoundWorld(w) && cfg.immutableTags && Inv(w, repos) && Visits(repos, op)
    ensures AllAddressed(w, repos)
    ensures Inv(w, Apply(w, cfg, repos, op).0)
    ensures AllPreserved(w, repos, Apply(w, cfg, repos, op).0)
  {
    match op {
      case PushBlob(name, desc, data) => PushBlobPreserves(w, cfg, repos, name, desc, data);
      case CommitUpload(name, digest, data) => CommitPreserves(w, cfg, repos, name, digest, data);
      case MountBlob(from, to, digest) => MountPreserves(w, cfg, repos, from, to, digest);
      case PushManifest(name, data, mediaType, given, tags) =>
        PushManifestPreserves(w, cfg, repos, name, data, mediaType, given, tags);
      case DeleteTag(name, tag) => DeleteTagPreserves(w, cfg, repos, name, tag);
      case DeleteBlob(_, _, _) => DeleteBlobPreserves(w, cfg, repos, op);
      case DeleteManifest(_, _, _) => DeleteManifestPreserves(w, cfg, repos, op);
    }
  }

  lemma PushBlobPreserves(w: World, cfg: Config, repos: Repositories, name: string, desc: Descriptor, data: Bytes)
    requires SoundWorld(w) && Inv(w, repos)
    ensures var after := Apply(w, cfg, repos, PushBlob(name, desc, data)).0;
            Inv(w, after) && AllPreserved(w, repos, after)
  {
    if DescriptorMatches(w, desc, data) {
      EmptyRepoInv(w, repos, name);
      var repo := MakeRepo(repos, name)[name];
      AddedBlobPreserves(w, repo, desc.digest, Stored(desc.mediaType, data));
      OneRepoChanged(w, repos, name, repo.(blobs := repo.blobs[desc.digest := Stored(desc.mediaType, data)]));
    }
  }

  lemma CommitPreserves(w: World, cfg: Config, repos: Repositories, name: string, digest: Digest, data: Bytes)
    requires SoundWorld(w) && Inv(w, repos)
    ensures var after := Apply(w, cfg, repos, CommitUpload(name, digest, data)).0;
            Inv(w, after) && AllPreserved(w, repos, after)
  {
    EmptyRepoInv(w, repos, name);
    if w.hash(Algorithm(digest), data) == digest {
      var repo := MakeRepo(repos, name)[name];
      var stored := Stored("application/octet-stream", data);
      AddedBlobPreserves(w, repo, digest, stored);
      OneRepoChanged(w, repos, name, repo.(blobs := repo.blobs[digest := stored]));
    }
  }

  lemma MountPreserves(w: World, cfg: Config, repos: Repositories, from: string, to: string, digest: Digest)
    requires SoundWorld(w) && Inv(w, repos)
    ensures var after := Apply(w, cfg, repos, MountBlob(from, to, digest)).0;
            Inv(w, after) && AllPreserved(w, repos, after)
  {
    EmptyRepoInv(w, repos, to);
    var repos1 := MakeRepo(repos, to);
    if from in repos1 && digest in repos1[from].blobs {
      var stored := repos1[from].blobs[digest];
      AddedBlobPreserves(w, repos1[to], digest, stored);
      OneRepoChanged(w, repos, to, repos1[to].(blobs := repos1[to].blobs[digest := stored]));
    }
  }

  lemma PushManifestPreserves(w: World, cfg: Config, repos: Repositories, name: string, data: Bytes, mediaType: string,
                              given: Option<Digest>, tags: seq<string>)
    requires SoundWorld(w) && cfg.immutableTags && Inv(w, repos)
    ensures var after := Apply(w, cfg, repos, PushManifest(name, data, mediaType, given, tags)).0;
            Inv(w, after) && AllPreserved(w, repos, after)
  {
    EmptyRepoInv(w, repos, name);
    var dig := ManifestDigest(w, data, given);
    if dig.Some? {
      var repo := MakeRepo(repos, name)[name];
      StoredManifestPreserves(w, cfg, repo, data, mediaType, dig.value, tags);
      OneRepoChanged(w, repos, name, StoreManifest(w, cfg, repo, data, mediaType, dig.value, tags).0);
    }
  }

  lemma DeleteTagPreserves(w: World, cfg: Config, repos: Repositories, name: string, tag: string)
    requires SoundWorld(w) && cfg.immutableTags && Inv(w, repos)
    ensures Apply(w, cfg, repos, DeleteTag(name, tag)).0 == repos && AllPreserved(w, repos, repos)
  {
  }

  lemma DeleteBlobPreserves(w: World, cfg: Config, repos: Repositories, op: Op)
    requires SoundWorld(w) && cfg.immutableTags && Inv(w, repos) && Visits(repos, op) && op.DeleteBlob?
    ensures var after := Apply(w, cfg, repos, op).0;
            Inv(w, after) && AllPreserved(w, repos, after)
  {
    if op.repo in repos {
      var repo := repos[op.repo];
      GuardedIsUnreachable(w, cfg, repo, op.order, op.digest);
      if !TagReaches(w, repo, op.digest) {
        DeletedBlobPreserves(w, repo, op.digest);
      }
    }
  }

  lemma DeleteManifestPreserves(w: World, cfg: Config, repos: Repositories, op: Op)
    requires SoundWorld(w) && cfg.immutableTags && Inv(w, repos) && Visits(repos, op) && op.DeleteManifest?
    ensures var after := Apply(w, cfg, repos, op).0;
            Inv(w, after) && AllPreserved(w, repos, after)
  {
    if op.repo in repos {
      var repo := repos[op.repo];
      GuardedIsUnreachable(w, cfg, repo, op.order, op.digest);
      if !TagReaches(w, repo, op.digest) {
        DeletedManifestPreserves(w, repo, op.digest);
      }
    }
  }

  ghost predicate Run(w: World, cfg: Config, repos: Repositories, ops: seq<Op>, end: Repositories)
    requires SoundWorld(w)
    decreases |ops|
  {
    if ops == [] then repos == end
    else AllAddressed(w, repos) && Visits(repos, ops[0]) && Run(w, cfg, Apply(w, cfg, repos, ops[0]).0, ops[1..], end)
  }

  /** Over every run: tags stay as they are, their manifests stay present, and
      whatever was present and reachable from a tag is still there, with the same
      bytes, and still reachable. */
  lemma {:induction false} RunPreserves(w: World, cfg: Config, repos: Repositories, ops: seq<Op>, end: Repositories)
    requires SoundWorld(w) && cfg.immutableTags && Inv(w, repos) && Run(w, cfg, repos, ops, end)
    ensures Inv(w, end) && AllPreserved(w, repos, end)
    decreases |ops|
  {
    if ops != [] {
      var next := Apply(w, cfg, repos, ops[0]).0;
      StepPreserves(w, cfg, repos, ops[0]);
      RunPreserves(w, cfg, next, ops[1..], end);
      forall name | name in repos ensures Preserves(w, repos[name], end[name]) {
        PreservesIsTransitive(w, repos[name], next[name], end[name]);
      }
    }
  }

  lemma ReplacedRepoAddressed(w: World, repos: Repositories, name: string, repo: Repository)
    requires AllAddressed(w, repos) && Addressed(w, repo)
    ensures AllAddressed(w, MakeRepo(repos, name)) && Addressed(w, MakeRepo(repos, name)[name])
    ensures AllAddressed(w, MakeRepo(repos, name)[name := repo])
  {
  }

  lemma StoreKeepsAddressed(w: World, cfg: Config, repo: Repository, data: Bytes, mediaType: string,
                            given: Option<Digest>, tags: seq<string>)
    requires Addressed(w, repo) && ManifestDigest(w, data, given).Some?
    ensures Addressed(w, StoreManifest(w, cfg, repo, data, mediaType, ManifestDigest(w, data, given).value, tags).0)
  {
    assert Hashes(w, ManifestDigest(w, data, given).value, data);
  }

  /** Whatever the configuration, content stays stored under its digest, which
      is what the guards' walk relies on. */
  lemma StepKeepsAddressed(w: World, cfg: Config, repos: Repositories, op: Op)
    requires SoundWorld(w) && AllAddressed(w, repos) && Visits(repos, op)
    ensures AllAddressed(w, Apply(w, cfg, repos, op).0)
  {
    match op {
      case PushBlob(name, desc, data) =>
        if DescriptorMatches(w, desc, data) && w.validName(name) {
          var repo := MakeRepo(repos, name)[name];
          ReplacedRepoAddressed(w, repos, name, repo.(blobs := repo.blobs[desc.digest := Stored(desc.mediaType,
            data)]));
        }
      case CommitUpload(name, digest, data) =>
        var repo := MakeRepo(repos, name)[name];
        ReplacedRepoAddressed(w, repos, name, repo);
        if w.hash(Algorithm(digest), data) == digest {
          ReplacedRepoAddressed(w, repos, name,
            repo.(blobs := repo.blobs[digest := Stored("application/octet-stream", data)]));
        }
      case MountBlob(from, to, digest) =>
        var repo := MakeRepo(repos, to)[to];
        ReplacedRepoAddressed(w, repos, to, repo);
        if from in MakeRepo(repos, to) && digest in MakeRepo(repos, to)[from].blobs {
          ReplacedRepoAddressed(w, repos, to, repo.(blobs := repo.blobs[digest := MakeRepo(repos,
            to)[from].blobs[digest]]));
        }
      case PushManifest(name, data, mediaType, given, tags) =>
        var repo := MakeRepo(repos, name)[name];
        ReplacedRepoAddressed(w, repos, name, repo);
        if ManifestDigest(w, data, given).Some? {
          var dig := ManifestDigest(w, data, given).value;
          StoreKeepsAddressed(w, cfg, repo, data, mediaType, given, tags);
          ReplacedRepoAddressed(w, repos, name, StoreManifest(w, cfg, repo, data, mediaType, dig, tags).0);
        }
      case _ =>
    }
  }

  // With strict child references, a tag also guarantees what it names.

  ghost predicate ChildPresent(repo: Repository, info: DescInfo) {
    match info.kind
    case BlobKind => info.desc.hasURLs || info.desc.digest in repo.blobs
    case ManifestKind => info.desc.digest in repo.manifests
    case SubjectManifest => true
  }

  /** Every config, layer and manifest that a tagged manifest names is present,
      foreign layers and subjects aside. */
  ghost predicate Complete(w: World, repo: Repository) {
    forall t, info :: t in repo.tags && RefersDirectly(w, repo, DescInfo(ManifestKind, repo.tags[t]), info) ==>
      ChildPresent(repo, info)
  }

  lemma TaggedChildrenStay(w: World, before: Repository, after: Repository, t: string)
    requires RepoInv(w, before) && Preserves(w, before, after) && Complete(w, before) && t in before.tags
    ensures forall info :: RefersDirectly(w, after, DescInfo(ManifestKind, after.tags[t]), info) ==>
            ChildPresent(after, info)
  {
    var top := DescInfo(ManifestKind, before.tags[t]);
    assert TagPath(w, before, top.desc.digest, [top]);
    assert after.tags[t] == before.tags[t];
    forall info | RefersDirectly(w, after, top, info) ensures ChildPresent(after, info) {
      assert RefersDirectly(w, before, top, info);
      assert ChildPresent(before, info);
      assert TagPath(w, before, info.desc.digest, [top, info]);
    }
  }

  lemma StoredManifestIsComplete(w: World, cfg: Config, repo: Repository, data: Bytes, mediaType: string,
                                 dig: Digest, tags: seq<string>)
    requires SoundWorld(w) && cfg.immutableTags && !cfg.laxChildReferences
    requires RepoInv(w, repo) && Complete(w, repo) && Hashes(w, dig, data)
    ensures Complete(w, StoreManifest(w, cfg, repo, data, mediaType, dig, tags).0)
  {
    StoredManifestPreserves(w, cfg, repo, data, mediaType, dig, tags);
    var after := StoreManifest(w, cfg, repo, data, mediaType, dig, tags).0;
    if after != repo {
      ReferencesAreTheNames(w, mediaType, data);
      forall t, info | t in after.tags && RefersDirectly(w, after, DescInfo(ManifestKind, after.tags[t]), info)
        ensures ChildPresent(after, info)
      {
        if t in tags {
          assert Names(w, mediaType, data, info);
          assert ReferencePresent(w, repo, info);
        } else {
          TaggedChildrenStay(w, repo, after, t);
        }
      }
    }
  }

  ghost predicate AllComplete(w: World, repos: Repositories) {
    forall name :: name in repos ==> Complete(w, repos[name])
  }

  lemma CompleteStays(w: World, before: Repository, after: Repository)
    requires RepoInv(w, before) && Preserves(w, before, after) && Complete(w, before) && after.tags == before.tags
    ensures Complete(w, after)
  {
    forall t, info | t in after.tags && RefersDirectly(w, after, DescInfo(ManifestKind, after.tags[t]), info)
      ensures ChildPresent(after, info)
    {
      TaggedChildrenStay(w, before, after, t);
    }
  }

  /** Only PushManifest changes the tags of a repository, and only of its own. */
  lemma OnlyPushesTag(w: World, cfg: Config, repos: Repositories, op: Op, name: string)
    requires SoundWorld(w) && cfg.immutableTags && AllAddressed(w, repos) && Visits(repos, op)
    requires name in Apply(w, cfg, repos, op).0
    ensures op.PushManifest? && op.repo == name && ManifestDigest(w, op.data, op.given).Some? && w.validName(name) ==>
              Apply(w, cfg, repos, op).0[name] ==
              StoreManifest(w, cfg, MakeRepo(repos, name)[name], op.data, op.mediaType,
                            ManifestDigest(w, op.data, op.given).value, op.tags).0
    ensures !(op.PushManifest? && op.repo == name && ManifestDigest(w, op.data, op.given).Some? &&
            w.validName(name)) ==>
              Apply(w, cfg, repos, op).0[name].tags == MakeRepo(repos, name)[name].tags
  {
  }

  /** Every operation keeps every tag complete. */
  lemma StepKeepsComplete(w: World, cfg: Config, repos: Repositories, op: Op)
    requires SoundWorld(w) && cfg.immutableTags && !cfg.laxChildReferences
    requires Inv(w, repos) && AllComplete(w, repos) && AllAddressed(w, repos) && Visits(repos, op)
    ensures AllComplete(w, Apply(w, cfg, repos, op).0)
  {
    StepPreserves(w, cfg, repos, op);
    var after := Apply(w, cfg, repos, op).0;
    forall name | name in after ensures Complete(w, after[name]) {
      var before := MakeRepo(repos, name)[name];
      EmptyRepoInv(w, repos, name);
      OnlyPushesTag(w, cfg, repos, op, name);
      if op.PushManifest? && op.repo == name && ManifestDigest(w, op.data, op.given).Some? && w.validName(name) {
        var dig := ManifestDigest(w, op.data, op.given).value;
        StoredManifestIsComplete(w, cfg, before, op.data, op.mediaType, dig, op.tags);
      } else {
        assert Preserves(w, before, after[name]);
        CompleteStays(w, before, after[name]);
      }
    }
  }

  /** Starting from an empty registry, a tag is complete in every reachable state. */
  lemma {:induction false} RunKeepsComplete(w: World, cfg: Config, repos: Repositories, ops: seq<Op>, end: Repositories)
    requires SoundWorld(w) && cfg.immutableTags && !cfg.laxChildReferences
    requires Inv(w, repos) && AllComplete(w, repos) && Run(w, cfg, repos, ops, end)
    ensures AllComplete(w, end)
    decreases |ops|
  {
    if ops != [] {
      StepPreserves(w, cfg, repos, ops[0]);
      StepKeepsComplete(w, cfg, repos, ops[0]);
      RunKeepsComplete(w, cfg, Apply(w, cfg, repos, ops[0]).0, ops[1..], end);
    }
  }

  // What a successful push means for the tags it names.

  predicate TaggedAs(repo: Repository, tag: string, dig: Digest, mediaType: string) {
    tag in repo.tags && repo.tags[tag].digest == dig && repo.tags[tag].mediaType == mediaType
  }

  lemma {:induction false} StoppedAtSameTag(w: World, cfg: Config, repo: Repository, tags: seq<string>, dig: Digest,
                                            mediaType: string)
    requires CheckTags(w, cfg, repo, tags, dig, mediaType) == Some(Done)
    ensures exists t :: t in tags && TaggedAs(repo, t, dig, mediaType)
  {
    if CheckTag(w, cfg, repo, tags[0], dig, mediaType).Some? {
      assert tags[0] in tags && TaggedAs(repo, tags[0], dig, mediaType);
    } else {
      StoppedAtSameTag(w, cfg, repo, tags[1..], dig, mediaType);
      assert forall t :: t in tags[1..] ==> t in tags;
    }
  }

  /** A push that succeeds need not have set its tags: finding one that is set
      already ends it. They all name the manifest afterwards exactly when either
      all of them were new or all of them named it before. */
  lemma PushTagsExactly(w: World, cfg: Config, repo: Repository, data: Bytes, mediaType: string, dig: Digest,
                        tags: seq<string>)
    requires cfg.immutableTags && StoreManifest(w, cfg, repo, data, mediaType, dig, tags).1 == Done
    ensures var after := StoreManifest(w, cfg, repo, data, mediaType, dig, tags).0;
            (forall t :: t in tags ==> TaggedAs(after, t, dig, mediaType)) <==>
            (forall t :: t in tags ==> t !in repo.tags) || (forall t :: t in tags ==> TaggedAs(repo, t, dig, mediaType))
  {
    if CheckTags(w, cfg, repo, tags, dig, mediaType).Some? {
      StoppedAtSameTag(w, cfg, repo, tags, dig, mediaType);
    } else {
      CheckedTagsAreNew(w, cfg, repo, tags, dig, mediaType);
    }
  }

  /** For instance, a new tag after one that is set already is left out. */
  lemma PushSkipsLaterTag(w: World, cfg: Config, repo: Repository, data: Bytes, mediaType: string, dig: Digest,
                          present: string, later: string)
    requires cfg.immutableTags && w.validTag(present) && TaggedAs(repo, present, dig, mediaType) && later !in repo.tags
    ensures StoreManifest(w, cfg, repo, data, mediaType, dig, [present, later]) == (repo, Done)
  {
    assert CheckTag(w, cfg, repo, [present, later][0], dig, mediaType) == Some(Done);
  }

  // What is stored of content besides its bytes: the media type.

  /** The media type under which op stores manifest d in repository name, if it does. */
  function ManifestStored(w: World, cfg: Config, repos: Repositories, op: Op, name: string, d: Digest): Option<string> {
    if op.PushManifest? && op.repo == name && w.validName(name) && ManifestDigest(w, op.data, op.given) == Some(d) &&
       CheckTags(w, cfg, MakeRepo(repos, name)[name], op.tags, d, op.mediaType).None? &&
       op.mediaType != "" && w.validDigest(d) &&
       ReferencesOk(w, cfg, MakeRepo(repos, name)[name], op.mediaType, op.data)
    then Some(op.mediaType)
    else None
  }

  /** The same for blobs. */
  function BlobStored(w: World, repos: Repositories, op: Op, name: string, d: Digest): Option<string> {
    match op
    case PushBlob(repo, desc, data) =>
      if repo == name && desc.digest == d && DescriptorMatches(w, desc, data) &&
        w.validName(name) then Some(desc.mediaType)
      else None
    case CommitUpload(repo, digest, data) =>
      if repo == name && digest == d && w.validName(name) && w.hash(Algorithm(d), data) == d
      then Some("application/octet-stream")
      else None
    case MountBlob(from, to, digest) =>
      var repos1 := MakeRepo(repos, to);
      if to == name && digest == d && w.validName(name) && from in repos1 && d in repos1[from].blobs
      then Some(repos1[from].blobs[d].mediaType)
      else None
    case _ => None
  }

  lemma ManifestTypes(w: World, cfg: Config, repos: Repositories, op: Op, name: string, d: Digest)
    requires SoundWorld(w) && AllAddressed(w, repos) && Visits(repos, op) && name in repos && d in repos[name].manifests
    ensures var after, stored := Apply(w, cfg, repos, op).0, ManifestStored(w, cfg, repos, op, name, d);
            && name in after
            && (stored.Some? ==> d in after[name].manifests && after[name].manifests[d].mediaType == stored.value)
            && (stored.None? && d in after[name].manifests ==> after[name].manifests[d] == repos[name].manifests[d])
  {
  }

  lemma BlobTypes(w: World, cfg: Config, repos: Repositories, op: Op, name: string, d: Digest)
    requires SoundWorld(w) && AllAddressed(w, repos) && Visits(repos, op) && name in repos && d in repos[name].blobs
    ensures var after, stored := Apply(w, cfg, repos, op).0, BlobStored(w, repos, op, name, d);
            && name in after
            && (stored.Some? ==> d in after[name].blobs && after[name].blobs[d].mediaType == stored.value)
            && (stored.None? && d in after[name].blobs ==> after[name].blobs[d] == repos[name].blobs[d])
  {
  }

  /** A step leaves what is stored under a digest that a tag reaches exactly as it
      was, media type included, if and only if it does not store that digest in
      that repository under another media type. */
  lemma StepKeepsStored(w: World, cfg: Config, repos: Repositories, op: Op, name: string, d: Digest)
    requires SoundWorld(w) && cfg.immutableTags && Inv(w, repos) && Visits(repos, op)
    requires name in repos && TagReaches(w, repos[name], d)
    ensures AllAddressed(w, repos)
    ensures var before, after := repos[name], Apply(w, cfg, repos, op).0;
            && name in after
            && (d in before.manifests ==>
                  var stored := ManifestStored(w, cfg, repos, op, name, d);
                  d in after[name].manifests &&
                  (after[name].manifests[d] == before.manifests[d] <==>
                     stored.None? || stored.value == before.manifests[d].mediaType))
            && (d in before.blobs ==>
                  var stored := BlobStored(w, repos, op, name, d);
                  d in after[name].blobs &&
                  (after[name].blobs[d] == before.blobs[d] <==>
                     stored.None? || stored.value == before.blobs[d].mediaType))
  {
    StepPreserves(w, cfg, repos, op);
    if d in repos[name].manifests { ManifestTypes(w, cfg, repos, op, name, d); }
    if d in repos[name].blobs { BlobTypes(w, cfg, repos, op, name, d); }
  }

  /** For instance, pushing a tagged manifest's bytes again, without a tag and
      under a media type that is not looked into, leaves the tag and what is
      stored under its digest with different media types. */
  lemma StoredTypeChanges(w: World, cfg: Config, repo: Repository, tag: string, mediaType: string)
    requires tag in repo.tags && repo.tags[tag].digest in repo.manifests && w.validDigest(repo.tags[tag].digest)
    requires mediaType != "" && mediaType !in KNOWN_TYPES && mediaType != repo.tags[tag].mediaType
    ensures var d := repo.tags[tag].digest;
            var data := repo.manifests[d].data;
            var (after, outcome) := StoreManifest(w, cfg, repo, data, mediaType, d, []);
            && outcome == Done && TagReaches(w, repo, d)
            && after.tags == repo.tags && after.manifests[d] == Stored(mediaType, data)
            && after.manifests[d].mediaType != after.tags[tag].mediaType
  {
    var info := DescInfo(ManifestKind, repo.tags[tag]);
    assert TagPath(w, repo, repo.tags[tag].digest, [info]);
    assert References(w, mediaType, repo.manifests[repo.tags[tag].digest].data) == Some([]);
  }
}
