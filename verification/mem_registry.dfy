/** ocimem.Registry as the object it is. */
module MemRegistry {
  import opened Bytes
  import opened Mem
  import opened MemChanges
  import opened MemImmutable
  import opened MemOps

  class Registry {
    const w: World
    const cfg: Config
    var repos: Repositories

    /** Content is stored under its digest; with immutable tags, every tag's
        manifest is there. */
    ghost predicate Valid()
      reads this
    {
      SoundWorld(w) && AllAddressed(w, repos) && (cfg.immutableTags ==> Inv(w, repos))
    }

    /** What no method breaks. */
    ghost predicate Keeps(before: Repositories)
      reads this
    {
      Valid() && (cfg.immutableTags ==> AllPreserved(w, before, repos))
    }

    constructor (w: World, cfg: Config)
      requires SoundWorld(w)
      ensures Valid() && this.w == w && this.cfg == cfg && repos == map[]
    {
      this.w, this.cfg, repos := w, cfg, map[];
    }

    /** makeRepo, after the name has been checked. */
    method EnsureRepo(name: string)
      modifies this
      ensures repos == MakeRepo(old(repos), name)
    {
      if name !in repos {
        repos := repos[name := NEW_REPOSITORY];
      }
    }

    /** PushBlob */
    method PushBlob(name: string, desc: Descriptor, data: Bytes) returns (outcome: Outcome)
      requires Valid()
      modifies this
      ensures Keeps(old(repos))
      ensures (repos, outcome) == Apply(w, cfg, old(repos), Op.PushBlob(name, desc, data))
      ensures outcome == Done <==>
                && w.validDigest(desc.digest) && w.hash(Algorithm(desc.digest), data) == desc.digest
                && desc.size == |data| && desc.mediaType != "" && w.validName(name)
      ensures outcome == Done ==> OnlyBlob(old(repos), repos, name, desc.digest, Some(Stored(desc.mediaType, data)))
      ensures outcome != Done ==> repos == old(repos)
    {
      StepKeeps(w, cfg, repos, Op.PushBlob(name, desc, data));
      if !DescriptorMatches(w, desc, data) { return Refused(DescriptorInvalid); }
      if !w.validName(name) { return Refused(NameInvalid); }
      EnsureRepo(name);
      var repo := repos[name];
      repos := repos[name := repo.(blobs := repo.blobs[desc.digest := Stored(desc.mediaType, data)])];
      return Done;
    }

    /** A chunked upload, from the registry's side: the repository is made when
        the upload starts, the blob is stored when it is committed. */
    method CommitUpload(name: string, digest: Digest, data: Bytes) returns (outcome: Outcome)
      requires Valid()
      modifies this
      ensures Keeps(old(repos))
      ensures (repos, outcome) == Apply(w, cfg, old(repos), Op.CommitUpload(name, digest, data))
      ensures outcome == Done <==> w.validName(name) && w.hash(Algorithm(digest), data) == digest
      ensures outcome == Done ==>
                OnlyBlob(old(repos), repos, name, digest, Some(Stored("application/octet-stream", data)))
      ensures outcome != Done ==> SameContent(old(repos), repos)
    {
      StepKeeps(w, cfg, repos, Op.CommitUpload(name, digest, data));
      if !w.validName(name) { return Refused(NameInvalid); }
      EnsureRepo(name);
      if w.hash(Algorithm(digest), data) != digest { return Refused(DigestInvalid); }
      var repo := repos[name];
      repos := repos[name := repo.(blobs := repo.blobs[digest := Stored("application/octet-stream", data)])];
      return Done;
    }

    /** MountBlob */
    method MountBlob(from: string, to: string, digest: Digest) returns (outcome: Outcome)
      requires Valid()
      modifies this
      ensures Keeps(old(repos))
      ensures (repos, outcome) == Apply(w, cfg, old(repos), Op.MountBlob(from, to, digest))
      ensures outcome == Done <==>
                w.validName(to) && from in old(repos) && digest in old(repos)[from].blobs
      ensures outcome == Done ==> OnlyBlob(old(repos), repos, to, digest, Some(old(repos)[from].blobs[digest]))
      ensures outcome != Done ==> SameContent(old(repos), repos)
    {
      StepKeeps(w, cfg, repos, Op.MountBlob(from, to, digest));
      if !w.validName(to) { return Refused(NameInvalid); }
      EnsureRepo(to);
      if from !in repos { return Refused(NameUnknown); }
      if digest !in repos[from].blobs { return Refused(BlobUnknown); }
      var repo := repos[to];
      repos := repos[to := repo.(blobs := repo.blobs[digest := repos[from].blobs[digest]])];
      return Done;
    }

    /** The loop of PushManifest that looks at the tags before storing. */
    method LookAtTags(repo: Repository, tags: seq<string>, dig: Digest, mediaType: string)
      returns (stop: Option<Outcome>)
      ensures stop == CheckTags(w, cfg, repo, tags, dig, mediaType)
    {
      for i := 0 to |tags|
        invariant CheckTags(w, cfg, repo, tags, dig, mediaType) == CheckTags(w, cfg, repo, tags[i..], dig, mediaType)
      {
        var tag := tags[i];
        assert tags[i..][1..] == tags[i + 1..];
        if !w.validTag(tag) { return Some(Refused(TagInvalid)); }
        if cfg.immutableTags {
          if tag in repo.tags {
            var currDesc := repo.tags[tag];
            if dig == currDesc.digest {
              if currDesc.mediaType != mediaType { return Some(Refused(Denied)); }
              return Some(Done);
            }
            return Some(Refused(Denied));
          }
        }
      }
      return None;
    }

    /** checkManifestReferences */
    method CheckReferences(repo: Repository, mediaType: string, data: Bytes) returns (ok: bool)
      ensures ok == ReferencesOk(w, cfg, repo, mediaType, data)
    {
      var infos := References(w, mediaType, data);
      if infos.None? { return false; }
      if cfg.laxChildReferences { return true; }
      for i := 0 to |infos.value|
        invariant forall j :: 0 <= j < i ==> ReferencePresent(w, repo, infos.value[j])
      {
        var info := infos.value[i];
        assert info in infos.value;
        if !DescriptorSane(w, info.desc) { return false; }
        match info.kind {
          case BlobKind =>
            if info.desc.hasURLs { continue; }
            if info.desc.digest !in repo.blobs { return false; }
          case ManifestKind =>
            if info.desc.digest !in repo.manifests { return false; }
          case SubjectManifest =>
        }
      }
      return true;
    }

    /** PushManifest, from the digest on. */
    method PushDigested(name: string, data: Bytes, mediaType: string, dig: Digest, tags: seq<string>)
      returns (outcome: Outcome)
      requires name in repos
      modifies this
      ensures var (repo, result) := StoreManifest(w, cfg, old(repos)[name], data, mediaType, dig, tags);
              repos == old(repos)[name := repo] && outcome == result
    {
      var repo := repos[name];
      assert repos[name := repo] == repos;
      var desc := Descriptor(dig, mediaType, |data|, false);
      var stop := LookAtTags(repo, tags, dig, mediaType);
      if stop.Some? { return stop.value; }
      if mediaType == "" || !w.validDigest(dig) { return Refused(DescriptorInvalid); }
      var ok := CheckReferences(repo, mediaType, data);
      if !ok { return Refused(ManifestInvalid); }
      var newTags := repo.tags;
      for i := 0 to |tags|
        invariant newTags == WithTags(repo.tags, tags[..i], desc)
      {
        assert tags[..i + 1][..i] == tags[..i];
        newTags := newTags[tags[i] := desc];
      }
      assert tags[..|tags|] == tags;
      repos := repos[name := repo.(manifests := repo.manifests[dig := Stored(mediaType, data)], tags := newTags)];
      return Done;
    }

    /** PushManifest */
    method PushManifest(name: string, data: Bytes, mediaType: string, given: Option<Digest>, tags: seq<string>)
      returns (outcome: Outcome)
      requires Valid()
      modifies this
      ensures Keeps(old(repos))
      ensures (repos, outcome) == Apply(w, cfg, old(repos), Op.PushManifest(name, data, mediaType, given, tags))
      ensures PushMeaning(w, cfg, old(repos), name, data, mediaType, given, tags, repos, outcome)
    {
      StepKeeps(w, cfg, repos, Op.PushManifest(name, data, mediaType, given, tags));
      PushIsExact(w, cfg, repos, name, data, mediaType, given, tags);
      if !w.validName(name) { return Refused(NameInvalid); }
      EnsureRepo(name);
      var dig := w.hash(CANONICAL, data);
      if given.Some? {
        if !w.validDigest(given.value) { return Refused(DigestInvalid); }
        if w.hash(Algorithm(given.value), data) != given.value { return Refused(DigestInvalid); }
        dig := given.value;
      }
      outcome := PushDigested(name, data, mediaType, dig, tags);
    }

    /** repoTagIter, run to its end. */
    method RepoTagIter(repo: Repository, order: seq<string>) returns (items: seq<DescInfo>)
      requires forall t :: t in order ==> t in repo.tags
      ensures items == TagItems(repo, order)
    {
      items := [];
      for i := 0 to |order|
        invariant items == TagItems(repo, order)[..i]
      {
        items := items + [DescInfo(ManifestKind, repo.tags[order[i]])];
      }
    }

    /** refersTo: whether digest is reachable from the items, by a walk over the
        references of the manifests that are present. */
    method RefersToAny(repo: Repository, items: seq<DescInfo>, digest: Digest) returns (found: Option<bool>)
      requires SoundWorld(w) && Addressed(w, repo)
      ensures found == RefersTo(w, repo, items, digest)
      ensures found == Some(true) ==> Reaches(w, repo, items, digest)
      ensures found == Some(false) ==> !Reaches(w, repo, items, digest)
      ensures found == None ==> LeadsToUndecodable(w, repo, items)
      decreases Level(w, items)
    {
      RefersToIsReachability(w, repo, items, digest);
      RefersToFailure(w, repo, items, digest);
      for i := 0 to |items|
        invariant RefersTo(w, repo, items, digest) == RefersTo(w, repo, items[i..], digest)
        invariant Level(w, items[i..]) <= Level(w, items)
      {
        var info := items[i];
        assert items[i..][0] == info && items[i..][1..] == items[i + 1..];
        LevelDescends(w, repo, items[i..]);
        if info.desc.digest == digest { return Some(true); }
        if info.kind.BlobKind? || info.desc.digest !in repo.manifests { continue; }
        var refs := References(w, info.desc.mediaType, repo.manifests[info.desc.digest].data);
        if refs.None? { return None; }
        var below := RefersToAny(repo, refs.value, digest);
        if below != Some(false) { return below; }
      }
      return Some(false);
    }

    /** The guard of both deletions. */
    method LookForReferences(repo: Repository, digest: Digest, order: seq<string>) returns (problem: Option<Error>)
      requires SoundWorld(w) && Addressed(w, repo) && VisitsTags(repo, order)
      ensures problem == Guard(w, cfg, repo, order, digest)
      ensures problem.None? ==> !cfg.immutableTags || !TagReaches(w, repo, digest)
      ensures problem == Some(Denied) ==> cfg.immutableTags && TagReaches(w, repo, digest)
      ensures problem == Some(Undecoded) ==> cfg.immutableTags && LeadsToUndecodable(w, repo, TagItems(repo, order))
      ensures problem.Some? ==> problem.value == Denied || problem.value == Undecoded
    {
      if !cfg.immutableTags { return None; }
      GuardedIsUnreachable(w, cfg, repo, order, digest);
      var items := RepoTagIter(repo, order);
      var referred := RefersToAny(repo, items, digest);
      if referred.None? { return Some(Undecoded); }
      if referred.value { return Some(Denied); }
      return None;
    }

    /** DeleteBlob */
    method DeleteBlob(name: string, digest: Digest, order: seq<string>) returns (outcome: Outcome)
      requires Valid() && Visits(repos, Op.DeleteBlob(name, digest, order))
      modifies this
      ensures Keeps(old(repos))
      ensures (repos, outcome) == Apply(w, cfg, old(repos), Op.DeleteBlob(name, digest, order))
      ensures outcome == Done ==>
                && name in old(repos) && digest in old(repos)[name].blobs
                && OnlyBlob(old(repos), repos, name, digest, None)
                && (cfg.immutableTags ==> !TagReaches(w, old(repos)[name], digest))
      ensures outcome == Refused(NameUnknown) <==> name !in old(repos)
      ensures outcome == Refused(BlobUnknown) <==> name in old(repos) && digest !in old(repos)[name].blobs
      ensures outcome == Refused(Denied) ==> cfg.immutableTags && TagReaches(w, old(repos)[name], digest)
      ensures outcome == Refused(Undecoded) ==>
                cfg.immutableTags && LeadsToUndecodable(w, old(repos)[name], TagItems(old(repos)[name], order))
      ensures outcome in {Done, Refused(NameUnknown), Refused(BlobUnknown), Refused(Denied), Refused(Undecoded)}
      ensures outcome != Done ==> repos == old(repos)
    {
      StepKeeps(w, cfg, repos, Op.DeleteBlob(name, digest, order));
      if name !in repos { return Refused(NameUnknown); }
      var repo := repos[name];
      if digest !in repo.blobs { return Refused(BlobUnknown); }
      var problem := LookForReferences(repo, digest, order);
      if problem.Some? { return Refused(problem.value); }
      repos := repos[name := repo.(blobs := repo.blobs - {digest})];
      return Done;
    }

    /** DeleteManifest */
    method DeleteManifest(name: string, digest: Digest, order: seq<string>) returns (outcome: Outcome)
      requires Valid() && Visits(repos, Op.DeleteManifest(name, digest, order))
      modifies this
      ensures Keeps(old(repos))
      ensures (repos, outcome) == Apply(w, cfg, old(repos), Op.DeleteManifest(name, digest, order))
      ensures outcome == Done ==>
                && name in old(repos) && digest in old(repos)[name].manifests
                && OnlyManifest(old(repos), repos, name, digest, None)
                && (cfg.immutableTags ==> !TagReaches(w, old(repos)[name], digest))
      ensures outcome == Refused(NameUnknown) <==> name !in old(repos)
      ensures outcome == Refused(ManifestUnknown) <==> name in old(repos) && digest !in old(repos)[name].manifests
      ensures outcome == Refused(Denied) ==> cfg.immutableTags && TagReaches(w, old(repos)[name], digest)
      ensures outcome == Refused(Undecoded) ==>
                cfg.immutableTags && LeadsToUndecodable(w, old(repos)[name], TagItems(old(repos)[name], order))
      ensures outcome in {Done, Refused(NameUnknown), Refused(ManifestUnknown), Refused(Denied), Refused(Undecoded)}
      ensures outcome != Done ==> repos == old(repos)
    {
      StepKeeps(w, cfg, repos, Op.DeleteManifest(name, digest, order));
      if name !in repos { return Refused(NameUnknown); }
      var repo := repos[name];
      if digest !in repo.manifests { return Refused(ManifestUnknown); }
      var problem := LookForReferences(repo, digest, order);
      if problem.Some? { return Refused(problem.value); }
      repos := repos[name := repo.(manifests := repo.manifests - {digest})];
      return Done;
    }

    /** DeleteTag */
    method DeleteTag(name: string, tag: string) returns (outcome: Outcome)
      requires Valid()
      modifies this
      ensures Keeps(old(repos))
      ensures (repos, outcome) == Apply(w, cfg, old(repos), Op.DeleteTag(name, tag))
      ensures outcome == Done <==> !cfg.immutableTags && name in old(repos) && tag in old(repos)[name].tags
      ensures outcome == Done ==> OnlyTagRemoved(old(repos), repos, name, tag)
      ensures outcome != Done ==> repos == old(repos)
    {
      StepKeeps(w, cfg, repos, Op.DeleteTag(name, tag));
      if name !in repos { return Refused(NameUnknown); }
      var repo := repos[name];
      if tag !in repo.tags { return Refused(ManifestUnknown); }
      if cfg.immutableTags { return Refused(Denied); }
      repos := repos[name := repo.(tags := repo.tags - {tag})];
      return Done;
    }
  }

  lemma StepKeeps(w: World, cfg: Config, repos: Repositories, op: Op)
    requires SoundWorld(w) && AllAddressed(w, repos) && (cfg.immutableTags ==> Inv(w, repos)) && Visits(repos, op)
    ensures AllAddressed(w, Apply(w, cfg, repos, op).0)
    ensures cfg.immutableTags ==>
              Inv(w, Apply(w, cfg, repos, op).0) && AllPreserved(w, repos, Apply(w, cfg, repos, op).0)
  {
    StepKeepsAddressed(w, cfg, repos, op);
    if cfg.immutableTags { StepPreserves(w, cfg, repos, op); }
  }
}
