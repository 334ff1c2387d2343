/** ocimem: what an operation leaves alone, and what a pushed manifest changes,
    each in terms of the registry before and after. */
module MemChanges {
  import opened Bytes
  import opened Mem
  import opened MemImmutable
  import opened MemOps

  // What an operation leaves alone.

  function RepoOf(repos: Repositories, name: string): Repository {
    if name in repos then repos[name] else NEW_REPOSITORY
  }

  /** Only an empty repository may have been added. */
  ghost predicate SameContent(before: Repositories, after: Repositories) {
    && (forall name :: name in before ==> name in after)
    && forall name :: name in after ==> after[name] == RepoOf(before, name)
  }

  ghost predicate OthersSame(before: Repositories, after: Repositories, name: string) {
    && name in after
    && (forall other :: other != name ==> (other in after <==> other in before))
    && (forall other :: other in before && other != name ==> after[other] == before[other])
  }

  /** Of content, only what is stored under digest may differ. */
  ghost predicate OnlyKey(before: map<Digest, Stored>, after: map<Digest, Stored>, digest: Digest,
                          now: Option<Stored>) {
    && (if now.Some? then digest in after && after[digest] == now.value else digest !in after)
    && (forall d :: d != digest ==> (d in after <==> d in before))
    && (forall d :: d in before && d != digest ==> after[d] == before[d])
  }

  ghost predicate OnlyBlob(before: Repositories, after: Repositories, name: string, digest: Digest,
                           now: Option<Stored>) {
    var was := RepoOf(before, name);
    && OthersSame(before, after, name)
    && after[name].tags == was.tags && after[name].manifests == was.manifests
    && OnlyKey(was.blobs, after[name].blobs, digest, now)
  }

  ghost predicate OnlyManifest(before: Repositories, after: Repositories, name: string, digest: Digest,
                               now: Option<Stored>)
  {
    var was := RepoOf(before, name);
    && OthersSame(before, after, name)
    && after[name].tags == was.tags && after[name].blobs == was.blobs
    && OnlyKey(was.manifests, after[name].manifests, digest, now)
  }

  ghost predicate OnlyTagRemoved(before: Repositories, after: Repositories, name: string, tag: string) {
    var was := RepoOf(before, name);
    && OthersSame(before, after, name)
    && after[name].blobs == was.blobs && after[name].manifests == was.manifests
    && tag !in after[name].tags
    && (forall t :: t in was.tags && t != tag ==> t in after[name].tags && after[name].tags[t] == was.tags[t])
    && (forall t :: t in after[name].tags ==> t in was.tags)
  }

  // Pushing a manifest, by what the caller asks for.

  /** The digest that the pushed manifest gets. */
  function DigestOf(w: World, data: Bytes, given: Option<Digest>): Digest {
    if given.Some? then given.value else w.hash("sha256", data)
  }

  predicate DigestGood(w: World, data: Bytes, given: Option<Digest>) {
    given.Some? ==> w.validDigest(given.value) && w.hash(Algorithm(given.value), data) == given.value
  }

  /** A tag at which the push does not go on: it is no tag, or it is taken and
      tags are immutable. */
  predicate Halts(w: World, cfg: Config, repo: Repository, tag: string) {
    !w.validTag(tag) || (cfg.immutableTags && tag in repo.tags)
  }

  /** The i-th tag is the first of those. */
  ghost predicate HaltsAt(w: World, cfg: Config, repo: Repository, tags: seq<string>, i: nat) {
    i < |tags| && Halts(w, cfg, repo, tags[i]) && forall j: nat :: j < i ==> !Halts(w, cfg, repo, tags[j])
  }

  ghost predicate AllFree(w: World, cfg: Config, repo: Repository, tags: seq<string>) {
    forall t :: t in tags ==> w.validTag(t) && (cfg.immutableTags ==> t !in repo.tags)
  }

  /** The first tag that halts the push names this manifest already. */
  ghost predicate TaggedAlready(w: World, cfg: Config, repo: Repository, tags: seq<string>, dig: Digest,
                                mediaType: string)
  {
    exists i: nat :: HaltsAt(w, cfg, repo, tags, i) && w.validTag(tags[i]) && TaggedAs(repo, tags[i], dig, mediaType)
  }

  /** The first tag that halts the push names something else. */
  ghost predicate TaggedOtherwise(w: World, cfg: Config, repo: Repository, tags: seq<string>, dig: Digest,
                                  mediaType: string)
  {
    exists i: nat :: HaltsAt(w, cfg, repo, tags, i) && w.validTag(tags[i]) && !TaggedAs(repo, tags[i], dig, mediaType)
  }

  ghost predicate BadTag(w: World, cfg: Config, repo: Repository, tags: seq<string>) {
    exists i: nat :: HaltsAt(w, cfg, repo, tags, i) && !w.validTag(tags[i])
  }

  /** A descriptor has a good digest and a media type, and only what is empty has
      size 0. */
  predicate IsSane(w: World, desc: Descriptor) {
    && w.validDigest(desc.digest) && desc.mediaType != ""
    && (desc.size != 0 || w.hash(Algorithm(desc.digest), []) == desc.digest)
  }

  /** What the content names can be read, and is present unless that is not asked
      for. */
  ghost predicate NamesPresent(w: World, cfg: Config, repo: Repository, mediaType: string, data: Bytes) {
    && (LookedInto(mediaType) ==> w.decode(mediaType, data).Some?)
    && (cfg.laxChildReferences ||
        forall info :: Names(w, mediaType, data, info) ==> IsSane(w, info.desc) && ChildPresent(repo, info))
  }

  /** The manifest is there, exactly the given tags name it newly, and everything
      else is as it was. */
  ghost predicate Pushed(before: Repositories, after: Repositories, name: string, dig: Digest, data: Bytes,
                         mediaType: string, tags: seq<string>)
  {
    var was := RepoOf(before, name);
    && OthersSame(before, after, name)
    && after[name].blobs == was.blobs
    && OnlyKey(was.manifests, after[name].manifests, dig, Some(Stored(mediaType, data)))
    && (forall t :: t in tags ==>
          t in after[name].tags && after[name].tags[t] == Descriptor(dig, mediaType, |data|, false))
    && (forall t :: t !in tags ==> (t in after[name].tags <==> t in was.tags))
    && (forall t :: t !in tags && t in was.tags ==> after[name].tags[t] == was.tags[t])
  }

  /** A push is done exactly when its name and digest are good and either a tag
      names the manifest already, or the tags are free and the content is good;
      only then is anything stored. */
  ghost predicate PushDone(w: World, cfg: Config, before: Repositories, name: string, data: Bytes, mediaType: string,
                           given: Option<Digest>, tags: seq<string>, after: Repositories, outcome: Outcome)
  {
    var repo, dig := RepoOf(before, name), DigestOf(w, data, given);
    var stores := AllFree(w, cfg, repo, tags) && mediaType != "" && w.validDigest(dig) &&
                  NamesPresent(w, cfg, repo, mediaType, data);
    && (outcome == Done <==>
          && w.validName(name) && DigestGood(w, data, given)
          && (TaggedAlready(w, cfg, repo, tags, dig, mediaType) || stores))
    && (outcome == Done && stores ==> Pushed(before, after, name, dig, data, mediaType, tags))
    && (outcome == Done && !stores ==> SameContent(before, after))
  }

  /** A push that is refused stores nothing, and the error says why. */
  ghost predicate PushRefused(w: World, cfg: Config, before: Repositories, name: string, data: Bytes,
                              mediaType: string, given: Option<Digest>, tags: seq<string>, after: Repositories,
                              outcome: Outcome)
  {
    var repo, dig := RepoOf(before, name), DigestOf(w, data, given);
    var known := w.validName(name) && DigestGood(w, data, given);
    && (outcome != Done ==> SameContent(before, after))
    && (outcome == Refused(NameInvalid) <==> !w.validName(name))
    && (outcome == Refused(DigestInvalid) <==> w.validName(name) && !DigestGood(w, data, given))
    && (outcome == Refused(TagInvalid) <==> known && BadTag(w, cfg, repo, tags))
    && (outcome == Refused(Denied) <==> known && TaggedOtherwise(w, cfg, repo, tags, dig, mediaType))
    && (outcome == Refused(DescriptorInvalid) <==>
          known && AllFree(w, cfg, repo, tags) && (mediaType == "" || !w.validDigest(dig)))
    && (outcome == Refused(ManifestInvalid) <==>
          && known && AllFree(w, cfg, repo, tags) && mediaType != "" && w.validDigest(dig)
          && !NamesPresent(w, cfg, repo, mediaType, data))
  }

  lemma {:induction false} CheckTagsFindsTheFirst(w: World, cfg: Config, repo: Repository, tags: seq<string>,
                                                  dig: Digest, mediaType: string)
    ensures var stop := CheckTags(w, cfg, repo, tags, dig, mediaType);
            if stop.None? then AllFree(w, cfg, repo, tags)
            else exists i: nat :: HaltsAt(w, cfg, repo, tags, i) &&
                                  stop == CheckTag(w, cfg, repo, tags[i], dig, mediaType)
  {
    if tags != [] {
      if Halts(w, cfg, repo, tags[0]) {
        assert HaltsAt(w, cfg, repo, tags, 0);
      } else {
        CheckTagsFindsTheFirst(w, cfg, repo, tags[1..], dig, mediaType);
        if CheckTags(w, cfg, repo, tags[1..], dig, mediaType).Some? {
          var i: nat :| HaltsAt(w, cfg, repo, tags[1..], i) &&
                        CheckTags(w, cfg, repo, tags[1..], dig, mediaType) ==
                        CheckTag(w, cfg, repo, tags[1..][i], dig, mediaType);
          forall j: nat | j < i + 1 ensures !Halts(w, cfg, repo, tags[j]) {
            if j > 0 { assert !Halts(w, cfg, repo, tags[1..][j - 1]); }
          }
          assert HaltsAt(w, cfg, repo, tags, i + 1);
        } else {
          assert tags == [tags[0]] + tags[1..];
        }
      }
    }
  }

  /** There is only one first tag. */
  lemma TheFirstIsUnique(w: World, cfg: Config, repo: Repository, tags: seq<string>, i: nat, j: nat)
    requires HaltsAt(w, cfg, repo, tags, i) && HaltsAt(w, cfg, repo, tags, j)
    ensures i == j
  {
  }

  /** The tag loop of PushManifest in those terms. */
  ghost predicate StopMeans(w: World, cfg: Config, repo: Repository, tags: seq<string>, dig: Digest,
                            mediaType: string, stop: Option<Outcome>)
  {
    && (stop == None <==> AllFree(w, cfg, repo, tags))
    && (stop == Some(Done) <==> TaggedAlready(w, cfg, repo, tags, dig, mediaType))
    && (stop == Some(Refused(Denied)) <==> TaggedOtherwise(w, cfg, repo, tags, dig, mediaType))
    && (stop == Some(Refused(TagInvalid)) <==> BadTag(w, cfg, repo, tags))
    && (stop.Some? ==> stop.value in {Done, Refused(Denied), Refused(TagInvalid)})
  }

  lemma {:induction false} CheckTagsMeaning(w: World, cfg: Config, repo: Repository, tags: seq<string>, dig: Digest, mediaType: string)
    ensures StopMeans(w, cfg, repo, tags, dig, mediaType, CheckTags(w, cfg, repo, tags, dig, mediaType))
  {
    var stop := CheckTags(w, cfg, repo, tags, dig, mediaType);
    CheckTagsFindsTheFirst(w, cfg, repo, tags, dig, mediaType);
    if stop.None? {
      forall i: nat ensures !HaltsAt(w, cfg, repo, tags, i) {
        if i < |tags| { assert tags[i] in tags; }
      }
    } else {
      var i: nat :| HaltsAt(w, cfg, repo, tags, i) && stop == CheckTag(w, cfg, repo, tags[i], dig, mediaType);
      assert tags[i] in tags;
      forall j: nat | HaltsAt(w, cfg, repo, tags, j) ensures j == i {
        TheFirstIsUnique(w, cfg, repo, tags, i, j);
      }
    }
  }

  lemma ReferencesOkMeaning(w: World, cfg: Config, repo: Repository, mediaType: string, data: Bytes)
    ensures ReferencesOk(w, cfg, repo, mediaType, data) <==> NamesPresent(w, cfg, repo, mediaType, data)
  {
    ReferencesAreTheNames(w, mediaType, data);
  }

  /** The repositories after a manifest is stored. */
  function AfterStore(repos: Repositories, name: string, dig: Digest, data: Bytes, mediaType: string,
                      tags: seq<string>): Repositories
  {
    var repo := RepoOf(repos, name);
    var desc := Descriptor(dig, mediaType, |data|, false);
    repos[name := repo.(manifests := repo.manifests[dig := Stored(mediaType, data)],
                        tags := WithTags(repo.tags, tags, desc))]
  }

  lemma StoredIsPushed(repos: Repositories, name: string, dig: Digest, data: Bytes, mediaType: string,
                       tags: seq<string>)
    ensures Pushed(repos, AfterStore(repos, name, dig, data, mediaType, tags), name, dig, data, mediaType, tags)
  {
  }

  /** PushManifest on a good name and digest, by what its two checks say. */
  lemma PushUnfolds(w: World, cfg: Config, repos: Repositories, name: string, data: Bytes, mediaType: string,
                    given: Option<Digest>, tags: seq<string>)
    requires SoundWorld(w) && AllAddressed(w, repos) && w.validName(name) && DigestGood(w, data, given)
    ensures var repo, dig := RepoOf(repos, name), DigestOf(w, data, given);
            var stop := CheckTags(w, cfg, repo, tags, dig, mediaType);
            Apply(w, cfg, repos, PushManifest(name, data, mediaType, given, tags)) ==
            if stop.Some? then (repos[name := repo], stop.value)
            else if mediaType == "" || !w.validDigest(dig) then (repos[name := repo], Refused(DescriptorInvalid))
            else if !ReferencesOk(w, cfg, repo, mediaType, data) then (repos[name := repo], Refused(ManifestInvalid))
            else (AfterStore(repos, name, dig, data, mediaType, tags), Done)
  {
    var repo, dig := RepoOf(repos, name), DigestOf(w, data, given);
    assert MakeRepo(repos, name)[name] == repo && ManifestDigest(w, data, given) == Some(dig);
    var stored := StoreManifest(w, cfg, repo, data, mediaType, dig, tags).0;
    assert MakeRepo(repos, name)[name := stored] == repos[name := stored];
  }

  ghost predicate PushMeaning(w: World, cfg: Config, before: Repositories, name: string, data: Bytes,
                              mediaType: string, given: Option<Digest>, tags: seq<string>, after: Repositories,
                              outcome: Outcome)
  {
    && PushDone(w, cfg, before, name, data, mediaType, given, tags, after, outcome)
    && PushRefused(w, cfg, before, name, data, mediaType, given, tags, after, outcome)
  }

  lemma StoppedPush(w: World, cfg: Config, repos: Repositories, name: string, data: Bytes, mediaType: string,
                    given: Option<Digest>, tags: seq<string>, stop: Option<Outcome>)
    requires w.validName(name) && DigestGood(w, data, given) && stop.Some?
    requires StopMeans(w, cfg, RepoOf(repos, name), tags, DigestOf(w, data, given), mediaType, stop)
    ensures var after := repos[name := RepoOf(repos, name)];
            PushMeaning(w, cfg, repos, name, data, mediaType, given, tags, after, stop.value)
  {
  }

  lemma UnstoppedPush(w: World, cfg: Config, repos: Repositories, name: string, data: Bytes, mediaType: string,
                      given: Option<Digest>, tags: seq<string>, after: Repositories, outcome: Outcome)
    requires w.validName(name) && DigestGood(w, data, given)
    requires StopMeans(w, cfg, RepoOf(repos, name), tags, DigestOf(w, data, given), mediaType, None)
    requires var dig := DigestOf(w, data, given);
             if mediaType != "" && w.validDigest(dig) && NamesPresent(w, cfg, RepoOf(repos, name), mediaType, data)
             then outcome == Done && Pushed(repos, after, name, dig, data, mediaType, tags)
             else
               && after == repos[name := RepoOf(repos, name)]
               && outcome == Refused(if mediaType == "" || !w.validDigest(dig) then DescriptorInvalid
                                     else ManifestInvalid)
    ensures PushMeaning(w, cfg, repos, name, data, mediaType, given, tags, after, outcome)
  {
  }

  lemma PushIsExact(w: World, cfg: Config, repos: Repositories, name: string, data: Bytes, mediaType: string,
                    given: Option<Digest>, tags: seq<string>)
    requires SoundWorld(w) && AllAddressed(w, repos)
    ensures var (after, outcome) := Apply(w, cfg, repos, PushManifest(name, data, mediaType, given, tags));
            PushMeaning(w, cfg, repos, name, data, mediaType, given, tags, after, outcome)
  {
    var repo, dig := RepoOf(repos, name), DigestOf(w, data, given);
    var (after, outcome) := Apply(w, cfg, repos, PushManifest(name, data, mediaType, given, tags));
    if w.validName(name) && DigestGood(w, data, given) {
      var stop := CheckTags(w, cfg, repo, tags, dig, mediaType);
      PushUnfolds(w, cfg, repos, name, data, mediaType, given, tags);
      CheckTagsMeaning(w, cfg, repo, tags, dig, mediaType);
      if stop.Some? {
        StoppedPush(w, cfg, repos, name, data, mediaType, given, tags, stop);
      } else {
        ReferencesOkMeaning(w, cfg, repo, mediaType, data);
        StoredIsPushed(repos, name, dig, data, mediaType, tags);
        UnstoppedPush(w, cfg, repos, name, data, mediaType, given, tags, after, outcome);
      }
    }
  }
}
