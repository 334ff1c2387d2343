/** ocilayout: the list in index.json as a map from references to manifests. */
module LayoutIndex {
  import opened Bytes
  import opened Text
  import opened Names

  /** An index entry. No annotation counts as the empty reference name. */
  datatype Entry = Entry(digest: Digest, mediaType: string, refName: string)

  datatype Config = Config(defaultRepo: string, validDigest: Digest -> bool)

  /** refFor */
  function RefFor(repo: string, tag: string, digest: Digest): string {
    if tag == "" then repo + "@" + digest else repo + ":" + tag
  }

  /** parseFullRef */
  function ParseFullRef(cfg: Config, ref: string): Option<(string, string)> {
    var (name, digest, hasDigest) := Cut(ref, '@');
    if hasDigest && !cfg.validDigest(digest) then None
    else if IsValidRepository(name) then Some((name, ""))
    else
      var i := LastColon(name);
      if i <= 0 then None
      else if !IsValidRepository(name[..i]) || !IsValidTag(name[i + 1..]) then None
      else Some((name[..i], name[i + 1..]))
  }

  /** parseRef */
  function ParseRef(cfg: Config, ref: string): Option<(string, string)> {
    if ref == "" then (if cfg.defaultRepo == "" then None else Some((cfg.defaultRepo, "")))
    else if IsValidTag(ref) && '/' !in ref && ':' !in ref then
      if cfg.defaultRepo != "" then Some((cfg.defaultRepo, ref)) else None
    else ParseFullRef(cfg, ref)
  }

  lemma DigestRefReadsBack(cfg: Config, repo: string, digest: Digest)
    requires IsValidRepository(repo) && cfg.validDigest(digest)
    ensures ParseRef(cfg, repo + "@" + digest) == Some((repo, ""))
  {
    RepositoryChars(repo);
    var ref := repo + "@" + digest;
    assert ref == repo + ['@'] + digest;
    assert ref[|repo|] == '@';
    CutAt(repo, '@', digest);
    if IsValidTag(ref) { TagChars(ref); }
  }

  lemma TagRefReadsBack(cfg: Config, repo: string, tag: string)
    requires IsValidRepository(repo) && IsValidTag(tag)
    ensures ParseRef(cfg, repo + ":" + tag) == Some((repo, tag))
  {
    RepositoryChars(repo);
    TagChars(tag);
    var ref := repo + ":" + tag;
    assert ref[|repo|] == ':';
    assert '@' !in ref;
    assert Cut(ref, '@') == (ref, "", false);
    if IsValidRepository(ref) { RepositoryChars(ref); }
    LastColonAt(repo, tag);
    assert ref[..|repo|] == repo && ref[|repo| + 1..] == tag;
  }

  /** Reference names read back as what they were made from, in any configuration. */
  lemma RefReadsBack(cfg: Config, repo: string, tag: string, digest: Digest)
    requires IsValidRepository(repo) && (tag == "" || IsValidTag(tag)) && cfg.validDigest(digest)
    ensures ParseRef(cfg, RefFor(repo, tag, digest)) == Some((repo, tag))
  {
    if tag == "" {
      DigestRefReadsBack(cfg, repo, digest);
    } else {
      TagRefReadsBack(cfg, repo, tag);
    }
  }

  /** Without a repository in it, a reference name is read in the default one, and
      refused when there is none. */
  lemma BareNamesNeedADefault(cfg: Config, tag: string)
    requires tag == "" || IsValidTag(tag)
    ensures ParseRef(cfg, tag) == if cfg.defaultRepo == "" then None else Some((cfg.defaultRepo, tag))
  {
    if tag != "" { TagChars(tag); }
  }

  /** What follows the tag: nothing, or a good digest. */
  predicate IsDigestMark(cfg: Config, mark: string) {
    mark == "" || (mark[0] == '@' && cfg.validDigest(mark[1..]))
  }

  predicate SpellsFullRef(cfg: Config, ref: string, repo: string, tag: string, mark: string) {
    && ref == repo + (if tag == "" then "" else ":" + tag) + mark
    && IsValidRepository(repo) && (tag == "" || IsValidTag(tag)) && IsDigestMark(cfg, mark)
  }

  lemma SpelledNameIsRead(cfg: Config, name: string, repo: string, tag: string)
    requires name == repo + (if tag == "" then "" else ":" + tag)
    requires IsValidRepository(repo) && (tag == "" || IsValidTag(tag))
    ensures '@' !in name
    ensures tag == "" ==> IsValidRepository(name) && name == repo
    ensures tag != "" ==> !IsValidRepository(name) && LastColon(name) == |repo| > 0 && name[..|repo|] == repo &&
                          name[|repo| + 1..] == tag
  {
    RepositoryChars(repo);
    if tag != "" {
      TagChars(tag);
      LastColonAt(repo, tag);
      assert name[|repo|] == ':';
      if IsValidRepository(name) { RepositoryChars(name); }
    } else {
      assert name == repo;
    }
  }

  lemma FullRefIsRead(cfg: Config, ref: string, repo: string, tag: string, mark: string)
    requires SpellsFullRef(cfg, ref, repo, tag, mark)
    ensures ParseFullRef(cfg, ref) == Some((repo, tag))
  {
    var name := repo + if tag == "" then "" else ":" + tag;
    SpelledNameIsRead(cfg, name, repo, tag);
    if mark == "" {
      assert ref == name;
      assert Cut(ref, '@') == (name, "", false);
    } else {
      assert ref == name + ['@'] + mark[1..];
      CutAt(name, '@', mark[1..]);
    }
  }

  lemma NameSplitsAtColon(name: string, i: nat)
    requires i < |name| && name[i] == ':'
    ensures name == name[..i] + ":" + name[i + 1..]
  {
  }

  lemma ReadNameIsSpelled(cfg: Config, name: string, repo: string, tag: string)
    requires (IsValidRepository(name) && repo == name && tag == "") ||
             (var i := LastColon(name);
              i > 0 && IsValidTag(tag) && repo == name[..i] && tag == name[i + 1..])
    ensures name == repo + if tag == "" then "" else ":" + tag
  {
    if tag != "" {
      var i := LastColon(name);
      NameSplitsAtColon(name, i);
      assert name[..i] + ":" + name[i + 1..] == name[..i] + (":" + name[i + 1..]);
    }
  }

  lemma ReadIsFullRef(cfg: Config, ref: string, repo: string, tag: string)
    requires ParseFullRef(cfg, ref) == Some((repo, tag))
    ensures exists mark :: SpellsFullRef(cfg, ref, repo, tag, mark)
  {
    var (name, digest, hasDigest) := Cut(ref, '@');
    var mark := if hasDigest then ['@'] + digest else "";
    ReadNameIsSpelled(cfg, name, repo, tag);
    assert ref == name + mark;
    assert mark[|mark|..] == "" && (hasDigest ==> mark[1..] == digest);
    assert SpellsFullRef(cfg, ref, repo, tag, mark);
  }

  /** Any other reference name is read exactly as the repository, tag and good
      digest that it spells. */
  lemma FullRefsAreExact(cfg: Config, ref: string, repo: string, tag: string)
    requires ref != "" && !IsValidTag(ref)
    ensures ParseRef(cfg, ref) == Some((repo, tag)) <==> exists mark :: SpellsFullRef(cfg, ref, repo, tag, mark)
  {
    if ParseFullRef(cfg, ref) == Some((repo, tag)) {
      ReadIsFullRef(cfg, ref, repo, tag);
    }
    if mark :| SpellsFullRef(cfg, ref, repo, tag, mark) {
      FullRefIsRead(cfg, ref, repo, tag, mark);
    }
  }

  // The list and the map it stands for.

  datatype Key = Tagged(repo: string, tag: string) | Untagged(repo: string, digest: Digest)

  function Parsed(cfg: Config, e: Entry): Option<(string, string)> {
    ParseRef(cfg, e.refName)
  }

  function KeyFor(repo: string, tag: string, digest: Digest): Key {
    if tag == "" then Untagged(repo, digest) else Tagged(repo, tag)
  }

  function KeyOf(cfg: Config, e: Entry): Key
    requires Parsed(cfg, e).Some?
  {
    var (repo, tag) := Parsed(cfg, e).value;
    KeyFor(repo, tag, e.digest)
  }

  predicate AllParse(cfg: Config, s: seq<Entry>) {
    forall e :: e in s ==> Parsed(cfg, e).Some?
  }

  /** Every entry can be read and no two have the same key. */
  ghost predicate Inv(cfg: Config, s: seq<Entry>) {
    && AllParse(cfg, s)
    && forall i, j :: 0 <= i < j < |s| ==> KeyOf(cfg, s[i]) != KeyOf(cfg, s[j])
  }

  /** What the map holds for key k: the manifest some entry with that key names. */
  ghost predicate Holds(cfg: Config, s: seq<Entry>, k: Key, digest: Digest, mediaType: string) {
    exists e :: e in s && Parsed(cfg, e).Some? && KeyOf(cfg, e) == k && e.digest == digest && e.mediaType == mediaType
  }

  // The operations on the list.

  /** refMatches */
  predicate RefMatches(cfg: Config, repo: string, tag: string, digest: Digest, e: Entry) {
    Parsed(cfg, e) == Some((repo, tag)) && (tag == "" && digest != "" ==> e.digest == digest)
  }

  /** The position of the first entry with p, or the length. */
  function FirstWhere(s: seq<Entry>, p: Entry -> bool): (i: nat)
    ensures i <= |s|
    ensures i < |s| ==> p(s[i])
    ensures forall j :: 0 <= j < i ==> !p(s[j])
  {
    if s == [] then 0
    else if p(s[0]) then 0
    else 1 + FirstWhere(s[1..], p)
  }

  function RefMatcher(cfg: Config, repo: string, tag: string, digest: Digest): Entry -> bool {
    e => RefMatches(cfg, repo, tag, digest, e)
  }

  function FirstMatch(cfg: Config, s: seq<Entry>, repo: string, tag: string, digest: Digest): (i: nat)
    ensures i <= |s|
  {
    FirstWhere(s, RefMatcher(cfg, repo, tag, digest))
  }

  /** Put e where the first match for its reference is, or at the end. */
  function Place(cfg: Config, s: seq<Entry>, e: Entry, repo: string, tag: string): seq<Entry> {
    var i := FirstMatch(cfg, s, repo, tag, e.digest);
    if i < |s| then s[i := e] else s + [e]
  }

  /** upsertManifestRef */
  function Upsert(cfg: Config, s: seq<Entry>, repo: string, tag: string, digest: Digest,
                  mediaType: string): seq<Entry> {
    Place(cfg, s, Entry(digest, mediaType, RefFor(repo, tag, digest)), repo, tag)
  }

  /** refDescriptorMatches; None is its error, for an entry that cannot be read. */
  function RefDescriptorMatches(cfg: Config, repo: string, tag: string, digest: Digest, e: Entry): Option<bool> {
    match Parsed(cfg, e)
    case None => None
    case Some((gotRepo, gotTag)) =>
      Some(gotRepo == repo && (tag == "" || gotTag == tag) && (digest == "" || e.digest == digest))
  }

  predicate DescriptorMatches(cfg: Config, repo: string, tag: string, digest: Digest, e: Entry) {
    RefDescriptorMatches(cfg, repo, tag, digest, e) == Some(true)
  }

  /** What the filter loops ask of an entry. */
  type Matcher = Entry -> Option<bool>

  function MatcherOf(cfg: Config, repo: string, tag: string, digest: Digest): Matcher {
    e => RefDescriptorMatches(cfg, repo, tag, digest, e)
  }

  /** The entries of s that do not match, in order. */
  function Dropping(s: seq<Entry>, matches: Matcher): (kept: seq<Entry>)
    ensures |kept| <= |s|
  {
    if s == [] then []
    else
      var rest := Dropping(s[..|s| - 1], matches);
      if matches(s[|s| - 1]) == Some(true) then rest else rest + [s[|s| - 1]]
  }

  /** How many entries the loops get through: all of them, or those before the
      first one that cannot be read. */
  function Readable(s: seq<Entry>, matches: Matcher): (n: nat)
    ensures n <= |s|
    ensures n < |s| ==> matches(s[n]).None?
    ensures forall i :: 0 <= i < n ==> matches(s[i]).Some?
  {
    if s == [] || matches(s[0]).None? then 0
    else
      var n := Readable(s[1..], matches);
      assert forall i :: 0 < i < n + 1 ==> s[i] == s[1..][i - 1];
      n + 1
  }

  /** The array after the first n turns of a filter loop: what was kept, written
      over the front of what was there. */
  function Overwritten(s: seq<Entry>, matches: Matcher, n: nat): (t: seq<Entry>)
    requires n <= |s|
    ensures |t| == |s|
  {
    var kept := Dropping(s[..n], matches);
    kept + s[|kept|..]
  }

  function Without(cfg: Config, s: seq<Entry>, repo: string, tag: string, digest: Digest): seq<Entry> {
    Dropping(s, MatcherOf(cfg, repo, tag, digest))
  }

  datatype Error = NoError | RefInvalid | NameUnknown | ManifestUnknown

  predicate InRepo(cfg: Config, repo: string, e: Entry) {
    Parsed(cfg, e).Some? && Parsed(cfg, e).value.0 == repo
  }

  /** tagDescriptor: the entry, or why there is none. */
  function TagDescriptor(cfg: Config, s: seq<Entry>, repo: string, tag: string): (Option<Entry>, Error) {
    if !AllParse(cfg, s) then (None, RefInvalid)
    else if !exists e :: e in s && InRepo(cfg, repo, e) then (None, NameUnknown)
    else
      var i := FirstMatch(cfg, s, repo, tag, "");
      if i < |s| then (Some(s[i]), NoError) else (None, ManifestUnknown)
  }

  /** DeleteTag */
  function DeleteTag(cfg: Config, s: seq<Entry>, repo: string, tag: string): (seq<Entry>, Error) {
    var (found, err) := TagDescriptor(cfg, s, repo, tag);
    if err != NoError then (s, err) else (Without(cfg, s, repo, tag, ""), NoError)
  }

  /** DeleteManifest */
  function DeleteManifest(cfg: Config, s: seq<Entry>, repo: string, digest: Digest): (seq<Entry>, Error) {
    if !AllParse(cfg, s) then (s, RefInvalid)
    else if !exists e :: e in s && InRepo(cfg, repo, e) then (s, NameUnknown)
    else if !exists e :: e in s && DescriptorMatches(cfg, repo, "", digest, e) then (s, ManifestUnknown)
    else (Without(cfg, s, repo, "", digest), NoError)
  }

  // Refinement.

  lemma MatchIsSameKey(cfg: Config, repo: string, tag: string, digest: Digest, e: Entry)
    requires Parsed(cfg, e).Some? && digest != ""
    ensures RefMatches(cfg, repo, tag, digest, e) <==> KeyOf(cfg, e) == KeyFor(repo, tag, digest)
  {
  }

  /** t stands for the map of s with k bound to (digest, mediaType). */
  ghost predicate Updates(cfg: Config, s: seq<Entry>, t: seq<Entry>, k: Key, digest: Digest, mediaType: string) {
    && Inv(cfg, t)
    && forall k', d, m :: Holds(cfg, t, k', d, m) <==>
         if k' == k then d == digest && m == mediaType else Holds(cfg, s, k', d, m)
  }

  /** Putting an entry in the place of the one with its key, or at the end when
      there is none, keeps keys unique and is map update. */
  lemma ReplaceUpdates(cfg: Config, s: seq<Entry>, i: nat, e: Entry)
    requires Inv(cfg, s) && i <= |s| && Parsed(cfg, e).Some?
    requires forall j :: 0 <= j < |s| && j != i ==> KeyOf(cfg, s[j]) != KeyOf(cfg, e)
    requires i < |s| ==> KeyOf(cfg, s[i]) == KeyOf(cfg, e)
    ensures Updates(cfg, s, if i < |s| then s[i := e] else s + [e], KeyOf(cfg, e), e.digest, e.mediaType)
  {
    var t := if i < |s| then s[i := e] else s + [e];
    assert t[i] == e && forall j :: 0 <= j < |t| && j != i ==> t[j] == s[j];
    forall k, d, m
      ensures Holds(cfg, t, k, d, m) <==>
              if k == KeyOf(cfg, e) then d == e.digest && m == e.mediaType else Holds(cfg, s, k, d, m)
    {
      if k == KeyOf(cfg, e) {
        assert e in t;
      } else if Holds(cfg, s, k, d, m) {
        var x :| x in s && KeyOf(cfg, x) == k && x.digest == d && x.mediaType == m;
        var j :| 0 <= j < |s| && s[j] == x;
        assert t[j] == x;
      }
    }
  }

  /** An entry that replaces the first match, or is added when there is none. */
  lemma PlacedAtFirstMatch(cfg: Config, s: seq<Entry>, e: Entry, repo: string, tag: string)
    requires Inv(cfg, s) && Parsed(cfg, e) == Some((repo, tag)) && e.digest != ""
    ensures Updates(cfg, s, Place(cfg, s, e, repo, tag), KeyFor(repo, tag, e.digest), e.digest, e.mediaType)
  {
    assert KeyOf(cfg, e) == KeyFor(repo, tag, e.digest);
    forall j | 0 <= j < |s| ensures s[j] in s && (KeyOf(cfg, s[j]) == KeyOf(cfg, e) <==>
      RefMatches(cfg, repo, tag, e.digest, s[j])) {
      MatchIsSameKey(cfg, repo, tag, e.digest, s[j]);
    }
    ReplaceUpdates(cfg, s, FirstMatch(cfg, s, repo, tag, e.digest), e);
  }

  /** Upsert is map update, whatever was there before. */
  lemma UpsertUpdates(cfg: Config, s: seq<Entry>, repo: string, tag: string, digest: Digest, mediaType: string)
    requires Inv(cfg, s) && IsValidRepository(repo) && (tag == "" || IsValidTag(tag)) &&
             cfg.validDigest(digest) && digest != ""
    ensures Updates(cfg, s, Upsert(cfg, s, repo, tag, digest, mediaType), KeyFor(repo, tag, digest), digest, mediaType)
  {
    var ref := RefFor(repo, tag, digest);
    assert ParseRef(cfg, ref) == Some((repo, tag)) by {
      RefReadsBack(cfg, repo, tag, digest);
    }
    PlacedAtFirstMatch(cfg, s, Entry(digest, mediaType, ref), repo, tag);
  }

  lemma {:induction false} DroppingKeepsTheRest(s: seq<Entry>, matches: Matcher)
    ensures forall e :: e in Dropping(s, matches) <==> e in s && matches(e) != Some(true)
  {
    if s != [] {
      assert s == s[..|s| - 1] + [s[|s| - 1]];
      DroppingKeepsTheRest(s[..|s| - 1], matches);
    }
  }

  lemma {:induction false} DroppingKeepsInv(cfg: Config, s: seq<Entry>, matches: Matcher)
    requires Inv(cfg, s)
    ensures Inv(cfg, Dropping(s, matches))
  {
    if s != [] {
      var init, last := s[..|s| - 1], s[|s| - 1];
      assert s == init + [last];
      DroppingKeepsInv(cfg, init, matches);
      DroppingKeepsTheRest(init, matches);
      var rest := Dropping(init, matches);
      forall i | 0 <= i < |rest| ensures KeyOf(cfg, rest[i]) != KeyOf(cfg, last) {
        assert rest[i] in rest;
        var j :| 0 <= j < |init| && init[j] == rest[i];
        assert s[j] == rest[i];
      }
    }
  }

  lemma WithoutKeepsTheRest(cfg: Config, s: seq<Entry>, repo: string, tag: string, digest: Digest)
    requires Inv(cfg, s)
    ensures Inv(cfg, Without(cfg, s, repo, tag, digest))
    ensures forall e :: e in Without(cfg, s, repo, tag, digest) <==>
                          e in s && !DescriptorMatches(cfg, repo, tag, digest, e)
  {
    var matches := MatcherOf(cfg, repo, tag, digest);
    DroppingKeepsInv(cfg, s, matches);
    DroppingKeepsTheRest(s, matches);
    assert forall e :: matches(e) == RefDescriptorMatches(cfg, repo, tag, digest, e);
  }

  /** Deleting a tag removes exactly its key from the map. */
  lemma DeleteTagRemoves(cfg: Config, s: seq<Entry>, repo: string, tag: string)
    requires Inv(cfg, s) && tag != ""
    ensures var (t, err) := DeleteTag(cfg, s, repo, tag);
            && Inv(cfg, t)
            && (err == NoError <==> exists d, m :: Holds(cfg, s, Tagged(repo, tag), d, m))
            && forall k, d, m :: Holds(cfg, t, k, d, m) <==> Holds(cfg, s, k, d, m) && k != Tagged(repo, tag)
  {
    TagLookup(cfg, s, repo, tag);
    WithoutKeepsTheRest(cfg, s, repo, tag, "");
    forall e | e in s ensures DescriptorMatches(cfg, repo, tag, "", e) <==> KeyOf(cfg, e) == Tagged(repo, tag) {}
    var (t, err) := DeleteTag(cfg, s, repo, tag);
    forall k, d, m ensures Holds(cfg, t, k, d, m) <==> Holds(cfg, s, k, d, m) && k != Tagged(repo, tag) {
      if Holds(cfg, s, k, d, m) && k != Tagged(repo, tag) {
        var e :| e in s && KeyOf(cfg, e) == k && e.digest == d && e.mediaType == m;
        assert e in t;
      }
    }
  }

  /** tagDescriptor is the map lookup. */
  lemma TagLookup(cfg: Config, s: seq<Entry>, repo: string, tag: string)
    requires Inv(cfg, s) && tag != ""
    ensures var (found, err) := TagDescriptor(cfg, s, repo, tag);
            && (err == NoError <==> exists d, m :: Holds(cfg, s, Tagged(repo, tag), d, m))
            && (err == NoError ==>
                  found.Some? && Holds(cfg, s, Tagged(repo, tag), found.value.digest, found.value.mediaType))
  {
    if exists d, m :: Holds(cfg, s, Tagged(repo, tag), d, m) {
      var d, m :| Holds(cfg, s, Tagged(repo, tag), d, m);
      var e :| e in s && KeyOf(cfg, e) == Tagged(repo, tag);
      FirstMatchFinds(cfg, s, repo, tag, "", e);
    }
    var i := FirstMatch(cfg, s, repo, tag, "");
    if i < |s| {
      assert s[i] in s && KeyOf(cfg, s[i]) == Tagged(repo, tag) && InRepo(cfg, repo, s[i]);
      assert Holds(cfg, s, Tagged(repo, tag), s[i].digest, s[i].mediaType);
    }
  }

  lemma {:induction false} FirstMatchFinds(cfg: Config, s: seq<Entry>, repo: string, tag: string, digest: Digest,
                                           e: Entry)
    requires e in s && RefMatches(cfg, repo, tag, digest, e)
    ensures FirstMatch(cfg, s, repo, tag, digest) < |s|
  {
    if !RefMatches(cfg, repo, tag, digest, s[0]) {
      assert s == [s[0]] + s[1..];
      FirstMatchFinds(cfg, s[1..], repo, tag, digest, e);
    }
  }

  /** Deleting a manifest removes exactly the keys of that repository, tagged or
      not, that point to it; deleting the empty digest, all of them. */
  lemma DeleteManifestRemoves(cfg: Config, s: seq<Entry>, repo: string, digest: Digest)
    requires Inv(cfg, s)
    ensures var (t, err) := DeleteManifest(cfg, s, repo, digest);
            && Inv(cfg, t)
            && (err == NoError <==> exists k: Key, d, m :: Goes(repo, digest, k, d) && Holds(cfg, s, k, d, m))
            && forall k, d, m :: Holds(cfg, t, k, d, m) <==> Holds(cfg, s, k, d, m) && !Goes(repo, digest, k, d)
  {
    WithoutKeepsTheRest(cfg, s, repo, "", digest);
    var (t, err) := DeleteManifest(cfg, s, repo, digest);
    forall e | e in s
      ensures DescriptorMatches(cfg, repo, "", digest, e) <==> Goes(repo, digest, KeyOf(cfg, e), e.digest)
      ensures Holds(cfg, s, KeyOf(cfg, e), e.digest, e.mediaType)
    {
    }
    forall k, d, m ensures Holds(cfg, t, k, d, m) <==> Holds(cfg, s, k, d, m) && !Goes(repo, digest, k, d) {
      if Holds(cfg, s, k, d, m) {
        var e :| e in s && KeyOf(cfg, e) == k && e.digest == d && e.mediaType == m;
        assert !Goes(repo, digest, k, d) ==> e in t;
      }
    }
  }

  predicate Goes(repo: string, digest: Digest, k: Key, d: Digest) {
    k.repo == repo && (digest == "" || d == digest)
  }

  // Deleting the empty tag.

  predicate IsTaggedAs(cfg: Config, repo: string, tag: string, e: Entry) {
    Parsed(cfg, e) == Some((repo, tag))
  }

  predicate HasUntagged(cfg: Config, s: seq<Entry>, repo: string) {
    exists e :: e in s && IsTaggedAs(cfg, repo, "", e)
  }

  predicate HasTagged(cfg: Config, s: seq<Entry>, repo: string) {
    exists e :: e in s && InRepo(cfg, repo, e) && !IsTaggedAs(cfg, repo, "", e)
  }

  lemma NoFirstMatch(cfg: Config, s: seq<Entry>, repo: string, tag: string, digest: Digest)
    requires forall e :: e in s ==> !RefMatches(cfg, repo, tag, digest, e)
    ensures FirstMatch(cfg, s, repo, tag, digest) == |s|
  {
  }

  /** Deleting the empty tag is refused without an untagged entry, and takes
      every entry of the repository when there is one. */
  lemma DeleteEmptyTag(cfg: Config, s: seq<Entry>, repo: string)
    requires Inv(cfg, s)
    ensures var (t, err) := DeleteTag(cfg, s, repo, "");
            && Inv(cfg, t)
            && (err == NoError <==> HasUntagged(cfg, s, repo))
            && (err != NoError ==> t == s)
            && (err == NoError ==> forall e :: e in t <==> e in s && !InRepo(cfg, repo, e))
  {
    WithoutKeepsTheRest(cfg, s, repo, "", "");
    if HasUntagged(cfg, s, repo) {
      var e :| e in s && IsTaggedAs(cfg, repo, "", e);
      assert InRepo(cfg, repo, e);
      FirstMatchFinds(cfg, s, repo, "", "", e);
    } else {
      NoFirstMatch(cfg, s, repo, "", "");
    }
  }

  /** Deleting a tag takes no entry but that tag's, if and only if the tag is not
      empty, or there is no untagged entry, or no tagged one. */
  lemma DeleteTagTakesOnlyThatTag(cfg: Config, s: seq<Entry>, repo: string, tag: string)
    requires Inv(cfg, s)
    ensures (forall e :: e in s && e !in DeleteTag(cfg, s, repo, tag).0 ==> IsTaggedAs(cfg, repo, tag, e)) <==>
            tag != "" || !HasUntagged(cfg, s, repo) || !HasTagged(cfg, s, repo)
  {
    if tag != "" {
      WithoutKeepsTheRest(cfg, s, repo, tag, "");
    } else {
      DeleteEmptyTag(cfg, s, repo);
    }
  }

  /** For instance, with one entry of each kind both go. */
  lemma EmptyTagTakesTheTagged(cfg: Config, repo: string, tag: string, d: Digest, mediaType: string, s: seq<Entry>)
    requires IsValidRepository(repo) && IsValidTag(tag) && cfg.validDigest(d)
    requires s == [Entry(d, mediaType, RefFor(repo, "", d)), Entry(d, mediaType, RefFor(repo, tag, d))]
    ensures DeleteTag(cfg, s, repo, "") == ([], NoError)
  {
    RefReadsBack(cfg, repo, "", d);
    RefReadsBack(cfg, repo, tag, d);
    BothMatch(cfg, repo, tag, s);
  }

  lemma BothMatch(cfg: Config, repo: string, tag: string, s: seq<Entry>)
    requires |s| == 2 && IsTaggedAs(cfg, repo, "", s[0]) && IsTaggedAs(cfg, repo, tag, s[1])
    ensures DeleteTag(cfg, s, repo, "") == ([], NoError)
  {
    assert s[0] in s && InRepo(cfg, repo, s[0]);
    assert s[..1] == [s[0]] && s[..1][..0] == [];
    assert Dropping(s[..1], MatcherOf(cfg, repo, "", "")) == [];
  }

  // refsForRepo and tagDescriptor.

  datatype TopRef = TopRef(desc: Entry, tag: string)

  /** parseRef on an entry; None is its error. */
  type Reader = Entry -> Option<(string, string)>

  function ReaderOf(cfg: Config): Reader {
    e => Parsed(cfg, e)
  }

  /** refsForRepo: the entries of the repository, in order; None when any entry of
      the list cannot be read. */
  function RefsOf(s: seq<Entry>, read: Reader, repo: string): Option<seq<TopRef>> {
    if s == [] then Some([])
    else
      match read(s[0])
      case None => None
      case Some((gotRepo, tag)) =>
        match RefsOf(s[1..], read, repo)
        case None => None
        case Some(rest) => Some((if gotRepo == repo then [TopRef(s[0], tag)] else []) + rest)
  }

  function FirstTagged(refs: seq<TopRef>, tag: string): Option<Entry> {
    if refs == [] then None else if refs[0].tag == tag then Some(refs[0].desc) else FirstTagged(refs[1..], tag)
  }

  lemma {:induction false} RefsNeedAll(cfg: Config, s: seq<Entry>, repo: string)
    ensures RefsOf(s, ReaderOf(cfg), repo).Some? <==> AllParse(cfg, s)
  {
    if s != [] {
      assert s == [s[0]] + s[1..];
      RefsNeedAll(cfg, s[1..], repo);
    }
  }

  /** The first reference with the tag is the first matching entry of the list. */
  lemma {:induction false} FirstTaggedIsFirstMatch(cfg: Config, s: seq<Entry>, repo: string, tag: string)
    requires RefsOf(s, ReaderOf(cfg), repo).Some?
    ensures var refs, i := RefsOf(s, ReaderOf(cfg), repo).value, FirstMatch(cfg, s, repo, tag, "");
            FirstTagged(refs, tag) == if i < |s| then Some(s[i]) else None
  {
    if s != [] {
      var refs, rest := RefsOf(s, ReaderOf(cfg), repo).value, RefsOf(s[1..], ReaderOf(cfg), repo).value;
      FirstTaggedIsFirstMatch(cfg, s[1..], repo, tag);
      if InRepo(cfg, repo, s[0]) {
        assert refs[1..] == rest;
      } else {
        assert refs == rest;
      }
    }
  }

  lemma {:induction false} NoRefsNoEntries(cfg: Config, s: seq<Entry>, repo: string)
    requires RefsOf(s, ReaderOf(cfg), repo).Some?
    ensures RefsOf(s, ReaderOf(cfg), repo).value != [] <==> exists e :: e in s && InRepo(cfg, repo, e)
  {
    if s != [] {
      assert s[0] in s && forall e :: e in s[1..] ==> e in s;
      assert forall e :: e in s ==> e == s[0] || e in s[1..];
      NoRefsNoEntries(cfg, s[1..], repo);
      var refs, rest := RefsOf(s, ReaderOf(cfg), repo).value, RefsOf(s[1..], ReaderOf(cfg), repo).value;
      assert |refs| == |rest| + if InRepo(cfg, repo, s[0]) then 1 else 0;
    }
  }

  /** tagDescriptor from what refsForRepo gives. */
  lemma TagDescriptorFromRefs(cfg: Config, s: seq<Entry>, repo: string, tag: string)
    ensures TagDescriptor(cfg, s, repo, tag) ==
            match RefsOf(s, ReaderOf(cfg), repo)
            case None => (None, RefInvalid)
            case Some(refs) =>
              if refs == [] then (None, NameUnknown)
              else
                var found := FirstTagged(refs, tag);
                (found, if found.Some? then NoError else ManifestUnknown)
  {
    RefsNeedAll(cfg, s, repo);
    if AllParse(cfg, s) {
      FirstTaggedIsFirstMatch(cfg, s, repo, tag);
      NoRefsNoEntries(cfg, s, repo);
    }
  }
}
