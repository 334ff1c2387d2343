/** ocilayout's index as the slice it is, filtered in place; and the index as a
    map over every run. */
module LayoutRegistry {
  import opened Bytes
  import opened Names
  import opened LayoutIndex

  class Index {
    const cfg: Config
    var manifests: array<Entry>   // the backing array of index.Manifests
    var count: nat                // its length

    ghost predicate Valid()
      reads this
    {
      count <= manifests.Length
    }

    function Contents(): seq<Entry>
      requires Valid()
      reads this, manifests
    {
      manifests[..count]
    }

    constructor (cfg: Config)
      ensures Valid() && Contents() == [] && this.cfg == cfg && fresh(manifests)
    {
      this.cfg := cfg;
      manifests, count := new Entry[0], 0;
    }

    /** append: in place while there is room, else into a larger array. */
    method Append(e: Entry)
      requires Valid()
      modifies this, manifests
      ensures Valid() && Contents() == old(Contents()) + [e]
      ensures manifests == old(manifests) || fresh(manifests)
    {
      if count == manifests.Length {
        var larger := new Entry[2 * count + 1];
        forall i | 0 <= i < count {
          larger[i] := manifests[i];
        }
        assert larger[..count] == manifests[..count];
        manifests := larger;
      }
      manifests[count] := e;
      count := count + 1;
    }

    /** upsertManifestRef */
    method UpsertManifestRef(repo: string, tag: string, digest: Digest, mediaType: string)
      requires Valid()
      modifies this, manifests
      ensures Valid() && Contents() == Upsert(cfg, old(Contents()), repo, tag, digest, mediaType)
      ensures manifests == old(manifests) || fresh(manifests)
    {
      var desc := Entry(digest, mediaType, RefFor(repo, tag, digest));
      var i := 0;
      while i < count
        invariant 0 <= i <= count
        invariant FirstMatch(cfg, Contents(), repo, tag, digest) ==
                  i + FirstMatch(cfg, Contents()[i..], repo, tag, digest)
      {
        assert Contents()[i..][1..] == Contents()[i + 1..];
        if RefMatches(cfg, repo, tag, digest, manifests[i]) {
          manifests[i] := desc;
          return;
        }
        i := i + 1;
      }
      Append(desc);
    }

    /** refsForRepo, with parseRef as read: fails when any entry cannot be read. */
    method RefsForRepo(read: Reader, repo: string) returns (ok: bool, refs: seq<TopRef>)
      requires Valid()
      ensures RefsOf(Contents(), read, repo) == if ok then Some(refs) else None
    {
      refs := [];
      ghost var s := Contents();
      assert s[0..] == s;
      NothingBefore(RefsOf(s, read, repo));
      for i := 0 to count
        invariant Preceded(refs, RefsOf(s[i..], read, repo)) == RefsOf(s, read, repo)
      {
        var desc := manifests[i];
        assert desc == s[i] == s[i..][0];
        var parsed := read(desc);
        if parsed.None? { return false, []; }
        OneMoreRef(refs, s, i, read, repo);
        if parsed.value.0 == repo { refs := refs + [TopRef(desc, parsed.value.1)]; }
      }
      assert refs + [] == refs;
      ok := true;
    }

    /** tagDescriptor */
    method ResolveTag(repo: string, tag: string) returns (found: Option<Entry>, err: Error)
      requires Valid()
      ensures (found, err) == TagDescriptor(cfg, Contents(), repo, tag)
    {
      TagDescriptorFromRefs(cfg, Contents(), repo, tag);
      var ok, refs := RefsForRepo(ReaderOf(cfg), repo);
      if !ok { return None, RefInvalid; }
      if |refs| == 0 { return None, NameUnknown; }
      for i := 0 to |refs|
        invariant FirstTagged(refs, tag) == FirstTagged(refs[i..], tag)
      {
        assert refs[i..][1..] == refs[i + 1..];
        if refs[i].tag == tag { return Some(refs[i].desc), NoError; }
      }
      return None, ManifestUnknown;
    }

    /** The filter loop of DeleteTag and DeleteManifest, with refDescriptorMatches
        as matches: out shares the backing array with the list it is filtered
        from, and the loop stops at the first entry that cannot be read, whatever
        it has overwritten by then. */
    method FilterInPlace(matches: Matcher) returns (out: nat, found: bool, err: Error)
      requires Valid()
      modifies manifests
      ensures FilteredTo(old(Contents()), Contents(), matches, out, found, err)
    {
      ghost var before := Contents();
      found, out := false, 0;
      for i := 0 to count
        invariant ReadableTo(before, matches, i)
        invariant Turning(Contents(), out, found) == AfterTurns(before, matches, i)
      {
        TurnIsAhead(before, matches, i);
        var desc := manifests[i];
        assert desc == Contents()[i];
        var matched := matches(desc);
        if matched.None? {
          StoppedAt(before, matches, i);
          return out, found, RefInvalid;
        }
        if matched.value {
          found := true;
          continue;
        }
        ghost var now := Contents();
        manifests[out] := desc;
        assert Contents() == now[out := desc];
        out := out + 1;
      }
      RanToTheEnd(before, matches);
      err := NoError;
    }

    /** DeleteManifest: either the list is untouched or the filter ran to its end. */
    method DeleteManifestEntries(repo: string, digest: Digest) returns (err: Error)
      requires Valid()
      modifies this`count, manifests
      ensures Valid() && (Contents(), err) == DeleteManifest(cfg, old(Contents()), repo, digest)
    {
      ghost var before := Contents();
      DeleteManifestFromRefs(cfg, before, repo, digest);
      var ok, refs := RefsForRepo(ReaderOf(cfg), repo);
      if !ok { return RefInvalid; }
      if |refs| == 0 { return NameUnknown; }
      var out, found;
      out, found, err := FilterInPlace(MatcherOf(cfg, repo, "", digest));
      FilterCompletes(cfg, before, Contents(), repo, "", digest, out, found, err);
      if err != NoError { return err; }
      if !found { return ManifestUnknown; }
      ghost var after := Contents();
      count := out;
      assert Contents() == after[..out];
      return NoError;
    }

    /** DeleteTag */
    method DeleteTagEntries(repo: string, tag: string) returns (err: Error)
      requires Valid()
      modifies this`count, manifests
      ensures Valid() && (Contents(), err) == DeleteTag(cfg, old(Contents()), repo, tag)
    {
      ghost var before := Contents();
      var _, tagErr := ResolveTag(repo, tag);
      DeleteTagAfterLookup(cfg, before, repo, tag);
      if tagErr != NoError { return tagErr; }
      var out, found;
      out, found, err := FilterInPlace(MatcherOf(cfg, repo, tag, ""));
      FilterCompletes(cfg, before, Contents(), repo, tag, "", out, found, err);
      if err != NoError { return err; }
      ghost var after := Contents();
      count := out;
      assert Contents() == after[..out];
      return NoError;
    }
  }

  function Preceded(before: seq<TopRef>, rest: Option<seq<TopRef>>): Option<seq<TopRef>> {
    if rest.None? then None else Some(before + rest.value)
  }

  lemma NothingBefore(rest: Option<seq<TopRef>>)
    ensures Preceded([], rest) == rest
  {
    if rest.Some? { assert [] + rest.value == rest.value; }
  }

  lemma OneMoreRef(refs: seq<TopRef>, s: seq<Entry>, i: nat, read: Reader, repo: string)
    requires i < |s| && read(s[i]).Some?
    ensures var (gotRepo, tag) := read(s[i]).value;
            Preceded(refs, RefsOf(s[i..], read, repo)) ==
            Preceded(if gotRepo == repo then refs + [TopRef(s[i], tag)] else refs, RefsOf(s[i + 1..], read, repo))
  {
    assert s[i..][0] == s[i] && s[i..][1..] == s[i + 1..];
    var rest := RefsOf(s[i + 1..], read, repo);
    assert RefsOf(s[i..], read, repo).Some? <==> rest.Some?;
    if rest.Some? {
      var (gotRepo, tag) := read(s[i]).value;
      var one := if gotRepo == repo then [TopRef(s[i], tag)] else [];
      assert refs + (one + rest.value) == refs + one + rest.value;
      assert refs + [] == refs;
    }
  }

  predicate AnyMatches(s: seq<Entry>, matches: Matcher, n: nat)
    requires n <= |s|
  {
    exists i :: 0 <= i < n && matches(s[i]) == Some(true)
  }

  /** The state in which a filter loop leaves the array and its variables. */
  predicate FilteredTo(before: seq<Entry>, after: seq<Entry>, matches: Matcher, out: nat, found: bool, err: Error) {
    var n := Readable(before, matches);
    && after == Overwritten(before, matches, n)
    && out == |Dropping(before[..n], matches)|
    && found == AnyMatches(before, matches, n)
    && err == if n == |before| then NoError else RefInvalid
  }

  datatype Turning = Turning(now: seq<Entry>, out: nat, found: bool)

  /** The array, out and found after n turns of a filter loop. */
  function AfterTurns(s: seq<Entry>, matches: Matcher, n: nat): (t: Turning)
    requires n <= |s|
    ensures |t.now| == |s| && t.out <= n
  {
    if n == 0 then Turning(s, 0, false)
    else
      var t := AfterTurns(s, matches, n - 1);
      if matches(s[n - 1]) == Some(true) then t.(found := true)
      else Turning(t.now[t.out := s[n - 1]], t.out + 1, t.found)
  }

  ghost predicate ReadableTo(s: seq<Entry>, matches: Matcher, n: nat) {
    n <= |s| && forall i :: 0 <= i < n ==> matches(s[i]).Some?
  }

  /** What the turns have done: the entries kept, then the array as it was. */
  lemma {:induction false} TurnsOverwrite(s: seq<Entry>, matches: Matcher, n: nat)
    requires n <= |s|
    ensures var t := AfterTurns(s, matches, n);
            && t.now == Overwritten(s, matches, n) && t.out == |Dropping(s[..n], matches)|
            && t.found == AnyMatches(s, matches, n)
  {
    if n == 0 {
      assert s[..0] == [] && [] + s[0..] == s;
    } else {
      TurnsOverwrite(s, matches, n - 1);
      assert s[..n][..n - 1] == s[..n - 1] && s[..n][n - 1] == s[n - 1];
      var kept := Dropping(s[..n - 1], matches);
      if matches(s[n - 1]) == Some(true) {
        assert AnyMatches(s, matches, n);
      } else {
        assert Dropping(s[..n], matches) == kept + [s[n - 1]];
        WrittenOver(kept, s, s[n - 1]);
      }
    }
  }

  lemma WrittenOver(kept: seq<Entry>, s: seq<Entry>, e: Entry)
    requires |kept| < |s|
    ensures (kept + s[|kept|..])[|kept| := e] == kept + [e] + s[|kept| + 1..]
  {
  }

  /** The entry the loop looks at has not been overwritten yet. */
  lemma TurnIsAhead(s: seq<Entry>, matches: Matcher, i: nat)
    requires i < |s|
    ensures AfterTurns(s, matches, i).now[i] == s[i]
  {
    TurnsOverwrite(s, matches, i);
  }

  lemma {:induction false} ReadableIs(s: seq<Entry>, matches: Matcher, n: nat)
    requires ReadableTo(s, matches, n) && (n < |s| ==> matches(s[n]).None?)
    ensures Readable(s, matches) == n
  {
    if n > 0 {
      assert forall i :: 0 <= i < n - 1 ==> s[1..][i] == s[i + 1];
      ReadableIs(s[1..], matches, n - 1);
    }
  }

  lemma StoppedAt(s: seq<Entry>, matches: Matcher, n: nat)
    requires n < |s| && ReadableTo(s, matches, n) && matches(s[n]).None?
    ensures var t := AfterTurns(s, matches, n); FilteredTo(s, t.now, matches, t.out, t.found, RefInvalid)
  {
    TurnsOverwrite(s, matches, n);
    ReadableIs(s, matches, n);
  }

  lemma RanToTheEnd(s: seq<Entry>, matches: Matcher)
    requires ReadableTo(s, matches, |s|)
    ensures var t := AfterTurns(s, matches, |s|); FilteredTo(s, t.now, matches, t.out, t.found, NoError)
  {
    TurnsOverwrite(s, matches, |s|);
    ReadableIs(s, matches, |s|);
  }

  /** Once refsForRepo has read the whole list, no filter loop stops early. */
  lemma FilterCompletes(cfg: Config, before: seq<Entry>, after: seq<Entry>, repo: string, tag: string, digest: Digest,
                        out: nat, found: bool, err: Error)
    requires AllParse(cfg, before) && FilteredTo(before, after, MatcherOf(cfg, repo, tag, digest), out, found, err)
    ensures err == NoError && out <= |after| == |before| && after[..out] == Without(cfg, before, repo, tag, digest)
    ensures found <==> exists e :: e in before && DescriptorMatches(cfg, repo, tag, digest, e)
    ensures !found ==> after == before
  {
    var matches := MatcherOf(cfg, repo, tag, digest);
    AllReadable(before, matches);
    assert before[..|before|] == before;
    if found {
      var i :| 0 <= i < |before| && matches(before[i]) == Some(true);
      assert before[i] in before && DescriptorMatches(cfg, repo, tag, digest, before[i]);
    } else {
      forall e | e in before ensures matches(e) != Some(true) {
        var i :| 0 <= i < |before| && before[i] == e;
      }
      NothingDropped(before, matches);
    }
  }

  lemma {:induction false} AllReadable(s: seq<Entry>, matches: Matcher)
    requires forall e :: e in s ==> matches(e).Some?
    ensures Readable(s, matches) == |s|
  {
    if s != [] {
      assert s[0] in s && forall e :: e in s[1..] ==> e in s;
      AllReadable(s[1..], matches);
    }
  }

  lemma DeleteManifestFromRefs(cfg: Config, s: seq<Entry>, repo: string, digest: Digest)
    ensures var t := RefsOf(s, ReaderOf(cfg), repo);
            && (t.Some? <==> AllParse(cfg, s))
            && DeleteManifest(cfg, s, repo, digest) ==
                 if t.None? then (s, RefInvalid)
                 else if t.value == [] then (s, NameUnknown)
                 else if !exists e :: e in s && DescriptorMatches(cfg, repo, "", digest, e) then (s, ManifestUnknown)
                 else (Without(cfg, s, repo, "", digest), NoError)
  {
    RefsNeedAll(cfg, s, repo);
    if AllParse(cfg, s) {
      NoRefsNoEntries(cfg, s, repo);
    }
  }

  lemma DeleteTagAfterLookup(cfg: Config, s: seq<Entry>, repo: string, tag: string)
    ensures var err := TagDescriptor(cfg, s, repo, tag).1;
            && DeleteTag(cfg, s, repo, tag) ==
               (if err != NoError then (s, err) else (Without(cfg, s, repo, tag, ""), NoError))
            && (err == NoError ==> AllParse(cfg, s))
  {
  }

  /** What that check is for: a loop that stopped early would have lost an entry
      and doubled another, and reported an error. */
  lemma StoppingEarlyLoses(x: Entry, y: Entry, z: Entry, matches: Matcher, after: seq<Entry>)
    requires matches(x) == Some(true) && matches(y) == Some(false) && matches(z) == None
    requires after == Overwritten([x, y, z], matches, 2)
    ensures FilteredTo([x, y, z], after, matches, 1, true, RefInvalid) && after == [y, y, z]
  {
    var s := [x, y, z];
    assert s[0] == x && s[1..] == [y, z] && s[1..][1..] == [z];
    assert Readable(s[1..][1..], matches) == 0;
    assert Readable(s[1..], matches) == 1;
    assert s[..2] == [x, y] && s[..2][..1] == [x] && s[..2][..1][..0] == [];
    assert Dropping(s[..2][..1], matches) == [];
    assert Dropping(s[..2], matches) == [y];
  }

  lemma {:induction false} NothingDropped(s: seq<Entry>, matches: Matcher)
    requires forall e :: e in s ==> matches(e) != Some(true)
    ensures Dropping(s, matches) == s
  {
    if s != [] {
      assert s == s[..|s| - 1] + [s[|s| - 1]];
      NothingDropped(s[..|s| - 1], matches);
    }
  }

  // The index as a map, over whole runs.

  /** Which manifest each reference stands for. */
  type Model = map<Key, (Digest, string)>

  datatype Op =
    | Push(repo: string, tags: seq<string>, digest: Digest, mediaType: string)
    | RemoveTag(repo: string, tag: string)
    | RemoveManifest(repo: string, digest: Digest)

  /** A push is of a digest that PushManifest has computed or verified. */
  predicate ValidOp(cfg: Config, op: Op) {
    op.Push? ==> op.digest != "" && cfg.validDigest(op.digest)
  }

  function UpsertAll(cfg: Config, s: seq<Entry>, repo: string, tags: seq<string>, digest: Digest,
                     mediaType: string): seq<Entry>
    decreases |tags|
  {
    if tags == [] then s
    else UpsertAll(cfg, Upsert(cfg, s, repo, tags[0], digest, mediaType), repo, tags[1..], digest, mediaType)
  }

  predicate TagsValid(tags: seq<string>) {
    forall t :: t in tags ==> IsValidTag(t)
  }

  /** The effect of one operation on the list; refused ones have none. */
  function OnList(cfg: Config, s: seq<Entry>, op: Op): seq<Entry> {
    match op
    case Push(repo, tags, digest, mediaType) =>
      if !IsValidRepository(repo) || !TagsValid(tags) then s
      else UpsertAll(cfg, s, repo, if tags == [] then [""] else tags, digest, mediaType)
    case RemoveTag(repo, tag) => if IsValidRepository(repo) then DeleteTag(cfg, s, repo, tag).0 else s
    case RemoveManifest(repo, digest) => if IsValidRepository(repo) then DeleteManifest(cfg, s, repo, digest).0 else s
  }

  function PutAll(m: Model, repo: string, tags: seq<string>, digest: Digest, mediaType: string): Model
    decreases |tags|
  {
    if tags == [] then m
    else PutAll(m[KeyFor(repo, tags[0], digest) := (digest, mediaType)], repo, tags[1..], digest, mediaType)
  }

  /** The same on the map. */
  function OnMap(m: Model, op: Op): Model {
    match op
    case Push(repo, tags, digest, mediaType) =>
      if !IsValidRepository(repo) || !TagsValid(tags) then m
      else PutAll(m, repo, if tags == [] then [""] else tags, digest, mediaType)
    case RemoveTag(repo, tag) =>
      if !IsValidRepository(repo) then m
      else if tag != "" then m - {Tagged(repo, tag)}
      else if exists k :: k in m && k.Untagged? && k.repo == repo then map k | k in m && k.repo != repo :: m[k]
      else m
    case RemoveManifest(repo, digest) =>
      if IsValidRepository(repo) then map k | k in m && !Goes(repo, digest, k, m[k].0) :: m[k] else m
  }

  ghost predicate Represents(cfg: Config, s: seq<Entry>, m: Model) {
    && Inv(cfg, s)
    && forall k, d, mt :: Holds(cfg, s, k, d, mt) <==> k in m && m[k] == (d, mt)
  }

  lemma {:induction false} UpsertAllRefines(cfg: Config, s: seq<Entry>, m: Model, repo: string, tags: seq<string>,
                                            digest: Digest, mediaType: string)
    requires Represents(cfg, s, m) && IsValidRepository(repo) && cfg.validDigest(digest) && digest != ""
    requires forall t :: t in tags ==> t == "" || IsValidTag(t)
    ensures Represents(cfg, UpsertAll(cfg, s, repo, tags, digest, mediaType), PutAll(m, repo, tags, digest, mediaType))
    decreases |tags|
  {
    if tags != [] {
      assert tags[0] in tags && forall t :: t in tags[1..] ==> t in tags;
      UpsertUpdates(cfg, s, repo, tags[0], digest, mediaType);
      UpsertAllRefines(cfg, Upsert(cfg, s, repo, tags[0], digest, mediaType),
                       m[KeyFor(repo, tags[0], digest) := (digest, mediaType)], repo, tags[1..], digest, mediaType);
    }
  }

  lemma EmptyTagRefines(cfg: Config, s: seq<Entry>, m: Model, repo: string)
    requires Represents(cfg, s, m)
    ensures Represents(cfg, OnList(cfg, s, RemoveTag(repo, "")), OnMap(m, RemoveTag(repo, "")))
  {
    DeleteEmptyTag(cfg, s, repo);
    var t := DeleteTag(cfg, s, repo, "").0;
    if HasUntagged(cfg, s, repo) {
      var e :| e in s && IsTaggedAs(cfg, repo, "", e);
      assert Holds(cfg, s, Untagged(repo, e.digest), e.digest, e.mediaType);
      assert Untagged(repo, e.digest) in m;
      RepositoryRemoved(cfg, s, t, repo);
    } else {
      forall k | k in m ensures !(k.Untagged? && k.repo == repo) {
        assert Holds(cfg, s, k, m[k].0, m[k].1);
      }
    }
  }

  lemma RepositoryRemoved(cfg: Config, s: seq<Entry>, t: seq<Entry>, repo: string)
    requires AllParse(cfg, s) && AllParse(cfg, t) && forall e :: e in t <==> e in s && !InRepo(cfg, repo, e)
    ensures forall k: Key, d, mt :: Holds(cfg, t, k, d, mt) <==> Holds(cfg, s, k, d, mt) && k.repo != repo
  {
    forall k: Key, d, mt ensures Holds(cfg, t, k, d, mt) <==> Holds(cfg, s, k, d, mt) && k.repo != repo {
      if Holds(cfg, s, k, d, mt) && k.repo != repo {
        var e :| e in s && KeyOf(cfg, e) == k && e.digest == d && e.mediaType == mt;
        assert e in t;
      }
    }
  }

  /** Each operation on the list is the operation on the map. */
  lemma StepRefines(cfg: Config, s: seq<Entry>, m: Model, op: Op)
    requires Represents(cfg, s, m) && ValidOp(cfg, op)
    ensures Represents(cfg, OnList(cfg, s, op), OnMap(m, op))
  {
    match op {
      case Push(repo, tags, digest, mediaType) =>
        if IsValidRepository(repo) && TagsValid(tags) {
          UpsertAllRefines(cfg, s, m, repo, if tags == [] then [""] else tags, digest, mediaType);
        }
      case RemoveTag(repo, tag) =>
        if tag == "" {
          EmptyTagRefines(cfg, s, m, repo);
        } else {
          DeleteTagRemoves(cfg, s, repo, tag);
        }
      case RemoveManifest(repo, digest) => DeleteManifestRemoves(cfg, s, repo, digest);
    }
  }

  function ListAfter(cfg: Config, s: seq<Entry>, ops: seq<Op>): seq<Entry>
    decreases |ops|
  {
    if ops == [] then s else ListAfter(cfg, OnList(cfg, s, ops[0]), ops[1..])
  }

  function MapAfter(m: Model, ops: seq<Op>): Model
    decreases |ops|
  {
    if ops == [] then m else MapAfter(OnMap(m, ops[0]), ops[1..])
  }

  /** From an empty index, every run keeps references unique and readable, and
      the list stands for the map. */
  lemma RunRefines(cfg: Config, ops: seq<Op>)
    requires forall op :: op in ops ==> ValidOp(cfg, op)
    ensures Represents(cfg, ListAfter(cfg, [], ops), MapAfter(map[], ops))
  {
    RunRefinesFrom(cfg, [], map[], ops);
  }

  /** Looking up a tag in a list gives what the map holds for it. */
  lemma LookupAgrees(cfg: Config, s: seq<Entry>, m: Model, repo: string, tag: string)
    requires Represents(cfg, s, m) && tag != ""
    ensures var (found, err) := TagDescriptor(cfg, s, repo, tag);
            if Tagged(repo, tag) in m then err == NoError && found.Some? &&
              (found.value.digest, found.value.mediaType) == m[Tagged(repo, tag)]
            else err != NoError
  {
    TagLookup(cfg, s, repo, tag);
    var k := Tagged(repo, tag);
    if k in m {
      assert Holds(cfg, s, k, m[k].0, m[k].1);
    }
  }

  lemma {:induction false} RunRefinesFrom(cfg: Config, s: seq<Entry>, m: Model, ops: seq<Op>)
    requires Represents(cfg, s, m) && forall op :: op in ops ==> ValidOp(cfg, op)
    ensures Represents(cfg, ListAfter(cfg, s, ops), MapAfter(m, ops))
    decreases |ops|
  {
    if ops != [] {
      assert ops[0] in ops && forall op :: op in ops[1..] ==> op in ops;
      StepRefines(cfg, s, m, ops[0]);
      RunRefinesFrom(cfg, OnList(cfg, s, ops[0]), OnMap(m, ops[0]), ops[1..]);
    }
  }
}
