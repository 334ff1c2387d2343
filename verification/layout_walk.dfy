/** ocilayout/refs.go: the depth-first walk over the manifests of a layout. */
module LayoutWalk {
  import opened Bytes

  datatype Descriptor = Descriptor(digest: Digest, mediaType: string)

  datatype RefKind = SubjectManifest | BlobKind | ManifestKind
  datatype DescInfo = DescInfo(kind: RefKind, desc: Descriptor)

  /** The blob directory, and the JSON decoder and validator as functions. The
      references in a manifest do not depend on the media type it is read as;
      whether it is valid does. */
  datatype Store = Store(
    blobs: map<Digest, Bytes>,
    parse: Bytes -> Option<seq<DescInfo>>,
    valid: (string, Bytes) -> bool)

  const KNOWN_TYPES: set<string> := {
    "application/vnd.oci.image.manifest.v1+json",
    "application/vnd.docker.distribution.manifest.v2+json",
    "application/vnd.oci.image.index.v1+json",
    "application/vnd.docker.distribution.manifest.list.v2+json"
  }

  /** manifestInfoFromBytes */
  function ManifestInfo(st: Store, mediaType: string, data: Bytes): Option<seq<DescInfo>> {
    if mediaType !in KNOWN_TYPES then Some([])
    else if st.parse(data).None? || !st.valid(mediaType, data) then None
    else st.parse(data)
  }

  function InfoOf(st: Store, desc: Descriptor): Option<seq<DescInfo>> {
    if desc.digest in st.blobs then ManifestInfo(st, desc.mediaType, st.blobs[desc.digest]) else Some([])
  }

  /** The store holds the manifest but it cannot be read. */
  predicate Unreadable(st: Store, desc: Descriptor) {
    InfoOf(st, desc).None?
  }

  /** There is a manifest edge from desc to child. */
  predicate Edge(st: Store, desc: Descriptor, child: Descriptor) {
    InfoOf(st, desc).Some? && DescInfo(ManifestKind, child) in InfoOf(st, desc).value
  }

  // Reachability by manifest edges.

  ghost predicate IsPath(st: Store, p: seq<Descriptor>) {
    p != [] && forall i :: 0 <= i < |p| - 1 ==> Edge(st, p[i], p[i + 1])
  }

  ghost predicate Avoids(p: seq<Descriptor>, cut: set<Digest>) {
    forall i :: 0 <= i < |p| ==> p[i].digest !in cut
  }

  ghost predicate PathTo(st: Store, cut: set<Digest>, from: Descriptor, d: Digest, p: seq<Descriptor>) {
    IsPath(st, p) && p[0] == from && p[|p| - 1].digest == d && Avoids(p, cut)
  }

  /** d is reachable from the manifest without passing through cut. */
  ghost predicate Reaches(st: Store, cut: set<Digest>, from: Descriptor, d: Digest) {
    exists p :: PathTo(st, cut, from, d, p)
  }

  /** Some child of the manifest reaches d without passing through cut. */
  ghost predicate ChildReaches(st: Store, cut: set<Digest>, from: Descriptor, d: Digest) {
    exists child :: Edge(st, from, child) && Reaches(st, cut, child, d)
  }

  lemma {:induction false} LastVisit(p: seq<Descriptor>, d: Digest) returns (k: nat)
    requires p != [] && p[0].digest == d
    ensures k < |p| && p[k].digest == d
    ensures forall i :: k < i < |p| ==> p[i].digest != d
  {
    k := |p| - 1;
    while p[k].digest != d
      invariant k < |p|
      invariant forall i :: k < i < |p| ==> p[i].digest != d
      decreases k
    {
      k := k - 1;
    }
  }

  /** A stored manifest that has children has the same ones under any media
      type under which it can be read and has any. */
  lemma SameChildren(st: Store, a: Descriptor, b: Descriptor, x: Descriptor, y: Descriptor)
    requires a.digest == b.digest && Edge(st, a, x) && Edge(st, b, y)
    ensures Edge(st, a, y)
  {
  }

  /** Why marking by digest and unmarking on the way out loses nothing: what is
      reachable around cut is the manifest itself and what its children reach
      around cut and the manifest, even when the store is cyclic. */
  lemma ReachesThroughChildren(st: Store, cut: set<Digest>, from: Descriptor, d: Digest)
    requires from.digest !in cut
    ensures Reaches(st, cut, from, d) <==> d == from.digest || ChildReaches(st, cut + {from.digest}, from, d)
  {
    if Reaches(st, cut, from, d) && d != from.digest {
      var p :| PathTo(st, cut, from, d, p);
      var k := LastVisit(p, from.digest);
      var q := p[k + 1..];
      assert IsPath(st, q) && Avoids(q, cut + {from.digest});
      assert Edge(st, p[k], p[k + 1]) && Edge(st, p[0], p[1]);
      SameChildren(st, from, p[k], p[1], q[0]);
      assert PathTo(st, cut + {from.digest}, q[0], d, q);
    }
    if d == from.digest {
      assert PathTo(st, cut, from, d, [from]);
    }
    if ChildReaches(st, cut + {from.digest}, from, d) {
      var child :| Edge(st, from, child) && Reaches(st, cut + {from.digest}, child, d);
      var q :| PathTo(st, cut + {from.digest}, child, d, q);
      assert PathTo(st, cut, from, d, [from] + q);
    }
  }

  /** Some unreadable manifest is reachable. */
  ghost predicate ReachesUnreadable(st: Store, from: Descriptor) {
    exists p :: UnreadablePath(st, from, p)
  }

  ghost predicate UnreadablePath(st: Store, from: Descriptor, p: seq<Descriptor>) {
    IsPath(st, p) && p[0] == from && Unreadable(st, p[|p| - 1])
  }

  lemma UnreadableThroughChild(st: Store, from: Descriptor, child: Descriptor)
    requires Edge(st, from, child) && ReachesUnreadable(st, child)
    ensures ReachesUnreadable(st, from)
  {
    var p :| UnreadablePath(st, child, p);
    assert UnreadablePath(st, from, [from] + p);
  }

  /** The two maps that one call of reachable works on. */
  class Walker {
    const st: Store
    var visiting: set<Digest>
    var manifests: map<Digest, Descriptor>

    constructor (st: Store)
      ensures this.st == st && visiting == {} && manifests == map[]
    {
      this.st, visiting, manifests := st, {}, map[];
    }

    predicate Keyed()
      reads this
    {
      forall d :: d in manifests ==> manifests[d].digest == d
    }

    /** walkManifest: terminates on every store, leaves the marks as they were,
        and on success adds exactly what is reachable around them. */
    method Walk(desc: Descriptor) returns (ok: bool)
      requires Keyed()
      modifies this
      ensures Keyed() && visiting == old(visiting) && old(manifests).Keys <= manifests.Keys
      ensures ok ==> forall d :: d in manifests <==> d in old(manifests) || Reaches(st, visiting, desc, d)
      ensures !ok ==> ReachesUnreadable(st, desc)
      decreases |st.blobs.Keys - visiting|
    {
      if desc.digest in visiting {
        assert forall d :: !Reaches(st, visiting, desc, d);
        return true;
      }
      ghost var cut := visiting;
      visiting := visiting + {desc.digest};
      manifests := manifests[desc.digest := desc];
      if desc.digest !in st.blobs {
        visiting := visiting - {desc.digest};
        assert visiting == cut;
        LeafReaches(st, cut, desc);
        return true;
      }
      var info := ManifestInfo(st, desc.mediaType, st.blobs[desc.digest]);
      if info.None? {
        visiting := visiting - {desc.digest};
        assert visiting == cut;
        assert UnreadablePath(st, desc, [desc]);
        return false;
      }
      MarkingDescends(st.blobs.Keys, cut, desc.digest);
      ghost var before := manifests;
      for i := 0 to |info.value|
        invariant Keyed() && visiting == cut + {desc.digest} && before.Keys <= manifests.Keys
        invariant forall d :: d in manifests <==> d in before || SomeReaches(st, visiting, info.value[..i], d)
      {
        var child := info.value[i];
        ghost var sofar := manifests;
        SomeReachesSnoc(st, visiting, info.value[..i], child);
        assert info.value[..i + 1] == info.value[..i] + [child];
        if child.kind.ManifestKind? {
          var childOk := Walk(child.desc);
          if !childOk {
            visiting := visiting - {desc.digest};
            assert visiting == cut;
            assert Edge(st, desc, child.desc);
            UnreadableThroughChild(st, desc, child.desc);
            return false;
          }
        }
      }
      assert info.value[..|info.value|] == info.value;
      ChildrenReach(st, cut, desc);
      visiting := visiting - {desc.digest};
      assert visiting == cut;
      return true;
    }
  }

  /** d is reached from one of the listed manifests. */
  ghost predicate SomeReaches(st: Store, cut: set<Digest>, infos: seq<DescInfo>, d: Digest) {
    exists child :: DescInfo(ManifestKind, child) in infos && Reaches(st, cut, child, d)
  }

  lemma SomeReachesSnoc(st: Store, cut: set<Digest>, infos: seq<DescInfo>, last: DescInfo)
    ensures forall d :: SomeReaches(st, cut, infos + [last], d) <==>
              SomeReaches(st, cut, infos, d) || (last.kind.ManifestKind? && Reaches(st, cut, last.desc, d))
  {
    forall d
      ensures SomeReaches(st, cut, infos + [last], d) <==>
              SomeReaches(st, cut, infos, d) || (last.kind.ManifestKind? && Reaches(st, cut, last.desc, d))
    {
      if SomeReaches(st, cut, infos, d) {
        var child :| DescInfo(ManifestKind, child) in infos && Reaches(st, cut, child, d);
        assert DescInfo(ManifestKind, child) in infos + [last];
      }
      if last.kind.ManifestKind? && Reaches(st, cut, last.desc, d) {
        assert DescInfo(ManifestKind, last.desc) in infos + [last];
      }
    }
  }

  lemma LeafReaches(st: Store, cut: set<Digest>, desc: Descriptor)
    requires desc.digest !in cut && desc.digest !in st.blobs
    ensures forall d :: Reaches(st, cut, desc, d) <==> d == desc.digest
  {
    forall d ensures Reaches(st, cut, desc, d) <==> d == desc.digest {
      ReachesThroughChildren(st, cut, desc, d);
    }
  }

  lemma ChildrenReach(st: Store, cut: set<Digest>, desc: Descriptor)
    requires desc.digest !in cut && InfoOf(st, desc).Some?
    ensures forall d :: Reaches(st, cut, desc, d) <==>
              d == desc.digest || SomeReaches(st, cut + {desc.digest}, InfoOf(st, desc).value, d)
  {
    forall d
      ensures Reaches(st, cut, desc, d) <==>
              d == desc.digest || SomeReaches(st, cut + {desc.digest}, InfoOf(st, desc).value, d)
    {
      ReachesThroughChildren(st, cut, desc, d);
    }
  }

  lemma MarkingDescends(stored: set<Digest>, visiting: set<Digest>, d: Digest)
    requires d in stored && d !in visiting
    ensures |stored - (visiting + {d})| < |stored - visiting|
  {
    assert stored - (visiting + {d}) == (stored - visiting) - {d};
  }

  /** reachable: after a successful walk from all top-level references, the
      keys are exactly the digests reachable from them. */
  method Reachable(st: Store, refs: seq<Descriptor>) returns (manifests: Option<map<Digest, Descriptor>>)
    ensures manifests.Some? ==>
              && (forall d :: d in manifests.value ==> manifests.value[d].digest == d)
              && (forall d :: d in manifests.value <==> exists ref :: ref in refs && Reaches(st, {}, ref, d))
    ensures manifests.None? ==> exists ref :: ref in refs && ReachesUnreadable(st, ref)
  {
    var walker := new Walker(st);
    for i := 0 to |refs|
      invariant fresh(walker) && walker.st == st && walker.visiting == {} && walker.Keyed()
      invariant forall d :: d in walker.manifests <==> exists ref :: ref in refs[..i] && Reaches(st, {}, ref, d)
    {
      ghost var before := walker.manifests;
      assert refs[..i + 1] == refs[..i] + [refs[i]];
      var ok := walker.Walk(refs[i]);
      if !ok { return None; }
    }
    assert refs[..|refs|] == refs;
    return Some(walker.manifests);
  }
}
