/** ociauth/scope.go, NewScope and Holds: building the slices and looking up in them. */
module ScopeBuild {
  import opened Ordering
  import opened Scope

  /** One turn of NewScope's loop. */
  function Add(s: Scope, rs: ResourceScope): Scope {
    if !IsKnown(rs) then s.(others := s.others + [rs])
    else if rs.resourceType == TYPE_REGISTRY then
      s.(repositories := s.repositories + [""], actions := s.actions + [Bit(2)])
    else
      var mask := Bit(ParseKnownAction(rs.action));
      var n := |s.repositories|;
      if 0 < n == |s.actions| && s.repositories[n - 1] == rs.resource then
        s.(actions := s.actions[n - 1 := s.actions[n - 1] | mask])
      else
        s.(repositories := s.repositories + [rs.resource], actions := s.actions + [mask])
  }

  function Build(rss: seq<ResourceScope>): Scope {
    if rss == [] then EMPTY else Add(Build(rss[..|rss| - 1]), rss[|rss| - 1])
  }

  lemma {:induction false} BuildIsParallel(rss: seq<ResourceScope>)
    ensures |Build(rss).repositories| == |Build(rss).actions|
    ensures !Build(rss).unlimited && Build(rss).original == ""
  {
    if rss != [] { BuildIsParallel(rss[..|rss| - 1]); }
  }

  /** The loop of NewScope. */
  method AddAll(rss: seq<ResourceScope>) returns (s: Scope)
    ensures s == Build(rss)
  {
    s := EMPTY;
    for i := 0 to |rss|
      invariant s == Build(rss[..i])
    {
      var rs := rss[i];
      BuildIsParallel(rss[..i]);
      assert rss[..i + 1][..i] == rss[..i];
      if !IsKnown(rs) {
        s := s.(others := s.others + [rs]);
        continue;
      }
      if rs.resourceType == TYPE_REGISTRY {
        s := s.(repositories := s.repositories + [""], actions := s.actions + [Bit(2)]);
        continue;
      }
      var actionMask := Bit(ParseKnownAction(rs.action));
      var n := |s.repositories|;
      if n > 0 && s.repositories[n - 1] == rs.resource {
        s := s.(actions := s.actions[n - 1 := s.actions[n - 1] | actionMask]);
      } else {
        s := s.(repositories := s.repositories + [rs.resource], actions := s.actions + [actionMask]);
      }
    }
    assert rss[..|rss|] == rss;
  }

  /** NewScope */
  method NewScope(rss0: seq<ResourceScope>) returns (s: Scope)
    ensures StrictTotalOrder(Before)
    ensures s == Build(SortDistinct(rss0, Before))
    ensures Shaped(s) && !s.unlimited && s.original == ""
    ensures Clean(rss0) ==> Canonical(s) && forall r :: Member(s, r) <==> r in rss0
  {
    BeforeIsStrictTotal();
    var rss := SortDistinct(rss0, Before);
    s := AddAll(rss);
    BuiltIsFinal(rss0, rss);
    s := s.(others := SortDistinct(s.others, Before));
  }

  /** Sorting the others once more changes nothing. */
  lemma BuiltIsFinal(rss0: seq<ResourceScope>, rss: seq<ResourceScope>)
    requires StrictTotalOrder(Before) && rss == SortDistinct(rss0, Before)
    ensures var s := Build(rss);
            && s == s.(others := SortDistinct(s.others, Before))
            && Shaped(s) && !s.unlimited && s.original == ""
            && (Clean(rss0) ==> Canonical(s) && forall r :: Member(s, r) <==> r in rss0)
  {
    var s := Build(rss);
    BuildIsExact(rss);
    SortDistinctOfIncreasing(s.others, Before);
    BuildIsParallel(rss);
    if Clean(rss0) { BuildDenotes(rss); }
  }

  /** What the two slices say about repository r and known action k. */
  ghost predicate Claims(rss: seq<ResourceScope>, r: string, k: Action) {
    || ResourceScope(TYPE_REPOSITORY, r, ActionName(k)) in rss
    || (r == "" && k == 2 && CATALOG in rss)
  }

  ghost predicate Exact(rss: seq<ResourceScope>, s: Scope) {
    && Shaped(s) && !s.unlimited
    && (forall o :: o in s.others <==> o in rss && !IsKnown(o))
    && (forall r, k: Action :: k != 0 ==> (HasBit(s, r, k) <==> Claims(rss, r, k)))
  }

  /** On sorted input, clean or not, the slices record exactly the claims above. */
  lemma {:induction false} BuildIsExact(rss: seq<ResourceScope>)
    requires Increasing(rss, Before)
    ensures Exact(rss, Build(rss))
  {
    if rss == [] {
      assert !exists r, k: Action :: HasBit(EMPTY, r, k);
    } else {
      var init, rs := rss[..|rss| - 1], rss[|rss| - 1];
      InitIncreases(rss, Before);
      BuildIsExact(init);
      assert rss == init + [rs];
      AddIsExact(init, Build(init), rs);
    }
  }

  lemma AddIsExact(init: seq<ResourceScope>, s: Scope, rs: ResourceScope)
    requires Exact(init, s)
    requires forall x :: x in init ==> Before(x, rs)
    ensures Exact(init + [rs], Add(s, rs))
  {
    if !IsKnown(rs) {
      AddUnknown(init, s, rs);
    } else if rs.resourceType == TYPE_REGISTRY {
      AddCatalog(init, s);
    } else {
      LessIsStrictTotal();
      LastNameIsLeast(init, s, rs);
      AddKnownAction(init, s, rs);
    }
  }

  lemma ClaimsGrow(init: seq<ResourceScope>, rs: ResourceScope, r: string, k: Action)
    requires k != 0
    ensures Claims(init + [rs], r, k) <==>
            || Claims(init, r, k)
            || rs == ResourceScope(TYPE_REPOSITORY, r, ActionName(k))
            || (r == "" && k == 2 && rs == CATALOG)
  {
  }

  lemma AddUnknown(init: seq<ResourceScope>, s: Scope, rs: ResourceScope)
    requires Exact(init, s) && !IsKnown(rs)
    requires forall x :: x in init ==> Before(x, rs)
    ensures Exact(init + [rs], Add(s, rs))
  {
    OthersGrow(init, s, rs);
    var t := s.(others := s.others + [rs]);
    assert Add(s, rs) == t;
    forall r, k: Action | k != 0 ensures HasBit(t, r, k) <==> Claims(init + [rs], r, k) {
      SameBits(s, t, r, k);
      assert ParseKnownAction(ActionName(k)) == k;
      ClaimsGrow(init, rs, r, k);
    }
  }

  lemma OthersGrow(init: seq<ResourceScope>, s: Scope, rs: ResourceScope)
    requires Exact(init, s) && !IsKnown(rs)
    requires forall x :: x in init ==> Before(x, rs)
    ensures Shaped(s.(others := s.others + [rs]))
  {
    assert forall x, y :: x in s.others && y in [rs] ==> Before(x, y);
    IncreasingConcat(s.others, [rs], Before);
  }

  lemma SameBits(s: Scope, t: Scope, r: string, k: Action)
    requires t.repositories == s.repositories && t.actions == s.actions
    ensures HasBit(t, r, k) <==> HasBit(s, r, k)
  {
  }

  lemma AddCatalog(init: seq<ResourceScope>, s: Scope)
    requires Exact(init, s)
    requires forall x :: x in init ==> Before(x, CATALOG)
    ensures Exact(init + [CATALOG], Add(s, CATALOG))
  {
    NothingBeforeCatalog(init, s);
    var t := Add(s, CATALOG);
    assert t.repositories == [""] && t.actions == [Bit(2)];
    assert Shaped(t);
    forall r, k: Action | k != 0 ensures HasBit(t, r, k) <==> Claims(init + [CATALOG], r, k) {
      BitAt(t, 0, k);
      assert HasBit(t, r, k) ==> r == "";
      assert On(Bit(2), k) <==> k == 2;
      ClaimsGrow(init, CATALOG, r, k);
      assert !HasBit(s, r, k);
    }
  }

  /** Every repository entry comes after the catalog entry. */
  lemma NothingBeforeCatalog(init: seq<ResourceScope>, s: Scope)
    requires Exact(init, s)
    requires forall x :: x in init ==> Before(x, CATALOG)
    ensures s.repositories == []
  {
    BeforeIsStrictTotal();
    if s.repositories != [] {
      var k := EntryHasAction(s, 0);
      assert Claims(init, s.repositories[0], k);
      RegistryBeforeRepository();
    }
  }

  lemma RegistryBeforeRepository()
    ensures Less(TYPE_REGISTRY, TYPE_REPOSITORY) && !Less(TYPE_REPOSITORY, TYPE_REGISTRY)
  {
    var a, b := TYPE_REGISTRY, TYPE_REPOSITORY;
    assert a[1..][1..] == "gistry" && b[1..][1..] == "pository";
    assert Compare(a[1..][1..], b[1..][1..]) == -1;
    assert Compare(a[1..], b[1..]) == -1;
    CompareFlips(a, b);
  }

  /** Names are met in order: no name in s exceeds that of the next entry. */
  lemma LastNameIsLeast(init: seq<ResourceScope>, s: Scope, rs: ResourceScope)
    requires Exact(init, s) && rs.resourceType == TYPE_REPOSITORY && IsKnown(rs)
    requires forall x :: x in init ==> Before(x, rs)
    ensures forall i :: 0 <= i < |s.repositories| ==>
              s.repositories[i] == rs.resource || Less(s.repositories[i], rs.resource)
  {
    LessIsStrictTotal();
    forall i | 0 <= i < |s.repositories|
      ensures s.repositories[i] == rs.resource || Less(s.repositories[i], rs.resource)
    {
      var k := EntryHasAction(s, i);
      assert Claims(init, s.repositories[i], k);
    }
  }

  lemma AddKnownAction(init: seq<ResourceScope>, s: Scope, rs: ResourceScope)
    requires Exact(init, s) && rs.resourceType == TYPE_REPOSITORY && IsKnown(rs)
    requires StrictTotalOrder(Less)
    requires forall i :: 0 <= i < |s.repositories| ==>
               s.repositories[i] == rs.resource || Less(s.repositories[i], rs.resource)
    ensures Exact(init + [rs], Add(s, rs))
  {
    var kr := ParseKnownAction(rs.action);
    var n := |s.repositories|;
    if n > 0 && s.repositories[n - 1] == rs.resource {
      ExtendLastMask(s, kr);
    } else {
      AppendName(s, rs.resource, kr);
    }
    assert rs == ResourceScope(TYPE_REPOSITORY, rs.resource, ActionName(kr));
    forall r, k: Action | k != 0 ensures HasBit(Add(s, rs), r, k) <==> Claims(init + [rs], r, k) {
      assert ParseKnownAction(ActionName(k)) == k;
      ClaimsGrow(init, rs, r, k);
    }
  }

  lemma ExtendLastMask(s: Scope, kr: Action)
    requires Shaped(s) && |s.repositories| > 0 && kr != 0
    ensures var n := |s.repositories|;
            var t := s.(actions := s.actions[n - 1 := s.actions[n - 1] | Bit(kr)]);
            && Shaped(t)
            && forall r, k: Action :: k != 0 ==>
                 (HasBit(t, r, k) <==> HasBit(s, r, k) || (r == s.repositories[n - 1] && k == kr))
  {
    LessIsStrictTotal();
    var n := |s.repositories|;
    OrBits(s.actions[n - 1], kr);
    var t := s.(actions := s.actions[n - 1 := s.actions[n - 1] | Bit(kr)]);
    assert Shaped(t);
    forall r, k: Action | k != 0
      ensures HasBit(t, r, k) <==> HasBit(s, r, k) || (r == s.repositories[n - 1] && k == kr)
    {
      if r in s.repositories {
        var i :| 0 <= i < n && s.repositories[i] == r;
        BitAt(s, i, k);
        BitAt(t, i, k);
      }
    }
  }

  lemma AppendName(s: Scope, name: string, kr: Action)
    requires Shaped(s) && !s.unlimited && kr != 0
    requires forall i :: 0 <= i < |s.repositories| ==> Less(s.repositories[i], name)
    ensures var t := s.(repositories := s.repositories + [name], actions := s.actions + [Bit(kr)]);
            && Shaped(t)
            && forall r, k: Action :: k != 0 ==> (HasBit(t, r, k) <==> HasBit(s, r, k) || (r == name && k == kr))
  {
    LessIsStrictTotal();
    var n := |s.repositories|;
    var t := s.(repositories := s.repositories + [name], actions := s.actions + [Bit(kr)]);
    OrBits(0, kr);
    assert Shaped(t);
    forall r, k: Action | k != 0 ensures HasBit(t, r, k) <==> HasBit(s, r, k) || (r == name && k == kr) {
      if r == name {
        assert t.repositories[n] == r;
        BitAt(t, n, k);
        assert !HasBit(s, r, k);
      } else if r in s.repositories {
        var i :| 0 <= i < n && s.repositories[i] == r;
        assert t.repositories[i] == r;
        BitAt(s, i, k);
        BitAt(t, i, k);
      }
    }
  }

  lemma OrBits(m: bv8, kr: Action)
    requires kr != 0 && (m == 0 || ValidMask(m))
    ensures ValidMask(m | Bit(kr))
    ensures forall k: Action :: k != 0 ==> (On(m | Bit(kr), k) <==> On(m, k) || k == kr)
  {
    forall k: Action | k != 0 ensures On(m | Bit(kr), k) <==> On(m, k) || k == kr {
      assert (m | Bit(kr)) & Bit(k) == (m & Bit(k)) | (Bit(kr) & Bit(k));
    }
  }

  /** NewScope denotes its input when no entry is nameless. */
  lemma BuildDenotes(rss: seq<ResourceScope>)
    requires Increasing(rss, Before) && Clean(rss)
    ensures Canonical(Build(rss))
    ensures forall r :: Member(Build(rss), r) <==> r in rss
  {
    BuildIsExact(rss);
    var s := Build(rss);
    forall i | 0 <= i < |s.repositories| && s.repositories[i] == ""
      ensures s.actions[i] == Bit(2) && CATALOG in rss
    {
      NamelessBits(rss, s, i);
    }
    forall r ensures Member(s, r) <==> r in rss {
      if r == CATALOG {
        if CATALOG in rss {
          assert Claims(rss, "", 2);
        }
      } else if IsKnown(r) {
        var k := ParseKnownAction(r.action);
        assert r == ResourceScope(TYPE_REPOSITORY, r.resource, ActionName(k));
        assert r.resource == "" ==> Nameless(r);
        assert HasBit(s, r.resource, k) <==> Claims(rss, r.resource, k);
      }
    }
  }

  lemma NamelessBits(rss: seq<ResourceScope>, s: Scope, i: nat)
    requires Exact(rss, s) && Clean(rss) && i < |s.repositories| && s.repositories[i] == ""
    ensures s.actions[i] == Bit(2) && CATALOG in rss
  {
    BitAt(s, i, 1);
    BitAt(s, i, 2);
    BitAt(s, i, 3);
    assert forall k: Action :: k != 0 ==> IsKnown(ResourceScope(TYPE_REPOSITORY, "", ActionName(k)));
    assert forall k: Action :: k != 0 ==> !(ResourceScope(TYPE_REPOSITORY, "", ActionName(k)) in rss) by {
      forall k: Action | k != 0 ensures ResourceScope(TYPE_REPOSITORY, "", ActionName(k)) !in rss {
        assert Nameless(ResourceScope(TYPE_REPOSITORY, "", ActionName(k)));
      }
    }
    assert !Claims(rss, "", 1) && !Claims(rss, "", 3);
    MaskBits(s.actions[i]);
    MasksEqual(s.actions[i], Bit(2));
  }

  /** slices.BinarySearch on a sorted slice: where x is, or |names|. */
  function Search(names: seq<string>, x: string): (i: nat)
    ensures i <= |names|
    ensures i < |names| ==> names[i] == x
    ensures i == |names| ==> x !in names
  {
    if names == [] then 0
    else
      assert names == [names[0]] + names[1..];
      if names[0] == x then 0 else 1 + Search(names[1..], x)
  }

  /** Scope.Holds */
  function Holds(s: Scope, r: ResourceScope): bool
    requires |s.repositories| == |s.actions|
  {
    if s.unlimited then true
    else if r == CATALOG then "" in s.repositories
    else if r.resourceType == TYPE_REPOSITORY && ParseKnownAction(r.action) != 0 then
      var i := Search(s.repositories, r.resource);
      i < |s.repositories| && On(s.actions[i], ParseKnownAction(r.action))
    else r in s.others
  }

  lemma HoldsReadsTheMask(s: Scope, r: ResourceScope)
    requires Shaped(s) && !s.unlimited && r.resourceType == TYPE_REPOSITORY && IsKnown(r)
    ensures Holds(s, r) <==> HasBit(s, r.resource, ParseKnownAction(r.action))
  {
    var i := Search(s.repositories, r.resource);
    if i < |s.repositories| {
      BitAt(s, i, ParseKnownAction(r.action));
    }
  }

  /** Holds is membership, for every question that names its repository. */
  lemma HoldsIsMembership(s: Scope, r: ResourceScope)
    requires Canonical(s) && !Nameless(r)
    ensures Holds(s, r) <==> Member(s, r)
  {
    if !s.unlimited && r.resourceType == TYPE_REPOSITORY && IsKnown(r) {
      HoldsReadsTheMask(s, r);
    }
  }

  /** The inputs on which the catalog entry and the nameless repository entries,
      which share one slot, happen to answer for each other correctly. */
  predicate Distinguishable(rss: seq<ResourceScope>) {
    && (CATALOG in rss <==> ResourceScope(TYPE_REPOSITORY, "", "pull") in rss)
    && (CATALOG !in rss ==> Clean(rss))
  }

  /** Without any hypothesis: Holds on NewScope(rss) answers every question
      correctly exactly for the distinguishable inputs. */
  lemma HoldsExactlyWhenDistinguishable(rss: seq<ResourceScope>)
    requires Increasing(rss, Before)
    ensures Shaped(Build(rss))
    ensures (forall r :: Holds(Build(rss), r) <==> r in rss) <==> Distinguishable(rss)
  {
    BuildIsExact(rss);
    var s := Build(rss);
    CatalogAnswer(rss, s);
    var pull := ResourceScope(TYPE_REPOSITORY, "", "pull");
    KnownAnswer(rss, s, pull);
    if Distinguishable(rss) {
      forall r ensures Holds(s, r) <==> r in rss {
        if IsKnown(r) && r != CATALOG { KnownAnswer(rss, s, r); }
      }
    } else if Holds(s, CATALOG) == (CATALOG in rss) {
      assert Holds(s, pull) != (pull in rss);
    }
  }

  lemma KnownAnswer(rss: seq<ResourceScope>, s: Scope, r: ResourceScope)
    requires Exact(rss, s) && IsKnown(r) && r != CATALOG
    ensures Holds(s, r) <==> r in rss || (r == ResourceScope(TYPE_REPOSITORY, "", "pull") && CATALOG in rss)
  {
    var k := ParseKnownAction(r.action);
    HoldsReadsTheMask(s, r);
    assert r == ResourceScope(TYPE_REPOSITORY, r.resource, ActionName(k));
    assert HasBit(s, r.resource, k) <==> Claims(rss, r.resource, k);
    assert k == 2 <==> r.action == "pull";
  }

  lemma CatalogAnswer(rss: seq<ResourceScope>, s: Scope)
    requires Exact(rss, s)
    ensures Holds(s, CATALOG) <==> CATALOG in rss || !Clean(rss)
  {
    if "" in s.repositories {
      var i :| 0 <= i < |s.repositories| && s.repositories[i] == "";
      var k := EntryHasAction(s, i);
      assert Claims(rss, "", k);
      if CATALOG !in rss {
        assert Nameless(ResourceScope(TYPE_REPOSITORY, "", ActionName(k)));
      }
    }
    if CATALOG in rss {
      assert Claims(rss, "", 2);
      assert HasBit(s, "", 2);
    }
    if !Clean(rss) {
      var n :| n in rss && Nameless(n);
      assert n == ResourceScope(TYPE_REPOSITORY, "", ActionName(ParseKnownAction(n.action)));
      assert Claims(rss, "", ParseKnownAction(n.action));
      assert HasBit(s, "", ParseKnownAction(n.action));
    }
  }

  /** For instance, a scope with nothing but the catalog entry also seems to hold
      the pull action of a repository without a name. */
  lemma CatalogPassesForPull(rss: seq<ResourceScope>, pull: ResourceScope)
    requires rss == [CATALOG] && pull == ResourceScope(TYPE_REPOSITORY, "", "pull")
    ensures Shaped(Build(rss)) && Holds(Build(rss), pull) && pull !in rss
  {
    BuildIsExact(rss);
    assert CATALOG in rss && pull !in rss;
    KnownAnswer(rss, Build(rss), pull);
  }
}
