/** ociauth/scope.go, Union and Contains: set algebra by parallel scans of the slices. */
module ScopeSets {
  import opened Ordering
  import opened Scope

  /** Some repository entry from index i on has name r and the bit of k. */
  ghost predicate BitFrom(names: seq<string>, masks: seq<bv8>, r: string, k: Action)
    requires |names| == |masks|
  {
    exists i :: 0 <= i < |names| && names[i] == r && On(masks[i], k)
  }

  ghost predicate Entries(names: seq<string>, masks: seq<bv8>) {
    && |names| == |masks|
    && Increasing(names, Less)
    && (forall i :: 0 <= i < |masks| ==> ValidMask(masks[i]))
    && (forall i :: 0 <= i < |names| && names[i] == "" ==> masks[i] == Bit(2))
  }

  // The repository half of Union, as a merge of two sorted lists of entries.

  function MergeNames(n1: seq<string>, m1: seq<bv8>, n2: seq<string>, m2: seq<bv8>): (r: (seq<string>, seq<bv8>))
    requires |n1| == |m1| && |n2| == |m2|
    ensures |r.0| == |r.1|
    decreases |n1| + |n2|
  {
    if n1 == [] then (n2, m2)
    else if n2 == [] then (n1, m1)
    else if Compare(n1[0], n2[0]) == 0 then
      var r := MergeNames(n1[1..], m1[1..], n2[1..], m2[1..]);
      ([n1[0]] + r.0, [m1[0] | m2[0]] + r.1)
    else if Compare(n1[0], n2[0]) == -1 then
      var r := MergeNames(n1[1..], m1[1..], n2, m2);
      ([n1[0]] + r.0, [m1[0]] + r.1)
    else
      var r := MergeNames(n1, m1, n2[1..], m2[1..]);
      ([n2[0]] + r.0, [m2[0]] + r.1)
  }

  /** What is still to be appended to (names, masks) to reach all. */
  ghost predicate Remaining(names: seq<string>, masks: seq<bv8>, r: (seq<string>, seq<bv8>),
                            all: (seq<string>, seq<bv8>)) {
    names + r.0 == all.0 && masks + r.1 == all.1
  }

  lemma Moved(names: seq<string>, masks: seq<bv8>, x: string, b: bv8, r: (seq<string>, seq<bv8>),
              all: (seq<string>, seq<bv8>))
    requires Remaining(names, masks, ([x] + r.0, [b] + r.1), all)
    ensures Remaining(names + [x], masks + [b], r, all)
  {
    assert names + ([x] + r.0) == (names + [x]) + r.0;
    assert masks + ([b] + r.1) == (masks + [b]) + r.1;
  }

  method UnionNames(n1: seq<string>, m1: seq<bv8>, n2: seq<string>, m2: seq<bv8>)
    returns (names: seq<string>, masks: seq<bv8>)
    requires |n1| == |m1| && |n2| == |m2|
    ensures (names, masks) == MergeNames(n1, m1, n2, m2)
  {
    names, masks := [], [];
    var i1, i2 := 0, 0;
    ghost var all := MergeNames(n1, m1, n2, m2);
    while i1 < |n1| && i2 < |n2|
      invariant 0 <= i1 <= |n1| && 0 <= i2 <= |n2|
      invariant Remaining(names, masks, MergeNames(n1[i1..], m1[i1..], n2[i2..], m2[i2..]), all)
      decreases |n1| - i1 + |n2| - i2
    {
      var repo1, repo2 := n1[i1], n2[i2];
      assert n1[i1..][1..] == n1[i1 + 1..] && m1[i1..][1..] == m1[i1 + 1..];
      assert n2[i2..][1..] == n2[i2 + 1..] && m2[i2..][1..] == m2[i2 + 1..];
      match Compare(repo1, repo2) {
        case 0 =>
          Moved(names, masks, repo1, m1[i1] | m2[i2], MergeNames(n1[i1 + 1..], m1[i1 + 1..], n2[i2 + 1..],
            m2[i2 + 1..]), all);
          names, masks := names + [repo1], masks + [m1[i1] | m2[i2]];
          i1, i2 := i1 + 1, i2 + 1;
        case -1 =>
          Moved(names, masks, n1[i1], m1[i1], MergeNames(n1[i1 + 1..], m1[i1 + 1..], n2[i2..], m2[i2..]), all);
          names, masks := names + [n1[i1]], masks + [m1[i1]];
          i1 := i1 + 1;
        case _ =>
          Moved(names, masks, n2[i2], m2[i2], MergeNames(n1[i1..], m1[i1..], n2[i2 + 1..], m2[i2 + 1..]), all);
          names, masks := names + [n2[i2]], masks + [m2[i2]];
          i2 := i2 + 1;
      }
    }
    assert n1[i1..] == [] || n2[i2..] == [];
    if i1 < |n1| {
      names, masks := names + n1[i1..], masks + m1[i1..];
    } else if i2 < |n2| {
      names, masks := names + n2[i2..], masks + m2[i2..];
    }
    assert names == all.0 && masks == all.1;
  }

  lemma BitHead(n: seq<string>, m: seq<bv8>, r: string, k: Action)
    requires |n| == |m| && n != []
    ensures BitFrom(n, m, r, k) <==> (r == n[0] && On(m[0], k)) || BitFrom(n[1..], m[1..], r, k)
  {
    if BitFrom(n, m, r, k) {
      var i :| 0 <= i < |n| && n[i] == r && On(m[i], k);
      assert i > 0 ==> n[1..][i - 1] == r && On(m[1..][i - 1], k);
    }
    if BitFrom(n[1..], m[1..], r, k) {
      var i :| 0 <= i < |n[1..]| && n[1..][i] == r && On(m[1..][i], k);
      assert n[i + 1] == r && On(m[i + 1], k);
    }
  }

  lemma EntriesTail(n: seq<string>, m: seq<bv8>)
    requires Entries(n, m) && n != []
    ensures Entries(n[1..], m[1..])
    ensures forall x :: x in n[1..] ==> Less(n[0], x)
    ensures forall r, k: Action :: BitFrom(n, m, r, k) <==>
              (r == n[0] && On(m[0], k)) || BitFrom(n[1..], m[1..], r, k)
  {
    forall r, k: Action
      ensures BitFrom(n, m, r, k) <==> (r == n[0] && On(m[0], k)) || BitFrom(n[1..], m[1..], r, k)
    {
      BitHead(n, m, r, k);
    }
  }

  lemma EntriesCons(x: string, b: bv8, n: seq<string>, m: seq<bv8>)
    requires Entries(n, m) && ValidMask(b) && (x == "" ==> b == Bit(2))
    requires forall y :: y in n ==> Less(x, y)
    ensures Entries([x] + n, [b] + m)
    ensures forall r, k: Action :: BitFrom([x] + n, [b] + m, r, k) <==>
              (r == x && On(b, k)) || BitFrom(n, m, r, k)
  {
    assert ([x] + n)[1..] == n && ([b] + m)[1..] == m;
    assert forall i :: 0 < i < |[x] + n| ==> ([x] + n)[i] == n[i - 1] && n[i - 1] in n;
    EntriesTail([x] + n, [b] + m);
  }

  /** The merge keeps the entries sorted and unites the action sets. */
  lemma {:induction false} MergeNamesMeaning(n1: seq<string>, m1: seq<bv8>, n2: seq<string>, m2: seq<bv8>)
    requires StrictTotalOrder(Less)
    requires Entries(n1, m1) && Entries(n2, m2)
    ensures var r := MergeNames(n1, m1, n2, m2);
            && Entries(r.0, r.1)
            && (forall x :: x in r.0 <==> x in n1 || x in n2)
            && (forall x, k: Action :: BitFrom(r.0, r.1, x, k) <==> BitFrom(n1, m1, x, k) || BitFrom(n2, m2, x, k))
    decreases |n1| + |n2|
  {
    if n1 == [] || n2 == [] {
    } else {
      EntriesTail(n1, m1);
      EntriesTail(n2, m2);
      CompareFlips(n1[0], n2[0]);
      assert n1 == [n1[0]] + n1[1..] && n2 == [n2[0]] + n2[1..];
      if Compare(n1[0], n2[0]) == 0 {
        MergeNamesMeaning(n1[1..], m1[1..], n2[1..], m2[1..]);
        var r := MergeNames(n1[1..], m1[1..], n2[1..], m2[1..]);
        OrMasks(m1[0], m2[0]);
        EntriesCons(n1[0], m1[0] | m2[0], r.0, r.1);
      } else if Compare(n1[0], n2[0]) == -1 {
        MergeNamesMeaning(n1[1..], m1[1..], n2, m2);
        var r := MergeNames(n1[1..], m1[1..], n2, m2);
        EntriesCons(n1[0], m1[0], r.0, r.1);
      } else {
        MergeNamesMeaning(n1, m1, n2[1..], m2[1..]);
        var r := MergeNames(n1, m1, n2[1..], m2[1..]);
        EntriesCons(n2[0], m2[0], r.0, r.1);
      }
    }
  }

  lemma OrMasks(a: bv8, b: bv8)
    requires ValidMask(a) && ValidMask(b)
    ensures ValidMask(a | b)
    ensures a == b ==> a | b == a
    ensures forall k: Action :: On(a | b, k) <==> On(a, k) || On(b, k)
  {
    forall k: Action ensures On(a | b, k) <==> On(a, k) || On(b, k) {
      assert (a | b) & Bit(k) == (a & Bit(k)) | (b & Bit(k));
    }
  }

  // The others half of Union.

  function MergeOthers(o1: seq<ResourceScope>, o2: seq<ResourceScope>): seq<ResourceScope>
    decreases |o1| + |o2|
  {
    if o1 == [] then o2
    else if o2 == [] then o1
    else if CompareScopes(o1[0], o2[0]) == 0 then [o1[0]] + MergeOthers(o1[1..], o2[1..])
    else if CompareScopes(o1[0], o2[0]) == -1 then [o1[0]] + MergeOthers(o1[1..], o2)
    else [o2[0]] + MergeOthers(o1, o2[1..])
  }

  lemma MovedOther(others: seq<ResourceScope>, x: ResourceScope, rest: seq<ResourceScope>)
    ensures others + ([x] + rest) == (others + [x]) + rest
  {
  }

  method UnionOthers(o1: seq<ResourceScope>, o2: seq<ResourceScope>) returns (others: seq<ResourceScope>)
    ensures others == MergeOthers(o1, o2)
  {
    others := [];
    var i1, i2 := 0, 0;
    assert o1[0..] == o1 && o2[0..] == o2;
    ghost var all := MergeOthers(o1, o2);
    while i1 < |o1| && i2 < |o2|
      invariant 0 <= i1 <= |o1| && 0 <= i2 <= |o2|
      invariant others + MergeOthers(o1[i1..], o2[i2..]) == all
      decreases |o1| - i1 + |o2| - i2
    {
      var a1, a2 := o1[i1], o2[i2];
      assert o1[i1..][1..] == o1[i1 + 1..] && o2[i2..][1..] == o2[i2 + 1..];
      match CompareScopes(a1, a2) {
        case 0 =>
          MovedOther(others, a1, MergeOthers(o1[i1 + 1..], o2[i2 + 1..]));
          others := others + [a1];
          i1, i2 := i1 + 1, i2 + 1;
        case -1 =>
          MovedOther(others, a1, MergeOthers(o1[i1 + 1..], o2[i2..]));
          others := others + [a1];
          i1 := i1 + 1;
        case _ =>
          MovedOther(others, a2, MergeOthers(o1[i1..], o2[i2 + 1..]));
          others := others + [a2];
          i2 := i2 + 1;
      }
    }
    assert o1[i1..] == [] || o2[i2..] == [];
    if i1 < |o1| {
      others := others + o1[i1..];
    } else if i2 < |o2| {
      others := others + o2[i2..];
    }
  }

  lemma {:induction false} MergeOthersMeaning(o1: seq<ResourceScope>, o2: seq<ResourceScope>)
    requires StrictTotalOrder(Before)
    requires Increasing(o1, Before) && Increasing(o2, Before)
    ensures Increasing(MergeOthers(o1, o2), Before)
    ensures forall r :: r in MergeOthers(o1, o2) <==> r in o1 || r in o2
    decreases |o1| + |o2|
  {
    if o1 == [] || o2 == [] {
    } else {
      TailMembers(o1, Before);
      TailMembers(o2, Before);
      var head := if Before(o2[0], o1[0]) then o2[0] else o1[0];
      var t1 := if head == o1[0] then o1[1..] else o1;
      var t2 := if head == o2[0] then o2[1..] else o2;
      MergeOthersMeaning(t1, t2);
      assert Before(o1[0], o2[0]) || o1[0] == o2[0] || Before(o2[0], o1[0]);
      assert MergeOthers(o1, o2) == [head] + MergeOthers(t1, t2);
      assert o1[0] in o1 && o2[0] in o2;
      assert forall x, y :: x in [head] && y in MergeOthers(t1, t2) ==> Before(x, y);
      IncreasingConcat([head], MergeOthers(t1, t2), Before);
    }
  }

  function UnionSpec(s1: Scope, s2: Scope): Scope
    requires |s1.repositories| == |s1.actions| && |s2.repositories| == |s2.actions|
  {
    var r := MergeNames(s1.repositories, s1.actions, s2.repositories, s2.actions);
    Scope("", false, r.0, r.1, MergeOthers(s1.others, s2.others))
  }

  /** Union keeps the canonical form and denotes the union of the members. */
  lemma UnionMeaning(s1: Scope, s2: Scope)
    requires Canonical(s1) && Canonical(s2) && !s1.unlimited && !s2.unlimited
    ensures Canonical(UnionSpec(s1, s2))
    ensures forall r :: Member(UnionSpec(s1, s2), r) <==> Member(s1, r) || Member(s2, r)
  {
    LessIsStrictTotal();
    BeforeIsStrictTotal();
    MergeNamesMeaning(s1.repositories, s1.actions, s2.repositories, s2.actions);
    MergeOthersMeaning(s1.others, s2.others);
    var u := UnionSpec(s1, s2);
    forall r, k: Action ensures HasBit(u, r, k) <==> HasBit(s1, r, k) || HasBit(s2, r, k) {
      assert HasBit(u, r, k) <==> BitFrom(u.repositories, u.actions, r, k);
      assert HasBit(s1, r, k) <==> BitFrom(s1.repositories, s1.actions, r, k);
      assert HasBit(s2, r, k) <==> BitFrom(s2.repositories, s2.actions, r, k);
    }
  }

  /** Scope.Union */
  method Union(s1: Scope, s2: Scope) returns (r: Scope)
    requires Canonical(s1) && Canonical(s2)
    ensures Canonical(r)
    ensures forall x :: Member(r, x) <==> Member(s1, x) || Member(s2, x)
    ensures r.unlimited <==> s1.unlimited || s2.unlimited
    // Adding nothing keeps s1 as it is, its original string included.
    ensures Equal(r, s1) && !s1.unlimited ==> r == s1
    ensures !Equal(r, s1) ==> r.original == ""
  {
    if s1.unlimited || s2.unlimited { return UNLIMITED; }
    if IsEmpty(s2) || Equal(s1, s2) { return s1; }
    var names, masks := UnionNames(s1.repositories, s1.actions, s2.repositories, s2.actions);
    var others := UnionOthers(s1.others, s2.others);
    r := Scope("", false, names, masks, others);
    UnionMeaning(s1, s2);
    if Equal(r, s1) {
      assert forall x :: Member(r, x) <==> Member(s1, x);
      return s1;
    }
  }

  /** Union does not depend on order, grouping or repetition. */
  lemma UnionLaws(a: Scope, b: Scope, c: Scope)
    requires Canonical(a) && Canonical(b) && Canonical(c)
    requires !a.unlimited && !b.unlimited && !c.unlimited
    ensures Equal(UnionSpec(a, b), UnionSpec(b, a))
    ensures Equal(UnionSpec(UnionSpec(a, b), c), UnionSpec(a, UnionSpec(b, c)))
    ensures Equal(UnionSpec(a, a), a)
  {
    UnionMeaning(a, b);
    UnionMeaning(b, a);
    UnionMeaning(b, c);
    UnionMeaning(a, a);
    UnionMeaning(UnionSpec(a, b), c);
    UnionMeaning(a, UnionSpec(b, c));
    SameMembersSameScope(UnionSpec(a, b), UnionSpec(b, a));
    SameMembersSameScope(UnionSpec(UnionSpec(a, b), c), UnionSpec(a, UnionSpec(b, c)));
    SameMembersSameScope(UnionSpec(a, a), a);
  }

  // Contains.

  function ContainsNames(n1: seq<string>, m1: seq<bv8>, n2: seq<string>, m2: seq<bv8>): bool
    requires |n1| == |m1| && |n2| == |m2|
    decreases |n1|
  {
    if n2 == [] then true
    else if n1 == [] then false
    else if Compare(n1[0], n2[0]) == 1 then false
    else if Compare(n1[0], n2[0]) == 0 then
      m1[0] & m2[0] == m2[0] && ContainsNames(n1[1..], m1[1..], n2[1..], m2[1..])
    else ContainsNames(n1[1..], m1[1..], n2, m2)
  }

  function ContainsOthers(o1: seq<ResourceScope>, o2: seq<ResourceScope>): bool
    decreases |o1|
  {
    if o2 == [] then true
    else if o1 == [] then false
    else if CompareScopes(o1[0], o2[0]) == 1 then false
    else if CompareScopes(o1[0], o2[0]) == 0 then ContainsOthers(o1[1..], o2[1..])
    else ContainsOthers(o1[1..], o2)
  }

  /** One comparison of Contains' first loop. */
  lemma ContainsNamesUnfolds(n1: seq<string>, m1: seq<bv8>, i1: nat, n2: seq<string>, m2: seq<bv8>, i2: nat)
    requires i1 < |n1| == |m1| && i2 < |n2| == |m2|
    ensures var c := Compare(n1[i1], n2[i2]);
            ContainsNames(n1[i1..], m1[i1..], n2[i2..], m2[i2..]) ==
              if c == 1 then false
              else if c == 0 then m1[i1] & m2[i2] == m2[i2] &&
                ContainsNames(n1[i1 + 1..], m1[i1 + 1..], n2[i2 + 1..], m2[i2 + 1..])
              else ContainsNames(n1[i1 + 1..], m1[i1 + 1..], n2[i2..], m2[i2..])
  {
    assert n1[i1..][1..] == n1[i1 + 1..] && m1[i1..][1..] == m1[i1 + 1..];
    assert n2[i2..][1..] == n2[i2 + 1..] && m2[i2..][1..] == m2[i2 + 1..];
  }

  method CheckNames(n1: seq<string>, m1: seq<bv8>, n2: seq<string>, m2: seq<bv8>) returns (ok: bool)
    requires |n1| == |m1| && |n2| == |m2|
    ensures ok == ContainsNames(n1, m1, n2, m2)
  {
    var i1 := 0;
    for i2 := 0 to |n2|
      invariant 0 <= i1 <= |n1|
      invariant ContainsNames(n1, m1, n2, m2) == ContainsNames(n1[i1..], m1[i1..], n2[i2..], m2[i2..])
    {
      var found := false;
      ghost var start := i1;
      while i1 < |n1| && !found
        invariant start <= i1 <= |n1|
        invariant ContainsNames(n1, m1, n2, m2) ==
                  if found then ContainsNames(n1[i1..], m1[i1..], n2[i2 + 1..], m2[i2 + 1..])
                  else ContainsNames(n1[i1..], m1[i1..], n2[i2..], m2[i2..])
        decreases |n1| - i1, !found
      {
        ContainsNamesUnfolds(n1, m1, i1, n2, m2, i2);
        match Compare(n1[i1], n2[i2]) {
          case 1 => return false;
          case 0 =>
            if m1[i1] & m2[i2] != m2[i2] { return false; }
            i1 := i1 + 1;
            found := true;
          case _ => i1 := i1 + 1;
        }
      }
      if !found { return false; }
    }
    return true;
  }

  method CheckOthers(o1: seq<ResourceScope>, o2: seq<ResourceScope>) returns (ok: bool)
    ensures ok == ContainsOthers(o1, o2)
  {
    var i1 := 0;
    for i2 := 0 to |o2|
      invariant 0 <= i1 <= |o1|
      invariant ContainsOthers(o1, o2) == ContainsOthers(o1[i1..], o2[i2..])
    {
      var found := false;
      assert o2[i2..][1..] == o2[i2 + 1..];
      while i1 < |o1| && !found
        invariant 0 <= i1 <= |o1|
        invariant ContainsOthers(o1, o2) ==
                  if found then ContainsOthers(o1[i1..], o2[i2 + 1..]) else ContainsOthers(o1[i1..], o2[i2..])
        decreases |o1| - i1, !found
      {
        assert o1[i1..][1..] == o1[i1 + 1..];
        match CompareScopes(o1[i1], o2[i2]) {
          case 1 => return false;
          case 0 =>
            i1 := i1 + 1;
            found := true;
          case _ => i1 := i1 + 1;
        }
      }
      if !found { return false; }
    }
    return true;
  }

  lemma {:induction false} ContainsNamesMeaning(n1: seq<string>, m1: seq<bv8>, n2: seq<string>, m2: seq<bv8>)
    requires StrictTotalOrder(Less)
    requires Entries(n1, m1) && Entries(n2, m2)
    ensures ContainsNames(n1, m1, n2, m2) <==>
            forall r, k: Action :: BitFrom(n2, m2, r, k) ==> BitFrom(n1, m1, r, k)
    decreases |n1|
  {
    if n2 == [] {
    } else {
      EntriesTail(n2, m2);
      var k0 := FirstBit(m2[0]);
      assert BitFrom(n2, m2, n2[0], k0);
      if n1 != [] {
        EntriesTail(n1, m1);
        NotInTail(n1, m1);
        NotInTail(n2, m2);
        CompareFlips(n1[0], n2[0]);
        if Compare(n1[0], n2[0]) == 1 {
          assert !BitFrom(n1, m1, n2[0], k0);
        } else if Compare(n1[0], n2[0]) == 0 {
          ContainsNamesMeaning(n1[1..], m1[1..], n2[1..], m2[1..]);
          MaskSubset(m1[0], m2[0]);
          HeadsAlike(n1, m1, n2, m2);
        } else {
          ContainsNamesMeaning(n1[1..], m1[1..], n2, m2);
          SkipHead(n1, m1, n2, m2);
        }
      }
    }
  }

  lemma FirstBit(m: bv8) returns (k: Action)
    requires ValidMask(m)
    ensures On(m, k)
  {
    MaskBits(m);
    k := if m & 2 != 0 then 1 else if m & 4 != 0 then 2 else 3;
  }

  lemma MaskSubset(a: bv8, b: bv8)
    requires ValidMask(a) && ValidMask(b)
    ensures a & b == b <==> forall k: Action :: On(b, k) ==> On(a, k)
  {
    if a & b == b {
      forall k: Action | On(b, k) ensures On(a, k) {
        assert b & Bit(k) == (a & Bit(k)) & b;
      }
    } else {
      SubsetByBits(a, b);
      var k: Action := if b & 2 != 0 && a & 2 == 0 then 1 else if b & 4 != 0 && a & 4 == 0 then 2 else 3;
      assert On(b, k) && a & Bit(k) == 0;
    }
  }

  lemma SubsetByBits(a: bv8, b: bv8)
    requires b & 0xF1 == 0 && a & b != b
    ensures (b & 2 != 0 && a & 2 == 0) || (b & 4 != 0 && a & 4 == 0) || (b & 8 != 0 && a & 8 == 0)
  {
  }

  lemma NotInTail(n: seq<string>, m: seq<bv8>)
    requires StrictTotalOrder(Less)
    requires Entries(n, m) && n != [] && |n[1..]| == |m[1..]|
    ensures forall k: Action :: !BitFrom(n[1..], m[1..], n[0], k)
    ensures forall r, k: Action :: BitFrom(n[1..], m[1..], r, k) ==> Less(n[0], r)
  {
    EntriesTail(n, m);
  }

  lemma HeadsAlike(n1: seq<string>, m1: seq<bv8>, n2: seq<string>, m2: seq<bv8>)
    requires StrictTotalOrder(Less)
    requires Entries(n1, m1) && Entries(n2, m2) && n1 != [] && n2 != [] && n1[0] == n2[0]
    requires |n1[1..]| == |m1[1..]| && |n2[1..]| == |m2[1..]|
    ensures (forall r, k: Action :: BitFrom(n2, m2, r, k) ==> BitFrom(n1, m1, r, k)) <==>
            && (forall k: Action :: On(m2[0], k) ==> On(m1[0], k))
            && (forall r, k: Action :: BitFrom(n2[1..], m2[1..], r, k) ==> BitFrom(n1[1..], m1[1..], r, k))
  {
    EntriesTail(n1, m1);
    EntriesTail(n2, m2);
    NotInTail(n1, m1);
    NotInTail(n2, m2);
    if forall r, k: Action :: BitFrom(n2, m2, r, k) ==> BitFrom(n1, m1, r, k) {
      forall k: Action | On(m2[0], k) ensures On(m1[0], k) {
        assert BitFrom(n2, m2, n2[0], k);
      }
      forall r, k: Action | BitFrom(n2[1..], m2[1..], r, k) ensures BitFrom(n1[1..], m1[1..], r, k) {
        assert BitFrom(n2, m2, r, k);
      }
    }
  }

  lemma SkipHead(n1: seq<string>, m1: seq<bv8>, n2: seq<string>, m2: seq<bv8>)
    requires StrictTotalOrder(Less)
    requires Entries(n1, m1) && Entries(n2, m2) && n1 != [] && n2 != [] && Less(n1[0], n2[0])
    requires |n1[1..]| == |m1[1..]|
    ensures (forall r, k: Action :: BitFrom(n2, m2, r, k) ==> BitFrom(n1, m1, r, k)) <==>
            (forall r, k: Action :: BitFrom(n2, m2, r, k) ==> BitFrom(n1[1..], m1[1..], r, k))
  {
    EntriesTail(n1, m1);
    EntriesTail(n2, m2);
    NotInTail(n2, m2);
    forall r, k: Action | BitFrom(n2, m2, r, k) ensures r != n1[0] {
      assert r == n2[0] || Less(n2[0], r);
    }
  }

  lemma {:induction false} ContainsOthersMeaning(o1: seq<ResourceScope>, o2: seq<ResourceScope>)
    requires StrictTotalOrder(Before)
    requires Increasing(o1, Before) && Increasing(o2, Before)
    ensures ContainsOthers(o1, o2) <==> forall r :: r in o2 ==> r in o1
    decreases |o1|
  {
    if o2 == [] {
    } else if o1 == [] {
      assert o2[0] in o2;
    } else {
      TailMembers(o1, Before);
      TailMembers(o2, Before);
      assert o2[0] in o2;
      assert Before(o1[0], o2[0]) || o1[0] == o2[0] || Before(o2[0], o1[0]);
      if CompareScopes(o1[0], o2[0]) == 0 {
        ContainsOthersMeaning(o1[1..], o2[1..]);
      } else if CompareScopes(o1[0], o2[0]) == -1 {
        ContainsOthersMeaning(o1[1..], o2);
        assert o1[0] !in o2;
      }
    }
  }

  /** s2 holds nothing that s1 does not. */
  ghost predicate Subset(s2: Scope, s1: Scope) {
    forall r :: Member(s2, r) ==> Member(s1, r)
  }

  lemma ContainsMeaning(s1: Scope, s2: Scope)
    requires Canonical(s1) && Canonical(s2) && !s1.unlimited && !s2.unlimited
    ensures (ContainsNames(s1.repositories, s1.actions, s2.repositories, s2.actions) &&
             ContainsOthers(s1.others, s2.others)) <==> Subset(s2, s1)
  {
    LessIsStrictTotal();
    BeforeIsStrictTotal();
    ContainsNamesMeaning(s1.repositories, s1.actions, s2.repositories, s2.actions);
    ContainsOthersMeaning(s1.others, s2.others);
    forall s, r, k: Action | s == s1 || s == s2
      ensures HasBit(s, r, k) <==> |s.repositories| == |s.actions| && BitFrom(s.repositories, s.actions, r, k)
    {
    }
    if Subset(s2, s1) {
      forall r, k: Action | HasBit(s2, r, k) ensures HasBit(s1, r, k) {
        BitCarriesOver(s1, s2, r, k);
      }
      forall o | o in s2.others ensures o in s1.others {
        OthersAreTheUnknown(s2, o);
        OthersAreTheUnknown(s1, o);
      }
    }
    if (forall r, k: Action :: HasBit(s2, r, k) ==> HasBit(s1, r, k)) && (forall o :: o in s2.others ==>
      o in s1.others) {
      forall r | Member(s2, r) ensures Member(s1, r) {
        if r == CATALOG && "" in s2.repositories {
          var i :| 0 <= i < |s2.repositories| && s2.repositories[i] == "";
          assert HasBit(s2, "", 2);
        }
      }
    }
  }

  lemma BitCarriesOver(s1: Scope, s2: Scope, r: string, k: Action)
    requires Canonical(s1) && Canonical(s2) && !s1.unlimited && !s2.unlimited && Subset(s2, s1)
    requires HasBit(s2, r, k)
    ensures HasBit(s1, r, k)
  {
    var i :| 0 <= i < |s2.repositories| && s2.repositories[i] == r && On(s2.actions[i], k);
    if r == "" {
      assert Member(s2, CATALOG);
      OthersAreTheUnknown(s1, CATALOG);
      var j :| 0 <= j < |s1.repositories| && s1.repositories[j] == "";
      assert s1.actions[j] == s2.actions[i];
    } else {
      LowBitClear(s2.actions[i]);
      var x := ResourceScope(TYPE_REPOSITORY, r, ActionName(k));
      assert ParseKnownAction(x.action) == k;
      assert Member(s2, x);
      OthersAreTheUnknown(s1, x);
    }
  }

  lemma LowBitClear(m: bv8)
    requires m & 0xF1 == 0
    ensures m & Bit(0) == 0
  {
  }

  /** Scope.Contains is the superset relation. */
  method Contains(s1: Scope, s2: Scope) returns (ok: bool)
    requires Canonical(s1) && Canonical(s2)
    ensures ok <==> Subset(s2, s1)
  {
    if s1.unlimited { return true; }
    if s2.unlimited {
      ghost var r := SomethingIsMissing(s1);
      assert Member(s2, r);
      return false;
    }
    ContainsMeaning(s1, s2);
    var names := CheckNames(s1.repositories, s1.actions, s2.repositories, s2.actions);
    if !names { return false; }
    ok := CheckOthers(s1.others, s2.others);
  }
}
