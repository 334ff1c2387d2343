/** ociauth/scope.go: an authorization scope as sorted slices and bitmasks. */
module Scope {
  import opened Ordering

  const TYPE_REPOSITORY := "repository"
  const TYPE_REGISTRY := "registry"

  /** Go's ResourceScope: one action on one resource. */
  datatype ResourceScope = ResourceScope(resourceType: string, resource: string, action: string)

  const CATALOG := ResourceScope(TYPE_REGISTRY, "catalog", "*")

  function CompareScopes(a: ResourceScope, b: ResourceScope): (c: int)
    ensures c == -1 || c == 0 || c == 1
    ensures c == 0 <==> a == b
  {
    var t := Compare(a.resourceType, b.resourceType);
    if t != 0 then t
    else
      var r := Compare(a.resource, b.resource);
      if r != 0 then r else Compare(a.action, b.action)
  }

  predicate Before(a: ResourceScope, b: ResourceScope) {
    CompareScopes(a, b) == -1
  }

  lemma BeforeIsStrictTotal()
    ensures StrictTotalOrder(Before)
  {
    LessIsStrictTotal();
    forall a: ResourceScope, b: ResourceScope | a != b ensures Before(a, b) || Before(b, a) {
      CompareFlips(a.resourceType, b.resourceType);
      CompareFlips(a.resource, b.resource);
      CompareFlips(a.action, b.action);
    }
    forall a: ResourceScope, b: ResourceScope, c: ResourceScope | Before(a, b) && Before(b, c)
      ensures Before(a, c)
    {
      if a.resourceType == b.resourceType == c.resourceType {
        if a.resource == b.resource == c.resource {
          LessTransitive(a.action, b.action, c.action);
        } else if a.resource != b.resource && b.resource != c.resource {
          LessTransitive(a.resource, b.resource, c.resource);
        }
      } else if a.resourceType != b.resourceType && b.resourceType != c.resourceType {
        LessTransitive(a.resourceType, b.resourceType, c.resourceType);
      }
    }
  }

  /** knownAction: 0 is unknownAction; the known ones are ordered by name. */
  type Action = k: nat | k < 4

  function ActionName(k: Action): string {
    match k
    case 1 => "delete"
    case 2 => "pull"
    case 3 => "push"
    case _ => "unknown"
  }

  function ParseKnownAction(s: string): (k: Action)
    ensures k != 0 ==> ActionName(k) == s
    ensures k == 0 <==> s != "delete" && s != "pull" && s != "push"
  {
    if s == "delete" then 1 else if s == "pull" then 2 else if s == "push" then 3 else 0
  }

  /** 1 << k */
  function Bit(k: Action): bv8 {
    match k
    case 0 => 1
    case 1 => 2
    case 2 => 4
    case 3 => 8
  }

  /** The mask has the bit of action k. */
  predicate On(mask: bv8, k: Action) {
    mask & Bit(k) != 0
  }

  predicate IsKnown(rs: ResourceScope) {
    if rs.resourceType == TYPE_REPOSITORY then ParseKnownAction(rs.action) != 0
    else rs == CATALOG
  }

  datatype Scope = Scope(
    original: string,
    unlimited: bool,
    repositories: seq<string>,
    actions: seq<bv8>,
    others: seq<ResourceScope>)

  const EMPTY := Scope("", false, [], [], [])
  const UNLIMITED := Scope("", true, [], [], [])

  predicate IsEmpty(s: Scope) {
    |s.repositories| == 0 && |s.others| == 0 && !s.unlimited
  }

  /** Scope.Equal ignores the original string. */
  predicate Equal(s: Scope, t: Scope) {
    s.unlimited == t.unlimited && s.repositories == t.repositories &&
    s.actions == t.actions && s.others == t.others
  }

  // What a scope denotes.

  /** The mask of repository r has the bit of action k. */
  ghost predicate HasBit(s: Scope, r: string, k: Action) {
    exists i :: 0 <= i < |s.repositories| && i < |s.actions| && s.repositories[i] == r && On(s.actions[i], k)
  }

  /** r is one of the resource scopes in the set that s stands for. */
  ghost predicate Member(s: Scope, r: ResourceScope) {
    || s.unlimited
    || r in s.others
    || (r == CATALOG && "" in s.repositories)
    || (r.resourceType == TYPE_REPOSITORY && r.resource != "" &&
        ParseKnownAction(r.action) != 0 && HasBit(s, r.resource, ParseKnownAction(r.action)))
  }

  predicate ValidMask(m: bv8) {
    m != 0 && m & 0xF1 == 0
  }

  /** What every scope built by this package satisfies, whatever it was built from. */
  ghost predicate Shaped(s: Scope) {
    && |s.repositories| == |s.actions|
    && Increasing(s.repositories, Less)
    && Increasing(s.others, Before)
    && (forall i :: 0 <= i < |s.actions| ==> ValidMask(s.actions[i]))
    && (forall o :: o in s.others ==> !IsKnown(o))
    && (s.unlimited ==> s.repositories == [] && s.others == [])
  }

  /** Shaped, and the empty repository name stands for the catalog entry alone. */
  ghost predicate Canonical(s: Scope) {
    && Shaped(s)
    && (forall i :: 0 <= i < |s.repositories| && s.repositories[i] == "" ==> s.actions[i] == Bit(2))
  }

  /** A repository scope with a known action and no repository name: the one
      kind of entry that the representation confuses with the catalog. */
  predicate Nameless(rs: ResourceScope) {
    rs.resourceType == TYPE_REPOSITORY && rs.resource == "" && IsKnown(rs)
  }

  predicate Clean(rss: seq<ResourceScope>) {
    forall rs :: rs in rss ==> !Nameless(rs)
  }

  lemma MaskBits(m: bv8)
    requires ValidMask(m)
    ensures m & 2 != 0 || m & 4 != 0 || m & 8 != 0
  {
  }

  lemma MasksEqual(m: bv8, n: bv8)
    requires ValidMask(m) && ValidMask(n)
    requires m & 2 != 0 <==> n & 2 != 0
    requires m & 4 != 0 <==> n & 4 != 0
    requires m & 8 != 0 <==> n & 8 != 0
    ensures m == n
  {
    assert m & 2 == 0 || m & 2 == 2;
    assert n & 2 == 0 || n & 2 == 2;
    assert m & 4 == 0 || m & 4 == 4;
    assert n & 4 == 0 || n & 4 == 4;
    assert m & 8 == 0 || m & 8 == 8;
    assert n & 8 == 0 || n & 8 == 8;
    assert m == (m & 2) | (m & 4) | (m & 8);
    assert n == (n & 2) | (n & 4) | (n & 8);
  }

  /** Every entry carries at least one action. */
  lemma EntryHasAction(s: Scope, i: nat) returns (k: Action)
    requires Shaped(s) && i < |s.repositories|
    ensures k != 0 && HasBit(s, s.repositories[i], k)
  {
    MaskBits(s.actions[i]);
    k := if s.actions[i] & 2 != 0 then 1 else if s.actions[i] & 4 != 0 then 2 else 3;
    assert On(s.actions[i], k);
  }

  /** Names occur once, so HasBit is about the one mask of that name. */
  lemma BitAt(s: Scope, i: nat, k: Action)
    requires Shaped(s) && i < |s.repositories|
    ensures HasBit(s, s.repositories[i], k) <==> On(s.actions[i], k)
  {
    LessIsStrictTotal();
  }

  /** The representation of a set is unique: two canonical scopes with the same
      members are Equal. */
  lemma SameMembersSameScope(s: Scope, t: Scope)
    requires Canonical(s) && Canonical(t) && !s.unlimited && !t.unlimited
    requires forall r :: Member(s, r) <==> Member(t, r)
    ensures Equal(s, t)
  {
    LessIsStrictTotal();
    BeforeIsStrictTotal();
    forall o ensures o in s.others <==> o in t.others {
      OthersAreTheUnknown(s, o);
      OthersAreTheUnknown(t, o);
    }
    IncreasingIsUnique(s.others, t.others, Before);
    forall r ensures r in s.repositories <==> r in t.repositories {
      if r in s.repositories { NameCarriesOver(s, t, r); }
      if r in t.repositories { NameCarriesOver(t, s, r); }
    }
    IncreasingIsUnique(s.repositories, t.repositories, Less);
    forall i | 0 <= i < |s.actions| ensures s.actions[i] == t.actions[i] {
      if s.repositories[i] != "" {
        SameBit(s, t, i, 1);
        SameBit(s, t, i, 2);
        SameBit(s, t, i, 3);
        MasksEqual(s.actions[i], t.actions[i]);
      }
    }
  }

  lemma OthersAreTheUnknown(s: Scope, o: ResourceScope)
    requires Canonical(s) && !s.unlimited
    ensures o in s.others <==> Member(s, o) && !IsKnown(o)
  {
  }

  lemma NameCarriesOver(s: Scope, t: Scope, r: string)
    requires Canonical(s) && Canonical(t) && !s.unlimited && !t.unlimited
    requires forall x :: Member(s, x) <==> Member(t, x)
    requires r in s.repositories
    ensures r in t.repositories
  {
    var i :| 0 <= i < |s.repositories| && s.repositories[i] == r;
    if r == "" {
      assert Member(s, CATALOG);
      OthersAreTheUnknown(t, CATALOG);
    } else {
      var k := EntryHasAction(s, i);
      var x := ResourceScope(TYPE_REPOSITORY, r, ActionName(k));
      assert Member(s, x);
      OthersAreTheUnknown(t, x);
    }
  }

  lemma SameBit(s: Scope, t: Scope, i: nat, k: Action)
    requires Canonical(s) && Canonical(t) && !s.unlimited && !t.unlimited
    requires forall x :: Member(s, x) <==> Member(t, x)
    requires s.repositories == t.repositories && i < |s.repositories|
    requires s.repositories[i] != "" && k != 0
    ensures On(s.actions[i], k) <==> On(t.actions[i], k)
  {
    var x := ResourceScope(TYPE_REPOSITORY, s.repositories[i], ActionName(k));
    BitAt(s, i, k);
    BitAt(t, i, k);
    OthersAreTheUnknown(s, x);
    OthersAreTheUnknown(t, x);
    assert ParseKnownAction(x.action) == k;
    assert Member(s, x) <==> HasBit(s, x.resource, k);
  }

  /** Equal is equality of the denoted sets, unlimited included. */
  lemma EqualIffSameMembers(s: Scope, t: Scope)
    requires Canonical(s) && Canonical(t)
    ensures Equal(s, t) <==> forall r :: Member(s, r) <==> Member(t, r)
  {
    if Equal(s, t) {
      forall r ensures Member(s, r) <==> Member(t, r) {}
    } else if forall r :: Member(s, r) <==> Member(t, r) {
      if s.unlimited {
        var r := SomethingIsMissing(t);
      } else if t.unlimited {
        var r := SomethingIsMissing(s);
      } else {
        SameMembersSameScope(s, t);
      }
    }
  }

  /** A limited scope leaves something out, so unlimited is strictly the top. */
  lemma SomethingIsMissing(s: Scope) returns (r: ResourceScope)
    requires Canonical(s) && !s.unlimited
    ensures !Member(s, r)
  {
    var n := LongestType(s.others);
    r := ResourceScope(seq(n + 11, _ => 'x'), "", "");
    assert |r.resourceType| == n + 11;
  }

  lemma {:induction false} LongestType(rss: seq<ResourceScope>) returns (n: nat)
    ensures forall rs :: rs in rss ==> |rs.resourceType| <= n
  {
    if rss == [] {
      n := 0;
    } else {
      n := LongestType(rss[1..]);
      n := if |rss[0].resourceType| > n then |rss[0].resourceType| else n;
      assert rss == [rss[0]] + rss[1..];
    }
  }
}
