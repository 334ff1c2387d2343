/** ociauth/scope.go, Iter and Len: the members of a scope, one by one. */
module ScopeIter {
  import opened Ordering
  import opened Scope
  import opened ScopeBuild

  /** The resource scopes of one repository entry from action k on. */
  function RowFrom(repo: string, mask: bv8, k: nat): seq<ResourceScope>
    requires k <= 4
    decreases 4 - k
  {
    if k == 4 then []
    else if mask & Bit(k) == 0 then RowFrom(repo, mask, k + 1)
    else [ResourceScope(TYPE_REPOSITORY, repo, ActionName(k))] + RowFrom(repo, mask, k + 1)
  }

  function Row(repo: string, mask: bv8): seq<ResourceScope> {
    if repo == "" then [CATALOG] else RowFrom(repo, mask, 0)
  }

  /** The expanded bitmasks from entry i on. */
  function Expand(s: Scope, i: nat): seq<ResourceScope>
    requires |s.repositories| == |s.actions| && i <= |s.actions|
    decreases |s.actions| - i
  {
    if i == |s.actions| then [] else Row(s.repositories[i], s.actions[i]) + Expand(s, i + 1)
  }

  function Merge(known: seq<ResourceScope>, others: seq<ResourceScope>): seq<ResourceScope>
    decreases |known| + |others|
  {
    if known == [] then others
    else if others != [] && Before(others[0], known[0]) then [others[0]] + Merge(known, others[1..])
    else [known[0]] + Merge(known[1..], others)
  }

  /** Everything Iter yields, in order. */
  function Items(s: Scope): seq<ResourceScope>
    requires |s.repositories| == |s.actions|
  {
    if s.unlimited then [] else Merge(Expand(s, 0), s.others)
  }

  /** The closure inside Iter: first the others that come before scope. */
  method Yield(out0: seq<ResourceScope>, others0: seq<ResourceScope>, scope: ResourceScope,
               ghost rest: seq<ResourceScope>)
    returns (out: seq<ResourceScope>, others: seq<ResourceScope>)
    ensures out + Merge(rest, others) == out0 + Merge([scope] + rest, others0)
  {
    out, others := out0, others0;
    assert ([scope] + rest)[1..] == rest;
    while |others| > 0 && Before(others[0], scope)
      invariant out + Merge([scope] + rest, others) == out0 + Merge([scope] + rest, others0)
      decreases |others|
    {
      ghost var before := Merge([scope] + rest, others);
      assert before == [others[0]] + Merge([scope] + rest, others[1..]);
      out := out + [others[0]];
      others := others[1..];
    }
    assert Merge([scope] + rest, others) == [scope] + Merge(rest, others);
    out := out + [scope];
  }

  lemma RowStep(repo: string, mask: bv8, k: nat, tail: seq<ResourceScope>)
    requires k < 4 && On(mask, k)
    ensures RowFrom(repo, mask, k) + tail ==
            [ResourceScope(TYPE_REPOSITORY, repo, ActionName(k))] + (RowFrom(repo, mask, k + 1) + tail)
  {
  }

  /** The body of Iter's outer loop: one repository entry. */
  method YieldEntry(out0: seq<ResourceScope>, others0: seq<ResourceScope>, repo: string, acts: bv8,
                    ghost rest: seq<ResourceScope>)
    returns (out: seq<ResourceScope>, others: seq<ResourceScope>)
    ensures out + Merge(rest, others) == out0 + Merge(Row(repo, acts) + rest, others0)
  {
    if repo == "" {
      out, others := Yield(out0, others0, CATALOG, rest);
      return;
    }
    out, others := out0, others0;
    ghost var all := out0 + Merge(RowFrom(repo, acts, 0) + rest, others0);
    for k := 0 to 4
      invariant out + Merge(RowFrom(repo, acts, k) + rest, others) == all
    {
      if acts & Bit(k) == 0 { continue; }
      RowStep(repo, acts, k, rest);
      out, others := Yield(out, others, ResourceScope(TYPE_REPOSITORY, repo, ActionName(k)),
                           RowFrom(repo, acts, k + 1) + rest);
    }
    assert RowFrom(repo, acts, 4) + rest == rest;
  }

  /** Scope.Iter, run to the end. */
  method Iter(s: Scope) returns (out: seq<ResourceScope>)
    requires |s.repositories| == |s.actions|
    ensures out == Items(s)
  {
    if s.unlimited { return []; }
    out := [];
    var others := s.others;
    assert [] + Items(s) == Items(s);
    ghost var all := Items(s);
    for i := 0 to |s.repositories|
      invariant out + Merge(Expand(s, i), others) == all
    {
      ghost var rest := Expand(s, i + 1);
      assert Expand(s, i) == Row(s.repositories[i], s.actions[i]) + rest;
      out, others := YieldEntry(out, others, s.repositories[i], s.actions[i], rest);
    }
    assert Merge(Expand(s, |s.repositories|), others) == others;
    out := SendRest(out, others);
  }

  /** The last loop of Iter: the others that have not been sent yet. */
  method SendRest(out0: seq<ResourceScope>, others: seq<ResourceScope>) returns (out: seq<ResourceScope>)
    ensures out == out0 + others
  {
    out := out0;
    for j := 0 to |others|
      invariant out == out0 + others[..j]
    {
      out := out + [others[j]];
    }
    assert others[..|others|] == others;
  }

  // Meaning.

  lemma {:induction false} MergeMembers(known: seq<ResourceScope>, others: seq<ResourceScope>)
    ensures forall r :: r in Merge(known, others) <==> r in known || r in others
    ensures |Merge(known, others)| == |known| + |others|
    decreases |known| + |others|
  {
    if known == [] {
    } else if others != [] && Before(others[0], known[0]) {
      MergeMembers(known, others[1..]);
      assert others == [others[0]] + others[1..];
    } else {
      MergeMembers(known[1..], others);
      assert known == [known[0]] + known[1..];
    }
  }

  /** Merging two increasing sequences without common members increases. */
  lemma {:induction false} MergeIncreases(known: seq<ResourceScope>, others: seq<ResourceScope>)
    requires StrictTotalOrder(Before)
    requires Increasing(known, Before) && Increasing(others, Before)
    requires forall r :: r in known ==> r !in others
    ensures Increasing(Merge(known, others), Before)
    decreases |known| + |others|
  {
    if known == [] {
    } else if others != [] && Before(others[0], known[0]) {
      TailMembers(others, Before);
      MergeIncreases(known, others[1..]);
      ConsIncreases(others[0], known, others[1..]);
    } else {
      TailMembers(known, Before);
      MergeIncreases(known[1..], others);
      if others != [] { assert others[0] in others && known[0] in known; }
      ConsIncreases(known[0], known[1..], others);
    }
  }

  lemma ConsIncreases(head: ResourceScope, known: seq<ResourceScope>, others: seq<ResourceScope>)
    requires StrictTotalOrder(Before)
    requires Increasing(known, Before) && Increasing(others, Before)
    requires Increasing(Merge(known, others), Before)
    requires known != [] ==> Before(head, known[0])
    requires others != [] ==> Before(head, others[0])
    ensures Increasing([head] + Merge(known, others), Before)
  {
    MergeMembers(known, others);
    var m := Merge(known, others);
    forall j | 0 <= j < |m| ensures Before(head, m[j]) {
      assert m[j] in m;
      if m[j] in known {
        var i :| 0 <= i < |known| && known[i] == m[j];
      } else {
        var i :| 0 <= i < |others| && others[i] == m[j];
      }
    }
  }

  /** One repository's row: its set bits, in the order of the action names. */
  lemma RowMeaning(repo: string, mask: bv8)
    requires ValidMask(mask) && repo != ""
    ensures forall r :: r in Row(repo, mask) <==>
              r.resourceType == TYPE_REPOSITORY && r.resource == repo &&
              ParseKnownAction(r.action) != 0 && On(mask, ParseKnownAction(r.action))
    ensures Increasing(Row(repo, mask), Before)
    ensures |Row(repo, mask)| == OnesCount(mask)
  {
    HighBitsClear(mask);
    RowUnrolled(repo, mask);
    RowOrder(repo, mask & 2 != 0, mask & 4 != 0, mask & 8 != 0);
  }

  function Optional(wanted: bool, repo: string, action: string): seq<ResourceScope> {
    if wanted then [ResourceScope(TYPE_REPOSITORY, repo, action)] else []
  }

  function ThreeActions(repo: string, d: bool, l: bool, h: bool): seq<ResourceScope> {
    Optional(d, repo, "delete") + Optional(l, repo, "pull") + Optional(h, repo, "push")
  }

  lemma RowOrder(repo: string, d: bool, l: bool, h: bool)
    ensures Increasing(ThreeActions(repo, d, l, h), Before)
  {
    ActionNamesAscend();
    var s, t, u := Optional(d, repo, "delete"), Optional(l, repo, "pull"), Optional(h, repo, "push");
    assert forall x, y :: x in s && y in t ==> Before(x, y);
    IncreasingConcat(s, t, Before);
    assert forall x, y :: x in s + t && y in u ==> Before(x, y);
    IncreasingConcat(s + t, u, Before);
  }

  lemma HighBitsClear(mask: bv8)
    requires mask & 0xF1 == 0
    ensures mask & 1 == 0 && mask & 16 == 0 && mask & 32 == 0 && mask & 64 == 0 && mask & 128 == 0
  {
  }

  lemma RowUnrolled(repo: string, mask: bv8)
    requires mask & 1 == 0
    ensures RowFrom(repo, mask, 0) == ThreeActions(repo, mask & 2 != 0, mask & 4 != 0, mask & 8 != 0)
  {
    assert RowFrom(repo, mask, 4) == [];
    assert RowFrom(repo, mask, 3) == if mask & 8 == 0 then [] else [ResourceScope(TYPE_REPOSITORY, repo, "push")];
    assert RowFrom(repo, mask, 0) == RowFrom(repo, mask, 1);
  }

  lemma ActionNamesAscend()
    ensures Less("delete", "pull") && Less("pull", "push") && Less("delete", "push")
  {
    assert Compare("pull", "push") == Compare("pull"[1..], "push"[1..]);
    assert "pull"[1..] == "ull" && "push"[1..] == "ush";
    assert "ull"[1..] == "ll" && "ush"[1..] == "sh";
  }

  /** bits.OnesCount8 */
  function OnesCount(m: bv8): nat {
    (if m & 1 != 0 then 1 else 0) + (if m & 2 != 0 then 1 else 0) +
    (if m & 4 != 0 then 1 else 0) + (if m & 8 != 0 then 1 else 0) +
    (if m & 16 != 0 then 1 else 0) + (if m & 32 != 0 then 1 else 0) +
    (if m & 64 != 0 then 1 else 0) + (if m & 128 != 0 then 1 else 0)
  }

  predicate InRow(r: ResourceScope, repo: string, mask: bv8) {
    if repo == "" then r == CATALOG
    else r.resourceType == TYPE_REPOSITORY && r.resource == repo &&
         ParseKnownAction(r.action) != 0 && On(mask, ParseKnownAction(r.action))
  }

  lemma RowShape(s: Scope, i: nat)
    requires Canonical(s) && i < |s.repositories|
    ensures forall r :: r in Row(s.repositories[i], s.actions[i]) <==> InRow(r, s.repositories[i], s.actions[i])
    ensures Increasing(Row(s.repositories[i], s.actions[i]), Before)
    ensures |Row(s.repositories[i], s.actions[i])| == OnesCount(s.actions[i])
  {
    if s.repositories[i] != "" {
      RowMeaning(s.repositories[i], s.actions[i]);
    }
  }

  /** Rows follow the order of their repositories, the catalog entry first. */
  lemma RowsAscend(s: Scope, i: nat, j: nat, x: ResourceScope, y: ResourceScope)
    requires Canonical(s) && i < j < |s.repositories|
    requires InRow(x, s.repositories[i], s.actions[i]) && InRow(y, s.repositories[j], s.actions[j])
    ensures Before(x, y)
  {
    RegistryBeforeRepository();
  }

  lemma {:induction false} ExpandMeaning(s: Scope, i: nat)
    requires Canonical(s) && i <= |s.actions|
    ensures forall r :: r in Expand(s, i) <==>
              exists j :: i <= j < |s.actions| && InRow(r, s.repositories[j], s.actions[j])
    ensures Increasing(Expand(s, i), Before)
    ensures |Expand(s, i)| == BitsFrom(s.actions, i)
    decreases |s.actions| - i
  {
    if i < |s.actions| {
      ExpandMeaning(s, i + 1);
      RowShape(s, i);
      var row, rest := Row(s.repositories[i], s.actions[i]), Expand(s, i + 1);
      forall x, y | x in row && y in rest ensures Before(x, y) {
        var j :| i + 1 <= j < |s.actions| && InRow(y, s.repositories[j], s.actions[j]);
        RowsAscend(s, i, j, x, y);
      }
      IncreasingConcat(row, rest, Before);
    }
  }

  function BitsFrom(masks: seq<bv8>, i: nat): nat
    requires i <= |masks|
    decreases |masks| - i
  {
    if i == |masks| then 0 else OnesCount(masks[i]) + BitsFrom(masks, i + 1)
  }

  /** The rows hold the known members of the scope. */
  lemma ExpandIsTheKnown(s: Scope, r: ResourceScope)
    requires Canonical(s) && !s.unlimited
    ensures r in Expand(s, 0) <==> Member(s, r) && IsKnown(r)
  {
    ExpandMeaning(s, 0);
    if r in Expand(s, 0) {
      var j :| 0 <= j < |s.actions| && InRow(r, s.repositories[j], s.actions[j]);
      assert s.repositories[j] != "" ==> HasBit(s, r.resource, ParseKnownAction(r.action));
    }
    if Member(s, r) && IsKnown(r) {
      var j := KnownHasRow(s, r);
    }
  }

  lemma KnownHasRow(s: Scope, r: ResourceScope) returns (j: nat)
    requires Canonical(s) && !s.unlimited && Member(s, r) && IsKnown(r)
    ensures j < |s.actions| && InRow(r, s.repositories[j], s.actions[j])
  {
    if r == CATALOG {
      j :| 0 <= j < |s.repositories| && s.repositories[j] == "";
    } else {
      j :| 0 <= j < |s.repositories| && s.repositories[j] == r.resource &&
           On(s.actions[j], ParseKnownAction(r.action));
    }
  }

  /** Iter yields every member exactly once, in strictly increasing order. */
  lemma ItemsAreTheMembers(s: Scope)
    requires Canonical(s)
    ensures Increasing(Items(s), Before)
    ensures !s.unlimited ==> forall r :: r in Items(s) <==> Member(s, r)
  {
    if !s.unlimited {
      BeforeIsStrictTotal();
      var known := Expand(s, 0);
      ExpandMeaning(s, 0);
      forall r ensures r in known <==> Member(s, r) && IsKnown(r) {
        ExpandIsTheKnown(s, r);
      }
      MergeMembers(known, s.others);
      MergeIncreases(known, s.others);
      forall r ensures r in s.others <==> Member(s, r) && !IsKnown(r) {
        OthersAreTheUnknown(s, r);
      }
    }
  }

  /** Scope.Len counts the members. Go panics on an unlimited scope. */
  method Len(s: Scope) returns (n: nat)
    requires Canonical(s) && !s.unlimited
    ensures n == |set r | r in Items(s)|
    ensures forall r :: r in Items(s) <==> Member(s, r)
  {
    n := |s.others|;
    ghost var total := n + BitsFrom(s.actions, 0);
    for i := 0 to |s.actions|
      invariant n + BitsFrom(s.actions, i) == total
    {
      n := n + OnesCount(s.actions[i]);
    }
    ItemsAreTheMembers(s);
    ExpandMeaning(s, 0);
    MergeMembers(Expand(s, 0), s.others);
    BeforeIsStrictTotal();
    IncreasingHasNoDuplicates(Items(s), Before);
  }

  /** Feeding what Iter yields back into NewScope rebuilds the scope. */
  lemma RebuiltFromItems(s: Scope)
    requires Canonical(s) && !s.unlimited
    ensures Clean(Items(s))
    ensures Canonical(Build(Items(s))) && Equal(Build(Items(s)), s)
  {
    ItemsAreTheMembers(s);
    var items := Items(s);
    assert Clean(items) by {
      forall r | r in items ensures !Nameless(r) {
        if Nameless(r) { OthersAreTheUnknown(s, r); }
      }
    }
    BuildDenotes(items);
    BuildIsParallel(items);
    SameMembersSameScope(Build(items), s);
  }

  /** For any input: what Iter yields from NewScope(rss) is rss itself, as a
      set, exactly when no entry is nameless. */
  lemma IterExactlyWhenClean(rss: seq<ResourceScope>)
    requires Increasing(rss, Before)
    ensures |Build(rss).repositories| == |Build(rss).actions|
    ensures (forall r :: r in Items(Build(rss)) <==> r in rss) <==> Clean(rss)
  {
    BuildIsParallel(rss);
    var s := Build(rss);
    if Clean(rss) {
      BuildDenotes(rss);
      ItemsAreTheMembers(s);
    } else {
      var n :| n in rss && Nameless(n);
      BuildIsExact(rss);
      assert n !in s.others;
      NamelessIsNeverYielded(s, 0, n);
      MergeMembers(Expand(s, 0), s.others);
    }
  }

  /** For instance, a single nameless pull is never yielded. */
  lemma NamelessPullIsForgotten(rss: seq<ResourceScope>, pull: ResourceScope)
    requires pull == ResourceScope(TYPE_REPOSITORY, "", "pull") && rss == [pull]
    ensures |Build(rss).repositories| == |Build(rss).actions| && pull !in Items(Build(rss))
  {
    BuildIsParallel(rss);
    BuildIsExact(rss);
    var s := Build(rss);
    assert Nameless(pull) && pull !in s.others;
    NamelessIsNeverYielded(s, 0, pull);
    MergeMembers(Expand(s, 0), s.others);
  }

  lemma {:induction false} NamelessIsNeverYielded(s: Scope, i: nat, n: ResourceScope)
    requires |s.repositories| == |s.actions| && (forall j :: 0 <= j < |s.actions| ==> ValidMask(s.actions[j]))
    requires i <= |s.actions| && Nameless(n)
    ensures n !in Expand(s, i)
    decreases |s.actions| - i
  {
    if i < |s.actions| {
      NamelessIsNeverYielded(s, i + 1, n);
      var row, rest := Row(s.repositories[i], s.actions[i]), Expand(s, i + 1);
      RowNamesItsRepository(s.repositories[i], s.actions[i], n);
      assert n !in row + rest;
    }
  }

  lemma RowNamesItsRepository(repo: string, mask: bv8, n: ResourceScope)
    requires ValidMask(mask) && Nameless(n)
    ensures n !in Row(repo, mask)
  {
    if repo != "" {
      RowMeaning(repo, mask);
    }
  }
}
