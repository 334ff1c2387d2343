/** ociauth/scope.go, String and ParseScope: the textual form of a scope. */
module ScopeText {
  import opened Ordering
  import opened Text
  import opened Scope
  import opened ScopeBuild
  import opened ScopeIter

  const COLON: set<char> := {':'}
  const COMMA: set<char> := {','}
  const NONE := ResourceScope("", "", "")

  // Parsing.

  function WithActions(resourceType: string, resource: string, actions: seq<string>): seq<ResourceScope> {
    seq(|actions|, i requires 0 <= i < |actions| => ResourceScope(resourceType, resource, actions[i]))
  }

  function ParseField(f: string): seq<ResourceScope> {
    var parts := Split(f, COLON);
    if |parts| != 3 then [ResourceScope(f, "", "")]
    else WithActions(parts[0], parts[1], Split(parts[2], COMMA))
  }

  function ParseFields(fields: seq<string>): seq<ResourceScope> {
    if fields == [] then []
    else ParseFields(fields[..|fields| - 1]) + ParseField(fields[|fields| - 1])
  }

  function Parse(s: string): Scope {
    BeforeIsStrictTotal();
    Build(SortDistinct(ParseFields(Fields(s)), Before)).(original := s)
  }

  /** The body of ParseScope's loop: one field. */
  method AppendField(rscopes0: seq<ResourceScope>, f: string) returns (rscopes: seq<ResourceScope>)
    ensures rscopes == rscopes0 + ParseField(f)
  {
    rscopes := rscopes0;
    var parts := Split(f, COLON);
    if |parts| != 3 {
      return rscopes + [ResourceScope(f, "", "")];
    }
    var actions := Split(parts[2], COMMA);
    ghost var added := WithActions(parts[0], parts[1], actions);
    for j := 0 to |actions|
      invariant rscopes == rscopes0 + added[..j]
    {
      rscopes := rscopes + [ResourceScope(parts[0], parts[1], actions[j])];
      assert added[..j + 1] == added[..j] + [added[j]];
    }
    assert added[..|actions|] == added;
  }

  method ParseAll(fields: seq<string>) returns (rscopes: seq<ResourceScope>)
    ensures rscopes == ParseFields(fields)
  {
    rscopes := [];
    for i := 0 to |fields|
      invariant rscopes == ParseFields(fields[..i])
    {
      assert fields[..i + 1][..i] == fields[..i];
      rscopes := AppendField(rscopes, fields[i]);
    }
    assert fields[..|fields|] == fields;
  }

  /** ParseScope */
  method ParseScope(s: string) returns (scope: Scope)
    ensures scope == Parse(s)
    ensures Clean(ParseFields(Fields(s))) ==>
              Canonical(scope) && forall r :: Member(scope, r) <==> r in ParseFields(Fields(s))
  {
    var rscopes := ParseAll(Fields(s));
    scope := NewScope(rscopes);
    OriginalDoesNotMatter(scope, s);
    scope := scope.(original := s);
  }

  /** The text a scope was made from changes neither its form nor its members. */
  lemma OriginalDoesNotMatter(s: Scope, text: string)
    ensures Canonical(s.(original := text)) <==> Canonical(s)
    ensures forall r :: Member(s.(original := text), r) <==> Member(s, r)
  {
  }

  // Printing.

  /** The next item only adds an action to the repository printed last. */
  predicate Continues(prev: ResourceScope, rs: ResourceScope) {
    rs.resourceType == TYPE_REPOSITORY && prev.resourceType == TYPE_REPOSITORY && rs.resource == prev.resource
  }

  function Token(rs: ResourceScope): string {
    rs.resourceType + if rs.resource != "" || rs.action != "" then ":" + rs.resource + ":" + rs.action else ""
  }

  function LastOr(items: seq<ResourceScope>): ResourceScope {
    if items == [] then NONE else items[|items| - 1]
  }

  /** What String has written to its buffer after the given items. */
  function Render(items: seq<ResourceScope>): string {
    if items == [] then ""
    else
      var init, rs := items[..|items| - 1], items[|items| - 1];
      var buf := Render(init);
      if Continues(LastOr(init), rs) then buf + "," + rs.action
      else (if |buf| > 0 then buf + " " else buf) + Token(rs)
  }

  function Print(s: Scope): string
    requires |s.repositories| == |s.actions|
  {
    if s.unlimited then "*"
    else if s.original != "" || IsEmpty(s) then s.original
    else Render(Items(s))
  }

  /** Printing a parsed scope gives back the text, whatever it was. */
  lemma ParsedPrintsAsGiven(text: string)
    ensures |Parse(text).repositories| == |Parse(text).actions|
    ensures Print(Parse(text)) == text
  {
    BeforeIsStrictTotal();
    var rss := SortDistinct(ParseFields(Fields(text)), Before);
    BuildIsParallel(rss);
    if text == "" {
      SplitOfFree(text, SPACES);
      assert NonEmpty([text]) == [];
      assert rss == SortDistinct([], Before) == [];
    }
  }

  /** The part of String that starts a new token. */
  method WriteToken(buf0: string, rs: ResourceScope) returns (buf: string)
    ensures buf == (if |buf0| > 0 then buf0 + " " else buf0) + Token(rs)
  {
    buf := buf0;
    if |buf| > 0 { buf := buf + " "; }
    ghost var start := buf;
    buf := buf + rs.resourceType;
    if rs.resource != "" || rs.action != "" {
      buf := buf + ":" + rs.resource + ":" + rs.action;
      assert buf == start + (rs.resourceType + (":" + rs.resource + ":" + rs.action));
    }
  }

  lemma RenderSnoc(items: seq<ResourceScope>, i: nat)
    requires i < |items|
    ensures LastOr(items[..i + 1]) == items[i]
    ensures Render(items[..i + 1]) ==
            if Continues(LastOr(items[..i]), items[i]) then Render(items[..i]) + "," + items[i].action
            else (if |Render(items[..i])| > 0 then Render(items[..i]) + " " else Render(items[..i])) + Token(items[i])
  {
    assert items[..i + 1][..i] == items[..i];
  }

  /** Scope.String */
  method String(s: Scope) returns (str: string)
    requires |s.repositories| == |s.actions|
    ensures str == Print(s)
    ensures s.unlimited ==> str == "*"
    ensures !s.unlimited && (s.original != "" || IsEmpty(s)) ==> str == s.original
  {
    if s.unlimited { return "*"; }
    if s.original != "" || IsEmpty(s) { return s.original; }
    var items := Iter(s);
    str := WriteItems(items);
  }

  /** The callback that String passes to Iter, with buf and prev captured. */
  method WriteItems(items: seq<ResourceScope>) returns (buf: string)
    ensures buf == Render(items)
  {
    buf := "";
    var prev := NONE;
    for i := 0 to |items|
      invariant buf == Render(items[..i]) && prev == LastOr(items[..i])
    {
      RenderSnoc(items, i);
      var rs, prev0 := items[i], prev;
      prev := rs;
      if Continues(prev0, rs) {
        buf := buf + "," + rs.action;
        continue;
      }
      buf := WriteToken(buf, rs);
    }
    assert items[..|items|] == items;
  }
}
