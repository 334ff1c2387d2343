/** ociauth/scope.go: which scopes survive being printed and parsed. */
module ScopeRoundTrip {
  import opened Ordering
  import opened Text
  import opened Scope
  import opened ScopeBuild
  import opened ScopeIter
  import opened ScopeText

  /** A triple written with its colons. */
  predicate Triple(rs: ResourceScope) {
    && Free(rs.resourceType, COLON) && Free(rs.resource, COLON)
    && Free(rs.action, COLON + COMMA)
    && (rs.resource != "" || rs.action != "")
  }

  /** A bare word. */
  predicate Word(rs: ResourceScope) {
    rs.resource == "" && rs.action == "" && rs.resourceType != "" && |Split(rs.resourceType, COLON)| != 3
  }

  predicate Printable(rs: ResourceScope) {
    && Free(rs.resourceType, SPACES) && Free(rs.resource, SPACES) && Free(rs.action, SPACES)
    && (Word(rs) || Triple(rs))
  }

  predicate AllPrintable(items: seq<ResourceScope>) {
    forall rs :: rs in items ==> Printable(rs)
  }

  const REPOSITORY_WORD := ResourceScope(TYPE_REPOSITORY, "", "")

  /** An unknown action on a repository without a name. */
  predicate Bare(rs: ResourceScope) {
    rs.resourceType == TYPE_REPOSITORY && rs.resource == "" && rs.action != "" && !IsKnown(rs)
  }

  /** The word "repository" is printed with the actions of a nameless repository
      after it, as if they were its own. */
  predicate Clash(items: seq<ResourceScope>) {
    REPOSITORY_WORD in items && exists rs :: rs in items && Bare(rs)
  }

  /** What survives printing and parsing. */
  predicate ReadsBack(items: seq<ResourceScope>) {
    AllPrintable(items) && !Clash(items)
  }

  /** The space-separated tokens of the printed form. */
  function Tokens(items: seq<ResourceScope>): (tokens: seq<string>)
    ensures items != [] ==> tokens != []
  {
    if items == [] then []
    else
      var init, rs := items[..|items| - 1], items[|items| - 1];
      if Continues(LastOr(init), rs) then ExtendLast(Tokens(init), "," + rs.action)
      else Tokens(init) + [Token(rs)]
  }

  lemma {:induction false} TokensAreTokens(items: seq<ResourceScope>)
    requires AllPrintable(items)
    ensures forall t :: t in Tokens(items) ==> t != [] && Free(t, SPACES)
  {
    if items != [] {
      var init, rs := items[..|items| - 1], items[|items| - 1];
      assert items == init + [rs];
      TokensAreTokens(init);
      assert Printable(rs);
      if Continues(LastOr(init), rs) {
        ExtensionIsToken(Tokens(init), rs.action);
      } else {
        TokenIsToken(rs);
      }
    }
  }

  lemma TokenIsToken(rs: ResourceScope)
    requires Printable(rs)
    ensures Token(rs) != [] && Free(Token(rs), SPACES)
  {
  }

  lemma ExtensionIsToken(ts: seq<string>, action: string)
    requires ts != [] && Free(action, SPACES)
    requires forall t :: t in ts ==> t != [] && Free(t, SPACES)
    ensures forall t :: t in ExtendLast(ts, "," + action) ==> t != [] && Free(t, SPACES)
  {
    var init, last := ts[..|ts| - 1], ts[|ts| - 1];
    assert last in ts && forall t :: t in init ==> t in ts;
    assert Free(last + ("," + action), SPACES);
  }

  lemma {:induction false} RenderJoinsTokens(items: seq<ResourceScope>)
    requires AllPrintable(items)
    ensures Render(items) == Join(Tokens(items))
  {
    if items != [] {
      var init, rs := items[..|items| - 1], items[|items| - 1];
      assert items == init + [rs];
      RenderJoinsTokens(init);
      TokensAreTokens(init);
      JoinIsEmptyOnlyWithoutTokens(Tokens(init));
      if Continues(LastOr(init), rs) {
        JoinExtendsLast(Tokens(init), "," + rs.action);
        assert Render(init) + "," + rs.action == Render(init) + ("," + rs.action);
      } else {
        assert (Tokens(init) + [Token(rs)])[..|Tokens(init)|] == Tokens(init);
      }
    }
  }

  lemma TripleSplits(rs: ResourceScope)
    requires Triple(rs)
    ensures Split(Token(rs), COLON) == [rs.resourceType, rs.resource, rs.action]
    ensures Split(rs.action, COMMA) == [rs.action]
  {
    assert Free(rs.action, COLON);
    assert Free(rs.action, COMMA);
    var tail := rs.resource + [':'] + rs.action;
    assert Token(rs) == rs.resourceType + [':'] + tail;
    SplitAtSeparator(rs.resourceType, ':', tail, COLON);
    SplitAtSeparator(rs.resource, ':', rs.action, COLON);
    SplitOfFree(rs.resourceType, COLON);
    SplitOfFree(rs.resource, COLON);
    SplitOfFree(rs.action, COLON);
    SplitOfFree(rs.action, COMMA);
  }

  lemma WordSplits(rs: ResourceScope)
    requires Word(rs)
    ensures ParseField(Token(rs)) == [rs]
  {
    assert Token(rs) == rs.resourceType;
  }

  /** A comma and one more action extend a parsed triple by one scope. */
  lemma ActionAppended(t: string, resourceType: string, resource: string, acts: string, action: string)
    requires Split(t, COLON) == [resourceType, resource, acts]
    requires Free(action, COLON + COMMA)
    ensures Split(t + ("," + action), COLON) == [resourceType, resource, acts + ("," + action)]
    ensures ParseField(t + ("," + action)) == ParseField(t) + [ResourceScope(resourceType, resource, action)]
  {
    assert Free("," + action, COLON);
    SplitExtendsLast(t, "," + action, COLON);
    assert acts + ("," + action) == acts + [','] + action;
    SplitAtSeparator(acts, ',', action, COMMA);
    assert Free(action, COMMA);
    SplitOfFree(action, COMMA);
    assert WithActions(resourceType, resource, Split(acts, COMMA) + [action]) ==
           WithActions(resourceType, resource, Split(acts, COMMA)) + [ResourceScope(resourceType, resource, action)];
  }

  /** The last token is the last item's, with actions acts. */
  predicate EndsIn(tokens: seq<string>, rs: ResourceScope, acts: string)
    requires tokens != []
  {
    Split(tokens[|tokens| - 1], COLON) == [rs.resourceType, rs.resource, acts]
  }

  lemma ContinueParsing(ts: seq<string>, rs: ResourceScope, before: string) returns (acts: string)
    requires ts != [] && Triple(rs) && EndsIn(ts, rs, before)
    ensures ParseFields(ExtendLast(ts, "," + rs.action)) == ParseFields(ts) + [rs]
    ensures EndsIn(ExtendLast(ts, "," + rs.action), rs, acts)
  {
    var init, last, more := ts[..|ts| - 1], ts[|ts| - 1], "," + rs.action;
    ActionAppended(last, rs.resourceType, rs.resource, before, rs.action);
    acts := before + more;
    ParseFieldsSnoc(init, last);
    ParseFieldsSnoc(init, last + more);
    assert init + [last] == ts;
  }

  lemma StartParsing(ts: seq<string>, rs: ResourceScope) returns (acts: string)
    requires Printable(rs)
    ensures ParseFields(ts + [Token(rs)]) == ParseFields(ts) + [rs]
    ensures Triple(rs) ==> EndsIn(ts + [Token(rs)], rs, acts)
  {
    ParseFieldsSnoc(ts, Token(rs));
    acts := rs.action;
    if Triple(rs) {
      TripleSplits(rs);
      assert WithActions(rs.resourceType, rs.resource, [rs.action]) == [rs];
    } else {
      WordSplits(rs);
    }
  }

  lemma ParseFieldsSnoc(init: seq<string>, t: string)
    ensures ParseFields(init + [t]) == ParseFields(init) + ParseField(t)
  {
    assert (init + [t])[..|init|] == init;
  }

  lemma WordField(t: string)
    requires Free(t, COLON)
    ensures ParseField(t) == [ResourceScope(t, "", "")]
  {
    SplitOfFree(t, COLON);
  }

  lemma WordExtends(t: string, action: string)
    requires Free(t, COLON) && Free(action, COLON)
    ensures Free(t + ("," + action), COLON) && ',' in t + ("," + action)
  {
    var more := "," + action;
    assert more[0] == ',' && Free(more, COLON);
    assert (t + more)[|t|] == ',';
  }

  /** Tokens that end in a word. */
  lemma WordReadLast(init: seq<string>, t: string)
    requires Free(t, COLON)
    ensures ParseFields(init + [t]) == ParseFields(init) + [ResourceScope(t, "", "")]
  {
    WordField(t);
    ParseFieldsSnoc(init, t);
  }

  // The order of the items around the word.

  /** Whatever lies between the word and an entry of a nameless repository is
      such an entry itself. */
  lemma Between(x: ResourceScope, rs: ResourceScope)
    requires rs.resourceType == TYPE_REPOSITORY && rs.resource == ""
    requires (x == REPOSITORY_WORD || Before(REPOSITORY_WORD, x)) && Before(x, rs)
    ensures x.resourceType == TYPE_REPOSITORY && x.resource == ""
  {
    CompareFlips(x.resourceType, TYPE_REPOSITORY);
    CompareFlips(x.resource, "");
  }

  lemma NothingBetween(x: ResourceScope)
    requires x.resourceType == TYPE_REPOSITORY && x.resource == ""
    ensures !Before(x, REPOSITORY_WORD)
  {
  }

  lemma LastIsGreatest(init: seq<ResourceScope>, rs: ResourceScope)
    requires Increasing(init + [rs], Before)
    ensures forall x :: x in init ==> Before(x, rs) && (x == LastOr(init) || Before(x, LastOr(init)))
  {
    var items, n := init + [rs], |init|;
    assert items[n] == rs && forall i :: 0 <= i < n ==> items[i] == init[i];
    forall x | x in init ensures Before(x, rs) && (x == LastOr(init) || Before(x, LastOr(init))) {
      var i :| 0 <= i < n && init[i] == x;
      assert Before(items[i], items[n]);
      assert i < n - 1 ==> Before(items[i], items[n - 1]);
    }
  }

  /** An action without a repository name comes right after the word, if there is
      one, or after another such action. */
  lemma BareContinues(init: seq<ResourceScope>, rs: ResourceScope)
    requires Increasing(init + [rs], Before) && REPOSITORY_WORD in init
    requires rs.resourceType == TYPE_REPOSITORY && rs.resource == ""
    ensures Continues(LastOr(init), rs)
  {
    LastIsGreatest(init, rs);
    Between(LastOr(init), rs);
  }

  /** Once an action without a repository name was met, the word is behind. */
  lemma WordIsBehind(init: seq<ResourceScope>, rs: ResourceScope, b: ResourceScope)
    requires Increasing(init + [rs], Before) && b in init && Bare(b)
    ensures LastOr(init) != REPOSITORY_WORD && rs != REPOSITORY_WORD
  {
    LastIsGreatest(init, rs);
    NothingBetween(b);
  }

  lemma ContinuationHasAction(init: seq<ResourceScope>, rs: ResourceScope)
    requires Increasing(init + [rs], Before) && init != [] && Continues(LastOr(init), rs) && rs.resource == ""
    ensures rs.action != ""
  {
    LastIsGreatest(init, rs);
    NothingBetween(LastOr(init));
  }

  lemma ClashGrows(init: seq<ResourceScope>, rs: ResourceScope)
    requires Increasing(init + [rs], Before)
    ensures Clash(init + [rs]) <==> Clash(init) || (Bare(rs) && REPOSITORY_WORD in init)
    ensures Clash(init) ==> LastOr(init) != REPOSITORY_WORD && rs != REPOSITORY_WORD
  {
    if exists b :: b in init && Bare(b) {
      var b :| b in init && Bare(b);
      WordIsBehind(init, rs, b);
    }
  }

  // Reading the tokens.

  /** The last item has been swallowed by the word. */
  predicate InRun(items: seq<ResourceScope>) {
    Clash(items) && LastOr(items).resourceType == TYPE_REPOSITORY && LastOr(items).resource == ""
  }

  ghost predicate LastToken(items: seq<ResourceScope>, acts: string)
    requires items != []
  {
    var ts, last := Tokens(items), LastOr(items);
    if last.resource == "" && last.action == "" then ts[|ts| - 1] == Token(last)
    else if InRun(items) then Free(ts[|ts| - 1], COLON) && ',' in ts[|ts| - 1]
    else EndsIn(ts, last, acts)
  }

  /** What parsing makes of the tokens of items. */
  ghost predicate ReadAs(items: seq<ResourceScope>, read: seq<ResourceScope>) {
    && (!Clash(items) ==> read == items)
    && (Clash(items) ==> REPOSITORY_WORD !in read)
    && (forall p :: p in read ==> p in items || (p.resource == "" && p.action == ""))
  }

  ghost predicate Suitable(items: seq<ResourceScope>) {
    Increasing(items, Before) && AllPrintable(items) && Clean(items)
  }

  lemma SuitableInit(init: seq<ResourceScope>, rs: ResourceScope)
    requires Suitable(init + [rs])
    ensures Suitable(init) && Printable(rs) && rs !in init
    ensures rs.resourceType == TYPE_REPOSITORY && rs.resource == "" && rs.action != "" ==> Bare(rs)
  {
    var items := init + [rs];
    assert rs in items && forall x :: x in init ==> x in items;
    assert forall i :: 0 <= i < |init| ==> items[i] == init[i];
    LastIsGreatest(init, rs);
    assert !Before(rs, rs);
  }

  lemma OneMoreRead(init: seq<ResourceScope>, rs: ResourceScope, read: seq<ResourceScope>)
    requires ReadAs(init, read) && (Clash(init + [rs]) <==> Clash(init)) && (Clash(init) ==> rs != REPOSITORY_WORD)
    ensures ReadAs(init + [rs], read + [rs])
  {
  }

  lemma NewTokenRead(init: seq<ResourceScope>, rs: ResourceScope) returns (acts: string)
    requires Suitable(init + [rs]) && ReadAs(init, ParseFields(Tokens(init))) && !Continues(LastOr(init), rs)
    ensures ReadAs(init + [rs], ParseFields(Tokens(init + [rs]))) && LastToken(init + [rs], acts)
  {
    var items := init + [rs];
    assert items[..|items| - 1] == init;
    assert Tokens(items) == Tokens(init) + [Token(rs)];
    SuitableInit(init, rs);
    ClashGrows(init, rs);
    if Bare(rs) && REPOSITORY_WORD in init { BareContinues(init, rs); }
    OneMoreRead(init, rs, ParseFields(Tokens(init)));
    acts := StartParsing(Tokens(init), rs);
    NewTokenIsLast(init, rs, acts);
  }

  lemma NewTokenIsLast(init: seq<ResourceScope>, rs: ResourceScope, acts: string)
    requires Suitable(init + [rs]) && !Continues(LastOr(init), rs) && (Clash(init + [rs]) <==> Clash(init))
    requires Printable(rs) && (Triple(rs) ==> EndsIn(Tokens(init) + [Token(rs)], rs, acts))
    ensures LastToken(init + [rs], acts)
  {
    var items := init + [rs];
    assert items[..|items| - 1] == init;
    NewTokenIsNoRun(init, rs);
  }

  lemma NewTokenIsNoRun(init: seq<ResourceScope>, rs: ResourceScope)
    requires Suitable(init + [rs]) && !Continues(LastOr(init), rs) && (Clash(init + [rs]) <==> Clash(init))
    ensures !InRun(init + [rs])
  {
    if Clash(init) && rs.resourceType == TYPE_REPOSITORY && rs.resource == "" { BareContinues(init, rs); }
  }

  /** The token that the next action will be appended to is a word. */
  ghost predicate RunToken(init: seq<ResourceScope>)
    requires init != []
  {
    var t := Tokens(init)[|Tokens(init)| - 1];
    Free(t, COLON) && if InRun(init) then ',' in t else LastOr(init) == REPOSITORY_WORD && t == TYPE_REPOSITORY
  }

  lemma SameResourceRead(init: seq<ResourceScope>, rs: ResourceScope, before: string) returns (acts: string)
    requires Suitable(init + [rs]) && init != [] && ReadAs(init, ParseFields(Tokens(init)))
    requires Continues(LastOr(init), rs) && EndsIn(Tokens(init), LastOr(init), before) && Triple(rs)
    requires !InRun(init + [rs])
    ensures ReadAs(init + [rs], ParseFields(Tokens(init + [rs]))) && LastToken(init + [rs], acts)
  {
    var items := init + [rs];
    assert items[..|items| - 1] == init;
    SuitableInit(init, rs);
    ClashGrows(init, rs);
    assert Clash(items) <==> Clash(init);
    OneMoreRead(init, rs, ParseFields(Tokens(init)));
    acts := ContinueParsing(Tokens(init), rs, before);
  }

  /** The word, or the run it started, swallows one more action. */
  lemma SwallowedRead(init: seq<ResourceScope>, rs: ResourceScope)
    requires Suitable(init + [rs]) && init != [] && ReadAs(init, ParseFields(Tokens(init)))
    requires Continues(LastOr(init), rs) && InRun(init + [rs]) && Free(rs.action, COLON) && rs.action != ""
    requires RunToken(init)
    ensures ReadAs(init + [rs], ParseFields(Tokens(init + [rs]))) && LastToken(init + [rs], "")
  {
    var items, ts := init + [rs], Tokens(init);
    var start, t := ts[..|ts| - 1], ts[|ts| - 1];
    var longer := t + ("," + rs.action);
    assert items[..|items| - 1] == init && ts == start + [t];
    assert Tokens(items) == start + [longer];
    SuitableInit(init, rs);
    WordExtends(t, rs.action);
    WordReadLast(start, t);
    WordReadLast(start, longer);
    WordNotInRest(init, ParseFields(start), ResourceScope(t, "", ""));
    LongerWordRead(init, rs, ParseFields(start), t, longer);
  }

  lemma LongerWordRead(init: seq<ResourceScope>, rs: ResourceScope, rest: seq<ResourceScope>, t: string, longer: string)
    requires ReadAs(init, rest + [ResourceScope(t, "", "")]) && Clash(init + [rs])
    requires REPOSITORY_WORD !in rest && ',' in longer
    ensures ReadAs(init + [rs], rest + [ResourceScope(longer, "", "")])
  {
    assert ',' !in TYPE_REPOSITORY;
    assert forall p :: p in rest ==> p in rest + [ResourceScope(t, "", "")];
  }

  lemma WordNotInRest(init: seq<ResourceScope>, rest: seq<ResourceScope>, last: ResourceScope)
    requires Suitable(init) && init != [] && ReadAs(init, rest + [last])
    requires Clash(init) || LastOr(init) == REPOSITORY_WORD
    ensures REPOSITORY_WORD !in rest
  {
    if !Clash(init) {
      var before := init[..|init| - 1];
      assert init == before + [REPOSITORY_WORD];
      assert rest == before;
      SuitableInit(before, REPOSITORY_WORD);
    } else {
      assert REPOSITORY_WORD !in rest + [last];
    }
  }

  /** Parsing the tokens gives the items back one for one, unless the word is
      followed by actions that are not its own: then it is gone. */
  lemma {:induction false} TokensReadBack(items: seq<ResourceScope>) returns (acts: string)
    requires Suitable(items)
    ensures ReadAs(items, ParseFields(Tokens(items)))
    ensures items != [] ==> LastToken(items, acts)
  {
    acts := "";
    if items != [] {
      var init, rs := items[..|items| - 1], items[|items| - 1];
      assert items == init + [rs];
      SuitableInit(init, rs);
      ClashGrows(init, rs);
      var before := TokensReadBack(init);
      if !Continues(LastOr(init), rs) {
        acts := NewTokenRead(init, rs);
      } else {
        LastOfInit(init, rs, before);
        if InRun(items) {
          SwallowedRead(init, rs);
          acts := "";
        } else {
          acts := SameResourceRead(init, rs, before);
        }
      }
    }
  }

  /** What can stand before an item that continues it. */
  lemma LastOfInit(init: seq<ResourceScope>, rs: ResourceScope, before: string)
    requires Suitable(init + [rs]) && Continues(LastOr(init), rs) && init != [] && LastToken(init, before)
    ensures Triple(rs)
    ensures InRun(init + [rs]) ==> RunToken(init)
    ensures !InRun(init + [rs]) ==> EndsIn(Tokens(init), LastOr(init), before)
  {
    SuitableInit(init, rs);
    ClashGrows(init, rs);
    if rs.resource == "" {
      ContinuationHasAction(init, rs);
      LastOfRun(init, rs, before);
    } else {
      assert LastOr(init) in init;
    }
  }

  lemma LastOfRun(init: seq<ResourceScope>, rs: ResourceScope, before: string)
    requires Suitable(init) && init != [] && LastToken(init, before) && Bare(rs)
    requires LastOr(init).resourceType == TYPE_REPOSITORY && LastOr(init).resource == ""
    requires Clash(init) ==> LastOr(init) != REPOSITORY_WORD
    requires Clash(init + [rs]) <==> Clash(init) || REPOSITORY_WORD in init
    ensures InRun(init + [rs]) ==> RunToken(init)
    ensures !InRun(init + [rs]) ==> EndsIn(Tokens(init), LastOr(init), before)
  {
    var last := LastOr(init);
    assert last in init;
    if last.action == "" {
      assert last == REPOSITORY_WORD && Token(last) == TYPE_REPOSITORY + "" == TYPE_REPOSITORY;
      assert Free(TYPE_REPOSITORY, COLON);
    }
  }

  // The printed text.

  /** What parsing the printed form of items gives. */
  function Reread(items: seq<ResourceScope>): seq<ResourceScope> {
    ParseFields(Fields(Render(items)))
  }

  lemma SuitableReread(items: seq<ResourceScope>)
    requires Suitable(items)
    ensures ReadAs(items, Reread(items))
  {
    RenderJoinsTokens(items);
    TokensAreTokens(items);
    FieldsOfJoin(Tokens(items));
    var _ := TokensReadBack(items);
  }

  /** The blank entry is the least one, and prints as nothing. */
  lemma {:induction false} BlankPrintsAsNothing(items: seq<ResourceScope>)
    ensures Render([NONE] + items) == Render(items)
  {
    var all := [NONE] + items;
    if items == [] {
      assert all[..|all| - 1] == [] && all == [NONE];
      assert Token(NONE) == "";
    } else {
      var init, rs := items[..|items| - 1], items[|items| - 1];
      assert all[..|all| - 1] == [NONE] + init && all[|all| - 1] == rs;
      BlankPrintsAsNothing(init);
      assert LastOr([NONE] + init) == LastOr(init);
    }
  }

  lemma BlankIsFirst(items: seq<ResourceScope>)
    requires Increasing(items, Before) && NONE in items
    ensures items[0] == NONE
  {
    var i :| 0 <= i < |items| && items[i] == NONE;
    assert i > 0 ==> Before(items[0], NONE);
  }

  /** The items of a scope: what reads back does; of what does not, some unknown
      entry is lost. */
  lemma ItemsReread(items: seq<ResourceScope>)
    requires Increasing(items, Before) && Clean(items)
    requires forall rs :: rs in items ==> Printable(rs) || rs == NONE
    ensures ReadsBack(items) ==> Reread(items) == items
    ensures !ReadsBack(items) ==> exists rs :: rs in items && !IsKnown(rs) && rs !in Reread(items)
    ensures Clean(Reread(items))
  {
    var rest := items;
    if NONE in items {
      BlankIsFirst(items);
      rest := items[1..];
      assert items == [NONE] + rest;
      BlankPrintsAsNothing(rest);
      BeforeIsStrictTotal();
      TailMembers(items, Before);
      assert !Printable(NONE);
    }
    assert Suitable(rest);
    SuitableReread(rest);
    if Clash(rest) {
      assert REPOSITORY_WORD in items && !IsKnown(REPOSITORY_WORD) && REPOSITORY_WORD !in Reread(items);
    } else if NONE in items {
      assert NONE !in rest && !IsKnown(NONE);
    }
    forall rs | rs in Reread(items) ensures !Nameless(rs) {
      assert rs in rest ==> rs in items;
    }
  }

  lemma {:induction false} ParsedArePrintable(fields: seq<string>)
    requires forall f :: f in fields ==> f != [] && Free(f, SPACES)
    ensures forall rs :: rs in ParseFields(fields) ==> Printable(rs) || rs == NONE
  {
    if fields != [] {
      var init, f := fields[..|fields| - 1], fields[|fields| - 1];
      assert f in fields && forall g :: g in init ==> g in fields;
      ParsedArePrintable(init);
      FieldIsPrintable(f);
    }
  }

  lemma FieldIsPrintable(f: string)
    requires f != [] && Free(f, SPACES)
    ensures forall rs :: rs in ParseField(f) ==> Printable(rs) || rs == NONE
  {
    var parts := Split(f, COLON);
    PartsStayFree(f, COLON, SPACES);
    if |parts| == 3 {
      var actions := Split(parts[2], COMMA);
      assert forall i :: 0 <= i < 3 ==> parts[i] in parts && Free(parts[i], COLON) && Free(parts[i], SPACES);
      PartsStayFree(parts[2], COMMA, SPACES);
      PartsStayFree(parts[2], COMMA, COLON);
      SplitOfFree(parts[0], COLON);
      forall a | a in actions
        ensures Printable(ResourceScope(parts[0], parts[1], a)) || ResourceScope(parts[0], parts[1], a) == NONE
      {
        assert Free(a, COMMA) && Free(a, COLON) && Free(a, COLON + COMMA);
      }
      assert forall rs :: rs in ParseField(f) ==>
             rs.action in actions && rs == ResourceScope(parts[0], parts[1], rs.action);
    }
  }

  /** Splitting brings in no new characters. */
  lemma {:induction false} PartsStayFree(s: string, seps: set<char>, chars: set<char>)
    requires Free(s, chars)
    ensures forall p :: p in Split(s, seps) ==> Free(p, chars)
  {
    if s != [] {
      assert s == [s[0]] + s[1..];
      PartsStayFree(s[1..], seps, chars);
      var rest := Split(s[1..], seps);
      assert rest[0] in rest && forall p :: p in rest[1..] ==> p in rest;
      if s[0] !in seps {
        assert Free([s[0]] + rest[0], chars);
      }
    }
  }

  /** Nothing else can be lost: every entry of a scope that is Equal to one built
      from parsed text was in the text. */
  lemma EqualComesFromText(s: Scope, read: seq<ResourceScope>)
    requires Canonical(s) && !s.unlimited && StrictTotalOrder(Before)
    requires Equal(Build(SortDistinct(read, Before)), s)
    ensures forall rs :: Member(s, rs) && rs != CATALOG ==> rs in read
  {
    var sorted := SortDistinct(read, Before);
    BuildIsExact(sorted);
    forall rs | Member(s, rs) && rs != CATALOG ensures rs in read {
      if rs in s.others {
        assert rs in Build(sorted).others;
      } else {
        var k := ParseKnownAction(rs.action);
        assert HasBit(Build(sorted), rs.resource, k);
        assert Claims(sorted, rs.resource, k);
      }
    }
  }

  lemma EmptyText()
    ensures Fields("") == []
  {
    assert Split("", SPACES) == [[]];
    assert NonEmpty([[]]) == NonEmpty([[]][1..]);
  }

  lemma PlainIsFree(s: string)
    requires forall c :: c in s ==> 'a' <= c <= 'z' || c == '*'
    ensures Free(s, SPACES) && Free(s, COLON) && Free(s, COLON + COMMA)
  {
  }

  lemma CatalogIsPrintable()
    ensures Printable(CATALOG)
  {
    PlainIsFree("registry");
    PlainIsFree("catalog");
    PlainIsFree("*");
  }

  /** Printing a scope and parsing the text gives an Equal scope exactly when
      every entry is printable and the word "repository" does not meet an entry
      of a nameless repository. */
  lemma PrintParse(s: Scope)
    requires Canonical(s) && !s.unlimited && s.original == ""
    ensures Equal(Parse(Print(s)), s) <==> ReadsBack(Items(s))
  {
    BeforeIsStrictTotal();
    var items := Items(s);
    ItemsAreTheMembers(s);
    RebuiltFromItems(s);
    if IsEmpty(s) {
      EmptyText();
    } else {
      var read := Reread(items);
      assert Equal(Parse(Print(s)), Build(SortDistinct(read, Before)));
      if Equal(Parse(Print(s)), s) {
        AllAreReadable(s);
      }
      if forall rs :: rs in items ==> Printable(rs) || rs == NONE {
        ItemsReread(items);
        if ReadsBack(items) {
          SortDistinctOfIncreasing(items, Before);
        } else if Equal(Parse(Print(s)), s) {
          EqualComesFromText(s, read);
        }
      }
    }
  }

  lemma AllAreReadable(s: Scope)
    requires Canonical(s) && !s.unlimited && StrictTotalOrder(Before)
    requires Equal(Build(SortDistinct(Reread(Items(s)), Before)), s)
    ensures forall rs :: rs in Items(s) ==> Printable(rs) || rs == NONE
  {
    ItemsAreTheMembers(s);
    EqualComesFromText(s, Reread(Items(s)));
    ParsedArePrintable(Fields(Render(Items(s))));
    CatalogIsPrintable();
  }

  // Text that is parsed first.

  const NAMELESS_PUSH := ResourceScope(TYPE_REPOSITORY, "", "push")
  const NAMELESS_DELETE := ResourceScope(TYPE_REPOSITORY, "", "delete")

  /** The parsed entries that survive being printed and parsed again. */
  predicate Stable(rss: seq<ResourceScope>) {
    NONE !in rss && NAMELESS_PUSH !in rss && NAMELESS_DELETE !in rss && !Clash(rss)
  }

  lemma CanonicalUnlessNameless(rss: seq<ResourceScope>, s: Scope)
    requires Exact(rss, s)
    ensures Canonical(s) <==> NAMELESS_PUSH !in rss && NAMELESS_DELETE !in rss
  {
    assert Claims(rss, "", 1) <==> NAMELESS_DELETE in rss;
    assert Claims(rss, "", 3) <==> NAMELESS_PUSH in rss;
    if "" in s.repositories {
      var i :| 0 <= i < |s.repositories| && s.repositories[i] == "";
      LessIsStrictTotal();
      BitAt(s, i, 1);
      BitAt(s, i, 3);
      NamelessMask(s.actions[i]);
    }
  }

  lemma NamelessMask(m: bv8)
    requires ValidMask(m)
    ensures m == Bit(2) <==> !On(m, 1) && !On(m, 3)
  {
    if !On(m, 1) && !On(m, 3) {
      MaskBits(m);
      MasksEqual(m, Bit(2));
    }
  }

  /** What Iter and String see of a scope: the nameless mask is never looked at. */
  function Seen(s: Scope): Scope
    requires |s.repositories| == |s.actions|
  {
    s.(actions := seq(|s.actions|, i requires 0 <= i < |s.actions| =>
                        if s.repositories[i] == "" then Bit(2) else s.actions[i]))
  }

  lemma {:induction false} SeenExpands(s: Scope, i: nat)
    requires |s.repositories| == |s.actions| && i <= |s.actions|
    ensures Expand(Seen(s), i) == Expand(s, i)
    decreases |s.actions| - i
  {
    if i < |s.actions| {
      SeenExpands(s, i + 1);
    }
  }

  lemma SeenIsCanonical(s: Scope)
    requires Shaped(s)
    ensures Canonical(Seen(s)) && Items(Seen(s)) == Items(s) && Print(Seen(s)) == Print(s)
    ensures Canonical(s) ==> Seen(s) == s
    ensures forall r, k: Action :: r != "" ==> (HasBit(Seen(s), r, k) <==> HasBit(s, r, k))
  {
    SeenExpands(s, 0);
    if Canonical(s) {
      assert Seen(s).actions == s.actions;
    }
  }

  lemma ItemsOfParsed(rss: seq<ResourceScope>, s: Scope)
    requires Exact(rss, s) && forall rs :: rs in rss ==> Printable(rs) || rs == NONE
    ensures var items := Items(Seen(s));
            && Canonical(Seen(s))
            && (forall rs :: rs in items ==> Printable(rs) || rs == NONE)
            && (ReadsBack(items) <==> NONE !in rss && !Clash(rss))
  {
    SeenIsCanonical(s);
    var t := Seen(s);
    var items := Items(t);
    ItemsAreTheMembers(t);
    CatalogIsPrintable();
    assert !Printable(NONE);
    forall rs | !IsKnown(rs) ensures rs in items <==> rs in rss {
      OthersAreTheUnknown(t, rs);
    }
    forall rs | rs in items && IsKnown(rs) ensures Printable(rs) {
      if rs != CATALOG {
        var k := ParseKnownAction(rs.action);
        assert HasBit(s, rs.resource, k) && Claims(rss, rs.resource, k);
        assert rs == ResourceScope(TYPE_REPOSITORY, rs.resource, ActionName(k));
      }
    }
    assert !IsKnown(NONE) && !IsKnown(REPOSITORY_WORD);
    assert forall rs :: Bare(rs) ==> !IsKnown(rs);
  }

  /** A nameless push or delete is not even printed. */
  lemma NamelessIsLost(rss: seq<ResourceScope>, s: Scope)
    requires StrictTotalOrder(Before) && Exact(rss, s) && s.original == "" && !Canonical(s)
    requires forall rs :: rs in rss ==> Printable(rs) || rs == NONE
    ensures |s.repositories| == |s.actions| && !Equal(Parse(Print(s)), s)
  {
    CanonicalUnlessNameless(rss, s);
    ItemsOfParsed(rss, s);
    SeenIsCanonical(s);
    var items := Items(s);
    ItemsAreTheMembers(Seen(s));
    RebuiltFromItems(Seen(s));
    ItemsReread(items);
    var k: Action := if NAMELESS_PUSH in rss then 3 else 1;
    assert Claims(rss, "", k) && HasBit(s, "", k);
    var sorted := SortDistinct(Reread(items), Before);
    var again := Build(sorted);
    BuildIsExact(sorted);
    assert Nameless(ResourceScope(TYPE_REPOSITORY, "", ActionName(k)));
    assert !Claims(sorted, "", k) && !HasBit(again, "", k);
    assert Parse(Print(s)) == again.(original := Print(s));
  }

  /** For every input text: parse, canonicalize, print and parse again gives an
      Equal scope exactly when the parsed entries are stable. */
  lemma ParsePrintParse(text: string)
    ensures |Parse(text).repositories| == |Parse(text).actions|
    ensures Equal(Parse(Print(Parse(text).(original := ""))), Parse(text)) <==> Stable(ParseFields(Fields(text)))
  {
    BeforeIsStrictTotal();
    var rss := ParseFields(Fields(text));
    var sorted := SortDistinct(rss, Before);
    var s := Build(sorted);
    ParsedArePrintable(Fields(text));
    BuildIsExact(sorted);
    BuildIsParallel(sorted);
    CanonicalUnlessNameless(sorted, s);
    ItemsOfParsed(sorted, s);
    assert Parse(text).(original := "") == s;
    assert Stable(sorted) <==> Stable(rss);
    if Canonical(s) {
      SeenIsCanonical(s);
      PrintParse(s);
    } else {
      NamelessIsLost(sorted, s);
    }
  }

  // Texts that do not survive.

  lemma OneField(f: string)
    requires f != [] && Free(f, SPACES)
    ensures ParseFields(Fields(f)) == ParseField(f)
  {
    FieldsOfToken(f);
    var one := [f];
    assert one[..0] == [] && ParseFields(one[..0]) == [];
  }

  lemma TripleField(a: string, b: string, c: string)
    requires Free(a, COLON) && Free(b, COLON) && Free(c, COLON + COMMA)
    ensures ParseField(a + [':'] + (b + [':'] + c)) == [ResourceScope(a, b, c)]
  {
    SplitAtSeparator(a, ':', b + [':'] + c, COLON);
    SplitAtSeparator(b, ':', c, COLON);
    SplitOfFree(a, COLON);
    SplitOfFree(b, COLON);
    assert Free(c, COLON) && Free(c, COMMA);
    SplitOfFree(c, COLON);
    SplitOfFree(c, COMMA);
    assert WithActions(a, b, [c]) == [ResourceScope(a, b, c)];
  }

  ghost predicate Survives(text: string) {
    ParsePrintParse(text);
    Equal(Parse(Print(Parse(text).(original := ""))), Parse(text))
  }

  lemma UnstableIsLost(text: string, rss: seq<ResourceScope>)
    requires ParseFields(Fields(text)) == rss && !Stable(rss)
    ensures !Survives(text)
  {
    ParsePrintParse(text);
  }

  lemma TripleReads(text: string, a: string, b: string, c: string)
    requires text == a + [':'] + (b + [':'] + c) && Free(a, COLON) && Free(b, COLON) && Free(c, COLON + COMMA)
    requires Free(a, SPACES) && Free(b, SPACES) && Free(c, SPACES)
    ensures Free(text, SPACES) && text != []
    ensures ParseField(text) == [ResourceScope(a, b, c)]
  {
    TripleField(a, b, c);
    assert Free(b + [':'] + c, SPACES);
  }

  /** The text "::" names the blank entry, which is printed as nothing. */
  lemma BlankIsLost(text: string)
    requires text == "::"
    ensures !Survives(text)
  {
    assert text == "" + [':'] + ("" + [':'] + "");
    TripleReads(text, "", "", "");
    OneField(text);
    UnstableIsLost(text, [NONE]);
  }

  lemma WordAndTripleRead(word: string, bare: string, rs: ResourceScope)
    requires word != [] && Free(word, SPACES) && Free(word, COLON)
    requires bare != [] && Free(bare, SPACES) && ParseField(bare) == [rs]
    ensures ParseFields(Fields(word + " " + bare)) == [ResourceScope(word, "", ""), rs]
  {
    FieldsOfToken(word);
    FieldsOfPair(word, bare);
    ParseFieldsSnoc([word], bare);
    OneField(word);
    WordField(word);
  }

  lemma PairIsLost(word: string, a: string)
    requires Free(word, SPACES) && Free(word, COLON) && word != []
    requires Free(a, SPACES) && Free(a, COLON + COMMA)
    requires !Stable([ResourceScope(word, "", ""), ResourceScope(word, "", a)])
    ensures !Survives(word + " " + (word + [':'] + ("" + [':'] + a)))
  {
    var bare := word + [':'] + ("" + [':'] + a);
    TripleReads(bare, word, "", a);
    WordAndTripleRead(word, bare, ResourceScope(word, "", a));
    UnstableIsLost(word + " " + bare, [ResourceScope(word, "", ""), ResourceScope(word, "", a)]);
  }

  lemma TwoColons(word: string, a: string)
    ensures word + " " + word + "::" + a == word + " " + (word + [':'] + ("" + [':'] + a))
  {
  }

  lemma PairIsUnstable(word: string, a: string)
    requires word == TYPE_REPOSITORY && a != "" && ParseKnownAction(a) == 0
    ensures !Stable([ResourceScope(word, "", ""), ResourceScope(word, "", a)])
  {
    var rss := [ResourceScope(word, "", ""), ResourceScope(word, "", a)];
    assert rss[0] == REPOSITORY_WORD && Bare(rss[1]);
  }

  lemma RepositoryIsPlain(word: string)
    requires word == TYPE_REPOSITORY
    ensures Free(word, SPACES) && Free(word, COLON)
  {
    PlainIsFree(word);
  }

  /** In "repository repository::a", for any unknown action a, the word is lost:
      it is printed as "repository,a". */
  lemma WordIsLost(word: string, a: string)
    requires word == "repository" && a != "" && ParseKnownAction(a) == 0
    requires Free(a, SPACES) && Free(a, COLON + COMMA)
    ensures !Survives(word + " " + word + "::" + a)
  {
    RepositoryIsPlain(word);
    PairIsUnstable(word, a);
    PairIsLost(word, a);
    TwoColons(word, a);
  }
}
