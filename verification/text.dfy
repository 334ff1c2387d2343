/** The parts of Go's strings package the models rely on. */
module Text {

  /** unicode.IsSpace */
  const SPACES: set<char> := {
    '\t', '\n', '\U{000B}', '\U{000C}', '\r', ' ', '\U{0085}', '\U{00A0}', '\U{1680}',
    '\U{2000}', '\U{2001}', '\U{2002}', '\U{2003}', '\U{2004}', '\U{2005}', '\U{2006}',
    '\U{2007}', '\U{2008}', '\U{2009}', '\U{200A}', '\U{2028}', '\U{2029}', '\U{202F}',
    '\U{205F}', '\U{3000}'
  }

  predicate Free(s: string, seps: set<char>) {
    forall c :: c in s ==> c !in seps
  }

  /** strings.Split on any one of the characters in seps. */
  function Split(s: string, seps: set<char>): (parts: seq<string>)
    ensures |parts| >= 1
    ensures forall p :: p in parts ==> Free(p, seps)
  {
    if s == [] then [[]]
    else
      var rest := Split(s[1..], seps);
      if s[0] in seps then [[]] + rest
      else
        assert rest[0] in rest;
        [[s[0]] + rest[0]] + rest[1..]
  }

  /** strings.Cut at the first c. */
  function Cut(s: string, c: char): (r: (string, string, bool))
    ensures r.2 ==> s == r.0 + [c] + r.1
    ensures r.2 <==> c in s
    ensures c !in r.0
    ensures !r.2 ==> r.0 == s && r.1 == ""
  {
    if s == [] then ([], [], false)
    else if s[0] == c then ([], s[1..], true)
    else
      var r := Cut(s[1..], c);
      ([s[0]] + r.0, r.1, r.2)
  }

  /** Cut finds the only split whose first half is free of c. */
  lemma {:induction false} CutAt(a: string, c: char, b: string)
    requires c !in a
    ensures Cut(a + [c] + b, c) == (a, b, true)
  {
    if a == [] {
      assert a + [c] + b == [c] + b;
    } else {
      assert (a + [c] + b)[1..] == a[1..] + [c] + b;
      assert (a + [c] + b)[0] == a[0] && a[0] in a;
      CutAt(a[1..], c, b);
      assert a == [a[0]] + a[1..];
    }
  }

  /** strings.LastIndex(s, ":"), or -1. */
  function LastColon(s: string): (i: int)
    ensures -1 <= i < |s|
    ensures i >= 0 ==> s[i] == ':'
    ensures forall j :: i < j < |s| ==> s[j] != ':'
  {
    if s == [] then -1
    else if s[|s| - 1] == ':' then |s| - 1
    else
      assert forall j :: 0 <= j < |s| - 1 ==> s[..|s| - 1][j] == s[j];
      LastColon(s[..|s| - 1])
  }

  lemma {:induction false} LastColonAt(a: string, b: string)
    requires ':' !in b
    ensures LastColon(a + ":" + b) == |a|
    decreases |b|
  {
    var s := a + ":" + b;
    if b == [] {
      assert s[|s| - 1] == ':';
    } else {
      assert s[|s| - 1] == b[|b| - 1];
      assert s[..|s| - 1] == a + ":" + b[..|b| - 1];
      LastColonAt(a, b[..|b| - 1]);
    }
  }

  function TrimPrefix(s: string, prefix: string): string {
    if prefix <= s then s[|prefix|..] else s
  }

  function NonEmpty(parts: seq<string>): (r: seq<string>)
    ensures forall p :: p in r <==> p in parts && p != []
  {
    if parts == [] then []
    else
      assert parts == [parts[0]] + parts[1..];
      (if parts[0] == [] then [] else [parts[0]]) + NonEmpty(parts[1..])
  }

  /** strings.Fields */
  function Fields(s: string): (fields: seq<string>)
    ensures forall f :: f in fields ==> f != [] && Free(f, SPACES)
  {
    NonEmpty(Split(s, SPACES))
  }

  function Join(tokens: seq<string>): string {
    if tokens == [] then []
    else if |tokens| == 1 then tokens[0]
    else Join(tokens[..|tokens| - 1]) + " " + tokens[|tokens| - 1]
  }

  lemma {:induction false} SplitOfFree(s: string, seps: set<char>)
    requires Free(s, seps)
    ensures Split(s, seps) == [s]
  {
    if s != [] {
      assert s == [s[0]] + s[1..];
      SplitOfFree(s[1..], seps);
    }
  }

  /** Splitting a separated pair splits both halves. */
  lemma {:induction false} SplitAtSeparator(a: string, c: char, b: string, seps: set<char>)
    requires c in seps
    ensures Split(a + [c] + b, seps) == Split(a, seps) + Split(b, seps)
  {
    if a == [] {
      assert a + [c] + b == [c] + b;
    } else {
      assert (a + [c] + b)[1..] == a[1..] + [c] + b;
      SplitAtSeparator(a[1..], c, b, seps);
    }
  }

  function ExtendLast(parts: seq<string>, more: string): seq<string>
    requires parts != []
  {
    parts[..|parts| - 1] + [parts[|parts| - 1] + more]
  }

  /** Appending separator-free text extends the last part only. */
  lemma {:induction false} SplitExtendsLast(a: string, b: string, seps: set<char>)
    requires Free(b, seps)
    ensures Split(a + b, seps) == ExtendLast(Split(a, seps), b)
  {
    if a == [] {
      assert a + b == b;
      SplitOfFree(b, seps);
    } else {
      SplitExtendsLast(a[1..], b, seps);
      assert (a + b)[1..] == a[1..] + b;
      var p := Split(a[1..], seps);
      if a[0] in seps {
        assert ExtendLast([[]] + p, b) == [[]] + ExtendLast(p, b);
      } else {
        HeadThenLast(a[0], p, b);
      }
    }
  }

  lemma HeadThenLast(c: char, p: seq<string>, b: string)
    requires p != []
    ensures ExtendLast([[c] + p[0]] + p[1..], b) ==
            [[c] + ExtendLast(p, b)[0]] + ExtendLast(p, b)[1..]
  {
    if |p| == 1 {
      assert [c] + (p[0] + b) == [c] + p[0] + b;
    }
  }

  lemma {:induction false} NonEmptyOfConcat(a: seq<string>, b: seq<string>)
    ensures NonEmpty(a + b) == NonEmpty(a) + NonEmpty(b)
  {
    if a == [] {
      assert a + b == b;
    } else {
      assert (a + b)[1..] == a[1..] + b;
      NonEmptyOfConcat(a[1..], b);
    }
  }

  lemma FieldsOfToken(token: string)
    requires token != [] && Free(token, SPACES)
    ensures Fields(token) == [token]
  {
    SplitOfFree(token, SPACES);
    var one: seq<string> := [token];
    assert one[1..] == [];
    assert NonEmpty(one) == [token] + NonEmpty(one[1..]);
  }

  lemma FieldsOfPair(a: string, token: string)
    requires token != [] && Free(token, SPACES)
    ensures Fields(a + " " + token) == Fields(a) + [token]
  {
    assert a + " " + token == a + [' '] + token;
    SplitAtSeparator(a, ' ', token, SPACES);
    NonEmptyOfConcat(Split(a, SPACES), Split(token, SPACES));
    FieldsOfToken(token);
  }

  /** Joining space-free, non-empty tokens with spaces loses nothing. */
  lemma {:induction false} FieldsOfJoin(tokens: seq<string>)
    requires forall t :: t in tokens ==> t != [] && Free(t, SPACES)
    ensures Fields(Join(tokens)) == tokens
  {
    if |tokens| == 0 {
      var blank: seq<string> := [[]];
      assert NonEmpty(blank) == [];
    } else if |tokens| == 1 {
      assert tokens[0] in tokens;
      FieldsOfToken(tokens[0]);
    } else {
      var init, last := tokens[..|tokens| - 1], tokens[|tokens| - 1];
      assert last in tokens && forall t :: t in init ==> t in tokens;
      FieldsOfJoin(init);
      FieldsOfPair(Join(init), last);
    }
  }

  lemma {:induction false} JoinIsEmptyOnlyWithoutTokens(tokens: seq<string>)
    requires forall t :: t in tokens ==> t != []
    ensures Join(tokens) == [] <==> tokens == []
  {
    if tokens != [] {
      assert tokens[|tokens| - 1] in tokens;
    }
  }

  /** Extending the last token extends the joined string. */
  lemma JoinExtendsLast(tokens: seq<string>, more: string)
    requires tokens != []
    ensures Join(ExtendLast(tokens, more)) == Join(tokens) + more
  {
    assert ExtendLast(tokens, more)[..|tokens| - 1] == tokens[..|tokens| - 1];
  }
}
