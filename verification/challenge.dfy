/** ociauth/challenge.go: the Www-Authenticate header. Characters stand for bytes. */
module Challenge {
  import opened Bytes

  predicate IsSpace(c: char) {
    c == ' ' || c == '\t' || c == '\r' || c == '\n'
  }

  const SEPARATORS := " \t\"(),/:;<=>?@[]\\{}"

  /** token of RFC 2616, section 2.2: a character that is neither a control nor a
      separator. */
  predicate IsTokenChar(c: char) {
    31 as char < c < 127 as char && c !in SEPARATORS
  }

  // The scanners, and what they find.

  function Skip(s: string): string
    decreases |s|
  {
    if s != [] && IsSpace(s[0]) then Skip(s[1..]) else s
  }

  function Token(s: string): (r: (string, string))
    ensures s == r.0 + r.1
    decreases |s|
  {
    if s != [] && IsTokenChar(s[0]) then
      var (token, rest) := Token(s[1..]);
      ([s[0]] + token, rest)
    else ([], s)
  }

  function Prepend(p: string, r: Option<(string, string)>): Option<(string, string)> {
    match r
    case None => None
    case Some((value, rest)) => Some((p + value, rest))
  }

  /** The value of a quoted string whose opening quote is gone, and what follows
      the closing one. */
  function Quoted(s: string): Option<(string, string)>
    decreases |s|
  {
    if s == [] then None
    else if s[0] == '"' then Some(([], s[1..]))
    else if s[0] == '\\' then AfterBackslash(s[1..])
    else Prepend([s[0]], Quoted(s[1..]))
  }

  function AfterBackslash(s: string): Option<(string, string)>
    decreases |s|
  {
    if s == [] then None else Prepend([s[0]], Quoted(s[1..]))
  }

  function TokenOrQuoted(s: string): (string, string) {
    if s != [] && s[0] == '"' then
      match Quoted(s[1..])
      case None => ("", "")
      case Some(r) => r
    else Token(s)
  }

  method SkipSpace(s: string) returns (rest: string)
    ensures rest == Skip(s)
  {
    var i := 0;
    while i < |s|
      invariant i <= |s| && Skip(s) == Skip(s[i..])
    {
      if !IsSpace(s[i]) { break; }
      assert s[i..][1..] == s[i + 1..];
      i := i + 1;
    }
    rest := s[i..];
  }

  method ExpectToken(s: string) returns (token: string, rest: string)
    ensures (token, rest) == Token(s)
  {
    var i := 0;
    while i < |s|
      invariant i <= |s| && Token(s).1 == Token(s[i..]).1
    {
      if !IsTokenChar(s[i]) { break; }
      assert s[i..][1..] == s[i + 1..];
      i := i + 1;
    }
    token, rest := s[..i], s[i..];
    assert Token(s).1 == rest;
    assert s == Token(s).0 + rest && s == token + rest;
    assert Token(s).0 == s[..|s| - |rest|];
  }

  /** After the first backslash of the quoted string s, at i: the rest is copied
      into a buffer that is one shorter than s. */
  method Unescape(s: string, first: nat) returns (value: string, rest: string)
    requires first < |s| && s[first] == '\\'
    ensures match Prepend(s[..first], AfterBackslash(s[first + 1..]))
            case None => value == "" && rest == ""
            case Some(r) => (value, rest) == r
  {
    ghost var goal := Prepend(s[..first], AfterBackslash(s[first + 1..]));
    var p := new char[|s| - 1];
    forall k | 0 <= k < first {
      p[k] := s[k];
    }
    var j := first;
    assert p[..j] == s[..first];
    var escape := true;
    var i := first + 1;
    while i < |s|
      invariant j < i <= |s|
      invariant goal == Prepend(p[..j], if escape then AfterBackslash(s[i..]) else Quoted(s[i..]))
    {
      var b := s[i];
      assert s[i..][0] == b && s[i..][1..] == s[i + 1..];
      if escape {
        escape := false;
        PrependSnoc(p[..j], b, Quoted(s[i + 1..]));
        p[j] := b;
        j := j + 1;
        assert p[..j] == p[..j - 1] + [b];
      } else if b == '\\' {
        escape := true;
      } else if b == '"' {
        assert p[..j] + [] == p[..j];
        return p[..j], s[i + 1..];
      } else {
        PrependSnoc(p[..j], b, Quoted(s[i + 1..]));
        p[j] := b;
        j := j + 1;
        assert p[..j] == p[..j - 1] + [b];
      }
      i := i + 1;
    }
    return "", "";
  }

  lemma PrependSnoc(p: string, b: char, r: Option<(string, string)>)
    ensures Prepend(p, Prepend([b], r)) == Prepend(p + [b], r)
  {
    if r.Some? {
      assert p + ([b] + r.value.0) == p + [b] + r.value.0;
    }
  }

  method ExpectTokenOrQuoted(s: string) returns (value: string, rest: string)
    ensures (value, rest) == TokenOrQuoted(s)
  {
    if s == "" || s[0] != '"' {
      value, rest := ExpectToken(s);
      return;
    }
    var t := s[1..];
    var i := 0;
    assert Quoted(t) == Prepend([], Quoted(t)) by {
      if Quoted(t).Some? { assert [] + Quoted(t).value.0 == Quoted(t).value.0; }
    }
    assert t[0..] == t;
    while i < |t|
      invariant i <= |t| && Quoted(t) == Prepend(t[..i], Quoted(t[i..]))
    {
      assert t[i..][0] == t[i] && t[i..][1..] == t[i + 1..];
      if t[i] == '"' {
        assert t[..i] + [] == t[..i];
        return t[..i], t[i + 1..];
      }
      if t[i] == '\\' {
        value, rest := Unescape(t, i);
        return;
      }
      PrependSnoc(t[..i], t[i], Quoted(t[i + 1..]));
      assert t[..i + 1] == t[..i] + [t[i]];
      i := i + 1;
    }
    return "", "";
  }

  // The header.

  function LowerChar(c: char): char {
    if 'A' <= c <= 'Z' then c + 32 as char else c
  }

  /** strings.ToLower, on the ASCII strings that tokens are. */
  function Lower(s: string): string {
    if s == [] then [] else [LowerChar(s[0])] + Lower(s[1..])
  }

  datatype Header = Header(scheme: string, params: map<string, string>)

  lemma TokenIsShorter(s: string)
    ensures |Token(s).1| <= |s| && |Skip(s)| <= |s| && |TokenOrQuoted(s).1| <= |s|
  {
    SkipIsShorter(s);
    if s != [] && s[0] == '"' { QuotedIsShorter(s[1..]); }
  }

  lemma {:induction false} SkipIsShorter(s: string)
    ensures |Skip(s)| <= |s|
    decreases |s|
  {
    if s != [] && IsSpace(s[0]) { SkipIsShorter(s[1..]); }
  }

  lemma {:induction false} QuotedIsShorter(s: string)
    ensures Quoted(s).Some? ==> |Quoted(s).value.1| < |s|
    decreases |s|
  {
    if s != [] {
      if s[0] == '\\' && |s| >= 2 {
        assert s[1..][1..] == s[2..];
        QuotedIsShorter(s[2..]);
      } else {
        QuotedIsShorter(s[1..]);
      }
    }
  }

  /** The loop over the parameters. */
  function ParseParams(s: string, params: map<string, string>): Option<map<string, string>>
    decreases |s|
  {
    if s == [] then Some(params)
    else
      TokenIsShorter(s);
      TokenIsShorter(Skip(s));
      var (key, s1) := Token(Skip(s));
      if key == [] || s1 == [] || s1[0] != '=' then None
      else
        TokenIsShorter(s1[1..]);
        var (value, s2) := TokenOrQuoted(s1[1..]);
        TokenIsShorter(s2);
        var s3 := Skip(s2);
        if value == [] then None
        else if s3 == [] then Some(params[Lower(key) := value])
        else if s3[0] != ',' then None
        else ParseParams(s3[1..], params[Lower(key) := value])
  }

  function Parse(header: string): Option<Header> {
    var (scheme, s) := Token(header);
    if scheme == [] then None
    else
      match ParseParams(Skip(s), map[])
      case None => None
      case Some(params) => Some(Header(Lower(scheme), params))
  }

  /** parseWWWAuthenticate */
  method ParseWWWAuthenticate(header: string) returns (h: Option<Header>)
    ensures h == Parse(header)
  {
    var params: map<string, string> := map[];
    var scheme, s := ExpectToken(header);
    if scheme == "" { return None; }
    s := SkipSpace(s);
    while |s| > 0
      invariant ParseParams(Skip(Token(header).1), map[]) == ParseParams(s, params)
      decreases |s|
    {
      TokenIsShorter(s);
      TokenIsShorter(Skip(s));
      s := SkipSpace(s);
      var pkey, pvalue;
      pkey, s := ExpectToken(s);
      if pkey == "" { return None; }
      if s == "" || s[0] != '=' { return None; }
      TokenIsShorter(s[1..]);
      pvalue, s := ExpectTokenOrQuoted(s[1..]);
      if pvalue == "" { return None; }
      params := params[Lower(pkey) := pvalue];
      TokenIsShorter(s);
      s := SkipSpace(s);
      if s == "" || s[0] != ',' {
        if |s| > 0 { return None; }
        break;
      }
      s := s[1..];
    }
    h := Some(Header(Lower(scheme), params));
  }

  // What is printed is parsed back.

  datatype Param = Param(key: string, value: string, quoted: bool)

  /** Quotes and backslashes escaped. */
  function Escape(value: string): string {
    if value == [] then []
    else (if value[0] == '"' || value[0] == '\\' then ['\\', value[0]] else [value[0]]) + Escape(value[1..])
  }

  function PrintValue(param: Param): string {
    if param.quoted then "\"" + Escape(param.value) + "\"" else param.value
  }

  /** Parameters separated by commas with white space ws around them. */
  function PrintParams(ws: string, params: seq<Param>): string {
    if params == [] then []
    else
      params[0].key + "=" + PrintValue(params[0]) +
      (ws + if |params| == 1 then [] else "," + (ws + PrintParams(ws, params[1..])))
  }

  function Print(scheme: string, ws: string, params: seq<Param>): string {
    scheme + (" " + ws + PrintParams(ws, params))
  }

  predicate AllTokenChars(s: string) {
    s != [] && forall c :: c in s ==> IsTokenChar(c)
  }

  predicate AllSpaces(s: string) {
    forall c :: c in s ==> IsSpace(c)
  }

  /** A value that is not quoted is a token. */
  predicate Printable(params: seq<Param>) {
    forall p :: p in params ==> AllTokenChars(p.key) && p.value != [] && (p.quoted || AllTokenChars(p.value))
  }

  /** The parameters as a map, a later one replacing an earlier one. */
  function MapOf(params: seq<Param>, m: map<string, string>): map<string, string> {
    if params == [] then m else MapOf(params[1..], m[Lower(params[0].key) := params[0].value])
  }

  lemma {:induction false} SkipDrops(ws: string, s: string)
    requires AllSpaces(ws) && (s == [] || !IsSpace(s[0]))
    ensures Skip(ws + s) == s
  {
    if ws == [] {
      assert ws + s == s;
    } else {
      assert ws[0] in ws && forall c :: c in ws[1..] ==> c in ws;
      assert (ws + s)[1..] == ws[1..] + s;
      SkipDrops(ws[1..], s);
    }
  }

  lemma {:induction false} TokenTakes(token: string, s: string)
    requires (forall c :: c in token ==> IsTokenChar(c)) && (s == [] || !IsTokenChar(s[0]))
    ensures Token(token + s) == (token, s)
  {
    if token == [] {
      assert token + s == s;
    } else {
      assert token[0] in token && forall c :: c in token[1..] ==> c in token;
      assert (token + s)[1..] == token[1..] + s;
      TokenTakes(token[1..], s);
      assert token == [token[0]] + token[1..];
    }
  }

  lemma {:induction false} QuotedReadsBack(value: string, s: string)
    ensures Quoted(Escape(value) + "\"" + s) == Some((value, s))
  {
    var t := Escape(value) + "\"" + s;
    if value == [] {
      assert t == ['"'] + s;
    } else {
      var t' := Escape(value[1..]) + "\"" + s;
      QuotedReadsBack(value[1..], s);
      assert value == [value[0]] + value[1..];
      if value[0] == '"' || value[0] == '\\' {
        assert t == ['\\', value[0]] + t';
        assert t[1..] == [value[0]] + t';
        assert t[1..][1..] == t';
      } else {
        assert t == [value[0]] + t';
        assert t[1..] == t';
      }
    }
  }

  lemma QuotedIsTaken(s: string, t: string, r: (string, string))
    requires s == ['"'] + t && Quoted(t) == Some(r)
    ensures TokenOrQuoted(s) == r
  {
    assert s[1..] == t;
  }

  lemma PlainIsTaken(token: string, after: string)
    requires AllTokenChars(token) && (after == [] || !IsTokenChar(after[0]))
    ensures TokenOrQuoted(token + after) == (token, after)
  {
    TokenTakes(token, after);
    assert token[0] in token && (token + after)[0] == token[0];
    assert SEPARATORS[2] == '"';
  }

  /** A value that is printed is read back, quoted or not, when what follows could
      not be part of it. */
  lemma ValueReadsBack(param: Param, after: string)
    requires param.quoted || AllTokenChars(param.value)
    requires after == [] || !IsTokenChar(after[0])
    ensures TokenOrQuoted(PrintValue(param) + after) == (param.value, after)
  {
    if param.quoted {
      var t := Escape(param.value) + "\"" + after;
      QuotedReadsBack(param.value, after);
      assert PrintValue(param) + after == ['"'] + t;
      QuotedIsTaken(PrintValue(param) + after, t, (param.value, after));
    } else {
      PlainIsTaken(param.value, after);
    }
  }

  /** One turn of the loop, by what its scanners find. */
  lemma OneTurn(s: string, params: map<string, string>, key: string, s1: string, value: string, after: string)
    requires s != [] && Token(Skip(s)) == (key, s1) && key != [] && s1 != [] && s1[0] == '='
    requires TokenOrQuoted(s1[1..]) == (value, after) && value != []
    ensures |Skip(after)| < |s|
    ensures var s3 := Skip(after);
            ParseParams(s, params) ==
              if s3 == [] then Some(params[Lower(key) := value])
              else if s3[0] != ',' then None
              else ParseParams(s3[1..], params[Lower(key) := value])
  {
    TokenIsShorter(s);
    TokenIsShorter(Skip(s));
    TokenIsShorter(s1[1..]);
    TokenIsShorter(after);
  }

  /** One turn of the loop on one printed parameter. */
  lemma ParamReadsBack(param: Param, after: string, params: map<string, string>)
    requires AllTokenChars(param.key) && param.value != [] && (param.quoted || AllTokenChars(param.value))
    requires after == [] || !IsTokenChar(after[0])
    ensures var s := param.key + "=" + PrintValue(param) + after;
            ParseParams(s, params) ==
              var s3 := Skip(after);
              if s3 == [] then Some(params[Lower(param.key) := param.value])
              else if s3[0] != ',' then None
              else (TokenIsShorter(after); ParseParams(s3[1..], params[Lower(param.key) := param.value]))
  {
    var key := param.key;
    var s := key + "=" + PrintValue(param) + after;
    var s1 := ['='] + (PrintValue(param) + after);
    assert s == key + s1;
    assert key[0] in key && s[0] == key[0];
    assert Skip(s) == s;
    TokenTakes(key, s1);
    assert s1[1..] == PrintValue(param) + after;
    ValueReadsBack(param, after);
    OneTurn(s, params, key, s1, param.value, after);
  }

  lemma SpacesEndTokens(ws: string, s: string)
    requires AllSpaces(ws) && (s == [] || s[0] == ',')
    ensures var t := ws + s; t == [] || !IsTokenChar(t[0])
  {
    assert ' ' in SEPARATORS && ',' in SEPARATORS;
    if ws != [] { assert ws[0] in ws; }
  }

  lemma {:induction false} ParamsReadBack(ws: string, params: seq<Param>, m: map<string, string>)
    requires AllSpaces(ws) && Printable(params) && params != []
    ensures ParseParams(ws + PrintParams(ws, params), m) == Some(MapOf(params, m))
    ensures ParseParams(PrintParams(ws, params), m) == Some(MapOf(params, m))
    decreases |params|
  {
    var key, value := params[0].key, params[0].value;
    assert params[0] in params;
    var m1 := m[Lower(key) := value];
    var s := PrintParams(ws, params);
    if |params| == 1 {
      assert params[1..] == [];
      SkipDrops(ws, []);
      assert ws + [] == ws;
      SpacesEndTokens(ws, []);
      ParamReadsBack(params[0], ws + [], m);
    } else {
      assert forall p :: p in params[1..] ==> p in params;
      var more := "," + (ws + PrintParams(ws, params[1..]));
      SkipDrops(ws, more);
      SpacesEndTokens(ws, more);
      ParamReadsBack(params[0], ws + more, m);
      assert more[1..] == ws + PrintParams(ws, params[1..]);
      ParamsReadBack(ws, params[1..], m1);
    }
    assert key[0] in key && s[0] == key[0] && !IsSpace(s[0]);
    LeadingSpaces(ws, s, m);
  }

  /** White space before a parameter makes no difference. */
  lemma LeadingSpaces(ws: string, s: string, m: map<string, string>)
    requires AllSpaces(ws) && s != [] && !IsSpace(s[0])
    ensures ParseParams(ws + s, m) == ParseParams(s, m)
  {
    SkipDrops(ws, s);
    SkipDrops([], s);
    assert [] + s == s;
  }

  /** Whatever the values, printing and parsing gives back the scheme, lower-cased,
      and the parameters by lower-cased name. */
  lemma PrintedParsesBack(scheme: string, ws: string, params: seq<Param>)
    requires AllTokenChars(scheme) && AllSpaces(ws) && Printable(params)
    ensures Parse(Print(scheme, ws, params)) == Some(Header(Lower(scheme), MapOf(params, map[])))
  {
    var body := PrintParams(ws, params);
    TokenTakes(scheme, " " + ws + body);
    assert " " + ws + body == (" " + ws) + body;
    if params != [] {
      assert params[0] in params && params[0].key[0] in params[0].key && body[0] == params[0].key[0];
      ParamsReadBack(ws, params, map[]);
    }
    SkipDrops(" " + ws, body);
  }

  /** With distinct names, already in lower case, the map is exactly the list. */
  lemma {:induction false} MapOfDistinct(params: seq<Param>, m: map<string, string>)
    requires forall i, j :: 0 <= i < j < |params| ==> params[i].key != params[j].key
    requires forall p :: p in params ==> Lower(p.key) == p.key && p.key !in m
    ensures forall p :: p in params ==> p.key in MapOf(params, m) && MapOf(params, m)[p.key] == p.value
    ensures forall k :: k in m ==> k in MapOf(params, m) && MapOf(params, m)[k] == m[k]
    ensures forall k :: k in MapOf(params, m) ==> k in m || exists p :: p in params && p.key == k
    decreases |params|
  {
    if params != [] {
      assert params == [params[0]] + params[1..];
      assert params[0] in params && forall p :: p in params[1..] ==> p in params;
      forall p | p in params[1..] ensures p.key != params[0].key {
        var j :| 0 <= j < |params[1..]| && params[1..][j] == p;
        assert params[j + 1] == p;
      }
      var m1, all := m[params[0].key := params[0].value], MapOf(params, m);
      MapOfDistinct(params[1..], m1);
      assert all == MapOf(params[1..], m1);
      assert all[params[0].key] == m1[params[0].key];
      forall k | k in m ensures k in all && all[k] == m[k] {
        assert k in m1 && m1[k] == m[k];
      }
    }
  }

  // Upper and lower case.

  predicate SameButCaseChar(a: char, b: char) {
    || a == b
    || ('A' <= a <= 'Z' && b as int == a as int + 32)
    || ('A' <= b <= 'Z' && a as int == b as int + 32)
  }

  predicate SameButCase(a: string, b: string) {
    |a| == |b| && forall i :: 0 <= i < |a| ==> SameButCaseChar(a[i], b[i])
  }

  predicate NoUpper(s: string) {
    forall c :: c in s ==> !('A' <= c <= 'Z')
  }

  lemma {:induction false} LowerIsSame(s: string)
    ensures SameButCase(s, Lower(s)) && NoUpper(Lower(s))
  {
    if s != [] {
      LowerIsSame(s[1..]);
      forall i | 0 <= i < |s| ensures SameButCaseChar(s[i], Lower(s)[i]) {
        if i > 0 { assert SameButCaseChar(s[1..][i - 1], Lower(s[1..])[i - 1]); }
      }
    }
  }

  /** Lower-casing changes nothing but the case, and leaves no upper-case letter. */
  lemma LowerIsExact(s: string, t: string)
    ensures Lower(s) == t <==> SameButCase(s, t) && NoUpper(t)
  {
    LowerIsSame(s);
    if SameButCase(s, t) && NoUpper(t) {
      var u := Lower(s);
      forall i | 0 <= i < |s| ensures t[i] == u[i] {
        assert SameButCaseChar(s[i], t[i]) && SameButCaseChar(s[i], u[i]) && t[i] in t && u[i] in u;
      }
      assert t == u;
    }
  }

  lemma SameLower(a: string, b: string)
    requires SameButCase(a, b)
    ensures Lower(a) == Lower(b)
  {
    var t := Lower(b);
    LowerIsExact(b, t);
    forall i | 0 <= i < |a| ensures SameButCaseChar(a[i], t[i]) {
      assert SameButCaseChar(a[i], b[i]) && SameButCaseChar(b[i], t[i]) && t[i] in t;
    }
    LowerIsExact(a, t);
  }

  predicate LowerKeys(params: map<string, string>) {
    forall k :: k in params ==> NoUpper(k)
  }

  lemma {:induction false} ParamsAreLower(s: string, params: map<string, string>)
    requires LowerKeys(params)
    ensures ParseParams(s, params).Some? ==> LowerKeys(ParseParams(s, params).value)
    decreases |s|
  {
    if ParseParams(s, params).Some? && s != [] {
      TokenIsShorter(s);
      TokenIsShorter(Skip(s));
      var (key, s1) := Token(Skip(s));
      TokenIsShorter(s1[1..]);
      var (value, s2) := TokenOrQuoted(s1[1..]);
      TokenIsShorter(s2);
      LowerIsExact(key, Lower(key));
      var s3 := Skip(s2);
      if s3 != [] { ParamsAreLower(s3[1..], params[Lower(key) := value]); }
    }
  }

  /** Whatever header is parsed, its scheme and its keys come out without an
      upper-case letter, and the scheme is what the header starts with. */
  lemma ParsedIsLower(header: string)
    requires Parse(header).Some?
    ensures var h := Parse(header).value;
            && NoUpper(h.scheme) && LowerKeys(h.params)
            && |h.scheme| <= |header| && SameButCase(header[..|h.scheme|], h.scheme)
  {
    var (scheme, s) := Token(header);
    LowerIsExact(scheme, Lower(scheme));
    assert header[..|scheme|] == scheme;
    ParamsAreLower(Skip(s), map[]);
  }

  /** The same parameters, but for the case of their keys, and but for quotes. */
  predicate SameParams(a: seq<Param>, b: seq<Param>) {
    |a| == |b| && forall i :: 0 <= i < |a| ==> SameButCase(a[i].key, b[i].key) && a[i].value == b[i].value
  }

  lemma {:induction false} SameMaps(a: seq<Param>, b: seq<Param>, m: map<string, string>)
    requires SameParams(a, b)
    ensures MapOf(a, m) == MapOf(b, m)
    decreases |a|
  {
    if a != [] {
      SameLower(a[0].key, b[0].key);
      SameMaps(a[1..], b[1..], m[Lower(a[0].key) := a[0].value]);
    }
  }

  /** The case of the scheme and of the keys does not matter, nor does the white
      space around the commas, nor whether a token is quoted. */
  lemma CaseDoesNotMatter(scheme1: string, scheme2: string, ws1: string, ws2: string, a: seq<Param>, b: seq<Param>)
    requires AllTokenChars(scheme1) && AllTokenChars(scheme2) && AllSpaces(ws1) && AllSpaces(ws2)
    requires Printable(a) && Printable(b) && SameButCase(scheme1, scheme2) && SameParams(a, b)
    ensures Parse(Print(scheme1, ws1, a)) == Parse(Print(scheme2, ws2, b))
  {
    PrintedParsesBack(scheme1, ws1, a);
    PrintedParsesBack(scheme2, ws2, b);
    SameLower(scheme1, scheme2);
    SameMaps(a, b, map[]);
  }

  // The choice among several challenges.

  predicate Usable(h: Option<Header>) {
    h.Some? && (h.value.scheme == "basic" || h.value.scheme == "bearer")
  }

  /** An earlier a is chosen over b: a is of b's kind or of a better one. */
  predicate Preferred(a: Option<Header>, b: Option<Header>)
    requires b.Some?
  {
    Usable(a) && (a.value.scheme == "basic" || b.value.scheme == "bearer")
  }

  /** A later a is chosen over b. */
  predicate Better(a: Option<Header>, b: Option<Header>)
    requires b.Some?
  {
    Usable(a) && a.value.scheme == "basic" && b.value.scheme == "bearer"
  }

  /** Of the first n: the first basic challenge, or the first bearer one when none
      is basic; nothing when there is neither. */
  ghost predicate FirstChoice(parsed: seq<Option<Header>>, n: nat, h: Option<Header>)
    requires n <= |parsed|
  {
    if h.None? then forall j :: 0 <= j < n ==> !Usable(parsed[j])
    else exists i :: 0 <= i < n && parsed[i] == h && IsChoice(parsed, n, i)
  }

  predicate IsChoice(parsed: seq<Option<Header>>, n: nat, i: nat)
    requires i < n <= |parsed|
  {
    && Usable(parsed[i])
    && (forall j :: 0 <= j < i ==> !Preferred(parsed[j], parsed[i]))
    && (forall j :: i < j < n ==> !Better(parsed[j], parsed[i]))
  }

  lemma ChoiceMoves(parsed: seq<Option<Header>>, n: nat, h: Option<Header>)
    requires n < |parsed| && FirstChoice(parsed, n, h)
    ensures FirstChoice(parsed, n + 1, if Usable(parsed[n]) && (h.None? || Better(parsed[n], h)) then parsed[n] else h)
  {
    var next := if Usable(parsed[n]) && (h.None? || Better(parsed[n], h)) then parsed[n] else h;
    if next.Some? {
      if next == h {
        var i :| 0 <= i < n && parsed[i] == h && IsChoice(parsed, n, i);
        assert IsChoice(parsed, n + 1, i);
      } else {
        assert IsChoice(parsed, n + 1, n);
      }
    }
  }

  function ParseEach(headers: seq<string>): (parsed: seq<Option<Header>>)
    ensures |parsed| == |headers| && forall i :: 0 <= i < |headers| ==> parsed[i] == Parse(headers[i])
  {
    seq(|headers|, i requires 0 <= i < |headers| => Parse(headers[i]))
  }

  /** challengeFromResponse */
  method FromResponse(headers: seq<string>) returns (h: Option<Header>)
    ensures FirstChoice(ParseEach(headers), |headers|, h)
  {
    h := None;
    ghost var parsed := ParseEach(headers);
    for i := 0 to |headers|
      invariant h.Some? ==> Usable(h)
      invariant FirstChoice(parsed, i, h)
    {
      ChoiceMoves(parsed, i, h);
      var h1 := ParseWWWAuthenticate(headers[i]);
      if h1.None? { continue; }
      if h1.value.scheme != "basic" && h1.value.scheme != "bearer" { continue; }
      if h.None? {
        h := h1;
      } else if h1.value.scheme == "basic" && h.value.scheme == "bearer" {
        h := h1;
      }
    }
  }
}
