/** ociauth/authfile.go: credentials for a registry out of a configuration whose
    map of entries is extended while it is being ranged over. */
module AuthFile {
  import opened Bytes
  import opened Ordering
  import Text

  /** authConfig. Entries read from the file are not derived from any other. */
  datatype Auth = Auth(
    derivedFrom: seq<string>, username: string, password: string,
    auth: string, identityToken: string, registryToken: string)

  type Auths = map<string, Auth>

  /** decodeAuth: the user name and password, or None when there are none. */
  type Decoder = string -> Option<(string, string)>

  predicate IsUrl(addr: string) {
    exists i :: 0 <= i < |addr| - 1 && addr[i] == '/' && addr[i + 1] == '/'
  }

  /** urlHost: no host name looks like a URL itself. */
  function UrlHost(url: string): (host: string)
    ensures '/' !in host && !IsUrl(host)
  {
    Text.Cut(Stripped(url), '/').0
  }

  function Stripped(url: string): string {
    if "http://" <= url then url[|"http://"|..]
    else if "https://" <= url then url[|"https://"|..]
    else url
  }

  predicate Decodes(decode: Decoder, ac: Auth) {
    ac.auth == "" || decode(ac.auth).Some?
  }

  /** The entry with its user name and password taken from the auth field. */
  function Decoded(decode: Decoder, ac: Auth): Auth
    requires Decodes(decode, ac)
  {
    if ac.auth == "" then ac
    else
      var (username, password) := decode(ac.auth).value;
      ac.(username := username, password := password)
  }

  /** Sorted insertion: append followed by slices.Sort, for an address that is
      not there yet. */
  function Record(derivedFrom: seq<string>, addr: string): seq<string> {
    LessIsStrictTotal();
    SortDistinct(derivedFrom + [addr], Less)
  }

  /** One turn of the loop of decodeConfigFile; None is its error. */
  function Visit(decode: Decoder, m: Auths, addr: string): Option<Auths>
    requires addr in m
  {
    if !Decodes(decode, m[addr]) then None
    else
      var ac := Decoded(decode, m[addr]);
      var m1 := m[addr := ac];
      if !IsUrl(addr) then Some(m1)
      else
        var addr1 := UrlHost(addr);
        if addr1 == addr then Some(m1)
        else if addr1 in m1 && m1[addr1].derivedFrom == [] then Some(m1)
        else
          var base := if addr1 in m1 then m1[addr1] else ac;
          Some(m1[addr1 := base.(derivedFrom := Record(base.derivedFrom, addr))])
  }

  /** The whole loop, when the map's keys come up in the given order. An address
      that is not in the map when its turn comes is not visited: that is how an
      order says when, if ever, an entry added on the way comes up. */
  function VisitAll(decode: Decoder, m: Auths, order: seq<string>): Option<Auths> {
    if order == [] then Some(m)
    else
      var before := VisitAll(decode, m, order[..|order| - 1]);
      var addr := order[|order| - 1];
      if before.None? || addr !in before.value then before
      else Visit(decode, before.value, addr)
  }

  /** decodeConfigFile, after the JSON has been decoded. */
  method DecodeConfigFile(decode: Decoder, auths: Auths, order: seq<string>) returns (result: Option<Auths>)
    ensures result == VisitAll(decode, auths, order)
  {
    var m := auths;
    for i := 0 to |order|
      invariant VisitAll(decode, auths, order[..i]) == Some(m)
    {
      var addr := order[i];
      assert order[..i + 1][..i] == order[..i];
      ghost var before := m;
      if addr in m {
        var ac := m[addr];
        if ac.auth != "" {
          var decoded := decode(ac.auth);
          if decoded.None? {
            StaysFailed(decode, auths, order, i + 1);
            return None;
          }
          ac := ac.(username := decoded.value.0, password := decoded.value.1);
        }
        m := m[addr := ac];
        if IsUrl(addr) {
          var addr1 := UrlHost(addr);
          if addr1 != addr {
            if addr1 in m && |m[addr1].derivedFrom| == 0 {
              continue;
            }
            if addr1 in m {
              ac := m[addr1];
            }
            m := m[addr1 := ac.(derivedFrom := Record(ac.derivedFrom, addr))];
          }
        }
        assert Visit(decode, before, addr) == Some(m);
      }
    }
    assert order[..|order|] == order;
    result := Some(m);
  }

  lemma {:induction false} StaysFailed(decode: Decoder, m: Auths, order: seq<string>, i: nat)
    requires i <= |order| && VisitAll(decode, m, order[..i]) == None
    ensures VisitAll(decode, m, order) == None
    decreases |order| - i
  {
    if i == |order| {
      assert order[..i] == order;
    } else {
      assert order[..i + 1][..i] == order[..i];
      StaysFailed(decode, m, order, i + 1);
    }
  }

  datatype Entry = Entry(refreshToken: string, accessToken: string, username: string, password: string)

  const ZERO := Auth([], "", "", "", "", "")

  /** The end of EntryForRegistry; None is an error. */
  function Credentials(auth: Auth): Option<Entry> {
    if auth.identityToken != "" && auth.username != "" then None
    else if |auth.derivedFrom| > 1 then None
    else Some(Entry(auth.identityToken, auth.registryToken, auth.username, auth.password))
  }

  datatype HelperReply = Found(entry: Entry) | HelperNotFound | HelperFailed

  /** The configuration besides the entries: which helper to run for a registry,
      the default one, and what running one gives. */
  datatype Helpers = Helpers(forHost: map<string, string>, store: string, run: (string, string) -> HelperReply)

  /** EntryForRegistry */
  function EntryForRegistry(helpers: Helpers, m: Auths, host: string): Option<Entry> {
    var explicit := host in helpers.forHost;
    var helper := if explicit then helpers.forHost[host] else helpers.store;
    var reply := if helper != "" then helpers.run(helper, host) else HelperNotFound;
    if reply.Found? then Some(reply.entry)
    else if helper != "" && (explicit || reply.HelperFailed?) then None
    else Credentials(if host in m then m[host] else ZERO)
  }

  /** No helper is set up for the host, or the default one does not exist. */
  predicate NoHelper(helpers: Helpers, host: string) {
    if host in helpers.forHost then helpers.forHost[host] == ""
    else helpers.store == "" || helpers.run(helpers.store, host).HelperNotFound?
  }

  // What the loop computes, whatever the order.

  /** addr is an entry of the file from whose URL host is taken. */
  predicate Source(file: Auths, addr: string, host: string) {
    addr in file && IsUrl(addr) && UrlHost(addr) == host
  }

  predicate FromFile(file: Auths) {
    forall k :: k in file ==> file[k].derivedFrom == []
  }

  /** m after the addresses in seen have been visited. */
  ghost predicate Inv(decode: Decoder, file: Auths, seen: seq<string>, m: Auths) {
    OwnEntries(decode, file, seen, m) && DerivedEntries(decode, file, seen, m) && HostsPresent(file, seen, m)
  }

  predicate OwnEntries(decode: Decoder, file: Auths, seen: seq<string>, m: Auths) {
    forall k :: k in file ==>
      && k in m
      && m[k] == (if k in seen then Decoded'(decode, file[k]) else file[k])
      && (k in seen ==> Decodes(decode, file[k]))
  }

  ghost predicate DerivedEntries(decode: Decoder, file: Auths, seen: seq<string>, m: Auths) {
    forall h :: h in m && h !in file ==> DerivedInv(decode, file, seen, h, m[h])
  }

  predicate HostsPresent(file: Auths, seen: seq<string>, m: Auths) {
    forall a :: a in seen && a in file && IsUrl(a) ==> UrlHost(a) in m
  }

  function Decoded'(decode: Decoder, ac: Auth): Auth {
    if Decodes(decode, ac) then Decoded(decode, ac) else ac
  }

  /** A derived entry: its sources seen so far, in order, and the content of one
      of them. */
  ghost predicate DerivedInv(decode: Decoder, file: Auths, seen: seq<string>, h: string, ac: Auth) {
    && ac.derivedFrom != []
    && Increasing(ac.derivedFrom, Less)
    && (forall a :: a in ac.derivedFrom <==> Source(file, a, h) && a in seen)
    && exists a :: Source(file, a, h) && a in seen && Decodes(decode, file[a]) &&
                   ac == Decoded(decode, file[a]).(derivedFrom := ac.derivedFrom)
  }

  /** Visiting an entry that was added on the way changes nothing. */
  lemma DerivedVisitIsIdle(decode: Decoder, file: Auths, seen: seq<string>, m: Auths, h: string)
    requires FromFile(file) && Inv(decode, file, seen, m) && h in m && h !in file
    ensures Visit(decode, m, h) == Some(m)
  {
    assert DerivedInv(decode, file, seen, h, m[h]);
    var a :| Source(file, a, h) && a in seen && Decodes(decode, file[a]) &&
             m[h] == Decoded(decode, file[a]).(derivedFrom := m[h].derivedFrom);
    assert !IsUrl(h);
    assert m[h := m[h]] == m;
  }

  lemma SeenMore(decode: Decoder, file: Auths, seen: seq<string>, addr: string, h: string, ac: Auth)
    requires DerivedInv(decode, file, seen, h, ac) && !Source(file, addr, h)
    ensures DerivedInv(decode, file, seen + [addr], h, ac)
  {
  }

  lemma RecordAdds(derivedFrom: seq<string>, addr: string)
    ensures Increasing(Record(derivedFrom, addr), Less)
    ensures forall a :: a in Record(derivedFrom, addr) <==> a in derivedFrom || a == addr
  {
    LessIsStrictTotal();
    assert forall a :: a in derivedFrom + [addr] <==> a in derivedFrom || a == addr;
  }

  /** Recording a new source of an entry that is already derived. */
  lemma RecordKeepsDerived(decode: Decoder, file: Auths, seen: seq<string>, addr: string, h: string, ac: Auth)
    requires DerivedInv(decode, file, seen, h, ac) && Source(file, addr, h)
    ensures DerivedInv(decode, file, seen + [addr], h, ac.(derivedFrom := Record(ac.derivedFrom, addr)))
  {
    var after := ac.(derivedFrom := Record(ac.derivedFrom, addr));
    RecordAdds(ac.derivedFrom, addr);
    var a :| Source(file, a, h) && a in seen && Decodes(decode, file[a]) &&
             ac == Decoded(decode, file[a]).(derivedFrom := ac.derivedFrom);
    assert a in seen + [addr] && after == Decoded(decode, file[a]).(derivedFrom := after.derivedFrom);
  }

  /** The first source of an entry. */
  lemma FirstSource(decode: Decoder, file: Auths, seen: seq<string>, addr: string, h: string)
    requires FromFile(file) && Source(file, addr, h) && Decodes(decode, file[addr])
    requires forall a :: a in seen ==> !Source(file, a, h)
    ensures DerivedInv(decode, file, seen + [addr], h,
                       Decoded(decode, file[addr]).(derivedFrom := Record([], addr)))
  {
    LessIsStrictTotal();
    assert addr in [] + [addr];
    var ac := Decoded(decode, file[addr]).(derivedFrom := Record([], addr));
    assert addr in ac.derivedFrom && addr in seen + [addr];
  }

  /** after is m with addr's own entry decoded and at most its host's entry changed. */
  ghost predicate Changed(decode: Decoder, file: Auths, m: Auths, addr: string, after: Auths)
    requires addr in file && Decodes(decode, file[addr])
  {
    && (forall k :: k in after <==> k in m || (IsUrl(addr) && k == UrlHost(addr)))
    && (forall k :: k in m && k != addr && !(k !in file && Source(file, addr, k)) ==> after[k] == m[k])
    && addr in after && after[addr] == Decoded(decode, file[addr])
  }

  lemma ChangedOwnEntries(decode: Decoder, file: Auths, seen: seq<string>, m: Auths, addr: string, after: Auths)
    requires OwnEntries(decode, file, seen, m) && addr in file && Decodes(decode, file[addr])
    requires Changed(decode, file, m, addr, after)
    ensures OwnEntries(decode, file, seen + [addr], after)
  {
    forall k | k in file
      ensures k in after
      ensures after[k] == if k in seen + [addr] then Decoded'(decode, file[k]) else file[k]
    {
      assert k in m;
      if k != addr { assert after[k] == m[k]; }
    }
  }

  lemma ChangedDerivedEntries(decode: Decoder, file: Auths, seen: seq<string>, m: Auths, addr: string, after: Auths)
    requires DerivedEntries(decode, file, seen, m) && addr in file && Decodes(decode, file[addr])
    requires Changed(decode, file, m, addr, after)
    requires forall h :: Source(file, addr, h) && h !in file && h in after ==>
             DerivedInv(decode, file, seen + [addr], h, after[h])
    ensures DerivedEntries(decode, file, seen + [addr], after)
  {
    forall k | k in after && k !in file ensures DerivedInv(decode, file, seen + [addr], k, after[k]) {
      if !Source(file, addr, k) {
        assert after[k] == m[k];
        SeenMore(decode, file, seen, addr, k, m[k]);
      }
    }
  }

  lemma ChangedEntries(decode: Decoder, file: Auths, seen: seq<string>, m: Auths, addr: string, after: Auths)
    requires Inv(decode, file, seen, m) && addr in file && Decodes(decode, file[addr])
    requires Changed(decode, file, m, addr, after)
    requires forall h :: Source(file, addr, h) && h !in file && h in after ==>
             DerivedInv(decode, file, seen + [addr], h, after[h])
    ensures Inv(decode, file, seen + [addr], after)
  {
    ChangedOwnEntries(decode, file, seen, m, addr, after);
    ChangedDerivedEntries(decode, file, seen, m, addr, after);
    assert HostsPresent(file, seen + [addr], after);
  }

  lemma VisitOwn(decode: Decoder, file: Auths, m: Auths, addr: string)
    requires addr in file && addr in m && m[addr] == file[addr] && file[addr].derivedFrom == [] &&
             Decodes(decode, file[addr])
    requires IsUrl(addr) ==> UrlHost(addr) in m && m[UrlHost(addr)].derivedFrom == []
    ensures Visit(decode, m, addr) == Some(m[addr := Decoded(decode, file[addr])])
  {
  }

  lemma VisitUrl(decode: Decoder, file: Auths, m: Auths, addr: string, h: string)
    requires addr in file && addr in m && m[addr] == file[addr] && Decodes(decode, file[addr])
    requires Source(file, addr, h) && (h in m ==> m[h].derivedFrom != [])
    ensures var ac := Decoded(decode, file[addr]);
            var base := if h in m then m[h] else ac;
            Visit(decode, m, addr) == Some(m[addr := ac][h := base.(derivedFrom := Record(base.derivedFrom, addr))])
  {
  }

  lemma VisitOwnEntry(decode: Decoder, file: Auths, seen: seq<string>, m: Auths, addr: string)
    requires FromFile(file) && Inv(decode, file, seen, m) && addr in file && addr !in seen &&
             Decodes(decode, file[addr])
    requires !IsUrl(addr) || UrlHost(addr) in file
    ensures Inv(decode, file, seen + [addr], m[addr := Decoded(decode, file[addr])])
  {
    ChangedEntries(decode, file, seen, m, addr, m[addr := Decoded(decode, file[addr])]);
  }

  lemma ChangedTwice(decode: Decoder, file: Auths, m: Auths, addr: string, h: string, derived: Auth)
    requires addr in file && Decodes(decode, file[addr]) && addr in m
    requires Source(file, addr, h) && h !in file
    ensures Changed(decode, file, m, addr, m[addr := Decoded(decode, file[addr])][h := derived])
  {
  }

  lemma VisitDerived(decode: Decoder, file: Auths, seen: seq<string>, m: Auths, addr: string, h: string, derived: Auth)
    requires FromFile(file) && Inv(decode, file, seen, m) && addr in file && addr !in seen &&
             Decodes(decode, file[addr])
    requires Source(file, addr, h) && h !in file && DerivedInv(decode, file, seen + [addr], h, derived)
    ensures Inv(decode, file, seen + [addr], m[addr := Decoded(decode, file[addr])][h := derived])
  {
    ChangedTwice(decode, file, m, addr, h, derived);
    ChangedEntries(decode, file, seen, m, addr, m[addr := Decoded(decode, file[addr])][h := derived]);
  }

  lemma VisitKeepsInv(decode: Decoder, file: Auths, seen: seq<string>, m: Auths, addr: string)
    requires FromFile(file) && Inv(decode, file, seen, m) && addr in file && addr !in seen &&
             Decodes(decode, file[addr])
    ensures Visit(decode, m, addr).Some? && Inv(decode, file, seen + [addr], Visit(decode, m, addr).value)
  {
    assert m[addr] == file[addr];
    var h, ac := UrlHost(addr), Decoded(decode, file[addr]);
    if !IsUrl(addr) || h in file {
      VisitOwnEntry(decode, file, seen, m, addr);
      VisitOwn(decode, file, m, addr);
    } else {
      var base := if h in m then m[h] else ac;
      if h in m {
        RecordKeepsDerived(decode, file, seen, addr, h, m[h]);
      } else {
        FirstSource(decode, file, seen, addr, h);
      }
      VisitDerived(decode, file, seen, m, addr, h, base.(derivedFrom := Record(base.derivedFrom, addr)));
      VisitUrl(decode, file, m, addr, h);
    }
  }

  ghost predicate NoRepeats(order: seq<string>) {
    forall i, j :: 0 <= i < j < |order| ==> order[i] != order[j]
  }

  predicate AllDecode(decode: Decoder, file: Auths) {
    forall k :: k in file ==> Decodes(decode, file[k])
  }

  lemma {:induction false} VisitAllKeepsInv(decode: Decoder, file: Auths, order: seq<string>)
    requires FromFile(file) && NoRepeats(order)
    ensures var m := VisitAll(decode, file, order);
            if m.Some? then Inv(decode, file, order, m.value)
            else exists k :: k in order && k in file && !Decodes(decode, file[k])
  {
    if order != [] {
      var init, addr := order[..|order| - 1], order[|order| - 1];
      assert order == init + [addr];
      VisitAllKeepsInv(decode, file, init);
      var m := VisitAll(decode, file, init);
      if m.Some? {
        assert addr !in init;
        if addr in file {
          assert m.value[addr] == file[addr];
          if Decodes(decode, file[addr]) { VisitKeepsInv(decode, file, init, m.value, addr); }
        } else {
          if addr in m.value { DerivedVisitIsIdle(decode, file, init, m.value, addr); }
          ForeignSeen(decode, file, init, m.value, addr);
        }
      }
    }
  }

  lemma ForeignSeen(decode: Decoder, file: Auths, seen: seq<string>, m: Auths, addr: string)
    requires Inv(decode, file, seen, m) && addr !in file
    ensures Inv(decode, file, seen + [addr], m)
  {
    forall h | h in m && h !in file ensures DerivedInv(decode, file, seen + [addr], h, m[h]) {
      SeenMore(decode, file, seen, addr, h, m[h]);
    }
  }

  // The result, without the loop.

  function Sources(file: Auths, host: string): set<string> {
    set a | a in file && IsUrl(a) && UrlHost(a) == host
  }

  /** What the file says about a host: its own entry; else that of the only URL
      with that host; nothing when there is none. Two such URLs, or an entry
      that cannot be decoded, are an error. */
  ghost function Meaning(decode: Decoder, file: Auths, host: string): Option<Entry> {
    if !AllDecode(decode, file) then None
    else if host in file then Credentials(Decoded(decode, file[host]))
    else if Sources(file, host) == {} then Some(Entry("", "", "", ""))
    else if |Sources(file, host)| == 1 then
      var a :| a in Sources(file, host);
      Credentials(Decoded(decode, file[a]))
    else None
  }

  /** Once every entry of the file has been seen, a derived entry has all of the
      host's URLs as its sources. */
  lemma DerivedSources(decode: Decoder, file: Auths, seen: seq<string>, h: string, ac: Auth)
    requires (forall k :: k in file ==> k in seen) && DerivedInv(decode, file, seen, h, ac)
    ensures |Sources(file, h)| == |ac.derivedFrom| && forall a :: a in ac.derivedFrom <==> a in Sources(file, h)
  {
    assert (set a | a in ac.derivedFrom) == Sources(file, h);
    LessIsStrictTotal();
    IncreasingHasNoDuplicates(ac.derivedFrom, Less);
  }

  lemma DerivedMeaning(decode: Decoder, file: Auths, seen: seq<string>, h: string, ac: Auth)
    requires FromFile(file) && AllDecode(decode, file) && h !in file
    requires (forall k :: k in file ==> k in seen) && DerivedInv(decode, file, seen, h, ac)
    ensures Credentials(ac) == Meaning(decode, file, h)
  {
    DerivedSources(decode, file, seen, h, ac);
    var a :| Source(file, a, h) && a in seen && Decodes(decode, file[a]) &&
             ac == Decoded(decode, file[a]).(derivedFrom := ac.derivedFrom);
    assert a in Sources(file, h);
    if |ac.derivedFrom| == 1 {
      OnlyMember(Sources(file, h), a);
    }
  }

  lemma NoSources(file: Auths, seen: seq<string>, m: Auths, host: string)
    requires (forall k :: k in file ==> k in seen) && HostsPresent(file, seen, m) && host !in m
    ensures Sources(file, host) == {}
  {
  }

  lemma OnlyMember(s: set<string>, a: string)
    requires a in s && |s| == 1
    ensures s == {a}
  {
    assert |s - {a}| == 0;
    assert s == (s - {a}) + {a};
  }

  /** Whatever order the map is ranged over in, looking up a host without a helper
      gives what the file says, or an error in every order. */
  lemma OrderDoesNotMatter(decode: Decoder, file: Auths, order: seq<string>, helpers: Helpers, host: string)
    requires FromFile(file) && NoRepeats(order) && (forall k :: k in file ==> k in order) && NoHelper(helpers, host)
    ensures var m := VisitAll(decode, file, order);
            Meaning(decode, file, host) == if m.None? then None else EntryForRegistry(helpers, m.value, host)
  {
    VisitAllKeepsInv(decode, file, order);
    var m := VisitAll(decode, file, order);
    if m.Some? {
      assert AllDecode(decode, file);
      if host in m.value && host !in file {
        DerivedMeaning(decode, file, order, host, m.value[host]);
      } else if host !in file {
        NoSources(file, order, m.value, host);
      }
    }
  }

  /** An explicit entry wins over any URL with the same host. */
  lemma ExplicitWins(decode: Decoder, file: Auths, order: seq<string>, helpers: Helpers, host: string)
    requires FromFile(file) && NoRepeats(order) && (forall k :: k in file ==> k in order) && NoHelper(helpers, host)
    requires AllDecode(decode, file) && host in file
    ensures var m := VisitAll(decode, file, order);
            m.Some? && EntryForRegistry(helpers, m.value, host) == Credentials(Decoded(decode, file[host]))
  {
    VisitAllKeepsInv(decode, file, order);
    OrderDoesNotMatter(decode, file, order, helpers, host);
  }

  /** Two URLs for one host, and no entry of its own, are refused. */
  lemma TwoUrlsAreRefused(decode: Decoder, file: Auths, order: seq<string>, helpers: Helpers, a: string, b: string)
    requires FromFile(file) && NoRepeats(order) && (forall k :: k in file ==> k in order)
    requires a in file && b in file && a != b && IsUrl(a) && IsUrl(b) && UrlHost(a) == UrlHost(b)
    requires UrlHost(a) !in file && NoHelper(helpers, UrlHost(a))
    ensures var m := VisitAll(decode, file, order);
            m.None? || EntryForRegistry(helpers, m.value, UrlHost(a)) == None
  {
    var host := UrlHost(a);
    OrderDoesNotMatter(decode, file, order, helpers, host);
    assert a in Sources(file, host) && b in Sources(file, host);
    if |Sources(file, host)| == 1 {
      OnlyMember(Sources(file, host), a);
      assert b in {a};
    }
  }

  // What an address and an entry say, without the functions that read them.

  /** addr is a host, with or without a scheme before it and a path after it. */
  ghost predicate AddressOf(addr: string, host: string) {
    '/' !in host && exists path :: IsPath(path) && Spelled(addr, host, path)
  }

  predicate IsPath(path: string) {
    path == "" || path[0] == '/'
  }

  predicate Spelled(addr: string, host: string, path: string) {
    || addr == "http://" + host + path
    || addr == "https://" + host + path
    || (addr == host + path && !("http://" <= addr) && !("https://" <= addr))
  }

  lemma CutAtPath(text: string, host: string, path: string)
    requires text == host + path && '/' !in host && IsPath(path)
    ensures Text.Cut(text, '/').0 == host
  {
    if path == "" {
      assert text == host;
    } else {
      assert text == host + ['/'] + path[1..];
      Text.CutAt(host, '/', path[1..]);
    }
  }

  lemma CutLeavesPath(text: string, host: string)
    requires Text.Cut(text, '/').0 == host
    ensures '/' !in host && host <= text && IsPath(text[|host|..])
  {
  }

  lemma AfterHttp(addr: string, tail: string)
    requires addr == "http://" + tail
    ensures Stripped(addr) == tail
  {
    assert addr[|"http://"|..] == tail;
  }

  lemma AfterHttps(addr: string, tail: string)
    requires addr == "https://" + tail
    ensures Stripped(addr) == tail
  {
    assert addr[4] == 's' && addr[|"https://"|..] == tail;
  }

  lemma StrippedHost(addr: string, tail: string)
    requires Stripped(addr) == tail
    ensures UrlHost(addr) == Text.Cut(tail, '/').0
  {
  }

  /** Whatever host is spelled, with either scheme or with none, is read. */
  lemma SpelledIsRead(addr: string, host: string, path: string)
    requires '/' !in host && IsPath(path) && Spelled(addr, host, path)
    ensures UrlHost(addr) == host
  {
    var tail := host + path;
    CutAtPath(tail, host, path);
    if addr == "http://" + host + path {
      assert addr == "http://" + tail;
      AfterHttp(addr, tail);
    } else if addr == "https://" + host + path {
      assert addr == "https://" + tail;
      AfterHttps(addr, tail);
    }
    StrippedHost(addr, tail);
  }

  lemma Splits(addr: string, scheme: string, host: string)
    requires scheme <= addr && Text.Cut(addr[|scheme|..], '/').0 == host
    ensures '/' !in host && |scheme| + |host| <= |addr|
    ensures var path := addr[|scheme| + |host|..]; IsPath(path) && addr == scheme + host + path
  {
    CutLeavesPath(addr[|scheme|..], host);
  }

  lemma IsAddressOf(addr: string, host: string, path: string)
    requires '/' !in host && IsPath(path) && Spelled(addr, host, path)
    ensures AddressOf(addr, host)
  {
  }

  /** urlHost gives the one host that the address spells. */
  lemma UrlHostIsExact(addr: string, host: string)
    ensures UrlHost(addr) == host <==> AddressOf(addr, host)
  {
    if AddressOf(addr, host) {
      var path :| IsPath(path) && Spelled(addr, host, path);
      SpelledIsRead(addr, host, path);
    } else if UrlHost(addr) == host {
      ReadIsSpelled(addr, host);
    }
  }

  lemma ReadIsSpelled(addr: string, host: string)
    requires UrlHost(addr) == host
    ensures AddressOf(addr, host)
  {
    StrippedHost(addr, Stripped(addr));
    if "http://" <= addr {
      HttpIsSpelled(addr, host);
    } else if "https://" <= addr {
      HttpsIsSpelled(addr, host);
    } else {
      BareIsSpelled(addr, host);
    }
  }

  lemma HttpIsSpelled(addr: string, host: string)
    requires "http://" <= addr && Text.Cut(addr[|"http://"|..], '/').0 == host
    ensures AddressOf(addr, host)
  {
    Splits(addr, "http://", host);
    IsAddressOf(addr, host, addr[|"http://"| + |host|..]);
  }

  lemma HttpsIsSpelled(addr: string, host: string)
    requires "https://" <= addr && Text.Cut(addr[|"https://"|..], '/').0 == host
    ensures AddressOf(addr, host)
  {
    Splits(addr, "https://", host);
    IsAddressOf(addr, host, addr[|"https://"| + |host|..]);
  }

  lemma BareIsSpelled(addr: string, host: string)
    requires !("http://" <= addr) && !("https://" <= addr) && Text.Cut(addr, '/').0 == host
    ensures AddressOf(addr, host)
  {
    CutLeavesPath(addr, host);
    IsAddressOf(addr, host, addr[|host|..]);
  }

  /** In particular, the scheme and the path do not matter. */
  lemma SchemeAndPathDoNotMatter(host: string, path: string)
    requires '/' !in host && (path == "" || path[0] == '/')
    ensures UrlHost("http://" + host + path) == host && UrlHost("https://" + host + path) == host
    ensures !("http://" <= host + path) && !("https://" <= host + path) ==> UrlHost(host + path) == host
  {
    SpelledIsRead("http://" + host + path, host, path);
    SpelledIsRead("https://" + host + path, host, path);
    if !("http://" <= host + path) && !("https://" <= host + path) {
      SpelledIsRead(host + path, host, path);
    }
  }

  /** What one entry says: the auth field, when there is one, overrides the user
      name and the password; an identity token and a user name are ambiguous. */
  function Said(decode: Decoder, ac: Auth): Option<Entry>
    requires ac.auth == "" || decode(ac.auth).Some?
  {
    var username := if ac.auth == "" then ac.username else decode(ac.auth).value.0;
    var password := if ac.auth == "" then ac.password else decode(ac.auth).value.1;
    if ac.identityToken != "" && username != "" then None
    else Some(Entry(refreshToken := ac.identityToken, accessToken := ac.registryToken, username := username,
                    password := password))
  }

  lemma CredentialsAreSaid(decode: Decoder, ac: Auth)
    requires Decodes(decode, ac) && ac.derivedFrom == []
    ensures Credentials(Decoded(decode, ac)) == Said(decode, ac)
  {
  }

  /** Decoding the file and looking up a host in it. */
  function Lookup(decode: Decoder, file: Auths, order: seq<string>, helpers: Helpers, host: string): Option<Entry> {
    var m := VisitAll(decode, file, order);
    if m.None? then None else EntryForRegistry(helpers, m.value, host)
  }

  /** End to end, for every order in which the map is ranged over: the host's own
      entry, else that of the only URL spelling the host, field by field. */
  lemma LookupFindsTheEntry(decode: Decoder, file: Auths, order: seq<string>, helpers: Helpers, host: string,
                            addr: string)
    requires FromFile(file) && NoRepeats(order) && (forall k :: k in file ==> k in order) && NoHelper(helpers, host)
    requires AllDecode(decode, file) && addr in file
    requires || addr == host
             || (&& host !in file && IsUrl(addr) && AddressOf(addr, host)
                 && forall a :: a in file && IsUrl(a) && AddressOf(a, host) ==> a == addr)
    ensures Lookup(decode, file, order, helpers, host) == Said(decode, file[addr])
  {
    OrderDoesNotMatter(decode, file, order, helpers, host);
    CredentialsAreSaid(decode, file[addr]);
    if addr != host { OnlySource(file, host, addr); }
  }

  lemma OnlySource(file: Auths, host: string, addr: string)
    requires addr in file && IsUrl(addr) && AddressOf(addr, host)
    requires forall a :: a in file && IsUrl(a) && AddressOf(a, host) ==> a == addr
    ensures Sources(file, host) == {addr}
  {
    forall a | a in file ensures UrlHost(a) == host <==> AddressOf(a, host) {
      UrlHostIsExact(a, host);
    }
  }

  /** A helper set up for the host has the last word; the default one has it
      unless it does not exist. */
  lemma HelperDecides(helpers: Helpers, m: Auths, host: string, reply: HelperReply)
    requires !NoHelper(helpers, host)
    requires reply == if host in helpers.forHost then helpers.run(helpers.forHost[host], host)
                      else helpers.run(helpers.store, host)
    ensures EntryForRegistry(helpers, m, host) == if reply.Found? then Some(reply.entry) else None
  {
  }

  /** For instance a file whose only entry for the host is under an https URL. */
  lemma LookupByHttpsUrl(decode: Decoder, file: Auths, order: seq<string>, helpers: Helpers, host: string,
                         path: string, addr: string)
    requires FromFile(file) && NoRepeats(order) && (forall k :: k in file ==> k in order) && NoHelper(helpers, host)
    requires AllDecode(decode, file) && '/' !in host && host !in file
    requires (path == "" || path[0] == '/') && addr == "https://" + host + path && addr in file
    requires forall a :: a in file && IsUrl(a) && AddressOf(a, host) ==> a == addr
    ensures Lookup(decode, file, order, helpers, host) == Said(decode, file[addr])
  {
    assert Spelled(addr, host, path);
    IsAddressOf(addr, host, path);
    assert addr[6] == '/' && addr[7] == '/';
    LookupFindsTheEntry(decode, file, order, helpers, host, addr);
  }

  /** A host that nothing spells has no credentials; an entry that cannot be
      decoded spoils every lookup. */
  lemma LookupFindsNothing(decode: Decoder, file: Auths, order: seq<string>, helpers: Helpers, host: string)
    requires FromFile(file) && NoRepeats(order) && (forall k :: k in file ==> k in order) && NoHelper(helpers, host)
    requires host !in file
    ensures AllDecode(decode, file) && (forall a :: a in file && IsUrl(a) ==> !AddressOf(a, host)) ==>
              Lookup(decode, file, order, helpers, host) == Some(Entry("", "", "", ""))
    ensures !AllDecode(decode, file) ==> Lookup(decode, file, order, helpers, host) == None
  {
    OrderDoesNotMatter(decode, file, order, helpers, host);
    forall a | a in file ensures UrlHost(a) == host <==> AddressOf(a, host) {
      UrlHostIsExact(a, host);
    }
  }

  /** A host that two URLs spell is refused. */
  lemma LookupRefusesTwo(decode: Decoder, file: Auths, order: seq<string>, helpers: Helpers, host: string,
                         a: string, b: string)
    requires FromFile(file) && NoRepeats(order) && (forall k :: k in file ==> k in order) && NoHelper(helpers, host)
    requires host !in file && a in file && b in file && a != b && IsUrl(a) && IsUrl(b)
    requires AddressOf(a, host) && AddressOf(b, host)
    ensures Lookup(decode, file, order, helpers, host) == None
  {
    UrlHostIsExact(a, host);
    UrlHostIsExact(b, host);
    TwoUrlsAreRefused(decode, file, order, helpers, a, b);
  }
}
