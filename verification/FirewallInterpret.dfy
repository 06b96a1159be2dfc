/** pkg/meshfw/interpret.go: reading a compiled chain back into decisions. */
module FirewallInterpret {
  import opened Cidr
  import opened Order
  import opened Text
  import opened Packets
  import opened FirewallPlan

  datatype Access = Access(source: string, dest: string, protocol: string, port: string)

  datatype Decisions = Decisions(accepts: seq<Access>, protected: seq<string>)

  predicate HasArg(args: Args, want: string) {
    want in args
  }

  /** The word after the first occurrence of the flag, "" when there is none. */
  function ArgValue(args: Args, flag: string): string {
    if |args| < 2 then ""
    else if args[0] == flag then args[1]
    else ArgValue(args[1..], flag)
  }

  /** The flag's value in any rule: the word after its first occurrence before the last word, else nothing. */
  lemma {:induction false} ArgValueExactly(args: Args, flag: string)
    ensures (forall i :: 0 <= i < |args| - 1 ==> args[i] != flag) ==> ArgValue(args, flag) == ""
    ensures forall i :: 0 <= i < |args| - 1 && args[i] == flag && flag !in args[..i] ==> ArgValue(args, flag) == args[i + 1]
  {
    if |args| >= 2 && args[0] != flag {
      ArgValueExactly(args[1..], flag);
      assert forall i :: 0 <= i < |args| - 1 ==> args[1..][i] == args[i + 1];
      forall i | 0 <= i < |args| - 1 && args[i] == flag && flag !in args[..i] ensures ArgValue(args, flag) == args[i + 1] {
        assert args[1..][..i - 1] == args[..i][1..];
        assert args[1..][i - 1] == args[i];
      }
    } else if |args| >= 2 {
      assert forall i :: 0 < i < |args| ==> args[..i][0] == flag;
    }
  }

  predicate Skipped(args: Args) {
    args == [] || HasArg(args, "conntrack")
  }

  predicate EndsWith(args: Args, word: string) {
    !Skipped(args) && args[|args| - 1] == word
  }

  function AccessOf(args: Args): Access {
    Access(ArgValue(args, "-s"), ArgValue(args, "-d"), ArgValue(args, "-p"), ArgValue(args, "--dport"))
  }

  /** What one rule contributes to the accepts: an ACCEPT rule its access, any other rule nothing. */
  function AcceptRead(args: Args): seq<Access> {
    if EndsWith(args, "ACCEPT") then [AccessOf(args)] else []
  }

  function DropRead(args: Args): seq<string> {
    if EndsWith(args, "DROP") then [ArgValue(args, "-d")] else []
  }

  /** The accesses of the ACCEPT rules, in rule order, repeats included. */
  function AcceptsRead(vectors: seq<Args>): seq<Access> {
    Collect(AcceptRead, vectors)
  }

  function DropsRead(vectors: seq<Args>): seq<string> {
    Collect(DropRead, vectors)
  }

  /** First occurrences, in order. */
  function Unique<T(==, !new)>(s: seq<T>): (r: seq<T>)
    ensures |r| <= |s|
    ensures forall x :: x in r <==> x in s
  {
    if s == [] then []
    else
      var init, last := s[..|s| - 1], s[|s| - 1];
      assert s == init + [last];
      if last in init then Unique(init) else Unique(init) + [last]
  }

  /** The loop of `Interpret`: deduplicated accepts and protected destinations, in the ruleset's order. */
  method Interpret(vectors: seq<Args>) returns (d: Decisions)
    ensures d.accepts == Unique(AcceptsRead(vectors))
    ensures d.protected == Unique(DropsRead(vectors))
  {
    var accepts: seq<Access>, protected: seq<string> := [], [];
    var seenAccept: set<Access>, seenProtected: set<string> := {}, {};
    for i := 0 to |vectors|
      invariant accepts == Unique(AcceptsRead(vectors[..i])) && seenAccept == Elements(accepts)
      invariant protected == Unique(DropsRead(vectors[..i])) && seenProtected == Elements(protected)
    {
      var args := vectors[i];
      ReadStep(AcceptRead, vectors, i);
      ReadStep(DropRead, vectors, i);
      if |args| == 0 || HasArg(args, "conntrack") {
        continue;
      }
      if args[|args| - 1] == "ACCEPT" {
        accepts, seenAccept := Record(accepts, seenAccept, AccessOf(args));
      } else if args[|args| - 1] == "DROP" {
        protected, seenProtected := Record(protected, seenProtected, ArgValue(args, "-d"));
      }
    }
    assert vectors[..|vectors|] == vectors;
    d := Decisions(accepts, protected);
  }

  method Record<T(==, !new)>(list: seq<T>, seen: set<T>, x: T) returns (list': seq<T>, seen': set<T>)
    requires seen == Elements(list)
    ensures list' == if x in list then list else list + [x]
    ensures seen' == Elements(list')
  {
    if x in seen {
      return list, seen;
    }
    ElementsAppend(list, [x]);
    return list + [x], seen + {x};
  }

  lemma ReadStep<A, B(!new)>(f: A -> seq<B>, xs: seq<A>, i: nat)
    requires i < |xs| && |f(xs[i])| <= 1
    ensures Unique(Collect(f, xs[..i + 1]))
         == var before := Unique(Collect(f, xs[..i]));
            if f(xs[i]) != [] && f(xs[i])[0] !in before then before + f(xs[i]) else before
  {
    CollectStep(f, xs, i);
    var before := Collect(f, xs[..i]);
    if f(xs[i]) != [] {
      assert f(xs[i]) == [f(xs[i])[0]];
      UniqueAppend(before, f(xs[i])[0]);
    } else {
      assert before + f(xs[i]) == before;
    }
  }

  lemma UniqueAppend<T(!new)>(s: seq<T>, x: T)
    ensures Unique(s + [x]) == if x in s then Unique(s) else Unique(s) + [x]
  {
    assert (s + [x])[..|s + [x]| - 1] == s;
  }

  // ---- Interpret inverts the printer --------------------------------------------------------------

  function KeyAccess(k: AcceptKey): Access {
    Access(k.src, k.dst, k.proto, k.port)
  }

  function KeyAccesses(keys: seq<AcceptKey>): (r: seq<Access>)
    ensures |r| == |keys| && forall i :: 0 <= i < |keys| ==> r[i] == KeyAccess(keys[i])
  {
    seq(|keys|, i requires 0 <= i < |keys| => KeyAccess(keys[i]))
  }

  /** Words that mean something to the reader; no IPv4 network is written like one. */
  predicate FlagWord(w: string) {
    w in {"conntrack", "-s", "-d", "-p", "--dport", "-m", "-j", "ACCEPT", "DROP"}
  }

  ghost predicate PlainParser(parse: Parser) {
    forall w :: FlagWord(w) ==> parse(w).None?
  }

  /** What the builder emits: networks in src and dst, a port whenever there is a protocol. */
  predicate BuilderKey(k: AcceptKey) {
    && k.src != "" && !FlagWord(k.src) && !FlagWord(k.dst) && !FlagWord(k.port)
    && (k.proto == "" <==> k.port == "")
  }

  /** The protocol name is not one the reader takes for an option. */
  predicate OrdinaryProtocol(k: AcceptKey) {
    && k.proto != "conntrack" && k.proto != "--dport"
    && (k.proto == "-d" ==> k.dst != "")
  }

  predicate Recovered(k: AcceptKey) {
    !Skipped(AcceptArgs(k)) && AccessOf(AcceptArgs(k)) == KeyAccess(k)
  }

  lemma ArgValuePair(f: string, v: string, rest: Args, flag: string)
    requires |rest| >= 2
    ensures ArgValue([f, v] + rest, flag) == if f == flag then v else if v == flag then rest[0] else ArgValue(rest, flag)
  {
    var args := [f, v] + rest;
    assert args[1..] == [v] + rest && args[1..][1..] == rest;
  }

  lemma ArgValueJump(target: string, flag: string)
    requires flag != "-j"
    ensures ArgValue(["-j", target], flag) == ""
  {
    assert |["-j", target][1..]| == 1;
  }

  function ProtoTail(k: AcceptKey): Args {
    if k.proto != "" then ["-p", k.proto] + PortArgs(k.proto, k.port) else ["-j", "ACCEPT"]
  }

  lemma PortArgsValue(proto: string, port: string, flag: string)
    requires flag in {"-s", "-d", "-p", "--dport"} && proto != flag && port != flag
    ensures ArgValue(PortArgs(proto, port), flag) == if flag == "--dport" then port else ""
  {
    ArgValueJump("ACCEPT", flag);
    ArgValuePair("--dport", port, ["-j", "ACCEPT"], flag);
    ArgValuePair("-m", proto, ["--dport", port] + ["-j", "ACCEPT"], flag);
  }

  lemma ProtoTailValue(k: AcceptKey, flag: string)
    requires BuilderKey(k) && flag in {"-s", "-d", "-p", "--dport"}
    ensures ArgValue(ProtoTail(k), flag)
         == if flag == "-p" then k.proto else if k.proto == flag then "-m" else if flag == "--dport" then k.port else ""
  {
    ArgValueJump("ACCEPT", flag);
    if k.proto != "" {
      ArgValuePair("-p", k.proto, PortArgs(k.proto, k.port), flag);
      if flag != "-p" && k.proto != flag {
        PortArgsValue(k.proto, k.port, flag);
      }
    }
  }

  lemma FlagValue(f: string, v: string, rest: Args, flag: string)
    requires |rest| >= 2 && v != flag
    ensures ArgValue(Flag(f, v, rest), flag) == if v != "" && f == flag then v else ArgValue(rest, flag)
  {
    ArgValuePair(f, v, rest, flag);
  }

  lemma AcceptArgsValue(k: AcceptKey, flag: string)
    requires BuilderKey(k) && flag in {"-s", "-d", "-p", "--dport"}
    ensures ArgValue(AcceptArgs(k), flag)
         == if flag == "-s" then k.src
            else if flag == "-d" && k.dst != "" then k.dst
            else ArgValue(ProtoTail(k), flag)
  {
    FlagValue("-d", k.dst, ProtoTail(k), flag);
    FlagValue("-s", k.src, Flag("-d", k.dst, ProtoTail(k)), flag);
  }

  lemma AcceptArgsWords(k: AcceptKey)
    requires BuilderKey(k)
    ensures HasArg(AcceptArgs(k), "conntrack") <==> k.proto == "conntrack"
    ensures |AcceptArgs(k)| >= 2 && AcceptArgs(k)[|AcceptArgs(k)| - 1] == "ACCEPT"
  {
    var jump := ["-j", "ACCEPT"];
    var ports := PortArgs(k.proto, k.port);
    assert "conntrack" in ports <==> k.port != "" && k.proto == "conntrack";
    var tail := ProtoTail(k);
    assert "conntrack" in tail <==> k.proto == "conntrack";
    var dst := Flag("-d", k.dst, tail);
    assert "conntrack" in dst <==> "conntrack" in tail;
  }

  /** One printed accept key is read back unchanged exactly when its protocol name is ordinary. */
  lemma RecoveredExactly(k: AcceptKey)
    requires BuilderKey(k)
    ensures Recovered(k) <==> OrdinaryProtocol(k)
  {
    AcceptArgsWords(k);
    AcceptArgsValue(k, "-s");
    AcceptArgsValue(k, "-d");
    AcceptArgsValue(k, "-p");
    AcceptArgsValue(k, "--dport");
    ProtoTailValue(k, "-s");
    ProtoTailValue(k, "-d");
    ProtoTailValue(k, "-p");
    ProtoTailValue(k, "--dport");
  }

  /** A rule for a protocol called `conntrack` is taken for the conntrack rule and not read at all. */
  lemma ConntrackIsMisread(src: string, dst: string, port: string) returns (k: AcceptKey)
    requires BuilderKey(AcceptKey(src, dst, "conntrack", port))
    ensures k.proto == "conntrack" && Skipped(AcceptArgs(k)) && !Recovered(k)
  {
    k := AcceptKey(src, dst, "conntrack", port);
    AcceptArgsWords(k);
    RecoveredExactly(k);
  }

  lemma DropRecovered(d: string)
    requires !FlagWord(d)
    ensures EndsWith(DropArgs(d), "DROP") && !EndsWith(DropArgs(d), "ACCEPT") && ArgValue(DropArgs(d), "-d") == d
  {
    ArgValueJump("DROP", "-d");
    FlagValue("-d", d, ["-j", "DROP"], "-d");
  }

  lemma AcceptVectorRead(k: AcceptKey)
    requires BuilderKey(k)
    ensures DropRead(AcceptArgs(k)) == [] && |AcceptRead(AcceptArgs(k))| <= 1
    ensures AcceptRead(AcceptArgs(k)) == [KeyAccess(k)] <==> OrdinaryProtocol(k)
  {
    AcceptArgsWords(k);
    RecoveredExactly(k);
  }

  /** Reading vectors that yield at most one item each gives `xs` exactly when each vector gives its own. */
  lemma {:induction false} ReadsExactly<V, X>(read: V -> seq<X>, vectors: seq<V>, xs: seq<X>)
    requires |vectors| == |xs| && forall i :: 0 <= i < |vectors| ==> |read(vectors[i])| <= 1
    ensures |Collect(read, vectors)| <= |xs|
    ensures Collect(read, vectors) == xs <==> forall i :: 0 <= i < |vectors| ==> read(vectors[i]) == [xs[i]]
  {
    if vectors != [] {
      var v, vs, x, rest := vectors[0], vectors[1..], xs[0], xs[1..];
      assert vectors == [v] + vs && xs == [x] + rest;
      ReadsExactly(read, vs, rest);
      SplitEquals(read(v), Collect(read, vs), x, rest);
      if forall i :: 0 <= i < |vs| ==> read(vs[i]) == [rest[i]] {
        assert forall i :: 0 < i < |vectors| ==> vectors[i] == vs[i - 1] && xs[i] == rest[i - 1];
      } else {
        var i :| 0 <= i < |vs| && read(vs[i]) != [rest[i]];
        assert vectors[i + 1] == vs[i] && xs[i + 1] == rest[i];
      }
    }
  }

  /** Reading the accept section: each key is recovered or the section comes back different. */
  lemma AcceptSection(keys: seq<AcceptKey>)
    requires forall k :: k in keys ==> BuilderKey(k)
    ensures DropsRead(AcceptVectors(keys)) == []
    ensures |AcceptsRead(AcceptVectors(keys))| <= |keys|
    ensures AcceptsRead(AcceptVectors(keys)) == KeyAccesses(keys) <==> forall k :: k in keys ==> OrdinaryProtocol(k)
  {
    var vectors, xs := AcceptVectors(keys), KeyAccesses(keys);
    forall i | 0 <= i < |keys|
      ensures |AcceptRead(vectors[i])| <= 1 && DropRead(vectors[i]) == []
      ensures AcceptRead(vectors[i]) == [xs[i]] <==> OrdinaryProtocol(keys[i])
    {
      assert keys[i] in keys;
      AcceptVectorRead(keys[i]);
    }
    ReadsExactly(AcceptRead, vectors, xs);
    CollectNone(DropRead, vectors);
    assert (forall k :: k in keys ==> OrdinaryProtocol(k)) <==> forall i :: 0 <= i < |keys| ==> OrdinaryProtocol(keys[i]);
  }

  lemma SplitEquals<T>(first: seq<T>, tail: seq<T>, x: T, xs: seq<T>)
    requires |first| <= 1 && |tail| <= |xs|
    ensures first + tail == [x] + xs <==> first == [x] && tail == xs
  {
    if first + tail == [x] + xs {
      assert |first + tail| == |[x] + xs|;
      assert |first| == 1 && |tail| == |xs|;
      assert (first + tail)[1..] == tail && ([x] + xs)[1..] == xs;
      assert (first + tail)[0] == first[0];
    }
  }

  lemma {:induction false} DropSection(dests: seq<string>)
    requires forall d :: d in dests ==> !FlagWord(d)
    ensures AcceptsRead(DropVectors(dests)) == []
    ensures DropsRead(DropVectors(dests)) == dests
  {
    if dests != [] {
      DropRecovered(dests[0]);
      assert dests == [dests[0]] + dests[1..];
      assert forall d :: d in dests[1..] ==> d in dests;
      DropSection(dests[1..]);
      assert DropVectors(dests)[1..] == DropVectors(dests[1..]);
    }
  }

  lemma ConntrackUnread()
    ensures AcceptsRead([ConntrackArgs()]) == [] && DropsRead([ConntrackArgs()]) == []
  {
    assert ConntrackArgs()[1] == "conntrack";
    assert [ConntrackArgs()][1..] == [];
  }

  lemma {:induction false} UniqueFixed<T(!new)>(s: seq<T>)
    ensures NoDup(s) ==> Unique(s) == s
    ensures |Unique(s)| == |s| ==> Unique(s) == s
  {
    if s != [] {
      var init, last := s[..|s| - 1], s[|s| - 1];
      assert s == init + [last];
      UniqueFixed(init);
    }
  }

  lemma KeyAccessesDistinct(keys: seq<AcceptKey>)
    requires NoDup(keys)
    ensures NoDup(KeyAccesses(keys))
  {
  }

  lemma ReadsThree(a: seq<Args>, b: seq<Args>, c: seq<Args>)
    ensures AcceptsRead(a + b + c) == AcceptsRead(a) + AcceptsRead(b) + AcceptsRead(c)
    ensures DropsRead(a + b + c) == DropsRead(a) + DropsRead(b) + DropsRead(c)
  {
    CollectConcat(AcceptRead, a, b);
    CollectConcat(AcceptRead, a + b, c);
    CollectConcat(DropRead, a, b);
    CollectConcat(DropRead, a + b, c);
  }

  lemma CompiledReads(keys: set<AcceptKey>, dests: set<string>)
    requires forall k :: k in keys ==> BuilderKey(k)
    requires forall d :: d in dests ==> !FlagWord(d)
    ensures AcceptsRead(Compiled(keys, dests)) == AcceptsRead(AcceptVectors(SortedAccepts(keys)))
    ensures DropsRead(Compiled(keys, dests)) == SortedDests(dests)
  {
    var ks, ds := SortedAccepts(keys), SortedDests(dests);
    assert forall k :: k in ks <==> k in Elements(ks);
    assert forall d :: d in ds <==> d in Elements(ds);
    ConntrackUnread();
    AcceptSection(ks);
    DropSection(ds);
    ReadsThree([ConntrackArgs()], AcceptVectors(ks), DropVectors(ds));
  }

  lemma UniqueEquals<T(!new)>(read: seq<T>, expected: seq<T>)
    requires NoDup(expected) && |read| <= |expected|
    ensures Unique(read) == expected <==> read == expected
  {
    UniqueFixed(read);
    UniqueFixed(expected);
  }

  /** Interpreting a compiled chain gives back its accept and protected sets, in order, exactly when
      every protocol name is ordinary. */
  lemma InterpretInvertsCompile(keys: set<AcceptKey>, dests: set<string>)
    requires forall k :: k in keys ==> BuilderKey(k)
    requires forall d :: d in dests ==> !FlagWord(d)
    ensures Unique(DropsRead(Compiled(keys, dests))) == SortedDests(dests)
    ensures Unique(AcceptsRead(Compiled(keys, dests))) == KeyAccesses(SortedAccepts(keys))
       <==> forall k :: k in keys ==> OrdinaryProtocol(k)
  {
    var ks, ds := SortedAccepts(keys), SortedDests(dests);
    CompiledReads(keys, dests);
    SortedKeysDistinct(keys, dests);
    KeyAccessesDistinct(ks);
    UniqueEquals(ds, ds);
    assert forall k :: k in ks <==> k in Elements(ks);
    AcceptSection(ks);
    UniqueEquals(AcceptsRead(AcceptVectors(ks)), KeyAccesses(ks));
  }

  lemma SortedKeysDistinct(keys: set<AcceptKey>, dests: set<string>)
    ensures NoDup(SortedAccepts(keys)) && NoDup(SortedDests(dests))
  {
    LessAcceptTotal();
    LessDestTotal();
    StrictIsDistinct(LessAccept, SortedAccepts(keys));
    StrictIsDistinct(LessDest, SortedDests(dests));
  }

  /** The keys of a policy set are builder keys, and every CRD protocol is ordinary. */
  lemma PolicyKeysAreBuilderKeys(parse: Parser, cc: ClusterCIDRs, policies: seq<Policy>)
    requires PlainParser(parse)
    ensures forall k :: k in AllKeys(parse, cc, policies) ==> BuilderKey(k)
    ensures forall d :: d in AllDests(parse, policies) ==> !FlagWord(d)
  {
    forall k | k in AllKeys(parse, cc, policies) ensures BuilderKey(k) {
      var p :| p in policies && k in PolicyKeys(parse, cc, p);
      var ing :| ing in Elements(p.ingress) && k in IngressKeys(parse, cc, ing, DestSet(parse, p));
      var d, s :| d in DestSet(parse, p) && s in Kept(parse, Sources(ing.from, cc)) && k in PortKeys(s, d, ing.ports);
      if ing.ports != [] {
        var pt :| pt in ing.ports && k == AcceptKey(s, d, NormalizeProto(pt.protocol), Itoa(pt.port));
        ItoaIsNoFlag(pt.port);
      }
    }
  }

  lemma ItoaIsNoFlag(n: int)
    ensures !FlagWord(Itoa(n))
  {
    var s := Itoa(n);
    if n < 0 {
      DigitsAreDigits(-n);
      assert s[1] == Digits(-n)[0];
      assert s[1] in Digits(-n);
    } else {
      DigitsAreDigits(n);
      assert s[0] in Digits(n);
    }
  }
}
