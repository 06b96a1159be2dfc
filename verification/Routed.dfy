/** pkg/routed: host routes over somebody else's overlay, recorded per peer so that none is orphaned. */
module Routed {
  import opened Cidr
  import opened Order

  datatype Route = Route(dest: string, via: string)

  /** A parsed address or prefix: its canonical text and family. */
  datatype Parsed = Parsed(text: string, v4: bool)

  type AddressParser = string -> Option<Parsed>

  datatype PlanResult = Planned(routes: seq<Route>) | Invalid

  // ---- Planning -----------------------------------------------------------------------------------------------------------

  predicate LessDest(a: Route, b: Route) {
    StringLess(a.dest, b.dest)
  }

  predicate Routable(parse: AddressParser, via: Parsed, c: string) {
    parse(c).Some? && parse(c).value.v4 == via.v4
  }

  ghost predicate AllRoutable(parse: AddressParser, via: Parsed, cidrs: seq<string>) {
    forall c :: c in cidrs && c != "" ==> Routable(parse, via, c)
  }

  function RouteSet(parse: AddressParser, via: Parsed, cidrs: set<string>): set<Route> {
    set c | c in cidrs && c != "" && parse(c).Some? :: Route(parse(c).value.text, via.text)
  }

  function Dests(routes: seq<Route>): set<string> {
    set r | r in routes :: r.dest
  }

  ghost predicate DistinctDests(routes: seq<Route>) {
    forall i, j :: 0 <= i < j < |routes| ==> routes[i].dest != routes[j].dest
  }

  /** The plan: one route per canonical destination, all via the next hop, in destination order. */
  ghost predicate PlanFor(parse: AddressParser, via: Parsed, cidrs: seq<string>, routes: seq<Route>) {
    && Elements(routes) == RouteSet(parse, via, Elements(cidrs))
    && StrictlySorted(LessDest, routes) && DistinctDests(routes)
  }

  lemma LessDestWeak()
    ensures WeakOrder(LessDest)
  {
    StringLessTotal();
    TotalIsWeak(StringLess);
  }

  lemma RouteSetStep(parse: AddressParser, via: Parsed, cidrs: seq<string>, i: nat)
    requires i < |cidrs| && (cidrs[i] == "" || parse(cidrs[i]).Some?)
    ensures (RouteSet(parse, via, Elements(cidrs[..i + 1])) ==
              RouteSet(parse, via, Elements(cidrs[..i])) + if cidrs[i] == "" then {} else {Route(parse(cidrs[i]).value.text, via.text)})
  {
    PrefixElements(cidrs, i);
  }

  /** Fails exactly when the next hop is not an address, or a non-empty CIDR does not parse or is of the other family. */
  method PlanRoutes(parseIP: AddressParser, parse: AddressParser, cidrs: seq<string>, via: string) returns (r: PlanResult)
    ensures r.Planned? <==> parseIP(via).Some? && AllRoutable(parse, parseIP(via).value, cidrs)
    ensures r.Planned? ==> PlanFor(parse, parseIP(via).value, cidrs, r.routes)
    ensures r.Planned? ==> forall c :: c in cidrs && c != "" ==> parse(c).Some? && parse(c).value.v4 == parseIP(via).value.v4
    ensures r.Invalid? && parseIP(via).Some? ==> exists c :: c in cidrs && c != "" && (parse(c).None? || parse(c).value.v4 != parseIP(via).value.v4)
    ensures r.Planned? ==> forall i, j :: 0 <= i < j < |r.routes| ==> StringLess(r.routes[i].dest, r.routes[j].dest)
    ensures r.Planned? ==> forall x :: x in r.routes <==>
      exists c :: c in cidrs && c != "" && parse(c).Some? && x.dest == parse(c).value.text && x.via == parseIP(via).value.text
  {
    if parseIP(via).None? {
      return Invalid;
    }
    var hop := parseIP(via).value;
    var seen: set<string> := {};
    var out: seq<Route> := [];
    for i := 0 to |cidrs|
      invariant AllRoutable(parse, hop, cidrs[..i])
      invariant Elements(out) == RouteSet(parse, hop, Elements(cidrs[..i])) && DistinctDests(out)
      invariant seen == Dests(out) && forall x :: x in out ==> x.via == hop.text
    {
      var c := cidrs[i];
      if c != "" && !Routable(parse, hop, c) {
        assert c in cidrs;
        return Invalid;
      }
      RouteSetStep(parse, hop, cidrs, i);
      if c == "" {
        continue;
      }
      var dst := parse(c).value.text;
      if dst in seen {
        var x :| x in out && x.dest == dst;
        assert x == Route(dst, hop.text);
        continue;
      }
      ElementsAppend(out, [Route(dst, hop.text)]);
      seen := seen + {dst};
      out := out + [Route(dst, hop.text)];
    }
    assert cidrs[..|cidrs|] == cidrs;
    r := SortPlan(parse, hop, cidrs, out);
    PlannedExactly(parse, hop, cidrs, r.routes);
  }

  /** The planned routes are the parsed destinations of the non-empty texts, all through the hop. */
  lemma PlannedExactly(parse: AddressParser, via: Parsed, cidrs: seq<string>, routes: seq<Route>)
    requires PlanFor(parse, via, cidrs, routes)
    ensures forall x :: x in routes <==> exists c :: c in cidrs && c != "" && parse(c).Some? && x.dest == parse(c).value.text && x.via == via.text
  {
    forall x ensures x in routes <==> exists c :: c in cidrs && c != "" && parse(c).Some? && x.dest == parse(c).value.text && x.via == via.text {
      assert x in routes <==> x in Elements(routes);
      assert forall c :: c in cidrs <==> c in Elements(cidrs);
    }
  }

  method SortPlan(parse: AddressParser, via: Parsed, ghost cidrs: seq<string>, out: seq<Route>) returns (r: PlanResult)
    requires Elements(out) == RouteSet(parse, via, Elements(cidrs)) && DistinctDests(out)
    ensures r.Planned? && PlanFor(parse, via, cidrs, r.routes)
  {
    LessDestWeak();
    var sorted := SortSlice(LessDest, out);
    PermutationElements(out, sorted);
    assert NoDup(out);
    PermutationNoDup(out, sorted);
    forall i, j | 0 <= i < j < |sorted| ensures LessDest(sorted[i], sorted[j]) && sorted[i].dest != sorted[j].dest {
      assert sorted[i] in Elements(out) && sorted[j] in Elements(out) && sorted[i] != sorted[j];
      DestsDiffer(out, sorted[i], sorted[j]);
      StringLessTotal();
    }
    r := Planned(sorted);
  }

  lemma DestsDiffer(routes: seq<Route>, a: Route, b: Route)
    requires DistinctDests(routes) && a in routes && b in routes && a != b
    ensures a.dest != b.dest
  {
    var i :| 0 <= i < |routes| && routes[i] == a;
    var j :| 0 <= j < |routes| && routes[j] == b;
    assert i < j || j < i;
  }

  // ---- The routing table and the records -----------------------------------------------------------------------------------------

  type Kernel = map<string, string>

  type Records = map<string, seq<Route>>

  datatype Table = Table(kernel: Kernel, records: Records)

  function Recorded(records: Records, key: string): seq<Route> {
    if key in records then records[key] else []
  }

  predicate Holds(kernel: Kernel, r: Route) {
    r.dest in kernel && kernel[r.dest] == r.via
  }

  /** The kernel after replacing each route in turn. */
  function Replaced(kernel: Kernel, routes: seq<Route>): Kernel {
    if routes == [] then kernel
    else
      var n := |routes| - 1;
      Replaced(kernel, routes[..n])[routes[n].dest := routes[n].via]
  }

  /** The kernel after deleting the routes it holds exactly. */
  function Withdrawn(kernel: Kernel, routes: seq<Route>): Kernel {
    map d | d in kernel && Route(d, kernel[d]) !in routes :: kernel[d]
  }

  predicate InPlan(desired: seq<Route>, r: Route) {
    r in desired
  }

  function Stale(recorded: seq<Route>, desired: seq<Route>): seq<Route> {
    Collect((r: Route) => if InPlan(desired, r) then [] else [r], recorded)
  }

  /** The outcome of a successful configure. */
  function Configured(t: Table, key: string, desired: seq<Route>): Table {
    Table(Withdrawn(Replaced(t.kernel, desired), Stale(Recorded(t.records, key), desired)), t.records[key := desired])
  }

  /** The outcome of a configure whose j-th install failed: the installed ones are deleted again. */
  function RolledBack(t: Table, desired: seq<Route>, j: nat): Table
    requires j <= |desired|
  {
    Table(Withdrawn(Replaced(t.kernel, desired[..j]), desired[..j]), t.records)
  }

  function Removed(t: Table, key: string): Table {
    Table(Withdrawn(t.kernel, Recorded(t.records, key)), t.records - {key})
  }

  /** The routing table: Replace and Delete may fail; Delete needs an exact match to remove anything. */
  class RouteOps {
    var kernel: Kernel

    constructor ()
      ensures kernel == map[]
    {
      kernel := map[];
    }

    method Replace(r: Route) returns (ok: bool)
      modifies this
      ensures kernel == if ok then old(kernel)[r.dest := r.via] else old(kernel)
    {
      ok := *;
      if ok {
        kernel := kernel[r.dest := r.via];
      }
    }

    method Delete(r: Route) returns (ok: bool)
      modifies this
      ensures kernel == if ok && Holds(old(kernel), r) then old(kernel) - {r.dest} else old(kernel)
    {
      ok := *;
      if ok && Holds(kernel, r) {
        kernel := kernel - {r.dest};
      }
    }
  }

  lemma WithdrawnStep(kernel: Kernel, routes: seq<Route>, i: nat)
    requires i < |routes|
    ensures var now := Withdrawn(kernel, routes[..i]);
      Withdrawn(kernel, routes[..i + 1]) == if Holds(now, routes[i]) then now - {routes[i].dest} else now
  {
    PrefixElements(routes, i);
    assert forall r :: r in routes[..i + 1] <==> r in routes[..i] || r == routes[i];
  }

  class Manager {
    const ops: RouteOps
    var peerRoutes: Records

    constructor (ops: RouteOps)
      ensures this.ops == ops && peerRoutes == map[]
    {
      this.ops := ops;
      peerRoutes := map[];
    }

    /** Best effort; `clean` says that every delete worked. */
    method DeleteRoutes(routes: seq<Route>) returns (ghost clean: bool)
      modifies ops
      ensures clean ==> ops.kernel == Withdrawn(old(ops.kernel), routes)
    {
      clean := true;
      for i := 0 to |routes|
        invariant clean ==> ops.kernel == Withdrawn(old(ops.kernel), routes[..i])
      {
        WithdrawnStep(old(ops.kernel), routes, i);
        var ok := ops.Delete(routes[i]);
        clean := clean && ok;
      }
      assert routes[..|routes|] == routes;
    }

    /** Withdraws what is recorded for the peer and no longer planned. */
    method WithdrawStale(key: string, desired: seq<Route>) returns (ghost clean: bool)
      modifies ops
      ensures clean ==> ops.kernel == Withdrawn(old(ops.kernel), Stale(Recorded(peerRoutes, key), desired))
    {
      clean := true;
      var recorded := Recorded(peerRoutes, key);
      for i := 0 to |recorded|
        invariant clean ==> ops.kernel == Withdrawn(old(ops.kernel), Stale(recorded[..i], desired))
      {
        StaleStep(old(ops.kernel), recorded, desired, i);
        if recorded[i] !in desired {
          var ok := ops.Delete(recorded[i]);
          clean := clean && ok;
        }
      }
      assert recorded[..|recorded|] == recorded;
    }

    /** A valid plan is installed completely or rolled back, and then exactly what is stale is withdrawn. */
    method ConfigurePeer(parseIP: AddressParser, parse: AddressParser, key: string, via: string, allowedIPs: seq<string>)
        returns (ok: bool, ghost clean: bool, ghost desired: seq<Route>, ghost failed: nat)
      modifies this, ops
      ensures parseIP(via).None? || !AllRoutable(parse, parseIP(via).value, allowedIPs) ==> !ok
      ensures !ok && desired == [] ==> ops.kernel == old(ops.kernel) && peerRoutes == old(peerRoutes)
      ensures desired != [] || ok ==> parseIP(via).Some? && AllRoutable(parse, parseIP(via).value, allowedIPs)
      ensures parseIP(via).Some? && AllRoutable(parse, parseIP(via).value, allowedIPs) ==>
        PlanFor(parse, parseIP(via).value, allowedIPs, desired) && (desired == [] ==> ok)
      ensures ok && clean ==> Table(ops.kernel, peerRoutes) == Configured(Table(old(ops.kernel), old(peerRoutes)), key, desired)
      ensures !ok && desired != [] ==> failed < |desired|
      ensures !ok && desired != [] && clean ==> Table(ops.kernel, peerRoutes) == RolledBack(Table(old(ops.kernel), old(peerRoutes)), desired, failed)
    {
      clean, failed, desired := true, 0, [];
      var plan := PlanRoutes(parseIP, parse, allowedIPs, via);
      if plan.Invalid? {
        return false, clean, desired, failed;
      }
      var routes := plan.routes;
      desired := routes;
      var installed: seq<Route> := [];
      for i := 0 to |routes|
        invariant installed == routes[..i] && ops.kernel == Replaced(old(ops.kernel), routes[..i])
        invariant peerRoutes == old(peerRoutes)
      {
        assert routes[..i + 1][..i] == routes[..i];
        ok := ops.Replace(routes[i]);
        if !ok {
          clean := DeleteRoutes(installed);
          failed := i;
          return;
        }
        installed := installed + [routes[i]];
      }
      assert routes[..|routes|] == routes;
      clean := WithdrawStale(key, routes);
      peerRoutes := peerRoutes[key := installed];
      ok := true;
    }

    method RemovePeer(key: string) returns (ghost clean: bool)
      modifies this, ops
      ensures clean ==> Table(ops.kernel, peerRoutes) == Removed(Table(old(ops.kernel), old(peerRoutes)), key)
    {
      clean := DeleteRoutes(Recorded(peerRoutes, key));
      peerRoutes := peerRoutes - {key};
    }
  }

  lemma StaleMember(recorded: seq<Route>, desired: seq<Route>, r: Route)
    ensures r in Stale(recorded, desired) <==> r in recorded && r !in desired
  {
    CollectMember((r: Route) => if InPlan(desired, r) then [] else [r], recorded, r);
  }

  lemma StaleStep(kernel: Kernel, recorded: seq<Route>, desired: seq<Route>, i: nat)
    requires i < |recorded|
    ensures var now := Withdrawn(kernel, Stale(recorded[..i], desired));
      (Withdrawn(kernel, Stale(recorded[..i + 1], desired)) ==
        if recorded[i] !in desired && Holds(now, recorded[i]) then now - {recorded[i].dest} else now)
  {
    PrefixElements(recorded, i);
    forall r ensures r in Stale(recorded[..i + 1], desired) <==> r in Stale(recorded[..i], desired) || (r == recorded[i] && r !in desired) {
      StaleMember(recorded[..i + 1], desired, r);
      StaleMember(recorded[..i], desired, r);
    }
  }

  // ---- No orphan routes ------------------------------------------------------------------------------------------------------------

  ghost predicate RecordedSomewhere(records: Records, r: Route) {
    exists key :: key in records && r in records[key]
  }

  /** Every kernel route was there from the start or is recorded under a peer. */
  ghost predicate NoOrphans(base: Kernel, t: Table) {
    forall d :: d in t.kernel ==> Holds(base, Route(d, t.kernel[d])) || RecordedSomewhere(t.records, Route(d, t.kernel[d]))
  }

  lemma {:induction false} ReplacedAt(kernel: Kernel, routes: seq<Route>, d: string)
    ensures d in Replaced(kernel, routes) <==> d in kernel || d in Dests(routes)
    ensures d in Replaced(kernel, routes) ==> (d !in Dests(routes) ==> Replaced(kernel, routes)[d] == kernel[d])
    ensures d in Dests(routes) ==> Route(d, Replaced(kernel, routes)[d]) in routes
  {
    if routes != [] {
      var n := |routes| - 1;
      ReplacedAt(kernel, routes[..n], d);
      assert routes == routes[..n] + [routes[n]];
      assert Dests(routes) == Dests(routes[..n]) + {routes[n].dest};
    }
  }

  /** A kernel route survives a successful configure exactly when it is planned, or neither the plan nor the peer's
      record mentions it. */
  lemma ConfiguredExactly(t: Table, key: string, desired: seq<Route>, r: Route)
    requires DistinctDests(desired)
    ensures (Holds(Configured(t, key, desired).kernel, r) <==>
               r in desired || (Holds(t.kernel, r) && r.dest !in Dests(desired) && r !in Recorded(t.records, key)))
  {
    ReplacedAt(t.kernel, desired, r.dest);
    StaleMember(Recorded(t.records, key), desired, r);
    if r in desired {
      assert r.dest in Dests(desired);
      var o := Route(r.dest, Replaced(t.kernel, desired)[r.dest]);
      if o != r {
        DestsDiffer(desired, o, r);
      }
    }
  }

  /** After a rollback exactly the routes to untouched destinations remain. */
  lemma RolledBackExactly(t: Table, desired: seq<Route>, j: nat, r: Route)
    requires j <= |desired|
    ensures Holds(RolledBack(t, desired, j).kernel, r) <==> Holds(t.kernel, r) && r.dest !in Dests(desired[..j])
  {
    ReplacedAt(t.kernel, desired[..j], r.dest);
    assert r in desired[..j] ==> r.dest in Dests(desired[..j]);
  }

  /** A failed configure leaves the kernel as it was if and only if no destination it had reached was routed before:
      the rollback also takes down routes that worked. */
  lemma RollbackRestoresExactly(t: Table, desired: seq<Route>, j: nat)
    requires j <= |desired|
    ensures RolledBack(t, desired, j).kernel == t.kernel <==> Dests(desired[..j]) !! t.kernel.Keys
  {
    var after := RolledBack(t, desired, j).kernel;
    forall d
      ensures d in after <==> d in t.kernel && d !in Dests(desired[..j])
      ensures d in after ==> after[d] == t.kernel[d]
    {
      if d in after {
        RolledBackExactly(t, desired, j, Route(d, after[d]));
      }
      if d in t.kernel {
        RolledBackExactly(t, desired, j, Route(d, t.kernel[d]));
      }
    }
    if Dests(desired[..j]) !! t.kernel.Keys {
      assert after.Keys == t.kernel.Keys;
    } else {
      var d :| d in Dests(desired[..j]) && d in t.kernel.Keys;
      assert d !in after;
    }
  }

  /** The peer's one route is up. A configure that re-adds it and fails on the next one leaves none. */
  lemma RollbackTakesDownWorking(name: string, r: Route, next: Route)
    requires r.dest != next.dest
    ensures var t := Table(map[r.dest := r.via], map[name := [r]]);
      Holds(t.kernel, r) && RolledBack(t, [r, next], 1).kernel == map[]
  {
    var t := Table(map[r.dest := r.via], map[name := [r]]);
    assert [r, next][..1] == [r] && r in [r];
    var after := RolledBack(t, [r, next], 1).kernel;
    forall d ensures d !in after {
      if d in after {
        RolledBackExactly(t, [r, next], 1, Route(d, after[d]));
      }
    }
  }

  lemma RemovedExactly(t: Table, key: string, r: Route)
    ensures Holds(Removed(t, key).kernel, r) <==> Holds(t.kernel, r) && r !in Recorded(t.records, key)
  {
  }

  // ---- Whole runs ---------------------------------------------------------------------------------------------------------------------

  datatype Event = Configure(key: string, desired: seq<Route>) | ConfigureFails(desired: seq<Route>, at: nat) | Remove(key: string)

  predicate WellFormed(e: Event) {
    e.ConfigureFails? ==> e.at <= |e.desired|
  }

  /** One manager call, with an install failing where the event says and deletes working. */
  function Next(t: Table, e: Event): Table
    requires WellFormed(e)
  {
    match e
    case Configure(key, desired) => Configured(t, key, desired)
    case ConfigureFails(desired, at) => RolledBack(t, desired, at)
    case Remove(key) => Removed(t, key)
  }

  function After(t: Table, events: seq<Event>): Table
    requires forall i :: 0 <= i < |events| ==> WellFormed(events[i])
  {
    if events == [] then t else Next(After(t, events[..|events| - 1]), events[|events| - 1])
  }

  lemma {:induction false} ConfiguredSource(t: Table, key: string, desired: seq<Route>, d: string)
    requires d in Configured(t, key, desired).kernel
    ensures var r := Route(d, Configured(t, key, desired).kernel[d]); r in desired || (Holds(t.kernel, r) && r !in Recorded(t.records, key))
  {
    ReplacedAt(t.kernel, desired, d);
    StaleMember(Recorded(t.records, key), desired, Route(d, Configured(t, key, desired).kernel[d]));
  }

  lemma NextKeepsRecords(base: Kernel, t: Table, e: Event)
    requires WellFormed(e) && NoOrphans(base, t)
    ensures NoOrphans(base, Next(t, e))
  {
    var t' := Next(t, e);
    forall d | d in t'.kernel ensures Holds(base, Route(d, t'.kernel[d])) || RecordedSomewhere(t'.records, Route(d, t'.kernel[d])) {
      var r := Route(d, t'.kernel[d]);
      match e
      case Configure(key, desired) =>
        ConfiguredSource(t, key, desired, d);
        if r !in desired {
          KeptRecord(t.records, t'.records, key, r);
        } else {
          assert key in t'.records && t'.records[key] == desired;
        }
      case ConfigureFails(desired, at) =>
        RolledBackExactly(t, desired, at, r);
      case Remove(key) =>
        RemovedExactly(t, key, r);
        KeptRecord(t.records, t'.records, key, r);
    }
  }

  /** Changing one peer's record keeps what others recorded. */
  lemma KeptRecord(records: Records, records': Records, key: string, r: Route)
    requires forall k :: k in records && k != key ==> k in records' && records'[k] == records[k]
    requires r !in Recorded(records, key)
    ensures RecordedSomewhere(records, r) ==> RecordedSomewhere(records', r)
  {
    if k :| k in records && r in records[k] {
      assert k != key && k in records' && r in records'[k];
    }
  }

  /** In every run, with installs failing anywhere, no kernel route is ever orphaned. */
  lemma {:induction false} RunsLeaveNoOrphans(base: Kernel, events: seq<Event>)
    requires forall i :: 0 <= i < |events| ==> WellFormed(events[i])
    ensures NoOrphans(base, After(Table(base, map[]), events))
  {
    if events != [] {
      RunsLeaveNoOrphans(base, events[..|events| - 1]);
      NextKeepsRecords(base, After(Table(base, map[]), events[..|events| - 1]), events[|events| - 1]);
    }
  }

  // ---- Other peers ------------------------------------------------------------------------------------------------------------------------

  /** The peer's recorded destinations are nobody else's, before the start or after. */
  ghost predicate Separate(base: Kernel, records: Records, key: string) {
    && Dests(Recorded(records, key)) !! base.Keys
    && forall k :: k in records && k != key ==> Dests(records[k]) !! Dests(Recorded(records, key))
  }

  /** Removing a peer with destinations of its own leaves none of its routes. */
  lemma RemovalLeavesNone(base: Kernel, t: Table, key: string, d: string)
    requires NoOrphans(base, t) && Separate(base, t.records, key) && d in Dests(Recorded(t.records, key))
    ensures d !in Removed(t, key).kernel
  {
    if d in t.kernel {
      var r := Route(d, t.kernel[d]);
      assert !Holds(base, r);
      var k :| k in t.records && r in t.records[k];
      assert d in Dests(t.records[k]);
      assert k == key;
    }
  }

  /** After a successful configure the peer's destinations, old and new, carry exactly the planned routes; a changed next
      hop has replaced the old one. */
  lemma ExactlyPlanned(base: Kernel, t: Table, key: string, desired: seq<Route>, r: Route)
    requires NoOrphans(base, t) && Separate(base, t.records, key) && DistinctDests(desired)
    requires r.dest in Dests(Recorded(t.records, key)) + Dests(desired)
    ensures Holds(Configured(t, key, desired).kernel, r) <==> r in desired
  {
    ConfiguredExactly(t, key, desired, r);
    if Holds(t.kernel, r) && r.dest !in Dests(desired) {
      assert !Holds(base, r);
      var k :| k in t.records && r in t.records[k];
      assert r.dest in Dests(t.records[k]);
      assert k == key;
    }
  }

  /** No call for one peer touches a route of another, as long as they have no destination in common. */
  lemma OthersUntouched(t: Table, e: Event, other: string, r: Route)
    requires WellFormed(e) && r in Recorded(t.records, other)
    requires !e.Remove? ==> r.dest !in Dests(e.desired)
    requires !e.ConfigureFails? ==> e.key != other && r.dest !in Dests(Recorded(t.records, e.key))
    ensures Holds(Next(t, e).kernel, r) <==> Holds(t.kernel, r)
    ensures r in Recorded(Next(t, e).records, other)
  {
    match e
    case Configure(key, desired) =>
      ReplacedAt(t.kernel, desired, r.dest);
      StaleMember(Recorded(t.records, key), desired, r);
      assert r !in Recorded(t.records, key);
    case ConfigureFails(desired, at) =>
      assert Dests(desired[..at]) <= Dests(desired);
      RolledBackExactly(t, desired, at, r);
    case Remove(key) =>
      RemovedExactly(t, key, r);
  }

  /** Two peers that share a route: removing one takes down the other's, which stays recorded. */
  lemma SharedRouteIsLost(a: string, b: string, r: Route)
    requires a != b
    ensures var t := After(Table(map[], map[]), [Configure(a, [r]), Configure(b, [r]), Remove(a)]);
      Recorded(t.records, b) == [r] && !Holds(t.kernel, r)
  {
    var t0 := Table(map[], map[]);
    var t1 := Configured(t0, a, [r]);
    var t2 := Configured(t1, b, [r]);
    var t3 := Removed(t2, a);
    var e1, e2, e3 := Configure(a, [r]), Configure(b, [r]), Remove(a);
    assert [e1, e2, e3][..2] == [e1, e2] && [e1, e2][..1] == [e1] && [e1][..0] == [];
    assert After(t0, [e1]) == t1 && After(t0, [e1, e2]) == t2;
    assert r in Recorded(t2.records, a);
    RemovedExactly(t2, a, r);
  }
}
