/** pkg/syncer/syncer.go: converging MeshPeers to a fetched topology, and skipping unchanged revisions. */
module Syncer {
  import opened Cidr
  import opened Order

  /** A MeshPeer object: its spec, the managed-by label, and whether a deletion is pending on a finalizer. */
  datatype Peer<S> = Peer(spec: S, labelled: bool, terminating: bool)

  type Store<S> = map<string, Peer<S>>

  datatype Remote<S> = Remote(clusterID: string, spec: S)

  datatype Fetched<S> = Fetched(peers: seq<Remote<S>>, revision: string)

  datatype Outcome = FetchFailed | Skipped | UpsertFailed | PruneFailed | Synced

  type Sanitizer = string -> string

  // ---- What a topology asks for ------------------------------------------------------------------------------------------

  predicate Valid<S>(local: string, r: Remote<S>) {
    r.clusterID != "" && r.clusterID != local
  }

  /** The wanted spec by MeshPeer name; the last remote of a name decides. */
  function Want<S>(name: Sanitizer, local: string, peers: seq<Remote<S>>): map<string, S> {
    if peers == [] then map[]
    else
      var n := |peers| - 1;
      var before := Want(name, local, peers[..n]);
      if Valid(local, peers[n]) then before[name(peers[n].clusterID) := peers[n].spec] else before
  }

  lemma WantStep<S>(name: Sanitizer, local: string, peers: seq<Remote<S>>, i: nat)
    requires i < |peers|
    ensures (Want(name, local, peers[..i + 1]) ==
              if Valid(local, peers[i]) then Want(name, local, peers[..i])[name(peers[i].clusterID) := peers[i].spec] else Want(name, local, peers[..i]))
  {
    assert peers[..i + 1][..i] == peers[..i];
  }

  /** The remote is of another, named cluster, and that cluster's MeshPeer is called `n`. */
  predicate Asks<S>(name: Sanitizer, local: string, r: Remote<S>, n: string) {
    r.clusterID != "" && r.clusterID != local && name(r.clusterID) == n
  }

  /** Who is wanted: exactly the named clusters other than the local one, each under the spec listed last for its name. */
  lemma WantExactly<S(!new)>(name: Sanitizer, local: string, peers: seq<Remote<S>>, n: string)
    ensures n in Want(name, local, peers) <==> exists i :: 0 <= i < |peers| && Asks(name, local, peers[i], n)
    ensures n in Want(name, local, peers) ==> exists i ::
      && 0 <= i < |peers| && Asks(name, local, peers[i], n) && Want(name, local, peers)[n] == peers[i].spec
      && forall j :: i < j < |peers| ==> !Asks(name, local, peers[j], n)
  {
    var i := LastAsking(name, local, peers, n);
  }

  lemma {:induction false} LastAsking<S(!new)>(name: Sanitizer, local: string, peers: seq<Remote<S>>, n: string) returns (i: int)
    ensures -1 <= i < |peers| && (n in Want(name, local, peers) <==> 0 <= i)
    ensures 0 <= i ==> Asks(name, local, peers[i], n) && Want(name, local, peers)[n] == peers[i].spec
    ensures forall j :: i < j < |peers| ==> !Asks(name, local, peers[j], n)
  {
    i := -1;
    if peers != [] {
      var last := |peers| - 1;
      i := LastAsking(name, local, peers[..last], n);
      assert forall j :: 0 <= j < last ==> peers[..last][j] == peers[j];
      if Asks(name, local, peers[last], n) {
        i := last;
      }
    }
  }

  /** So the local cluster gets no MeshPeer, unless another cluster's name is sanitized to the same. */
  lemma LocalIsNotWanted<S(!new)>(name: Sanitizer, local: string, peers: seq<Remote<S>>)
    requires forall r :: r in peers && name(r.clusterID) == name(local) ==> r.clusterID == local
    ensures name(local) !in Want(name, local, peers)
  {
    WantExactly(name, local, peers, name(local));
    assert forall i :: 0 <= i < |peers| ==> peers[i] in peers;
  }

  /** An upsert labels the object and sets its spec; a pending deletion stays pending. */
  function Upserted<S>(store: Store<S>, n: string, spec: S): Peer<S> {
    Peer(spec, true, n in store && store[n].terminating)
  }

  function UpsertAll<S>(store: Store<S>, want: map<string, S>): Store<S> {
    map n | n in store.Keys + want.Keys :: if n in want then Upserted(store, n, want[n]) else store[n]
  }

  predicate Stale<S>(p: Peer<S>, n: string, keep: set<string>) {
    p.labelled && n !in keep
  }

  /** A pass without failures, whose deletions wait for their finalizers. */
  function Converge<S>(store: Store<S>, want: map<string, S>): Store<S> {
    var upserted := UpsertAll(store, want);
    map n | n in upserted :: if Stale(upserted[n], n, want.Keys) then upserted[n].(terminating := true) else upserted[n]
  }

  /** The labelled peers that are not being torn down. */
  function LiveView<S>(store: Store<S>): map<string, S> {
    map n | n in store && store[n].labelled && !store[n].terminating :: store[n].spec
  }

  /** A full converge would change nothing that counts. */
  ghost predicate Settled<S(!new)>(store: Store<S>, want: map<string, S>) {
    LiveView(Converge(store, want)) == LiveView(store)
  }

  /** What a finished pass leaves: every wanted peer written, every other labelled one on its way out. */
  ghost predicate Finished<S(!new)>(store: Store<S>, want: map<string, S>) {
    && (forall n :: n in want ==> n in store && store[n].labelled && store[n].spec == want[n])
    && (forall n :: n in store && Stale(store[n], n, want.Keys) ==> store[n].terminating)
  }

  /** No wanted peer is being torn down. */
  ghost predicate Clean<S(!new)>(store: Store<S>, want: map<string, S>) {
    forall n :: n in want && n in store ==> !store[n].terminating
  }

  // ---- The API server -----------------------------------------------------------------------------------------------------

  /** Nothing went away, and what changed is what an upsert makes of it. */
  ghost predicate OnlyUpserts<S(!new)>(before: Store<S>, after: Store<S>) {
    && before.Keys <= after.Keys
    && (forall n :: n in after ==> (n in before && after[n] == before[n]) || after[n] == Upserted(before, n, after[n].spec))
  }

  /** Nothing but stale labelled objects went away or started terminating; nothing else changed. */
  ghost predicate OnlyPrunes<S(!new)>(before: Store<S>, after: Store<S>, keep: set<string>) {
    && after.Keys <= before.Keys
    && (forall n :: n in before && !Stale(before[n], n, keep) ==> n in after && after[n] == before[n])
    && (forall n :: n in after ==> after[n] == before[n] || after[n] == before[n].(terminating := true))
    && (forall n :: n in before && before[n].terminating ==> n in after && after[n] == before[n])
  }

  lemma OneMoreUpsert<S(!new)>(before: Store<S>, after: Store<S>, n: string, spec: S)
    requires OnlyUpserts(before, after)
    ensures OnlyUpserts(before, after[n := Upserted(after, n, spec)])
  {
    var next := after[n := Upserted(after, n, spec)];
    assert next[n] == Upserted(before, n, spec);
  }

  lemma UpsertAllStep<S(!new)>(store: Store<S>, want: map<string, S>, n: string, spec: S)
    ensures UpsertAll(store, want)[n := Upserted(UpsertAll(store, want), n, spec)] == UpsertAll(store, want[n := spec])
  {
  }

  class Api<S(!new)> {
    var store: Store<S>

    constructor ()
      ensures store == map[]
    {
      store := map[];
    }

    method CreateOrUpdate(n: string, spec: S) returns (ok: bool)
      modifies this
      ensures store == if ok then old(store)[n := Upserted(old(store), n, spec)] else old(store)
    {
      ok := *;
      if ok {
        store := store[n := Upserted(store, n, spec)];
      }
    }

    /** The labelled objects, in whatever order. */
    method ListManaged() returns (ok: bool, names: seq<string>)
      ensures ok ==> forall n :: n in names <==> n in store && store[n].labelled
      ensures ok ==> NoDup(names)
    {
      ok := *;
      names := Enumerate(set n | n in store && store[n].labelled);
      assert forall n :: n in names <==> n in Elements(names);
    }

    /** Deletion removes the object, or leaves it terminating when it carries a finalizer; a missing object is fine. */
    method Delete(n: string) returns (ok: bool)
      modifies this
      ensures !ok || n !in old(store) ==> store == old(store)
      ensures ok && n in old(store) ==> store == old(store) - {n} || store == old(store)[n := old(store)[n].(terminating := true)]
    {
      ok := *;
      if ok && n in store {
        var held: bool := *;
        store := if held then store[n := store[n].(terminating := true)] else store - {n};
      }
    }

    /** A reconciler drops the last finalizer of a terminating object. */
    method Finalize(n: string)
      modifies this
      ensures store == if n in old(store) && old(store)[n].terminating then old(store) - {n} else old(store)
    {
      if n in store && store[n].terminating {
        store := store - {n};
      }
    }
  }

  // ---- Passes as steps of a run ----------------------------------------------------------------------------------------------

  datatype State<S> = State(store: Store<S>, lastRevision: string, applied: bool)

  predicate Skips<S>(st: State<S>, f: Fetched<S>) {
    st.applied && f.revision != "" && f.revision == st.lastRevision
  }

  /** What one pass may do, failures included. Nothing is deleted unless every upsert succeeded, and the revision is
      recorded only when the whole pass did; then the store is finished for what was fetched. */
  ghost predicate PassStep<S(!new)>(name: Sanitizer, local: string, st: State<S>, fetched: Option<Fetched<S>>, st': State<S>, o: Outcome) {
    && (o.FetchFailed? <==> fetched.None?)
    && (fetched.Some? ==> (o.Skipped? <==> Skips(st, fetched.value)))
    && (o.FetchFailed? || o.Skipped? ==> st'.store == st.store)
    && (o.UpsertFailed? ==> OnlyUpserts(st.store, st'.store))
    && (o.PruneFailed? || o.Synced? ==>
          var want := Want(name, local, fetched.value.peers);
          OnlyPrunes(UpsertAll(st.store, want), st'.store, want.Keys))
    && (o.Synced? ==> st'.applied && st'.lastRevision == fetched.value.revision && Finished(st'.store, Want(name, local, fetched.value.peers)))
    && (!o.Synced? ==> st'.applied == st.applied && st'.lastRevision == st.lastRevision)
  }

  // ---- The syncer -------------------------------------------------------------------------------------------------------------

  class Syncer<S(!new)> {
    const api: Api<S>
    const name: Sanitizer
    const local: string
    var lastRevision: string
    var applied: bool

    constructor (api: Api<S>, name: Sanitizer, local: string)
      ensures this.api == api && this.name == name && this.local == local && !applied && lastRevision == ""
    {
      this.api, this.name, this.local := api, name, local;
      applied, lastRevision := false, "";
    }

    /** A failed upsert is noted and the rest go on; only upserts happen. */
    method UpsertDesired(peers: seq<Remote<S>>) returns (desired: set<string>, ok: bool)
      modifies api
      ensures OnlyUpserts(old(api.store), api.store)
      ensures ok ==> desired == Want(name, local, peers).Keys && api.store == UpsertAll(old(api.store), Want(name, local, peers))
    {
      desired, ok := {}, true;
      for i := 0 to |peers|
        invariant OnlyUpserts(old(api.store), api.store)
        invariant ok ==> desired == Want(name, local, peers[..i]).Keys
        invariant ok ==> api.store == UpsertAll(old(api.store), Want(name, local, peers[..i]))
      {
        WantStep(name, local, peers, i);
        if !Valid(local, peers[i]) {
          continue;
        }
        OneMoreUpsert(old(api.store), api.store, name(peers[i].clusterID), peers[i].spec);
        UpsertAllStep(old(api.store), Want(name, local, peers[..i]), name(peers[i].clusterID), peers[i].spec);
        var written := api.CreateOrUpdate(name(peers[i].clusterID), peers[i].spec);
        if !written {
          ok := false;
          continue;
        }
        desired := desired + {name(peers[i].clusterID)};
      }
      assert peers[..|peers|] == peers;
    }

    /** Deletes stale labelled peers; an unlabelled, kept or already terminating peer is never touched. */
    method Prune(desired: set<string>) returns (ok: bool)
      modifies api
      ensures OnlyPrunes(old(api.store), api.store, desired)
      ensures ok ==> forall n :: n in api.store && Stale(api.store[n], n, desired) ==> api.store[n].terminating
    {
      var names;
      ok, names := api.ListManaged();
      if !ok {
        return;
      }
      for i := 0 to |names|
        invariant OnlyPrunes(old(api.store), api.store, desired)
        invariant forall j :: i <= j < |names| ==> names[j] in api.store && api.store[names[j]] == old(api.store)[names[j]]
        invariant forall n :: n in api.store && Stale(api.store[n], n, desired) && !api.store[n].terminating ==> n in names[i..]
      {
        var n := names[i];
        assert n in names;
        if n in desired || api.store[n].terminating {
          continue;
        }
        ok := api.Delete(n);
        if !ok {
          return;
        }
      }
      ok := true;
    }

    /** One pass. Nothing is deleted unless every upsert succeeded, and the revision is recorded only when the whole
        pass did; then the store is finished for what was fetched. */
    method SyncOnce(fetched: Option<Fetched<S>>) returns (o: Outcome)
      modifies this, api
      ensures PassStep(name, local, State(old(api.store), old(lastRevision), old(applied)), fetched, State(api.store, lastRevision, applied), o)
    {
      if fetched.None? {
        return FetchFailed;
      }
      var peers, revision := fetched.value.peers, fetched.value.revision;
      if applied && revision != "" && revision == lastRevision {
        return Skipped;
      }
      var desired, ok := UpsertDesired(peers);
      if !ok {
        return UpsertFailed;
      }
      ok := Prune(desired);
      if !ok {
        return PruneFailed;
      }
      lastRevision := revision;
      applied := true;
      return Synced;
    }
  }

  // ---- When skipping is sound ------------------------------------------------------------------------------------------------

  ghost predicate AllTerminating<S(!new)>(store: Store<S>, gone: set<string>) {
    forall n :: n in gone ==> n in store && store[n].terminating
  }

  lemma CleanIsSettled<S(!new)>(store: Store<S>, want: map<string, S>)
    requires Finished(store, want) && Clean(store, want)
    ensures LiveView(store) == want && Settled(store, want)
  {
    assert LiveView(Converge(store, want)).Keys == want.Keys;
  }

  /** After a finished pass, every later skip is sound whichever pending deletions complete, if and only if no wanted
      peer was being torn down when the revision was recorded. */
  lemma SkipSoundExactly<S(!new)>(store: Store<S>, want: map<string, S>)
    requires Finished(store, want)
    ensures (forall gone: set<string> :: AllTerminating(store, gone) ==> Settled(store - gone, want)) <==> Clean(store, want)
  {
    if Clean(store, want) {
      forall gone: set<string> | AllTerminating(store, gone) ensures Settled(store - gone, want) {
        CleanIsSettled(store - gone, want);
      }
    } else {
      var n :| n in want && n in store && store[n].terminating;
      assert AllTerminating(store, {n});
      assert n in LiveView(Converge(store - {n}, want)) && n !in LiveView(store - {n});
    }
  }

  // ---- Whole runs ----------------------------------------------------------------------------------------------------------------

  datatype Event<S> = Tick(fetched: Option<Fetched<S>>) | Finalizing(n: string)

  ghost predicate Step<S(!new)>(name: Sanitizer, local: string, st: State<S>, e: Event<S>, st': State<S>) {
    match e
    case Tick(fetched) => exists o :: PassStep(name, local, st, fetched, st', o)
    case Finalizing(n) => st' == st || (n in st.store && st.store[n].terminating && st' == st.(store := st.store - {n}))
  }

  ghost predicate Run<S(!new)>(name: Sanitizer, local: string, states: seq<State<S>>, events: seq<Event<S>>) {
    |states| == |events| + 1 && forall i :: 0 <= i < |events| ==> Step(name, local, states[i], events[i], states[i + 1])
  }

  /** Any passes of a syncer, with any call failing, and finalizers dropped in between, are such a run. */
  method Drive<S(!new)>(s: Syncer<S>, events: seq<Event<S>>) returns (ghost states: seq<State<S>>)
    modifies s, s.api
    ensures Run(s.name, s.local, states, events)
    ensures states[0] == old(State(s.api.store, s.lastRevision, s.applied))
    ensures states[|events|] == State(s.api.store, s.lastRevision, s.applied)
  {
    states := [State(s.api.store, s.lastRevision, s.applied)];
    for i := 0 to |events|
      invariant |states| == i + 1 && states[0] == old(State(s.api.store, s.lastRevision, s.applied))
      invariant states[i] == State(s.api.store, s.lastRevision, s.applied)
      invariant forall k :: 0 <= k < i ==> Step(s.name, s.local, states[k], events[k], states[k + 1])
    {
      match events[i] {
        case Tick(fetched) =>
          var o := s.SyncOnce(fetched);
        case Finalizing(n) =>
          s.api.Finalize(n);
      }
      ghost var now := State(s.api.store, s.lastRevision, s.applied);
      assert Step(s.name, s.local, states[i], events[i], now);
      states := states + [now];
    }
  }

  predicate Fetches<S>(events: seq<Event<S>>, i: int) {
    0 <= i < |events| && events[i].Tick? && events[i].fetched.Some?
  }

  function RevisionAt<S>(events: seq<Event<S>>, i: int): string
    requires Fetches(events, i)
  {
    events[i].fetched.value.revision
  }

  /** A revision names one topology, and is not served again once another has been. */
  ghost predicate RevisionsNotReused<S(!new)>(events: seq<Event<S>>) {
    && (forall i, j :: Fetches(events, i) && Fetches(events, j) && RevisionAt(events, i) == RevisionAt(events, j) != "" ==>
          events[i].fetched.value.peers == events[j].fetched.value.peers)
    && (forall i, j, k :: i < j < k && Fetches(events, i) && Fetches(events, j) && Fetches(events, k) ==>
          RevisionAt(events, i) == RevisionAt(events, k) != "" ==> RevisionAt(events, j) == RevisionAt(events, i))
  }

  /** The pass at `i` recorded the revision the syncer still holds at `k`. */
  ghost predicate RecordedAt<S(!new)>(name: Sanitizer, local: string, states: seq<State<S>>, events: seq<Event<S>>, i: nat, k: nat) {
    && i < k < |states| == |events| + 1 && Fetches(events, i)
    && states[k].lastRevision == RevisionAt(events, i)
    && Finished(states[i + 1].store, Want(name, local, events[i].fetched.value.peers))
    && forall j :: i < j <= k ==> states[j].applied && states[j].lastRevision == RevisionAt(events, i)
  }

  lemma StillRecorded<S(!new)>(name: Sanitizer, local: string, states: seq<State<S>>, events: seq<Event<S>>, i: nat, k: nat)
    requires RecordedAt(name, local, states, events, i, k) && k + 1 < |states|
    requires states[k + 1].applied && states[k + 1].lastRevision == states[k].lastRevision
    ensures RecordedAt(name, local, states, events, i, k + 1)
  {
  }

  lemma {:induction false} LastRecording<S(!new)>(name: Sanitizer, local: string, states: seq<State<S>>, events: seq<Event<S>>, k: nat) returns (i: nat)
    requires Run(name, local, states, events) && !states[0].applied && k < |states| && states[k].applied
    ensures RecordedAt(name, local, states, events, i, k)
  {
    var j := k - 1;
    assert Step(name, local, states[j], events[j], states[j + 1]);
    if events[j].Tick? {
      var o :| PassStep(name, local, states[j], events[j].fetched, states[k], o);
      if o.Synced? {
        return j;
      }
    }
    i := LastRecording(name, local, states, events, j);
    StillRecorded(name, local, states, events, i, j);
  }

  /** Between the recording and a later fetch of the same revision, only pending deletions complete. */
  lemma {:induction false} Undisturbed<S(!new)>(name: Sanitizer, local: string, states: seq<State<S>>, events: seq<Event<S>>, i: nat, k: nat, j: nat)
      returns (gone: set<string>)
    requires Run(name, local, states, events) && RevisionsNotReused(events) && RecordedAt(name, local, states, events, i, k)
    requires Fetches(events, k) && RevisionAt(events, k) == RevisionAt(events, i) != "" && i < j <= k
    ensures AllTerminating(states[i + 1].store, gone) && states[j].store == states[i + 1].store - gone
  {
    if j == i + 1 {
      gone := {};
    } else {
      var h := j - 1;
      gone := Undisturbed(name, local, states, events, i, k, h);
      assert Step(name, local, states[h], events[h], states[h + 1]);
      match events[h]
      case Tick(fetched) =>
        if fetched.Some? {
          assert Fetches(events, h) && RevisionAt(events, h) == RevisionAt(events, i);
          assert Skips(states[h], fetched.value);
        }
      case Finalizing(n) =>
        if states[j] != states[h] {
          gone := gone + {n};
        }
    }
  }

  /** Every skipped pass of every run: it found what a full converge would leave, provided the pass that recorded the
      revision was clean. Failures may strike anywhere and deletions may complete at any time. */
  lemma SkippedPassIsSound<S(!new)>(name: Sanitizer, local: string, states: seq<State<S>>, events: seq<Event<S>>, k: nat) returns (i: nat)
    requires Run(name, local, states, events) && RevisionsNotReused(events) && !states[0].applied
    requires Fetches(events, k) && Skips(states[k], events[k].fetched.value)
    ensures RecordedAt(name, local, states, events, i, k) && events[i].fetched.value.peers == events[k].fetched.value.peers
    ensures (var want := Want(name, local, events[k].fetched.value.peers);
              Clean(states[i + 1].store, want) ==> Settled(states[k].store, want) && LiveView(states[k].store) == want)
  {
    i := LastRecording(name, local, states, events, k);
    var gone := Undisturbed(name, local, states, events, i, k, k);
    var want := Want(name, local, events[k].fetched.value.peers);
    if Clean(states[i + 1].store, want) {
      CleanIsSettled(states[i + 1].store - gone, want);
    }
  }

  // ---- Where it fails -----------------------------------------------------------------------------------------------------------

  lemma OneWanted<S(!new)>(name: Sanitizer, local: string, id: string, spec: S)
    requires id != "" && id != local
    ensures Want(name, local, [Remote(id, spec)]) == map[name(id) := spec]
  {
    assert [Remote(id, spec)][..0] == [];
  }

  function One<S>(n: string, spec: S, terminating: bool): Store<S> {
    map[n := Peer(spec, true, terminating)]
  }

  /** A first pass over the one wanted peer, terminating or not, succeeds and changes nothing. */
  lemma FirstPass<S(!new)>(name: Sanitizer, local: string, id: string, spec: S, terminating: bool, f: Fetched<S>)
    requires id != "" && id != local && f.peers == [Remote(id, spec)]
    ensures var store := One(name(id), spec, terminating);
      PassStep(name, local, State(store, "", false), Some(f), State(store, f.revision, true), Synced)
  {
    OneWanted(name, local, id, spec);
    var store := One(name(id), spec, terminating);
    assert UpsertAll(store, map[name(id) := spec]) == store;
  }

  /** A later pass that upserts another spec and then cannot list what to prune. */
  lemma HalfPass<S(!new)>(name: Sanitizer, local: string, id: string, spec: S, other: S, f: Fetched<S>, last: string)
    requires id != "" && id != local && f.peers == [Remote(id, other)] && f.revision != last
    ensures PassStep(name, local, State(One(name(id), spec, false), last, true), Some(f), State(One(name(id), other, false), last, true), PruneFailed)
  {
    OneWanted(name, local, id, other);
    assert UpsertAll(One(name(id), spec, false), map[name(id) := other]) == One(name(id), other, false);
  }

  lemma ThreeSteps<S(!new)>(name: Sanitizer, local: string, st: State<S>, e: Event<S>, st1: State<S>, e1: Event<S>, st2: State<S>, e2: Event<S>)
    requires Step(name, local, st, e, st1) && Step(name, local, st1, e1, st2) && Step(name, local, st2, e2, st2)
    ensures Run(name, local, [st, st1, st2, st2], [e, e1, e2])
  {
  }

  lemma OneRevision<S(!new)>(f: Fetched<S>, n: string)
    ensures RevisionsNotReused([Tick(Some(f)), Finalizing(n), Tick(Some(f))])
  {
    var events := [Tick(Some(f)), Finalizing(n), Tick(Some(f))];
    forall i | Fetches(events, i) ensures events[i].fetched == Some(f) {
    }
  }

  lemma MissingUnsettled<S(!new)>(n: string, spec: S)
    ensures !Settled(map[], map[n := spec])
  {
    assert n in LiveView(Converge(map[], map[n := spec]));
  }

  lemma ChangedUnsettled<S(!new)>(n: string, spec: S, other: S)
    requires spec != other
    ensures !Settled(One(n, other, false), map[n := spec])
  {
    var store := One(n, other, false);
    assert LiveView(Converge(store, map[n := spec]))[n] == spec && LiveView(store)[n] == other;
  }

  /** A cluster leaves and returns before its MeshPeer is finalized: the return is recorded on the dying object, the
      object goes, and the unchanged revision is skipped although the peer is missing. */
  lemma ReturnBeforeFinalized<S(!new)>(name: Sanitizer, local: string, id: string, spec: S)
      returns (states: seq<State<S>>, events: seq<Event<S>>)
    requires id != "" && id != local
    ensures |events| == 3 && Run(name, local, states, events) && RevisionsNotReused(events) && !states[0].applied
    ensures Fetches(events, 2) && Skips(states[2], events[2].fetched.value)
    ensures !Settled(states[2].store, Want(name, local, events[2].fetched.value.peers))
  {
    var f := Fetched([Remote(id, spec)], "r");
    var dying := One(name(id), spec, true);
    events := [Tick(Some(f)), Finalizing(name(id)), Tick(Some(f))];
    var s2: State<S> := State(map[], "r", true);
    var s0, s1 := State(dying, "", false), State(dying, "r", true);
    states := [s0, s1, s2, s2];
    FirstPass(name, local, id, spec, true, f);
    assert dying - {name(id)} == map[];
    assert PassStep(name, local, s2, Some(f), s2, Skipped);
    ThreeSteps(name, local, s0, events[0], s1, events[1], s2, events[2]);
    OneRevision(f, name(id));
    OneWanted(name, local, id, spec);
    MissingUnsettled(name(id), spec);
  }

  /** A revision served again after a half-finished change is skipped on a changed store. */
  lemma ReusedRevision<S(!new)>(name: Sanitizer, local: string, id: string, spec: S, other: S)
      returns (states: seq<State<S>>, events: seq<Event<S>>)
    requires id != "" && id != local && spec != other
    ensures |events| == 3 && Run(name, local, states, events) && !states[0].applied
    ensures Fetches(events, 2) && Skips(states[2], events[2].fetched.value)
    ensures !Settled(states[2].store, Want(name, local, events[2].fetched.value.peers))
  {
    var f, g := Fetched([Remote(id, spec)], "r"), Fetched([Remote(id, other)], "s");
    events := [Tick(Some(f)), Tick(Some(g)), Tick(Some(f))];
    var before, after := One(name(id), spec, false), One(name(id), other, false);
    var s2 := State(after, "r", true);
    var s0, s1 := State(before, "", false), State(before, "r", true);
    states := [s0, s1, s2, s2];
    FirstPass(name, local, id, spec, false, f);
    HalfPass(name, local, id, spec, other, g, "r");
    assert PassStep(name, local, s2, Some(f), s2, Skipped);
    ThreeSteps(name, local, s0, events[0], s1, events[1], s2, events[2]);
    OneWanted(name, local, id, spec);
    ChangedUnsettled(name(id), spec, other);
  }
}
