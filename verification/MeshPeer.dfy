/** pkg/controllers/meshpeer_controller.go: key rotation and finalization against the peer data plane. */
module MeshPeer {
  import opened Cidr

  /** What the reconciler reads of a MeshPeer. `fits` says that the rest of the spec can be planned. */
  datatype Object = Object(publicKey: string, deleting: bool, finalizer: bool, fits: bool)

  /** API objects, the key cache, and the programmed keys with the MeshPeer each was programmed for. */
  datatype State = State(objects: map<string, Object>, keyIndex: map<string, string>, plane: map<string, string>)

  // ---- What one reconcile may do --------------------------------------------------------------------------------------------

  datatype Effect =
    | Nothing
    | ForgetMissing
    | Finalized(updated: bool)
    | FinalizerAdded
    | Withdrawn
    | Programmed

  predicate Live(st: State, name: string) {
    name in st.objects && !st.objects[name].deleting && st.objects[name].finalizer
  }

  predicate Dying(st: State, name: string) {
    name in st.objects && st.objects[name].deleting && st.objects[name].finalizer
  }

  predicate Rotating(st: State, name: string) {
    Live(st, name) && name in st.keyIndex && st.keyIndex[name] != st.objects[name].publicKey
  }

  predicate Enabled(st: State, name: string, e: Effect) {
    match e
    case Nothing => true
    case ForgetMissing => name !in st.objects && name in st.keyIndex
    case Finalized(_) => Dying(st, name)
    case FinalizerAdded => name in st.objects && !st.objects[name].deleting && !st.objects[name].finalizer
    case Withdrawn => Rotating(st, name) && st.objects[name].publicKey != "" && st.objects[name].fits
    case Programmed => Live(st, name) && st.objects[name].publicKey != "" && st.objects[name].fits
  }

  /** The data plane without the key, whoever it was programmed for. */
  function Without(plane: map<string, string>, key: string): map<string, string> {
    plane - {key}
  }

  function PlaneAfterRotation(st: State, name: string): map<string, string>
    requires Live(st, name)
  {
    if Rotating(st, name) then Without(st.plane, st.keyIndex[name]) else st.plane
  }

  function Apply(st: State, name: string, e: Effect): State
    requires Enabled(st, name, e)
  {
    match e
    case Nothing => st
    case ForgetMissing => st.(plane := Without(st.plane, st.keyIndex[name]), keyIndex := st.keyIndex - {name})
    case Finalized(updated) =>
      var key := st.objects[name].publicKey;
      State(if updated then st.objects - {name} else st.objects,
        st.keyIndex - {name},
        if key == "" then st.plane else Without(st.plane, key))
    case FinalizerAdded => st.(objects := st.objects[name := st.objects[name].(finalizer := true)])
    case Withdrawn => st.(plane := PlaneAfterRotation(st, name))
    case Programmed =>
      var key := st.objects[name].publicKey;
      st.(plane := PlaneAfterRotation(st, name)[key := name], keyIndex := st.keyIndex[name := key])
  }

  /** What a reconcile has to do when no call fails. */
  function Due(st: State, name: string): Effect {
    if name !in st.objects then (if name in st.keyIndex then ForgetMissing else Nothing)
    else
      var o := st.objects[name];
      if o.deleting then (if o.finalizer then Finalized(true) else Nothing)
      else if !o.finalizer then FinalizerAdded
      else if o.publicKey != "" && o.fits then Programmed
      else Nothing
  }

  /** A fault-free reconcile leaves a live, fitting peer programmed under its key alone and cached, and nothing of a
      finalized or vanished one that was tracked. */
  lemma DueConverges(home: string -> string, st: State, name: string)
    requires Unshared(home, st) && Tracked(st, name)
    ensures Enabled(st, name, Due(st, name))
    ensures var st' := Apply(st, name, Due(st, name));
      && (Live(st, name) && st.objects[name].publicKey != "" && st.objects[name].fits ==>
            && name in st'.keyIndex && st'.keyIndex[name] == st.objects[name].publicKey
            && forall key :: key in st'.plane && st'.plane[key] == name <==> key == st.objects[name].publicKey)
      && (name !in st.objects ==> name !in st'.keyIndex && forall key :: key in st'.plane ==> st'.plane[key] != name)
      && (Dying(st, name) ==> name !in st'.objects && name !in st'.keyIndex)
  {
  }

  // ---- The data plane and the reconciler ----------------------------------------------------------------------------------------

  /** All-or-nothing calls that may fail. Removing an unknown key succeeds. */
  class DataPlane {
    var plane: map<string, string>

    constructor ()
      ensures plane == map[]
    {
      plane := map[];
    }

    method ConfigurePeer(key: string, owner: string) returns (ok: bool)
      modifies this
      ensures plane == if ok then old(plane)[key := owner] else old(plane)
    {
      ok := *;
      if ok {
        plane := plane[key := owner];
      }
    }

    method RemovePeer(key: string) returns (ok: bool)
      modifies this
      ensures plane == if ok then Without(old(plane), key) else old(plane)
    {
      ok := *;
      if ok {
        plane := plane - {key};
      }
    }
  }

  class Api {
    var objects: map<string, Object>

    constructor ()
      ensures objects == map[]
    {
      objects := map[];
    }

    method Get(name: string) returns (ok: bool, found: Option<Object>)
      ensures ok ==> found == if name in objects then Some(objects[name]) else None
    {
      ok := *;
      found := if name in objects then Some(objects[name]) else None;
    }

    method AddFinalizer(name: string) returns (ok: bool)
      requires name in objects
      modifies this
      ensures objects == if ok then old(objects)[name := old(objects)[name].(finalizer := true)] else old(objects)
    {
      ok := *;
      if ok {
        objects := objects[name := objects[name].(finalizer := true)];
      }
    }

    /** Dropping the finalizer of an object that is being deleted lets it go. */
    method RemoveFinalizer(name: string) returns (ok: bool)
      requires name in objects && objects[name].deleting
      modifies this
      ensures objects == if ok then old(objects) - {name} else old(objects)
    {
      ok := *;
      if ok {
        objects := objects - {name};
      }
    }
  }

  class Reconciler {
    const api: Api
    const dp: DataPlane
    var keyIndex: map<string, string>

    constructor (api: Api, dp: DataPlane)
      ensures this.api == api && this.dp == dp && keyIndex == map[]
    {
      this.api, this.dp := api, dp;
      keyIndex := map[];
    }

    ghost function Now(): State
      reads this, api, dp
    {
      State(api.objects, keyIndex, dp.plane)
    }

    /** Whatever fails, a reconcile has one of the six effects, and it had the right to it. Where nothing fails it has the
        one that is due. */
    method Reconcile(name: string) returns (ghost e: Effect, failed: bool)
      modifies this, api, dp
      ensures Enabled(old(Now()), name, e) && Now() == Apply(old(Now()), name, e)
      ensures !failed ==> e == Due(old(Now()), name)
    {
      e, failed := Nothing, true;
      var ok, found := api.Get(name);
      if !ok {
        return;
      }
      if found.None? {
        if name in keyIndex {
          ok := dp.RemovePeer(keyIndex[name]);
          if !ok {
            return;
          }
          keyIndex := keyIndex - {name};
          e := ForgetMissing;
        }
        failed := false;
        return;
      }
      var peer := found.value;
      if peer.deleting {
        e, failed := ReconcileDelete(name, peer);
        return;
      }
      if !peer.finalizer {
        ok := api.AddFinalizer(name);
        if ok {
          e, failed := FinalizerAdded, false;
        }
        return;
      }
      e, failed := ReconcileApply(name, peer);
    }

    method ReconcileApply(name: string, peer: Object) returns (ghost e: Effect, failed: bool)
      requires Live(Now(), name) && peer == api.objects[name]
      modifies this, dp
      ensures Enabled(old(Now()), name, e) && Now() == Apply(old(Now()), name, e)
      ensures !failed ==> e == Due(old(Now()), name)
    {
      e, failed := Nothing, false;
      if peer.publicKey == "" || !peer.fits {
        return;
      }
      failed := true;
      if name in keyIndex && keyIndex[name] != peer.publicKey {
        var removed := dp.RemovePeer(keyIndex[name]);
        if !removed {
          return;
        }
        e := Withdrawn;
      }
      var ok := dp.ConfigurePeer(peer.publicKey, name);
      if !ok {
        return;
      }
      keyIndex := keyIndex[name := peer.publicKey];
      e, failed := Programmed, false;
    }

    /** The finalizer goes only after the key in the spec has been removed. */
    method ReconcileDelete(name: string, peer: Object) returns (ghost e: Effect, failed: bool)
      requires name in api.objects && peer == api.objects[name] && peer.deleting
      modifies this, api, dp
      ensures Enabled(old(Now()), name, e) && Now() == Apply(old(Now()), name, e)
      ensures !failed ==> e == Due(old(Now()), name)
      ensures name !in api.objects && peer.publicKey != "" ==> peer.publicKey !in dp.plane
    {
      e, failed := Nothing, false;
      if !peer.finalizer {
        return;
      }
      failed := true;
      if peer.publicKey != "" {
        var ok := dp.RemovePeer(peer.publicKey);
        if !ok {
          return;
        }
      }
      keyIndex := keyIndex - {name};
      var updated := api.RemoveFinalizer(name);
      e, failed := Finalized(updated), !updated;
    }
  }

  // ---- What every step keeps -------------------------------------------------------------------------------------------------------

  /** What is programmed for the MeshPeer is at most its cached key. */
  ghost predicate Tracked(st: State, name: string) {
    forall key :: key in st.plane && st.plane[key] == name ==> name in st.keyIndex && st.keyIndex[name] == key
  }

  /** No key is shared: every key in use belongs to one MeshPeer. */
  ghost predicate Unshared(home: string -> string, st: State) {
    && (forall n :: n in st.objects && st.objects[n].publicKey != "" ==> home(st.objects[n].publicKey) == n)
    && (forall n :: n in st.keyIndex ==> home(st.keyIndex[n]) == n)
    && (forall key :: key in st.plane ==> home(key) == st.plane[key])
  }

  /** The spec still holds the cached key, if there is one. */
  predicate CacheIsSpec(st: State, name: string) {
    name in st.objects && (name in st.keyIndex ==> st.keyIndex[name] == st.objects[name].publicKey != "")
  }

  /** The cached key has been withdrawn and not programmed again. */
  predicate Unprogrammed(st: State, name: string) {
    name in st.keyIndex && st.keyIndex[name] !in st.plane
  }

  /** Whatever failed on the way, an effect keeps every MeshPeer tracked but the one it finalizes. */
  lemma EffectsKeepTrack(home: string -> string, st: State, name: string, e: Effect, peer: string)
    requires Enabled(st, name, e) && Unshared(home, st) && Tracked(st, peer) && !(e.Finalized? && name == peer)
    ensures Unshared(home, Apply(st, name, e)) && Tracked(Apply(st, name, e), peer)
  {
  }

  /** Finalization leaves nothing behind for its MeshPeer if and only if the spec still holds the cached key or the cached key
      is not programmed. */
  lemma FinalizationExactly(home: string -> string, st: State, name: string, updated: bool)
    requires Enabled(st, name, Finalized(updated)) && Unshared(home, st) && Tracked(st, name)
    ensures var st' := Apply(st, name, Finalized(updated));
      && Unshared(home, st')
      && (Tracked(st', name) <==> forall key :: key in st'.plane ==> st'.plane[key] != name)
      && (Tracked(st', name) <==> CacheIsSpec(st, name) || Unprogrammed(st, name))
  {
    var st' := Apply(st, name, Finalized(updated));
    if name in st.keyIndex {
      var key := st.keyIndex[name];
      assert key in st.plane ==> home(key) == st.plane[key] == name;
      assert key in st'.plane <==> key in st.plane && (key != st.objects[name].publicKey || key == "");
    }
  }

  // ---- Whole runs -----------------------------------------------------------------------------------------------------------------------

  /** A reconcile, or somebody editing, deleting or purging an object. */
  datatype Event = Reconciled(name: string, e: Effect) | Edited(name: string, o: Object) | Purged(name: string)

  ghost predicate Step(home: string -> string, st: State, ev: Event, st': State) {
    match ev
    case Reconciled(name, e) => Enabled(st, name, e) && st' == Apply(st, name, e)
    case Edited(name, o) => (o.publicKey == "" || home(o.publicKey) == name) && st' == st.(objects := st.objects[name := o])
    case Purged(name) => st' == st.(objects := st.objects - {name})
  }

  ghost predicate Run(home: string -> string, states: seq<State>, events: seq<Event>) {
    |states| == |events| + 1 && forall i :: 0 <= i < |events| ==> Step(home, states[i], events[i], states[i + 1])
  }

  ghost predicate Finalizes(ev: Event, name: string) {
    ev.Reconciled? && ev.name == name && ev.e.Finalized?
  }

  lemma StepKeepsTrack(home: string -> string, st: State, ev: Event, st': State, name: string)
    requires Step(home, st, ev, st') && Tracked(st, name) && Unshared(home, st)
    requires Finalizes(ev, name) ==> CacheIsSpec(st, name) || Unprogrammed(st, name)
    ensures Tracked(st', name) && Unshared(home, st')
  {
    match ev
    case Reconciled(peer, e) =>
      if Finalizes(ev, name) {
        FinalizationExactly(home, st, name, e.updated);
      } else {
        EffectsKeepTrack(home, st, peer, e, name);
      }
    case Edited(_, _) =>
    case Purged(_) =>
  }

  lemma StepStaysUnshared(home: string -> string, st: State, ev: Event, st': State)
    requires Step(home, st, ev, st') && Unshared(home, st)
    ensures Unshared(home, st')
  {
    match ev
    case Reconciled(name, e) => EffectsStayUnshared(home, st, name, e);
    case Edited(_, _) =>
    case Purged(_) =>
  }

  lemma EffectsStayUnshared(home: string -> string, st: State, name: string, e: Effect)
    requires Enabled(st, name, e) && Unshared(home, st)
    ensures Unshared(home, Apply(st, name, e))
  {
  }

  lemma {:induction false} RunStaysUnshared(home: string -> string, states: seq<State>, events: seq<Event>, k: nat)
    requires Run(home, states, events) && Unshared(home, states[0]) && k < |states|
    ensures Unshared(home, states[k])
  {
    if k > 0 {
      RunStaysUnshared(home, states, events, k - 1);
      assert Step(home, states[k - 1], events[k - 1], states[k]);
      StepStaysUnshared(home, states[k - 1], events[k - 1], states[k]);
    }
  }

  /** One MeshPeer's finalizations up to step k find its cached key in the spec, or not programmed. */
  ghost predicate FinalizedClean(states: seq<State>, events: seq<Event>, name: string, k: nat)
    requires k <= |events| < |states|
  {
    forall i :: 0 <= i < k && Finalizes(events[i], name) ==> CacheIsSpec(states[i], name) || Unprogrammed(states[i], name)
  }

  /** Across applies, rotations, edits, failures, disappearing objects and whatever happens to the other MeshPeers, what is
      programmed for this one is at most its cached key. */
  lemma {:induction false} RunKeepsTrack(home: string -> string, states: seq<State>, events: seq<Event>, name: string, k: nat)
    requires Run(home, states, events) && Unshared(home, states[0]) && Tracked(states[0], name) && k < |states|
    requires FinalizedClean(states, events, name, k)
    ensures Tracked(states[k], name)
  {
    if k > 0 {
      RunKeepsTrack(home, states, events, name, k - 1);
      RunStaysUnshared(home, states, events, k - 1);
      assert Step(home, states[k - 1], events[k - 1], states[k]);
      StepKeepsTrack(home, states[k - 1], events[k - 1], states[k], name);
    }
  }

  /** And exactly then: a run keeps track of a MeshPeer throughout if and only if all its finalizations are clean. */
  lemma TrackedThroughoutExactly(home: string -> string, states: seq<State>, events: seq<Event>, name: string)
    requires Run(home, states, events) && Unshared(home, states[0]) && Tracked(states[0], name)
    ensures (forall k :: 0 <= k < |states| ==> Tracked(states[k], name)) <==> FinalizedClean(states, events, name, |events|)
  {
    if FinalizedClean(states, events, name, |events|) {
      forall k | 0 <= k < |states| ensures Tracked(states[k], name) {
        RunKeepsTrack(home, states, events, name, k);
      }
    }
    if forall k :: 0 <= k < |states| ==> Tracked(states[k], name) {
      forall i | 0 <= i < |events| && Finalizes(events[i], name) ensures CacheIsSpec(states[i], name) || Unprogrammed(states[i], name) {
        RunStaysUnshared(home, states, events, i);
        assert Step(home, states[i], events[i], states[i + 1]) && Tracked(states[i + 1], name);
        FinalizationExactly(home, states[i], name, events[i].e.updated);
      }
    }
  }

  /** The key is edited and the object deleted before the new key is applied: finalization removes the new key, which
      was never programmed, forgets the old one and lets the object go. The old key stays for ever. */
  lemma EditedThenDeleted(home: string -> string, name: string, old': string, new': string)
      returns (states: seq<State>, events: seq<Event>)
    requires old' != "" && new' != "" && old' != new' && home(old') == name && home(new') == name
    ensures Run(home, states, events) && |events| == 2 && Tracked(states[0], name) && Unshared(home, states[0])
    ensures name !in states[2].objects && name !in states[2].keyIndex && states[2].plane == map[old' := name]
    ensures forall e :: Enabled(states[2], name, e) ==> Apply(states[2], name, e) == states[2]
  {
    var plane, index := map[old' := name], map[name := old'];
    var dying := Object(new', true, true, true);
    var s0 := State(map[name := Object(old', false, true, true)], index, plane);
    var s1 := State(map[name := dying], index, plane);
    var s2 := State(map[], map[], plane);
    assert Without(plane, new') == plane;
    states := [s0, s1, s2];
    events := [Edited(name, dying), Reconciled(name, Finalized(true))];
  }
}
