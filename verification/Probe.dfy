/** pkg/probe/probe.go and the failover rule of servicenat_controller.go: how stale a suppressed status may be. */
module Probe {
  import opened Order

  /** One dial of one responder; times are epoch seconds. */
  datatype Result = Result(ok: bool, at: int)

  datatype ProbeStatus = ProbeStatus(lastAttempt: int, lastSuccess: int)

  predicate Healthy(s: ProbeStatus) {
    s.lastAttempt > 0 && s.lastSuccess == s.lastAttempt
  }

  predicate Aged(cur: ProbeStatus, r: Result, refresh: int) {
    cur.lastAttempt == 0 || r.at - cur.lastAttempt >= refresh
  }

  /** `NextProbeStatus`: the folded status and whether it is worth writing. */
  function NextProbeStatus(cur: ProbeStatus, r: Result, refresh: int): (ProbeStatus, bool) {
    (ProbeStatus(r.at, if r.ok then r.at else cur.lastSuccess), Healthy(cur) != r.ok || Aged(cur, r, refresh))
  }

  function Publish(cur: ProbeStatus, r: Result, refresh: int): ProbeStatus {
    var (next, changed) := NextProbeStatus(cur, r, refresh);
    if changed then next else cur
  }

  /** The status stored after publishing every result. */
  function Stored(results: seq<Result>, refresh: int): ProbeStatus {
    if results == [] then ProbeStatus(0, 0)
    else Publish(Stored(results[..|results| - 1], refresh), results[|results| - 1], refresh)
  }

  function Writes(results: seq<Result>, refresh: int): nat {
    if results == [] then 0
    else
      var n := |results| - 1;
      Writes(results[..n], refresh) + if NextProbeStatus(Stored(results[..n], refresh), results[n], refresh).1 then 1 else 0
  }

  /** How often the outcome changed from one probe to the next; the peer starts out unhealthy. */
  function Flips(results: seq<Result>): nat {
    if results == [] then 0
    else
      var n := |results| - 1;
      Flips(results[..n]) + if results[n].ok != (n > 0 && results[n - 1].ok) then 1 else 0
  }

  /** The probe's outcome differs from the one before, or from the unhealthy start. */
  predicate Changed(results: seq<Result>, i: int)
    requires 0 <= i < |results|
  {
    if i == 0 then results[i].ok else results[i].ok != results[i - 1].ok
  }

  function Changes(results: seq<Result>): set<int> {
    set i | 0 <= i < |results| && Changed(results, i)
  }

  lemma {:induction false} FlipsExactly(results: seq<Result>)
    ensures Flips(results) == |Changes(results)|
  {
    if results != [] {
      var n := |results| - 1;
      FlipsExactly(results[..n]);
      assert forall i :: 0 <= i < n ==> Changed(results, i) == Changed(results[..n], i);
      assert Changes(results) == Changes(results[..n]) + if Changed(results, n) then {n} else {};
    }
  }

  ghost predicate Increasing(results: seq<Result>) {
    && (forall i :: 0 <= i < |results| ==> results[i].at > 0)
    && (forall i, j :: 0 <= i < j < |results| ==> results[i].at < results[j].at)
  }

  /** The time of the latest success, 0 if there is none. */
  function LastSuccess(results: seq<Result>): int {
    if results == [] then 0
    else if results[|results| - 1].ok then results[|results| - 1].at
    else LastSuccess(results[..|results| - 1])
  }

  lemma {:induction false} LastSuccessMeaning(results: seq<Result>)
    requires Increasing(results)
    ensures LastSuccess(results) == 0 <==> forall i :: 0 <= i < |results| ==> !results[i].ok
    ensures forall i :: 0 <= i < |results| && results[i].ok ==> results[i].at <= LastSuccess(results)
    ensures results != [] ==> LastSuccess(results) <= results[|results| - 1].at
  {
    if results != [] {
      var n := |results| - 1;
      LastSuccessMeaning(results[..n]);
      assert forall i :: 0 <= i < n ==> results[..n][i] == results[i];
    }
  }

  // ---- What the suppressed status still says ----------------------------------------------------------------------------------

  /** The stored health bit is the latest result's; the stored attempt lags by less than the refresh interval, and the
      stored success lags the latest real one by less than that too. */
  lemma {:induction false} StoredIsCurrent(results: seq<Result>, refresh: int)
    requires Increasing(results) && results != [] && refresh > 0
    ensures var s, last := Stored(results, refresh), results[|results| - 1];
      && Healthy(s) == last.ok
      && 0 < s.lastAttempt <= last.at < s.lastAttempt + refresh
      && 0 <= s.lastSuccess <= LastSuccess(results) && s.lastSuccess <= s.lastAttempt
      && (LastSuccess(results) > 0 ==> 0 < s.lastSuccess && LastSuccess(results) < s.lastSuccess + refresh)
  {
    var n := |results| - 1;
    if n > 0 {
      StoredIsCurrent(results[..n], refresh);
      assert results[..n][n - 1] == results[n - 1] && results[n - 1].at < results[n].at;
      LastSuccessMeaning(results[..n]);
      FoldStep(Stored(results[..n], refresh), results[n - 1], results[n], refresh, LastSuccess(results[..n]));
    } else {
      assert results[..0] == [];
    }
  }

  lemma FoldStep(s: ProbeStatus, last: Result, r: Result, refresh: int, success: int)
    requires refresh > 0 && last.at < r.at && success <= last.at && (last.ok ==> success == last.at)
    requires Healthy(s) == last.ok && 0 < s.lastAttempt <= last.at < s.lastAttempt + refresh
    requires 0 <= s.lastSuccess <= success && s.lastSuccess <= s.lastAttempt && (success > 0 ==> 0 < s.lastSuccess && success < s.lastSuccess + refresh)
    ensures var s', success' := Publish(s, r, refresh), if r.ok then r.at else success;
      && Healthy(s') == r.ok
      && 0 < s'.lastAttempt <= r.at < s'.lastAttempt + refresh
      && 0 <= s'.lastSuccess <= success' && s'.lastSuccess <= s'.lastAttempt
      && (success' > 0 ==> 0 < s'.lastSuccess && success' < s'.lastSuccess + refresh)
  {
  }

  /** Suppression bounds the writes: besides the first, one per change of outcome and one per elapsed refresh interval. */
  lemma {:induction false} WritesBounded(results: seq<Result>, refresh: int)
    requires Increasing(results) && results != [] && refresh > 0
    ensures (Writes(results, refresh) - 1 - Flips(results)) * refresh <= Stored(results, refresh).lastAttempt - results[0].at
    ensures (Writes(results, refresh) - 1 - Flips(results)) * refresh <= results[|results| - 1].at - results[0].at
  {
    var n := |results| - 1;
    StoredIsCurrent(results, refresh);
    if n > 0 {
      WritesBounded(results[..n], refresh);
      StoredIsCurrent(results[..n], refresh);
      assert results[..n][n - 1] == results[n - 1] && results[..n][0] == results[0];
      var x := Writes(results[..n], refresh) - 1 - Flips(results[..n]);
      var y := Writes(results, refresh) - 1 - Flips(results);
      assert y <= x || (y == x + 1 && Aged(Stored(results[..n], refresh), results[n], refresh));
      OneMore(x, y, refresh);
    } else {
      assert results[..0] == [];
      OneMore(-1, Writes(results, refresh) - 1 - Flips(results), refresh);
    }
  }

  lemma OneMore(x: int, y: int, d: int)
    requires d > 0
    ensures y <= x ==> y * d <= x * d
    ensures y == x + 1 ==> y * d == x * d + d
  {
    if y <= x {
      assert (x - y) * d >= 0;
    }
  }

  // ---- Failover ------------------------------------------------------------------------------------------------------------------

  datatype PeerStatus = PeerStatus(error: bool, probe: ProbeStatus, lastHandshake: int)

  predicate ClusterDown(st: PeerStatus, now: int, staleAfter: int) {
    if st.error then true
    else if now > 0 && st.probe.lastAttempt > 0 && now - st.probe.lastAttempt <= staleAfter then
      !(st.probe.lastSuccess > 0 && now - st.probe.lastSuccess <= staleAfter)
    else if st.lastHandshake > 0 then now - st.lastHandshake > staleAfter
    else false
  }

  /** Bounds on eviction for a peer not in error whose last probe is recent. It is evicted once no probe succeeded within
      the window, and it is kept while a probe succeeded within the window less one refresh interval; in particular
      while the last probe succeeded. In between, the stored success decides. */
  lemma EvictionBounds(results: seq<Result>, refresh: int, st: PeerStatus, now: int, staleAfter: int)
    requires Increasing(results) && results != [] && refresh > 0
    requires !st.error && st.probe == Stored(results, refresh)
    requires results[|results| - 1].at <= now && now - results[|results| - 1].at <= staleAfter - refresh
    ensures (forall i :: 0 <= i < |results| && results[i].ok ==> now - results[i].at > staleAfter) ==> ClusterDown(st, now, staleAfter)
    ensures (exists i :: 0 <= i < |results| && results[i].ok && now - results[i].at <= staleAfter - refresh) ==> !ClusterDown(st, now, staleAfter)
    ensures results[|results| - 1].ok ==> !ClusterDown(st, now, staleAfter)
  {
    StoredIsCurrent(results, refresh);
    LastSuccessMeaning(results);
    LastSuccessIsOne(results);
  }

  lemma {:induction false} LastSuccessIsOne(results: seq<Result>)
    ensures LastSuccess(results) == 0 || exists i :: 0 <= i < |results| && results[i].ok && results[i].at == LastSuccess(results)
  {
    if results != [] && !results[|results| - 1].ok {
      var n := |results| - 1;
      LastSuccessIsOne(results[..n]);
      if i :| 0 <= i < n && results[..n][i].ok && results[..n][i].at == LastSuccess(results[..n]) {
        assert results[i].ok && results[i].at == LastSuccess(results);
      }
    }
  }

  /** The refresh slack is needed: a probe may have succeeded within the window, the last probe be recent, and the peer
      still be evicted, because the stored success is older. */
  lemma SlackIsNeeded(refresh: int, staleAfter: int) returns (results: seq<Result>, st: PeerStatus, now: int)
    requires 1 < refresh <= staleAfter
    ensures Increasing(results) && results != [] && !st.error && st.probe == Stored(results, refresh)
    ensures results[|results| - 1].at <= now && now - results[|results| - 1].at <= staleAfter - refresh
    ensures exists i :: 0 <= i < |results| && results[i].ok && now - results[i].at <= staleAfter
    ensures ClusterDown(st, now, staleAfter)
  {
    now := refresh + staleAfter;
    var a, b, c := Result(true, 1), Result(true, refresh), Result(false, now);
    results := [a, b, c];
    assert results[..2] == [a, b] && [a, b][..1] == [a] && [a][..0] == [];
    assert Stored([a], refresh) == ProbeStatus(1, 1);
    assert Stored([a, b], refresh) == ProbeStatus(1, 1);
    assert Stored(results, refresh) == ProbeStatus(now, 1);
    st := PeerStatus(false, Stored(results, refresh), 0);
    assert results[1].ok && now - results[1].at <= staleAfter;
  }

  // ---- Which clusters are down ------------------------------------------------------------------------------------------------------

  datatype Peer = Peer(clusterID: string, status: PeerStatus)

  function DownSet(peers: set<Peer>, now: int, staleAfter: int): set<string> {
    set p | p in peers && p.clusterID != "" && ClusterDown(p.status, now, staleAfter) :: p.clusterID
  }

  /** Exactly the named clusters with a peer that is down. */
  method DownClusters(peers: seq<Peer>, now: int, staleAfter: int) returns (down: set<string>)
    ensures down == DownSet(Elements(peers), now, staleAfter)
  {
    down := {};
    for i := 0 to |peers|
      invariant down == DownSet(Elements(peers[..i]), now, staleAfter)
    {
      PrefixElements(peers, i);
      var p := peers[i];
      if p.clusterID == "" {
        continue;
      }
      if ClusterDown(p.status, now, staleAfter) {
        down := down + {p.clusterID};
      }
    }
    assert peers[..|peers|] == peers;
  }

  /** A cluster is down exactly when one of its peers is in error, or was probed within the window without a success in it,
      or was not probed within it and has not shaken hands since. A peer with neither probe nor handshake is left alone. */
  lemma DownExactly(peers: set<Peer>, now: int, staleAfter: int, cluster: string)
    ensures cluster in DownSet(peers, now, staleAfter) <==> cluster != "" && exists p ::
      && p in peers && p.clusterID == cluster
      && var st, since := p.status, now - staleAfter;
         || st.error
         || (1 <= now && 1 <= st.probe.lastAttempt && since <= st.probe.lastAttempt && !(1 <= st.probe.lastSuccess && since <= st.probe.lastSuccess))
         || (!(1 <= now && 1 <= st.probe.lastAttempt && since <= st.probe.lastAttempt) && 1 <= st.lastHandshake < since)
  {
  }

  /** The publisher: folds each result into the stored status, writing only when worth it. */
  class Publisher {
    var status: ProbeStatus
    ghost var results: seq<Result>
    ghost var writes: nat
    const refresh: int

    ghost predicate Valid()
      reads this
    {
      status == Stored(results, refresh) && writes == Writes(results, refresh)
    }

    constructor (refresh: int)
      ensures Valid() && this.refresh == refresh && results == []
    {
      this.refresh := refresh;
      status := ProbeStatus(0, 0);
      results := [];
      writes := 0;
    }

    method Record(r: Result)
      requires Valid()
      modifies this
      ensures Valid() && results == old(results) + [r]
    {
      assert (results + [r])[..|results|] == results;
      var (next, changed) := NextProbeStatus(status, r, refresh);
      if changed {
        status := next;
        writes := writes + 1;
      }
      results := results + [r];
    }
  }
}
