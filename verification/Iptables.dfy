/** One iptables table behind a go-iptables handle: every call is one atomic step that may fail. */
module Iptables {
  import opened Cidr

  type Chains<R> = map<string, seq<R>>

  /** The sequence without the first occurrence of `x`. */
  function Remove<R(==)>(s: seq<R>, x: R): (r: seq<R>)
    ensures x !in s ==> r == s
    ensures x in s ==> |r| == |s| - 1
  {
    if s == [] then []
    else if s[0] == x then s[1..]
    else [s[0]] + Remove(s[1..], x)
  }

  /** No rule of any chain jumps to `name`. */
  ghost predicate Unreferenced<R>(chains: Chains<R>, jump: R -> Option<string>, name: string) {
    forall c, i :: c in chains && 0 <= i < |chains[c]| ==> jump(chains[c][i]) != Some(name)
  }

  /** The rule's jump target, if it is a user chain, exists. */
  predicate TargetPresent<R>(chains: Chains<R>, jump: R -> Option<string>, rule: R) {
    jump(rule).Some? ==> jump(rule).value in chains
  }

  /** A handle on one table. A call's preconditions are iptables' own; meeting them, it either takes
      effect or fails and changes nothing. `history` holds every table the kernel has gone through. */
  class Handle<R(==)> {
    const jump: R -> Option<string>
    var chains: Chains<R>
    ghost var history: seq<Chains<R>>

    constructor (jump: R -> Option<string>, chains: Chains<R>)
      ensures this.jump == jump && this.chains == chains && history == []
    {
      this.jump, this.chains, history := jump, chains, [];
    }

    method ChainExists(chain: string) returns (ok: bool, found: bool)
      ensures ok ==> found == (chain in chains)
    {
      ok := *;
      found := chain in chains;
    }

    method ListChains() returns (ok: bool, names: set<string>)
      ensures ok ==> names == chains.Keys
    {
      ok := *;
      names := chains.Keys;
    }

    method Exists(chain: string, rule: R) returns (ok: bool, found: bool)
      requires chain in chains
      ensures ok ==> found == (rule in chains[chain])
    {
      ok := *;
      found := rule in chains[chain];
    }

    method NewChain(chain: string) returns (ok: bool)
      requires chain !in chains
      modifies this
      ensures ok ==> chains == old(chains)[chain := []] && history == old(history) + [chains]
      ensures !ok ==> chains == old(chains) && history == old(history)
    {
      ok := *;
      if ok {
        chains := chains[chain := []];
        history := history + [chains];
      }
    }

    /** Flushes the chain, creating it when absent. */
    method ClearChain(chain: string) returns (ok: bool)
      modifies this
      ensures ok ==> chains == old(chains)[chain := []] && history == old(history) + [chains]
      ensures !ok ==> chains == old(chains) && history == old(history)
    {
      ok := *;
      if ok {
        chains := chains[chain := []];
        history := history + [chains];
      }
    }

    method DeleteChain(chain: string) returns (ok: bool)
      requires chain in chains && chains[chain] == [] && Unreferenced(chains, jump, chain)
      modifies this
      ensures ok ==> chains == old(chains) - {chain} && history == old(history) + [chains]
      ensures !ok ==> chains == old(chains) && history == old(history)
    {
      ok := *;
      if ok {
        chains := chains - {chain};
        history := history + [chains];
      }
    }

    method Append(chain: string, rule: R) returns (ok: bool)
      requires chain in chains && TargetPresent(chains, jump, rule)
      modifies this
      ensures ok ==> chains == old(chains)[chain := old(chains)[chain] + [rule]] && history == old(history) + [chains]
      ensures !ok ==> chains == old(chains) && history == old(history)
    {
      ok := *;
      if ok {
        chains := chains[chain := chains[chain] + [rule]];
        history := history + [chains];
      }
    }

    /** Inserts at position 1, the top of the chain. */
    method InsertFirst(chain: string, rule: R) returns (ok: bool)
      requires chain in chains && TargetPresent(chains, jump, rule)
      modifies this
      ensures ok ==> chains == old(chains)[chain := [rule] + old(chains)[chain]] && history == old(history) + [chains]
      ensures !ok ==> chains == old(chains) && history == old(history)
    {
      ok := *;
      if ok {
        chains := chains[chain := [rule] + chains[chain]];
        history := history + [chains];
      }
    }

    /** Deletes the first rule equal to `rule`. */
    method Delete(chain: string, rule: R) returns (ok: bool)
      requires chain in chains && rule in chains[chain]
      modifies this
      ensures ok ==> chains == old(chains)[chain := Remove(old(chains)[chain], rule)] && history == old(history) + [chains]
      ensures !ok ==> chains == old(chains) && history == old(history)
    {
      ok := *;
      if ok {
        chains := chains[chain := Remove(chains[chain], rule)];
        history := history + [chains];
      }
    }
  }
}
