/** What an iptables argument vector means: matching, targets and first-match evaluation. */
module Packets {
  import opened Cidr
  import opened Text

  type Args = seq<string>

  /** `net.ParseCIDR` restricted to IPv4: the network a text denotes, if any. */
  type Parser = string -> Option<Block>

  datatype Packet = Packet(iface: string, src: nat, dst: nat, proto: string, dport: int, established: bool)

  datatype Verdict = Accept | Drop | Return

  /** The text is an IPv4 network that holds the address. */
  predicate Covers(parse: Parser, cidr: string, ip: nat) {
    parse(cidr).Some? && Contains(parse(cidr).value, ip)
  }

  predicate OptionHolds(parse: Parser, flag: string, value: string, pkt: Packet) {
    match flag
    case "-s" => Covers(parse, value, pkt.src)
    case "-d" => Covers(parse, value, pkt.dst)
    case "-p" => pkt.proto == value
    case "--dport" => Itoa(pkt.dport) == value
    case "--ctstate" => value == "RELATED,ESTABLISHED" && pkt.established
    case "-i" => pkt.iface == value
    case "-m" => true
    case "-j" => true
    case _ => false
  }

  /** Every option of the rule holds; each takes exactly one value. */
  predicate Matches(parse: Parser, args: Args, pkt: Packet) {
    if args == [] then true
    else if |args| == 1 then false
    else OptionHolds(parse, args[0], args[1], pkt) && Matches(parse, args[2..], pkt)
  }

  /** The rule's jump target, "" when it has none. */
  function Target(args: Args): string {
    if |args| < 2 then ""
    else if args[0] == "-j" then args[1]
    else Target(args[2..])
  }

  /** The first rule that matches and ends the chain; None when the packet runs off its end. Other targets pass on. */
  function Decide(parse: Parser, chain: seq<Args>, pkt: Packet): Option<Verdict> {
    if chain == [] then None
    else if Matches(parse, chain[0], pkt) && Target(chain[0]) == "ACCEPT" then Some(Accept)
    else if Matches(parse, chain[0], pkt) && Target(chain[0]) == "DROP" then Some(Drop)
    else if Matches(parse, chain[0], pkt) && Target(chain[0]) == "RETURN" then Some(Return)
    else Decide(parse, chain[1..], pkt)
  }

  /** First-match evaluation: the end of a chain returns to the caller, like RETURN. */
  function Evaluate(parse: Parser, chain: seq<Args>, pkt: Packet): Verdict {
    var d := Decide(parse, chain, pkt);
    if d.Some? then d.value else Return
  }

  /** The rule uses only the options and targets whose meaning is given here. */
  predicate Modelled(args: Args) {
    if args == [] then true
    else if |args| == 1 then false
    else
      && args[0] in {"-s", "-d", "-p", "--dport", "--ctstate", "-i", "-m", "-j"}
      && (args[0] == "-j" ==> args[1] in {"ACCEPT", "DROP", "RETURN"})
      && Modelled(args[2..])
  }

  lemma {:induction false} DecideAppend(parse: Parser, a: seq<Args>, b: seq<Args>, pkt: Packet)
    ensures Decide(parse, a + b, pkt) == if Decide(parse, a, pkt).Some? then Decide(parse, a, pkt) else Decide(parse, b, pkt)
  {
    if a == [] {
      assert a + b == b;
    } else {
      assert (a + b)[1..] == a[1..] + b;
      DecideAppend(parse, a[1..], b, pkt);
    }
  }

  /** A run of rules with one terminal target fires exactly when one of them matches. */
  lemma {:induction false} UniformVerdict(parse: Parser, chain: seq<Args>, target: string, pkt: Packet)
    requires target == "ACCEPT" || target == "DROP"
    requires forall i :: 0 <= i < |chain| ==> Target(chain[i]) == target
    ensures Decide(parse, chain, pkt)
         == if exists i :: 0 <= i < |chain| && Matches(parse, chain[i], pkt)
            then Some(if target == "ACCEPT" then Accept else Drop)
            else None
  {
    if chain != [] && !Matches(parse, chain[0], pkt) {
      var rest := chain[1..];
      UniformVerdict(parse, rest, target, pkt);
      assert forall i :: 0 <= i < |rest| ==> rest[i] == chain[i + 1];
      if i :| 0 <= i < |chain| && Matches(parse, chain[i], pkt) {
        assert rest[i - 1] == chain[i];
      }
    }
  }
}
