/**
 * The quantum tunnel of qtunnel.py: a packet buffer plus a map from
 * correlation keys to 32-entry noise signatures; a packet is delivered when
 * its signature equals the one recorded for its key.
 *
 * The clocks are parameters: the wall-clock readings `send` takes, and the
 * timer differences `create_correlation` masks to 16 bits.
 */
module QTunnel {
  import opened Wrappers
  import opened AssocList
  import Decimal

  /** The per-byte timer differences (`t_end - t_start`) measured while a correlation is created. */
  type Timer = nat -> int

  /** What one `send` reads from the clocks. */
  datatype Clock = Clock(keyTimeNs: nat, stampNs: int, timer: Timer)

  datatype Packet<P> = Packet(
    source: string,
    destination: string,
    payload: P,
    noiseSignature: seq<int>,
    correlationId: string,
    timestampNs: int)

  datatype Tunnel<P> = Tunnel(tunnelId: string, packets: seq<Packet<P>>, correlations: Assoc<string, seq<int>>)

  /** A SHA-256 digest has 32 bytes, so a correlation has 32 entries. */
  const SignatureLength: nat := 32
  const JitterMask: int := 0xFFFF

  function NewTunnel<P>(id: string): (t: Tunnel<P>)
    ensures t.tunnelId == id && t.packets == [] && t.correlations == []
  {
    Tunnel(id, [], [])
  }

  /** `x & 0xFFFF` on a Python integer: the low 16 bits, for negative x as well. */
  function Mask16(x: int): (r: int)
    ensures 0 <= r <= JitterMask
    ensures (r - x) % 0x10000 == 0
  {
    x % 0x10000
  }

  /** The 32 masked timer differences. */
  function Signature(timer: Timer): (sig: seq<int>)
    ensures |sig| == SignatureLength
    ensures forall i :: 0 <= i < |sig| ==> 0 <= sig[i] <= JitterMask && (sig[i] - timer(i)) % 0x10000 == 0
  {
    var sig := seq(SignatureLength, i requires 0 <= i < SignatureLength => Mask16(timer(i)));
    assert forall i :: 0 <= i < |sig| ==> sig[i] == Mask16(timer(i));
    sig
  }

  /**
   * `create_correlation`: record a fresh 32-entry signature for the key,
   * replacing any earlier one, and return it.
   */
  function CreateCorrelation<P>(t: Tunnel<P>, key: string, timer: Timer): (r: (seq<int>, Tunnel<P>))
    ensures |r.0| == SignatureLength
    ensures forall i :: 0 <= i < |r.0| ==> 0 <= r.0[i] <= JitterMask
    ensures Get(r.1.correlations, key) == Some(r.0)
    ensures forall k :: k != key ==> Get(r.1.correlations, k) == Get(t.correlations, k)
    ensures r.1.packets == t.packets && r.1.tunnelId == t.tunnelId
  {
    var sig := Signature(timer);
    (sig, t.(correlations := Put(t.correlations, key, sig)))
  }

  /** The key `send` makes up when none is given: `{source}_{destination}_{time_ns}`. */
  function GeneratedKey(source: string, destination: string, timeNs: nat): string
  {
    source + "_" + destination + "_" + Decimal.ToDecimal(timeNs)
  }

  /**
   * `send`: use the given key or make one up, create its correlation only
   * when it has none, append one packet carrying the key's signature and
   * return the key.
   */
  function Send<P>(t: Tunnel<P>, source: string, destination: string, payload: P, key: Option<string>, clock: Clock): (r: (string, Tunnel<P>))
    ensures key.Some? ==> r.0 == key.value
    ensures key.None? ==> r.0 == GeneratedKey(source, destination, clock.keyTimeNs)
    ensures Get(t.correlations, r.0).Some? ==> r.1.correlations == t.correlations
    ensures Get(t.correlations, r.0).None? ==> r.1.correlations == t.correlations + [(r.0, Signature(clock.timer))]
    ensures Get(r.1.correlations, r.0).Some?
    ensures |r.1.packets| == |t.packets| + 1 && r.1.packets[..|t.packets|] == t.packets
    ensures r.1.packets[|t.packets|] ==
      Packet(source, destination, payload, Get(r.1.correlations, r.0).value, r.0, clock.stampNs)
    ensures r.1.tunnelId == t.tunnelId
  {
    var k := if key.Some? then key.value else GeneratedKey(source, destination, clock.keyTimeNs);
    var t1 := if Get(t.correlations, k).Some? then t else CreateCorrelation(t, k, clock.timer).1;
    var packet := Packet(source, destination, payload, Get(t1.correlations, k).value, k, clock.stampNs);
    (k, t1.(packets := t1.packets + [packet]))
  }

  /** A packet `receive` accepts: addressed to the destination, under the key, with the key's current signature. */
  predicate Deliverable<P>(correlations: Assoc<string, seq<int>>, p: Packet<P>, destination: string, key: string)
  {
    p.destination == destination && p.correlationId == key && Get(correlations, key) == Some(p.noiseSignature)
  }

  /** `receive`: the payload of the first deliverable packet, None when there is none. */
  function Receive<P>(t: Tunnel<P>, destination: string, key: string): (r: Option<P>)
    ensures r.None? <==> forall i :: 0 <= i < |t.packets| ==> !Deliverable(t.correlations, t.packets[i], destination, key)
    ensures r.Some? ==>
      exists i :: 0 <= i < |t.packets| &&
        Deliverable(t.correlations, t.packets[i], destination, key) && r.value == t.packets[i].payload &&
        forall j :: 0 <= j < i ==> !Deliverable(t.correlations, t.packets[j], destination, key)
  {
    FirstDeliverable(t.packets, t.correlations, destination, key)
  }

  function FirstDeliverable<P>(ps: seq<Packet<P>>, correlations: Assoc<string, seq<int>>, destination: string, key: string): (r: Option<P>)
    ensures r.None? <==> forall i :: 0 <= i < |ps| ==> !Deliverable(correlations, ps[i], destination, key)
    ensures r.Some? ==>
      exists i :: 0 <= i < |ps| &&
        Deliverable(correlations, ps[i], destination, key) && r.value == ps[i].payload &&
        forall j :: 0 <= j < i ==> !Deliverable(correlations, ps[j], destination, key)
  {
    if |ps| == 0 then None
    else if Deliverable(correlations, ps[0], destination, key) then Some(ps[0].payload)
    else
      var r := FirstDeliverable(ps[1..], correlations, destination, key);
      assert forall i :: 1 <= i < |ps| ==> ps[i] == ps[1..][i - 1];
      r
  }

  /**
   * Sending and then receiving under the returned key delivers the payload,
   * unless an earlier packet to the same destination already carries that
   * key and its signature.
   */
  lemma SendThenReceive<P>(t: Tunnel<P>, source: string, destination: string, payload: P, key: Option<string>, clock: Clock)
    requires var (k, t') := Send(t, source, destination, payload, key, clock);
      forall i :: 0 <= i < |t.packets| ==> !Deliverable(t'.correlations, t.packets[i], destination, k)
    ensures var (k, t') := Send(t, source, destination, payload, key, clock);
      Receive(t', destination, k) == Some(payload)
  {
    var (k, t') := Send(t, source, destination, payload, key, clock);
    assert forall i :: 0 <= i < |t.packets| ==> t'.packets[i] == t.packets[i];
    assert Deliverable(t'.correlations, t'.packets[|t.packets|], destination, k);
  }

  /** Every buffered packet's key has a correlation: `send` records one before it buffers the packet. */
  predicate Valid<P>(t: Tunnel<P>)
  {
    forall i :: 0 <= i < |t.packets| ==> Get(t.correlations, t.packets[i].correlationId).Some?
  }

  lemma SendValid<P>(t: Tunnel<P>, source: string, destination: string, payload: P, key: Option<string>, clock: Clock)
    requires Valid(t)
    ensures Valid(Send(t, source, destination, payload, key, clock).1)
  {
    var (k, t') := Send(t, source, destination, payload, key, clock);
    forall i | 0 <= i < |t'.packets| ensures Get(t'.correlations, t'.packets[i].correlationId).Some? {
      if i < |t.packets| {
        assert t'.packets[i] == t.packets[i];
      }
    }
  }

  /** In a valid tunnel, a message sent under a key that has no correlation yet is always received. */
  lemma FreshKeyRoundTrip<P>(t: Tunnel<P>, source: string, destination: string, payload: P, key: Option<string>, clock: Clock)
    requires Valid(t)
    requires Get(t.correlations, Send(t, source, destination, payload, key, clock).0).None?
    ensures var (k, t') := Send(t, source, destination, payload, key, clock);
      Receive(t', destination, k) == Some(payload)
  {
    var (k, t') := Send(t, source, destination, payload, key, clock);
    forall i | 0 <= i < |t.packets| ensures !Deliverable(t'.correlations, t.packets[i], destination, k) {
      assert Get(t.correlations, t.packets[i].correlationId).Some?;
    }
    SendThenReceive(t, source, destination, payload, key, clock);
  }

  /** A send under an existing key leaves every correlation as it was, so earlier packets stay deliverable. */
  lemma SendKeepsDeliverable<P>(t: Tunnel<P>, source: string, destination: string, payload: P, key: Option<string>, clock: Clock, d: string, k: string)
    requires Get(t.correlations, Send(t, source, destination, payload, key, clock).0).Some?
    requires Receive(t, d, k).Some?
    ensures Receive(Send(t, source, destination, payload, key, clock).1, d, k) == Receive(t, d, k)
  {
    var t' := Send(t, source, destination, payload, key, clock).1;
    assert forall i :: 0 <= i < |t.packets| ==> t'.packets[i] == t.packets[i];
  }

  datatype TunnelStats = TunnelStats(totalPackets: nat, correlations: nat, tunnelId: string)

  /** `get_tunnel_stats`. */
  function GetTunnelStats<P>(t: Tunnel<P>): (s: TunnelStats)
    ensures s.totalPackets == |t.packets| && s.correlations == |t.correlations| && s.tunnelId == t.tunnelId
  {
    TunnelStats(|t.packets|, |t.correlations|, t.tunnelId)
  }

  /** Each send adds one packet; it adds one correlation exactly when its key had none. */
  lemma SendStats<P>(t: Tunnel<P>, source: string, destination: string, payload: P, key: Option<string>, clock: Clock)
    ensures var (k, t') := Send(t, source, destination, payload, key, clock);
      GetTunnelStats(t').totalPackets == GetTunnelStats(t).totalPackets + 1 &&
      GetTunnelStats(t').correlations == GetTunnelStats(t).correlations + (if Get(t.correlations, k).None? then 1 else 0)
  {
  }

  // ---- QTunnelNetwork ----

  datatype Network<P> = Network(tunnels: Assoc<string, Tunnel<P>>)

  /** `create_tunnel`: a new empty tunnel under the name, replacing any tunnel of that name. */
  function CreateTunnel<P>(net: Network<P>, name: string): (r: (Tunnel<P>, Network<P>))
    ensures r.0 == NewTunnel(name)
    ensures Get(r.1.tunnels, name) == Some(r.0)
    ensures forall n :: n != name ==> Get(r.1.tunnels, n) == Get(net.tunnels, n)
    ensures |r.1.tunnels| == |net.tunnels| + (if Get(net.tunnels, name).None? then 1 else 0)
  {
    var t := NewTunnel(name);
    (t, Network(Put(net.tunnels, name, t)))
  }

  /** `get_tunnel`: None for an unknown name. */
  function GetTunnel<P>(net: Network<P>, name: string): (r: Option<Tunnel<P>>)
    ensures r.None? <==> forall i :: 0 <= i < |net.tunnels| ==> net.tunnels[i].0 != name
    ensures r.Some? ==> exists i :: 0 <= i < |net.tunnels| && net.tunnels[i] == (name, r.value)
  {
    Get(net.tunnels, name)
  }

  /** The tunnel names of `establish_bidirectional`. */
  function ForwardName(a: string, b: string): string
  {
    a + "_to_" + b
  }

  /** `establish_bidirectional`: create the a-to-b tunnel, then the b-to-a tunnel. */
  function EstablishBidirectional<P>(net: Network<P>, a: string, b: string): (r: (Tunnel<P>, Tunnel<P>, Network<P>))
    ensures r.0 == NewTunnel(ForwardName(a, b)) && r.1 == NewTunnel(ForwardName(b, a))
    ensures Get(r.2.tunnels, ForwardName(b, a)) == Some(r.1)
    ensures forall n :: n != ForwardName(a, b) && n != ForwardName(b, a) ==> Get(r.2.tunnels, n) == Get(net.tunnels, n)
  {
    var (ab, net1) := CreateTunnel(net, ForwardName(a, b));
    var (ba, net2) := CreateTunnel(net1, ForwardName(b, a));
    (ab, ba, net2)
  }

  /**
   * Both new tunnels are registered exactly when the two names differ; they
   * coincide for a == b, but also for other pairs, such as "a_to_a" and "a".
   */
  lemma BidirectionalRegistered<P>(net: Network<P>, a: string, b: string)
    ensures var r := EstablishBidirectional(net, a, b);
      (ForwardName(a, b) != ForwardName(b, a) ==> GetTunnel(r.2, ForwardName(a, b)) == Some(r.0)) &&
      GetTunnel(r.2, ForwardName(b, a)) == Some(r.1)
  {
  }

  lemma NamesCollide()
    ensures "a_to_a" != "a" && ForwardName("a_to_a", "a") == ForwardName("a", "a_to_a")
  {
  }
}
