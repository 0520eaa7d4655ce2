/**
 * The hosts and routers of cmd/network/network2: a host sends packets built
 * with the network2 codec and passes received fragments to its reassembly
 * pipeline; a router forwards each input interface to the output interface
 * with the same index, fragmenting packets too large for that interface's MTU.
 */
module Network2 {
  import opened Wrappers
  import opened Interface
  import opened Codec
  import opened Fragmentation
  import opened Reassembly
  import opened ReassemblyProof
  import opened Decimal

  // ---------------------------------------------------------------- Host

  /** `UdtReceive`'s test: a packet with an offset or with MF set is a fragment. */
  predicate IsFragment(p: NetworkPacket)
  {
    p.header.fragOffset != 0 || p.header.mf != 0
  }

  /**
   * `UdtReceive` needs the head of the in-queue, if any, to decode: a
   * shorter string makes `FromByteS` panic, and a decoding error leaves a
   * nil packet that the fragment test dereferences.
   */
  predicate Receivable(s: IfaceState, draw: RandomId)
  {
    |s.queue| > 0 ==> |s.queue[0]| >= HeaderLength && FromByteS(s.queue[0], draw).Success?
  }

  datatype Receipt = Receipt(pipeline: Pipeline, received: seq<string>)

  /**
   * What `UdtReceive` does with the head of the in-queue: a fragment goes
   * into `fragChan`; a whole packet is printed as received (here: logged).
   */
  function AfterReceive(s: IfaceState, pipeline: Pipeline, received: seq<string>, draw: RandomId): Receipt
    requires Receivable(s, draw)
  {
    if |s.queue| == 0 then Receipt(pipeline, received)
    else
      var p := FromByteS(s.queue[0], draw).value;
      if IsFragment(p) then Receipt(Arrive(pipeline, p), received)
      else Receipt(pipeline, received + [s.queue[0]])
  }

  class Host {
    const addr: int
    const inInterfaceL: seq<NetworkInterface>
    const outInterfaceL: seq<NetworkInterface>
    var pipeline: Pipeline      // the fragHandler, storageHandler and orderer goroutines
    var received: seq<string>   // whole packets printed as received

    predicate Valid()
      reads this
    {
      |inInterfaceL| == 1 && |outInterfaceL| == 1 && Distinct(inInterfaceL, outInterfaceL)
    }

    /** `NewHost(addr, maxQSize)`: one fresh, empty interface on each side. */
    constructor (addr: int, maxQSize: int)
      ensures Valid() && this.addr == addr
      ensures fresh(inInterfaceL[0]) && fresh(outInterfaceL[0])
      ensures inInterfaceL[0].St() == NewState(maxQSize) && outInterfaceL[0].St() == NewState(maxQSize)
      ensures pipeline == Idle && received == []
    {
      var i := new NetworkInterface(maxQSize);
      var o := new NetworkInterface(maxQSize);
      this.addr := addr;
      inInterfaceL := [i];
      outInterfaceL := [o];
      pipeline := Idle;
      received := [];
    }

    /** `UdtSend`: one non-blocking put of the encoded packet on the out interface; a full queue drops it. */
    method UdtSend(dstAddr: int, dataS: string, draw: RandomId)
      requires Valid()
      modifies outInterfaceL[0]
      ensures outInterfaceL[0].St()
           == AfterPut(old(outInterfaceL[0].St()), ToByteS(NewNetworkPacket(dstAddr, addr, dataS, draw)))
    {
      var p := NewNetworkPacket(dstAddr, addr, dataS, draw);
      var err := outInterfaceL[0].Put(ToByteS(p));
    }

    /** `UdtReceive`: takes the head of the in-queue, if any, and classifies it. */
    method UdtReceive(draw: RandomId)
      requires Valid() && Receivable(inInterfaceL[0].St(), draw)
      modifies this, inInterfaceL[0]
      ensures inInterfaceL[0].St() == AfterGet(old(inInterfaceL[0].St()))
      ensures Receipt(pipeline, received) == AfterReceive(old(inInterfaceL[0].St()), old(pipeline), old(received), draw)
    {
      var pktS := inInterfaceL[0].Get();
      if pktS.Success? {
        var p := FromByteS(pktS.value, draw).value;
        if p.header.fragOffset != 0 || p.header.mf != 0 {
          pipeline := Arrive(pipeline, p);
          return;
        }
        received := received + [pktS.value];
      }
    }

    /** The reassembly goroutines run, at most `fuel` steps, until every channel is empty. */
    method RunHandlers(fuel: nat)
      modifies this
      ensures pipeline == Run(old(pipeline), fuel) && received == old(received)
    {
      var f: nat := fuel;
      while f > 0 && !Quiet(pipeline)
        invariant f <= fuel
        invariant Run(pipeline, f) == Run(old(pipeline), fuel) && received == old(received)
        decreases f
      {
        pipeline := Step(pipeline);
        f := f - 1;
      }
    }
  }

  // ---------------------------------------------------------------- Router

  /**
   * What `forward` needs of a decoded head packet: when it is too large for
   * the out MTU and has a payload, an MTU above 30 (else `fragment` panics
   * or never ends).
   */
  predicate Fragmentable(outS: IfaceState, d: Result<NetworkPacket, DecodeError>)
  {
    d.Success? && outS.mtu < d.value.header.length + HeaderLength
    ==> outS.mtu > HeaderLength || |d.value.dataS| == 0
  }

  /** What `forward` needs of one interface pair: a head of at least 30 characters (else `FromByteS` panics). */
  predicate HeadOk(inS: IfaceState, outS: IfaceState, draw: RandomId)
  {
    |inS.queue| > 0 ==> |inS.queue[0]| >= HeaderLength && Fragmentable(outS, FromByteS(inS.queue[0], draw))
  }

  /**
   * What `forward` from interface `i` on needs: a good head on interface
   * `i` and, unless that one fragments (after which `forward` returns), on
   * the interfaces the rest of the pass reaches.
   */
  predicate Forwardable(ps: Ports, i: nat, draw: RandomId)
    decreases |ps.ins| - i
  {
    |ps.ins| == |ps.outs| && i <= |ps.ins|
    && (i < |ps.ins| ==>
          HeadOk(ps.ins[i], ps.outs[i], draw)
          && var pr := ForwardPort(ps.ins[i], ps.outs[i], draw);
             (!pr.stop ==> Forwardable(Ports(ps.ins[i := pr.inS], ps.outs[i := pr.outS]), i + 1, draw)))
  }

  /** Every interface from `i` up to, not including, `j` has a good head and does not fragment. */
  predicate NoStopBetween(ps: Ports, i: nat, j: nat, draw: RandomId)
    requires |ps.ins| == |ps.outs| && j <= |ps.ins|
  {
    forall k :: i <= k < j ==> HeadOk(ps.ins[k], ps.outs[k], draw) && !ForwardPort(ps.ins[k], ps.outs[k], draw).stop
  }

  /** The wire strings of a list of packets. */
  function Encodings(fs: seq<NetworkPacket>): seq<string>
  {
    seq(|fs|, i requires 0 <= i < |fs| => ToByteS(fs[i]))
  }

  datatype Sent = Sent(outS: IfaceState, stop: bool)

  /**
   * What `forward` does with a decoded head packet: a decoding error sends
   * nothing; a packet within the MTU is re-encoded onto the out interface;
   * a larger one is cut into fragments put there one by one, after which
   * `forward` returns.
   */
  function Dispatch(outS: IfaceState, d: Result<NetworkPacket, DecodeError>, draw: RandomId): Sent
    requires Fragmentable(outS, d)
  {
    match d
    case Failure(_) => Sent(outS, false)
    case Success(p) =>
      if outS.mtu < p.header.length + HeaderLength
      then Sent(AfterPuts(outS, Encodings(FragmentSpec(outS.mtu, p, draw))), true)
      else Sent(AfterPut(outS, ToByteS(p)), false)
  }

  datatype PortResult = PortResult(inS: IfaceState, outS: IfaceState, stop: bool)

  /** One iteration of `forward`'s loop over interface `i`: take the head packet, if any, and dispatch it. */
  function ForwardPort(inS: IfaceState, outS: IfaceState, draw: RandomId): PortResult
    requires HeadOk(inS, outS, draw)
  {
    if |inS.queue| == 0 then PortResult(inS, outS, false)
    else
      var sent := Dispatch(outS, FromByteS(inS.queue[0], draw), draw);
      PortResult(AfterGet(inS), sent.outS, sent.stop)
  }

  /** `forward` from interface `i` on. */
  function ForwardFrom(ps: Ports, i: nat, draw: RandomId): (r: Ports)
    requires Forwardable(ps, i, draw)
    ensures |r.ins| == |ps.ins| && |r.outs| == |ps.outs|
    decreases |ps.ins| - i
  {
    if i == |ps.ins| then ps
    else
      var pr := ForwardPort(ps.ins[i], ps.outs[i], draw);
      var next := Ports(ps.ins[i := pr.inS], ps.outs[i := pr.outS]);
      if pr.stop then next else ForwardFrom(next, i + 1, draw)
  }

  /** One iteration of `forward`'s loop, then the rest. */
  lemma ForwardFromUnfold(ps: Ports, i: nat, draw: RandomId)
    requires Forwardable(ps, i, draw) && i < |ps.ins|
    ensures HeadOk(ps.ins[i], ps.outs[i], draw)
    ensures var pr := ForwardPort(ps.ins[i], ps.outs[i], draw);
            var next := Ports(ps.ins[i := pr.inS], ps.outs[i := pr.outS]);
            (!pr.stop ==> Forwardable(next, i + 1, draw))
            && ForwardFrom(ps, i, draw) == if pr.stop then next else ForwardFrom(next, i + 1, draw)
  {
  }

  class Router {
    const name: string
    const inInterfaceL: seq<NetworkInterface>
    const outInterfaceL: seq<NetworkInterface>

    predicate Valid()
      reads this
    {
      |inInterfaceL| == |outInterfaceL| && Distinct(inInterfaceL, outInterfaceL)
    }

    function Snapshot(): Ports
      reads this, inInterfaceL, outInterfaceL
    {
      Ports(States(inInterfaceL), States(outInterfaceL))
    }

    /** `NewRouter(name, interfaceCount, maxQueSize)`: that many fresh, empty interface pairs. */
    constructor (name: string, interfaceCount: int, maxQueSize: int)
      requires interfaceCount >= 0
      ensures Valid() && this.name == name && |inInterfaceL| == interfaceCount
      ensures forall j :: 0 <= j < interfaceCount ==> fresh(inInterfaceL[j]) && fresh(outInterfaceL[j])
      ensures forall j :: 0 <= j < interfaceCount ==>
                inInterfaceL[j].St() == NewState(maxQueSize) && outInterfaceL[j].St() == NewState(maxQueSize)
    {
      var ins: seq<NetworkInterface> := [];
      var outs: seq<NetworkInterface> := [];
      var i := 0;
      while i < interfaceCount
        invariant 0 <= i <= interfaceCount && |ins| == i && |outs| == i
        invariant forall j :: 0 <= j < i ==> fresh(ins[j]) && fresh(outs[j])
        invariant forall j :: 0 <= j < i ==> ins[j].St() == NewState(maxQueSize) && outs[j].St() == NewState(maxQueSize)
        invariant Distinct(ins, outs)
      {
        var a := new NetworkInterface(maxQueSize);
        var b := new NetworkInterface(maxQueSize);
        ins := ins + [a];
        outs := outs + [b];
        i := i + 1;
      }
      this.name := name;
      inInterfaceL := ins;
      outInterfaceL := outs;
    }

    /** One pass of `forward` over the interfaces, in index order. */
    method Forward(draw: RandomId)
      requires Valid() && Forwardable(Snapshot(), 0, draw)
      modifies inInterfaceL, outInterfaceL
      ensures Snapshot() == ForwardFrom(old(Snapshot()), 0, draw)
    {
      var i := 0;
      while i < |inInterfaceL|
        invariant 0 <= i <= |inInterfaceL|
        invariant Forwardable(Snapshot(), i, draw)
        invariant ForwardFrom(Snapshot(), i, draw) == ForwardFrom(old(Snapshot()), 0, draw)
      {
        ghost var before := Snapshot();
        var stop := ForwardOne(i, draw);
        ForwardFromUnfold(before, i, draw);
        if stop {
          return;
        }
        i := i + 1;
      }
    }

    /** The body of `forward`'s loop for interface `i`: only that interface pair moves, by `ForwardPort`. */
    method ForwardOne(i: int, draw: RandomId) returns (stop: bool)
      requires Valid() && 0 <= i < |inInterfaceL|
      requires HeadOk(inInterfaceL[i].St(), outInterfaceL[i].St(), draw)
      modifies inInterfaceL[i], outInterfaceL[i]
      ensures var pr := ForwardPort(old(Snapshot()).ins[i], old(Snapshot()).outs[i], draw);
              Snapshot() == Ports(old(Snapshot()).ins[i := pr.inS], old(Snapshot()).outs[i := pr.outS])
              && stop == pr.stop
    {
      ghost var before := Snapshot();
      stop := ForwardPair(inInterfaceL[i], outInterfaceL[i], draw);
      ghost var pr := ForwardPort(before.ins[i], before.outs[i], draw);
      StatesAfterStep(inInterfaceL, before.ins, i, pr.inS);
      StatesAfterStep(outInterfaceL, before.outs, i, pr.outS);
    }

    /** `forward`'s work on one interface pair. */
    method ForwardPair(inI: NetworkInterface, outI: NetworkInterface, draw: RandomId) returns (stop: bool)
      requires inI != outI && HeadOk(inI.St(), outI.St(), draw)
      modifies inI, outI
      ensures PortResult(inI.St(), outI.St(), stop) == ForwardPort(old(inI.St()), old(outI.St()), draw)
    {
      var pktS := inI.Get();
      if pktS.Failure? {
        return false;
      }
      stop := Send(outI, FromByteS(pktS.value, draw), draw);
    }

    /** Dispatches one decoded packet onto `o`. */
    method Send(o: NetworkInterface, d: Result<NetworkPacket, DecodeError>, draw: RandomId) returns (stop: bool)
      requires Fragmentable(o.St(), d)
      modifies o
      ensures Sent(o.St(), stop) == Dispatch(old(o.St()), d, draw)
    {
      if d.Failure? {
        return false;   // "Could not get packet"
      }
      var p := d.value;
      if o.mtu < p.header.length + HeaderLength {
        var packetFrags := Fragment(o.mtu, p, draw);
        var wire := Encodings(packetFrags);
        var k := 0;
        while k < |packetFrags|
          invariant 0 <= k <= |packetFrags|
          invariant o.St() == AfterPuts(old(o.St()), wire[..k])
        {
          var err := o.Put(wire[k]);   // packetFrags[k].ToByteS()
          AfterPutsSnoc(old(o.St()), wire, k);
          k := k + 1;
        }
        assert wire[..k] == wire;
        return true;
      }
      var err := o.Put(ToByteS(p));
      return false;
    }
  }

  // ---------------------------------------------------------------- Properties

  /** What `UdtSend` puts on the wire decodes back to the packet it built, whatever the receiver's draw. */
  lemma SentPacketDecodes(dstAddr: int, srcAddr: int, dataS: string, draw: RandomId, rdraw: RandomId)
    requires FitsField(dstAddr) && FitsField(srcAddr) && |dataS| <= 99999 && draw != 0
    ensures FromByteS(ToByteS(NewNetworkPacket(dstAddr, srcAddr, dataS, draw)), rdraw)
         == Success(NewNetworkPacket(dstAddr, srcAddr, dataS, draw))
  {
    PacketRoundTripExact(NewNetworkPacket(dstAddr, srcAddr, dataS, draw), rdraw);
  }

  /**
   * `UdtReceive`'s test sorts `fragment`'s output correctly: a payload too
   * large for the MTU gives two or more pieces, every one a fragment; a
   * payload that fits gives one piece, which is not.
   */
  lemma FragmentsAreClassified(maxLength: int, p: NetworkPacket, draw: RandomId)
    requires maxLength > HeaderLength && |p.dataS| > 0
    ensures |p.dataS| > maxLength - HeaderLength <==> |FragmentSpec(maxLength, p, draw)| >= 2
    ensures |p.dataS| > maxLength - HeaderLength
            ==> forall i :: 0 <= i < |FragmentSpec(maxLength, p, draw)| ==> IsFragment(FragmentSpec(maxLength, p, draw)[i])
    ensures |p.dataS| <= maxLength - HeaderLength
            ==> |FragmentSpec(maxLength, p, draw)| == 1 && !IsFragment(FragmentSpec(maxLength, p, draw)[0])
  {
    var fs := FragmentSpec(maxLength, p, draw);
    var chunk := maxLength - HeaderLength;
    FragmentSpecIsChain(maxLength, p, draw);
    var n := |fs|;
    if n >= 2 {
      assert (n - 1) * chunk >= chunk;
      forall i | 0 <= i < n
        ensures IsFragment(fs[i])
      {
        if i == 0 {
          assert fs[0].header.mf == 1;
        } else {
          OffsetPositive(fs, i);
        }
      }
    } else {
      assert n == 1;
      assert Last(fs) == fs[0];
    }
  }

  /** `forward` from interface `i` on leaves the interfaces before `i` alone. */
  lemma {:induction false} ForwardFromBefore(ps: Ports, i: nat, draw: RandomId)
    requires Forwardable(ps, i, draw)
    ensures forall j :: 0 <= j < i ==>
              ForwardFrom(ps, i, draw).ins[j] == ps.ins[j] && ForwardFrom(ps, i, draw).outs[j] == ps.outs[j]
    decreases |ps.ins| - i
  {
    if i < |ps.ins| {
      ForwardFromUnfold(ps, i, draw);
      var pr := ForwardPort(ps.ins[i], ps.outs[i], draw);
      var next := Ports(ps.ins[i := pr.inS], ps.outs[i := pr.outS]);
      if !pr.stop {
        ForwardFromBefore(next, i + 1, draw);
      }
    }
  }

  /** Each interface from `i` up to and including the first that fragments takes one port step. */
  lemma {:induction false} ForwardFromVisited(ps: Ports, i: nat, draw: RandomId)
    requires Forwardable(ps, i, draw)
    ensures forall j :: i <= j < |ps.ins| && NoStopBetween(ps, i, j, draw) ==>
              HeadOk(ps.ins[j], ps.outs[j], draw)
              && ForwardFrom(ps, i, draw).ins[j] == ForwardPort(ps.ins[j], ps.outs[j], draw).inS
              && ForwardFrom(ps, i, draw).outs[j] == ForwardPort(ps.ins[j], ps.outs[j], draw).outS
    decreases |ps.ins| - i
  {
    if i < |ps.ins| {
      ForwardFromUnfold(ps, i, draw);
      var pr := ForwardPort(ps.ins[i], ps.outs[i], draw);
      var next := Ports(ps.ins[i := pr.inS], ps.outs[i := pr.outS]);
      if pr.stop {
        StopBlocks(ps, i, draw);
      } else {
        ForwardFromVisited(next, i + 1, draw);
        ForwardFromBefore(next, i + 1, draw);
        NoStopShift(ps, i, draw);
      }
    }
  }

  /** Every interface after the first that fragments is left alone. */
  lemma {:induction false} ForwardFromSkipped(ps: Ports, i: nat, draw: RandomId)
    requires Forwardable(ps, i, draw)
    ensures forall j :: i <= j < |ps.ins| && !NoStopBetween(ps, i, j, draw) ==>
              ForwardFrom(ps, i, draw).ins[j] == ps.ins[j] && ForwardFrom(ps, i, draw).outs[j] == ps.outs[j]
    decreases |ps.ins| - i
  {
    if i < |ps.ins| {
      ForwardFromUnfold(ps, i, draw);
      var pr := ForwardPort(ps.ins[i], ps.outs[i], draw);
      var next := Ports(ps.ins[i := pr.inS], ps.outs[i := pr.outS]);
      assert NoStopBetween(ps, i, i, draw);
      if !pr.stop {
        ForwardFromSkipped(next, i + 1, draw);
        NoStopShift(ps, i, draw);
      }
    }
  }

  /**
   * `Forwardable` asks exactly for a good head on every interface the pass
   * reaches: each one from `i` up to and including the first that fragments.
   */
  lemma {:induction false} ForwardableReached(ps: Ports, i: nat, draw: RandomId)
    requires |ps.ins| == |ps.outs| && i <= |ps.ins|
    ensures Forwardable(ps, i, draw)
            <==> forall j :: i <= j < |ps.ins| && NoStopBetween(ps, i, j, draw) ==> HeadOk(ps.ins[j], ps.outs[j], draw)
    decreases |ps.ins| - i
  {
    if i < |ps.ins| {
      assert NoStopBetween(ps, i, i, draw);
      if HeadOk(ps.ins[i], ps.outs[i], draw) {
        var pr := ForwardPort(ps.ins[i], ps.outs[i], draw);
        var next := Ports(ps.ins[i := pr.inS], ps.outs[i := pr.outS]);
        if pr.stop {
          StopBlocks(ps, i, draw);
        } else {
          ForwardableReached(next, i + 1, draw);
          NoStopShift(ps, i, draw);
          assert forall k :: i + 1 <= k < |ps.ins| ==> next.ins[k] == ps.ins[k] && next.outs[k] == ps.outs[k];
        }
      }
    }
  }

  lemma StopBlocks(ps: Ports, i: nat, draw: RandomId)
    requires |ps.ins| == |ps.outs| && i < |ps.ins|
    requires HeadOk(ps.ins[i], ps.outs[i], draw) && ForwardPort(ps.ins[i], ps.outs[i], draw).stop
    ensures forall j :: i < j <= |ps.ins| ==> !NoStopBetween(ps, i, j, draw)
  {
  }

  /** Past a port that does not fragment, "no port fragments before `j`" means the same from either start. */
  lemma NoStopShift(ps: Ports, i: nat, draw: RandomId)
    requires |ps.ins| == |ps.outs| && i < |ps.ins|
    requires HeadOk(ps.ins[i], ps.outs[i], draw) && !ForwardPort(ps.ins[i], ps.outs[i], draw).stop
    ensures var pr := ForwardPort(ps.ins[i], ps.outs[i], draw);
            var next := Ports(ps.ins[i := pr.inS], ps.outs[i := pr.outS]);
            forall j :: i + 1 <= j <= |ps.ins| ==> (NoStopBetween(next, i + 1, j, draw) <==> NoStopBetween(ps, i, j, draw))
  {
    var pr := ForwardPort(ps.ins[i], ps.outs[i], draw);
    var next := Ports(ps.ins[i := pr.inS], ps.outs[i := pr.outS]);
    assert forall k :: i + 1 <= k < |ps.ins| ==> next.ins[k] == ps.ins[k] && next.outs[k] == ps.outs[k];
    forall j | i + 1 <= j <= |ps.ins|
      ensures NoStopBetween(next, i + 1, j, draw) <==> NoStopBetween(ps, i, j, draw)
    {
    }
  }

  /**
   * Every packet `forward` puts on an out interface fits its MTU, and what
   * was queued there before stays in front: fragments fit by construction,
   * and a packet is sent whole only when header and payload fit.
   */
  lemma DispatchFitsMtu(outS: IfaceState, d: Result<NetworkPacket, DecodeError>, draw: RandomId)
    requires Fragmentable(outS, d)
    requires d.Success? ==> HeaderFits(d.value.header) && d.value.header.length == |d.value.dataS|
    ensures Dispatch(outS, d, draw).outS.mtu == outS.mtu && Dispatch(outS, d, draw).outS.maxQueSize == outS.maxQueSize
    ensures outS.queue <= Dispatch(outS, d, draw).outS.queue
    ensures forall j :: |outS.queue| <= j < |Dispatch(outS, d, draw).outS.queue| ==>
              |Dispatch(outS, d, draw).outS.queue[j]| <= outS.mtu
  {
    if d.Success? {
      var p := d.value;
      if outS.mtu < p.header.length + HeaderLength {
        FragmentedFitMtu(outS, p, draw);
      } else {
        EncodeHeaderLayout(p.header);
      }
    }
  }

  /** The fragments of a packet too large for the MTU are put behind the queue, and each fits. */
  lemma FragmentedFitMtu(outS: IfaceState, p: NetworkPacket, draw: RandomId)
    requires outS.mtu > HeaderLength || |p.dataS| == 0
    requires HeaderFits(p.header) && p.header.length == |p.dataS|
    ensures var r := AfterPuts(outS, Encodings(FragmentSpec(outS.mtu, p, draw)));
            r.mtu == outS.mtu && r.maxQueSize == outS.maxQueSize && outS.queue <= r.queue
            && forall j :: |outS.queue| <= j < |r.queue| ==> |r.queue[j]| <= outS.mtu
  {
    var wire := Encodings(FragmentSpec(outS.mtu, p, draw));
    FragmentsFitMtu(outS.mtu, p, draw);
    assert forall k :: 0 <= k < |wire| ==> |wire[k]| <= outS.mtu;
    PutsWithinBound(outS, wire, outS.mtu);
  }

  /** Strings of at most `bound` characters, put one by one, leave only such strings behind the old queue. */
  lemma PutsWithinBound(s: IfaceState, pkts: seq<string>, bound: int)
    requires forall k :: 0 <= k < |pkts| ==> |pkts[k]| <= bound
    ensures AfterPuts(s, pkts).mtu == s.mtu && AfterPuts(s, pkts).maxQueSize == s.maxQueSize
    ensures s.queue <= AfterPuts(s, pkts).queue
    ensures forall j :: |s.queue| <= j < |AfterPuts(s, pkts).queue| ==> |AfterPuts(s, pkts).queue[j]| <= bound
  {
    PutAllKeepsPrefix(s, pkts);
    var r := AfterPuts(s, pkts);
    forall j | |s.queue| <= j < |r.queue|
      ensures |r.queue[j]| <= bound
    {
      assert r.queue[j] == pkts[j - |s.queue|];
    }
  }

  /** `forward` passes a well-formed packet that fits the out MTU on unchanged, when there is room for it. */
  lemma ForwardsVerbatim(inS: IfaceState, outS: IfaceState, p: NetworkPacket, draw: RandomId)
    requires |inS.queue| > 0 && inS.queue[0] == ToByteS(p) && WellFormed(p)
    requires p.header.length + HeaderLength <= outS.mtu && HasRoom(outS)
    ensures HeadOk(inS, outS, draw)
    ensures ForwardPort(inS, outS, draw)
         == PortResult(AfterGet(inS), outS.(queue := outS.queue + [inS.queue[0]]), false)
  {
    PacketRoundTrip(p, draw);
    PacketRoundTripExact(p, draw);
  }

  /** Each fragment has a non-empty payload, so there are at most as many fragments as payload characters. */
  lemma FragmentCountAtMost(maxLength: int, p: NetworkPacket, draw: RandomId)
    requires maxLength > HeaderLength && |p.dataS| > 0
    ensures |FragmentSpec(maxLength, p, draw)| <= |p.dataS|
  {
    var n := |FragmentSpec(maxLength, p, draw)|;
    var chunk := maxLength - HeaderLength;
    FragmentSpecIsChain(maxLength, p, draw);
    AtLeastOnce(n - 1, chunk);
  }

  lemma AtLeastOnce(a: int, b: int)
    requires a >= 0 && b >= 1
    ensures a * b >= a
  {
  }

  /**
   * A packet a router had to fragment, whose pieces reach a host's pipeline
   * in any order, is reassembled into its original payload: every piece
   * passes `UdtReceive`'s fragment test, the orderer hands `reAssemble`
   * exactly the chain `fragment` built, and that yields the payload.
   */
  lemma RoutedPacketReassembled(maxLength: int, p: NetworkPacket, draw: RandomId, rdraw: RandomId,
                                order: seq<int>, s0: Pipeline, fuel: nat)
    requires maxLength > HeaderLength && |p.dataS| > maxLength - HeaderLength
    requires HeaderFits(p.header) && |p.dataS| <= 99999 && p.header.id != 0
    requires IsPermutation(order, |FragmentSpec(maxLength, p, draw)|)
    requires Quiet(s0) && Fresh(s0, p.header.id)
    requires fuel >= 2 * |p.dataS| + 2
    ensures forall i :: 0 <= i < |FragmentSpec(maxLength, p, draw)| ==> IsFragment(FragmentSpec(maxLength, p, draw)[i])
    ensures forall i :: 0 <= i < |FragmentSpec(maxLength, p, draw)| ==>
              HeaderLength <= |ToByteS(FragmentSpec(maxLength, p, draw)[i])| <= maxLength
              && FromByteS(ToByteS(FragmentSpec(maxLength, p, draw)[i]), rdraw) == Success(FragmentSpec(maxLength, p, draw)[i])
    ensures Deliver(s0, Reorder(FragmentSpec(maxLength, p, draw), order), fuel).reassembled
         == s0.reassembled + [FragmentSpec(maxLength, p, draw)]
    ensures ReAssembled(FragmentSpec(maxLength, p, draw)) == p.dataS
  {
    var fs := FragmentSpec(maxLength, p, draw);
    FragmentsAreClassified(maxLength, p, draw);
    FragmentCountAtMost(maxLength, p, draw);
    FragmentSpecIsChain(maxLength, p, draw);
    assert Shaped(fs[0], maxLength - HeaderLength, p.header, draw, 0, |p.dataS|);
    ReassemblyInAnyOrder(s0, fs, order, fuel);
    FragmentsFitMtu(maxLength, p, draw);
    ReAssembledPayloads(fs);
    assert Payloads(fs) == p.dataS;
    FragmentsSurviveWire(maxLength, p, draw, rdraw);
  }

  /**
   * Every fragment of a packet with a non-zero ID goes over the out link and
   * comes back from the host's `FromByteS` unchanged, whatever its draw.
   */
  lemma FragmentsSurviveWire(maxLength: int, p: NetworkPacket, draw: RandomId, rdraw: RandomId)
    requires maxLength > HeaderLength && |p.dataS| > 0
    requires HeaderFits(p.header) && |p.dataS| <= 99999 && p.header.id != 0
    ensures forall i :: 0 <= i < |FragmentSpec(maxLength, p, draw)| ==>
              HeaderLength <= |ToByteS(FragmentSpec(maxLength, p, draw)[i])| <= maxLength
              && FromByteS(ToByteS(FragmentSpec(maxLength, p, draw)[i]), rdraw) == Success(FragmentSpec(maxLength, p, draw)[i])
  {
    forall i | 0 <= i < |FragmentSpec(maxLength, p, draw)|
      ensures HeaderLength <= |ToByteS(FragmentSpec(maxLength, p, draw)[i])| <= maxLength
              && FromByteS(ToByteS(FragmentSpec(maxLength, p, draw)[i]), rdraw) == Success(FragmentSpec(maxLength, p, draw)[i])
    {
      FragmentOnWire(maxLength, p, draw, rdraw, i);
    }
  }

  lemma FragmentOnWire(maxLength: int, p: NetworkPacket, draw: RandomId, rdraw: RandomId, i: int)
    requires maxLength > HeaderLength && |p.dataS| > 0
    requires HeaderFits(p.header) && |p.dataS| <= 99999 && p.header.id != 0
    requires 0 <= i < |FragmentSpec(maxLength, p, draw)|
    ensures HeaderLength <= |ToByteS(FragmentSpec(maxLength, p, draw)[i])| <= maxLength
            && FromByteS(ToByteS(FragmentSpec(maxLength, p, draw)[i]), rdraw) == Success(FragmentSpec(maxLength, p, draw)[i])
  {
    var f := FragmentSpec(maxLength, p, draw)[i];
    FragmentWellFormed(maxLength, p, draw, i);
    FragmentsFitMtu(maxLength, p, draw);
    WellFormedOnWire(f, rdraw);
  }

  lemma FragmentWellFormed(maxLength: int, p: NetworkPacket, draw: RandomId, i: int)
    requires maxLength > HeaderLength && |p.dataS| > 0
    requires HeaderFits(p.header) && |p.dataS| <= 99999 && p.header.id != 0
    requires 0 <= i < |FragmentSpec(maxLength, p, draw)|
    ensures WellFormed(FragmentSpec(maxLength, p, draw)[i])
  {
    var chunk := maxLength - HeaderLength;
    FragmentsShape(chunk, p.header, p.dataS, 0, draw);
    FragmentsMfRange(chunk, p.header, p.dataS, 0, draw);
    FragmentsFitMtu(maxLength, p, draw);
    assert Shaped(FragmentSpec(maxLength, p, draw)[i], chunk, p.header, draw, 0, |p.dataS|);
  }

  lemma WellFormedOnWire(f: NetworkPacket, rdraw: RandomId)
    requires WellFormed(f)
    ensures HeaderLength <= |ToByteS(f)| && FromByteS(ToByteS(f), rdraw) == Success(f)
  {
    PacketRoundTrip(f, rdraw);
    PacketRoundTripExact(f, rdraw);
  }
}
