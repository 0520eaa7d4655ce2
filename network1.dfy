/**
 * cmd/network/network: the first network layer, without fragmentation. A
 * packet is its destination address, zero-padded to `dstAddrStrLength`
 * characters, followed by the payload; a router moves the head packet of
 * each input interface to the output interface with the same index.
 * The interfaces are the same `NetworkInterface` as in network2.
 */
module Network1 {
  import opened Wrappers
  import opened Decimal
  import opened Interface

  /** The package-level `dstAddrStrLength`. */
  const DstAddrStrLength := 5

  datatype NetworkPacket = NetworkPacket(dstAddr: int, dataS: string, dstAddrStrLength: int)

  function NewNetworkPacket(dstAddr: int, dataS: string): NetworkPacket
  {
    NetworkPacket(dstAddr, dataS, DstAddrStrLength)
  }

  /** `%0*s%s`: the address, zero-padded to the packet's width, then the payload. */
  function ToByteS(p: NetworkPacket): string
  {
    PadZero(Itoa(p.dstAddr), p.dstAddrStrLength) + p.dataS
  }

  /**
   * `FromByteS`: the first five characters must parse as an integer (else
   * the `strconv.Atoi` error); the rest is the payload. A string shorter
   * than five characters makes the source panic on the slice.
   */
  function FromByteS(byteS: string): (r: Result<NetworkPacket, NumError>)
    requires |byteS| >= DstAddrStrLength
    ensures r.Failure? <==> Atoi(byteS[..DstAddrStrLength]).Failure?
    ensures r.Success? ==> r.value.dataS == byteS[DstAddrStrLength..]
                           && r.value.dstAddrStrLength == DstAddrStrLength
                           && Atoi(byteS[..DstAddrStrLength]) == Success(r.value.dstAddr)
  {
    var dstAddr :- Atoi(byteS[..DstAddrStrLength]);
    Success(NewNetworkPacket(dstAddr, byteS[DstAddrStrLength..]))
  }

  /** A packet built by `NewNetworkPacket` for an address of at most five digits survives the wire unchanged. */
  lemma PacketRoundTrip(dstAddr: int, dataS: string)
    requires FitsField(dstAddr)
    ensures |ToByteS(NewNetworkPacket(dstAddr, dataS))| == DstAddrStrLength + |dataS|
    ensures FromByteS(ToByteS(NewNetworkPacket(dstAddr, dataS))) == Success(NewNetworkPacket(dstAddr, dataS))
  {
    var s := ToByteS(NewNetworkPacket(dstAddr, dataS));
    FieldRoundTrip(dstAddr);
    assert s == Field(dstAddr) + dataS;
    assert s[..DstAddrStrLength] == Field(dstAddr);
    assert s[DstAddrStrLength..] == dataS;
  }

  /**
   * An address from -999 to -1 is padded with zeros in front of its minus
   * sign ("000-1", "0-999"), so the receiver cannot parse it.
   */
  lemma NegativeAddressUnreadable(dstAddr: int, dataS: string)
    requires -999 <= dstAddr <= -1
    ensures |ToByteS(NewNetworkPacket(dstAddr, dataS))| == DstAddrStrLength + |dataS|
    ensures FromByteS(ToByteS(NewNetworkPacket(dstAddr, dataS))) == Failure(SyntaxError)
  {
    var a := Itoa(dstAddr);
    NatDigitsLength(-dstAddr, 3);
    assert Pow10(3) == 1000;
    var f := Zeros(DstAddrStrLength - |a|) + a;
    var s := ToByteS(NewNetworkPacket(dstAddr, dataS));
    assert s == f + dataS;
    assert s[..DstAddrStrLength] == f;
    assert f[0] == '0' && f[DstAddrStrLength - |a|] == '-';
    assert !AllDigits(f);
  }

  /**
   * Exactly the addresses from -9999 to -1000 and from 0 to 99999 survive
   * the wire: a shorter negative one cannot be parsed, and a longer one
   * spills its last digits into the payload.
   */
  lemma RoundTripAddresses(dstAddr: int, dataS: string)
    ensures |ToByteS(NewNetworkPacket(dstAddr, dataS))| >= DstAddrStrLength
    ensures FromByteS(ToByteS(NewNetworkPacket(dstAddr, dataS))) == Success(NewNetworkPacket(dstAddr, dataS))
            <==> -9999 <= dstAddr <= -1000 || 0 <= dstAddr <= 99999
  {
    var s := ToByteS(NewNetworkPacket(dstAddr, dataS));
    assert s == Field(dstAddr) + dataS;
    FieldAtLeastFive(dstAddr);
    ItoaWidth(dstAddr);
    if 0 <= dstAddr {
      if dstAddr <= 99999 {
        PacketRoundTrip(dstAddr, dataS);
      } else {
        LongAddressSpills(dstAddr, dataS);
      }
    } else if dstAddr <= -10000 {
      LongAddressSpills(dstAddr, dataS);
    } else if dstAddr <= -1000 {
      ItoaRoundTrip(dstAddr);
      assert s[..DstAddrStrLength] == Itoa(dstAddr) && s[DstAddrStrLength..] == dataS;
    } else {
      NegativeAddressUnreadable(dstAddr, dataS);
    }
  }

  /** An address of six or more characters leaves part of itself in the decoded payload. */
  lemma LongAddressSpills(dstAddr: int, dataS: string)
    requires |Itoa(dstAddr)| > DstAddrStrLength
    ensures |ToByteS(NewNetworkPacket(dstAddr, dataS))| > DstAddrStrLength + |dataS|
    ensures FromByteS(ToByteS(NewNetworkPacket(dstAddr, dataS))) != Success(NewNetworkPacket(dstAddr, dataS))
  {
    var s := ToByteS(NewNetworkPacket(dstAddr, dataS));
    assert s == Itoa(dstAddr) + dataS;
    var r := FromByteS(s);
    if r.Success? {
      assert |r.value.dataS| > |dataS|;
    }
  }

  // ---------------------------------------------------------------- Host

  class Host {
    const addr: int
    const inInterfaceL: seq<NetworkInterface>
    const outInterfaceL: seq<NetworkInterface>
    var received: seq<string>   // packets printed as received

    predicate Valid()
      reads this
    {
      |inInterfaceL| == 1 && |outInterfaceL| == 1 && Distinct(inInterfaceL, outInterfaceL)
    }

    /** `NewHost(addr, maxQSize)`: one fresh, empty interface on each side. */
    constructor (addr: int, maxQSize: int)
      ensures Valid() && this.addr == addr
      ensures fresh(inInterfaceL[0]) && fresh(outInterfaceL[0])
      ensures inInterfaceL[0].St() == NewState(maxQSize) && outInterfaceL[0].St() == NewState(maxQSize)
      ensures received == []
    {
      var i := new NetworkInterface(maxQSize);
      var o := new NetworkInterface(maxQSize);
      this.addr := addr;
      inInterfaceL := [i];
      outInterfaceL := [o];
      received := [];
    }

    /** `UdtSend`: exactly one non-blocking put of the encoded packet; a full queue drops it. */
    method UdtSend(dstAddr: int, dataS: string)
      requires Valid()
      modifies outInterfaceL[0]
      ensures outInterfaceL[0].St() == AfterPut(old(outInterfaceL[0].St()), ToByteS(NewNetworkPacket(dstAddr, dataS)))
    {
      var p := NewNetworkPacket(dstAddr, dataS);
      var err := outInterfaceL[0].Put(ToByteS(p));
    }

    /** `UdtReceive`: takes the head packet, if any, and prints it as received. */
    method UdtReceive()
      requires Valid()
      modifies this, inInterfaceL[0]
      ensures inInterfaceL[0].St() == AfterGet(old(inInterfaceL[0].St()))
      ensures received == old(received) + (if |old(inInterfaceL[0].queue)| > 0 then [old(inInterfaceL[0].queue)[0]] else [])
    {
      var pktS := inInterfaceL[0].Get();
      if pktS.Success? {
        received := received + [pktS.value];
      }
    }
  }

  // ---------------------------------------------------------------- Router

  /** What `forward` needs of one input interface: a head of at least five characters (else `FromByteS` panics). */
  predicate HeadOk(inS: IfaceState)
  {
    |inS.queue| > 0 ==> |inS.queue[0]| >= DstAddrStrLength
  }

  predicate Forwardable(ps: Ports, i: nat)
  {
    |ps.ins| == |ps.outs| && i <= |ps.ins| && forall j :: i <= j < |ps.ins| ==> HeadOk(ps.ins[j])
  }

  datatype PortStep = PortStep(inS: IfaceState, outS: IfaceState)

  /** One iteration of `forward`'s loop: the head packet, if it decodes, is re-encoded onto the same index. */
  function ForwardPort(inS: IfaceState, outS: IfaceState): PortStep
    requires HeadOk(inS)
  {
    if |inS.queue| == 0 then PortStep(inS, outS)
    else
      match FromByteS(inS.queue[0])
      case Failure(_) => PortStep(AfterGet(inS), outS)
      case Success(p) => PortStep(AfterGet(inS), AfterPut(outS, ToByteS(p)))
  }

  /** `forward` from interface `i` on, in index order. */
  function ForwardFrom(ps: Ports, i: nat): (r: Ports)
    requires Forwardable(ps, i)
    ensures |r.ins| == |ps.ins| && |r.outs| == |ps.outs|
    decreases |ps.ins| - i
  {
    if i == |ps.ins| then ps
    else
      var st := ForwardPort(ps.ins[i], ps.outs[i]);
      ForwardFrom(Ports(ps.ins[i := st.inS], ps.outs[i := st.outS]), i + 1)
  }

  /** One pass visits every interface from `i` on exactly once and leaves those before `i` alone. */
  lemma {:induction false} ForwardFromEach(ps: Ports, i: nat)
    requires Forwardable(ps, i)
    ensures forall j :: 0 <= j < i ==>
              ForwardFrom(ps, i).ins[j] == ps.ins[j] && ForwardFrom(ps, i).outs[j] == ps.outs[j]
    ensures forall j :: i <= j < |ps.ins| ==>
              ForwardFrom(ps, i).ins[j] == ForwardPort(ps.ins[j], ps.outs[j]).inS
              && ForwardFrom(ps, i).outs[j] == ForwardPort(ps.ins[j], ps.outs[j]).outS
    decreases |ps.ins| - i
  {
    if i < |ps.ins| {
      var st := ForwardPort(ps.ins[i], ps.outs[i]);
      var next := Ports(ps.ins[i := st.inS], ps.outs[i := st.outS]);
      assert forall j :: i + 1 <= j < |ps.ins| ==> next.ins[j] == ps.ins[j] && next.outs[j] == ps.outs[j];
      ForwardFromEach(next, i + 1);
    }
  }

  /** `forward` passes a packet sent by `UdtSend` on unchanged, when the out interface has room. */
  lemma ForwardsVerbatim(inS: IfaceState, outS: IfaceState, dstAddr: int, dataS: string)
    requires |inS.queue| > 0 && inS.queue[0] == ToByteS(NewNetworkPacket(dstAddr, dataS)) && FitsField(dstAddr)
    requires HasRoom(outS)
    ensures HeadOk(inS)
    ensures ForwardPort(inS, outS) == PortStep(AfterGet(inS), outS.(queue := outS.queue + [inS.queue[0]]))
  {
    PacketRoundTrip(dstAddr, dataS);
  }

  class Router {
    const name: string
    const inInterfaceL: seq<NetworkInterface>
    const outInterfaceL: seq<NetworkInterface>

    predicate Valid()
      reads this
    {
      |inInterfaceL| == |outInterfaceL| && Distinct(inInterfaceL, outInterfaceL)
    }

    function Snapshot(): Ports
      reads this, inInterfaceL, outInterfaceL
    {
      Ports(States(inInterfaceL), States(outInterfaceL))
    }

    /** `NewRouter(name, interfaceCount, maxQueSize)`: that many fresh, empty interface pairs. */
    constructor (name: string, interfaceCount: int, maxQueSize: int)
      requires interfaceCount >= 0
      ensures Valid() && this.name == name && |inInterfaceL| == interfaceCount
      ensures forall j :: 0 <= j < interfaceCount ==> fresh(inInterfaceL[j]) && fresh(outInterfaceL[j])
      ensures forall j :: 0 <= j < interfaceCount ==>
                inInterfaceL[j].St() == NewState(maxQueSize) && outInterfaceL[j].St() == NewState(maxQueSize)
    {
      var ins: seq<NetworkInterface> := [];
      var outs: seq<NetworkInterface> := [];
      var i := 0;
      while i < interfaceCount
        invariant 0 <= i <= interfaceCount && |ins| == i && |outs| == i
        invariant forall j :: 0 <= j < i ==> fresh(ins[j]) && fresh(outs[j])
        invariant forall j :: 0 <= j < i ==> ins[j].St() == NewState(maxQueSize) && outs[j].St() == NewState(maxQueSize)
        invariant Distinct(ins, outs)
      {
        var a := new NetworkInterface(maxQueSize);
        var b := new NetworkInterface(maxQueSize);
        ins := ins + [a];
        outs := outs + [b];
        i := i + 1;
      }
      this.name := name;
      inInterfaceL := ins;
      outInterfaceL := outs;
    }

    /** One pass of `forward` over the interfaces, in index order. */
    method Forward()
      requires Valid() && Forwardable(Snapshot(), 0)
      modifies inInterfaceL, outInterfaceL
      ensures Snapshot() == ForwardFrom(old(Snapshot()), 0)
    {
      var i := 0;
      while i < |inInterfaceL|
        invariant 0 <= i <= |inInterfaceL|
        invariant Forwardable(Snapshot(), i)
        invariant ForwardFrom(Snapshot(), i) == ForwardFrom(old(Snapshot()), 0)
      {
        ForwardOne(i);
        i := i + 1;
      }
    }

    /** The body of `forward`'s loop for interface `i`: only that interface pair moves, by `ForwardPort`. */
    method ForwardOne(i: int)
      requires Valid() && 0 <= i < |inInterfaceL| && HeadOk(inInterfaceL[i].St())
      modifies inInterfaceL[i], outInterfaceL[i]
      ensures var st := ForwardPort(old(Snapshot()).ins[i], old(Snapshot()).outs[i]);
              Snapshot() == Ports(old(Snapshot()).ins[i := st.inS], old(Snapshot()).outs[i := st.outS])
    {
      ghost var before := Snapshot();
      ForwardPair(inInterfaceL[i], outInterfaceL[i]);
      ghost var st := ForwardPort(before.ins[i], before.outs[i]);
      StatesAfterStep(inInterfaceL, before.ins, i, st.inS);
      StatesAfterStep(outInterfaceL, before.outs, i, st.outS);
    }

    /** `forward`'s work on one interface pair. */
    method ForwardPair(inI: NetworkInterface, outI: NetworkInterface)
      requires inI != outI && HeadOk(inI.St())
      modifies inI, outI
      ensures PortStep(inI.St(), outI.St()) == ForwardPort(old(inI.St()), old(outI.St()))
    {
      var pktS := inI.Get();
      if pktS.Success? {
        var p := FromByteS(pktS.value);
        if p.Failure? {
          return;   // "Could not get packet"
        }
        var err := outI.Put(ToByteS(p.value));
      }
    }
  }
}
