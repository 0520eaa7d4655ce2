/**
 * The first draft of the network layer, network.go at the root of the
 * repository: the same queue and codec as cmd/network/network, with four
 * differences that are modelled as written here. `get` only hands out a
 * packet while two or more are queued; `NewNetworkPacket` leaves the address
 * width at 0, so addresses go on the wire unpadded; `NewHost` gives its
 * interfaces room for no packet at all; and `forward` tests the error of
 * `get` the wrong way round.
 */
module Draft {
  import opened Wrappers
  import opened Decimal
  import opened Interface

  /** The package-level `dstAddrStrLength`, used by `FromByteS` only. */
  const DstAddrStrLength := 5

  // ---------------------------------------------------------------- Queue

  /** The draft `get`: a packet is handed out only while more than one is queued. */
  function DraftFront(s: IfaceState): Result<string, QueueError>
  {
    if |s.queue| > 1 then Success(s.queue[0]) else Failure(Empty)
  }

  function DraftAfterGet(s: IfaceState): IfaceState
  {
    if |s.queue| > 1 then s.(queue := s.queue[1..]) else s
  }

  /** `k` successive draft gets. */
  function DraftGets(s: IfaceState, k: nat): IfaceState
    decreases k
  {
    if k == 0 then s else DraftGets(DraftAfterGet(s), k - 1)
  }

  /** A single queued packet is reported as `Empty` and stays where it is. */
  lemma LastPacketWithheld(s: IfaceState)
    requires |s.queue| == 1
    ensures DraftFront(s) == Failure(Empty) && DraftAfterGet(s) == s
  {
  }

  /**
   * However many times the draft `get` is called, a non-empty queue never
   * empties and its newest packet is never handed out.
   */
  lemma {:induction false} NewestPacketNeverLeaves(s: IfaceState, k: nat)
    requires |s.queue| >= 1
    ensures |DraftGets(s, k).queue| >= 1
    ensures DraftGets(s, k).queue[|DraftGets(s, k).queue| - 1] == s.queue[|s.queue| - 1]
    decreases k
  {
    if k > 0 {
      NewestPacketNeverLeaves(DraftAfterGet(s), k - 1);
    }
  }

  class NetworkInterface {
    var queue: seq<string>
    var mtu: int
    const maxQueSize: int

    function St(): IfaceState
      reads this
    {
      IfaceState(queue, mtu, maxQueSize)
    }

    /** `NewNetworkInterface(maxQ)`: empty, with MTU 1000000. */
    constructor (maxQ: int)
      ensures St() == NewState(maxQ)
    {
      queue := [];
      mtu := DefaultMtu;
      maxQueSize := maxQ;
    }

    /** The draft `get`: hands out the head only while two or more packets are queued. */
    method Get() returns (r: Result<string, QueueError>)
      modifies this
      ensures r == DraftFront(old(St())) && St() == DraftAfterGet(old(St()))
      ensures r.Success? <==> |old(queue)| > 1
    {
      if |queue| > 1 {
        var toReturn := queue[0];
        queue := queue[1..];
        return Success(toReturn);
      }
      return Failure(Empty);
    }

    /** The draft non-blocking `put`: appends when there is room, else reports `QueueFull`. */
    method Put(pkt: string) returns (r: Outcome<QueueError>)
      modifies this
      ensures r == PutOutcome(old(St())) && St() == AfterPut(old(St()), pkt)
      ensures r.Pass? <==> |old(queue)| < maxQueSize
    {
      if |queue| < maxQueSize {
        queue := queue + [pkt];
        return Pass;
      }
      return Fail(QueueFull);
    }
  }

  // ---------------------------------------------------------------- Codec

  datatype NetworkPacket = NetworkPacket(dstAddr: int, dataS: string, dstAddrStrLength: int)

  /** The draft `NewNetworkPacket` sets no width: `DstAddrStrLength` keeps Go's zero value. */
  function NewNetworkPacket(dstAddr: int, dataS: string): NetworkPacket
  {
    NetworkPacket(dstAddr, dataS, 0)
  }

  /** `%0*s%s` with the packet's own width. */
  function ToByteS(p: NetworkPacket): string
  {
    PadZero(Itoa(p.dstAddr), p.dstAddrStrLength) + p.dataS
  }

  /** `FromByteS` always reads a five-character address, whatever width the sender used. */
  function FromByteS(byteS: string): (r: Result<NetworkPacket, NumError>)
    requires |byteS| >= DstAddrStrLength
    ensures r.Failure? <==> Atoi(byteS[..DstAddrStrLength]).Failure?
    ensures r.Success? ==> r == Success(NewNetworkPacket(Atoi(byteS[..DstAddrStrLength]).value, byteS[DstAddrStrLength..]))
  {
    var dstAddr :- Atoi(byteS[..DstAddrStrLength]);
    Success(NewNetworkPacket(dstAddr, byteS[DstAddrStrLength..]))
  }

  /** A packet built by the draft `NewNetworkPacket` goes on the wire as the plain decimal address and the payload. */
  lemma UnpaddedEncoding(dstAddr: int, dataS: string)
    ensures ToByteS(NewNetworkPacket(dstAddr, dataS)) == Itoa(dstAddr) + dataS
  {
  }

  /**
   * The draft codec round-trips exactly the addresses whose decimal
   * spelling has five characters: 10000 .. 99999 and -9999 .. -1000. (A
   * packet whose encoding is shorter than five characters makes the source
   * panic, so it is excluded.)
   */
  lemma DraftRoundTrip(dstAddr: int, dataS: string)
    requires |Itoa(dstAddr)| + |dataS| >= DstAddrStrLength
    ensures |ToByteS(NewNetworkPacket(dstAddr, dataS))| == |Itoa(dstAddr)| + |dataS|
    ensures FromByteS(ToByteS(NewNetworkPacket(dstAddr, dataS))) == Success(NewNetworkPacket(dstAddr, dataS))
            <==> 10000 <= dstAddr <= 99999 || -9999 <= dstAddr <= -1000
  {
    var s := ToByteS(NewNetworkPacket(dstAddr, dataS));
    assert s == Itoa(dstAddr) + dataS;
    ItoaWidth(dstAddr);
    if |Itoa(dstAddr)| == DstAddrStrLength {
      ItoaRoundTrip(dstAddr);
      assert s[..DstAddrStrLength] == Itoa(dstAddr) && s[DstAddrStrLength..] == dataS;
    } else {
      var r := FromByteS(s);
      if r.Success? {
        assert |r.value.dataS| != |dataS|;
      }
    }
  }

  /** Address 12 with payload "345xyz" is read back as address 12345 with payload "xyz". */
  lemma ShortAddressMisread()
    ensures ToByteS(NewNetworkPacket(12, "345xyz")) == "12345xyz"
    ensures FromByteS(ToByteS(NewNetworkPacket(12, "345xyz"))) == Success(NewNetworkPacket(12345, "xyz"))
  {
    assert NatDigits(12) == "12" by {
      assert NatDigits(1) == "1";
    }
    var s := ToByteS(NewNetworkPacket(12, "345xyz"));
    assert s == "12345xyz";
    assert s[..DstAddrStrLength] == "12345";
    assert DigitsValue("1234") == 1234 by {
      assert DigitsValue("1") == 1;
      assert "12"[..1] == "1" && "123"[..2] == "12" && "1234"[..3] == "123";
    }
    assert "12345"[..4] == "1234";
  }

  /** Address 7 with payload "hello" cannot be read back at all. */
  lemma ShortAddressUnreadable()
    ensures ToByteS(NewNetworkPacket(7, "hello")) == "7hello"
    ensures FromByteS(ToByteS(NewNetworkPacket(7, "hello"))) == Failure(SyntaxError)
  {
    var s := ToByteS(NewNetworkPacket(7, "hello"));
    assert s[..DstAddrStrLength] == "7hell";
    assert !IsDigit("7hell"[1]);
  }

  // ---------------------------------------------------------------- Host

  class Host {
    const addr: int
    const inInterfaceL: seq<NetworkInterface>
    const outInterfaceL: seq<NetworkInterface>
    var received: seq<string>   // packets printed as received

    /** The draft host's interfaces have room for no packet. */
    predicate Valid()
      reads this
    {
      |inInterfaceL| == 1 && |outInterfaceL| == 1 && inInterfaceL[0] != outInterfaceL[0]
      && inInterfaceL[0].maxQueSize == 0 && outInterfaceL[0].maxQueSize == 0
    }

    /** The draft `NewHost(addr)`: one fresh interface on each side, both of maximum size 0. */
    constructor (addr: int)
      ensures Valid() && this.addr == addr && received == []
      ensures fresh(inInterfaceL[0]) && fresh(outInterfaceL[0])
      ensures inInterfaceL[0].St() == NewState(0) && outInterfaceL[0].St() == NewState(0)
    {
      var i := new NetworkInterface(0);
      var o := new NetworkInterface(0);
      this.addr := addr;
      inInterfaceL := [i];
      outInterfaceL := [o];
      received := [];
    }

    /** The draft `UdtSend`: its one put always fails, so the out interface never changes. */
    method UdtSend(dstAddr: int, dataS: string)
      requires Valid()
      modifies outInterfaceL[0]
      ensures outInterfaceL[0].St() == old(outInterfaceL[0].St())
    {
      var p := NewNetworkPacket(dstAddr, dataS);
      var err := outInterfaceL[0].Put(ToByteS(p));
    }

    /** The draft `UdtReceive`: takes the head packet when the draft `get` hands one out. */
    method UdtReceive()
      requires Valid()
      modifies this, inInterfaceL[0]
      ensures inInterfaceL[0].St() == DraftAfterGet(old(inInterfaceL[0].St()))
      ensures received == old(received) + (if |old(inInterfaceL[0].queue)| > 1 then [old(inInterfaceL[0].queue)[0]] else [])
    {
      var pktS := inInterfaceL[0].Get();
      if pktS.Success? {
        received := received + [pktS.value];
      }
    }
  }

  /** Every put on an interface of the draft host fails, in whatever order they come. */
  lemma DraftHostDropsEverything(pkts: seq<string>)
    ensures AfterPuts(NewState(0), pkts) == NewState(0)
  {
    ZeroCapacityRejectsAll(NewState(0), pkts);
  }

  // ---------------------------------------------------------------- Router

  class Router {
    const name: string
    const inInterfaceL: seq<NetworkInterface>
    const outInterfaceL: seq<NetworkInterface>

    predicate Valid()
      reads this
    {
      |inInterfaceL| == |outInterfaceL| && Distinct(inInterfaceL, outInterfaceL)
    }

    /** The draft `NewRouter`: `interfaceCount` fresh, empty interface pairs with MTU 1000000. */
    constructor (name: string, interfaceCount: int, maxQueSize: int)
      requires interfaceCount >= 0
      ensures Valid() && this.name == name && |inInterfaceL| == interfaceCount
      ensures forall j :: 0 <= j < interfaceCount ==> fresh(inInterfaceL[j]) && fresh(outInterfaceL[j])
      ensures forall j :: 0 <= j < interfaceCount ==>
                inInterfaceL[j].St() == NewState(maxQueSize) && outInterfaceL[j].St() == NewState(maxQueSize)
    {
      var ins: seq<NetworkInterface> := [];
      var outs: seq<NetworkInterface> := [];
      var i := 0;
      while i < interfaceCount
        invariant 0 <= i <= interfaceCount && |ins| == i && |outs| == i
        invariant forall j :: 0 <= j < i ==> fresh(ins[j]) && fresh(outs[j])
        invariant forall j :: 0 <= j < i ==> ins[j].St() == NewState(maxQueSize) && outs[j].St() == NewState(maxQueSize)
        invariant Distinct(ins, outs)
      {
        var a := new NetworkInterface(maxQueSize);
        var b := new NetworkInterface(maxQueSize);
        ins := ins + [a];
        outs := outs + [b];
        i := i + 1;
      }
      this.name := name;
      inInterfaceL := ins;
      outInterfaceL := outs;
    }

    /**
     * The draft `forward`. It decodes only when `get` has failed, and then
     * the empty string makes `FromByteS` panic; so it runs to the end only
     * when every in-queue holds two or more packets, and then it drops the
     * head of each and forwards nothing.
     */
    method Forward()
      requires Valid()
      requires forall j :: 0 <= j < |inInterfaceL| ==> |inInterfaceL[j].queue| > 1
      modifies inInterfaceL
      ensures forall j :: 0 <= j < |inInterfaceL| ==> inInterfaceL[j].St() == DraftAfterGet(old(inInterfaceL[j].St()))
      ensures forall j :: 0 <= j < |outInterfaceL| ==> outInterfaceL[j].St() == old(outInterfaceL[j].St())
    {
      var i := 0;
      while i < |inInterfaceL|
        invariant 0 <= i <= |inInterfaceL|
        invariant forall j :: 0 <= j < i ==> inInterfaceL[j].St() == DraftAfterGet(old(inInterfaceL[j].St()))
        invariant forall j :: i <= j < |inInterfaceL| ==> inInterfaceL[j].St() == old(inInterfaceL[j].St())
        invariant forall j :: 0 <= j < |outInterfaceL| ==> outInterfaceL[j].St() == old(outInterfaceL[j].St())
      {
        var pktS := inInterfaceL[i].Get();
        if pktS.Failure? {
          assert false;   // FromByteS("") panics in the source
        }
        i := i + 1;
      }
    }
  }
}
