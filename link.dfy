/**
 * cmd/link/link1: a link joins an out interface of one node to an in
 * interface of another and moves at most one packet per call, dropping
 * packets longer than either interface's MTU; the link layer drives every
 * link once per `Transfer`.
 */
module Link {
  import opened Wrappers
  import opened Interface

  /** Which of `TxPkt`'s exits was taken (each prints a different message, or none). */
  datatype TxOutcome = NoPacket | TooBigForFrom | TooBigForTo | Lost | Transmitted

  datatype LinkStep = LinkStep(inS: IfaceState, outS: IfaceState, outcome: TxOutcome)

  /** `TxPkt` on the states of its two interfaces. */
  function TxSpec(inS: IfaceState, outS: IfaceState): LinkStep
  {
    if |inS.queue| == 0 then LinkStep(inS, outS, NoPacket)
    else
      var pktS := inS.queue[0];
      var rest := AfterGet(inS);
      if |pktS| > inS.mtu then LinkStep(rest, outS, TooBigForFrom)
      else if |pktS| > outS.mtu then LinkStep(rest, outS, TooBigForTo)
      else if !HasRoom(outS) then LinkStep(rest, outS, Lost)
      else LinkStep(rest, AfterPut(outS, pktS), Transmitted)
  }

  /**
   * The four ways out of `TxPkt`: with no packet nothing changes; otherwise
   * the head always leaves the from interface, and it reaches the to
   * interface exactly when it fits both MTUs and the to queue has room.
   */
  lemma TxCases(inS: IfaceState, outS: IfaceState)
    ensures |inS.queue| == 0 ==> TxSpec(inS, outS) == LinkStep(inS, outS, NoPacket)
    ensures |inS.queue| > 0 ==> TxSpec(inS, outS).inS.queue == inS.queue[1..]
    ensures TxSpec(inS, outS).outcome == Transmitted
            <==> (|inS.queue| > 0 && |inS.queue[0]| <= inS.mtu && |inS.queue[0]| <= outS.mtu
                  && |outS.queue| < outS.maxQueSize)
    ensures TxSpec(inS, outS).outcome == Transmitted
            ==> TxSpec(inS, outS).outS.queue == outS.queue + [inS.queue[0]]
    ensures TxSpec(inS, outS).outcome != Transmitted ==> TxSpec(inS, outS).outS == outS
    ensures TxSpec(inS, outS).inS.mtu == inS.mtu && TxSpec(inS, outS).outS.mtu == outS.mtu
  {
  }

  /**
   * A link never creates or duplicates a packet, and never delivers one
   * longer than either MTU.
   */
  lemma TxConservesPackets(inS: IfaceState, outS: IfaceState)
    ensures |TxSpec(inS, outS).inS.queue| + |TxSpec(inS, outS).outS.queue| <= |inS.queue| + |outS.queue|
    ensures outS.queue <= TxSpec(inS, outS).outS.queue
    ensures forall j :: |outS.queue| <= j < |TxSpec(inS, outS).outS.queue| ==>
              |TxSpec(inS, outS).outS.queue[j]| <= inS.mtu && |TxSpec(inS, outS).outS.queue[j]| <= outS.mtu
  {
  }

  class Link {
    const fromIntfNum: int
    const toIntfNum: int
    const inIntf: NetworkInterface    // the from node's out interface
    const outIntf: NetworkInterface   // the to node's in interface

    /**
     * `NewLink`: joins interface `fromIntfNum` of the from node's out list to
     * interface `toIntfNum` of the to node's in list, and sets both MTUs to
     * the link's.
     */
    constructor (fromOut: seq<NetworkInterface>, fromIntfNum: int, toIn: seq<NetworkInterface>, toIntfNum: int, mtu: int)
      requires 0 <= fromIntfNum < |fromOut| && 0 <= toIntfNum < |toIn|
      modifies fromOut[fromIntfNum], toIn[toIntfNum]
      ensures this.fromIntfNum == fromIntfNum && this.toIntfNum == toIntfNum
      ensures inIntf == fromOut[fromIntfNum] && outIntf == toIn[toIntfNum]
      ensures inIntf.mtu == mtu && outIntf.mtu == mtu
      ensures inIntf.queue == old(fromOut[fromIntfNum].queue) && outIntf.queue == old(toIn[toIntfNum].queue)
    {
      this.fromIntfNum := fromIntfNum;
      this.toIntfNum := toIntfNum;
      inIntf := fromOut[fromIntfNum];
      outIntf := toIn[toIntfNum];
      new;
      inIntf.mtu := mtu;
      outIntf.mtu := mtu;
    }

    /** `TxPkt`: moves at most one packet across the link. */
    method TxPkt() returns (r: TxOutcome)
      requires inIntf != outIntf
      modifies inIntf, outIntf
      ensures LinkStep(inIntf.St(), outIntf.St(), r) == TxSpec(old(inIntf.St()), old(outIntf.St()))
    {
      var pktS := inIntf.Get();
      if pktS.Failure? {
        return NoPacket;   // no packet to transmit
      }
      if |pktS.value| > inIntf.mtu {
        return TooBigForFrom;
      }
      if |pktS.value| > outIntf.mtu {
        return TooBigForTo;
      }
      var err := outIntf.Put(pktS.value);
      if err.Fail? {
        return Lost;
      }
      return Transmitted;
    }
  }

  /** On a link made by `NewLink`, a packet crosses exactly when it fits the link's MTU and the far queue has room. */
  lemma PinnedLinkTransmits(inS: IfaceState, outS: IfaceState, mtu: int)
    requires inS.mtu == mtu && outS.mtu == mtu && |inS.queue| > 0
    ensures TxSpec(inS, outS).outcome == Transmitted <==> |inS.queue[0]| <= mtu && HasRoom(outS)
    ensures |inS.queue[0]| > mtu ==> TxSpec(inS, outS).outcome == TooBigForFrom
  {
  }

  /** No interface belongs to two links, or to both ends of one. */
  predicate Disjoint(links: seq<Link>)
  {
    (forall k :: 0 <= k < |links| ==> links[k].inIntf != links[k].outIntf)
    && (forall a, b :: 0 <= a < b < |links| ==>
          links[a].inIntf != links[b].inIntf && links[a].inIntf != links[b].outIntf
          && links[a].outIntf != links[b].inIntf && links[a].outIntf != links[b].outIntf)
  }

  class LinkLayer {
    var linkL: seq<Link>

    /** `NewLinkLayer`: no links. */
    constructor ()
      ensures linkL == []
    {
      linkL := [];
    }

    /** `AddLink`: appends the link. */
    method AddLink(lk: Link)
      modifies this
      ensures linkL == old(linkL) + [lk]
    {
      linkL := linkL + [lk];
    }

    function Footprint(): set<NetworkInterface>
      reads this
    {
      (set k | 0 <= k < |linkL| :: linkL[k].inIntf) + (set k | 0 <= k < |linkL| :: linkL[k].outIntf)
    }

    /** `Transfer`: every link, in list order, moves at most one packet. */
    method Transfer()
      requires Disjoint(linkL)
      modifies Footprint()
      ensures forall k :: 0 <= k < |linkL| ==>
                linkL[k].inIntf.St() == TxSpec(old(linkL[k].inIntf.St()), old(linkL[k].outIntf.St())).inS
                && linkL[k].outIntf.St() == TxSpec(old(linkL[k].inIntf.St()), old(linkL[k].outIntf.St())).outS
    {
      var i := 0;
      while i < |linkL|
        invariant 0 <= i <= |linkL|
        invariant forall k :: 0 <= k < i ==>
                    linkL[k].inIntf.St() == TxSpec(old(linkL[k].inIntf.St()), old(linkL[k].outIntf.St())).inS
                    && linkL[k].outIntf.St() == TxSpec(old(linkL[k].inIntf.St()), old(linkL[k].outIntf.St())).outS
        invariant forall k :: i <= k < |linkL| ==>
                    linkL[k].inIntf.St() == old(linkL[k].inIntf.St()) && linkL[k].outIntf.St() == old(linkL[k].outIntf.St())
      {
        var outcome := linkL[i].TxPkt();
        i := i + 1;
      }
    }
  }
}
