/**
 * The bounded packet queue of a node interface (`NetworkInterface`). The
 * code is identical in cmd/network/network/network.go and
 * cmd/network/network2/network2.go; the links of cmd/link/link1 use it too.
 * Only the non-blocking `Put` is modelled.
 */
module Interface {
  import opened Wrappers

  datatype QueueError = Empty | QueueFull

  /** The MTU every new interface starts with. */
  const DefaultMtu: int := 1000000

  /** The observable state of one interface. */
  datatype IfaceState = IfaceState(queue: seq<string>, mtu: int, maxQueSize: int)

  function NewState(maxQ: int): IfaceState
  {
    IfaceState([], DefaultMtu, maxQ)
  }

  predicate HasRoom(s: IfaceState) { |s.queue| < s.maxQueSize }

  /** The queue after a non-blocking `Put`: appended at the tail when there is room. */
  function AfterPut(s: IfaceState, pkt: string): IfaceState
  {
    if HasRoom(s) then s.(queue := s.queue + [pkt]) else s
  }

  /** The error a non-blocking `Put` returns. */
  function PutOutcome(s: IfaceState): Outcome<QueueError>
  {
    if HasRoom(s) then Pass else Fail(QueueFull)
  }

  /** What `Get` returns: the head, or `Empty`. */
  function Front(s: IfaceState): Result<string, QueueError>
  {
    if |s.queue| > 0 then Success(s.queue[0]) else Failure(Empty)
  }

  /** The queue after `Get`: the head removed, if there was one. */
  function AfterGet(s: IfaceState): IfaceState
  {
    if |s.queue| > 0 then s.(queue := s.queue[1..]) else s
  }

  /** A sequence of non-blocking puts, in order. */
  function AfterPuts(s: IfaceState, pkts: seq<string>): IfaceState
  {
    if pkts == [] then s else AfterPut(AfterPuts(s, pkts[..|pkts| - 1]), pkts[|pkts| - 1])
  }

  /** The values returned by `k` successive successful gets. */
  function Drain(s: IfaceState, k: nat): seq<string>
    requires k <= |s.queue|
    decreases k
  {
    if k == 0 then [] else [Front(s).value] + Drain(AfterGet(s), k - 1)
  }

  function Min(a: int, b: int): int { if a < b then a else b }

  /**
   * Starting from any queue, a run of non-blocking puts keeps exactly the
   * packets that arrive while there is room: the first
   * `maxQueSize - |queue|` of them. Every later put fails with `QueueFull`.
   */
  lemma {:induction false} PutAllKeepsPrefix(s: IfaceState, pkts: seq<string>)
    ensures var room := if s.maxQueSize > |s.queue| then s.maxQueSize - |s.queue| else 0;
            AfterPuts(s, pkts) == s.(queue := s.queue + pkts[..Min(room, |pkts|)])
  {
    if pkts != [] {
      var init := pkts[..|pkts| - 1];
      PutAllKeepsPrefix(s, init);
      var room := if s.maxQueSize > |s.queue| then s.maxQueSize - |s.queue| else 0;
      if |pkts| <= room {
        assert init[..Min(room, |init|)] + [pkts[|pkts| - 1]] == pkts[..Min(room, |pkts|)];
      } else {
        assert init[..Min(room, |init|)] == pkts[..Min(room, |pkts|)];
      }
    }
  }

  /** One more put after a run of puts. */
  lemma AfterPutsSnoc(s: IfaceState, pkts: seq<string>, k: nat)
    requires k < |pkts|
    ensures AfterPuts(s, pkts[..k + 1]) == AfterPut(AfterPuts(s, pkts[..k]), pkts[k])
  {
    assert pkts[..k + 1][..k] == pkts[..k];
  }

  /** The queue bound is an invariant of every run of puts. */
  lemma PutAllWithinBound(s: IfaceState, pkts: seq<string>)
    requires |s.queue| <= s.maxQueSize
    ensures |AfterPuts(s, pkts).queue| <= s.maxQueSize
  {
    PutAllKeepsPrefix(s, pkts);
  }

  /** An interface whose maximum size is 0 or less rejects every put. */
  lemma ZeroCapacityRejectsAll(s: IfaceState, pkts: seq<string>)
    requires s.maxQueSize <= 0
    ensures AfterPuts(s, pkts) == s
    ensures PutOutcome(s) == Fail(QueueFull)
    ensures forall pkt :: AfterPut(s, pkt) == s
  {
    PutAllKeepsPrefix(s, pkts);
  }

  /** FIFO: successive gets return the queued packets in queue order. */
  lemma {:induction false} DrainYieldsQueue(s: IfaceState)
    ensures Drain(s, |s.queue|) == s.queue
    decreases |s.queue|
  {
    if |s.queue| > 0 {
      DrainYieldsQueue(AfterGet(s));
    }
  }

  /**
   * FIFO across puts: packets put into an empty interface with room for all
   * of them come back out of it in the order they were put.
   */
  lemma PutThenDrain(maxQ: int, pkts: seq<string>)
    requires |pkts| <= maxQ
    ensures |AfterPuts(NewState(maxQ), pkts).queue| == |pkts|
    ensures Drain(AfterPuts(NewState(maxQ), pkts), |pkts|) == pkts
  {
    PutAllKeepsPrefix(NewState(maxQ), pkts);
    assert pkts[..Min(maxQ, |pkts|)] == pkts;
    DrainYieldsQueue(AfterPuts(NewState(maxQ), pkts));
  }

  /** One interface: a FIFO of serialized packets with an MTU and a maximum size. */
  class NetworkInterface {
    var queue: seq<string>
    var mtu: int
    const maxQueSize: int

    function St(): IfaceState
      reads this
    {
      IfaceState(queue, mtu, maxQueSize)
    }

    /** `NewNetworkInterface(maxQ)`: empty, with the default MTU. */
    constructor (maxQ: int)
      ensures St() == NewState(maxQ)
    {
      queue := [];
      mtu := DefaultMtu;
      maxQueSize := maxQ;
    }

    /** Removes and returns the head packet, or reports `Empty` and changes nothing. */
    method Get() returns (r: Result<string, QueueError>)
      modifies this
      ensures r == Front(old(St())) && St() == AfterGet(old(St()))
      ensures r.Success? <==> |old(queue)| > 0
    {
      if |queue| > 0 {
        var toReturn := queue[0];
        queue := queue[1..];
        return Success(toReturn);
      }
      return Failure(Empty);
    }

    /** Non-blocking put: appends `pkt` when there is room, else reports `QueueFull` and changes nothing. */
    method Put(pkt: string) returns (r: Outcome<QueueError>)
      modifies this
      ensures r == PutOutcome(old(St())) && St() == AfterPut(old(St()), pkt)
      ensures r.Pass? <==> |old(queue)| < maxQueSize
    {
      if |queue| < maxQueSize {
        queue := queue + [pkt];
        return Pass;
      }
      return Fail(QueueFull);
    }
  }

  /** The states of a list of interfaces, index by index. */
  function States(l: seq<NetworkInterface>): (r: seq<IfaceState>)
    reads l
    ensures |r| == |l| && forall j :: 0 <= j < |l| ==> r[j] == l[j].St()
  {
    if l == [] then [] else States(l[..|l| - 1]) + [l[|l| - 1].St()]
  }

  /** The states of a list in which only interface `i` has moved, to `st`. */
  lemma StatesAfterStep(l: seq<NetworkInterface>, before: seq<IfaceState>, i: int, st: IfaceState)
    requires |l| == |before| && 0 <= i < |l| && l[i].St() == st
    requires forall j :: 0 <= j < |l| && j != i ==> l[j].St() == before[j]
    ensures States(l) == before[i := st]
  {
  }

  /** No interface object appears twice, within or across the two lists. */
  predicate Distinct<T(==)>(ins: seq<T>, outs: seq<T>)
  {
    (forall a, b :: 0 <= a < b < |ins| ==> ins[a] != ins[b])
    && (forall a, b :: 0 <= a < b < |outs| ==> outs[a] != outs[b])
    && (forall a, b :: 0 <= a < |ins| && 0 <= b < |outs| ==> ins[a] != outs[b])
  }

  /** The states of a node's in and out interfaces. */
  datatype Ports = Ports(ins: seq<IfaceState>, outs: seq<IfaceState>)
}
