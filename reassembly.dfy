/**
 * The receiving side of cmd/network/network2: `fragHandler`,
 * `storageHandler` and `orderer`, three goroutines joined by channels, and
 * `reAssemble`.
 *
 * The channels become FIFO sequences of one `Pipeline` value, together with
 * the maps each goroutine keeps to itself (`store` and `nextMap` of the
 * storage handler, `toReassemble` of the orderer). One iteration of a
 * goroutine's loop is one step function. Each call of `reAssemble` is
 * recorded in `reassembled` as the list of fragments it was given; the
 * string it prints is `ReAssembled` of that list.
 */
module Reassembly {
  import opened Codec
  import opened Fragmentation

  /** The `struct{id int; offset int}` the orderer sends on `next`. */
  datatype Request = Request(id: int, offset: int)

  datatype Pipeline = Pipeline(
    fragChan: seq<NetworkPacket>,                // UdtReceive -> fragHandler
    toStore: seq<NetworkPacket>,                 // fragHandler -> storageHandler
    toOrder: seq<NetworkPacket>,                 // fragHandler, storageHandler -> orderer
    next: seq<Request>,                          // orderer -> storageHandler
    store: map<int, map<int, NetworkPacket>>,    // storageHandler: ID -> offset -> fragment
    nextMap: map<int, int>,                      // storageHandler: ID -> offset expected next
    toReassemble: map<int, seq<NetworkPacket>>,  // orderer: ID -> fragments so far
    reassembled: seq<seq<NetworkPacket>>)        // the arguments of reAssemble, in call order

  /** The pipeline `Host.Run` starts: empty channels and maps. */
  const Idle := Pipeline([], [], [], [], map[], map[], map[], [])

  /** `p.ToByteS()[30:]`. */
  function Body(p: NetworkPacket): string
  {
    EncodeHeaderAtLeast(p.header);
    ToByteS(p)[HeaderLength..]
  }

  /** The string `reAssemble` builds: the bodies of the packets, in order. */
  function ReAssembled(packets: seq<NetworkPacket>): string
  {
    if packets == [] then "" else ReAssembled(packets[..|packets| - 1]) + Body(packets[|packets| - 1])
  }

  /** `reAssemble`, with its loop over the packets. */
  method ReAssemble(packets: seq<NetworkPacket>) returns (sb: string)
    ensures sb == ReAssembled(packets)
  {
    sb := "";
    var i := 0;
    while i < |packets|
      invariant 0 <= i <= |packets|
      invariant sb == ReAssembled(packets[..i])
    {
      EncodeHeaderAtLeast(packets[i].header);
      sb := sb + ToByteS(packets[i])[HeaderLength..];
      SnocReAssembled(packets, i);
      i := i + 1;
    }
    assert packets[..i] == packets;
  }

  lemma SnocReAssembled(packets: seq<NetworkPacket>, i: int)
    requires 0 <= i < |packets|
    ensures ReAssembled(packets[..i + 1]) == ReAssembled(packets[..i]) + Body(packets[i])
  {
    assert packets[..i + 1][..i] == packets[..i];
  }

  /** For packets whose headers fit the wire format, `reAssemble` yields their payloads laid end to end. */
  lemma {:induction false} ReAssembledPayloads(packets: seq<NetworkPacket>)
    requires forall i :: 0 <= i < |packets| ==> HeaderFits(packets[i].header)
    ensures ReAssembled(packets) == Payloads(packets)
    decreases |packets|
  {
    if packets != [] {
      var init := packets[..|packets| - 1];
      var last := packets[|packets| - 1];
      assert forall i :: 0 <= i < |init| ==> init[i] == packets[i];
      ReAssembledPayloads(init);
      BodyOfFitting(last);
      PayloadsSnoc(init, last);
      calc {
        ReAssembled(packets);
        ReAssembled(init) + Body(last);
        Payloads(init) + last.dataS;
        { assert init + [last] == packets; }
        Payloads(packets);
      }
    }
  }

  /** A packet whose header fits the wire format: `ToByteS()[30:]` is exactly its payload. */
  lemma BodyOfFitting(p: NetworkPacket)
    requires HeaderFits(p.header)
    ensures Body(p) == p.dataS
  {
    EncodeHeaderLayout(p.header);
  }

  lemma {:induction false} PayloadsSnoc(fs: seq<NetworkPacket>, f: NetworkPacket)
    ensures Payloads(fs + [f]) == Payloads(fs) + f.dataS
    decreases |fs|
  {
    if fs != [] {
      PayloadsSnoc(fs[1..], f);
      assert (fs + [f])[1..] == fs[1..] + [f];
    }
  }

  /** `nextMap[id]`, with Go's zero value for a missing key. */
  function Expected(s: Pipeline, id: int): int
  {
    if id in s.nextMap then s.nextMap[id] else 0
  }

  /** `store[id]`, empty when missing. */
  function Stored(s: Pipeline, id: int): map<int, NetworkPacket>
  {
    if id in s.store then s.store[id] else map[]
  }

  /** `toReassemble[id]`, with Go's nil slice for a missing key. */
  function Pending(s: Pipeline, id: int): seq<NetworkPacket>
  {
    if id in s.toReassemble then s.toReassemble[id] else []
  }

  /**
   * One iteration of `fragHandler`: a fragment at offset 0 goes straight to
   * the orderer, any other to the storage handler. Nothing but those two
   * channels and `fragChan` changes.
   */
  function FragHandlerStep(s: Pipeline): (r: Pipeline)
    requires |s.fragChan| > 0
    ensures r.fragChan == s.fragChan[1..] && r.next == s.next
    ensures s.fragChan[0].header.fragOffset == 0
            ==> r.toOrder == s.toOrder + [s.fragChan[0]] && r.toStore == s.toStore
    ensures s.fragChan[0].header.fragOffset != 0
            ==> r.toStore == s.toStore + [s.fragChan[0]] && r.toOrder == s.toOrder
    ensures r.store == s.store && r.nextMap == s.nextMap
    ensures r.toReassemble == s.toReassemble && r.reassembled == s.reassembled
  {
    var p := s.fragChan[0];
    if p.header.fragOffset == 0 then s.(fragChan := s.fragChan[1..], toOrder := s.toOrder + [p])
    else s.(fragChan := s.fragChan[1..], toStore := s.toStore + [p])
  }

  /**
   * The `toStore` case of `storageHandler`: the fragment the ID is waiting
   * for goes on to the orderer and the expected offset moves past it; any
   * other is filed under its ID and offset. Only that ID's entries change,
   * and no stored fragment is ever removed.
   */
  function StorePacketStep(s: Pipeline): (r: Pipeline)
    requires |s.toStore| > 0
    ensures r.toStore == s.toStore[1..] && r.fragChan == s.fragChan && r.next == s.next
    ensures var p := s.toStore[0];
            (p.header.fragOffset == Expected(s, p.header.id)
             <==> (r.toOrder == s.toOrder + [p] && Expected(r, p.header.id) == p.header.length + p.header.fragOffset))
    ensures var p := s.toStore[0];
            p.header.fragOffset != Expected(s, p.header.id)
            ==> r.toOrder == s.toOrder && Stored(r, p.header.id) == Stored(s, p.header.id)[p.header.fragOffset := p]
    ensures var p := s.toStore[0];
            p.header.fragOffset == Expected(s, p.header.id) ==> r.store == s.store
    ensures var p := s.toStore[0];
            p.header.fragOffset != Expected(s, p.header.id) ==> r.nextMap == s.nextMap
    ensures forall id, off :: id in s.store && off in s.store[id] ==> id in r.store && off in r.store[id]
    ensures r.store - {s.toStore[0].header.id} == s.store - {s.toStore[0].header.id}
    ensures r.nextMap - {s.toStore[0].header.id} == s.nextMap - {s.toStore[0].header.id}
    ensures r.toReassemble == s.toReassemble && r.reassembled == s.reassembled
  {
    var p := s.toStore[0];
    var id := p.header.id;
    var s1 := s.(toStore := s.toStore[1..]);
    if p.header.fragOffset == Expected(s, id) then
      s1.(toOrder := s.toOrder + [p], nextMap := s.nextMap[id := p.header.length + p.header.fragOffset])
    else
      s1.(store := s.store[id := Stored(s, id)[p.header.fragOffset := p]])
  }

  /**
   * The `next` case of `storageHandler`: a stored fragment at the requested
   * offset goes to the orderer and the expected offset moves past it;
   * otherwise the requested offset becomes the expected one. The store is
   * left as it is.
   */
  function StoreRequestStep(s: Pipeline): (r: Pipeline)
    requires |s.next| > 0
    ensures r.next == s.next[1..] && r.fragChan == s.fragChan && r.toStore == s.toStore
    ensures r.store == s.store
    ensures var n := s.next[0];
            n.offset in Stored(s, n.id)
            ==> r.toOrder == s.toOrder + [Stored(s, n.id)[n.offset]]
                && Expected(r, n.id) == Stored(s, n.id)[n.offset].header.length + Stored(s, n.id)[n.offset].header.fragOffset
    ensures var n := s.next[0];
            n.offset !in Stored(s, n.id) ==> r.toOrder == s.toOrder && Expected(r, n.id) == n.offset
    ensures r.nextMap - {s.next[0].id} == s.nextMap - {s.next[0].id}
    ensures r.toReassemble == s.toReassemble && r.reassembled == s.reassembled
  {
    var n := s.next[0];
    var s1 := s.(next := s.next[1..]);
    if n.id in s.store && n.offset in s.store[n.id] then
      var v1 := s.store[n.id][n.offset];
      s1.(toOrder := s.toOrder + [v1], nextMap := s.nextMap[n.id := v1.header.length + v1.header.fragOffset])
    else
      s1.(nextMap := s.nextMap[n.id := n.offset])
  }

  /**
   * One iteration of `orderer`: the fragment is appended to its ID's list.
   * The last fragment (MF 0) has the list reassembled and forgotten; any
   * other asks the storage handler for the offset right after it.
   */
  function OrdererStep(s: Pipeline): (r: Pipeline)
    requires |s.toOrder| > 0
    ensures r.toOrder == s.toOrder[1..] && r.fragChan == s.fragChan && r.toStore == s.toStore
    ensures r.store == s.store && r.nextMap == s.nextMap
    ensures var p := s.toOrder[0];
            p.header.mf == 0
            ==> r.reassembled == s.reassembled + [Pending(s, p.header.id) + [p]]
                && p.header.id !in r.toReassemble && r.next == s.next
    ensures var p := s.toOrder[0];
            p.header.mf != 0
            ==> r.reassembled == s.reassembled && Pending(r, p.header.id) == Pending(s, p.header.id) + [p]
                && r.next == s.next + [Request(p.header.id, p.header.length + p.header.fragOffset)]
    ensures r.toReassemble - {s.toOrder[0].header.id} == s.toReassemble - {s.toOrder[0].header.id}
  {
    var p := s.toOrder[0];
    var id := p.header.id;
    var pending := Pending(s, id) + [p];
    var s1 := s.(toOrder := s.toOrder[1..]);
    if p.header.mf == 0 then
      s1.(toReassemble := s.toReassemble - {id}, reassembled := s.reassembled + [pending])
    else
      s1.(toReassemble := s.toReassemble[id := pending],
          next := s.next + [Request(id, p.header.length + p.header.fragOffset)])
  }

  /** No channel holds anything: every goroutine is blocked waiting for input. */
  predicate Quiet(s: Pipeline)
  {
    s.fragChan == [] && s.toStore == [] && s.toOrder == [] && s.next == []
  }

  /**
   * One step of some goroutine that has input. The goroutines run
   * concurrently in the source; the model fixes this order of preference.
   */
  function Step(s: Pipeline): (r: Pipeline)
    requires !Quiet(s)
    ensures s.reassembled <= r.reassembled && |r.reassembled| <= |s.reassembled| + 1
  {
    if |s.fragChan| > 0 then FragHandlerStep(s)
    else if |s.toStore| > 0 then StorePacketStep(s)
    else if |s.next| > 0 then StoreRequestStep(s)
    else OrdererStep(s)
  }

  /** Steps until the pipeline is quiet, at most `fuel` of them. */
  function Run(s: Pipeline, fuel: nat): (r: Pipeline)
    ensures Quiet(s) ==> r == s
    ensures s.reassembled <= r.reassembled && |r.reassembled| <= |s.reassembled| + fuel
    decreases fuel
  {
    if fuel == 0 || Quiet(s) then s else Run(Step(s), fuel - 1)
  }

  /** `fragChan <- p`. */
  function Arrive(s: Pipeline, p: NetworkPacket): Pipeline
  {
    s.(fragChan := s.fragChan + [p])
  }

  /** The packets arrive one at a time, and the goroutines run for up to `fuel` steps after each. */
  function Deliver(s: Pipeline, ps: seq<NetworkPacket>, fuel: nat): Pipeline
  {
    if ps == [] then s else Run(Arrive(Deliver(s, ps[..|ps| - 1], fuel), ps[|ps| - 1]), fuel)
  }
}
