/**
 * The reassembly pipeline puts a fragmented packet back together whatever
 * order its fragments arrive in: the orderer always holds a prefix of the
 * fragment chain, in increasing offset, and reassembles the whole payload
 * exactly once, when the last missing fragment arrives.
 *
 * The schedule is one arrival at a time, each followed by running the
 * goroutines until every channel is empty.
 */
module ReassemblyProof {
  import opened Codec
  import opened Fragmentation
  import opened Reassembly

  function ChainId(fs: seq<NetworkPacket>): int
    requires |fs| > 0
  {
    fs[0].header.id
  }

  function Off(fs: seq<NetworkPacket>, k: int): int
    requires 0 <= k < |fs|
  {
    fs[k].header.fragOffset
  }

  /** Offsets grow strictly along a chain. */
  lemma {:induction false} OffsetsIncrease(fs: seq<NetworkPacket>, j: int, k: int)
    requires IsFragmentChain(fs) && 0 <= j < k < |fs|
    ensures Off(fs, j) < Off(fs, k)
    decreases k - j
  {
    assert fs[j].header.length > 0;
    assert Off(fs, j + 1) == Off(fs, j) + fs[j].header.length;
    if j + 1 < k {
      OffsetsIncrease(fs, j + 1, k);
    }
  }

  /** An offset identifies its fragment within a chain. */
  lemma OffsetsDistinct(fs: seq<NetworkPacket>, j: int, k: int)
    requires IsFragmentChain(fs) && 0 <= j < |fs| && 0 <= k < |fs|
    requires Off(fs, j) == Off(fs, k)
    ensures j == k
  {
    if j < k { OffsetsIncrease(fs, j, k); }
    if k < j { OffsetsIncrease(fs, k, j); }
  }

  /** Every fragment but the first has a positive offset. */
  lemma OffsetPositive(fs: seq<NetworkPacket>, k: int)
    requires IsFragmentChain(fs) && 0 < k < |fs|
    ensures Off(fs, k) > 0
  {
    OffsetsIncrease(fs, 0, k);
  }

  /** The smallest index in `c .. n` missing from `arrived`, or `n`. */
  function Gap(arrived: set<int>, n: nat, c: nat): nat
    requires c <= n
    decreases n - c
  {
    if c == n || c !in arrived then c else Gap(arrived, n, c + 1)
  }

  /** The fragment the orderer waits for: the first one that has not arrived. */
  function First(arrived: set<int>, n: nat): nat
  {
    Gap(arrived, n, 0)
  }

  lemma {:induction false} GapSpec(arrived: set<int>, n: nat, c: nat)
    requires c <= n
    ensures c <= Gap(arrived, n, c) <= n
    ensures forall k :: c <= k < Gap(arrived, n, c) ==> k in arrived
    ensures Gap(arrived, n, c) < n ==> Gap(arrived, n, c) !in arrived
    decreases n - c
  {
    if c < n && c in arrived {
      GapSpec(arrived, n, c + 1);
    }
  }

  /** `First` is characterised by: everything before it has arrived and it has not. */
  lemma FirstIs(arrived: set<int>, n: nat, g: nat)
    requires g <= n
    requires forall k :: 0 <= k < g ==> k in arrived
    requires g < n ==> g !in arrived
    ensures First(arrived, n) == g
  {
    GapSpec(arrived, n, 0);
  }

  lemma FirstSpec(arrived: set<int>, n: nat)
    ensures First(arrived, n) <= n
    ensures forall k :: 0 <= k < First(arrived, n) ==> k in arrived
    ensures First(arrived, n) < n ==> First(arrived, n) !in arrived
  {
    GapSpec(arrived, n, 0);
  }

  /** The pipeline has never seen `id`. */
  predicate Fresh(s: Pipeline, id: int)
  {
    id !in s.store && id !in s.nextMap && id !in s.toReassemble
  }

  /** Whatever the store holds at a chain offset is that fragment, and it has arrived. */
  predicate StoreOk(s: Pipeline, fs: seq<NetworkPacket>, arrived: set<int>)
    requires |fs| > 0
  {
    forall k :: 0 <= k < |fs| && Off(fs, k) in Stored(s, ChainId(fs)) ==>
      Stored(s, ChainId(fs))[Off(fs, k)] == fs[k] && k in arrived
  }

  /** Nothing belonging to another ID has changed. */
  predicate Framed(s: Pipeline, s0: Pipeline, id: int)
  {
    s.store - {id} == s0.store - {id}
    && s.nextMap - {id} == s0.nextMap - {id}
    && s.toReassemble - {id} == s0.toReassemble - {id}
  }

  /**
   * The state after the fragments with indices in `arrived` have been
   * delivered to `s0`. With `c` the first missing index: if some fragment is
   * missing, the orderer holds exactly `fs[..c]`, the storage handler expects
   * the offset of `fs[c]` and nothing has been reassembled; if none is, the
   * payload has been reassembled once and the orderer has forgotten the ID.
   * Every fragment past `c` that has arrived is waiting in the store.
   */
  predicate Inv(s: Pipeline, s0: Pipeline, fs: seq<NetworkPacket>, arrived: set<int>)
    requires IsFragmentChain(fs)
  {
    Quiet(s)
    && (forall k :: k in arrived ==> 0 <= k < |fs|)
    && (First(arrived, |fs|) < |fs| ==>
          Pending(s, ChainId(fs)) == fs[..First(arrived, |fs|)]
          && Expected(s, ChainId(fs)) == Off(fs, First(arrived, |fs|))
          && s.reassembled == s0.reassembled)
    && (First(arrived, |fs|) == |fs| ==>
          ChainId(fs) !in s.toReassemble && s.reassembled == s0.reassembled + [fs])
    && StoreOk(s, fs, arrived)
    && (forall k :: k in arrived && First(arrived, |fs|) < k < |fs| ==> Off(fs, k) in Stored(s, ChainId(fs)))
    && Framed(s, s0, ChainId(fs))
  }

  /**
   * Fragment `k` is on its way to the orderer, alone in the channels, all
   * fragments up to `k` have arrived, and the orderer holds those before it.
   */
  predicate Ready(s: Pipeline, s0: Pipeline, fs: seq<NetworkPacket>, arrived: set<int>, k: int)
    requires IsFragmentChain(fs)
  {
    0 <= k < |fs|
    && s.fragChan == [] && s.toStore == [] && s.next == [] && s.toOrder == [fs[k]]
    && Pending(s, ChainId(fs)) == fs[..k] && s.reassembled == s0.reassembled
    && (forall m :: m in arrived ==> 0 <= m < |fs|)
    && (forall m :: 0 <= m <= k ==> m in arrived)
    && StoreOk(s, fs, arrived)
    && (forall m :: m in arrived && k < m < |fs| ==> Off(fs, m) in Stored(s, ChainId(fs)))
    && Framed(s, s0, ChainId(fs))
  }

  /**
   * The orderer has just asked for fragment `k`, the request is alone in the
   * channels, all fragments before `k` have arrived and the orderer holds them.
   */
  predicate Requested(s: Pipeline, s0: Pipeline, fs: seq<NetworkPacket>, arrived: set<int>, k: int)
    requires IsFragmentChain(fs)
  {
    0 < k < |fs|
    && s.fragChan == [] && s.toStore == [] && s.toOrder == [] && s.next == [Request(ChainId(fs), Off(fs, k))]
    && Pending(s, ChainId(fs)) == fs[..k] && s.reassembled == s0.reassembled
    && (forall m :: m in arrived ==> 0 <= m < |fs|)
    && (forall m :: 0 <= m < k ==> m in arrived)
    && StoreOk(s, fs, arrived)
    && (forall m :: m in arrived && k <= m < |fs| ==> Off(fs, m) in Stored(s, ChainId(fs)))
    && Framed(s, s0, ChainId(fs))
  }

  /** The orderer takes the last fragment: `reAssemble` gets the whole chain. */
  lemma OrderLast(s: Pipeline, s0: Pipeline, fs: seq<NetworkPacket>, arrived: set<int>)
    requires IsFragmentChain(fs) && Ready(s, s0, fs, arrived, |fs| - 1)
    ensures Inv(OrdererStep(s), s0, fs, arrived)
  {
    var k := |fs| - 1;
    assert fs[..k] + [fs[k]] == fs;
    FirstIs(arrived, |fs|, |fs|);
  }

  /** The orderer takes a fragment that is not the last and asks for the next one. */
  lemma OrderRequest(s: Pipeline, s0: Pipeline, fs: seq<NetworkPacket>, arrived: set<int>, k: int)
    requires IsFragmentChain(fs) && Ready(s, s0, fs, arrived, k) && k < |fs| - 1
    ensures Requested(OrdererStep(s), s0, fs, arrived, k + 1)
  {
    assert fs[..k] + [fs[k]] == fs[..k + 1];
    assert fs[k].header.mf == 1;
  }

  /** The requested fragment is in the store: it goes to the orderer. */
  lemma RequestFound(s: Pipeline, s0: Pipeline, fs: seq<NetworkPacket>, arrived: set<int>, k: int)
    requires IsFragmentChain(fs) && Requested(s, s0, fs, arrived, k) && k in arrived
    ensures Ready(StoreRequestStep(s), s0, fs, arrived, k)
  {
    assert Off(fs, k) in Stored(s, ChainId(fs));
  }

  /** The requested fragment has not arrived: the storage handler now expects it. */
  lemma RequestMissing(s: Pipeline, s0: Pipeline, fs: seq<NetworkPacket>, arrived: set<int>, k: int)
    requires IsFragmentChain(fs) && Requested(s, s0, fs, arrived, k) && k !in arrived
    ensures Inv(StoreRequestStep(s), s0, fs, arrived)
  {
    assert Off(fs, k) !in Stored(s, ChainId(fs));
    FirstIs(arrived, |fs|, k);
  }

  /** With only the orderer's channel non-empty, the orderer runs next. */
  lemma RunOrderer(s: Pipeline, fuel: nat)
    requires s.fragChan == [] && s.toStore == [] && s.next == [] && |s.toOrder| > 0 && fuel > 0
    ensures Run(s, fuel) == Run(OrdererStep(s), fuel - 1)
  {
  }

  /** With only the request channel non-empty, the storage handler serves the request next. */
  lemma RunRequest(s: Pipeline, fuel: nat)
    requires s.fragChan == [] && s.toStore == [] && |s.next| > 0 && fuel > 0
    ensures Run(s, fuel) == Run(StoreRequestStep(s), fuel - 1)
  {
  }

  /** With a fragment on `fragChan`, `fragHandler` runs next. */
  lemma RunFragHandler(s: Pipeline, fuel: nat)
    requires |s.fragChan| > 0 && fuel > 0
    ensures Run(s, fuel) == Run(FragHandlerStep(s), fuel - 1)
  {
  }

  /** With `fragChan` empty and a fragment for the storage handler, it runs next. */
  lemma RunStorePacket(s: Pipeline, fuel: nat)
    requires s.fragChan == [] && |s.toStore| > 0 && fuel > 0
    ensures Run(s, fuel) == Run(StorePacketStep(s), fuel - 1)
  {
  }

  /**
   * From `Ready` at `k`, the orderer and the storage handler pass fragments
   * between them until the chain is complete or the next fragment is missing.
   */
  lemma {:induction false} Pull(s: Pipeline, s0: Pipeline, fs: seq<NetworkPacket>, arrived: set<int>, k: int, fuel: nat)
    requires IsFragmentChain(fs) && Ready(s, s0, fs, arrived, k)
    requires fuel >= 2 * (|fs| - k)
    ensures Inv(Run(s, fuel), s0, fs, arrived)
    decreases |fs| - k, 1
  {
    RunOrderer(s, fuel);
    if k == |fs| - 1 {
      OrderLast(s, s0, fs, arrived);
    } else {
      OrderRequest(s, s0, fs, arrived, k);
      PullNext(OrdererStep(s), s0, fs, arrived, k + 1, fuel - 1);
    }
  }

  /** The request for fragment `k` is served: either the chain goes on, or it waits for `k`. */
  lemma {:induction false} PullNext(s: Pipeline, s0: Pipeline, fs: seq<NetworkPacket>, arrived: set<int>, k: int, fuel: nat)
    requires IsFragmentChain(fs) && Requested(s, s0, fs, arrived, k)
    requires fuel >= 2 * (|fs| - k) + 1
    ensures Inv(Run(s, fuel), s0, fs, arrived)
    decreases |fs| - k, 2
  {
    RunRequest(s, fuel);
    if k in arrived {
      RequestFound(s, s0, fs, arrived, k);
      Pull(StoreRequestStep(s), s0, fs, arrived, k, fuel - 1);
    } else {
      RequestMissing(s, s0, fs, arrived, k);
    }
  }

  /** The first fragment arrives while it is the one awaited: `fragHandler` hands it to the orderer. */
  lemma ArriveFirst(s: Pipeline, s0: Pipeline, fs: seq<NetworkPacket>, arrived: set<int>)
    requires IsFragmentChain(fs) && Inv(s, s0, fs, arrived) && 0 !in arrived
    ensures Ready(FragHandlerStep(Arrive(s, fs[0])), s0, fs, arrived + {0}, 0)
  {
    FirstSpec(arrived, |fs|);
  }

  /** The awaited fragment, not the first, arrives: the storage handler passes it on. */
  lemma ArriveAwaited(s: Pipeline, s0: Pipeline, fs: seq<NetworkPacket>, arrived: set<int>, c: int)
    requires IsFragmentChain(fs) && Inv(s, s0, fs, arrived)
    requires c == First(arrived, |fs|) && 0 < c < |fs| && Off(fs, c) > 0
    ensures Ready(StorePacketStep(FragHandlerStep(Arrive(s, fs[c]))), s0, fs, arrived + {c}, c)
  {
    FirstSpec(arrived, |fs|);
  }

  /** A fragment past the awaited one arrives: the storage handler files it. */
  lemma ArriveEarly(s: Pipeline, s0: Pipeline, fs: seq<NetworkPacket>, arrived: set<int>, j: int)
    requires IsFragmentChain(fs) && Inv(s, s0, fs, arrived)
    requires First(arrived, |fs|) < j < |fs| && Off(fs, j) > 0
    ensures Inv(StorePacketStep(FragHandlerStep(Arrive(s, fs[j]))), s0, fs, arrived + {j})
  {
    var c := First(arrived, |fs|);
    FirstSpec(arrived, |fs|);
    if Off(fs, j) == Off(fs, c) { OffsetsDistinct(fs, j, c); }
    FirstIs(arrived + {j}, |fs|, c);
    StoreAdd(s, StorePacketStep(FragHandlerStep(Arrive(s, fs[j]))), fs, arrived, j);
  }

  /** One more fragment arrives, and the goroutines run until they are quiet again. */
  lemma ArriveOne(s: Pipeline, s0: Pipeline, fs: seq<NetworkPacket>, arrived: set<int>, j: int, fuel: nat)
    requires IsFragmentChain(fs) && Inv(s, s0, fs, arrived)
    requires 0 <= j < |fs| && j !in arrived
    requires fuel >= 2 * |fs| + 2
    ensures Inv(Run(Arrive(s, fs[j]), fuel), s0, fs, arrived + {j})
  {
    FirstSpec(arrived, |fs|);
    if j == 0 {
      RunArriveFirst(s, s0, fs, arrived, fuel);
    } else {
      OffsetPositive(fs, j);
      if j == First(arrived, |fs|) {
        RunArriveAwaited(s, s0, fs, arrived, j, fuel);
      } else {
        RunArriveEarly(s, s0, fs, arrived, j, fuel);
      }
    }
  }

  lemma RunArriveFirst(s: Pipeline, s0: Pipeline, fs: seq<NetworkPacket>, arrived: set<int>, fuel: nat)
    requires IsFragmentChain(fs) && Inv(s, s0, fs, arrived) && 0 !in arrived
    requires fuel >= 2 * |fs| + 2
    ensures Inv(Run(Arrive(s, fs[0]), fuel), s0, fs, arrived + {0})
  {
    RunFragHandler(Arrive(s, fs[0]), fuel);
    ArriveFirst(s, s0, fs, arrived);
    Pull(FragHandlerStep(Arrive(s, fs[0])), s0, fs, arrived + {0}, 0, fuel - 1);
  }

  lemma RunArriveAwaited(s: Pipeline, s0: Pipeline, fs: seq<NetworkPacket>, arrived: set<int>, c: int, fuel: nat)
    requires IsFragmentChain(fs) && Inv(s, s0, fs, arrived)
    requires c == First(arrived, |fs|) && 0 < c < |fs| && Off(fs, c) > 0
    requires fuel >= 2 * |fs| + 2
    ensures Inv(Run(Arrive(s, fs[c]), fuel), s0, fs, arrived + {c})
  {
    var s2 := FragHandlerStep(Arrive(s, fs[c]));
    RunFragHandler(Arrive(s, fs[c]), fuel);
    RunStorePacket(s2, fuel - 1);
    ArriveAwaited(s, s0, fs, arrived, c);
    Pull(StorePacketStep(s2), s0, fs, arrived + {c}, c, fuel - 2);
  }

  lemma RunArriveEarly(s: Pipeline, s0: Pipeline, fs: seq<NetworkPacket>, arrived: set<int>, j: int, fuel: nat)
    requires IsFragmentChain(fs) && Inv(s, s0, fs, arrived)
    requires First(arrived, |fs|) < j < |fs| && Off(fs, j) > 0
    requires fuel >= 2 * |fs| + 2
    ensures Inv(Run(Arrive(s, fs[j]), fuel), s0, fs, arrived + {j})
  {
    var s2 := FragHandlerStep(Arrive(s, fs[j]));
    RunFragHandler(Arrive(s, fs[j]), fuel);
    RunStorePacket(s2, fuel - 1);
    ArriveEarly(s, s0, fs, arrived, j);
  }

  /** Filing an arrived fragment that is not the expected one keeps `StoreOk`. */
  lemma StoreAdd(s: Pipeline, s3: Pipeline, fs: seq<NetworkPacket>, arrived: set<int>, j: int)
    requires IsFragmentChain(fs) && 0 <= j < |fs|
    requires StoreOk(s, fs, arrived)
    requires Stored(s3, ChainId(fs)) == Stored(s, ChainId(fs))[Off(fs, j) := fs[j]]
    ensures StoreOk(s3, fs, arrived + {j})
  {
    forall k | 0 <= k < |fs| && Off(fs, k) in Stored(s3, ChainId(fs))
      ensures Stored(s3, ChainId(fs))[Off(fs, k)] == fs[k] && k in arrived + {j}
    {
      if Off(fs, k) == Off(fs, j) { OffsetsDistinct(fs, k, j); }
    }
  }

  /** `order` lists each index below `n` exactly once. */
  predicate IsPermutation(order: seq<int>, n: nat)
  {
    |order| == n
    && (forall i :: 0 <= i < n ==> 0 <= order[i] < n)
    && (forall i, j :: 0 <= i < j < n ==> order[i] != order[j])
    && (forall k :: 0 <= k < n ==> k in order)
  }

  /** The fragments in the order given by `order`. */
  function Reorder(fs: seq<NetworkPacket>, order: seq<int>): (r: seq<NetworkPacket>)
    requires forall i :: 0 <= i < |order| ==> 0 <= order[i] < |fs|
    ensures |r| == |order|
    ensures forall i :: 0 <= i < |order| ==> r[i] == fs[order[i]]
  {
    if order == [] then [] else Reorder(fs, order[..|order| - 1]) + [fs[order[|order| - 1]]]
  }

  function Arrived(order: seq<int>, t: nat): set<int>
    requires t <= |order|
  {
    set i | 0 <= i < t :: order[i]
  }

  /**
   * After the first `t` fragments of any arrival order, the pipeline is in
   * the state `Inv` describes: in particular the orderer's list for the ID
   * is the chain prefix before the first missing fragment, in increasing
   * offset.
   */
  lemma {:induction false} DeliverPrefix(s0: Pipeline, fs: seq<NetworkPacket>, order: seq<int>, t: nat, fuel: nat)
    requires IsFragmentChain(fs) && IsPermutation(order, |fs|)
    requires Quiet(s0) && Fresh(s0, ChainId(fs))
    requires fuel >= 2 * |fs| + 2
    requires t <= |fs|
    ensures Inv(Deliver(s0, Reorder(fs, order[..t]), fuel), s0, fs, Arrived(order, t))
  {
    if t == 0 {
      assert order[..0] == [];
      FirstIs(Arrived(order, 0), |fs|, 0);
    } else {
      DeliverPrefix(s0, fs, order, t - 1, fuel);
      DeliverSnoc(s0, fs, order, t, fuel);
      ArrivedSnoc(order, |fs|, t);
      ArriveOne(Deliver(s0, Reorder(fs, order[..t - 1]), fuel), s0, fs, Arrived(order, t - 1), order[t - 1], fuel);
    }
  }

  /** Delivering one more fragment of the arrival order. */
  lemma DeliverSnoc(s0: Pipeline, fs: seq<NetworkPacket>, order: seq<int>, t: nat, fuel: nat)
    requires 0 < t <= |order| && forall i :: 0 <= i < |order| ==> 0 <= order[i] < |fs|
    ensures Deliver(s0, Reorder(fs, order[..t]), fuel)
         == Run(Arrive(Deliver(s0, Reorder(fs, order[..t - 1]), fuel), fs[order[t - 1]]), fuel)
  {
    var ps := Reorder(fs, order[..t]);
    assert order[..t][..t - 1] == order[..t - 1];
    assert ps[..t - 1] == Reorder(fs, order[..t - 1]);
    assert ps[t - 1] == fs[order[t - 1]];
  }

  /** The fragment arriving at time `t` is new. */
  lemma ArrivedSnoc(order: seq<int>, n: nat, t: nat)
    requires IsPermutation(order, n) && 0 < t <= n
    ensures Arrived(order, t) == Arrived(order, t - 1) + {order[t - 1]}
    ensures order[t - 1] !in Arrived(order, t - 1)
    ensures 0 <= order[t - 1] < n
  {
    assert Arrived(order, t) == Arrived(order, t - 1) + {order[t - 1]};
  }

  /**
   * Fragments of one packet, delivered in any order to a pipeline that has
   * not seen their ID, are reassembled exactly once, in offset order:
   * `reAssemble` is called once, with the whole chain, every channel ends
   * empty, the orderer forgets the ID, and no other ID's state changes.
   */
  lemma ReassemblyInAnyOrder(s0: Pipeline, fs: seq<NetworkPacket>, order: seq<int>, fuel: nat)
    requires IsFragmentChain(fs) && IsPermutation(order, |fs|)
    requires Quiet(s0) && Fresh(s0, ChainId(fs))
    requires fuel >= 2 * |fs| + 2
    ensures Quiet(Deliver(s0, Reorder(fs, order), fuel))
    ensures Deliver(s0, Reorder(fs, order), fuel).reassembled == s0.reassembled + [fs]
    ensures Deliver(s0, Reorder(fs, order), fuel).toReassemble == s0.toReassemble
    ensures Framed(Deliver(s0, Reorder(fs, order), fuel), s0, ChainId(fs))
  {
    var n := |fs|;
    DeliverPrefix(s0, fs, order, n, fuel);
    assert order[..n] == order;
    AllArrived(order, n);
    FirstIs(Arrived(order, n), n, n);
    FreshAgain(Deliver(s0, Reorder(fs, order), fuel), s0, ChainId(fs));
  }

  /** A permutation's elements have all arrived once it is delivered completely. */
  lemma AllArrived(order: seq<int>, n: nat)
    requires IsPermutation(order, n)
    ensures forall k :: 0 <= k < n ==> k in Arrived(order, n)
  {
    forall k | 0 <= k < n
      ensures k in Arrived(order, n)
    {
      assert k in order;
      var i :| 0 <= i < n && order[i] == k;
    }
  }

  /** A map that lacks `id` on both sides and agrees elsewhere agrees everywhere. */
  lemma FreshAgain(s: Pipeline, s0: Pipeline, id: int)
    requires Framed(s, s0, id) && id !in s.toReassemble && id !in s0.toReassemble
    ensures s.toReassemble == s0.toReassemble
  {
    assert s.toReassemble == s.toReassemble - {id};
    assert s0.toReassemble == s0.toReassemble - {id};
  }

  /**
   * When the chain's headers fit the wire format, what is reassembled is the
   * chain's payloads laid end to end.
   */
  lemma ReassemblyRebuildsPayload(s0: Pipeline, fs: seq<NetworkPacket>, order: seq<int>, fuel: nat)
    requires IsFragmentChain(fs) && IsPermutation(order, |fs|)
    requires forall i :: 0 <= i < |fs| ==> HeaderFits(fs[i].header)
    requires Quiet(s0) && Fresh(s0, ChainId(fs))
    requires fuel >= 2 * |fs| + 2
    ensures |Deliver(s0, Reorder(fs, order), fuel).reassembled| == |s0.reassembled| + 1
    ensures ReAssembled(Deliver(s0, Reorder(fs, order), fuel).reassembled[|s0.reassembled|]) == Payloads(fs)
  {
    ReassemblyInAnyOrder(s0, fs, order, fuel);
    ReAssembledPayloads(fs);
  }
}
