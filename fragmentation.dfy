/**
 * `Router.fragment` of cmd/network/network2: a packet whose payload does not
 * fit the outgoing MTU is cut into chunks of `maxLength - 30` characters,
 * each sent with a copy of the original addresses and ID, the MF flag set on
 * every fragment but the last, and the offset of its chunk in the payload.
 */
module Fragmentation {
  import opened Codec

  /** The payloads of a packet sequence, laid end to end. */
  function Payloads(fs: seq<NetworkPacket>): string
  {
    if fs == [] then "" else fs[0].dataS + Payloads(fs[1..])
  }

  /**
   * The header `fragment` builds from the original header `h` with the
   * `PacketHeaderID(h.ID)`, `PacketHeaderMF(mf)` and `PacketHeaderFragOffset(offset)` options.
   */
  function FragmentHeader(h: PacketHeader, length: int, mf: int, offset: int, draw: RandomId): (r: PacketHeader)
    ensures r == PacketHeader(h.dstAddr, h.srcAddr, ChosenId(h.id, draw), length, NormalizeMf(mf), offset)
  {
    NewPacketHeaderWith(h.dstAddr, h.srcAddr, length, h.id, mf, offset, draw);
    NewPacketHeader(h.dstAddr, h.srcAddr, length, [IdOption(h.id), MfOption(mf), FragOffsetOption(offset)], draw)
  }

  /**
   * The fragments still to be produced for the remaining payload `data`,
   * whose first character sits at `offset` of the original payload.
   * The source needs `chunk > 0` once any data is left: with a negative
   * chunk the slice panics, and with a chunk of 0 the loop never ends.
   */
  function FragmentsFrom(chunk: int, h: PacketHeader, data: string, offset: int, draw: RandomId): seq<NetworkPacket>
    requires chunk > 0 || |data| == 0
    decreases |data|
  {
    if |data| == 0 then []
    else if |data| <= chunk then [NetworkPacket(FragmentHeader(h, |data|, 0, offset, draw), data)]
    else [NetworkPacket(FragmentHeader(h, chunk, 1, offset, draw), data[..chunk])]
         + FragmentsFrom(chunk, h, data[chunk..], offset + chunk, draw)
  }

  /** What `fragment(maxLength, p)` returns. */
  function FragmentSpec(maxLength: int, p: NetworkPacket, draw: RandomId): seq<NetworkPacket>
    requires maxLength > HeaderLength || |p.dataS| == 0
  {
    FragmentsFrom(maxLength - HeaderLength, p.header, p.dataS, 0, draw)
  }

  /** `Router.fragment`, with its loop. */
  method Fragment(maxLength: int, p: NetworkPacket, draw: RandomId) returns (toReturn: seq<NetworkPacket>)
    requires maxLength > HeaderLength || |p.dataS| == 0
    ensures toReturn == FragmentSpec(maxLength, p, draw)
  {
    toReturn := [];
    var currentOffSet := 0;
    var data := p.dataS;
    while |data| > 0
      invariant maxLength > HeaderLength || |data| == 0
      invariant toReturn + FragmentsFrom(maxLength - HeaderLength, p.header, data, currentOffSet, draw)
             == FragmentSpec(maxLength, p, draw)
      decreases |data|
    {
      if |data| <= maxLength - HeaderLength {
        var newData := data;
        var fragPacketHeader := NewPacketHeader(p.header.dstAddr, p.header.srcAddr, |newData|,
          [IdOption(p.header.id), MfOption(0), FragOffsetOption(currentOffSet)], draw);
        toReturn := toReturn + [NetworkPacket(fragPacketHeader, newData)];
        break;
      }
      var newData := data[..maxLength - HeaderLength];
      data := data[maxLength - HeaderLength..];
      var fragPacketHeader := NewPacketHeader(p.header.dstAddr, p.header.srcAddr, |newData|,
        [IdOption(p.header.id), MfOption(1), FragOffsetOption(currentOffSet)], draw);
      currentOffSet := currentOffSet + |newData|;
      toReturn := toReturn + [NetworkPacket(fragPacketHeader, newData)];
    }
  }

  /** The payloads of the fragments, laid end to end, are the data they were cut from. */
  lemma {:induction false} FragmentsPayload(chunk: int, h: PacketHeader, data: string, offset: int, draw: RandomId)
    requires chunk > 0 || |data| == 0
    ensures Payloads(FragmentsFrom(chunk, h, data, offset, draw)) == data
    decreases |data|
  {
    if |data| > 0 && |data| > chunk {
      FragmentsPayload(chunk, h, data[chunk..], offset + chunk, draw);
      assert data == data[..chunk] + data[chunk..];
    }
  }

  /**
   * A fragment cut from `h`: a non-empty chunk of at most `chunk`
   * characters, its own payload length, the original addresses and ID, lying
   * within `lo .. hi` of the original payload.
   */
  predicate Shaped(f: NetworkPacket, chunk: int, h: PacketHeader, draw: RandomId, lo: int, hi: int)
  {
    0 < |f.dataS| <= chunk && f.header.length == |f.dataS|
    && f.header.dstAddr == h.dstAddr && f.header.srcAddr == h.srcAddr
    && f.header.id == ChosenId(h.id, draw)
    && lo <= f.header.fragOffset && f.header.fragOffset + f.header.length <= hi
  }

  /** Every fragment is `Shaped` within `offset .. offset + |data|`. */
  lemma {:induction false} FragmentsShape(chunk: int, h: PacketHeader, data: string, offset: int, draw: RandomId)
    requires chunk > 0 || |data| == 0
    ensures forall i :: 0 <= i < |FragmentsFrom(chunk, h, data, offset, draw)| ==>
              Shaped(FragmentsFrom(chunk, h, data, offset, draw)[i], chunk, h, draw, offset, offset + |data|)
    decreases |data|
  {
    if |data| > 0 && |data| > chunk {
      var fs := FragmentsFrom(chunk, h, data, offset, draw);
      var tail := FragmentsFrom(chunk, h, data[chunk..], offset + chunk, draw);
      FragmentsShape(chunk, h, data[chunk..], offset + chunk, draw);
      forall i | 1 <= i < |fs|
        ensures Shaped(fs[i], chunk, h, draw, offset, offset + |data|)
      {
        assert fs[i] == tail[i - 1];
      }
    }
  }

  /** Each fragment but the last has MF set and is followed by the one starting where it ends. */
  predicate Linked(fs: seq<NetworkPacket>)
  {
    forall i :: 0 <= i < |fs| - 1 ==>
      fs[i].header.mf == 1
      && fs[i + 1].header.fragOffset == fs[i].header.fragOffset + fs[i].header.length
  }

  /**
   * The fragments form a chain: there are some exactly when data is left,
   * the first starts at `offset`, the last has MF 0, and each other one has
   * MF 1 and is followed by the fragment starting where it ends.
   */
  lemma {:induction false} FragmentsLinked(chunk: int, h: PacketHeader, data: string, offset: int, draw: RandomId)
    requires chunk > 0 || |data| == 0
    ensures (|FragmentsFrom(chunk, h, data, offset, draw)| == 0 <==> |data| == 0)
    ensures |data| > 0 ==> FragmentsFrom(chunk, h, data, offset, draw)[0].header.fragOffset == offset
    ensures |data| > 0 ==> Last(FragmentsFrom(chunk, h, data, offset, draw)).header.mf == 0
    ensures Linked(FragmentsFrom(chunk, h, data, offset, draw))
    decreases |data|
  {
    if |data| > 0 && |data| > chunk {
      var fs := FragmentsFrom(chunk, h, data, offset, draw);
      var tail := FragmentsFrom(chunk, h, data[chunk..], offset + chunk, draw);
      FragmentsLinked(chunk, h, data[chunk..], offset + chunk, draw);
      assert Last(fs) == Last(tail);
      forall i | 0 <= i < |fs| - 1
        ensures fs[i].header.mf == 1
        ensures fs[i + 1].header.fragOffset == fs[i].header.fragOffset + fs[i].header.length
      {
        if i > 0 {
          assert fs[i] == tail[i - 1] && fs[i + 1] == tail[i];
        }
      }
    }
  }

  function Last(fs: seq<NetworkPacket>): NetworkPacket
    requires |fs| > 0
  {
    fs[|fs| - 1]
  }

  /** The number of fragments is the payload length divided by the chunk size, rounded up. */
  lemma {:induction false} FragmentsCount(chunk: int, h: PacketHeader, data: string, offset: int, draw: RandomId)
    requires chunk > 0
    ensures (|FragmentsFrom(chunk, h, data, offset, draw)| - 1) * chunk < |data|
            <= |FragmentsFrom(chunk, h, data, offset, draw)| * chunk
         || (|FragmentsFrom(chunk, h, data, offset, draw)| == 0 && |data| == 0)
    decreases |data|
  {
    if |data| > 0 && |data| > chunk {
      var rest := data[chunk..];
      FragmentsCount(chunk, h, rest, offset + chunk, draw);
      var m := |FragmentsFrom(chunk, h, rest, offset + chunk, draw)|;
      assert (m + 1) * chunk == m * chunk + chunk;
      assert m * chunk == (m - 1) * chunk + chunk;
    }
  }

  /**
   * Fragments in transmission order: at least one, one ID, each Length
   * field equal to its non-empty payload, the first at offset 0, the last
   * with MF 0, and the others `Linked`.
   */
  predicate IsFragmentChain(fs: seq<NetworkPacket>)
  {
    |fs| >= 1
    && fs[0].header.fragOffset == 0
    && Last(fs).header.mf == 0
    && (forall i :: 0 <= i < |fs| ==>
          fs[i].header.id == fs[0].header.id
          && fs[i].header.length == |fs[i].dataS| && fs[i].header.length > 0)
    && Linked(fs)
  }

  /**
   * What `fragment` returns for a non-empty payload: a chain whose payloads
   * rebuild the original, each fragment `Shaped` (at most `maxLength - 30`
   * characters, the original addresses and ID), and as many fragments as
   * the payload length over `maxLength - 30`, rounded up.
   */
  lemma FragmentSpecIsChain(maxLength: int, p: NetworkPacket, draw: RandomId)
    requires maxLength > HeaderLength && |p.dataS| > 0
    ensures IsFragmentChain(FragmentSpec(maxLength, p, draw))
    ensures Payloads(FragmentSpec(maxLength, p, draw)) == p.dataS
    ensures (|FragmentSpec(maxLength, p, draw)| - 1) * (maxLength - HeaderLength) < |p.dataS|
            <= |FragmentSpec(maxLength, p, draw)| * (maxLength - HeaderLength)
    ensures forall i :: 0 <= i < |FragmentSpec(maxLength, p, draw)| ==>
              Shaped(FragmentSpec(maxLength, p, draw)[i], maxLength - HeaderLength, p.header, draw, 0, |p.dataS|)
  {
    FragmentsCount(maxLength - HeaderLength, p.header, p.dataS, 0, draw);
    FragmentSpecChain(maxLength, p, draw);
  }

  lemma FragmentSpecChain(maxLength: int, p: NetworkPacket, draw: RandomId)
    requires maxLength > HeaderLength && |p.dataS| > 0
    ensures IsFragmentChain(FragmentSpec(maxLength, p, draw))
    ensures Payloads(FragmentSpec(maxLength, p, draw)) == p.dataS
    ensures forall i :: 0 <= i < |FragmentSpec(maxLength, p, draw)| ==>
              Shaped(FragmentSpec(maxLength, p, draw)[i], maxLength - HeaderLength, p.header, draw, 0, |p.dataS|)
  {
    var chunk := maxLength - HeaderLength;
    var fs := FragmentSpec(maxLength, p, draw);
    FragmentsShape(chunk, p.header, p.dataS, 0, draw);
    FragmentsLinked(chunk, p.header, p.dataS, 0, draw);
    FragmentsPayload(chunk, p.header, p.dataS, 0, draw);
    forall i | 0 <= i < |fs|
      ensures fs[i].header.id == fs[0].header.id
    {
      assert Shaped(fs[i], chunk, p.header, draw, 0, |p.dataS|);
      assert Shaped(fs[0], chunk, p.header, draw, 0, |p.dataS|);
    }
  }

  /** A payload that already fits is sent as a single fragment equal to the packet, up to the header normalisations. */
  lemma FragmentFits(maxLength: int, p: NetworkPacket, draw: RandomId)
    requires 0 < |p.dataS| <= maxLength - HeaderLength
    ensures FragmentSpec(maxLength, p, draw)
         == [NetworkPacket(PacketHeader(p.header.dstAddr, p.header.srcAddr, ChosenId(p.header.id, draw), |p.dataS|, 0, 0), p.dataS)]
  {
  }

  /**
   * When the original header fits the wire format and the payload is at most
   * 99999 characters, every fragment encodes to at most `maxLength`
   * characters: the MTU the router fragmented for.
   */
  lemma FragmentsFitMtu(maxLength: int, p: NetworkPacket, draw: RandomId)
    requires maxLength > HeaderLength || |p.dataS| == 0
    requires HeaderFits(p.header) && |p.dataS| <= 99999
    ensures forall i :: 0 <= i < |FragmentSpec(maxLength, p, draw)| ==>
              HeaderFits(FragmentSpec(maxLength, p, draw)[i].header)
              && |ToByteS(FragmentSpec(maxLength, p, draw)[i])| <= maxLength
  {
    var chunk := maxLength - HeaderLength;
    var fs := FragmentsFrom(chunk, p.header, p.dataS, 0, draw);
    FragmentsShape(chunk, p.header, p.dataS, 0, draw);
    FragmentsMfRange(chunk, p.header, p.dataS, 0, draw);
    forall i | 0 <= i < |fs|
      ensures HeaderFits(fs[i].header) && |ToByteS(fs[i])| <= maxLength
    {
      assert Shaped(fs[i], chunk, p.header, draw, 0, |p.dataS|);
      FragmentBound(chunk, p.header, fs[i]);
    }
  }

  /** One fragment of a header that fits, with at most `chunk` characters, fits `chunk + 30`. */
  lemma FragmentBound(chunk: int, h: PacketHeader, f: NetworkPacket)
    requires HeaderFits(h)
    requires |f.dataS| <= chunk && f.header.length == |f.dataS| && f.header.length <= 99999
    requires f.header.dstAddr == h.dstAddr && f.header.srcAddr == h.srcAddr
    requires f.header.id == h.id || 0 <= f.header.id < 99999
    requires f.header.mf == 0 || f.header.mf == 1
    requires 0 <= f.header.fragOffset <= 99999
    ensures HeaderFits(f.header) && |ToByteS(f)| <= chunk + HeaderLength
  {
    EncodeHeaderLayout(f.header);
  }

  /** Every fragment's MF flag is 0 or 1. */
  lemma {:induction false} FragmentsMfRange(chunk: int, h: PacketHeader, data: string, offset: int, draw: RandomId)
    requires chunk > 0 || |data| == 0
    ensures forall i :: 0 <= i < |FragmentsFrom(chunk, h, data, offset, draw)| ==>
              FragmentsFrom(chunk, h, data, offset, draw)[i].header.mf in {0, 1}
    decreases |data|
  {
    if |data| > 0 && |data| > chunk {
      var fs := FragmentsFrom(chunk, h, data, offset, draw);
      var tail := FragmentsFrom(chunk, h, data[chunk..], offset + chunk, draw);
      FragmentsMfRange(chunk, h, data[chunk..], offset + chunk, draw);
      forall i | 1 <= i < |fs|
        ensures fs[i] == tail[i - 1]
      {
      }
    }
  }
}
