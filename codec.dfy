/**
 * The wire format of cmd/network/network2: a 30-character header of six
 * zero-padded five-character decimal fields (dst, src, id, length, MF,
 * fragment offset) followed by the payload.
 */
module Codec {
  import opened Wrappers
  import opened Decimal

  const HeaderLength: nat := 30

  /**
   * A value of `r.Intn(99999)`, the random source that replaces an ID of 0.
   * The model takes the drawn value as a parameter.
   */
  type RandomId = x: int | 0 <= x < 99999

  datatype PacketHeader = PacketHeader(
    dstAddr: int, srcAddr: int, id: int, length: int, mf: int, fragOffset: int)

  /** The functional options accepted by `NewPacketHeader`. */
  datatype HeaderOption =
    | IdOption(id: int)                // PacketHeaderID
    | MfOption(mf: int)                // PacketHeaderMF
    | FragOffsetOption(offset: int)    // PacketHeaderFragOffset

  /** `PacketHeaderMF` stores 1 for any positive flag and 0 otherwise. */
  function NormalizeMf(mf: int): int { if mf > 0 then 1 else 0 }

  /** The ID `NewPacketHeader` ends with: the given one, or the random draw in place of 0. */
  function ChosenId(id: int, draw: RandomId): int { if id == 0 then draw else id }

  function ApplyOption(h: PacketHeader, opt: HeaderOption): PacketHeader
  {
    match opt
    case IdOption(id) => h.(id := id)
    case MfOption(mf) => h.(mf := NormalizeMf(mf))
    case FragOffsetOption(offset) => h.(fragOffset := offset)
  }

  /** Applies the options in order; none of them touches the addresses or the length. */
  function ApplyOptions(h: PacketHeader, opts: seq<HeaderOption>): (r: PacketHeader)
    ensures r.dstAddr == h.dstAddr && r.srcAddr == h.srcAddr && r.length == h.length
    ensures (h.mf == 0 || h.mf == 1) ==> (r.mf == 0 || r.mf == 1)
    decreases |opts|
  {
    if opts == [] then h else ApplyOptions(ApplyOption(h, opts[0]), opts[1..])
  }

  /**
   * `NewPacketHeader(dstAddr, srcAddr, length, opts...)`: the options are
   * applied to a header whose other fields are 0, and an ID still 0 after
   * them is replaced by the random draw.
   */
  function NewPacketHeader(dstAddr: int, srcAddr: int, length: int, opts: seq<HeaderOption>, draw: RandomId): (h: PacketHeader)
    ensures h.dstAddr == dstAddr && h.srcAddr == srcAddr && h.length == length
    ensures h.mf == 0 || h.mf == 1
    ensures h.id == 0 ==> draw == 0
  {
    var h := ApplyOptions(PacketHeader(dstAddr, srcAddr, 0, length, 0, 0), opts);
    if h.id == 0 then h.(id := draw) else h
  }

  /** The header that the three options used by the decoder and the fragmenter produce. */
  lemma NewPacketHeaderWith(dstAddr: int, srcAddr: int, length: int, id: int, mf: int, offset: int, draw: RandomId)
    ensures NewPacketHeader(dstAddr, srcAddr, length, [IdOption(id), MfOption(mf), FragOffsetOption(offset)], draw)
         == PacketHeader(dstAddr, srcAddr, ChosenId(id, draw), length, NormalizeMf(mf), offset)
  {
    var opts := [IdOption(id), MfOption(mf), FragOffsetOption(offset)];
    var h0 := PacketHeader(dstAddr, srcAddr, 0, length, 0, 0);
    var h1 := h0.(id := id);
    var h2 := h1.(mf := NormalizeMf(mf));
    var h3 := h2.(fragOffset := offset);
    assert opts[1..] == [MfOption(mf), FragOffsetOption(offset)];
    assert opts[1..][1..] == [FragOffsetOption(offset)];
    assert opts[1..][1..][1..] == [];
    calc {
      ApplyOptions(h0, opts);
      ApplyOptions(h1, opts[1..]);
      ApplyOptions(h2, opts[1..][1..]);
      ApplyOptions(h3, opts[1..][1..][1..]);
      h3;
    }
  }

  /** `encodeHeaderToString`: the six fields in wire order. */
  function EncodeHeader(h: PacketHeader): string
  {
    Field(h.dstAddr) + Field(h.srcAddr) + Field(h.id) + Field(h.length) + Field(h.mf) + Field(h.fragOffset)
  }

  predicate HeaderFits(h: PacketHeader)
  {
    FitsField(h.dstAddr) && FitsField(h.srcAddr) && FitsField(h.id)
    && FitsField(h.length) && FitsField(h.mf) && FitsField(h.fragOffset)
  }

  datatype DecodeError = InvalidHeaderLength | FieldParseError | PacketLengthError

  function ParseField(hd: string, start: nat): Result<int, DecodeError>
    requires start + 5 <= |hd|
  {
    match Atoi(hd[start..start + 5])
    case Success(v) => Success(v)
    case Failure(_) => Failure(FieldParseError)
  }

  /**
   * `parseHeaderFromString`: refuses anything but 30 characters, then
   * parses the six fields in order and builds the header with the
   * `PacketHeaderID`, `PacketHeaderMF` and `PacketHeaderFragOffset` options.
   */
  function ParseHeader(hd: string, draw: RandomId): (r: Result<PacketHeader, DecodeError>)
    ensures (r.Failure? && r.error == InvalidHeaderLength) <==> |hd| != HeaderLength
    ensures r.Success? ==> r.value.mf == 0 || r.value.mf == 1
    ensures r.Success? && r.value.id == 0 ==> draw == 0
    ensures r.Failure? ==> r.error != PacketLengthError
    ensures |hd| == HeaderLength
            ==> ((r.Failure? && r.error == FieldParseError)
                 <==> (ParseField(hd, 0).Failure? || ParseField(hd, 5).Failure? || ParseField(hd, 10).Failure?
                       || ParseField(hd, 15).Failure? || ParseField(hd, 20).Failure? || ParseField(hd, 25).Failure?))
    ensures r.Success?
            <==> (|hd| == HeaderLength
                  && ParseField(hd, 0).Success? && ParseField(hd, 5).Success? && ParseField(hd, 10).Success?
                  && ParseField(hd, 15).Success? && ParseField(hd, 20).Success? && ParseField(hd, 25).Success?)
  {
    if |hd| != HeaderLength then Failure(InvalidHeaderLength)
    else
      var dstAddr :- ParseField(hd, 0);
      var srcAddr :- ParseField(hd, 5);
      var id :- ParseField(hd, 10);
      var l :- ParseField(hd, 15);
      var mf :- ParseField(hd, 20);
      var fo :- ParseField(hd, 25);
      Success(NewPacketHeader(dstAddr, srcAddr, l, [IdOption(id), MfOption(mf), FragOffsetOption(fo)], draw))
  }

  datatype NetworkPacket = NetworkPacket(header: PacketHeader, dataS: string)

  /** `NewNetworkPacket(dstAddr, srcAddr, dataS)`: a header with the payload length and no options. */
  function NewNetworkPacket(dstAddr: int, srcAddr: int, dataS: string, draw: RandomId): (p: NetworkPacket)
    ensures p.dataS == dataS && p.header.length == |dataS|
    ensures p.header.dstAddr == dstAddr && p.header.srcAddr == srcAddr
    ensures p.header.id == draw && p.header.mf == 0 && p.header.fragOffset == 0
  {
    var h := NewPacketHeader(dstAddr, srcAddr, |dataS|, [], draw);
    assert ApplyOptions(PacketHeader(dstAddr, srcAddr, 0, |dataS|, 0, 0), []) == PacketHeader(dstAddr, srcAddr, 0, |dataS|, 0, 0);
    NetworkPacket(h, dataS)
  }

  /** `ToByteS`: header then payload. */
  function ToByteS(p: NetworkPacket): string
  {
    EncodeHeader(p.header) + p.dataS
  }

  /**
   * `FromByteS`. The source slices `byteS[:30]` before anything else, which
   * panics on a shorter string; the model requires at least 30 characters,
   * so the "Invalid Header Length" branch of the header parser is never
   * taken here.
   */
  function FromByteS(byteS: string, draw: RandomId): (r: Result<NetworkPacket, DecodeError>)
    requires |byteS| >= HeaderLength
    ensures r.Success? ==> r.value.dataS == byteS[HeaderLength..] && r.value.header.length == |byteS| - HeaderLength
    ensures r.Success? ==> ParseHeader(byteS[..HeaderLength], draw) == Success(r.value.header)
    ensures r.Failure? ==> r.error != InvalidHeaderLength
    ensures r.Success?
        <==> (ParseHeader(byteS[..HeaderLength], draw).Success?
              && ParseHeader(byteS[..HeaderLength], draw).value.length == |byteS| - HeaderLength)
    ensures (r.Failure? && r.error == FieldParseError) <==> ParseHeader(byteS[..HeaderLength], draw).Failure?
    ensures (r.Failure? && r.error == PacketLengthError)
        <==> (ParseHeader(byteS[..HeaderLength], draw).Success?
              && ParseHeader(byteS[..HeaderLength], draw).value.length != |byteS| - HeaderLength)
  {
    var ph :- ParseHeader(byteS[..HeaderLength], draw);
    if |byteS| - HeaderLength != ph.length then Failure(PacketLengthError)
    else Success(NetworkPacket(ph, byteS[HeaderLength..]))
  }

  /** Six five-character strings laid end to end, and where each one sits. */
  lemma SixFields(a: string, b: string, c: string, d: string, x: string, y: string)
    requires |a| == 5 && |b| == 5 && |c| == 5 && |d| == 5 && |x| == 5 && |y| == 5
    ensures var e := a + b + c + d + x + y;
            |e| == 30 && e[0..5] == a && e[5..10] == b && e[10..15] == c
            && e[15..20] == d && e[20..25] == x && e[25..30] == y
  {
    var e := a + b + c + d + x + y;
    assert e[0..5] == a;
    assert e[5..10] == b;
    assert e[10..15] == c;
    assert e[15..20] == d;
    assert e[20..25] == x;
    assert e[25..30] == y;
  }

  /** A header whose six fields fit five digits is exactly 30 characters, fields in wire order. */
  lemma EncodeHeaderLayout(h: PacketHeader)
    requires HeaderFits(h)
    ensures |EncodeHeader(h)| == HeaderLength
    ensures var e := EncodeHeader(h);
            e[0..5] == Field(h.dstAddr) && e[5..10] == Field(h.srcAddr) && e[10..15] == Field(h.id)
            && e[15..20] == Field(h.length) && e[20..25] == Field(h.mf) && e[25..30] == Field(h.fragOffset)
  {
    FieldWidth(h.dstAddr);
    FieldWidth(h.srcAddr);
    FieldWidth(h.id);
    FieldWidth(h.length);
    FieldWidth(h.mf);
    FieldWidth(h.fragOffset);
    SixFields(Field(h.dstAddr), Field(h.srcAddr), Field(h.id), Field(h.length), Field(h.mf), Field(h.fragOffset));
  }

  /** Every field takes at least five characters, so every encoded header at least 30. */
  lemma EncodeHeaderAtLeast(h: PacketHeader)
    ensures |EncodeHeader(h)| >= HeaderLength
  {
    FieldAtLeastFive(h.dstAddr);
    FieldAtLeastFive(h.srcAddr);
    FieldAtLeastFive(h.id);
    FieldAtLeastFive(h.length);
    FieldAtLeastFive(h.mf);
    FieldAtLeastFive(h.fragOffset);
  }

  lemma ParseFieldAt(hd: string, start: nat, v: int)
    requires start + 5 <= |hd| && FitsField(v) && hd[start..start + 5] == Field(v)
    ensures ParseField(hd, start) == Success(v)
  {
    FieldRoundTrip(v);
  }

  /** The parser, once each of the six fields is known to parse. */
  lemma ParseHeaderOfFields(hd: string, h: PacketHeader, draw: RandomId)
    requires |hd| == HeaderLength
    requires ParseField(hd, 0) == Success(h.dstAddr) && ParseField(hd, 5) == Success(h.srcAddr)
    requires ParseField(hd, 10) == Success(h.id) && ParseField(hd, 15) == Success(h.length)
    requires ParseField(hd, 20) == Success(h.mf) && ParseField(hd, 25) == Success(h.fragOffset)
    ensures ParseHeader(hd, draw)
         == Success(NewPacketHeader(h.dstAddr, h.srcAddr, h.length, [IdOption(h.id), MfOption(h.mf), FragOffsetOption(h.fragOffset)], draw))
  {
  }

  /**
   * Decoding an encoded header gives the header back, except for the two
   * normalisations of `NewPacketHeader`: MF becomes 0 or 1 and an ID of 0
   * becomes the random draw.
   */
  lemma HeaderRoundTrip(h: PacketHeader, draw: RandomId)
    requires HeaderFits(h)
    ensures ParseHeader(EncodeHeader(h), draw)
         == Success(h.(id := ChosenId(h.id, draw), mf := NormalizeMf(h.mf)))
  {
    EncodeHeaderLayout(h);
    DecodeLaidOut(EncodeHeader(h), h, draw);
  }

  /** Parsing 30 characters that hold the six encoded fields of `h`. */
  lemma DecodeLaidOut(e: string, h: PacketHeader, draw: RandomId)
    requires HeaderFits(h) && |e| == HeaderLength
    requires e[0..5] == Field(h.dstAddr) && e[5..10] == Field(h.srcAddr) && e[10..15] == Field(h.id)
    requires e[15..20] == Field(h.length) && e[20..25] == Field(h.mf) && e[25..30] == Field(h.fragOffset)
    ensures ParseHeader(e, draw) == Success(h.(id := ChosenId(h.id, draw), mf := NormalizeMf(h.mf)))
  {
    FieldsParse(e, h);
    ParseHeaderOfFields(e, h, draw);
    NewPacketHeaderWith(h.dstAddr, h.srcAddr, h.length, h.id, h.mf, h.fragOffset, draw);
  }

  lemma FieldsParse(e: string, h: PacketHeader)
    requires HeaderFits(h) && |e| == HeaderLength
    requires e[0..5] == Field(h.dstAddr) && e[5..10] == Field(h.srcAddr) && e[10..15] == Field(h.id)
    requires e[15..20] == Field(h.length) && e[20..25] == Field(h.mf) && e[25..30] == Field(h.fragOffset)
    ensures ParseField(e, 0) == Success(h.dstAddr) && ParseField(e, 5) == Success(h.srcAddr)
    ensures ParseField(e, 10) == Success(h.id) && ParseField(e, 15) == Success(h.length)
    ensures ParseField(e, 20) == Success(h.mf) && ParseField(e, 25) == Success(h.fragOffset)
  {
    ParseFieldAt(e, 0, h.dstAddr);
    ParseFieldAt(e, 5, h.srcAddr);
    ParseFieldAt(e, 10, h.id);
    ParseFieldAt(e, 15, h.length);
    ParseFieldAt(e, 20, h.mf);
    ParseFieldAt(e, 25, h.fragOffset);
  }

  /**
   * Round trip of a whole packet whose fields fit: the payload always comes
   * back; the packet is accepted exactly when its Length field equals the
   * payload length, and refused with "Packet length error" otherwise.
   */
  lemma PacketRoundTrip(p: NetworkPacket, draw: RandomId)
    requires HeaderFits(p.header)
    ensures |ToByteS(p)| == HeaderLength + |p.dataS|
    ensures FromByteS(ToByteS(p), draw)
         == if p.header.length == |p.dataS|
            then Success(NetworkPacket(p.header.(id := ChosenId(p.header.id, draw), mf := NormalizeMf(p.header.mf)), p.dataS))
            else Failure(PacketLengthError)
  {
    var s := ToByteS(p);
    EncodeHeaderLayout(p.header);
    assert s[..HeaderLength] == EncodeHeader(p.header);
    assert s[HeaderLength..] == p.dataS;
    HeaderRoundTrip(p.header, draw);
  }

  /** The packets the codec reproduces exactly. */
  predicate WellFormed(p: NetworkPacket)
  {
    HeaderFits(p.header) && p.header.id != 0 && (p.header.mf == 0 || p.header.mf == 1)
    && p.header.length == |p.dataS|
  }

  /** `FromByteS(ToByteS(p)) == p` for every well-formed packet, whatever the random draw. */
  lemma PacketRoundTripExact(p: NetworkPacket, draw: RandomId)
    requires WellFormed(p)
    ensures FromByteS(ToByteS(p), draw) == Success(p)
  {
    PacketRoundTrip(p, draw);
  }
}
