/**
 OpenPGP framing (sections 3.2, 4.2.1 and 5.2.3.1 of RFC 4880): packets,
 subpackets and multiprecision integers. Each reader is matched with a writer;
 reading undoes writing and everything read was written that way.
 */
module OpenPgpFraming {
  import opened Prelude
  import opened Numerals

  const MAX_PACKETS: nat := 32
  const MAX_SUBPACKETS: nat := 64

  datatype PgpError =
    | TooMany | NoHighBit | NewFormat | Indefinite | HeaderCut | BodyCut
    | LengthCut | BadLength | MpiCut | MpiRange | MpiMismatch
    | BadSignature | BadSubpacket

  // ----- packets ------------------------------------------------------------------------------

  /** An old-format packet; `kind` 0, 1, 2 is a 1-, 2- or 4-octet length. */
  datatype Packet = Packet(kind: nat, tag: nat, body: bytes)

  function LengthWidth(kind: nat): nat {
    if kind == 0 then 1 else if kind == 1 then 2 else 4
  }

  predicate Writable(p: Packet) {
    p.kind <= 2 && p.tag < 16 && |p.body| < Pow256(LengthWidth(p.kind))
  }

  function WritePacket(p: Packet): bytes
    requires Writable(p)
  {
    [(0x80 + p.tag * 4 + p.kind) as byte] + ToBE(|p.body|, LengthWidth(p.kind)) + p.body
  }

  function WritePackets(ps: seq<Packet>): bytes
    requires forall p | p in ps :: Writable(p)
  {
    if ps == [] then [] else WritePacket(ps[0]) + WritePackets(ps[1..])
  }

  /** The packet at `pos` and the offset after it. */
  function ReadPacket(data: bytes, pos: nat): (r: Result<(Packet, nat), PgpError>)
    requires pos < |data|
    ensures r.Ok? ==> pos < r.value.1 <= |data|
  {
    var head := data[pos];
    if head < 128 then Err(NoHighBit)
    else if head / 64 % 2 == 1 then Err(NewFormat)
    else
      var tag, kind := head / 4 % 16, head % 4;
      if kind == 3 then Err(Indefinite)
      else
        var start := pos + 1 + LengthWidth(kind);
        if start > |data| then Err(HeaderCut)
        else
          var length := FromBE(data[pos + 1..start]);
          if length > |data| - start then Err(BodyCut)
          else Ok((Packet(kind, tag, data[start..start + length]), start + length))
  }

  function ReadPackets(data: bytes, pos: nat, out: seq<Packet>): Result<seq<Packet>, PgpError>
    requires pos <= |data|
    decreases |data| - pos
  {
    if pos == |data| then Ok(out)
    else if |out| >= MAX_PACKETS then Err(TooMany)
    else
      match ReadPacket(data, pos)
      case Err(e) => Err(e)
      case Ok((p, next)) => ReadPackets(data, next, out + [p])
  }

  /** `_packets`: the loop over the packets of a file or key block. */
  method Packets(data: bytes) returns (r: Result<seq<Packet>, PgpError>)
    ensures r == ReadPackets(data, 0, [])
  {
    hide ReadPacket;
    var out: seq<Packet> := [];
    var pos := 0;
    while pos < |data|
      invariant 0 <= pos <= |data|
      invariant ReadPackets(data, 0, []) == ReadPackets(data, pos, out)
    {
      if |out| >= MAX_PACKETS {
        return Err(TooMany);
      }
      var one := ReadPacket(data, pos);
      if one.Err? {
        return Err(one.error);
      }
      out, pos := out + [one.value.0], one.value.1;
    }
    return Ok(out);
  }

  lemma ReadPacketInverts(p: Packet, data: bytes, pos: nat)
    requires Writable(p) && At(data, pos, WritePacket(p))
    ensures pos < |data|
    ensures ReadPacket(data, pos) == Ok((p, pos + |WritePacket(p)|))
  {
    hide ToBE, FromBE, Pow256;
    var width := LengthWidth(p.kind);
    var head: byte := (0x80 + p.tag * 4 + p.kind) as byte;
    AtConcat(data, pos, [head] + ToBE(|p.body|, width), p.body);
    AtConcat(data, pos, [head], ToBE(|p.body|, width));
    assert data[pos] == data[pos..pos + 1][0] == head;
    FromToBE(|p.body|, width);
  }

  lemma ReadPacketSound(data: bytes, pos: nat)
    requires pos < |data| && ReadPacket(data, pos).Ok?
    ensures var (p, next) := ReadPacket(data, pos).value;
      Writable(p) && WritePacket(p) == data[pos..next]
  {
    hide ToBE, FromBE, Pow256;
    var (p, next) := ReadPacket(data, pos).value;
    var start := pos + 1 + LengthWidth(p.kind);
    ToFromBE(data[pos + 1..start]);
    assert [data[pos]] + data[pos + 1..start] + data[start..next] == data[pos..next];
  }

  lemma {:induction false} ReadPacketsInvert(ps: seq<Packet>, data: bytes, pos: nat, out: seq<Packet>)
    requires forall p | p in ps :: Writable(p)
    requires pos <= |data| && data[pos..] == WritePackets(ps)
    requires |out| <= MAX_PACKETS
    ensures ReadPackets(data, pos, out)
         == if |out| + |ps| <= MAX_PACKETS then Ok(out + ps) else Err(TooMany)
  {
    hide ReadPacket, WritePacket, Writable;
    if ps == [] {
      assert out + ps == out;
    } else if |out| < MAX_PACKETS {
      var piece := WritePacket(ps[0]);
      assert At(data, pos, piece) by { AtConcat(data, pos, piece, WritePackets(ps[1..])); }
      ReadPacketInverts(ps[0], data, pos);
      assert data[pos + |piece|..] == data[pos..][|piece|..] == WritePackets(ps[1..]);
      ReadPacketsInvert(ps[1..], data, pos + |piece|, out + [ps[0]]);
      assert out + [ps[0]] + ps[1..] == out + ps;
    } else {
      WrittenNotEmpty(ps[0]);
    }
  }

  lemma WrittenNotEmpty(p: Packet)
    requires Writable(p)
    ensures WritePacket(p) != []
  {
  }

  lemma {:induction false} ReadPacketsSound(data: bytes, pos: nat, out: seq<Packet>)
    requires pos <= |data| && ReadPackets(data, pos, out).Ok? && |out| <= MAX_PACKETS
    ensures var ps := ReadPackets(data, pos, out).value;
      && |out| <= |ps| <= MAX_PACKETS && ps[..|out|] == out
      && (forall p | p in ps[|out|..] :: Writable(p))
      && WritePackets(ps[|out|..]) == data[pos..]
    decreases |data| - pos
  {
    hide ReadPacket, WritePacket, Writable;
    var ps := ReadPackets(data, pos, out).value;
    if pos < |data| {
      var (p, next) := ReadPacket(data, pos).value;
      ReadPacketSound(data, pos);
      ReadPacketsSound(data, next, out + [p]);
      assert ps[|out|] == ps[..|out| + 1][|out|] == p;
      assert ps[|out|..] == [p] + ps[|out| + 1..];
      assert ps[..|out|] == ps[..|out| + 1][..|out|] == out;
      assert data[pos..] == data[pos..next] + data[next..];
    }
  }

  /** Section 4.2.1 of RFC 4880: reading undoes writing, in every length form; only the packet
      count can refuse well-formed packets. */
  lemma PacketsReadBack(ps: seq<Packet>)
    requires forall p | p in ps :: Writable(p)
    ensures ReadPackets(WritePackets(ps), 0, [])
         == if |ps| <= MAX_PACKETS then Ok(ps) else Err(TooMany)
  {
    hide ReadPackets, WritePackets, Writable;
    assert WritePackets(ps)[0..] == WritePackets(ps);
    ReadPacketsInvert(ps, WritePackets(ps), 0, []);
    assert [] + ps == ps;
  }

  /** An accepted stream is its packets written one after the other: no gap, no overlap, nothing
      left over. */
  lemma PacketsTile(data: bytes)
    requires ReadPackets(data, 0, []).Ok?
    ensures var ps := ReadPackets(data, 0, []).value;
      && |ps| <= MAX_PACKETS && (forall p | p in ps :: Writable(p)) && WritePackets(ps) == data
  {
    hide ReadPackets, WritePackets, Writable;
    ReadPacketsSound(data, 0, []);
    var ps := ReadPackets(data, 0, []).value;
    assert ps[0..] == ps && data[0..] == data;
  }

  // ----- subpackets -------------------------------------------------------------------------------

  /** A subpacket; `form` 0, 1, 2 is a 1-, 2- or 5-octet length. */
  datatype Subpacket = Subpacket(form: nat, kind: nat, critical: bool, data: bytes)

  predicate SubWritable(s: Subpacket) {
    var length := 1 + |s.data|;
    && s.kind < 128 && s.form <= 2
    && (s.form == 0 ==> length < 192)
    && (s.form == 1 ==> 192 <= length < 16320)
    && (s.form == 2 ==> length < Pow256(4))
  }

  function WriteSubLength(form: nat, length: nat): bytes
    requires form == 0 ==> length < 192
    requires form == 1 ==> 192 <= length < 16320
  {
    if form == 0 then [length as byte]
    else if form == 1 then [(192 + (length - 192) / 256) as byte, ((length - 192) % 256) as byte]
    else [255] + ToBE(length, 4)
  }

  function TypeOctet(kind: nat, critical: bool): byte
    requires kind < 128
  {
    kind + (if critical then 128 else 0)
  }

  function WriteSub(s: Subpacket): bytes
    requires SubWritable(s)
  {
    WriteSubLength(s.form, 1 + |s.data|) + ([TypeOctet(s.kind, s.critical)] + s.data)
  }

  function WriteSubs(subs: seq<Subpacket>): bytes
    requires forall s | s in subs :: SubWritable(s)
  {
    if subs == [] then [] else WriteSub(subs[0]) + WriteSubs(subs[1..])
  }

  /** The length form at `pos`, the length and the octets the length takes. */
  function ReadSubLength(area: bytes, pos: nat): (r: Result<(nat, nat, nat), PgpError>)
    requires pos < |area|
    ensures r.Ok? ==> r.value.0 <= 2 && pos + r.value.2 <= |area| && 1 <= r.value.2
  {
    var first: int := area[pos];
    if first < 192 then Ok((0, first, 1))
    else if first < 255 then
      if pos + 2 > |area| then Err(LengthCut)
      else Ok((1, (first - 192) * 256 + area[pos + 1] + 192, 2))
    else if pos + 5 > |area| then Err(LengthCut)
    else Ok((2, FromBE(area[pos + 1..pos + 5]), 5))
  }

  function ReadSub(area: bytes, pos: nat): (r: Result<(Subpacket, nat), PgpError>)
    requires pos < |area|
    ensures r.Ok? ==> pos < r.value.1 <= |area|
  {
    match ReadSubLength(area, pos)
    case Err(e) => Err(e)
    case Ok((form, length, hdr)) =>
      var start := pos + hdr;
      if length < 1 || length > |area| - start then Err(BadLength)
      else
        var octet := area[start];
        Ok((Subpacket(form, octet % 128, octet >= 128, area[start + 1..start + length]), start + length))
  }

  function ReadSubs(area: bytes, pos: nat, out: seq<Subpacket>): Result<seq<Subpacket>, PgpError>
    requires pos <= |area|
    decreases |area| - pos
  {
    if pos == |area| then Ok(out)
    else if |out| >= MAX_SUBPACKETS then Err(TooMany)
    else
      match ReadSub(area, pos)
      case Err(e) => Err(e)
      case Ok((s, next)) => ReadSubs(area, next, out + [s])
  }

  /** `_subpackets`: the loop over one subpacket area. */
  method Subpackets(area: bytes) returns (r: Result<seq<Subpacket>, PgpError>)
    ensures r == ReadSubs(area, 0, [])
  {
    hide ReadSub;
    var out: seq<Subpacket> := [];
    var pos := 0;
    while pos < |area|
      invariant 0 <= pos <= |area|
      invariant ReadSubs(area, 0, []) == ReadSubs(area, pos, out)
    {
      if |out| >= MAX_SUBPACKETS {
        return Err(TooMany);
      }
      var one := ReadSub(area, pos);
      if one.Err? {
        return Err(one.error);
      }
      out, pos := out + [one.value.0], one.value.1;
    }
    return Ok(out);
  }

  lemma ReadSubLengthInverts(form: nat, length: nat, area: bytes, pos: nat)
    requires form <= 2 && (form == 0 ==> length < 192)
    requires (form == 1 ==> 192 <= length < 16320) && (form == 2 ==> length < Pow256(4))
    requires At(area, pos, WriteSubLength(form, length))
    ensures pos < |area|
    ensures ReadSubLength(area, pos) == Ok((form, length, |WriteSubLength(form, length)|))
  {
    var piece := WriteSubLength(form, length);
    assert area[pos] == area[pos..pos + |piece|][0] == piece[0];
    if form == 1 {
      assert area[pos + 1] == area[pos..pos + |piece|][1] == piece[1];
    } else if form == 2 {
      assert area[pos + 1..pos + 5] == area[pos..pos + |piece|][1..] == ToBE(length, 4);
      FromToBE(length, 4);
    }
  }

  lemma ReadSubLengthSound(area: bytes, pos: nat)
    requires pos < |area| && ReadSubLength(area, pos).Ok?
    ensures var (form, length, hdr) := ReadSubLength(area, pos).value;
      && (form == 0 ==> length < 192) && (form == 1 ==> 192 <= length < 16320)
      && (form == 2 ==> length < Pow256(4))
      && WriteSubLength(form, length) == area[pos..pos + hdr]
  {
    var (form, length, hdr) := ReadSubLength(area, pos).value;
    if form == 0 {
      assert area[pos..pos + 1] == [area[pos]];
    } else if form == 1 {
      assert area[pos..pos + 2] == [area[pos], area[pos + 1]];
    } else {
      ToFromBE(area[pos + 1..pos + 5]);
      assert area[pos..pos + 5] == [area[pos]] + area[pos + 1..pos + 5];
    }
  }

  lemma ReadSubInverts(s: Subpacket, area: bytes, pos: nat)
    requires SubWritable(s) && At(area, pos, WriteSub(s))
    ensures pos < |area|
    ensures ReadSub(area, pos) == Ok((s, pos + |WriteSub(s)|))
  {
    hide WriteSubLength, ReadSubLength;
    var length := 1 + |s.data|;
    var piece := WriteSubLength(s.form, length);
    var octet := TypeOctet(s.kind, s.critical);
    AtConcat(area, pos, piece, [octet] + s.data);
    ReadSubLengthInverts(s.form, length, area, pos);
    var start := pos + |piece|;
    AtConcat(area, start, [octet], s.data);
    assert area[start] == area[start..start + 1][0] == octet;
  }

  lemma ReadSubSound(area: bytes, pos: nat)
    requires pos < |area| && ReadSub(area, pos).Ok?
    ensures var (s, next) := ReadSub(area, pos).value;
      SubWritable(s) && WriteSub(s) == area[pos..next]
  {
    hide WriteSubLength, ReadSubLength;
    ReadSubLengthSound(area, pos);
    var (form, length, hdr) := ReadSubLength(area, pos).value;
    var (s, next) := ReadSub(area, pos).value;
    var start := pos + hdr;
    assert [area[start]] + area[start + 1..next] == area[start..next];
    assert area[pos..start] + area[start..next] == area[pos..next];
  }

  lemma {:induction false} ReadSubsInvert(subs: seq<Subpacket>, area: bytes, pos: nat, out: seq<Subpacket>)
    requires forall s | s in subs :: SubWritable(s)
    requires pos <= |area| && area[pos..] == WriteSubs(subs)
    requires |out| <= MAX_SUBPACKETS
    ensures ReadSubs(area, pos, out)
         == if |out| + |subs| <= MAX_SUBPACKETS then Ok(out + subs) else Err(TooMany)
  {
    hide ReadSub, WriteSub, SubWritable;
    if subs == [] {
      assert out + subs == out;
    } else {
      var piece := WriteSub(subs[0]);
      assert At(area, pos, piece) by { AtConcat(area, pos, piece, WriteSubs(subs[1..])); }
      ReadSubInverts(subs[0], area, pos);
      if |out| < MAX_SUBPACKETS {
        assert area[pos + |piece|..] == area[pos..][|piece|..] == WriteSubs(subs[1..]);
        ReadSubsInvert(subs[1..], area, pos + |piece|, out + [subs[0]]);
        assert out + [subs[0]] + subs[1..] == out + subs;
      }
    }
  }

  lemma {:induction false} ReadSubsSound(area: bytes, pos: nat, out: seq<Subpacket>)
    requires pos <= |area| && ReadSubs(area, pos, out).Ok? && |out| <= MAX_SUBPACKETS
    ensures var subs := ReadSubs(area, pos, out).value;
      && |out| <= |subs| <= MAX_SUBPACKETS && subs[..|out|] == out
      && (forall s | s in subs[|out|..] :: SubWritable(s))
      && WriteSubs(subs[|out|..]) == area[pos..]
    decreases |area| - pos
  {
    hide ReadSub, WriteSub, SubWritable;
    var subs := ReadSubs(area, pos, out).value;
    if pos < |area| {
      var (s, next) := ReadSub(area, pos).value;
      ReadSubSound(area, pos);
      ReadSubsSound(area, next, out + [s]);
      assert subs[|out|] == subs[..|out| + 1][|out|] == s;
      assert subs[|out|..] == [s] + subs[|out| + 1..];
      assert subs[..|out|] == subs[..|out| + 1][..|out|] == out;
      assert area[pos..] == area[pos..next] + area[next..];
    }
  }

  /** Section 5.2.3.1 of RFC 4880: reading undoes writing, for each of the three length forms. */
  lemma SubpacketsReadBack(subs: seq<Subpacket>)
    requires forall s | s in subs :: SubWritable(s)
    ensures ReadSubs(WriteSubs(subs), 0, [])
         == if |subs| <= MAX_SUBPACKETS then Ok(subs) else Err(TooMany)
  {
    hide ReadSubs, WriteSubs, SubWritable;
    assert WriteSubs(subs)[0..] == WriteSubs(subs);
    ReadSubsInvert(subs, WriteSubs(subs), 0, []);
    assert [] + subs == subs;
  }

  /** An accepted area is its subpackets written one after the other. */
  lemma SubpacketsTile(area: bytes)
    requires ReadSubs(area, 0, []).Ok?
    ensures var subs := ReadSubs(area, 0, []).value;
      && |subs| <= MAX_SUBPACKETS && (forall s | s in subs :: SubWritable(s)) && WriteSubs(subs) == area
  {
    hide ReadSubs, WriteSubs, SubWritable;
    ReadSubsSound(area, 0, []);
    var subs := ReadSubs(area, 0, []).value;
    assert subs[0..] == subs && area[0..] == area;
  }

  // ----- multiprecision integers --------------------------------------------------------------------

  /** `_mpi`: the value octets and the offset after them. */
  function Mpi(data: bytes, pos: nat, maxBits: nat): (r: Result<(bytes, nat), PgpError>)
    ensures r.Ok? ==> r.value.0 != [] && pos <= r.value.1 <= |data|
  {
    if pos + 2 > |data| then Err(MpiCut)
    else
      var bits := FromBE(data[pos..pos + 2]);
      if bits < 1 || bits > maxBits then Err(MpiRange)
      else
        var size := (bits + 7) / 8;
        if pos + 2 + size > |data| then Err(MpiCut)
        else
          var value := data[pos + 2..pos + 2 + size];
          if value[0] == 0 || 8 * (size - 1) + BitLength(value[0]) != bits then Err(MpiMismatch)
          else Ok((value, pos + 2 + size))
  }

  /** Section 3.2 of RFC 4880. */
  function WriteMpi(n: nat): bytes {
    ToBE(BitLength(n), 2) + ToBE(n, (BitLength(n) + 7) / 8)
  }

  /** The bit count of a byte string with a non-zero top octet. */
  lemma {:induction false} BitLengthOfBytes(b: bytes)
    requires b != [] && b[0] != 0
    ensures FromBE(b) >= 1
    ensures BitLength(FromBE(b)) == 8 * (|b| - 1) + BitLength(b[0])
  {
    var front, last := b[..|b| - 1], b[|b| - 1];
    if |b| == 1 {
      assert front == [];
      assert FromBE(b) == b[0];
    } else {
      BitLengthOfBytes(front);
      assert FromBE(b) == FromBE(front) * 256 + last;
      BitLengthByByte(FromBE(b));
      assert FromBE(b) / 256 == FromBE(front);
    }
  }

  lemma MpiSplit(n: nat)
    requires 1 <= n
    ensures var value := ToBE(n, (BitLength(n) + 7) / 8);
      && value != [] && value[0] != 0 && FromBE(value) == n
      && |value| == (BitLength(n) + 7) / 8
      && 8 * (|value| - 1) + BitLength(value[0]) == BitLength(n)
  {
    hide *;
    WidthFits(n);
    var value := ToBE(n, (BitLength(n) + 7) / 8);
    MinimalBytes(n);
    ByteWidth(n);
    DigitsNoLeadingZero(256, n);
    ValueOfDigits(256, n);
    FromBEIsValue(value);
    BitLengthOfBytes(value);
  }

  lemma WidthFits(n: nat)
    requires 1 <= n
    ensures 1 <= BitLength(n) && 1 <= (BitLength(n) + 7) / 8
  {
  }

  /** A written integer reads back as its octets, wherever it stands. */
  lemma MpiReadsBack(n: nat, data: bytes, pos: nat, maxBits: nat)
    requires 1 <= n && BitLength(n) <= maxBits && BitLength(n) < 0x1_0000
    requires At(data, pos, WriteMpi(n))
    ensures Mpi(data, pos, maxBits).Ok?
    ensures var (value, next) := Mpi(data, pos, maxBits).value;
      FromBE(value) == n && next == pos + |WriteMpi(n)|
  {
    hide FromBE, ToBE, BitLength;
    var size := (BitLength(n) + 7) / 8;
    MpiSplit(n);
    AtConcat(data, pos, ToBE(BitLength(n), 2), ToBE(n, size));
    assert Pow256(2) == 0x1_0000 by { assert Pow256(2) == 256 * Pow256(1) && Pow256(1) == 256 * Pow256(0); }
    FromToBE(BitLength(n), 2);
  }

  /** Every accepted integer is positive, at most `maxBits` bits, and stands there in its one
      written form: strict MPIs and positive integers are in bijection. */
  lemma MpiSound(data: bytes, pos: nat, maxBits: nat)
    requires Mpi(data, pos, maxBits).Ok?
    ensures var (value, next) := Mpi(data, pos, maxBits).value;
      var n := FromBE(value);
      && 1 <= n && BitLength(n) <= maxBits
      && data[pos..next] == WriteMpi(n)
  {
    hide FromBE, ToBE, BitLength;
    var (value, next) := Mpi(data, pos, maxBits).value;
    BitLengthOfBytes(value);
    ToFromBE(data[pos..pos + 2]);
    ToFromBE(value);
    assert data[pos..next] == data[pos..pos + 2] + data[pos + 2..next];
  }
}
