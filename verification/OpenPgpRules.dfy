/**
 The signature profile written out: the octets of an accepted signature packet, the
 subpackets its hashed area may hold, and what is hashed (sections 3.2, 5.2.3 and
 5.2.4 of RFC 4880). The readers accept exactly that.
 */
module OpenPgpRules {
  import opened Prelude
  import opened Numerals
  import opened Bits
  import opened OpenPgpFraming
  import opened OpenPgpSignature

  // ----- octets ------------------------------------------------------------------------------

  /** One, two and four big-endian octets. */
  lemma BigEndian(n: nat)
    ensures ToBE(n, 1) == [n % 256] && ToBE(n, 2) == [n / 256 % 256, n % 256]
    ensures ToBE(n, 4) == [n / 256 / 256 / 256 % 256, n / 256 / 256 % 256, n / 256 % 256, n % 256]
  {
    hide *;
    FourOctets(n, n / 256, n / 256 / 256, n / 256 / 256 / 256);
  }

  lemma FourOctets(n: nat, a: nat, b: nat, c: nat)
    requires a == n / 256 && b == a / 256 && c == b / 256
    ensures ToBE(n, 1) == [n % 256] && ToBE(n, 2) == [a % 256, n % 256]
    ensures ToBE(n, 4) == [c % 256, b % 256, a % 256, n % 256]
  {
    hide ToBE;
    ToBESnoc(n, 1);
    ToBESnoc(a, 1);
    ToBESnoc(c, 1);
    ToBESnoc(n, 2);
    ToBESnoc(b, 2);
    ToBESnoc(a, 3);
    ToBESnoc(n, 4);
    var d0, d1, d2, d3 := n % 256, a % 256, b % 256, c % 256;
    assert [] + [d3] + [d2] + [d1] + [d0] == [d3, d2, d1, d0];
  }

  lemma ToBESnoc(n: nat, width: nat)
    requires width > 0
    ensures ToBE(n, width) == ToBE(n / 256, width - 1) + [n % 256] && ToBE(n, 0) == []
  {
  }

  /** An old-format packet: bit 7 set, bit 6 clear, the tag, the length form, the length in 1, 2 or 4
      octets, the body (section 4.2.1 of RFC 4880). */
  lemma PacketOctets(p: Packet)
    requires Writable(p)
    ensures var n := |p.body|;
      WritePacket(p) == (if p.kind == 0 then [128 + 4 * p.tag, n]
                         else if p.kind == 1 then [129 + 4 * p.tag, n / 256, n % 256]
                         else [130 + 4 * p.tag, n / 256 / 256 / 256, n / 256 / 256 % 256, n / 256 % 256, n % 256]) + p.body
  {
    BigEndian(|p.body|);
    PowersOf256();
    hide ToBE, Pow256;
  }

  lemma PowersOf256()
    ensures Pow256(1) == 256 && Pow256(2) == 256 * 256 && Pow256(4) == 256 * 256 * 256 * 256
  {
    assert Pow256(4) == 256 * Pow256(3) && Pow256(3) == 256 * Pow256(2) && Pow256(2) == 256 * Pow256(1) && Pow256(1) == 256 * Pow256(0);
  }

  /** A subpacket: its length in one, two or five octets, the type with the critical bit, the data; the
      length counts the type octet (section 5.2.3.1 of RFC 4880). */
  lemma SubpacketOctets(s: Subpacket)
    requires SubWritable(s)
    ensures var n := 1 + |s.data|; var kind := if s.critical then 128 + s.kind else s.kind;
      WriteSub(s) == (if s.form == 0 then [n]
                      else if s.form == 1 then [192 + (n - 192) / 256, (n - 192) % 256]
                      else [255, n / 256 / 256 / 256, n / 256 / 256 % 256, n / 256 % 256, n % 256]) + [kind] + s.data
  {
    BigEndian(1 + |s.data|);
    PowersOf256();
    hide ToBE, Pow256;
  }

  /** A number: its count of bits in two octets, then as many octets as hold them. */
  lemma NumberOctets(n: nat) returns (bits: nat, value: bytes)
    requires 1 <= n && BitLength(n) < 0x1_0000
    ensures 1 <= bits && Pow2(bits - 1) <= n < Pow2(bits)
    ensures |value| == (bits + 7) / 8 && FromBE(value) == n
    ensures WriteMpi(n) == [bits / 256, bits % 256] + value
  {
    hide FromBE, ToBE, BitLength;
    bits, value := BitLength(n), ToBE(n, (BitLength(n) + 7) / 8);
    BitLengthExactly(n);
    MpiSplit(n);
    BigEndian(bits);
  }

  lemma {:induction false} BitLengthExactly(n: nat)
    requires 1 <= n
    ensures 1 <= BitLength(n) && Pow2(BitLength(n) - 1) <= n < Pow2(BitLength(n))
  {
    if n >= 2 {
      BitLengthExactly(n / 2);
      assert BitLength(n) == 1 + BitLength(n / 2);
    } else {
      assert BitLength(1) == 1 + BitLength(0);
      assert Pow2(1) == 2 * Pow2(0);
    }
  }

  // ----- the hashed area -------------------------------------------------------------------

  /** The only subpacket of its kind. */
  predicate OnlyOne(subs: seq<Subpacket>, kind: nat, i: int) {
    0 <= i < |subs| && forall j :: 0 <= j < |subs| ==> (subs[j].kind == kind <==> j == i)
  }

  predicate NoneOf(subs: seq<Subpacket>, kind: nat) {
    forall s | s in subs :: s.kind != kind
  }

  /** One creation time of four octets (type 2); no signature or key expiration (types 3 and 9);
      nothing critical but types 2 and 33; and the signer is the one v4 issuer fingerprint of
      type 33, or nobody when there is none. */
  ghost predicate HashedRules(subs: seq<Subpacket>, signer: Option<bytes>) {
    && NoneOf(subs, 3) && NoneOf(subs, 9)
    && (forall s | s in subs && s.critical :: s.kind in {2, 33})
    && (exists i :: OnlyOne(subs, 2, i) && |subs[i].data| == 4)
    && if signer.None? then NoneOf(subs, 33)
       else |signer.value| == 20 && exists i :: OnlyOne(subs, 33, i) && subs[i].data == [4] + signer.value
  }

  lemma {:induction false} KindsCounted(subs: seq<Subpacket>, kind: nat)
    ensures OfKind(subs, kind) == [] <==> NoneOf(subs, kind)
    ensures |OfKind(subs, kind)| == 1 <==> exists i :: OnlyOne(subs, kind, i)
  {
    if subs != [] {
      var front, last := subs[..|subs| - 1], subs[|subs| - 1];
      assert subs == front + [last];
      KindsCounted(front, kind);
      OfKindSnoc(front, last, kind);
      hide *;
      NoneOfSnoc(front, last, kind);
      OnlyOneSnoc(front, last, kind);
    }
  }

  lemma NoneOfSnoc(front: seq<Subpacket>, last: Subpacket, kind: nat)
    ensures NoneOf(front + [last], kind) <==> NoneOf(front, kind) && last.kind != kind
  {
    assert forall s :: s in front + [last] <==> s in front || s == last;
  }

  lemma OnlyOneSnoc(front: seq<Subpacket>, last: Subpacket, kind: nat)
    ensures (exists i :: OnlyOne(front + [last], kind, i)) <==>
      if last.kind == kind then NoneOf(front, kind) else exists i :: OnlyOne(front, kind, i)
  {
    var subs := front + [last];
    assert forall j :: 0 <= j < |front| ==> subs[j] == front[j] && front[j] in front;
    assert subs[|front|] == last;
    if i :| OnlyOne(subs, kind, i) {
      assert last.kind == kind ==> i == |front|;
      assert last.kind != kind ==> OnlyOne(front, kind, i);
    }
    if last.kind == kind && NoneOf(front, kind) {
      assert OnlyOne(subs, kind, |front|);
    }
    if last.kind != kind {
      if i :| OnlyOne(front, kind, i) { assert OnlyOne(subs, kind, i); }
    }
  }

  lemma TheOnlyOne(subs: seq<Subpacket>, kind: nat, i: int)
    requires OnlyOne(subs, kind, i)
    ensures OfKind(subs, kind) == [subs[i]]
  {
    KindsCounted(subs, kind);
    var found := OfKind(subs, kind);
    assert found[0] in found;
    assert found == [found[0]];
  }

  /** The rules as the pass applies them are the rules written out. */
  lemma HashedExactly(subs: seq<Subpacket>, signer: Option<bytes>)
    ensures FileRules(subs) && Issuer(subs) == signer <==> HashedRules(subs, signer)
  {
    hide OfKind;
    KindsCounted(subs, 2);
    KindsCounted(subs, 33);
    var named := OfKind(subs, 33);
    if i :| OnlyOne(subs, 2, i) { assert subs[i] in subs; }
    if FileRules(subs) && named != [] {
      var i :| OnlyOne(subs, 33, i);
      TheOnlyOne(subs, 33, i);
      assert subs[i] in subs;
      assert subs[i].data == [4] + subs[i].data[1..];
    }
    if HashedRules(subs, signer) && signer.Some? {
      var i :| OnlyOne(subs, 33, i) && subs[i].data == [4] + signer.value;
      TheOnlyOne(subs, 33, i);
      assert FileRules(subs) by { IssuerSized(subs, i); }
      assert subs[i].data[1..] == signer.value;
    }
  }

  lemma IssuerSized(subs: seq<Subpacket>, i: int)
    requires OnlyOne(subs, 33, i) && |subs[i].data| == 21 && subs[i].data[0] == 4
    ensures forall s | s in subs && s.kind == 33 :: |s.data| == 21 && s.data[0] == 4
  {
  }

  /** In a key block only the expirations matter. */
  lemma KeyAreaExactly(hashed: bytes)
    ensures CheckHashedArea(hashed, false) == Ok(None) <==> exists subs ::
      |subs| <= 64 && (forall s | s in subs :: SubWritable(s)) && WriteSubs(subs) == hashed && NoneOf(subs, 3) && NoneOf(subs, 9)
  {
    hide ReadSubs, WriteSubs, SubWritable;
    if ReadSubs(hashed, 0, []).Ok? { SubpacketsTile(hashed); }
    if subs :| |subs| <= 64 && (forall s | s in subs :: SubWritable(s)) && WriteSubs(subs) == hashed && NoneOf(subs, 3) && NoneOf(subs, 9) {
      SubpacketsReadBack(subs);
    }
  }

  // ----- the packet ------------------------------------------------------------------------

  /** What is signed of a version 4 packet: binary document, ECDSA, SHA-256, and the hashed area
      after its length. */
  function SignedHeader(hashed: bytes): bytes {
    ([4, 0, 19, 8] + ToBE(|hashed|, 2)) + hashed
  }

  /** The packet up to the two octets of the digest. */
  function Front(hashed: bytes, unhashed: bytes): bytes {
    SignedHeader(hashed) + (ToBE(|unhashed|, 2) + unhashed)
  }

  lemma FrontSplits(body: bytes, hashed: bytes, unhashed: bytes)
    requires |hashed| < 0x1_0000 && |unhashed| < 0x1_0000 && Front(hashed, unhashed) <= body
    ensures Split(body) == Ok(Parts(0, 19, 8, hashed, |Front(hashed, unhashed)|))
    ensures |Front(hashed, unhashed)| == 8 + |hashed| + |unhashed|
    ensures body[8 + |hashed|..8 + |hashed| + |unhashed|] == unhashed
    ensures Header(body, hashed) == SignedHeader(hashed)
  {
    hide FromBE, ToBE, Pow256;
    var front, n := Front(hashed, unhashed), 6 + |hashed|;
    assert front == body[..|front|];
    assert front[..6] == [4, 0, 19, 8] + ToBE(|hashed|, 2);
    assert body[4..6] == front[..6][4..6] == ToBE(|hashed|, 2);
    assert body[6..n] == front[6..n] == hashed;
    assert body[n..n + 2] == front[n..n + 2] == ToBE(|unhashed|, 2);
    assert body[n + 2..|front|] == front[n + 2..] == unhashed;
    TwoOctets();
    FromToBE(|hashed|, 2);
    FromToBE(|unhashed|, 2);
  }

  lemma TwoOctets()
    ensures Pow256(2) == 0x1_0000
  {
    assert Pow256(2) == 256 * Pow256(1) && Pow256(1) == 256 * Pow256(0);
  }

  lemma SplitIsFront(body: bytes)
    requires Split(body).Ok?
    requires var p := Split(body).value; p.sigType == 0 && p.algo == 19 && p.hashId == 8
    ensures var p := Split(body).value;
      var unhashed := body[8 + |p.hashed|..p.after];
      && |p.hashed| < 0x1_0000 && |unhashed| < 0x1_0000
      && body[..p.after] == Front(p.hashed, unhashed)
  {
    hide FromBE, ToBE, Pow256;
    var p := Split(body).value;
    var n := 6 + |p.hashed|;
    var unhashed := body[n + 2..p.after];
    TwoOctets();
    ToFromBE(body[4..6]);
    ToFromBE(body[n..n + 2]);
    assert body[..4] == [4, 0, 19, 8];
    assert body[..6] == body[..4] + body[4..6];
    assert body[..n] == body[..6] + p.hashed;
    assert body[..p.after] == body[..n] + (body[n..n + 2] + unhashed);
  }

  /** The two numbers at the end of the packet. */
  lemma NumbersExactly(body: bytes, at: nat, r: nat, s: nat)
    requires at <= |body|
    ensures NumbersAt(body, at, r, s) <==>
      body[at..] == WriteMpi(r) + WriteMpi(s) && r >= 1 && s >= 1 && BitLength(r) <= 256 && BitLength(s) <= 256
  {
    hide Mpi, WriteMpi, FromBE, BitLength;
    if NumbersAt(body, at, r, s) {
      var next := Mpi(body, at, 256).value.1;
      MpiSound(body, at, 256);
      MpiSound(body, next, 256);
      assert body[at..] == body[at..next] + body[next..|body|];
    }
    if body[at..] == WriteMpi(r) + WriteMpi(s) && r >= 1 && s >= 1 && BitLength(r) <= 256 && BitLength(s) <= 256 {
      assert body[at..|body|] == body[at..];
      AtConcat(body, at, WriteMpi(r), WriteMpi(s));
      MpiReadsBack(r, body, at, 256);
      MpiReadsBack(s, body, at + |WriteMpi(r)|, 256);
    }
  }

  predicate NumbersAt(body: bytes, at: nat, r: nat, s: nat) {
    match Mpi(body, at, 256)
    case Err(_) => false
    case Ok((rBytes, next)) =>
      match Mpi(body, next, 256)
      case Err(_) => false
      case Ok((sBytes, end)) => end == |body| && FromBE(rBytes) == r && FromBE(sBytes) == s
  }

  /** `sig` is the reading of a packet body of the profile: the hashed and the unhashed area, at most
      64 subpackets each, the digest's first two octets and the numbers r and s of at most 256 bits,
      nothing between or after them; and what is hashed after the document is the signed header, then
      4, 255 and the header's length in four octets. */
  ghost predicate IsSignature(body: bytes, sig: Signature, subs: seq<Subpacket>, others: seq<Subpacket>) {
    && |subs| <= 64 && |others| <= 64
    && (forall s | s in subs :: SubWritable(s)) && (forall s | s in others :: SubWritable(s) && !s.critical)
    && |WriteSubs(subs)| < 0x1_0000 && |WriteSubs(others)| < 0x1_0000
    && HashedRules(subs, sig.signer)
    && |sig.prefix| == 2 && sig.r >= 1 && sig.s >= 1 && BitLength(sig.r) <= 256 && BitLength(sig.s) <= 256
    && body == Front(WriteSubs(subs), WriteSubs(others)) + (sig.prefix + (WriteMpi(sig.r) + WriteMpi(sig.s)))
    && sig.hashId == 8
    && sig.suffix == SignedHeader(WriteSubs(subs)) + [4, 255] + ToBE(6 + |WriteSubs(subs)|, 4)
  }

  lemma SignatureIsRead(body: bytes, sig: Signature, subs: seq<Subpacket>, others: seq<Subpacket>)
    requires IsSignature(body, sig, subs, others)
    ensures ParseSignature(body) == Ok(sig)
  {
    hide WriteMpi, FromBE, ToBE, BitLength, ReadSubs, WriteSubs, SubWritable, FileRules, HashedRules, Mpi, Split, Front, SignedHeader;
    var hashed, unhashed := WriteSubs(subs), WriteSubs(others);
    var at := |Front(hashed, unhashed)|;
    FrontSplits(body, hashed, unhashed);
    SubpacketsReadBack(subs);
    SubpacketsReadBack(others);
    HashedExactly(subs, sig.signer);
    assert body[at..at + 2] == sig.prefix && body[at + 2..] == WriteMpi(sig.r) + WriteMpi(sig.s);
    NumbersExactly(body, at + 2, sig.r, sig.s);
    assert |SignedHeader(hashed)| == 6 + |hashed| by { HeaderLength(hashed); }
  }

  lemma HeaderLength(hashed: bytes)
    ensures |SignedHeader(hashed)| == 6 + |hashed|
  {
  }

  lemma ReadIsSignature(body: bytes) returns (subs: seq<Subpacket>, others: seq<Subpacket>)
    requires ParseSignature(body).Ok?
    ensures IsSignature(body, ParseSignature(body).value, subs, others)
  {
    hide WriteMpi, FromBE, ToBE, BitLength, ReadSubs, WriteSubs, SubWritable, FileRules, HashedRules, Mpi, Split, Front, SignedHeader;
    var sig, p := ParseSignature(body).value, Split(body).value;
    var unhashed := body[8 + |p.hashed|..p.after];
    SplitIsFront(body);
    subs, others := ReadSubs(p.hashed, 0, []).value, ReadSubs(unhashed, 0, []).value;
    SubpacketsTile(p.hashed);
    SubpacketsTile(unhashed);
    HashedExactly(subs, sig.signer);
    assert NumbersAt(body, p.after + 2, sig.r, sig.s);
    NumbersExactly(body, p.after + 2, sig.r, sig.s);
    assert body == body[..p.after] + (body[p.after..p.after + 2] + body[p.after + 2..]);
    FrontSplits(body, p.hashed, unhashed);
    HeaderLength(p.hashed);
  }

  /** A packet body is accepted exactly when it is one of the profile's signatures, and read as that
      signature: its signer is the hashed issuer fingerprint and its suffix covers that area. */
  lemma ParsedExactly(body: bytes, sig: Signature)
    ensures ParseSignature(body) == Ok(sig) <==> exists subs, others :: IsSignature(body, sig, subs, others)
  {
    hide ParseSignature, IsSignature;
    if ParseSignature(body) == Ok(sig) {
      var subs, others := ReadIsSignature(body);
    }
    if subs, others :| IsSignature(body, sig, subs, others) {
      SignatureIsRead(body, sig, subs, others);
    }
  }

  // ----- the file --------------------------------------------------------------------------------

  /** Packets of tag 2, each a signature of the profile. */
  ghost predicate FileOf(ps: seq<Packet>, sigs: seq<Signature>) {
    && |ps| == |sigs|
    && forall i | 0 <= i < |ps| :: ps[i].tag == 2 && ParseSignature(ps[i].body) == Ok(sigs[i])
  }

  lemma {:induction false} SignaturesExactly(ps: seq<Packet>, sigs: seq<Signature>)
    ensures SignaturesIn(ps) == Ok(sigs) <==> FileOf(ps, sigs)
  {
    hide ParseSignature;
    if ps != [] {
      var front := ps[..|ps| - 1];
      assert ps == front + [ps[|ps| - 1]];
      if SignaturesIn(ps) == Ok(sigs) {
        var before := SignaturesIn(front).value;
        SignaturesExactly(front, before);
        assert sigs[..|front|] == before;
      }
      if FileOf(ps, sigs) {
        SignaturesExactly(front, sigs[..|front|]);
        assert sigs == sigs[..|front|] + [sigs[|front|]];
      }
    }
  }

  /** A signature file is accepted exactly when it is 1 to 4096 octets of at most 32 old-format
      packets, every one a signature of the profile. */
  lemma FileExactly(data: bytes, sigs: seq<Signature>)
    ensures SignatureFile(data) == Ok(sigs) <==>
      1 <= |data| <= 4096 && exists ps ::
        |ps| <= 32 && (forall p | p in ps :: Writable(p)) && WritePackets(ps) == data && FileOf(ps, sigs)
  {
    hide ReadPackets, SignaturesIn, WritePackets, Writable, FileOf;
    if SignatureFile(data) == Ok(sigs) {
      PacketsTile(data);
      SignaturesExactly(ReadPackets(data, 0, []).value, sigs);
    }
    if ps :| |ps| <= 32 && (forall p | p in ps :: Writable(p)) && WritePackets(ps) == data && FileOf(ps, sigs) {
      PacketsReadBack(ps);
      SignaturesExactly(ps, sigs);
    }
  }
}
