/**
 COSE_Sign1 and COSE_Mac0: reading the four-element structure, rebuilding the
 bytes the signer covered (sections 4.4 and 6.3 of RFC 9052) and the verdict.
 The signature check and the HMAC are parameters.
 */
module Cose {
  import opened Prelude
  import opened Unicode
  import opened Cbor
  import opened CborProofs
  import opened CborSound
  import opened CborEquality

  const LABEL_ALG: int := 1
  const LABEL_CRIT: int := 2
  const LABEL_X5CHAIN: int := 33
  const HMAC_256: int := 5

  datatype CoseError = Malformed | UnsupportedAlgorithm

  /** A parsed structure; `proof` is the signature or the MAC tag. */
  datatype Message = Message(
    protected: bytes,
    header: seq<Entry>,
    unprotected: seq<Entry>,
    payload: Option<bytes>,
    proof: bytes)

  function Ascii(s: string): Text
    requires forall c | c in s :: c < '\U{0080}'
  {
    seq(|s|, i requires 0 <= i < |s| => (assert s[i] in s; s[i] as int as Scalar))
  }

  const SIGNATURE1: Text := Ascii("Signature1")
  const MAC0: Text := Ascii("MAC0")

  function Lookup(es: seq<Entry>, name: int): Option<Value> {
    if es == [] then None
    else if es[0].key == Int(name) then Some(es[0].val)
    else Lookup(es[1..], name)
  }

  function Unwrap(obj: Value, tag: nat): Result<seq<Value>, CoseError> {
    var bare := if obj.Tag? then obj.value else obj;
    if obj.Tag? && obj.tag != tag then Err(Malformed)
    else if !bare.Array? || |bare.items| != 4 then Err(Malformed)
    else Ok(bare.items)
  }

  /** Every critical label must be one this reader processes (section 3.1 of RFC 9052). */
  predicate CriticalHandled(header: seq<Entry>) {
    match Lookup(header, LABEL_CRIT)
    case None => true
    case Some(crit) =>
      && crit.Array? && crit.items != []
      && forall l | l in crit.items :: l == Int(LABEL_ALG) || l == Int(LABEL_X5CHAIN)
  }

  function ParseProtected(v: Value): Result<(bytes, seq<Entry>), CoseError> {
    if !v.Bytes? then Err(Malformed)
    else if v.data == [] then Ok((v.data, []))
    else
      match Decode(v.data)
      case Err(_) => Err(Malformed)
      case Ok(header) =>
        if !header.Map? || !CriticalHandled(header.entries) then Err(Malformed)
        else Ok((v.data, header.entries))
  }

  /** `parse_sign1` with tag 18, `parse_mac0` with tag 17. */
  function Parse(obj: Value, tag: nat): Result<Message, CoseError> {
    match Unwrap(obj, tag)
    case Err(e) => Err(e)
    case Ok(items) =>
      match ParseProtected(items[0])
      case Err(e) => Err(e)
      case Ok((protected, header)) =>
        if !items[1].Map? || !(items[2].Null? || items[2].Bytes?) || !items[3].Bytes? then Err(Malformed)
        else
          var payload := if items[2].Null? then None else Some(items[2].data);
          Ok(Message(protected, header, items[1].entries, payload, items[3].data))
  }

  /** `alg`, from the protected header only. */
  function RequireAlg(m: Message): Result<int, CoseError> {
    match Lookup(m.header, LABEL_ALG)
    case Some(Int(alg)) => Ok(alg)
    case _ => Err(Malformed)
  }

  predicate SignatureAlgorithm(alg: int) {
    alg == -7 || alg == -35 || alg == -8
  }

  function EffectivePayload(attached: Option<bytes>, detached: Option<bytes>): Result<bytes, CoseError> {
    match (attached, detached)
    case (Some(a), None) => Ok(a)
    case (None, Some(d)) => Ok(d)
    case _ => Err(Malformed)
  }

  function Structure(context: Text, protected: bytes, aad: bytes, payload: bytes): Value {
    Array([Text(context), Bytes(protected), Bytes(aad), Bytes(payload)])
  }

  /** The bytes the signature or MAC covers; `None` where a length needs more than 64 bits. */
  function Tbs(context: Text, protected: bytes, aad: bytes, payload: bytes): Option<bytes> {
    var s := Structure(context, protected, aad, payload);
    if Supported(s) then Some(Enc(s)) else None
  }

  /** The verdict on a COSE_Sign1; `check(alg, tbs, signature)` is the signature check under the
      caller's key. */
  function VerifySign1(m: Message, detached: Option<bytes>, aad: bytes, check: (int, bytes, bytes) -> bool)
    : Result<bool, CoseError>
  {
    match RequireAlg(m)
    case Err(e) => Err(e)
    case Ok(alg) =>
      if !SignatureAlgorithm(alg) then Err(UnsupportedAlgorithm)
      else
        match EffectivePayload(m.payload, detached)
        case Err(e) => Err(e)
        case Ok(payload) =>
          match Tbs(SIGNATURE1, m.protected, aad, payload)
          case None => Err(Malformed)
          case Some(tbs) => Ok(check(alg, tbs, m.proof))
  }

  /** The verdict on a COSE_Mac0; `hmac` is HMAC-SHA-256 under the derived key. */
  function VerifyMac0(m: Message, detached: Option<bytes>, aad: bytes, hmac: bytes -> bytes)
    : Result<bool, CoseError>
  {
    match RequireAlg(m)
    case Err(e) => Err(e)
    case Ok(alg) =>
      if alg != HMAC_256 then Err(UnsupportedAlgorithm)
      else
        match EffectivePayload(m.payload, detached)
        case Err(e) => Err(e)
        case Ok(payload) =>
          match Tbs(MAC0, m.protected, aad, payload)
          case None => Err(Malformed)
          case Some(tbm) => Ok(hmac(tbm) == m.proof)
  }

  // ----- what the covered bytes determine ---------------------------------------------------

  lemma StructurePlain(context: Text, protected: bytes, aad: bytes, payload: bytes)
    ensures Plain(Structure(context, protected, aad, payload))
  {
  }

  /** The covered bytes determine the context, the protected header, the external data and the
      payload. */
  lemma TbsInjective(c: Text, p: bytes, a: bytes, m: bytes, c': Text, p': bytes, a': bytes, m': bytes)
    requires Tbs(c, p, a, m).Some? && Tbs(c', p', a', m').Some?
    requires Tbs(c, p, a, m) == Tbs(c', p', a', m')
    ensures c == c' && p == p' && a == a' && m == m'
  {
    hide Supported, Enc, Height;
    var s, s' := Structure(c, p, a, m), Structure(c', p', a', m');
    StructurePlain(c, p, a, m);
    StructurePlain(c', p', a', m');
    EncodingDecidesEquality(s, s');
    assert TypedEqual(s.items[0], s'.items[0]) && TypedEqual(s.items[1], s'.items[1]);
    assert TypedEqual(s.items[2], s'.items[2]) && TypedEqual(s.items[3], s'.items[3]);
  }

  /** No bytes are both what a COSE_Sign1 and what a COSE_Mac0 covers. */
  lemma ContextsNeverCollide(p: bytes, a: bytes, m: bytes, p': bytes, a': bytes, m': bytes)
    requires Tbs(SIGNATURE1, p, a, m).Some? && Tbs(MAC0, p', a', m').Some?
    ensures Tbs(SIGNATURE1, p, a, m) != Tbs(MAC0, p', a', m')
  {
    hide Tbs;
    assert |SIGNATURE1| == 10 && |MAC0| == 4;
    if Tbs(SIGNATURE1, p, a, m) == Tbs(MAC0, p', a', m') {
      TbsInjective(SIGNATURE1, p, a, m, MAC0, p', a', m');
    }
  }

  /** What a signer has covered: context, protected header, external data, payload. */
  datatype Covered = Covered(context: Text, protected: bytes, aad: bytes, payload: bytes)

  function TbsOf(s: Covered): Option<bytes> {
    Tbs(s.context, s.protected, s.aad, s.payload)
  }

  lemma CoverInjective(s: Covered, t: Covered)
    requires TbsOf(s).Some? && TbsOf(s) == TbsOf(t)
    ensures s == t
  {
    TbsInjective(s.context, s.protected, s.aad, s.payload, t.context, t.protected, t.aad, t.payload);
  }

  /** What a message covers as one of the two kinds, once its payload is settled. */
  function CoveredBy(context: Text, m: Message, aad: bytes, payload: bytes): Covered {
    Covered(context, m.protected, aad, payload)
  }

  // ----- what is checked, written out ---------------------------------------------------------------

  /** The context strings, character by character. */
  const SIGNATURE1_POINTS: Text := [0x53, 0x69, 0x67, 0x6E, 0x61, 0x74, 0x75, 0x72, 0x65, 0x31]
  const MAC0_POINTS: Text := [0x4D, 0x41, 0x43, 0x30]

  /** A byte string as CBOR writes it. */
  function ByteString(b: bytes): bytes
    requires |b| < TWO64
  {
    Head(2, |b|) + b
  }

  /** The bytes to be signed or MACed, octet by octet: an array of four, the context string, the
      protected header, the external data and the payload, in that order. */
  lemma CoveredBytes(protected: bytes, aad: bytes, payload: bytes)
    requires |protected| < TWO64 && |aad| < TWO64 && |payload| < TWO64
    ensures Tbs(SIGNATURE1, protected, aad, payload) == Some(
      [0x84, 0x6A, 0x53, 0x69, 0x67, 0x6E, 0x61, 0x74, 0x75, 0x72, 0x65, 0x31]
      + ByteString(protected) + ByteString(aad) + ByteString(payload))
    ensures Tbs(MAC0, protected, aad, payload) == Some(
      [0x84, 0x64, 0x4D, 0x41, 0x43, 0x30] + ByteString(protected) + ByteString(aad) + ByteString(payload))
  {
    hide *;
    ContextsAre();
    SignatureContext();
    MacContext();
    StructureBytes(SIGNATURE1_POINTS, protected, aad, payload);
    StructureBytes(MAC0_POINTS, protected, aad, payload);
  }

  lemma SignatureContext()
    ensures |Utf8(SIGNATURE1_POINTS)| < TWO64
    ensures [0x84] + TextString(SIGNATURE1_POINTS) == [0x84, 0x6A, 0x53, 0x69, 0x67, 0x6E, 0x61, 0x74, 0x75, 0x72, 0x65, 0x31]
  {
    ContextText(SIGNATURE1_POINTS);
    hide TextString, Utf8;
  }

  lemma MacContext()
    ensures |Utf8(MAC0_POINTS)| < TWO64
    ensures [0x84] + TextString(MAC0_POINTS) == [0x84, 0x64, 0x4D, 0x41, 0x43, 0x30]
  {
    ContextText(MAC0_POINTS);
    hide TextString, Utf8;
  }

  lemma AsciiIs(s: string, t: Text)
    requires |s| == |t| && (forall c | c in s :: c < '\U{0080}') && forall i :: 0 <= i < |s| ==> s[i] as int == t[i] as int
    ensures Ascii(s) == t
  {
  }

  lemma ContextsAre()
    ensures SIGNATURE1 == SIGNATURE1_POINTS && MAC0 == MAC0_POINTS
  {
    AsciiIs("Signature1", SIGNATURE1_POINTS);
    AsciiIs("MAC0", MAC0_POINTS);
  }

  /** A text as CBOR writes it. */
  function TextString(t: Text): bytes
    requires |Utf8(t)| < TWO64
  {
    Head(3, |Utf8(t)|) + Utf8(t)
  }

  /** A short ASCII text is its characters behind one octet of head. */
  lemma ContextText(t: Text)
    requires |t| < 24 && forall i :: 0 <= i < |t| ==> t[i] < 0x80
    ensures |Utf8(t)| == |t| && |TextString(t)| == 1 + |t|
    ensures TextString(t)[0] as int == 0x60 + |t| && forall i :: 0 <= i < |t| ==> TextString(t)[1 + i] as int == t[i] as int
  {
    AsciiBytes(t);
  }

  lemma {:induction false} AsciiBytes(t: Text)
    requires forall i :: 0 <= i < |t| ==> t[i] < 0x80
    ensures |Utf8(t)| == |t| && forall i :: 0 <= i < |t| ==> Utf8(t)[i] as int == t[i] as int
  {
    if t != [] {
      AsciiBytes(t[1..]);
    }
  }

  /** The array of four, and what its bytes decode to. */
  lemma StructureBytes(context: Text, protected: bytes, aad: bytes, payload: bytes)
    requires |Utf8(context)| < TWO64 && |protected| < TWO64 && |aad| < TWO64 && |payload| < TWO64
    ensures var s := Array([Text(context), Bytes(protected), Bytes(aad), Bytes(payload)]);
      && Supported(s)
      && Tbs(context, protected, aad, payload) == Some(Enc(s))
      && Enc(s) == [0x84] + TextString(context) + ByteString(protected) + ByteString(aad) + ByteString(payload)
      && Decode(Enc(s)) == Ok(s)
  {
    var a, b, c, d := Text(context), Bytes(protected), Bytes(aad), Bytes(payload);
    var s := Array([a, b, c, d]);
    FourParts(a, b, c, d);
    FourItems(a, b, c, d);
    FourEncoded(a, b, c, d);
    FourSettled(a, b, c, d);
    assert Tbs(context, protected, aad, payload) == Some(Enc(s)) by { hide Enc; }
    hide Head, DecodeAt, Supported, Plain, EncItems, NormalItems, HeightItems, Utf8;
    SelfDelimiting(s, []);
    assert Enc(s) + [] == Enc(s);
  }

  lemma FourSettled(a: Value, b: Value, c: Value, d: Value)
    requires IsLeaf(a) && IsLeaf(b) && IsLeaf(c) && IsLeaf(d)
    requires Supported(a) && Supported(b) && Supported(c) && Supported(d)
    requires Supported(Array([a, b, c, d]))
    ensures Normal(Array([a, b, c, d])) == Array([a, b, c, d]) && Height(Array([a, b, c, d])) == 1
  {
    FourItems(a, b, c, d);
  }

  lemma FourJoined(a: Value, b: Value, c: Value, d: Value)
    requires Supported(a) && Supported(b) && Supported(c) && Supported(d)
    requires forall x | x in [a, b, c, d] :: Supported(x)
    ensures EncItems([a, b, c, d]) == Enc(a) + Enc(b) + Enc(c) + Enc(d)
  {
    hide *;
    var cd, bcd := [c, d], [b] + [c, d];
    assert [a, b, c, d] == [a] + bcd && [c, d] == [c] + [d] && [d] == [d] + [];
    EncCons(d, []);
    EncCons(c, [d]);
    EncCons(b, cd);
    EncCons(a, bcd);
    NothingEncoded();
    assert Enc(a) + (Enc(b) + (Enc(c) + (Enc(d) + []))) == Enc(a) + Enc(b) + Enc(c) + Enc(d);
  }

  lemma EncCons(x: Value, rest: seq<Value>)
    requires Supported(x) && forall y | y in rest :: Supported(y)
    ensures forall y | y in [x] + rest :: Supported(y)
    ensures EncItems([x] + rest) == Enc(x) + EncItems(rest)
  {
    hide Enc, Supported;
    assert ([x] + rest)[0] == x && ([x] + rest)[1..] == rest;
  }

  lemma NothingEncoded()
    ensures EncItems([]) == []
  {
  }

  lemma EncArray(items: seq<Value>)
    requires Supported(Array(items))
    ensures forall x | x in items :: Supported(x)
    ensures |items| < TWO64 && Enc(Array(items)) == Head(4, |items|) + EncItems(items)
  {
    hide EncItems, Head;
  }

  lemma FourHead()
    ensures Head(4, 4) == [0x84]
  {
  }

  lemma JoinFive(h: bytes, a: bytes, b: bytes, c: bytes, d: bytes)
    ensures h + (a + b + c + d) == h + a + b + c + d
  {
  }

  lemma FourEncoded(a: Value, b: Value, c: Value, d: Value)
    requires Supported(a) && Supported(b) && Supported(c) && Supported(d) && Supported(Array([a, b, c, d]))
    ensures Enc(Array([a, b, c, d])) == [0x84] + Enc(a) + Enc(b) + Enc(c) + Enc(d)
  {
    hide *;
    EncArray([a, b, c, d]);
    FourJoined(a, b, c, d);
    FourHead();
    JoinFive([0x84], Enc(a), Enc(b), Enc(c), Enc(d));
  }

  /** The verdict on a COSE_Sign1, written out: the algorithm is label 1 of the protected header, an
      int; ES256, ES384 and EdDSA are allow-listed; the payload comes from exactly one place; and then
      the check is asked, under that algorithm, about the array of "Signature1", protected header,
      external data and payload, with the message's signature. */
  lemma Sign1Verdict(m: Message, detached: Option<bytes>, aad: bytes, check: (int, bytes, bytes) -> bool)
    requires DistinctKeys(m.header)
    ensures (forall alg :: Entry(Int(1), Int(alg)) !in m.header) ==> VerifySign1(m, detached, aad, check) == Err(Malformed)
    ensures forall alg | Entry(Int(1), Int(alg)) in m.header ::
      VerifySign1(m, detached, aad, check) ==
        if alg != -7 && alg != -35 && alg != -8 then Err(UnsupportedAlgorithm)
        else if m.payload.Some? == detached.Some? then Err(Malformed)
        else
          var payload := if m.payload.Some? then m.payload.value else detached.value;
          var s := Array([Text(SIGNATURE1_POINTS), Bytes(m.protected), Bytes(aad), Bytes(payload)]);
          if Supported(s) then Ok(check(alg, Enc(s), m.proof)) else Err(Malformed)
  {
    ContextsAre();
    AlgorithmExactly(m);
    hide RequireAlg, Supported, Enc, SIGNATURE1;
  }

  lemma AlgorithmExactly(m: Message)
    requires DistinctKeys(m.header)
    ensures (forall alg :: Entry(Int(1), Int(alg)) !in m.header) ==> RequireAlg(m) == Err(Malformed)
    ensures forall alg | Entry(Int(1), Int(alg)) in m.header :: RequireAlg(m) == Ok(alg)
  {
    LookupExactly(m.header, 1);
    hide Lookup;
  }

  /** The verdict on a COSE_Mac0, written out likewise: HMAC 256/256 alone, over the array headed
      "MAC0". */
  lemma Mac0Verdict(m: Message, detached: Option<bytes>, aad: bytes, hmac: bytes -> bytes)
    requires DistinctKeys(m.header)
    ensures (forall alg :: Entry(Int(1), Int(alg)) !in m.header) ==> VerifyMac0(m, detached, aad, hmac) == Err(Malformed)
    ensures forall alg | Entry(Int(1), Int(alg)) in m.header ::
      VerifyMac0(m, detached, aad, hmac) ==
        if alg != 5 then Err(UnsupportedAlgorithm)
        else if m.payload.Some? == detached.Some? then Err(Malformed)
        else
          var payload := if m.payload.Some? then m.payload.value else detached.value;
          var s := Array([Text(MAC0_POINTS), Bytes(m.protected), Bytes(aad), Bytes(payload)]);
          if Supported(s) then Ok(hmac(Enc(s)) == m.proof) else Err(Malformed)
  {
    ContextsAre();
    AlgorithmExactly(m);
    hide RequireAlg, Supported, Enc, MAC0;
  }

  // ----- signatures -----------------------------------------------------------------------------

  /** `check` accepts only signatures over structures in `signed`. */
  ghost predicate Unforgeable(check: (int, bytes, bytes) -> bool, signed: set<Covered>) {
    forall alg, tbs, sig :: check(alg, tbs, sig) ==> exists s | s in signed :: TbsOf(s) == Some(tbs)
  }

  /** An accepted COSE_Sign1 carries exactly a protected header, external data and payload that
      were signed as a COSE_Sign1, under an allow-listed algorithm taken from that header. */
  lemma AcceptedSign1WasSigned(m: Message, detached: Option<bytes>, aad: bytes, check: (int, bytes, bytes) -> bool, signed: set<Covered>)
    requires Unforgeable(check, signed)
    requires VerifySign1(m, detached, aad, check) == Ok(true)
    ensures RequireAlg(m).Ok? && SignatureAlgorithm(RequireAlg(m).value)
    ensures EffectivePayload(m.payload, detached).Ok?
    ensures CoveredBy(SIGNATURE1, m, aad, EffectivePayload(m.payload, detached).value) in signed
  {
    hide Tbs;
    var mine := CoveredBy(SIGNATURE1, m, aad, EffectivePayload(m.payload, detached).value);
    assert check(RequireAlg(m).value, TbsOf(mine).value, m.proof);
    var s :| s in signed && TbsOf(s) == TbsOf(mine);
    CoverInjective(mine, s);
  }

  /** A MAC computed for a COSE_Mac0 never lets a COSE_Sign1 through: with a signer that has only
      ever covered MAC structures, no COSE_Sign1 is accepted. */
  lemma MacNeverPassesAsSignature(m: Message, detached: Option<bytes>, aad: bytes, check: (int, bytes, bytes) -> bool, signed: set<Covered>)
    requires Unforgeable(check, signed) && forall s | s in signed :: s.context == MAC0
    ensures VerifySign1(m, detached, aad, check) != Ok(true)
  {
    hide Tbs;
    assert |SIGNATURE1| == 10 && |MAC0| == 4;
    if VerifySign1(m, detached, aad, check) == Ok(true) {
      AcceptedSign1WasSigned(m, detached, aad, check, signed);
    }
  }

  /** A signature: the algorithm, what it covers, and its bytes. */
  datatype Issued = Issued(alg: int, covered: Covered, proof: bytes)

  /** `check` accepts exactly the bytes and signatures issued. */
  ghost predicate AcceptsIssued(check: (int, bytes, bytes) -> bool, issued: set<Issued>) {
    && (forall s | s in issued :: TbsOf(s.covered).Some?)
    && forall alg, tbs, sig :: check(alg, tbs, sig) <==>
         exists s | s in issued :: s.alg == alg && s.proof == sig && TbsOf(s.covered) == Some(tbs)
  }

  /** A COSE_Sign1 is accepted if and only if its algorithm is allow-listed, exactly one place
      supplies the payload, and its signature was issued under that algorithm for this protected
      header, external data and payload, as a COSE_Sign1. Nothing else signed with the key, and
      nothing in the unprotected header, makes a difference. */
  lemma Sign1AcceptedExactly(m: Message, detached: Option<bytes>, aad: bytes, check: (int, bytes, bytes) -> bool, issued: set<Issued>)
    requires AcceptsIssued(check, issued)
    ensures VerifySign1(m, detached, aad, check) == Ok(true) <==>
      && RequireAlg(m).Ok? && SignatureAlgorithm(RequireAlg(m).value)
      && (m.payload.Some? <==> detached.None?)
      && var payload := if m.payload.Some? then m.payload.value else detached.value;
         Issued(RequireAlg(m).value, CoveredBy(SIGNATURE1, m, aad, payload), m.proof) in issued
  {
    hide Tbs, RequireAlg, SignatureAlgorithm;
    if RequireAlg(m).Ok? && EffectivePayload(m.payload, detached).Ok? {
      var mine := CoveredBy(SIGNATURE1, m, aad, EffectivePayload(m.payload, detached).value);
      var alg := RequireAlg(m).value;
      if TbsOf(mine).Some? && check(alg, TbsOf(mine).value, m.proof) {
        var s :| s in issued && s.alg == alg && s.proof == m.proof && TbsOf(s.covered) == TbsOf(mine);
        CoverInjective(mine, s.covered);
      }
      if Issued(alg, mine, m.proof) in issued {
        assert Issued(alg, mine, m.proof).covered == mine;
      }
    }
  }

  // ----- MACs -------------------------------------------------------------------------------------

  /** Whatever tag in `known` is the MAC of some bytes was computed, for one of `maced`. */
  ghost predicate UnforgeableMac(hmac: bytes -> bytes, known: iset<bytes>, maced: set<Covered>) {
    forall tbm | hmac(tbm) in known :: exists s | s in maced :: TbsOf(s) == Some(tbm)
  }

  /** An accepted COSE_Mac0 carries exactly a protected header, external data and payload that the
      key was used on for a COSE_Mac0, and names HMAC 256/256 in that header. */
  lemma AcceptedMac0WasMaced(m: Message, detached: Option<bytes>, aad: bytes, hmac: bytes -> bytes, known: iset<bytes>, maced: set<Covered>)
    requires UnforgeableMac(hmac, known, maced) && m.proof in known
    requires VerifyMac0(m, detached, aad, hmac) == Ok(true)
    ensures RequireAlg(m) == Ok(HMAC_256) && EffectivePayload(m.payload, detached).Ok?
    ensures CoveredBy(MAC0, m, aad, EffectivePayload(m.payload, detached).value) in maced
  {
    hide Tbs;
    var mine := CoveredBy(MAC0, m, aad, EffectivePayload(m.payload, detached).value);
    assert hmac(TbsOf(mine).value) in known;
    var s :| s in maced && TbsOf(s) == TbsOf(mine);
    CoverInjective(mine, s);
  }

  /** The other way round: a key that only ever covered signature structures lets no COSE_Mac0
      through. */
  lemma SignatureNeverPassesAsMac(m: Message, detached: Option<bytes>, aad: bytes, hmac: bytes -> bytes, known: iset<bytes>, maced: set<Covered>)
    requires UnforgeableMac(hmac, known, maced) && m.proof in known
    requires forall s | s in maced :: s.context == SIGNATURE1
    ensures VerifyMac0(m, detached, aad, hmac) != Ok(true)
  {
    hide Tbs;
    assert |SIGNATURE1| == 10 && |MAC0| == 4;
    if VerifyMac0(m, detached, aad, hmac) == Ok(true) {
      AcceptedMac0WasMaced(m, detached, aad, hmac, known, maced);
    }
  }

  // ----- reading the structure -----------------------------------------------------------------------

  /** The four elements of a message. */
  function Elements(m: Message): Value {
    Array([Bytes(m.protected), Map(m.unprotected), if m.payload.None? then Null else Bytes(m.payload.value), Bytes(m.proof)])
  }

  /** The header is the one the protected bytes hold. A critical list, under label 2, is a non-empty
      array of the labels 1 and 33. */
  predicate OwnHeader(m: Message) {
    if m.protected == [] then m.header == []
    else
      && Decode(m.protected) == Ok(Map(m.header))
      && forall e | e in m.header && e.key == Int(2) ::
           e.val.Array? && e.val.items != [] && forall l | l in e.val.items :: l == Int(1) || l == Int(33)
  }

  /** The first entry under a name is the only one. */
  lemma {:induction false} LookupExactly(es: seq<Entry>, name: int)
    requires DistinctKeys(es)
    ensures Lookup(es, name).Some? ==> Entry(Int(name), Lookup(es, name).value) in es
    ensures forall e | e in es && e.key == Int(name) :: Lookup(es, name) == Some(e.val)
  {
    if es != [] {
      var tail := es[1..];
      assert forall i :: 0 <= i < |tail| ==> tail[i] == es[i + 1];
      assert es == [es[0]] + tail;
      LookupExactly(tail, name);
      forall e | e in es && e.key == Int(name)
        ensures Lookup(es, name) == Some(e.val)
      {
        var i :| 0 <= i < |es| && es[i] == e;
        if i > 0 { assert es[0].key != es[i].key && tail[i - 1] == e; }
      }
    }
  }

  lemma CriticalExactly(header: seq<Entry>)
    requires DistinctKeys(header)
    ensures CriticalHandled(header) <==>
      forall e | e in header && e.key == Int(2) ::
        e.val.Array? && e.val.items != [] && forall l | l in e.val.items :: l == Int(1) || l == Int(33)
  {
    hide Lookup;
    LookupExactly(header, 2);
  }

  lemma HeaderExactly(m: Message)
    ensures OwnHeader(m) <==>
      if m.protected == [] then m.header == []
      else Decode(m.protected) == Ok(Map(m.header)) && CriticalHandled(m.header)
  {
    hide Decode, CriticalHandled;
    if m.protected != [] && Decode(m.protected) == Ok(Map(m.header)) {
      DecodedDistinct(m.protected, m.header);
      CriticalExactly(m.header);
    }
  }

  lemma DecodedDistinct(data: bytes, es: seq<Entry>)
    requires Decode(data) == Ok(Map(es))
    ensures DistinctKeys(es)
  {
    assert DecodeAt(data, 0, 0, MAX_DEPTH).Ok? && DecodeAt(data, 0, 0, MAX_DEPTH).value.0 == Map(es);
    hide DecodeAt, Enc, Height, Plain;
    DecodeSound(data, 0, 0, MAX_DEPTH);
    assert Supported(Map(es));
  }

  /** What is accepted, exactly: the four elements of the message, bare or under the structure's own
      tag and no other, with the header its protected bytes decode to. */
  lemma ParsedExactly(obj: Value, tag: nat, m: Message)
    ensures Parse(obj, tag) == Ok(m) <==>
      OwnHeader(m) && (obj == Elements(m) || (obj.Tag? && obj.tag == tag && obj.value == Elements(m)))
  {
    hide Decode, CriticalHandled;
    HeaderExactly(m);
    var bare := if obj.Tag? then obj.value else obj;
    if bare.Array? && |bare.items| == 4 {
      assert bare.items == [bare.items[0], bare.items[1], bare.items[2], bare.items[3]];
    }
  }

  /** What can be sent: lengths of at most 64 bits, and an unprotected header the decoder reads. */
  predicate Sendable(m: Message) {
    && OwnHeader(m)
    && |m.protected| < TWO64 && |m.proof| < TWO64 && (m.payload.Some? ==> |m.payload.value| < TWO64)
    && Supported(Map(m.unprotected)) && Plain(Map(m.unprotected)) && Height(Map(m.unprotected)) + 2 <= MAX_DEPTH
  }

  /** The message with its unprotected header as decoding leaves it. */
  function Arrived(m: Message): Message
    requires Sendable(m)
  {
    m.(unprotected := Normal(Map(m.unprotected)).entries)
  }

  /** A message survives the wire: encoded under its tag or bare, decoded and parsed, it comes back
      as it was but for the order of the unprotected header, on which no verdict depends. */
  lemma WireRoundTrip(m: Message, tag: nat)
    requires Sendable(m) && tag < TWO64
    ensures forall sent | sent in {Elements(m), Tag(tag, Elements(m), None)} ::
      Supported(sent) && Decode(Enc(sent)).Ok? && Parse(Decode(Enc(sent)).value, tag) == Ok(Arrived(m))
    ensures forall detached, aad, check :: VerifySign1(Arrived(m), detached, aad, check) == VerifySign1(m, detached, aad, check)
    ensures forall detached, aad, hmac :: VerifyMac0(Arrived(m), detached, aad, hmac) == VerifyMac0(m, detached, aad, hmac)
  {
    forall sent | sent in {Elements(m), Tag(tag, Elements(m), None)}
      ensures Supported(sent) && Decode(Enc(sent)).Ok? && Parse(Decode(Enc(sent)).value, tag) == Ok(Arrived(m))
    {
      ElementsFit(m, tag);
      NormalElements(m);
      assert Normal(Tag(tag, Elements(m), None)) == Tag(tag, Elements(Arrived(m)), Some(Enc(Tag(tag, Elements(m), None))));
      hide Elements, Supported, Plain, Height;
      SelfDelimiting(sent, []);
      assert Enc(sent) + [] == Enc(sent);
      ParsedExactly(Normal(sent), tag, Arrived(m));
      hide *;
    }
  }

  lemma FourItems(a: Value, b: Value, c: Value, d: Value)
    ensures HeightItems([a, b, c, d]) == 1 + Max(Height(a), Max(Height(b), Max(Height(c), Height(d))))
    ensures Supported(a) && Supported(b) && Supported(c) && Supported(d) ==>
      NormalItems([a, b, c, d]) == [Normal(a), Normal(b), Normal(c), Normal(d)]
  {
    hide Height, Supported, Normal;
    assert [a, b, c, d][1..] == [b, c, d] && [b, c, d][1..] == [c, d] && [c, d][1..] == [d] && [d][1..] == [];
    assert HeightItems([d]) == 1 + Height(d);
    assert HeightItems([c, d]) == 1 + Max(Height(c), Height(d));
    assert HeightItems([b, c, d]) == 1 + Max(Height(b), Max(Height(c), Height(d)));
    if Supported(a) && Supported(b) && Supported(c) && Supported(d) {
      assert NormalItems([d]) == [Normal(d)];
      assert NormalItems([c, d]) == [Normal(c), Normal(d)];
      assert NormalItems([b, c, d]) == [Normal(b), Normal(c), Normal(d)];
    }
  }

  lemma FourParts(a: Value, b: Value, c: Value, d: Value)
    requires Supported(a) && Supported(b) && Supported(c) && Supported(d)
    requires Plain(a) && Plain(b) && Plain(c) && Plain(d)
    ensures Supported(Array([a, b, c, d])) && Plain(Array([a, b, c, d]))
  {
    forall x | x in [a, b, c, d]
      ensures Supported(x) && Plain(x)
    {
      hide Supported, Plain;
      assert x == a || x == b || x == c || x == d;
    }
  }

  lemma ElementsFit(m: Message, tag: nat)
    requires Sendable(m) && tag < TWO64
    ensures forall sent | sent in {Elements(m), Tag(tag, Elements(m), None)} ::
      Supported(sent) && Plain(sent) && Height(sent) <= MAX_DEPTH
  {
    hide HeightItems, HeightEntries, SortEntries;
    var items := Elements(m).items;
    assert items == [items[0], items[1], items[2], items[3]];
    FourItems(items[0], items[1], items[2], items[3]);
    FourParts(items[0], items[1], items[2], items[3]);
  }

  lemma NormalElements(m: Message)
    requires Sendable(m) && Supported(Elements(m))
    ensures Normal(Elements(m)) == Elements(Arrived(m))
  {
    hide Enc, SortEntries, NormalEntries, NormalItems, Height, Plain;
    var items := Elements(m).items;
    FourItems(items[0], items[1], items[2], items[3]);
    assert items == [items[0], items[1], items[2], items[3]];
    assert forall i :: 0 <= i < 4 ==> items[i] in items;
  }
}
