/**
 v4 signatures: what the hashed bytes determine, who the signer is, and the set
 of signers a detached-signature file proves (section 5.2.4 of RFC 4880).
 ECDSA and the hash are one parameter, `valid`.
 */
module OpenPgpSignature {
  import opened Prelude
  import opened Numerals
  import opened OpenPgpFraming

  const ALGO_ECDSA: nat := 19
  const HASH_SHA256: nat := 8
  const SUB_CREATION_TIME: nat := 2
  const SUB_SIG_EXPIRATION: nat := 3
  const SUB_KEY_EXPIRATION: nat := 9
  const SUB_ISSUER_FINGERPRINT: nat := 33
  const SCALAR_BITS: nat := 256
  const TAG_SIGNATURE: nat := 2
  const MAX_SIGNATURE_FILE_BYTES: nat := 4096

  datatype Parts = Parts(sigType: nat, algo: nat, hashId: nat, hashed: bytes, after: nat)

  /** `_split_v4_signature`. */
  function Split(body: bytes): (r: Result<Parts, PgpError>)
    ensures r.Ok? ==> 8 + |r.value.hashed| <= r.value.after <= |body|
  {
    if |body| < 6 || body[0] != 4 then Err(BadSignature)
    else
      var hashedLen := FromBE(body[4..6]);
      var at := 6 + hashedLen;
      if at + 2 > |body| then Err(BadSignature)
      else
        var unhashedLen := FromBE(body[at..at + 2]);
        if at + 2 + unhashedLen > |body| then Err(BadSignature)
        else Ok(Parts(body[1], body[2], body[3], body[6..at], at + 2 + unhashedLen))
  }

  function Header(body: bytes, hashed: bytes): bytes
    requires 6 + |hashed| <= |body|
  {
    body[..6 + |hashed|]
  }

  /** What is hashed after the document: header, hashed subpackets, and the trailer. */
  function Suffix(header: bytes): bytes {
    header + [4, 255] + ToBE(|header|, 4)
  }

  // ----- the hashed area ------------------------------------------------------------------------

  function OfKind(subs: seq<Subpacket>, kind: nat): (r: seq<Subpacket>)
    ensures forall s :: s in r <==> s in subs && s.kind == kind
  {
    if subs == [] then []
    else
      var front, last := subs[..|subs| - 1], subs[|subs| - 1];
      assert subs == front + [last];
      OfKind(front, kind) + (if last.kind == kind then [last] else [])
  }

  predicate Expires(s: Subpacket) {
    s.kind == SUB_SIG_EXPIRATION || s.kind == SUB_KEY_EXPIRATION
  }

  /** Critical, and not one of the two kinds a reader of signature files understands. */
  predicate NotUnderstood(s: Subpacket) {
    s.critical && s.kind != SUB_CREATION_TIME && s.kind != SUB_ISSUER_FINGERPRINT
  }

  predicate WellSized(s: Subpacket) {
    && (s.kind == SUB_CREATION_TIME ==> |s.data| == 4)
    && (s.kind == SUB_ISSUER_FINGERPRINT ==> |s.data| == 21 && s.data[0] == 4)
  }

  /** The rules of a signature file's hashed area: exactly one creation time, at most one issuer
      fingerprint, nothing that expires and nothing critical that is not understood. */
  predicate FileRules(subs: seq<Subpacket>) {
    && (forall s | s in subs :: !Expires(s) && !NotUnderstood(s) && WellSized(s))
    && |OfKind(subs, SUB_CREATION_TIME)| == 1
    && |OfKind(subs, SUB_ISSUER_FINGERPRINT)| <= 1
  }

  /** The one hashed issuer fingerprint, if there is one. */
  function Issuer(subs: seq<Subpacket>): Option<bytes>
    requires FileRules(subs)
  {
    var named := OfKind(subs, SUB_ISSUER_FINGERPRINT);
    if named == [] then None
    else
      assert named[0] in named;
      Some(named[0].data[1..])
  }

  function CheckHashedArea(hashed: bytes, signatureFile: bool): Result<Option<bytes>, PgpError> {
    match ReadSubs(hashed, 0, [])
    case Err(e) => Err(e)
    case Ok(subs) =>
      if signatureFile then
        if FileRules(subs) then Ok(Issuer(subs)) else Err(BadSubpacket)
      else if forall s | s in subs :: !Expires(s) then Ok(None)
      else Err(BadSubpacket)
  }

  lemma OfKindSnoc(subs: seq<Subpacket>, s: Subpacket, kind: nat)
    ensures OfKind(subs + [s], kind) == OfKind(subs, kind) + (if s.kind == kind then [s] else [])
  {
    assert (subs + [s])[..|subs|] == subs;
  }

  lemma {:induction false} OfKindPrefix(subs: seq<Subpacket>, n: nat, kind: nat)
    requires n <= |subs|
    ensures |OfKind(subs[..n], kind)| <= |OfKind(subs, kind)|
    decreases |subs| - n
  {
    if n < |subs| {
      OfKindSnoc(subs[..n], subs[n], kind);
      assert subs[..n] + [subs[n]] == subs[..n + 1];
      OfKindPrefix(subs, n + 1, kind);
    } else {
      assert subs[..n] == subs;
    }
  }

  /** What the pass over the hashed area knows of the subpackets it has walked. */
  ghost predicate Walked(done: seq<Subpacket>, signer: Option<bytes>, created: nat) {
    var named := OfKind(done, SUB_ISSUER_FINGERPRINT);
    && (forall s | s in done :: !Expires(s) && !NotUnderstood(s) && WellSized(s))
    && created == |OfKind(done, SUB_CREATION_TIME)| <= 1
    && |named| <= 1
    && (named == [] ==> signer == None)
    && (named != [] ==> |named[0].data| == 21 && signer == Some(named[0].data[1..]))
  }

  /** The subpacket the pass refuses: it expires, is critical and not understood, is missized, or
      repeats a kind that may stand once. */
  predicate Refused(s: Subpacket, signer: Option<bytes>, created: nat) {
    || Expires(s) || NotUnderstood(s) || !WellSized(s)
    || (s.kind == SUB_CREATION_TIME && created != 0)
    || (s.kind == SUB_ISSUER_FINGERPRINT && signer.Some?)
  }

  lemma WalkStep(done: seq<Subpacket>, s: Subpacket, signer: Option<bytes>, created: nat)
    requires Walked(done, signer, created) && !Refused(s, signer, created)
    ensures s.kind == SUB_ISSUER_FINGERPRINT ==> s.data != []
    ensures Walked(done + [s],
      if s.kind == SUB_ISSUER_FINGERPRINT then Some(s.data[1..]) else signer,
      if s.kind == SUB_CREATION_TIME then created + 1 else created)
  {
    hide OfKind;
    OfKindSnoc(done, s, SUB_CREATION_TIME);
    OfKindSnoc(done, s, SUB_ISSUER_FINGERPRINT);
  }

  lemma RefusedBreaksRules(subs: seq<Subpacket>, i: nat, signer: Option<bytes>, created: nat)
    requires i < |subs| && Walked(subs[..i], signer, created) && Refused(subs[i], signer, created)
    ensures !FileRules(subs)
  {
    hide OfKind;
    var s := subs[i];
    assert s in subs && subs[..i + 1] == subs[..i] + [s];
    OfKindSnoc(subs[..i], s, SUB_CREATION_TIME);
    OfKindSnoc(subs[..i], s, SUB_ISSUER_FINGERPRINT);
    OfKindPrefix(subs, i + 1, SUB_CREATION_TIME);
    OfKindPrefix(subs, i + 1, SUB_ISSUER_FINGERPRINT);
  }

  /** `_check_hashed_area`: one pass over the subpackets, counting and remembering. */
  method CheckHashed(hashed: bytes, signatureFile: bool) returns (r: Result<Option<bytes>, PgpError>)
    ensures r == CheckHashedArea(hashed, signatureFile)
  {
    hide OfKind, ReadSubs;
    var read := Subpackets(hashed);
    if read.Err? {
      return Err(read.error);
    }
    var subs := read.value;
    var signer: Option<bytes> := None;
    var created := 0;
    var i := 0;
    ghost var done: seq<Subpacket> := [];
    OfKindNothing();
    while i < |subs|
      invariant 0 <= i <= |subs| && done == subs[..i]
      invariant forall s | s in done :: !Expires(s)
      invariant if signatureFile then Walked(done, signer, created) else signer == None
    {
      var s := subs[i];
      assert s in subs;
      if Expires(s) {
        return Err(BadSubpacket);
      }
      if signatureFile {
        if Refused(s, signer, created) { RefusedBreaksRules(subs, i, signer, created); }
        if NotUnderstood(s) {
          return Err(BadSubpacket);
        }
        if s.kind == SUB_CREATION_TIME && (created != 0 || |s.data| != 4) {
          return Err(BadSubpacket);
        }
        if s.kind == SUB_ISSUER_FINGERPRINT && (signer.Some? || |s.data| != 21 || s.data[0] != 4) {
          return Err(BadSubpacket);
        }
        WalkStep(done, s, signer, created);
        if s.kind == SUB_CREATION_TIME {
          created := created + 1;
        }
        if s.kind == SUB_ISSUER_FINGERPRINT {
          signer := Some(s.data[1..]);
        }
      }
      done := done + [s];
      i := i + 1;
    }
    assert done == subs;
    if signatureFile && created == 0 {
      return Err(BadSubpacket);
    }
    return Ok(signer);
  }

  lemma OfKindNothing()
    ensures OfKind([], SUB_CREATION_TIME) == [] && OfKind([], SUB_ISSUER_FINGERPRINT) == []
  {
  }

  predicate UnhashedAreaOk(area: bytes) {
    match ReadSubs(area, 0, [])
    case Err(_) => false
    case Ok(subs) => forall s | s in subs :: !s.critical
  }

  // ----- one signature ------------------------------------------------------------------------------

  datatype Signature = Signature(signer: Option<bytes>, hashId: nat, prefix: bytes, suffix: bytes, r: nat, s: nat)

  /** `_parse_signature`. */
  function ParseSignature(body: bytes): Result<Signature, PgpError> {
    match Split(body)
    case Err(e) => Err(e)
    case Ok(parts) =>
      if parts.sigType != 0 || parts.algo != ALGO_ECDSA || parts.hashId != HASH_SHA256 then Err(BadSignature)
      else
        match CheckHashedArea(parts.hashed, true)
        case Err(e) => Err(e)
        case Ok(signer) =>
          if !UnhashedAreaOk(body[8 + |parts.hashed|..parts.after]) then Err(BadSubpacket)
          else if parts.after + 2 > |body| then Err(BadSignature)
          else
            match Mpi(body, parts.after + 2, SCALAR_BITS)
            case Err(e) => Err(e)
            case Ok((rBytes, next)) =>
              match Mpi(body, next, SCALAR_BITS)
              case Err(e) => Err(e)
              case Ok((sBytes, end)) =>
                if end != |body| then Err(BadSignature)
                else
                  Ok(Signature(signer, parts.hashId, body[parts.after..parts.after + 2],
                               Suffix(Header(body, parts.hashed)), FromBE(rBytes), FromBE(sBytes)))
  }

  /** The last four octets give the header's length, so the hashed byte string splits one way. */
  lemma SuffixSplits(doc: bytes, header: bytes, doc': bytes, header': bytes)
    requires |header| < Pow256(4) && |header'| < Pow256(4)
    requires doc + Suffix(header) == doc' + Suffix(header')
    ensures doc == doc' && header == header'
  {
    hide ToBE, Pow256;
    var whole := doc + Suffix(header);
    var n := |whole|;
    assert whole[n - 4..] == ToBE(|header|, 4);
    assert whole[n - 4..] == ToBE(|header'|, 4);
    FromToBE(|header|, 4);
    FromToBE(|header'|, 4);
    assert |doc| == |doc'|;
    assert whole[..|doc|] == doc && whole[..|doc'|] == doc';
    assert whole[|doc|..|doc| + |header|] == header;
    assert whole[|doc|..|doc| + |header'|] == header';
  }

  lemma SplitFromHeader(body: bytes)
    requires Split(body).Ok?
    ensures var p := Split(body).value;
      && |Header(body, p.hashed)| < Pow256(4)
      && |Header(body, p.hashed)| == 6 + |p.hashed|
      && Header(body, p.hashed)[6..] == p.hashed
      && Header(body, p.hashed)[1] == p.sigType && Header(body, p.hashed)[2] == p.algo
      && Header(body, p.hashed)[3] == p.hashId
  {
    hide FromBE;
    var p := Split(body).value;
    ToFromBE(body[4..6]);
    assert Pow256(2) == 256 * Pow256(1) && Pow256(1) == 256 * Pow256(0);
    assert Pow256(3) == 256 * Pow256(2) && Pow256(4) == 256 * Pow256(3);
    assert |p.hashed| == FromBE(body[4..6]) < 0x1_0000;
  }

  /** Section 5.2.4 of RFC 4880: the byte string that is hashed determines the document and the
      whole signed header, and so the signer. Nothing in the unhashed area can change either. */
  lemma HashedBytesDetermineSigner(doc: bytes, body: bytes, doc': bytes, body': bytes)
    requires ParseSignature(body).Ok? && ParseSignature(body').Ok?
    requires doc + ParseSignature(body).value.suffix == doc' + ParseSignature(body').value.suffix
    ensures doc == doc' && Split(body).Ok? && Split(body').Ok?
    ensures Split(body).value.hashed == Split(body').value.hashed
    ensures ParseSignature(body).value.suffix == ParseSignature(body').value.suffix
    ensures ParseSignature(body).value.signer == ParseSignature(body').value.signer
  {
    hide Split, CheckHashedArea, Mpi, UnhashedAreaOk, Suffix, Pow256, FromBE;
    var p, p' := Split(body).value, Split(body').value;
    SplitFromHeader(body);
    SplitFromHeader(body');
    SuffixSplits(doc, Header(body, p.hashed), doc', Header(body', p'.hashed));
  }

  // ----- the signers of a file ---------------------------------------------------------------------------

  type Fingerprint = bytes

  datatype PublicKey = PublicKey(fingerprint: Fingerprint, point: bytes)

  /** Keys are filed under their own fingerprints. */
  predicate Filed(allowed: map<Fingerprint, PublicKey>) {
    forall f | f in allowed :: allowed[f].fingerprint == f
  }

  /** `sig` names a key of `allowed`. */
  predicate Names(sig: Signature, allowed: map<Fingerprint, PublicKey>) {
    sig.signer.Some? && sig.signer.value in allowed
  }

  /** The distinct allowed fingerprints named by the signatures. */
  function Named(sigs: seq<Signature>, allowed: map<Fingerprint, PublicKey>): set<Fingerprint> {
    set sig | sig in sigs && Names(sig, allowed) :: sig.signer.value
  }

  /** Every signature that names an allowed key verifies under it. */
  predicate AllValid(sigs: seq<Signature>, allowed: map<Fingerprint, PublicKey>, valid: (Signature, PublicKey) -> bool) {
    forall sig | sig in sigs && Names(sig, allowed) :: valid(sig, allowed[sig.signer.value])
  }

  /** `verified_signers`: `None` is NodeListSignatureError. */
  method VerifiedSigners(sigs: seq<Signature>, allowed: map<Fingerprint, PublicKey>, valid: (Signature, PublicKey) -> bool)
    returns (r: Option<set<Fingerprint>>)
    requires Filed(allowed)
    ensures r == SignersOf(sigs, allowed, valid)
  {
    var signers: set<Fingerprint> := {};
    var i := 0;
    while i < |sigs|
      invariant 0 <= i <= |sigs|
      invariant signers == Named(sigs[..i], allowed) && AllValid(sigs[..i], allowed, valid)
    {
      var sig := sigs[i];
      assert sig in sigs;
      assert sigs[..i + 1] == sigs[..i] + [sig];
      if Names(sig, allowed) {
        var key := allowed[sig.signer.value];
        if !valid(sig, key) {
          return None;
        }
        signers := signers + {key.fingerprint};
      }
      i := i + 1;
    }
    assert sigs[..|sigs|] == sigs;
    return Some(signers);
  }

  function SignersOf(sigs: seq<Signature>, allowed: map<Fingerprint, PublicKey>, valid: (Signature, PublicKey) -> bool)
    : Option<set<Fingerprint>>
  {
    if AllValid(sigs, allowed, valid) then Some(Named(sigs, allowed)) else None
  }

  /** Neither the order nor the repetition of signatures changes the outcome. */
  lemma OrderAndRepetitionIrrelevant(sigs: seq<Signature>, sigs': seq<Signature>, allowed: map<Fingerprint, PublicKey>, valid: (Signature, PublicKey) -> bool)
    requires forall sig :: sig in sigs <==> sig in sigs'
    ensures SignersOf(sigs, allowed, valid) == SignersOf(sigs', allowed, valid)
  {
    assert Named(sigs, allowed) == Named(sigs', allowed);
  }

  /** Each returned fingerprint is an allowed key that a signature of the file names and that
      verifies under it; and no valid allowed signer is left out. */
  lemma SignersAreExactlyTheVerified(sigs: seq<Signature>, allowed: map<Fingerprint, PublicKey>, valid: (Signature, PublicKey) -> bool, f: Fingerprint)
    requires SignersOf(sigs, allowed, valid).Some?
    ensures f in SignersOf(sigs, allowed, valid).value <==>
      f in allowed && exists sig | sig in sigs :: sig.signer == Some(f) && valid(sig, allowed[f])
  {
    if f in SignersOf(sigs, allowed, valid).value {
      var sig :| sig in sigs && Names(sig, allowed) && sig.signer.value == f;
      assert sig.signer == Some(f);
    }
    if f in allowed && exists sig | sig in sigs :: sig.signer == Some(f) && valid(sig, allowed[f]) {
      var sig :| sig in sigs && sig.signer == Some(f) && valid(sig, allowed[f]);
      assert Names(sig, allowed);
    }
  }

  /** The signatures of the packets, in order; the first bad packet decides the error. */
  function SignaturesIn(ps: seq<Packet>): Result<seq<Signature>, PgpError> {
    if ps == [] then Ok([])
    else
      match SignaturesIn(ps[..|ps| - 1])
      case Err(e) => Err(e)
      case Ok(sigs) =>
        if ps[|ps| - 1].tag != TAG_SIGNATURE then Err(BadSignature)
        else
          match ParseSignature(ps[|ps| - 1].body)
          case Err(e) => Err(e)
          case Ok(sig) => Ok(sigs + [sig])
  }

  lemma {:induction false} FirstBadDecides(ps: seq<Packet>, k: nat)
    requires k <= |ps| && SignaturesIn(ps[..k]).Err?
    ensures SignaturesIn(ps) == SignaturesIn(ps[..k])
    decreases |ps|
  {
    hide ParseSignature;
    if k < |ps| {
      assert ps[..|ps| - 1][..k] == ps[..k];
      FirstBadDecides(ps[..|ps| - 1], k);
    } else {
      assert ps[..k] == ps;
    }
  }

  /** A signature file: not empty, within the size cap, and nothing but signatures of the
      profile. */
  function SignatureFile(data: bytes): Result<seq<Signature>, PgpError> {
    if |data| == 0 || |data| > MAX_SIGNATURE_FILE_BYTES then Err(BadSignature)
    else
      match ReadPackets(data, 0, [])
      case Err(e) => Err(e)
      case Ok(ps) => SignaturesIn(ps)
  }

  /** `read_signatures`. */
  method ReadSignatures(data: bytes) returns (r: Result<seq<Signature>, PgpError>)
    ensures r == SignatureFile(data)
  {
    hide ParseSignature, ReadPackets;
    if |data| == 0 || |data| > MAX_SIGNATURE_FILE_BYTES {
      return Err(BadSignature);
    }
    var read := Packets(data);
    if read.Err? {
      return Err(read.error);
    }
    var ps := read.value;
    var sigs: seq<Signature> := [];
    for i := 0 to |ps|
      invariant SignaturesIn(ps[..i]) == Ok(sigs)
    {
      assert ps[..i + 1][..i] == ps[..i];
      if ps[i].tag != TAG_SIGNATURE {
        FirstBadDecides(ps, i + 1);
        return Err(BadSignature);
      }
      var sig := ParseSignature(ps[i].body);
      if sig.Err? {
        FirstBadDecides(ps, i + 1);
        return Err(sig.error);
      }
      sigs := sigs + [sig.value];
    }
    assert ps[..|ps|] == ps;
    return Ok(sigs);
  }
}
