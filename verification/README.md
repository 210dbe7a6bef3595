# openvc: a verified model

openvc verifies W3C and IETF credentials; openvc_ebsi walks the EBSI registries and its
Trusted Nodes List. This project models the parts of both whose correctness is not visible
in any one function, and proves what holds of them on all inputs, all runs and all reachable
states. `dafny verify dfyconfig.toml` checks everything.

How it is laid out:

- **Formats.** `Cbor*.dfy` (encoder, fail-closed decoder and the grammar it decides, round trip,
  normal form, recorded tag bytes, spliced pre-encoded parts), `Cose.dfy` (what a signature or MAC covers), `Jcs*.dfy`
  (canonical JSON: number layout, escapes, member order, serialiser, reader), `Multibase*.dfy`
  (base58 and varint, both copies), `OpenPgp*.dfy`, `Crc*.dfy` and `Armor.dfy` (detached
  signatures and key blocks).
- **Checks against a plain specification.** `Nesting.dfy` (explicit-stack depth test on cyclic
  graphs), `Did.dfy` (lookup by precomputed spellings against resolving everything),
  `TypeMetadata.dfy`, `SelectRules.dfy`, `ExtendsRules.dfy` and `Registration.dfy` (path cover
  against path semantics, the `extends` chain).
- **State machines.** `Trust.dfy` (accreditation walk), `Nodes.dfy` (node-list verification over
  runs), `Cache.dfy` and `Batch.dfy` (bounded cache; batch against single verification),
  `NodeClient.dfy`, `NodeFailover.dfy` and `NodeRules.dfy` (failover and health memo), `Http.dfy` (request loop
  and body reader).
- `Prelude.dfy`, `Order.dfy`, `Numerals.dfy`, `Bits.dfy` and `Unicode.dfy` hold the shared vocabulary and
  arithmetic.

Code that works by updating state is a class or a method with loops here, proved equal to a
function; the theorems are about that function. Lemmas named `...Exactly` and `...Rule` state what
such a function computes in terms that do not use it: octets, characters, places, table rows or
the events of a run, in both directions. Signatures, hashes, JSON parsing, base64, zlib,
sockets, clocks and randomness are parameters: function-valued fields of a `World`, or one
record of readings and events per step.

Six results say exactly how far a documented rule reaches. They are stated of the code as it
is, each as an equivalence over all inputs with a failing instance beside it:

- `Registration.MetaCoverMeans` (`LooserRequestPasses`): an entry is pooled when its `meta`
  covers the keys the request carries. If the entry also constrains a key the request leaves
  out, the request can match credentials the entry was not registered for, although the
  documentation says an entry counts only if it covers everything the query can match
  (`rp_registration.py:1073-1079`).
- `Registration.SpellingsSafeExactly` (`DecoyIsReal`): the union of `claims` and `claim` compares
  paths with Python's `==`, so a path with `True` under one spelling hides the same path with
  `1` under the other. The rule that every path under either spelling must be registered
  (`rp_registration.py:402-404`) holds exactly for registrations whose paths with bools are also
  granted with ints; `EverySpellingContained` says what holds without that condition.
- `Nesting.LimitsDisagreeExactly` (`LimitsDiffer`): the canonicaliser and the nesting test both
  name 100 levels (`_json.py:40-42` calls them the same bound), and the canonicaliser takes one
  more exactly when every container at that level is empty.
- `Batch.RefetchedExactly` (`FirstKeyAgain`): each key is fetched once (`cache.py:184-186`) until
  1024 other keys, the default size of a cache, have been answered since, and again then. The
  answers are the same either way.
- `Http.DelayBounded` (`SleepCanStartLate`): a sleep ends within the caller's budget exactly when
  it starts within it; one that starts late takes no time.
- `CborEquality.EqualValuesShareBytes` (`TrueIsNotOne`): the bytes decide equality of value and
  type, which is Python's `==` exactly for values that hold no bool, 0 or 1 outside their keys.

## Model

| member | source | states |
|---|---|---|
| `CborCodec.Encoder.WriteHead` | src/openvc/cbor.py:106-119 | Appends the shortest head that carries the argument; refuses, leaving the buffer as it was, exactly the arguments 64 bits cannot hold |
| `CborCodec.Encoder.Encode` | src/openvc/cbor.py:122-160 | Appends the deterministic encoding to whatever the buffer already holds, and fails exactly on values outside the 64-bit profile |
| `CborCodec.Encode` | src/openvc/cbor.py:163-170 | The bytes of the deterministic encoding, or the range error, for every value the encoder takes |
| `CborCodec.DecodeItem` | src/openvc/cbor.py:195-249 | The recursive loops compute the decoding relation, error kinds included, at every offset and depth |
| `CborCodec.DecodeAll` | src/openvc/cbor.py:252-263 | One item and nothing after it |
| `CborOrder.ReadHeadInverts` | src/openvc/cbor.py:177-192 | Wherever a written head stands it reads back as its major type and argument and the offset after it |
| `CborOrder.HeadIsShortest` | src/openvc/cbor.py:106-119 | Any head the decoder accepts is at least as long as the one the encoder writes for the same argument |
| `CborOrder.KeyBytesInjective` | src/openvc/cbor.py:151-158 | Distinct map keys never share encoded bytes, so the key sort never ties |
| `CborOrder.SortStrict` | src/openvc/cbor.py:151-158 | Sorting puts the encoded keys in strictly increasing order |
| `CborOrder.SortIgnoresOrder` | src/openvc/cbor.py:151-158 | The sorted entries do not depend on insertion order |
| `CborProofs.RoundTrip` | src/openvc/cbor.py:195-249 | Wherever an encoding stands, decoding there gives exactly the value in normal form and the offset after it if the nesting fits, and the depth error if it does not |
| `CborProofs.SelfDelimiting` | src/openvc/cbor.py:252-273 | With any bytes after it, an encoding decodes to its value and stops at its end |
| `CborProofs.NormalIsSame` | src/openvc/cbor.py:85-99 | The decoded value equals the encoded one, types included: dicts by key, tags without their recorded bytes |
| `CborEquality.PrefixFree` | src/openvc/cbor.py:163-170 | No encoding is a proper prefix of another: value and remainder are both determined |
| `CborEquality.EncodingDecidesEquality` | src/openvc/cbor.py:163-170 | Two values have the same bytes if and only if they are equal, types included |
| `CborEquality.EncodingDecidesPyEqual` | src/openvc/cbor.py:124-130 | Without bools, if and only if Python calls them equal |
| `CborEquality.EqualValuesShareBytes` | src/openvc/cbor.py:124-130 | Everything Python equates with a value has its bytes if and only if the value holds no bool and no 0 or 1 outside its keys |
| `CborEquality.TrueIsNotOne` | src/openvc/cbor.py:124-130 | The failing pair: True equals 1 in Python and has other bytes |
| `CborEquality.InsertionOrderIrrelevant` | src/openvc/cbor.py:151-158 | A map's bytes do not depend on insertion order |
| `CborSound.DecodeSound` | src/openvc/cbor.py:195-249 | Whatever the decoder accepts is in profile, fits the depth limit, and re-encodes to no more bytes than it consumed |
| `CborTags.DecodeLocal` | src/openvc/cbor.py:195-249 | The result depends only on the consumed slice: the same slice elsewhere, at any depth no greater, decodes to the same value |
| `CborTags.RecordedBytesDecodeAlone` | src/openvc/cbor.py:85-99 | Every tag of an accepted document, at any depth, records a slice of the input that decodes alone to the same tag |
| `CborTags.ReencodeIsNormalForm` | src/openvc/cbor.py:252-263 | Re-encoding an accepted document is accepted, equal and no longer, and encoding again changes nothing |
| `CborTags.NormalFormIsUnique` | src/openvc/cbor.py:151-158 | Accepted documents of equal value re-encode to the same bytes |
| `CborGrammar.DecodesExactly` | src/openvc/cbor.py:195-263 | The decoder accepts exactly the documents of a grammar stated without it, nested at most 64 deep, and returns the value they spell: heads of any width, members in any order, keys distinct and of three types, strict UTF-8, three simple values, nothing left over |
| `CborGrammar.EncodingIsShortest` | src/openvc/cbor.py:163-170 | For the value of any document, the encoder writes a document that spells an equal value, and none that does is shorter |
| `Order.LessExactly` | src/openvc/cbor.py:151-158 | The order of encoded keys: at the first octet where two differ the smaller comes first, and a proper prefix before what it begins (section 4.2.1 of RFC 8949) |
| `CborRaw.SplicingKeepsEncoding` | src/openvc/cbor.py:76-82 | Replacing parts of a value, anywhere in it, by their own pre-encoded bytes leaves the whole encoding unchanged |
| `Unicode.FromUtf8Inverts` | src/openvc/cbor.py:143-146 | Text survives the UTF-8 round trip |
| `Unicode.FromUtf8Sound` | src/openvc/cbor.py:208-214 | Strict UTF-8: accepted bytes are the one encoding of their text |
| `Cose.TbsInjective` | src/openvc/cose.py:214-216 | The to-be-signed bytes determine context, protected header, external data and payload (sections 4.4 and 6.3 of RFC 9052) |
| `Cose.ContextsNeverCollide` | src/openvc/cose.py:232-269 | No bytes are both a signature structure and a MAC structure |
| `Cose.CoveredBytes` | src/openvc/cose.py:214-216 | The covered octets, literally: array of four, "Signature1" or "MAC0", protected header, external data, payload |
| `Cose.StructureBytes` | src/openvc/cose.py:214-216 | Those octets decode to exactly that array of four, for every content |
| `Cose.Sign1Verdict` | src/openvc/cose.py:219-251 | The verdict on a signature, written out: algorithm under label 1 of the protected header, one of ES256, ES384 and EdDSA, payload from exactly one place, and the check asked about the array headed "Signature1" |
| `Cose.Mac0Verdict` | src/openvc/cose.py:219-269 | The verdict on a MAC, written out: HMAC 256/256 alone, and the tag compared with that of the array headed "MAC0" |
| `Cose.AcceptedSign1WasSigned` | src/openvc/cose.py:232-251 | With an unforgeable check, an accepted message carries exactly what was signed, under an allow-listed algorithm of its protected header |
| `Cose.MacNeverPassesAsSignature` | src/openvc/cose.py:254-269 | A key that only ever covered MAC structures lets no signature message through |
| `Cose.Sign1AcceptedExactly` | src/openvc/cose.py:219-251 | For a check that accepts just the signatures issued: accepted if and only if one was issued, under an allow-listed protected algorithm, for this protected header, external data and payload in the order Sign1Verdict states |
| `Cose.AcceptedMac0WasMaced` | src/openvc/cose.py:254-269 | An accepted MAC message carries exactly what the key was used on for a MAC structure |
| `Cose.SignatureNeverPassesAsMac` | src/openvc/cose.py:254-269 | A key that only ever covered signature structures lets no MAC message through |
| `Cose.ParsedExactly` | src/openvc/cose.py:127-211 | Accepted exactly: the four elements, bare or under the structure's own tag, with the header its protected bytes decode to and every critical label handled |
| `Cose.WireRoundTrip` | src/openvc/cose.py:127-211 | Encoded bare or tagged, decoded and parsed, a message comes back but for the order of its unprotected header, and every verdict on it is the same |
| `MultibaseCode.B58btcDecode` | src/openvc/multibase.py:28-40 | The base-conversion loop decodes as specified, cap and bad characters included |
| `MultibaseCode.B58btcEncode` | src/openvc/multibase.py:43-51 | The division loop encodes as specified |
| `MultibaseCode.ReadVarint` | src/openvc/multibase.py:66-79 | The shift-and-or loop reads the base-128 value, the length and truncation errors included |
| `DidKeyCode.B58Decode` | src/openvc/did/did_key.py:32-41 | The second base58 loop decodes as specified without the cap, and parts from the first exactly on strings over it |
| `DidKeyCode.ReadVarintUncapped` | src/openvc/did/did_key.py:44-51 | The second varint loop answers as the first unless nine bytes all continue and more follow |
| `Multibase.DecodeInvertsEncode` | src/openvc/multibase.py:28-51 | Every byte string comes back from its encoding; only the length cap can refuse it |
| `Multibase.EncodeInvertsDecode` | src/openvc/multibase.py:28-51 | Every string over the alphabet comes back character for character |
| `Multibase.DecodeIsBijective` | src/openvc/multibase.py:28-40 | A string is accepted if and only if it is over the alphabet and within the cap, and no byte string has two spellings |
| `Multibase.DecodedNumber` | src/openvc/multibase.py:28-40 | What is decoded: the number the characters write in base 58, in the alphabet's order, as big-endian bytes, with one zero byte for each leading 1 |
| `Multibase.LeadingZerosMatch` | src/openvc/multibase.py:39-51 | Leading zero bytes are exactly the leading 1 characters |
| `Multibase.VarintIsLeb128` | src/openvc/multibase.py:66-79 | An accepted capped varint is the little-endian base-128 value of the bytes it consumed, below 2^63 |
| `Multibase.VarintReadsBack` | src/openvc/multibase.py:66-79 | Every number below 2^63 reads back from its shortest varint, whatever follows |
| `JcsNumber.ReadInvertsAssembleSigned` | src/openvc/proof/_jcs.py:96-131 | The layout rules lose nothing: sign, significant digits and point position read back from the text laid out |
| `JcsNumber.ReformatKeepsNumber` | src/openvc/proof/_jcs.py:96-117 | Re-layout keeps the exact rational value of every non-zero numeral in the shape of repr (section 6.1.6.1.20 of ECMA-262) |
| `JcsNumber.ReformatIdempotent` | src/openvc/proof/_jcs.py:96-131 | Laying out again changes nothing |
| `JcsNumber.ReformatDecidesNumber` | src/openvc/proof/_jcs.py:96-131 | Two numerals get the same text if and only if they denote the same number |
| `JcsNumber.LayoutUnique` | src/openvc/proof/_jcs.py:110-116 | A non-zero number has one pair of significant digits and point position |
| `JcsNumberRules.NumberRule` | src/openvc/proof/_jcs.py:96-131 | The text of every numeral from its sign, k significant digits and point position n, form by form, with the bounds 21 and -6 of section 6.1.6.1.20 of ECMA-262 |
| `JcsNumberRules.ExponentRule` | src/openvc/proof/_jcs.py:120-131 | An exponent is written exactly for magnitudes below a millionth and from 10 to the 21 up, the magnitude compared as a rational |
| `JcsNumberRules.SafeNumberRule` | src/openvc/proof/_jcs.py:62-93 | Zero, safe integers and doubles, each in its form |
| `JcsText.SafeIntegers` | src/openvc/proof/_jcs.py:66-73 | A safe integer written directly is what the double route would write |
| `JcsText.NumTextDecides` | src/openvc/proof/_jcs.py:62-93 | Two numbers, int or float, zero included, are written alike if and only if they are the same rational |
| `JcsText.EscapeString` | src/openvc/proof/_jcs.py:47-59 | The loop writes the quoted, escaped text |
| `JcsText.CodeUnitsOf` | src/openvc/proof/_jcs.py:31-44 | The loop computes the UTF-16 code units, which CodeUnitsExactly states scalar by scalar |
| `JcsText.ReadBodyInverts` | src/openvc/proof/_jcs.py:47-59 | Every string reads back from its escaped form, whatever follows the closing quote |
| `JcsText.BeforeTotal` | src/openvc/proof/_jcs.py:163 | Distinct member names are never tied in UTF-16 order |
| `Unicode.CodeUnitsExactly` | src/openvc/proof/_jcs.py:31-44 | A scalar below 0x10000 is its own unit; any other is a high and a low surrogate that carry it between them |
| `JcsText.BeforeExactly` | src/openvc/proof/_jcs.py:163 | Member order without code units: at the first scalar where two names differ they stand in scalar order, but 0xE000 to 0xFFFF after everything from 0x10000 up (section 3.2.3 of RFC 8785) |
| `Unicode.CodeUnitsInjective` | src/openvc/proof/_jcs.py:31-44 | Texts with the same code units are the same text |
| `JcsReader.SerializeSucceedsExactly` | src/openvc/proof/_jcs.py:145-166 | Succeeds exactly on finite values whose innermost value lies at most 100 levels down, writing the canonical text; otherwise the error names the cause |
| `JcsRules.StringRule` | src/openvc/proof/_jcs.py:47-59 | A string, character by character: the seven two-character escapes, lower-case hexadecimal for the other controls, everything else as it is (section 3.2.2.2 of RFC 8785) |
| `JcsRules.LeafRule` | src/openvc/proof/_jcs.py:145-166 | The scalars and literals |
| `JcsRules.ArrayRule` | src/openvc/proof/_jcs.py:155-161 | An array: its items' texts in order, one level down, commas between |
| `JcsRules.ObjectRule` | src/openvc/proof/_jcs.py:162-166 | An object: every member once, name, colon and value, in the order BeforeExactly states of the names |
| `JcsReader.ReadsBack` | src/openvc/proof/_jcs.py:145-166 | A reader recovers every value from its canonical text, and nothing that follows is touched |
| `JcsProofs.SortedAscending` | src/openvc/proof/_jcs.py:163 | Members stand in strictly increasing UTF-16 order |
| `JcsProofs.CanonDecidesValue` | src/openvc/proof/_jcs.py:145-166 | Two values have the same canonical text if and only if they are the same JSON value |
| `JcsProofs.SignedBytesDetermineValue` | src/openvc/proof/_jcs.py:134-142 | Two successful canonicalisations give the same bytes only for the same JSON value |
| `JcsProofs.MemberOrderIrrelevant` | src/openvc/proof/_jcs.py:162-165 | Insertion order of members is irrelevant |
| `JcsProofs.CanonIsStable` | src/openvc/proof/_jcs.py:145-166 | Reading canonical text and canonicalising again gives the same text, from a value of the same meaning |
| `Nesting.NestingExceeds` | src/openvc/_json.py:45-63 | Stops on every finite object graph, cyclic ones included, and is true exactly when limit + 1 nested containers start at the root |
| `Nesting.ExceedsMeansWalk` | src/openvc/_json.py:45-63 | In terms of walks through containers |
| `Nesting.CyclicExactly` | src/openvc/_json.py:48-49 | A structure that contains itself exceeds every limit; without a reachable cycle nothing nests deeper than there are containers |
| `Nesting.TreeDepth` | src/openvc/_json.py:45-63 | On a tree, shared parts allowed, the answer is the recursive depth |
| `Nesting.AdmittedCanonicalises` | src/openvc/proof/_jcs.py:145-149 | What the nesting test admits never meets the canonicaliser's depth limit |
| `Nesting.LimitsDisagreeExactly` | src/openvc/proof/_jcs.py:145-149 | The nesting test refuses what the canonicaliser takes exactly when containers nest 101 deep and every one at that level is empty; never the other way |
| `OpenPgpFraming.Packets` | src/openvc_ebsi/_openpgp.py:141-167 | The packet loop reads what the framing relation says |
| `OpenPgpFraming.PacketsReadBack` | src/openvc_ebsi/_openpgp.py:141-167 | Reading undoes writing for every packet list and length form (section 4.2.1 of RFC 4880) |
| `OpenPgpFraming.PacketsTile` | src/openvc_ebsi/_openpgp.py:141-167 | Accepted packets tile their input with no gap and no overlap |
| `OpenPgpRules.PacketOctets` | src/openvc_ebsi/_openpgp.py:141-167 | A packet octet by octet: marker bits, tag, length form and the length in one, two or four octets |
| `OpenPgpFraming.Subpackets` | src/openvc_ebsi/_openpgp.py:170-194 | The subpacket loop reads what the framing relation says |
| `OpenPgpFraming.SubpacketsReadBack` | src/openvc_ebsi/_openpgp.py:170-194 | Reading undoes writing for every subpacket list and length form (section 5.2.3.1 of RFC 4880) |
| `OpenPgpFraming.SubpacketsTile` | src/openvc_ebsi/_openpgp.py:170-194 | Accepted subpackets tile their area |
| `OpenPgpRules.SubpacketOctets` | src/openvc_ebsi/_openpgp.py:170-194 | A subpacket octet by octet: the length, which counts the type octet, in one, two or five octets, the type with its critical bit, the data |
| `OpenPgpFraming.MpiReadsBack` | src/openvc_ebsi/_openpgp.py:197-213 | Every positive integer within the bound reads back from its one written form (section 3.2 of RFC 4880) |
| `OpenPgpFraming.MpiSound` | src/openvc_ebsi/_openpgp.py:197-213 | Every accepted MPI is a positive integer within the bound in its one written form |
| `OpenPgpRules.NumberOctets` | src/openvc_ebsi/_openpgp.py:197-213 | A number octet by octet: its exact count of bits, then the octets that hold them |
| `OpenPgpSignature.CheckHashed` | src/openvc_ebsi/_openpgp.py:234-263 | The single pass over the hashed area decides the file rules and finds the signer |
| `OpenPgpRules.HashedExactly` | src/openvc_ebsi/_openpgp.py:234-263 | The rules of a signature file's hashed area in terms of subpacket types: one creation time of four octets, no expiration, nothing critical but types 2 and 33, the signer the one v4 issuer fingerprint |
| `OpenPgpRules.KeyAreaExactly` | src/openvc_ebsi/_openpgp.py:234-263 | In a key block a hashed area is accepted exactly when its subpackets are framed and none expires |
| `OpenPgpSignature.SuffixSplits` | src/openvc_ebsi/_openpgp.py:295-296 | Document plus suffix splits one way: it determines the document and the signed header (section 5.2.4 of RFC 4880) |
| `OpenPgpSignature.HashedBytesDetermineSigner` | src/openvc_ebsi/_openpgp.py:277-298 | Equal hashed bytes mean the same document, the same hashed area and the same signer |
| `OpenPgpRules.ParsedExactly` | src/openvc_ebsi/_openpgp.py:216-298 | A packet body is accepted exactly when it is, octet for octet, a v4 binary ECDSA SHA-256 signature of the profile, and read as that signature: signer from the hashed area, suffix the signed header with 4, 255 and its length |
| `OpenPgpSignature.ReadSignatures` | src/openvc_ebsi/_openpgp.py:301-313 | A signature file is read packet by packet, the first bad packet deciding |
| `OpenPgpRules.FileExactly` | src/openvc_ebsi/_openpgp.py:301-313 | A signature file is accepted exactly when it is 1 to 4096 octets of at most 32 packets of tag 2, each such a signature |
| `OpenPgpSignature.VerifiedSigners` | src/openvc_ebsi/_openpgp.py:334-352 | The loop returns the distinct allowed signers, or fails when any signature naming an allowed key is bad |
| `OpenPgpSignature.SignersAreExactlyTheVerified` | src/openvc_ebsi/_openpgp.py:334-352 | A fingerprint is returned exactly when an allowed key has a valid signature naming it |
| `OpenPgpSignature.OrderAndRepetitionIrrelevant` | src/openvc_ebsi/_openpgp.py:334-352 | Order and repetition of signatures change nothing |
| `Crc24.BuildTable` | src/openvc_ebsi/_openpgp.py:423-432 | The table holds eight division steps of every octet |
| `Crc24.Crc` | src/openvc_ebsi/_openpgp.py:438-443 | The table-driven loop equals bit-by-bit polynomial division (section 6.1 of RFC 4880) on every byte string |
| `Crc24.TableStepDivides` | src/openvc_ebsi/_openpgp.py:438-443 | One table step is eight division steps |
| `CrcRemainder.ChecksumIsRemainder` | src/openvc_ebsi/_openpgp.py:423-443 | The checksum is the one number below 2^24 that differs from the message polynomial, initial register in front and 24 places up, by a multiple of the generator 0x1864CFB (section 6.1 of RFC 4880) |
| `Crc24.OneOctetDetected` | src/openvc_ebsi/_openpgp.py:438-443 | Inputs that differ in exactly one octet never share a checksum |
| `Crc24.BurstDetected` | src/openvc_ebsi/_openpgp.py:438-443 | Nor do inputs that differ within three consecutive octets |
| `Armor.Dearmor` | src/openvc_ebsi/_openpgp.py:446-484 | The line loops compute the armor relation |
| `Armor.DataLineExactly` | src/openvc_ebsi/_openpgp.py:463-467 | A data line: at most 76 characters, some of the alphabet and then up to two of padding |
| `Armor.CrcLineExactly` | src/openvc_ebsi/_openpgp.py:471-475 | A checksum line: a padding character and four of the alphabet |
| `Armor.AlphabetExactly` | src/openvc_ebsi/_openpgp.py:463-467 | The alphabet by code point |
| `Armor.AcceptedIsBlock` | src/openvc_ebsi/_openpgp.py:446-484 | Every accepted text is a block in the one layout, and a checksum line states the checksum of the bytes returned |
| `Armor.BlockIsAccepted` | src/openvc_ebsi/_openpgp.py:446-484 | Every block in that layout is accepted, with or without checksum line and final newline |
| `Armor.CorruptionIsRefused` | src/openvc_ebsi/_openpgp.py:482-483 | Two accepted blocks with one checksum line never hold data differing within three consecutive octets |
| `Did.SpellingsAreExact` | src/openvc/did/base.py:98-134 | The spellings of an absolute DID URL are exactly the strings that resolve to it (section 3.2.2 of DID Core 1.0) |
| `Did.IsDidExactly` | src/openvc/did/base.py:37-42 | A string is a DID exactly when it is the scheme, a lower-case method name and an id of characters, percent-encoded octets and colons that does not end in a colon (section 3.1 of DID Core 1.0) |
| `Did.ResolvesExactly` | src/openvc/did/base.py:87-116 | A string resolves to an absolute DID URL exactly when it is that URL, or a fragment and the document's own id is such a DID |
| `Did.SelectedExactly` | src/openvc/did/base.py:136-187 | Selection by spellings picks the one method whose id resolves to the key id, and none when two do |
| `Did.KeyForPurposeExactly` | src/openvc/did/base.py:144-197 | Lookup by spellings equals resolving every id and reference and comparing: uniquely identified, and granted only as the document declares |
| `Did.GrantedKeyIsNamed` | src/openvc/did/base.py:158-166 | A granted key has the named id, and a reference of the declared relationship resolves to that same id |
| `TypeMetadata.Select` | src/openvc/type_metadata.py:238-269 | The selection loops compute the path semantics, structural errors and the node cap included |
| `SelectRules.SelectsExactly` | src/openvc/type_metadata.py:238-269 | A selection holds each place in the payload that matches the path step by step, once, with its value, and nothing else; it fails exactly when some step meets a value it does not suit or more than 10000 places match |
| `TypeMetadata.SelectGoesDown` | src/openvc/type_metadata.py:238-269 | A path selects only values at or below the nodes it starts from |
| `TypeMetadata.ChainInherits` | src/openvc/type_metadata.py:113-137 | A resolved chain starts at its type, follows extends through distinct types to one that extends nothing, within the depth; for every path the nearest document that mentions it decides wholesale |
| `ExtendsRules.ResolvesExactly` | src/openvc/type_metadata.py:113-137 | Every outcome of a resolution, chain or error, is that of one climb: documents fetched by the type and integrity hash the one before names, no type twice, ended by the depth, a cycle, a failed fetch, a bad extends or a document that extends nothing |
| `TypeMetadata.ComposedNearest` | src/openvc/type_metadata.py:205-212 | For each path the child's entries stand if it has any, else the parent's |
| `TypeMetadata.ValidateClaims` | src/openvc/type_metadata.py:223-235 | Accepted exactly when every path selects without a structural error and every mandatory one selects something |
| `Registration.IsPathCovered` | src/openvc/rp_registration.py:984-1009 | The guarded element loop decides the covering relation exactly |
| `Registration.CoverMeansContainment` | src/openvc/rp_registration.py:984-1009 | The syntactic cover implies the semantic one: every value a covered path selects is, or lies inside, one its cover selects |
| `Registration.PathCoverTransitive` | src/openvc/rp_registration.py:984-1009 | Path cover is transitive |
| `Registration.MetaCoverTransitive` | src/openvc/rp_registration.py:1012-1047 | Meta cover is transitive |
| `Registration.ConstraintExactly` | src/openvc/rp_registration.py:1033-1047 | A constraint is covered exactly when everything it admits is admitted, and a list is never covered by a single value |
| `Registration.MetaExactly` | src/openvc/rp_registration.py:1012-1047 | Which requests an entry's meta covers, key by key, in terms of the values admitted |
| `Registration.MetaCoverMeans` | src/openvc/rp_registration.py:1012-1047 | A covered meta narrows to registered credentials exactly when the registration constrains no key the request leaves out, or the request matches nothing |
| `Registration.LooserRequestPasses` | src/openvc/rp_registration.py:1073-1079 | A covered request that matches a credential the entry is not registered for |
| `Registration.PathsUnder` | src/openvc/rp_registration.py:365-378 | The loop reads the paths of one member |
| `Registration.PathsExactly` | src/openvc/rp_registration.py:365-378 | A path is read under a member exactly when an item is that list of components or the bare text that stands for its one key |
| `Registration.RequestedPaths` | src/openvc/rp_registration.py:395-407 | The loop forms the union of both spellings |
| `Registration.BothSpellingsChecked` | src/openvc/rp_registration.py:395-407 | The paths checked are those of claims and each path of claim that is the first Python equates with itself in the two lists; no class of paths is lost |
| `Registration.SpellingsSafeExactly` | src/openvc/rp_registration.py:395-407 | Every path of either spelling that can select anything is registered, whatever request passes, if and only if each registered path holding a bool is also granted with the int in its place |
| `Registration.DecoyIsReal` | src/openvc/rp_registration.py:402-407 | A registration for [True] lets a request pass whose other spelling asks for [1] |
| `Registration.FlagSelectsNothing` | src/openvc/type_metadata.py:238-269 | A path with a bool selects nothing or is the structural error |
| `Registration.EverySpellingContained` | src/openvc/rp_registration.py:1111-1149 | For a request that passes, each path of either spelling selects nothing outside a registered path of a covering entry, its bools read as ints |
| `Registration.SafeRequestContained` | src/openvc/rp_registration.py:1111-1149 | On a registration meeting that condition, nothing outside a registered path as it stands |
| `Registration.Requestables` | src/openvc/rp_registration.py:410-424 | The loop reads the requestable credentials off the certificate's entries |
| `Registration.EntryCovers` | src/openvc/rp_registration.py:410-424 | An entry without a meta covers just the requests without one, one whose meta is no object covers none |
| `Registration.SecondSpellingNeverWidens` | src/openvc/rp_registration.py:381-392 | Whatever stands under claims beside a claim member changes no grant |
| `Registration.FallbackExactly` | src/openvc/rp_registration.py:381-392 | claims is read exactly when there is no claim member |
| `Registration.CheckQuery` | src/openvc/rp_registration.py:1111-1149 | One query passes exactly when its format is registered, a candidate entry covers its meta and every path it names is granted |
| `Registration.CheckRequest` | src/openvc/rp_registration.py:1057-1149 | The request passes exactly when the intended use matches, the query object is well shaped and every query is within the registration |
| `Registration.PoolGrants` | src/openvc/rp_registration.py:1143-1149 | A pooled path always comes from an entry that covers the whole query |
| `Registration.RequestStaysInside` | src/openvc/rp_registration.py:1057-1149 | Passing means: for each requested path a registered path of a covering entry contains all it selects, on every payload |
| `Registration.MoreEntriesStillWithin` | src/openvc/rp_registration.py:1124-1128 | Registering more never turns acceptance into refusal |
| `Registration.EachPathAlone` | src/openvc/rp_registration.py:1143-1149 | A multi-path query passes exactly when each path passes alone |
| `Registration.NarrowerRequestWithin` | src/openvc/rp_registration.py:1057-1149 | Narrowing the meta and the paths of a request that passes still passes |
| `Trust.VerifyTrustChain` | src/openvc_ebsi/trust.py:272-366 | The loop returns what the walk relation says; TrustChainExactly and StopsExactly state that relation outright |
| `Trust.TrustChainExactly` | src/openvc_ebsi/trust.py:272-366 | The walk succeeds exactly with the chains there are, each hop as HopExactly writes it out, and there is at most one |
| `Trust.HopExactly` | src/openvc_ebsi/trust.py:99-161 | A round takes a hop exactly when, written out: the record's first accreditation with the right role, kind, types and scope for its place, signed for the accreditor it names, bound to the subject under every name sent, and live |
| `Trust.FitsExactly` | src/openvc_ebsi/trust.py:137-161 | Roles, kind and scope of an accreditation at the leaf and above it |
| `Trust.BoundExactly` | src/openvc_ebsi/trust.py:184-226 | Each of sub, id and @id that is sent names the subject, and at least one is sent |
| `Trust.HopErrors` | src/openvc_ebsi/trust.py:229-366 | Which error a round stops with: absent record, none fitting, revoked, or anything else wrong with the first fitting one |
| `Trust.StopsExactly` | src/openvc_ebsi/trust.py:272-366 | A walk ends with an error exactly when it climbed some hops and stopped there: at the depth, at a round that fails, or at an accreditor met before |
| `Trust.ChainIsSound` | src/openvc_ebsi/trust.py:272-366 | Linked from the subject through distinct subjects to the first accreditor that is an anchor, within max_depth, each hop a live accreditation signed by the accreditor for that subject |
| `Trust.ScopeIsDelegated` | src/openvc_ebsi/trust.py:350-358 | The scope is non-empty when there are hops, inside the credential's types, and covered by every accreditation on the way |
| `Trust.DeeperLimitSameChain` | src/openvc_ebsi/trust.py:299 | A larger max_depth gives the same chain |
| `Trust.MoreAnchorsShorterChain` | src/openvc_ebsi/trust.py:356-358 | A larger anchor set succeeds on a prefix of the same hops |
| `Cache.TtlCache.Get` | src/openvc/cache.py:81-91 | A fresh value or a miss; an expired entry is dropped when asked for |
| `Cache.TtlCache.Set` | src/openvc/cache.py:93-98 | The entry stands last, at the cost of the oldest one when full |
| `Cache.TtlCache.Clear` | src/openvc/cache.py:100-103 | Empties the cache |
| `Cache.RunSound` | src/openvc/cache.py:57-98 | Over every run with a clock that does not go back: at most max_entries, one per key, in non-decreasing expiry order |
| `Cache.HitsExactly` | src/openvc/cache.py:81-98 | A look-up hits exactly when the last write of the key is still fresh, not cleared, and fewer than max_entries distinct other keys were written since; and then gives that value |
| `Batch.CachedResolver.Resolve` | src/openvc/cache.py:111-137 | Serves a hit, otherwise calls through and stores only successes |
| `Batch.VerifyMany` | src/openvc/verify.py:523-571 | Item for item, aborts included, what uncached verification returns, leaving a state whose every call was due; at most four nested calls |
| `Batch.VerifyIsOutcome` | src/openvc/verify.py:357-474 | One verification, whatever its caches hold or dropped, comes to what its dialogue with the resolvers comes to without state: two envelopes at most, schema credentials under the inner policy |
| `Batch.BatchExactly` | src/openvc/verify.py:523-571 | A batch item by item: item i the value or the typed error of credential i, and the first error of any other kind ends it |
| `Batch.VerifyAlike` | src/openvc/verify.py:357-474 | One verification with memoised resolvers, whatever they evicted, answers like one without |
| `Batch.FourNestedCalls` | src/openvc/verify.py:435-504 | Envelopes and schema credentials nest at most four calls, even when a schema credential names itself |
| `Batch.FourIsReached` | src/openvc/verify.py:435-504 | Four is reached |
| `Batch.RefetchedExactly` | src/openvc/cache.py:129-135 | In every state of a batch, per resolver, a key is fetched if and only if the resolver never answered it or has answered at least 1024 other keys since it last did |
| `Batch.VerifyReaches` | src/openvc/cache.py:176-202 | Every verification keeps the caches in step with the calls made and makes only calls that are due |
| `Batch.OnceWhileTheyFit` | src/openvc/cache.py:176-202 | Each key is answered once while a resolver answers at most 1024 of them |
| `Batch.FirstKeyAgain` | src/openvc/cache.py:176-202 | A batch from n + 1 issuers and once more the first resolves the first again if and only if n is at least 1024 |
| `Nodes.ParseEntries` | src/openvc_ebsi/nodes.py:329-349 | The node loop accepts exactly own origins with no URL seen before, anywhere in the list |
| `Nodes.ParseEnvironments` | src/openvc_ebsi/nodes.py:376-390 | The environment loops decide the whole-list rules: own origins, no duplicate URL, at most 512 nodes |
| `Nodes.ReadCustodians` | src/openvc_ebsi/nodes.py:423-437 | The custodian loop files every key under its recomputed fingerprint or refuses |
| `Nodes.CustodiansDistinct` | src/openvc_ebsi/nodes.py:423-437 | Accepted custodians have pairwise distinct fingerprints and public points |
| `Nodes.VerifyNodeList` | src/openvc_ebsi/nodes.py:454-566 | The stages in order, each on bytes the previous one authenticated; AcceptedExactly and the two lemmas on errors state what they come to |
| `Nodes.AcceptedExactly` | src/openvc_ebsi/nodes.py:454-566 | A call is accepted exactly when arguments, key list, custodians, quorum and node list follow the rules written out, expiry, 300 seconds of skew, 90 days of validity, age and both rollback rules among them; and what comes back is the environment's entries and both pairs |
| `Nodes.KeyListErrors` | src/openvc_ebsi/nodes.py:488-526 | Which error bad arguments and a bad key list give, in order |
| `Nodes.NodeListErrors` | src/openvc_ebsi/nodes.py:528-556 | Which error custodians, signatures and the node list itself give, the first in order |
| `Nodes.OriginExactly` | src/openvc_ebsi/nodes.py:294-326 | An origin: https, an EBSI host of the environment, labels of 1 to 63 characters that neither begin nor end with a hyphen |
| `Nodes.CustodiansExactly` | src/openvc_ebsi/nodes.py:423-437 | Custodians are read exactly when every key has the fingerprint it is listed under and no fingerprint and no point stands twice |
| `Nodes.AcceptedWithThreshold` | src/openvc_ebsi/nodes.py:509-536 | An acceptance rests on an anchor-signed key list and on valid signatures by at least threshold custodians with distinct points |
| `Nodes.SignatureOrderIrrelevant` | src/openvc_ebsi/nodes.py:530-536 | Order and repetition of the list's signatures change nothing |
| `Nodes.AcceptedNodes` | src/openvc_ebsi/nodes.py:538-566 | The nodes returned are distinct origins of the requested environment, 1 to 512 |
| `Nodes.NoRollback` | src/openvc_ebsi/nodes.py:279-291 | Over every run in which accepted pairs are stored, versions never go down and each version accepted has one digest |
| `Nodes.NeverBelowFloor` | src/openvc_ebsi/nodes.py:279-284 | Nothing below the floors is accepted |
| `NodeClient.ClassifyExactly` | src/openvc_ebsi/node_client.py:176-220 | What is blamed on a node, exactly; a terminal error never is |
| `NodeRules.ClassifyRule` | src/openvc_ebsi/node_client.py:176-220 | The table of failures, row by row in both directions |
| `NodeClient.NodeSession.GetJson` | src/openvc_ebsi/node_client.py:258-278 | Refuses before any fetch outside the node or past expiry, and records the first failure and the first terminal error |
| `NodeClient.CleanSession` | src/openvc_ebsi/node_client.py:227-278 | A session recorded nothing exactly when every read went to its node under a valid list and met no node failure or terminal error |
| `NodeRules.NotesRule` | src/openvc_ebsi/node_client.py:227-278 | What a session records, from its reads alone: the first node failure and the first terminal error |
| `NodeClient.Order` | src/openvc_ebsi/node_client.py:452-473 | The loop over the policy's output accepts exactly an order of known origins |
| `NodeClient.OrderExactly` | src/openvc_ebsi/node_client.py:452-473 | Reading one item more than there are nodes decides for the whole output |
| `NodeFailover.EbsiNodeClient.CheckHealth` | src/openvc_ebsi/node_client.py:340-364 | Records a fresh verdict; an expired list is raised |
| `NodeFailover.EbsiNodeClient.Run` | src/openvc_ebsi/node_client.py:376-435 | The loop computes the failover relation, which TurnRule and CallRule state outright, and keeps the health memo in step with its history |
| `NodeRules.TurnRule` | src/openvc_ebsi/node_client.py:400-434 | One candidate's turn in full, from the memo, the probe, the reads and how the walk ends: passed over with which failure and record, ended with which value or error, or out of budget |
| `NodeRules.CallRule` | src/openvc_ebsi/node_client.py:376-473 | The outcome of a run exactly: the candidates passed over in order and the turn it ends on, or the failures when none is left |
| `NodeRules.FailoverHappens` | src/openvc_ebsi/node_client.py:409-434 | A walk that raises the first node's 503 moves on and returns what the second gives |
| `NodeFailover.ValueIsClean` | src/openvc_ebsi/node_client.py:376-435 | A value comes only from the first candidate whose attempt read one origin throughout and recorded no node failure or terminal error |
| `NodeFailover.RunContacts` | src/openvc_ebsi/node_client.py:400-407 | No origin is contacted twice in a run, and at most max_nodes are |
| `NodeFailover.NoHealthyNodeLists` | src/openvc_ebsi/node_client.py:144-155 | The final error lists one failure per candidate examined, in order |
| `NodeFailover.RunRecords` | src/openvc_ebsi/node_client.py:409-434 | Every node a run contacted and did not end on is recorded with its failure, dated by the probe or the walk that failed |
| `NodeFailover.FailedNodeLeftAlone` | src/openvc_ebsi/node_client.py:400-434 | In any history of runs and health checks, a node a run failed on is contacted by no later run until that failure's time to live is over, unless a health check recorded it healthy |
| `Http.Request` | src/openvc_ebsi/http.py:742-833 | The loop computes the retry relation |
| `Http.RequestRule` | src/openvc_ebsi/http.py:742-833 | The outcome of a call exactly: that of the first attempt that is not retried, or exhaustion with the last status when all are; a probe has the one last attempt |
| `Http.AttemptRule` | src/openvc_ebsi/http.py:776-825 | What one attempt comes to, status by status |
| `Http.TraceRule` | src/openvc_ebsi/http.py:776-833 | Everything a call does: one request for each attempt that begins and passes the guard, and one sleep after every attempt but the last |
| `Http.RequestBounded` | src/openvc_ebsi/http.py:742-833 | At most attempts requests, none past valid_until or the budget; sleeps total at most (attempts - 1) times the ceiling, each ending within the budget exactly when it starts within it |
| `Http.DelayBounded` | src/openvc_ebsi/http.py:1072-1093 | One sleep is within the ceiling and one day, whatever the server asks, and ends within the budget if and only if it starts within it |
| `Http.RetryAfterHonoured` | src/openvc_ebsi/http.py:1072-1093 | A sleep is the longer of backoff and Retry-After unless the ceiling, a day or the budget is shorter, and then the shortest of those |
| `Http.BackoffRange` | src/openvc_ebsi/http.py:262-265 | The backoff lies between half and the whole of its ceiling, the random part deciding where |
| `Http.CeilingDoubles` | src/openvc_ebsi/http.py:262-265 | The ceiling starts at the base and doubles until it meets the maximum |
| `Http.SleepCanStartLate` | src/openvc_ebsi/http.py:776-809 | A request that outlasts the budget is followed by a sleep of no length past it |
| `Http.StableAnswerRotates` | src/openvc_ebsi/http.py:845-898 | With a stable answer of n addresses the i-th request uses address i mod n |
| `Http.PickNext` | src/openvc_ebsi/http.py:882-887 | The next unused address, or the first again when every one had its turn |
| `Http.ReadVerbatim` | src/openvc_ebsi/http.py:899-965 | Accepted exactly when declared length, wire bytes and decoded bytes are within the cap, in time and complete; the body is never a truncation |

## Left out

- Asynchronous twins (`aio.py` and the async halves of `schema.py` and `resolvers.py`): the same logic with awaits.
- Cryptography, hashing, X.509 and elliptic-curve point checks: parameters of the models; `OpenPgpSignature` also leaves out the left-16-bit digest prefix, which is part of the validity parameter.
- JSON parsing, duplicate-member refusal, timestamp parsing and shape checks of the node list and key list: `Nodes` starts from well-shaped documents.
- Threads: cache methods run one at a time here, as the lock makes them.
- Error messages: errors are kinds; where several refusals share a class they share a constructor.
- CBOR `decode_from` with a negative offset, and non-bytes arguments: type checks at the edge.
- JSON integers outside the safe range: `JcsText` takes them as the double Python converts them to, with overflow as the non-finite case; shortest-digit generation by `repr` is not modelled, only its shape.
- Lone surrogates: text is a sequence of Unicode scalar values, so the final UTF-8 encoding of a canonical document cannot fail.
- COSE header maps other than the protected one, `x5chain` and COSE_Key conversion: single-branch checks.
- Claim paths that hold floats, arrays or objects, and `meta` values nested deeper than one list: no path selects them, and equality on them is Python's.
- `Nodes.VerifyNodeList`: the anchor's own well-formedness and the hexadecimal form of stored digests are taken for granted; they are argument checks.
- `OpenPgpFraming.Mpi` callers other than signatures: reading primary keys and custodian self-signatures is not modelled; `Nodes` takes a key block as a parameter.
- `Trust.VerifyTrustChain`: resolving the accreditor, selecting its key and checking the token are one parameter, as is the status list.
- `Batch.CachedResolver.Resolve`: a resolver that answers None is not expressible; in the source such an answer is a miss and is fetched again each time.
- `Batch.VerifyMany`: the checks of one credential are an arbitrary dialogue of bounded length with the resolvers; format detection and unwrapping are parameters. The caches are values threaded through the calls, `CachedResolver` shows the object they stand for.
- `NodeFailover.EbsiNodeClient.Run`: the walk is what it reads and how it ends; the health clock never fails.
- `Http.Request`: parsing of `Retry-After` dates, host and proxy guards, headers and the error-body reader are inputs or absent; the decompressor is what it makes of each chunk, never more than asked for.
- `Did`: `key_by_kid` beyond the sole-key fallback, and JWK parsing.
- Trust, DID and status registries over the network, logging and tracing: no state to reason about.
