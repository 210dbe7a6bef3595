/**
 The accreditation walk: from an issuer, through the accreditors its registry
 records name, to the first one the caller trusts. The registry, the resolver, the
 signatures and the status lists are fixed for one walk and otherwise unknown.
 */
module Trust {
  import opened Prelude

  const ATTEST := "VerifiableAccreditationToAttest"
  const ACCREDIT := "VerifiableAccreditationToAccredit"

  type Did = string

  datatype Accreditation = Accreditation(
    issuerType: string,
    tao: Option<Did>,
    credentialTypes: seq<string>,
    accreditationTypes: seq<string>,
    token: Option<string>)

  datatype Record = Record(hasAttributes: bool, accreditations: seq<Accreditation>)

  /** What the registry answers for a DID; `Broken` is every other error, passed on as it is. */
  datatype Lookup = Found(record: Record) | NotRegistered | NotADid | Broken

  /** A field of a signed token: absent, or present with a value that need not be a string. */
  datatype Sent = NotSent | Sent(value: Option<string>)

  datatype SubjectField = NoSubject | NotAnObject | SubjectObject(id: Sent, atId: Sent)

  /** The signed content of an accreditation token. */
  datatype Verified = Verified(sub: Sent, subject: SubjectField)

  datatype Status = Live | Revoked | Unreadable

  /** Everything outside the walk. `prove` stands for resolving the accreditor, finding the key
      and checking the signature; without a status-list resolver every status is `Live`. */
  datatype World = World(
    lookup: Did -> Lookup,
    peek: string -> Option<string>,
    prove: (string, Did) -> Option<Verified>,
    status: string -> Status)

  datatype TrustError = NoTrustedAnchor | AccreditationInvalid | AccreditationRevoked | Cycle | RegistryError

  datatype Hop = Hop(subject: Did, accreditor: Did, accreditation: Accreditation)

  datatype Chain = Chain(subject: Did, anchor: Did, hops: seq<Hop>, scope: set<string>)

  function Elements<T>(s: seq<T>): set<T> {
    set x | x in s
  }

  // ----- one accreditation ---------------------------------------------------------------------

  predicate HasTrustRole(a: Accreditation) {
    a.issuerType == "RootTAO" || a.issuerType == "TAO" || a.issuerType == "TI"
  }

  predicate CanAccredit(a: Accreditation) {
    a.issuerType == "RootTAO" || a.issuerType == "TAO"
  }

  /** `accreditation_ineligibility` answers nothing. */
  predicate Eligible(a: Accreditation, leaf: bool) {
    && HasTrustRole(a)
    && (leaf || CanAccredit(a))
    && (if leaf then ATTEST else ACCREDIT) in a.accreditationTypes
    && a.credentialTypes != []
  }

  /** At the leaf an accreditation shares a type with the credential, above it covers the scope. */
  predicate Authorises(a: Accreditation, needed: set<string>, leaf: bool) {
    && Eligible(a, leaf)
    && (if leaf then Elements(a.credentialTypes) * needed != {} else needed <= Elements(a.credentialTypes))
  }

  function FirstAuthorising(accs: seq<Accreditation>, needed: set<string>, leaf: bool): (a: Option<Accreditation>)
    ensures a.Some? ==> a.value in accs && Authorises(a.value, needed, leaf)
    ensures a.None? ==> forall b | b in accs :: !Authorises(b, needed, leaf)
  {
    if accs == [] then None
    else if Authorises(accs[0], needed, leaf) then Some(accs[0])
    else FirstAuthorising(accs[1..], needed, leaf)
  }

  function PickAccreditation(record: Record, needed: set<string>, leaf: bool): Option<Accreditation> {
    if record.hasAttributes then FirstAuthorising(record.accreditations, needed, leaf) else None
  }

  function SentNames(v: Verified): seq<Option<string>> {
    (if v.sub.Sent? then [v.sub.value] else [])
    + (if v.subject.SubjectObject? && v.subject.id.Sent? then [v.subject.id.value] else [])
    + (if v.subject.SubjectObject? && v.subject.atId.Sent? then [v.subject.atId.value] else [])
  }

  /** `_check_subject_binding` raises nothing. */
  predicate BoundTo(v: Verified, subject: Did) {
    && !v.subject.NotAnObject?
    && SentNames(v) != []
    && forall name | name in SentNames(v) :: name == Some(subject)
  }

  /** `_verify_accreditation` raises nothing: issued and signed by the accreditor, for the subject. */
  predicate Genuine(w: World, a: Accreditation, subject: Did, accreditor: Did) {
    && a.token.Some? && a.token.value != ""
    && w.peek(a.token.value) == Some(accreditor)
    && w.prove(a.token.value, accreditor).Some?
    && BoundTo(w.prove(a.token.value, accreditor).value, subject)
  }

  /** One round of the walk: look up, pick, verify, check the status. */
  function Climb(w: World, current: Did, needed: set<string>, leaf: bool): Result<Hop, TrustError> {
    match w.lookup(current)
    case NotRegistered => Err(NoTrustedAnchor)
    case NotADid => Err(NoTrustedAnchor)
    case Broken => Err(RegistryError)
    case Found(record) =>
      var picked := PickAccreditation(record, needed, leaf);
      if picked == None then Err(NoTrustedAnchor)
      else
        var a := picked.value;
        if a.tao == None || a.tao.value == "" then Err(AccreditationInvalid)
        else if !Genuine(w, a, current, a.tao.value) then Err(AccreditationInvalid)
        else
          match w.status(a.token.value)
          case Unreadable => Err(AccreditationInvalid)
          case Revoked => Err(AccreditationRevoked)
          case Live => Ok(Hop(current, a.tao.value, a))
  }

  // ----- the walk --------------------------------------------------------------------------------

  /** The types the rest of the walk must cover. */
  function ScopeAfter(hop: Hop, needed: set<string>, leaf: bool): set<string> {
    if leaf then Elements(hop.accreditation.credentialTypes) * needed else needed
  }

  /** The remaining hops, or the error the walk stops with. */
  function Walk(w: World, current: Did, needed: set<string>, leaf: bool,
                anchors: set<Did>, seen: set<Did>, rounds: nat): Result<seq<Hop>, TrustError>
    decreases rounds
  {
    if rounds == 0 then Err(NoTrustedAnchor)
    else
      match Climb(w, current, needed, leaf)
      case Err(e) => Err(e)
      case Ok(hop) =>
        if hop.accreditor in anchors then Ok([hop])
        else if hop.accreditor in seen then Err(Cycle)
        else
          match Walk(w, hop.accreditor, ScopeAfter(hop, needed, leaf), false,
                     anchors, seen + {hop.accreditor}, rounds - 1)
          case Err(e) => Err(e)
          case Ok(more) => Ok([hop] + more)
  }

  function ChainOf(subject: Did, types: seq<string>, hops: seq<Hop>): Chain
    requires hops != []
  {
    Chain(subject, hops[|hops| - 1].accreditor, hops, ScopeAfter(hops[0], Elements(types), true))
  }

  /** What `verify_trust_chain` returns. */
  function TrustChain(w: World, subject: Did, types: seq<string>, anchors: set<Did>, maxDepth: nat)
    : Result<Chain, TrustError>
  {
    if subject in anchors then Ok(Chain(subject, subject, [], Elements(types)))
    else
      match Walk(w, subject, Elements(types), true, anchors, {subject}, maxDepth)
      case Err(e) => Err(e)
      case Ok(hops) => if hops == [] then Err(NoTrustedAnchor) else Ok(ChainOf(subject, types, hops))
  }

  lemma {:induction false} WalkIsNotEmpty(w: World, current: Did, needed: set<string>, leaf: bool,
                       anchors: set<Did>, seen: set<Did>, rounds: nat)
    ensures Walk(w, current, needed, leaf, anchors, seen, rounds).Ok?
      ==> Walk(w, current, needed, leaf, anchors, seen, rounds).value != []
  {
  }

  /** `hops` in front of what the rest of the walk returns. */
  function Onto(hops: seq<Hop>, rest: Result<seq<Hop>, TrustError>): Result<seq<Hop>, TrustError> {
    match rest
    case Ok(more) => Ok(hops + more)
    case Err(e) => Err(e)
  }

  /** The loop of `verify_trust_chain`. */
  method VerifyTrustChain(w: World, subject: Did, types: seq<string>, anchors: set<Did>, maxDepth: nat)
    returns (r: Result<Chain, TrustError>)
    ensures r == TrustChain(w, subject, types, anchors, maxDepth)
  {
    hide Climb, Walk;
    if subject in anchors {
      return Ok(Chain(subject, subject, [], Elements(types)));
    }
    var hops: seq<Hop> := [];
    var current, seen, scope: Option<set<string>> := subject, {subject}, None;
    ghost var whole := Walk(w, subject, Elements(types), true, anchors, {subject}, maxDepth);
    assert whole == Onto([], whole) by { OntoNothing(whole); }
    WalkIsNotEmpty(w, subject, Elements(types), true, anchors, {subject}, maxDepth);
    for round := 0 to maxDepth
      invariant scope.None? <==> hops == []
      invariant scope.Some? ==> scope.value == ScopeAfter(hops[0], Elements(types), true)
      invariant whole == Onto(hops, Walk(w, current, if scope.Some? then scope.value else Elements(types),
                                         scope.None?, anchors, seen, maxDepth - round))
    {
      var leaf := scope.None?;
      var needed := if leaf then Elements(types) else scope.value;
      UnfoldWalk(w, current, needed, leaf, anchors, seen, maxDepth - round);
      var climbed := Climb(w, current, needed, leaf);
      if climbed.Err? {
        return Err(climbed.error);
      }
      var hop := climbed.value;
      ghost var before := hops;
      if leaf {
        scope := Some(Elements(hop.accreditation.credentialTypes) * Elements(types));
      }
      hops := hops + [hop];
      if hop.accreditor in anchors {
        return Ok(Chain(subject, hop.accreditor, hops, scope.value));
      }
      if hop.accreditor in seen {
        return Err(Cycle);
      }
      OntoMore(before, hop, Walk(w, hop.accreditor, ScopeAfter(hop, needed, leaf), false,
                                 anchors, seen + {hop.accreditor}, maxDepth - round - 1));
      seen := seen + {hop.accreditor};
      current := hop.accreditor;
    }
    assert Walk(w, current, if scope.Some? then scope.value else Elements(types), scope.None?, anchors, seen, 0)
      == Err(NoTrustedAnchor) by { UnfoldWalk(w, current, if scope.Some? then scope.value else Elements(types),
                                              scope.None?, anchors, seen, 0); }
    return Err(NoTrustedAnchor);
  }

  lemma OntoNothing(rest: Result<seq<Hop>, TrustError>)
    ensures Onto([], rest) == rest
  {
    if rest.Ok? { assert [] + rest.value == rest.value; }
  }

  lemma OntoMore(hops: seq<Hop>, hop: Hop, rest: Result<seq<Hop>, TrustError>)
    ensures Onto(hops, Onto([hop], rest)) == Onto(hops + [hop], rest)
  {
    if rest.Ok? { ConcatAssoc(hops, [hop], rest.value); }
  }

  lemma UnfoldWalk(w: World, current: Did, needed: set<string>, leaf: bool,
                   anchors: set<Did>, seen: set<Did>, rounds: nat)
    ensures var walk := Walk(w, current, needed, leaf, anchors, seen, rounds);
      var climbed := Climb(w, current, needed, leaf);
      && (rounds == 0 ==> walk == Err(NoTrustedAnchor))
      && (rounds > 0 && climbed.Err? ==> walk == Err(climbed.error))
      && (rounds > 0 && climbed.Ok? ==>
            if climbed.value.accreditor in anchors then walk == Ok([climbed.value])
            else if climbed.value.accreditor in seen then walk == Err(Cycle)
            else walk == Onto([climbed.value],
              Walk(w, climbed.value.accreditor, ScopeAfter(climbed.value, needed, leaf), false,
                   anchors, seen + {climbed.value.accreditor}, rounds - 1)))
  {
  }

  // ----- one hop, written out -----------------------------------------------------------------------

  /** An accreditation that may stand at this place of a chain: at the leaf one of the three live
      roles, to attest, for at least one of the types; above it one of the two delegating roles, to
      accredit, for all of them and for something. */
  predicate Fits(a: Accreditation, needed: set<string>, leaf: bool) {
    if leaf then
      && a.issuerType in {"RootTAO", "TAO", "TI"}
      && "VerifiableAccreditationToAttest" in a.accreditationTypes
      && exists t | t in a.credentialTypes :: t in needed
    else
      && a.issuerType in {"RootTAO", "TAO"}
      && "VerifiableAccreditationToAccredit" in a.accreditationTypes
      && a.credentialTypes != []
      && forall t | t in needed :: t in a.credentialTypes
  }

  /** A token about `subject`: whichever of `sub`, `id` and `@id` are sent name exactly it, at least
      one is, and a sent subject is an object. */
  predicate NamesOnly(v: Verified, subject: Did) {
    && !v.subject.NotAnObject?
    && (v.sub.Sent? ==> v.sub.value == Some(subject))
    && (v.subject.SubjectObject? && v.subject.id.Sent? ==> v.subject.id.value == Some(subject))
    && (v.subject.SubjectObject? && v.subject.atId.Sent? ==> v.subject.atId.value == Some(subject))
    && (v.sub.Sent? || (v.subject.SubjectObject? && (v.subject.id.Sent? || v.subject.atId.Sent?)))
  }

  /** One hop: the record of the subject, the first accreditation in it that fits, naming the
      accreditor, issued and signed by the accreditor, about the subject, and live. */
  ghost predicate Accredits(w: World, hop: Hop, needed: set<string>, leaf: bool) {
    var a := hop.accreditation;
    && w.lookup(hop.subject).Found?
    && w.lookup(hop.subject).record.hasAttributes
    && IsFirstFitting(w.lookup(hop.subject).record.accreditations, a, needed, leaf)
    && a.tao == Some(hop.accreditor) && hop.accreditor != ""
    && a.token.Some? && a.token.value != ""
    && w.peek(a.token.value) == Some(hop.accreditor)
    && w.prove(a.token.value, hop.accreditor).Some?
    && NamesOnly(w.prove(a.token.value, hop.accreditor).value, hop.subject)
    && w.status(a.token.value) == Live
  }

  ghost predicate IsFirstFitting(accs: seq<Accreditation>, a: Accreditation, needed: set<string>, leaf: bool) {
    exists k | 0 <= k < |accs| ::
      accs[k] == a && Fits(a, needed, leaf) && forall j | 0 <= j < k :: !Fits(accs[j], needed, leaf)
  }

  lemma FitsExactly(a: Accreditation, needed: set<string>, leaf: bool)
    ensures Authorises(a, needed, leaf) <==> Fits(a, needed, leaf)
  {
    if leaf {
      if t :| t in a.credentialTypes && t in needed {
        assert t in Elements(a.credentialTypes) * needed;
      }
      if Elements(a.credentialTypes) * needed != {} {
        var t :| t in Elements(a.credentialTypes) * needed;
      }
    }
  }

  lemma BoundExactly(v: Verified, subject: Did)
    ensures BoundTo(v, subject) <==> NamesOnly(v, subject)
  {
    var names := SentNames(v);
    if v.sub.Sent? { assert v.sub.value in names; }
    if v.subject.SubjectObject? && v.subject.id.Sent? { assert v.subject.id.value in names; }
    if v.subject.SubjectObject? && v.subject.atId.Sent? { assert v.subject.atId.value in names; }
  }

  lemma {:induction false} FirstExactly(accs: seq<Accreditation>, needed: set<string>, leaf: bool, a: Accreditation)
    ensures FirstAuthorising(accs, needed, leaf) == Some(a) <==> IsFirstFitting(accs, a, needed, leaf)
    ensures FirstAuthorising(accs, needed, leaf) == None <==> forall b | b in accs :: !Fits(b, needed, leaf)
  {
    hide Authorises, Fits;
    if accs != [] {
      FitsExactly(accs[0], needed, leaf);
      FirstExactly(accs[1..], needed, leaf, a);
      assert accs == [accs[0]] + accs[1..];
      if Fits(accs[0], needed, leaf) {
        assert accs[0] == a ==> IsFirstFitting(accs, a, needed, leaf);
      } else {
        FirstOfTail(accs, needed, leaf, a);
      }
    }
  }

  lemma FirstOfTail(accs: seq<Accreditation>, needed: set<string>, leaf: bool, a: Accreditation)
    requires accs != [] && !Fits(accs[0], needed, leaf)
    ensures IsFirstFitting(accs, a, needed, leaf) <==> IsFirstFitting(accs[1..], a, needed, leaf)
  {
    hide Fits;
    var tail := accs[1..];
    assert forall j :: 0 <= j < |tail| ==> tail[j] == accs[j + 1];
    if k :| 0 <= k < |accs| && accs[k] == a && Fits(a, needed, leaf) && forall j | 0 <= j < k :: !Fits(accs[j], needed, leaf) {
      assert tail[k - 1] == a;
    }
    if k :| 0 <= k < |tail| && tail[k] == a && Fits(a, needed, leaf) && forall j | 0 <= j < k :: !Fits(tail[j], needed, leaf) {
      assert accs[k + 1] == a;
      forall j | 0 <= j < k + 1
        ensures !Fits(accs[j], needed, leaf)
      {
        if j > 0 { assert !Fits(tail[j - 1], needed, leaf); }
      }
    }
  }

  /** A round of the walk takes a hop exactly when it is one, written out; and otherwise which error it
      stops with. */
  lemma HopExactly(w: World, current: Did, needed: set<string>, leaf: bool, hop: Hop)
    ensures Climb(w, current, needed, leaf) == Ok(hop) <==> hop.subject == current && Accredits(w, hop, needed, leaf)
  {
    hide FirstAuthorising, IsFirstFitting, BoundTo, NamesOnly;
    if w.lookup(current).Found? {
      var accs := w.lookup(current).record.accreditations;
      FirstExactly(accs, needed, leaf, hop.accreditation);
      var a := hop.accreditation;
      if a.token.Some? && w.prove(a.token.value, hop.accreditor).Some? {
        BoundExactly(w.prove(a.token.value, hop.accreditor).value, current);
      }
    }
  }

  /** The errors of a round: an absent or unnamable subject and a record without a fitting
      accreditation end in NoTrustedAnchor, any other registry error is passed on, a genuine
      accreditation that is revoked in AccreditationRevoked, and whatever else is wrong with the first
      fitting one in AccreditationInvalid. */
  lemma HopErrors(w: World, current: Did, needed: set<string>, leaf: bool, a: Accreditation)
    ensures w.lookup(current).NotRegistered? || w.lookup(current).NotADid? ==>
      Climb(w, current, needed, leaf) == Err(NoTrustedAnchor)
    ensures w.lookup(current).Broken? ==> Climb(w, current, needed, leaf) == Err(RegistryError)
    ensures w.lookup(current).Found? ==>
      var record := w.lookup(current).record;
      && (!record.hasAttributes || (forall b | b in record.accreditations :: !Fits(b, needed, leaf)) ==>
            Climb(w, current, needed, leaf) == Err(NoTrustedAnchor))
      && (record.hasAttributes && IsFirstFitting(record.accreditations, a, needed, leaf) ==>
            var signed := && a.tao.Some? && a.tao.value != "" && a.token.Some? && a.token.value != ""
              && w.peek(a.token.value) == a.tao && w.prove(a.token.value, a.tao.value).Some?
              && NamesOnly(w.prove(a.token.value, a.tao.value).value, current);
            Climb(w, current, needed, leaf) ==
              if !signed || w.status(a.token.value).Unreadable? then Err(AccreditationInvalid)
              else if w.status(a.token.value).Revoked? then Err(AccreditationRevoked)
              else Ok(Hop(current, a.tao.value, a)))
  {
    hide FirstAuthorising, IsFirstFitting, BoundTo, NamesOnly, Fits;
    if w.lookup(current).Found? {
      FirstExactly(w.lookup(current).record.accreditations, needed, leaf, a);
      if a.tao.Some? && a.token.Some? && w.prove(a.token.value, a.tao.value).Some? {
        BoundExactly(w.prove(a.token.value, a.tao.value).value, current);
      }
    }
  }

  // ----- what a chain is -----------------------------------------------------------------------------

  function NeededAt(hops: seq<Hop>, needed: set<string>, leaf: bool, i: nat): set<string>
    requires i < |hops|
  {
    if i == 0 then needed else ScopeAfter(hops[0], needed, leaf)
  }

  /** Hops leading from `current` to the first anchor, none of them back to a DID in `seen` or to
      each other. */
  ghost predicate Path(w: World, current: Did, needed: set<string>, leaf: bool,
                       anchors: set<Did>, seen: set<Did>, hops: seq<Hop>)
  {
    && hops != []
    && hops[0].subject == current
    && hops[|hops| - 1].accreditor in anchors
    && (forall i :: 0 <= i < |hops| ==>
          Accredits(w, hops[i], NeededAt(hops, needed, leaf, i), leaf && i == 0))
    && Linked(hops, anchors, seen)
  }

  ghost predicate Linked(hops: seq<Hop>, anchors: set<Did>, seen: set<Did>) {
    && (forall i :: 0 < i < |hops| ==> hops[i].subject == hops[i - 1].accreditor)
    && (forall i :: 0 < i < |hops| ==> hops[i].subject !in anchors && hops[i].subject !in seen)
    && (forall i, j :: 0 < i < j < |hops| ==> hops[i].subject != hops[j].subject)
  }

  /** The tail of a path is a path above the leaf. */
  lemma PathTail(w: World, current: Did, needed: set<string>, leaf: bool,
                 anchors: set<Did>, seen: set<Did>, hop: Hop, more: seq<Hop>)
    requires Accredits(w, hop, needed, leaf) && hop.subject == current
    requires hop.accreditor !in anchors && hop.accreditor !in seen
    ensures Path(w, current, needed, leaf, anchors, seen, [hop] + more)
      <==> Path(w, hop.accreditor, ScopeAfter(hop, needed, leaf), false, anchors, seen + {hop.accreditor}, more)
  {
    var scope := ScopeAfter(hop, needed, leaf);
    if Path(w, current, needed, leaf, anchors, seen, [hop] + more) {
      PathShrinks(w, current, needed, leaf, anchors, seen, hop, more);
    }
    if Path(w, hop.accreditor, scope, false, anchors, seen + {hop.accreditor}, more) {
      PathGrows(w, current, needed, leaf, anchors, seen, hop, more);
    }
  }

  lemma PathShrinks(w: World, current: Did, needed: set<string>, leaf: bool,
                    anchors: set<Did>, seen: set<Did>, hop: Hop, more: seq<Hop>)
    requires hop.accreditor !in anchors && Path(w, current, needed, leaf, anchors, seen, [hop] + more)
    ensures Path(w, hop.accreditor, ScopeAfter(hop, needed, leaf), false, anchors, seen + {hop.accreditor}, more)
  {
    var hops := [hop] + more;
    var scope := ScopeAfter(hop, needed, leaf);
    assert NeededAt(more, scope, false, 0) == scope || more == [];
    hide Accredits;
    assert more != [];
    assert forall i :: 0 <= i < |more| ==> more[i] == hops[i + 1];
    assert forall i :: 0 <= i < |more| ==> NeededAt(more, scope, false, i) == NeededAt(hops, needed, leaf, i + 1);
    hide NeededAt, ScopeAfter;
    assert hops[1].subject == hop.accreditor;
    LinkedShrinks(hop, more, anchors, seen);
    hide Linked;
    forall i | 0 <= i < |more|
      ensures Accredits(w, more[i], NeededAt(more, scope, false, i), false)
    {
      assert Accredits(w, hops[i + 1], NeededAt(hops, needed, leaf, i + 1), leaf && i + 1 == 0);
    }
  }

  lemma LinkedShrinks(hop: Hop, more: seq<Hop>, anchors: set<Did>, seen: set<Did>)
    requires Linked([hop] + more, anchors, seen) && more != []
    ensures Linked(more, anchors, seen + {hop.accreditor})
  {
    var hops := [hop] + more;
    assert forall i :: 0 <= i < |more| ==> more[i] == hops[i + 1];
    assert hops[1].subject == hops[0].accreditor == hop.accreditor;
    forall i | 0 < i < |more|
      ensures more[i].subject == more[i - 1].accreditor && more[i].subject !in anchors
      ensures more[i].subject !in seen + {hop.accreditor}
    {
      assert hops[i + 1].subject == hops[i].accreditor && hops[1].subject != hops[i + 1].subject;
    }
    forall i, j | 0 < i < j < |more|
      ensures more[i].subject != more[j].subject
    {
      assert hops[i + 1].subject != hops[j + 1].subject;
    }
  }

  lemma LinkedGrows(hop: Hop, more: seq<Hop>, anchors: set<Did>, seen: set<Did>)
    requires Linked(more, anchors, seen + {hop.accreditor}) && more != []
    requires hop.accreditor !in anchors && hop.accreditor !in seen && more[0].subject == hop.accreditor
    ensures Linked([hop] + more, anchors, seen)
  {
    var hops := [hop] + more;
    assert forall i :: 0 < i < |hops| ==> hops[i] == more[i - 1];
    forall i | 0 < i < |hops|
      ensures hops[i].subject == hops[i - 1].accreditor && hops[i].subject !in anchors && hops[i].subject !in seen
    {
      if i > 1 {
        assert more[i - 1].subject == more[i - 2].accreditor && more[i - 1].subject !in seen + {hop.accreditor};
      }
    }
    forall i, j | 0 < i < j < |hops|
      ensures hops[i].subject != hops[j].subject
    {
      assert more[j - 1].subject !in seen + {hop.accreditor};
      if i > 1 { assert more[i - 1].subject != more[j - 1].subject; }
    }
  }

  lemma PathGrows(w: World, current: Did, needed: set<string>, leaf: bool,
                  anchors: set<Did>, seen: set<Did>, hop: Hop, more: seq<Hop>)
    requires Accredits(w, hop, needed, leaf) && hop.subject == current
    requires hop.accreditor !in anchors && hop.accreditor !in seen
    requires Path(w, hop.accreditor, ScopeAfter(hop, needed, leaf), false, anchors, seen + {hop.accreditor}, more)
    ensures Path(w, current, needed, leaf, anchors, seen, [hop] + more)
  {
    var hops := [hop] + more;
    var scope := ScopeAfter(hop, needed, leaf);
    hide Accredits;
    assert forall i :: 0 < i < |hops| ==> hops[i] == more[i - 1];
    assert forall i :: 0 < i < |hops| ==> NeededAt(hops, needed, leaf, i) == NeededAt(more, scope, false, i - 1);
    assert NeededAt(hops, needed, leaf, 0) == needed;
    hide NeededAt, ScopeAfter;
    forall i | 0 <= i < |hops|
      ensures Accredits(w, hops[i], NeededAt(hops, needed, leaf, i), leaf && i == 0)
    {
      if i > 0 {
        assert Accredits(w, more[i - 1], NeededAt(more, scope, false, i - 1), false && i - 1 == 0);
      }
    }
    LinkedGrows(hop, more, anchors, seen);
  }

  lemma {:induction false} WalkExactly(w: World, current: Did, needed: set<string>, leaf: bool,
                    anchors: set<Did>, seen: set<Did>, rounds: nat, hops: seq<Hop>)
    ensures Walk(w, current, needed, leaf, anchors, seen, rounds) == Ok(hops)
      <==> |hops| <= rounds && Path(w, current, needed, leaf, anchors, seen, hops)
    decreases rounds
  {
    hide Climb, Walk, ScopeAfter, Accredits;
    UnfoldWalk(w, current, needed, leaf, anchors, seen, rounds);
    var climbed := Climb(w, current, needed, leaf);
    if rounds > 0 && climbed.Ok? {
      var hop := climbed.value;
      HopExactly(w, current, needed, leaf, hop);
      if hop.accreditor in anchors {
        PathOfOne(w, current, needed, leaf, anchors, seen, hop, hops);
      } else if hop.accreditor in seen {
        PathBlocked(w, current, needed, leaf, anchors, seen, hop, hops);
      } else {
        var tail := if hops == [] then [] else hops[1..];
        PathTail(w, current, needed, leaf, anchors, seen, hop, tail);
        WalkExactly(w, hop.accreditor, ScopeAfter(hop, needed, leaf), false, anchors,
                    seen + {hop.accreditor}, rounds - 1, tail);
        PathStarts(w, current, needed, leaf, anchors, seen, hops);
        hide Path;
        var rest := Walk(w, hop.accreditor, ScopeAfter(hop, needed, leaf), false, anchors,
                         seen + {hop.accreditor}, rounds - 1);
        assert hops != [] && hops[0] == hop ==> hops == [hop] + tail;
        if rest.Ok? && [hop] + rest.value == hops {
          assert hops[1..] == rest.value;
        }
      }
    } else {
      PathStarts(w, current, needed, leaf, anchors, seen, hops);
    }
  }

  lemma PathStarts(w: World, current: Did, needed: set<string>, leaf: bool,
                   anchors: set<Did>, seen: set<Did>, hops: seq<Hop>)
    ensures Path(w, current, needed, leaf, anchors, seen, hops) ==>
      hops != [] && Climb(w, current, needed, leaf) == Ok(hops[0])
  {
    hide Accredits, Climb;
    if Path(w, current, needed, leaf, anchors, seen, hops) {
      assert Accredits(w, hops[0], NeededAt(hops, needed, leaf, 0), leaf && 0 == 0);
      HopExactly(w, current, needed, leaf, hops[0]);
    }
  }

  lemma PathSecond(w: World, current: Did, needed: set<string>, leaf: bool,
                   anchors: set<Did>, seen: set<Did>, hops: seq<Hop>)
    requires Path(w, current, needed, leaf, anchors, seen, hops)
    ensures |hops| == 1 || hops[0].accreditor !in anchors
  {
    hide Accredits;
    if |hops| > 1 { assert hops[1].subject == hops[0].accreditor; }
  }

  lemma PathOfOne(w: World, current: Did, needed: set<string>, leaf: bool,
                  anchors: set<Did>, seen: set<Did>, hop: Hop, hops: seq<Hop>)
    requires Climb(w, current, needed, leaf) == Ok(hop) && hop.subject == current && hop.accreditor in anchors
    ensures Path(w, current, needed, leaf, anchors, seen, hops) <==> hops == [hop]
  {
    HopExactly(w, current, needed, leaf, hop);
    hide Climb, Accredits;
    if Path(w, current, needed, leaf, anchors, seen, hops) {
      assert Accredits(w, hops[0], NeededAt(hops, needed, leaf, 0), leaf && 0 == 0);
      HopExactly(w, current, needed, leaf, hops[0]);
      PathSecond(w, current, needed, leaf, anchors, seen, hops);
    }
  }

  lemma PathBlocked(w: World, current: Did, needed: set<string>, leaf: bool,
                    anchors: set<Did>, seen: set<Did>, hop: Hop, hops: seq<Hop>)
    requires Climb(w, current, needed, leaf) == Ok(hop)
    requires hop.accreditor !in anchors && hop.accreditor in seen
    ensures !Path(w, current, needed, leaf, anchors, seen, hops)
  {
    hide Climb, Accredits;
    PathStarts(w, current, needed, leaf, anchors, seen, hops);
    if |hops| > 1 { assert hops[1].subject == hops[0].accreditor || !Path(w, current, needed, leaf, anchors, seen, hops); }
  }

  /** A trust chain, by what it is rather than by how it is found. */
  ghost predicate IsChain(w: World, subject: Did, types: seq<string>, anchors: set<Did>, maxDepth: nat, chain: Chain) {
    if subject in anchors then chain == Chain(subject, subject, [], Elements(types))
    else
      && Path(w, subject, Elements(types), true, anchors, {subject}, chain.hops)
      && |chain.hops| <= maxDepth
      && chain == ChainOf(subject, types, chain.hops)
  }

  /** The walk succeeds exactly with the chains there are, of which there is at most one. */
  lemma TrustChainExactly(w: World, subject: Did, types: seq<string>, anchors: set<Did>, maxDepth: nat, chain: Chain)
    ensures TrustChain(w, subject, types, anchors, maxDepth) == Ok(chain)
      <==> IsChain(w, subject, types, anchors, maxDepth, chain)
  {
    WalkExactly(w, subject, Elements(types), true, anchors, {subject}, maxDepth, chain.hops);
    WalkIsNotEmpty(w, subject, Elements(types), true, anchors, {subject}, maxDepth);
    PathStarts(w, subject, Elements(types), true, anchors, {subject}, chain.hops);
  }

  // ----- where the walk stops ----------------------------------------------------------------------------

  /** Hops taken so far: linked from the subject, no anchor met and nobody met twice. */
  ghost predicate Approach(w: World, subject: Did, types: seq<string>, anchors: set<Did>, hops: seq<Hop>) {
    && (forall i :: 0 <= i < |hops| ==> hops[i].subject == EndOf(subject, hops[..i]))
    && (forall i :: 0 <= i < |hops| ==> Accredits(w, hops[i], NeededAt(hops, Elements(types), true, i), i == 0))
    && (forall i :: 0 <= i < |hops| ==> hops[i].accreditor !in anchors && hops[i].accreditor !in Met(subject, hops[..i]))
  }

  function EndOf(subject: Did, hops: seq<Hop>): Did {
    if hops == [] then subject else hops[|hops| - 1].accreditor
  }

  function Met(subject: Did, hops: seq<Hop>): set<Did> {
    {subject} + set hop | hop in hops :: hop.accreditor
  }

  function NeededNext(types: seq<string>, hops: seq<Hop>): set<string> {
    if hops == [] then Elements(types) else ScopeAfter(hops[0], Elements(types), true)
  }

  /** What stops the walk after these hops: the depth, an error of the next round, or a next
      accreditor that was met before. */
  ghost predicate StopsWith(w: World, subject: Did, types: seq<string>, anchors: set<Did>, maxDepth: nat, hops: seq<Hop>, e: TrustError) {
    if |hops| == maxDepth then e == NoTrustedAnchor
    else
      || Climb(w, EndOf(subject, hops), NeededNext(types, hops), hops == []) == Err(e)
      || (e == Cycle && exists hop: Hop :: ComesBack(w, subject, types, anchors, hops, hop))
  }

  /** The next hop leads to an accreditor met before. */
  ghost predicate ComesBack(w: World, subject: Did, types: seq<string>, anchors: set<Did>, hops: seq<Hop>, hop: Hop) {
    && hop.subject == EndOf(subject, hops) && Accredits(w, hop, NeededNext(types, hops), hops == [])
    && hop.accreditor !in anchors && hop.accreditor in Met(subject, hops)
  }

  lemma MetNext(subject: Did, hops: seq<Hop>, hop: Hop)
    ensures Met(subject, hops + [hop]) == Met(subject, hops) + {hop.accreditor}
  {
    assert forall h :: h in hops + [hop] <==> h in hops || h == hop;
    assert hop in hops + [hop];
  }

  lemma ApproachFront(w: World, subject: Did, types: seq<string>, anchors: set<Did>, front: seq<Hop>, hop: Hop)
    ensures Approach(w, subject, types, anchors, front + [hop]) <==>
      && Approach(w, subject, types, anchors, front)
      && hop.subject == EndOf(subject, front) && Accredits(w, hop, NeededNext(types, front), front == [])
      && hop.accreditor !in anchors && hop.accreditor !in Met(subject, front)
  {
    hide Accredits, Met, ScopeAfter, Elements;
    var hops := front + [hop];
    assert forall i :: 0 <= i <= |front| ==> hops[..i] == front[..i];
    assert hops[..|front|] == front && front[..|front|] == front;
    assert forall i :: 0 <= i < |front| ==> hops[i] == front[i];
    assert forall i :: 0 <= i < |front| ==> NeededAt(hops, Elements(types), true, i) == NeededAt(front, Elements(types), true, i);
    assert NeededAt(hops, Elements(types), true, |front|) == NeededNext(types, front);
    assert hops[|front|] == hop;
    hide EndOf, NeededAt, NeededNext;
  }

  /** After an approach the walk goes on from its end. */
  lemma {:induction false} WalkAfter(w: World, subject: Did, types: seq<string>, anchors: set<Did>, maxDepth: nat, hops: seq<Hop>)
    requires Approach(w, subject, types, anchors, hops) && |hops| <= maxDepth
    ensures Walk(w, subject, Elements(types), true, anchors, {subject}, maxDepth) ==
      Onto(hops, Walk(w, EndOf(subject, hops), NeededNext(types, hops), hops == [], anchors, Met(subject, hops), maxDepth - |hops|))
    decreases |hops|
  {
    hide *;
    if hops == [] {
      WalkBegins(w, subject, types, anchors, maxDepth);
    } else {
      var front, hop := hops[..|hops| - 1], hops[|hops| - 1];
      assert hops == front + [hop];
      ApproachFront(w, subject, types, anchors, front, hop);
      WalkAfter(w, subject, types, anchors, maxDepth, front);
      WalkTakes(w, subject, types, anchors, maxDepth, front, hop);
    }
  }

  lemma WalkBegins(w: World, subject: Did, types: seq<string>, anchors: set<Did>, maxDepth: nat)
    ensures Walk(w, subject, Elements(types), true, anchors, {subject}, maxDepth) ==
      Onto([], Walk(w, EndOf(subject, []), NeededNext(types, []), true, anchors, Met(subject, []), maxDepth))
  {
    OntoNothing(Walk(w, subject, Elements(types), true, anchors, {subject}, maxDepth));
    assert Met(subject, []) == {subject};
  }

  /** One hop more. */
  lemma WalkTakes(w: World, subject: Did, types: seq<string>, anchors: set<Did>, maxDepth: nat, front: seq<Hop>, hop: Hop)
    requires |front| < maxDepth && hop.subject == EndOf(subject, front)
    requires Accredits(w, hop, NeededNext(types, front), front == [])
    requires hop.accreditor !in anchors && hop.accreditor !in Met(subject, front)
    ensures var hops := front + [hop];
      Onto(front, Walk(w, EndOf(subject, front), NeededNext(types, front), front == [], anchors, Met(subject, front), maxDepth - |front|))
      == Onto(hops, Walk(w, EndOf(subject, hops), NeededNext(types, hops), false, anchors, Met(subject, hops), maxDepth - |hops|))
  {
    hide Walk, Climb, Accredits, Met, NeededNext, ScopeAfter;
    HopExactly(w, EndOf(subject, front), NeededNext(types, front), front == [], hop);
    UnfoldWalk(w, EndOf(subject, front), NeededNext(types, front), front == [], anchors, Met(subject, front), maxDepth - |front|);
    MetNext(subject, front, hop);
    NeededStays(types, front, hop);
    var hops := front + [hop];
    assert EndOf(subject, hops) == hop.accreditor;
    hide Onto;
    OntoMore(front, hop, Walk(w, hop.accreditor, NeededNext(types, hops), false, anchors, Met(subject, hops), maxDepth - |hops|));
  }

  lemma NeededStays(types: seq<string>, front: seq<Hop>, hop: Hop)
    ensures NeededNext(types, front + [hop]) == ScopeAfter(hop, NeededNext(types, front), front == [])
  {
  }

  lemma {:induction false} StopFrom(w: World, subject: Did, types: seq<string>, anchors: set<Did>, maxDepth: nat, hops: seq<Hop>, e: TrustError)
    returns (end: seq<Hop>)
    requires Approach(w, subject, types, anchors, hops) && |hops| <= maxDepth
    requires Walk(w, subject, Elements(types), true, anchors, {subject}, maxDepth) == Err(e)
    ensures Approach(w, subject, types, anchors, end) && |end| <= maxDepth && StopsWith(w, subject, types, anchors, maxDepth, end, e)
    decreases maxDepth - |hops|
  {
    WalkAfter(w, subject, types, anchors, maxDepth, hops);
    UnfoldWalk(w, EndOf(subject, hops), NeededNext(types, hops), hops == [], anchors, Met(subject, hops), maxDepth - |hops|);
    var climbed := Climb(w, EndOf(subject, hops), NeededNext(types, hops), hops == []);
    if |hops| < maxDepth && climbed.Ok? {
      HopExactly(w, EndOf(subject, hops), NeededNext(types, hops), hops == [], climbed.value);
    }
    hide Walk, Climb, Accredits, Approach, Met, NeededNext, EndOf;
    if |hops| < maxDepth && climbed.Ok? && climbed.value.accreditor !in anchors && climbed.value.accreditor !in Met(subject, hops) {
      ApproachFront(w, subject, types, anchors, hops, climbed.value);
      end := StopFrom(w, subject, types, anchors, maxDepth, hops + [climbed.value], e);
    } else {
      end := hops;
      if |hops| < maxDepth && climbed.Ok? { assert ComesBack(w, subject, types, anchors, hops, climbed.value); }
    }
  }

  /** Which error a walk ends with, exactly: it stopped after some hops, at the depth with
      NoTrustedAnchor, at a round that fails with that round's error (`HopErrors` lists them), or at an
      accreditor it had met before with the cycle error. */
  lemma StopsExactly(w: World, subject: Did, types: seq<string>, anchors: set<Did>, maxDepth: nat, e: TrustError)
    ensures TrustChain(w, subject, types, anchors, maxDepth) == Err(e) <==>
      subject !in anchors && exists hops ::
        Approach(w, subject, types, anchors, hops) && |hops| <= maxDepth && StopsWith(w, subject, types, anchors, maxDepth, hops, e)
  {
    WalkIsNotEmpty(w, subject, Elements(types), true, anchors, {subject}, maxDepth);
    var walk := Walk(w, subject, Elements(types), true, anchors, {subject}, maxDepth);
    assert subject !in anchors ==> (TrustChain(w, subject, types, anchors, maxDepth) == Err(e) <==> walk == Err(e));
    hide TrustChain, Walk, StopsWith;
    if walk == Err(e) {
      assert Approach(w, subject, types, anchors, []);
      var hops := StopFrom(w, subject, types, anchors, maxDepth, [], e);
    }
    if hops :| Approach(w, subject, types, anchors, hops) && |hops| <= maxDepth && StopsWith(w, subject, types, anchors, maxDepth, hops, e) {
      StopIsEnd(w, subject, types, anchors, maxDepth, hops, e);
    }
  }

  lemma StopIsEnd(w: World, subject: Did, types: seq<string>, anchors: set<Did>, maxDepth: nat, hops: seq<Hop>, e: TrustError)
    requires Approach(w, subject, types, anchors, hops) && |hops| <= maxDepth && StopsWith(w, subject, types, anchors, maxDepth, hops, e)
    ensures Walk(w, subject, Elements(types), true, anchors, {subject}, maxDepth) == Err(e)
  {
    WalkAfter(w, subject, types, anchors, maxDepth, hops);
    UnfoldWalk(w, EndOf(subject, hops), NeededNext(types, hops), hops == [], anchors, Met(subject, hops), maxDepth - |hops|);
    hide Walk, Climb, Accredits, Approach, Met, NeededNext, EndOf;
    if hop: Hop :| ComesBack(w, subject, types, anchors, hops, hop) {
      HopExactly(w, EndOf(subject, hops), NeededNext(types, hops), hops == [], hop);
    }
  }

  // ----- what a chain guarantees --------------------------------------------------------------------------

  /** Every chain returned is linked from the subject, visits distinct subjects, has at most
      `maxDepth` hops, ends at the first accreditor that is an anchor, and hop by hop is the first
      fitting accreditation of the subject's record, live, and issued and signed by the accreditor for
      exactly that subject. */
  lemma ChainIsSound(w: World, subject: Did, types: seq<string>, anchors: set<Did>, maxDepth: nat)
    requires TrustChain(w, subject, types, anchors, maxDepth).Ok?
    ensures var chain := TrustChain(w, subject, types, anchors, maxDepth).value; var hops := chain.hops;
      && chain.subject == subject && chain.anchor in anchors && |hops| <= maxDepth
      && (hops == [] <==> subject in anchors)
      && (forall i :: 0 <= i < |hops| ==>
            hops[i].subject == if i == 0 then subject else hops[i - 1].accreditor)
      && (hops != [] ==> hops[|hops| - 1].accreditor == chain.anchor)
      && (forall i :: 0 <= i < |hops| ==> hops[i].subject !in anchors)
      && (forall i, j :: 0 <= i < j < |hops| ==> hops[i].subject != hops[j].subject)
      && (forall i :: 0 <= i < |hops| ==>
            Accredits(w, hops[i], if i == 0 then Elements(types) else chain.scope, i == 0))
  {
    var chain := TrustChain(w, subject, types, anchors, maxDepth).value;
    TrustChainExactly(w, subject, types, anchors, maxDepth, chain);
    if subject !in anchors {
      PathRests(w, subject, Elements(types), anchors, {subject}, chain.hops);
      hide *;
      PathIsLinked(w, subject, Elements(types), anchors, {subject}, chain.hops);
      ChainFields(w, subject, types, anchors, maxDepth, chain);
    }
  }

  lemma ChainFields(w: World, subject: Did, types: seq<string>, anchors: set<Did>, maxDepth: nat, chain: Chain)
    requires IsChain(w, subject, types, anchors, maxDepth, chain) && subject !in anchors
    ensures chain.hops != [] && |chain.hops| <= maxDepth && chain == ChainOf(subject, types, chain.hops)
    ensures chain.subject == subject && chain.anchor == chain.hops[|chain.hops| - 1].accreditor
    ensures chain.scope == ScopeAfter(chain.hops[0], Elements(types), true)
    ensures Path(w, subject, Elements(types), true, anchors, {subject}, chain.hops)
  {
  }

  lemma PathRests(w: World, subject: Did, needed: set<string>, anchors: set<Did>, seen: set<Did>, hops: seq<Hop>)
    requires Path(w, subject, needed, true, anchors, seen, hops)
    ensures forall i :: 0 <= i < |hops| ==>
      Accredits(w, hops[i], if i == 0 then needed else ScopeAfter(hops[0], needed, true), i == 0)
  {
    hide Accredits, Linked, ScopeAfter;
    forall i | 0 <= i < |hops|
      ensures Accredits(w, hops[i], if i == 0 then needed else ScopeAfter(hops[0], needed, true), i == 0)
    {
      assert Accredits(w, hops[i], NeededAt(hops, needed, true, i), true && i == 0);
    }
  }

  lemma PathIsLinked(w: World, subject: Did, needed: set<string>, anchors: set<Did>, seen: set<Did>, hops: seq<Hop>)
    requires Path(w, subject, needed, true, anchors, seen, hops)
    requires subject !in anchors && subject in seen
    ensures hops != [] && hops[|hops| - 1].accreditor in anchors
    ensures forall i :: 0 <= i < |hops| ==> hops[i].subject == if i == 0 then subject else hops[i - 1].accreditor
    ensures forall i :: 0 <= i < |hops| ==> hops[i].subject !in anchors
    ensures forall i, j :: 0 <= i < j < |hops| ==> hops[i].subject != hops[j].subject
  {
  }

  /** The scope a chain vouches for is not empty when anyone vouched, lies inside the credential's
      types and the leaf accreditation's, and is covered by every accreditor above the leaf. */
  lemma ScopeIsDelegated(w: World, subject: Did, types: seq<string>, anchors: set<Did>, maxDepth: nat)
    requires TrustChain(w, subject, types, anchors, maxDepth).Ok?
    ensures var chain := TrustChain(w, subject, types, anchors, maxDepth).value; var hops := chain.hops;
      && chain.scope <= Elements(types)
      && (hops != [] ==> chain.scope != {})
      && (hops == [] ==> chain.scope == Elements(types))
      && (forall t :: hops != [] ==> (t in chain.scope <==> t in types && t in hops[0].accreditation.credentialTypes))
      && (forall i :: 0 <= i < |hops| ==> chain.scope <= Elements(hops[i].accreditation.credentialTypes))
  {
    ChainIsSound(w, subject, types, anchors, maxDepth);
    var chain := TrustChain(w, subject, types, anchors, maxDepth).value;
    TrustChainExactly(w, subject, types, anchors, maxDepth, chain);
    hide TrustChain, Climb, NamesOnly;
    if chain.hops != [] {
      assert Accredits(w, chain.hops[0], Elements(types), true);
      assert chain.scope == Elements(chain.hops[0].accreditation.credentialTypes) * Elements(types);
      forall i | 0 <= i < |chain.hops|
        ensures chain.scope <= Elements(chain.hops[i].accreditation.credentialTypes)
      {
        if i > 0 { assert Accredits(w, chain.hops[i], chain.scope, false); }
      }
    }
  }

  /** A larger depth limit never changes a chain that was found. */
  lemma DeeperLimitSameChain(w: World, subject: Did, types: seq<string>, anchors: set<Did>, maxDepth: nat, more: nat)
    requires maxDepth <= more && TrustChain(w, subject, types, anchors, maxDepth).Ok?
    ensures TrustChain(w, subject, types, anchors, more) == TrustChain(w, subject, types, anchors, maxDepth)
  {
    hide TrustChain, Path, ChainOf, Elements;
    var chain := TrustChain(w, subject, types, anchors, maxDepth).value;
    TrustChainExactly(w, subject, types, anchors, maxDepth, chain);
    TrustChainExactly(w, subject, types, anchors, more, chain);
  }

  /** How far a path goes before it meets an anchor of a larger set. */
  function UntilAnchor(hops: seq<Hop>, anchors: set<Did>): (k: nat)
    requires hops != [] && hops[|hops| - 1].accreditor in anchors
    ensures 1 <= k <= |hops| && hops[k - 1].accreditor in anchors
    ensures forall i :: 0 <= i < k - 1 ==> hops[i].accreditor !in anchors
  {
    if hops[0].accreditor in anchors then 1 else 1 + UntilAnchor(hops[1..], anchors)
  }

  lemma LinkedCut(hops: seq<Hop>, k: nat, anchors: set<Did>, more: set<Did>, seen: set<Did>)
    requires k <= |hops| && Linked(hops, anchors, seen)
    requires forall i :: 0 <= i < k - 1 ==> hops[i].accreditor !in more
    ensures Linked(hops[..k], more, seen)
  {
    var cut := hops[..k];
    forall i | 0 < i < k
      ensures cut[i].subject == cut[i - 1].accreditor && cut[i].subject !in more && cut[i].subject !in seen
    {
      assert hops[i].subject == hops[i - 1].accreditor;
    }
  }

  /** With more anchors the walk still succeeds, on a prefix of the same hops; while the subject
      itself is not an anchor, with the same scope. */
  lemma MoreAnchorsShorterChain(w: World, subject: Did, types: seq<string>, anchors: set<Did>, more: set<Did>, maxDepth: nat)
    requires anchors <= more && TrustChain(w, subject, types, anchors, maxDepth).Ok?
    ensures TrustChain(w, subject, types, more, maxDepth).Ok?
    ensures TrustChain(w, subject, types, more, maxDepth).value.hops
         <= TrustChain(w, subject, types, anchors, maxDepth).value.hops
    ensures subject !in more ==>
      TrustChain(w, subject, types, more, maxDepth).value.scope
      == TrustChain(w, subject, types, anchors, maxDepth).value.scope
  {
    var chain := TrustChain(w, subject, types, anchors, maxDepth).value;
    TrustChainExactly(w, subject, types, anchors, maxDepth, chain);
    if subject !in more {
      hide TrustChain, Accredits, Elements, ScopeAfter;
      var hops := chain.hops;
      var k := UntilAnchor(hops, more);
      var cut := hops[..k];
      var needed := Elements(types);
      forall i | 0 <= i < k
        ensures Accredits(w, cut[i], NeededAt(cut, needed, true, i), i == 0)
      {
        assert Accredits(w, hops[i], NeededAt(hops, needed, true, i), true && i == 0);
      }
      LinkedCut(hops, k, anchors, more, {subject});
      hide Linked;
      assert Path(w, subject, needed, true, more, {subject}, cut);
      TrustChainExactly(w, subject, types, more, maxDepth, ChainOf(subject, types, cut));
    }
  }
}
