/**
 The `extends` chain stated as a whole: which documents a resolution climbs through,
 and how it ends. Every outcome, error or chain, has exactly one such climb.
 */
module ExtendsRules {
  import opened Prelude
  import opened TypeMetadata

  /** The type and the integrity hash asked for after the first i documents. */
  function AskedAt(vct: string, integrity: Option<string>, documents: seq<Document>, i: nat): (string, Option<string>)
    requires i <= |documents|
  {
    if i > 0 && documents[i - 1].parent.ExtendsType? then
      (documents[i - 1].parent.vct, documents[i - 1].parent.integrity)
    else (vct, integrity)
  }

  /** Documents fetched one after the other, each extending the type asked for next, no type asked
      for twice, and no more of them than allowed. */
  ghost predicate Climbs(fetch: Fetch, vct: string, integrity: Option<string>, maxDepth: nat, seen: seq<string>,
                         documents: seq<Document>)
  {
    && |seen| + |documents| <= Max(maxDepth, |seen|)
    && forall i | 0 <= i < |documents| ::
         && fetch(AskedAt(vct, integrity, documents, i).0, AskedAt(vct, integrity, documents, i).1) == Some(documents[i])
         && NotAsked(vct, integrity, seen, documents, i) && documents[i].parent.ExtendsType?
  }

  /** The i-th type is none of those asked for before. */
  ghost predicate NotAsked(vct: string, integrity: Option<string>, seen: seq<string>, documents: seq<Document>, i: nat)
    requires i <= |documents|
  {
    var name := AskedAt(vct, integrity, documents, i).0;
    name !in seen && forall j | 0 <= j < i :: AskedAt(vct, integrity, documents, j).0 != name
  }

  /** What ends the climb: too many documents, a type asked for before, a fetch that fails, an `extends`
      that is no string, or a document that extends nothing. */
  ghost predicate Ends(fetch: Fetch, vct: string, integrity: Option<string>, maxDepth: nat, seen: seq<string>,
                       documents: seq<Document>, outcome: Result<seq<Document>, MetadataError>)
  {
    var (name, hash) := AskedAt(vct, integrity, documents, |documents|);
    if |seen| + |documents| >= maxDepth then outcome == Err(TooLong)
    else if !NotAsked(vct, integrity, seen, documents, |documents|) then outcome == Err(ExtendsCycle)
    else
      match fetch(name, hash)
      case None => outcome == Err(Unresolved)
      case Some(document) =>
        (document.parent.NoExtends? && outcome == Ok(documents + [document]))
        || (document.parent.BadExtends? && outcome == Err(NotAString))
  }

  function DocumentsOf(r: Result<(seq<Document>, seq<Claim>), MetadataError>): Result<seq<Document>, MetadataError> {
    match r
    case Ok((documents, _)) => Ok(documents)
    case Err(e) => Err(e)
  }

  /** The outcome with one more document in front of a chain. */
  function Onto(document: Document, outcome: Result<seq<Document>, MetadataError>): Result<seq<Document>, MetadataError> {
    match outcome
    case Ok(documents) => Ok([document] + documents)
    case Err(e) => Err(e)
  }

  lemma AskedNext(vct: string, integrity: Option<string>, document: Document, more: seq<Document>, i: nat)
    requires document.parent.ExtendsType? && i <= |more|
    requires forall d | d in more :: d.parent.ExtendsType?
    ensures AskedAt(vct, integrity, [document] + more, i + 1)
         == AskedAt(document.parent.vct, document.parent.integrity, more, i)
  {
    var all := [document] + more;
    assert all[i] == if i == 0 then document else more[i - 1];
    if i > 0 { assert more[i - 1] in more; }
  }

  lemma AskedSince(vct: string, integrity: Option<string>, seen: seq<string>, document: Document, more: seq<Document>, i: nat)
    requires document.parent.ExtendsType? && i <= |more|
    requires forall d | d in more :: d.parent.ExtendsType?
    ensures NotAsked(vct, integrity, seen, [document] + more, i + 1)
       <==> NotAsked(document.parent.vct, document.parent.integrity, seen + [vct], more, i)
  {
    var all, up, hash := [document] + more, document.parent.vct, document.parent.integrity;
    forall j | 0 <= j <= i
      ensures AskedAt(vct, integrity, all, j + 1) == AskedAt(up, hash, more, j)
    {
      AskedNext(vct, integrity, document, more, j);
    }
    assert AskedAt(vct, integrity, all, 0).0 == vct;
    hide AskedAt;
    var name := AskedAt(vct, integrity, all, i + 1).0;
    if NotAsked(up, hash, seen + [vct], more, i) {
      forall j | 0 <= j < i + 1
        ensures AskedAt(vct, integrity, all, j).0 != name
      {
        if j > 0 { assert AskedAt(vct, integrity, all, j) == AskedAt(up, hash, more, j - 1); }
      }
    }
  }

  /** A climb whose first document extends another type is that document and the climb from there. */
  lemma ClimbsNext(fetch: Fetch, vct: string, integrity: Option<string>, maxDepth: nat, seen: seq<string>,
                   document: Document, more: seq<Document>)
    requires fetch(vct, integrity) == Some(document) && document.parent.ExtendsType?
    requires vct !in seen && |seen| < maxDepth
    ensures Climbs(fetch, vct, integrity, maxDepth, seen, [document] + more)
       <==> Climbs(fetch, document.parent.vct, document.parent.integrity, maxDepth, seen + [vct], more)
  {
    var all, up, hash := [document] + more, document.parent.vct, document.parent.integrity;
    assert forall i | 0 <= i < |more| :: all[i + 1] == more[i];
    if Climbs(fetch, vct, integrity, maxDepth, seen, all) || Climbs(fetch, up, hash, maxDepth, seen + [vct], more) {
      forall d | d in more
        ensures d.parent.ExtendsType?
      {
        var i :| 0 <= i < |more| && d == more[i];
        assert all[i + 1].parent.ExtendsType?;
      }
      forall i | 0 <= i < |more|
        ensures AskedAt(vct, integrity, all, i + 1) == AskedAt(up, hash, more, i)
        ensures NotAsked(vct, integrity, seen, all, i + 1) <==> NotAsked(up, hash, seen + [vct], more, i)
      {
        AskedNext(vct, integrity, document, more, i);
        AskedSince(vct, integrity, seen, document, more, i);
      }
      assert NotAsked(vct, integrity, seen, all, 0);
      hide AskedAt, NotAsked;
      FirstAsked(vct, integrity, all);
      Shifted(fetch, vct, integrity, maxDepth, seen, document, more);
    }
  }

  lemma FirstAsked(vct: string, integrity: Option<string>, documents: seq<Document>)
    ensures AskedAt(vct, integrity, documents, 0) == (vct, integrity)
  {
  }

  lemma Shifted(fetch: Fetch, vct: string, integrity: Option<string>, maxDepth: nat, seen: seq<string>,
                document: Document, more: seq<Document>)
    requires fetch(vct, integrity) == Some(document) && document.parent.ExtendsType? && |seen| < maxDepth
    requires NotAsked(vct, integrity, seen, [document] + more, 0)
    requires AskedAt(vct, integrity, [document] + more, 0) == (vct, integrity)
    requires forall i | 0 <= i < |more| ::
      && AskedAt(vct, integrity, [document] + more, i + 1) == AskedAt(document.parent.vct, document.parent.integrity, more, i)
      && (NotAsked(vct, integrity, seen, [document] + more, i + 1)
          <==> NotAsked(document.parent.vct, document.parent.integrity, seen + [vct], more, i))
    ensures Climbs(fetch, vct, integrity, maxDepth, seen, [document] + more)
       <==> Climbs(fetch, document.parent.vct, document.parent.integrity, maxDepth, seen + [vct], more)
  {
    hide AskedAt, NotAsked;
    var all, up, hash := [document] + more, document.parent.vct, document.parent.integrity;
    if Climbs(fetch, vct, integrity, maxDepth, seen, all) {
      forall i | 0 <= i < |more|
        ensures fetch(AskedAt(up, hash, more, i).0, AskedAt(up, hash, more, i).1) == Some(more[i])
        ensures NotAsked(up, hash, seen + [vct], more, i) && more[i].parent.ExtendsType?
      {
        assert all[i + 1] == more[i] && AskedAt(vct, integrity, all, i + 1) == AskedAt(up, hash, more, i);
      }
    }
    if Climbs(fetch, up, hash, maxDepth, seen + [vct], more) {
      forall i | 0 <= i < |all|
        ensures fetch(AskedAt(vct, integrity, all, i).0, AskedAt(vct, integrity, all, i).1) == Some(all[i])
        ensures NotAsked(vct, integrity, seen, all, i) && all[i].parent.ExtendsType?
      {
        if i > 0 {
          assert all[i] == more[i - 1] && AskedAt(vct, integrity, all, i - 1 + 1) == AskedAt(up, hash, more, i - 1);
        }
      }
    }
  }

  lemma EndsNext(fetch: Fetch, vct: string, integrity: Option<string>, maxDepth: nat, seen: seq<string>,
                 document: Document, more: seq<Document>, outcome: Result<seq<Document>, MetadataError>)
    requires document.parent.ExtendsType? && forall d | d in more :: d.parent.ExtendsType?
    requires Ends(fetch, document.parent.vct, document.parent.integrity, maxDepth, seen + [vct], more, outcome)
    ensures Ends(fetch, vct, integrity, maxDepth, seen, [document] + more, Onto(document, outcome))
  {
    AskedNext(vct, integrity, document, more, |more|);
    AskedSince(vct, integrity, seen, document, more, |more|);
    hide AskedAt, NotAsked;
    if outcome.Ok? {
      var last := outcome.value[|more|];
      assert [document] + (more + [last]) == [document] + more + [last];
    }
  }

  lemma EndsBack(fetch: Fetch, vct: string, integrity: Option<string>, maxDepth: nat, seen: seq<string>,
                 document: Document, more: seq<Document>, outcome: Result<seq<Document>, MetadataError>)
    returns (before: Result<seq<Document>, MetadataError>)
    requires document.parent.ExtendsType? && forall d | d in more :: d.parent.ExtendsType?
    requires Ends(fetch, vct, integrity, maxDepth, seen, [document] + more, outcome)
    ensures Ends(fetch, document.parent.vct, document.parent.integrity, maxDepth, seen + [vct], more, before)
    ensures outcome == Onto(document, before)
  {
    AskedNext(vct, integrity, document, more, |more|);
    AskedSince(vct, integrity, seen, document, more, |more|);
    hide AskedAt, NotAsked;
    match outcome {
      case Ok(documents) =>
        var last := documents[|more| + 1];
        assert [document] + (more + [last]) == [document] + more + [last];
        before := Ok(more + [last]);
      case Err(e) => before := Err(e);
    }
  }

  lemma ClimbersExtend(fetch: Fetch, vct: string, integrity: Option<string>, maxDepth: nat, seen: seq<string>, documents: seq<Document>)
    requires Climbs(fetch, vct, integrity, maxDepth, seen, documents)
    ensures forall d | d in documents :: d.parent.ExtendsType?
  {
    hide AskedAt, NotAsked;
  }

  predicate GoesOn(fetch: Fetch, vct: string, integrity: Option<string>, maxDepth: nat, seen: seq<string>) {
    && |seen| < maxDepth && vct !in seen
    && fetch(vct, integrity).Some? && fetch(vct, integrity).value.parent.ExtendsType?
  }

  lemma EndsAtOnce(fetch: Fetch, vct: string, integrity: Option<string>, maxDepth: nat, seen: seq<string>,
                   outcome: Result<seq<Document>, MetadataError>)
    ensures Ends(fetch, vct, integrity, maxDepth, seen, [], outcome) <==>
      !GoesOn(fetch, vct, integrity, maxDepth, seen) && DocumentsOf(ResolveChain(fetch, vct, integrity, maxDepth, seen)) == outcome
  {
    FirstAsked(vct, integrity, []);
    assert forall d: Document :: [] + [d] == [d];
  }

  lemma FirstClimbed(fetch: Fetch, vct: string, integrity: Option<string>, maxDepth: nat, seen: seq<string>, documents: seq<Document>)
    requires documents != [] && Climbs(fetch, vct, integrity, maxDepth, seen, documents)
    ensures GoesOn(fetch, vct, integrity, maxDepth, seen) && fetch(vct, integrity) == Some(documents[0])
  {
    FirstAsked(vct, integrity, documents);
    assert NotAsked(vct, integrity, seen, documents, 0);
  }

  lemma GoesOnto(fetch: Fetch, vct: string, integrity: Option<string>, maxDepth: nat, seen: seq<string>)
    requires GoesOn(fetch, vct, integrity, maxDepth, seen)
    ensures var d := fetch(vct, integrity).value;
      DocumentsOf(ResolveChain(fetch, vct, integrity, maxDepth, seen))
      == Onto(d, DocumentsOf(ResolveChain(fetch, d.parent.vct, d.parent.integrity, maxDepth, seen + [vct])))
  {
  }

  /** The climb of a resolution. */
  lemma {:induction false} ClimbOf(fetch: Fetch, vct: string, integrity: Option<string>, maxDepth: nat, seen: seq<string>)
    returns (documents: seq<Document>)
    ensures Climbs(fetch, vct, integrity, maxDepth, seen, documents)
    ensures Ends(fetch, vct, integrity, maxDepth, seen, documents,
      DocumentsOf(ResolveChain(fetch, vct, integrity, maxDepth, seen)))
    decreases if |seen| < maxDepth then maxDepth - |seen| else 0
  {
    if GoesOn(fetch, vct, integrity, maxDepth, seen) {
      var one := fetch(vct, integrity).value;
      var up, hash := one.parent.vct, one.parent.integrity;
      var more := ClimbOf(fetch, up, hash, maxDepth, seen + [vct]);
      hide AskedAt, NotAsked, Climbs, Ends, ResolveChain, DocumentsOf;
      ClimbsNext(fetch, vct, integrity, maxDepth, seen, one, more);
      ClimbersExtend(fetch, up, hash, maxDepth, seen + [vct], more);
      GoesOnto(fetch, vct, integrity, maxDepth, seen);
      EndsNext(fetch, vct, integrity, maxDepth, seen, one, more,
               DocumentsOf(ResolveChain(fetch, up, hash, maxDepth, seen + [vct])));
      documents := [one] + more;
    } else {
      documents := [];
      EndsAtOnce(fetch, vct, integrity, maxDepth, seen, DocumentsOf(ResolveChain(fetch, vct, integrity, maxDepth, seen)));
    }
  }

  /** And the climb fixes the outcome. */
  lemma {:induction false} ClimbDecides(fetch: Fetch, vct: string, integrity: Option<string>, maxDepth: nat, seen: seq<string>,
                                        documents: seq<Document>, outcome: Result<seq<Document>, MetadataError>)
    requires Climbs(fetch, vct, integrity, maxDepth, seen, documents)
    requires Ends(fetch, vct, integrity, maxDepth, seen, documents, outcome)
    ensures DocumentsOf(ResolveChain(fetch, vct, integrity, maxDepth, seen)) == outcome
    decreases |documents|
  {
    hide AskedAt, NotAsked, Climbs, Ends, ResolveChain, DocumentsOf;
    if documents == [] {
      EndsAtOnce(fetch, vct, integrity, maxDepth, seen, outcome);
    } else {
      var document, more := documents[0], documents[1..];
      assert documents == [document] + more && forall d | d in more :: d in documents;
      FirstClimbed(fetch, vct, integrity, maxDepth, seen, documents);
      ClimbersExtend(fetch, vct, integrity, maxDepth, seen, documents);
      ClimbsNext(fetch, vct, integrity, maxDepth, seen, document, more);
      var before := EndsBack(fetch, vct, integrity, maxDepth, seen, document, more, outcome);
      GoesOnto(fetch, vct, integrity, maxDepth, seen);
      ClimbDecides(fetch, document.parent.vct, document.parent.integrity, maxDepth, seen + [vct], more, before);
    }
  }

  /** A resolution gives a chain, or an error, exactly when a climb from the type asked for ends so. */
  lemma ResolvesExactly(fetch: Fetch, vct: string, integrity: Option<string>, maxDepth: nat, outcome: Result<seq<Document>, MetadataError>)
    ensures DocumentsOf(ResolveChain(fetch, vct, integrity, maxDepth, [])) == outcome <==> exists documents ::
      Climbs(fetch, vct, integrity, maxDepth, [], documents) && Ends(fetch, vct, integrity, maxDepth, [], documents, outcome)
  {
    hide Climbs, Ends, DocumentsOf, ResolveChain;
    var documents := ClimbOf(fetch, vct, integrity, maxDepth, []);
    if documents :| Climbs(fetch, vct, integrity, maxDepth, [], documents) && Ends(fetch, vct, integrity, maxDepth, [], documents, outcome) {
      ClimbDecides(fetch, vct, integrity, maxDepth, [], documents, outcome);
    }
  }
}
