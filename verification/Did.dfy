/**
 Looking up a verification method in a DID document: the precomputed spellings of
 one absolute DID URL against resolving every id and every reference (section
 3.2.2 of DID Core 1.0).
 */
module Did {
  import opened Prelude

  predicate LowerOrDigit(c: char) {
    'a' <= c <= 'z' || '0' <= c <= '9'
  }

  predicate IdChar(c: char) {
    LowerOrDigit(c) || 'A' <= c <= 'Z' || c == '.' || c == '_' || c == '-'
  }

  predicate Hex(c: char) {
    '0' <= c <= '9' || 'a' <= c <= 'f' || 'A' <= c <= 'F'
  }

  /** The method-specific id: segments separated by colons, the last one not empty. */
  predicate SpecificId(s: string, open: bool)
    decreases |s|
  {
    if s == [] then open
    else if s[0] == ':' then SpecificId(s[1..], false)
    else if s[0] == '%' then |s| >= 3 && Hex(s[1]) && Hex(s[2]) && SpecificId(s[3..], true)
    else IdChar(s[0]) && SpecificId(s[1..], true)
  }

  /** The method name, its colon, and the method-specific id. */
  predicate NameAndId(s: string, named: bool)
    decreases |s|
  {
    s != [] &&
    if s[0] == ':' then named && SpecificId(s[1..], false)
    else LowerOrDigit(s[0]) && NameAndId(s[1..], true)
  }

  /** A DID, not a DID URL (section 3.1 of DID Core 1.0). */
  predicate IsDid(s: string) {
    "did:" <= s && NameAndId(s[4..], false)
  }

  /** A method or a reference whose id is not a string has `None` here. */
  datatype Method<K> = Method(id: Option<string>, key: K)

  datatype Document<K> = Document(
    id: Option<string>,
    methods: seq<Method<K>>,
    relationships: map<string, seq<Option<string>>>)

  /** The key id a proof names: absent, a string, or something else. */
  datatype Kid = Absent | Named(kid: string) | Unreadable

  function Base<K>(doc: Document<K>): Option<string> {
    if doc.id.Some? && IsDid(doc.id.value) then doc.id else None
  }

  /** `_absolute`: the resolution of section 3.2.2. */
  function Absolute(url: Option<string>, base: Option<string>): Option<string> {
    if url == None then None
    else if "did:" <= url.value then url
    else if "#" <= url.value && base.Some? then Some(base.value + url.value)
    else None
  }

  /** `_spellings`. */
  function Spellings(absolute: Option<string>, base: Option<string>): seq<string> {
    if absolute == None || !("did:" <= absolute.value) then []
    else
      var a := absolute.value;
      if base.Some? && base.value <= a && |base.value| < |a| && a[|base.value|] == '#' then
        [a, a[|base.value|..]]
      else [a]
  }

  predicate SpelledBy(url: Option<string>, spellings: seq<string>) {
    url.Some? && url.value in spellings
  }

  function MethodsWithId<K>(ms: seq<Method<K>>, spellings: seq<string>): seq<Method<K>> {
    if ms == [] then []
    else
      (if SpelledBy(ms[0].id, spellings) then [ms[0]] else []) + MethodsWithId(ms[1..], spellings)
  }

  function Selected<K>(doc: Document<K>, kid: Kid): Option<Method<K>> {
    match kid
    case Absent => if |doc.methods| == 1 then Some(doc.methods[0]) else None
    case _ =>
      var wanted := if kid.Named? then Some(kid.kid) else None;
      var matches := MethodsWithId(doc.methods, Spellings(wanted, Base(doc)));
      if |matches| == 1 then Some(matches[0]) else None
  }

  /** `key_for_purpose`; a purpose that is not a string is `None`. */
  function KeyForPurpose<K>(doc: Document<K>, kid: Kid, purpose: Option<string>): Option<Method<K>> {
    if purpose == None then None
    else
      var vm := Selected(doc, kid);
      if vm == None then None
      else if purpose.value !in doc.relationships then vm
      else
        var spellings := Spellings(Absolute(vm.value.id, Base(doc)), Base(doc));
        if exists ref | ref in doc.relationships[purpose.value] :: SpelledBy(ref, spellings) then vm else None
  }

  // ----- the specification: resolve, then compare -----------------------------------------

  /** The method at `i` is the only one whose id resolves to `absolute`. */
  ghost predicate OnlyMatch<K>(doc: Document<K>, absolute: string, i: int) {
    && 0 <= i < |doc.methods|
    && (forall j :: 0 <= j < |doc.methods| ==>
          (Absolute(doc.methods[j].id, Base(doc)) == Some(absolute) <==> j == i))
  }

  ghost predicate Names<K(!new)>(doc: Document<K>, kid: Kid, vm: Method<K>) {
    match kid
    case Absent => doc.methods == [vm]
    case Named(absolute) => exists i :: OnlyMatch(doc, absolute, i) && doc.methods[i] == vm
    case Unreadable => false
  }

  /** A relationship the document declares must hold a reference that resolves to the method's
      own absolute id. */
  ghost predicate Grants<K>(doc: Document<K>, purpose: string, vm: Method<K>) {
    purpose in doc.relationships ==>
      exists ref | ref in doc.relationships[purpose] ::
        Absolute(ref, Base(doc)).Some? && Absolute(ref, Base(doc)) == Absolute(vm.id, Base(doc))
  }

  // ----- the syntax, written out -----------------------------------------------------------

  /** One character of an id, or one percent-encoded octet. */
  predicate IsUnit(t: string) {
    || (|t| == 1 && (t[0] in "._-" || 'a' <= t[0] <= 'z' || 'A' <= t[0] <= 'Z' || '0' <= t[0] <= '9'))
    || (|t| == 3 && t[0] == '%'
        && forall i | 1 <= i < 3 :: '0' <= t[i] <= '9' || 'a' <= t[i] <= 'f' || 'A' <= t[i] <= 'F')
  }

  function Flat(ts: seq<string>): string {
    if ts == [] then [] else ts[0] + Flat(ts[1..])
  }

  /** Units and colons. */
  predicate AreUnits(ts: seq<string>) {
    forall t | t in ts :: t == [':'] || IsUnit(t)
  }

  /** `did:`, a method name of lower-case letters and digits, a colon, and units and colons that end
      in a unit. */
  ghost predicate DidParts(s: string, name: string, ts: seq<string>) {
    && s == "did:" + (name + ([':'] + Flat(ts)))
    && name != [] && (forall c | c in name :: 'a' <= c <= 'z' || '0' <= c <= '9')
    && AreUnits(ts) && ts != [] && IsUnit(ts[|ts| - 1])
  }

  lemma {:induction false} IdHasUnits(s: string, open: bool) returns (ts: seq<string>)
    requires SpecificId(s, open)
    ensures s == Flat(ts) && AreUnits(ts)
    ensures if ts == [] then open else IsUnit(ts[|ts| - 1])
    decreases |s|
  {
    ts := [];
    if s != [] {
      var n, opens := if s[0] == '%' then 3 else 1, s[0] != ':';
      var rest := IdHasUnits(s[n..], opens);
      ts := [s[..n]] + rest;
      assert ts[1..] == rest && s == s[..n] + s[n..];
      assert IsUnit(s[..n]) || s[..n] == [':'];
    }
  }

  lemma {:induction false} UnitsAreId(ts: seq<string>, open: bool)
    requires AreUnits(ts) && if ts == [] then open else IsUnit(ts[|ts| - 1])
    ensures SpecificId(Flat(ts), open)
  {
    if ts != [] {
      var s, t, rest := Flat(ts), ts[0], ts[1..];
      assert t in ts && forall u | u in rest :: u in ts;
      assert s[..|t|] == t && s[|t|..] == Flat(rest);
      UnitsAreId(rest, t != [':']);
      assert s[0] == t[0];
      if |t| == 3 { assert s[1] == t[1] && s[2] == t[2]; }
    }
  }

  lemma {:induction false} NameSplits(s: string, named: bool) returns (name: string, ts: seq<string>)
    requires NameAndId(s, named)
    ensures s == name + ([':'] + Flat(ts)) && (name != [] || named)
    ensures forall c | c in name :: 'a' <= c <= 'z' || '0' <= c <= '9'
    ensures AreUnits(ts) && ts != [] && IsUnit(ts[|ts| - 1])
    decreases |s|
  {
    if s[0] == ':' {
      name := [];
      ts := IdHasUnits(s[1..], false);
      assert s == [] + ([':'] + s[1..]);
    } else {
      var rest;
      rest, ts := NameSplits(s[1..], true);
      name := [s[0]] + rest;
      assert s == [s[0]] + (rest + ([':'] + Flat(ts)));
    }
  }

  lemma {:induction false} NameJoins(name: string, ts: seq<string>, named: bool)
    requires name != [] || named
    requires forall c | c in name :: 'a' <= c <= 'z' || '0' <= c <= '9'
    requires AreUnits(ts) && ts != [] && IsUnit(ts[|ts| - 1])
    ensures NameAndId(name + ([':'] + Flat(ts)), named)
    decreases |name|
  {
    var s := name + ([':'] + Flat(ts));
    if name == [] {
      assert s[0] == ':' && s[1..] == Flat(ts);
      UnitsAreId(ts, false);
    } else {
      assert name[0] in name && forall c | c in name[1..] :: c in name;
      assert s[0] == name[0] && s[1..] == name[1..] + ([':'] + Flat(ts));
      NameJoins(name[1..], ts, true);
    }
  }

  /** Section 3.1 of DID Core 1.0. */
  lemma IsDidExactly(s: string)
    ensures IsDid(s) <==> exists name, ts :: DidParts(s, name, ts)
  {
    hide AreUnits, IsUnit, Flat, NameAndId;
    if IsDid(s) {
      var name, ts := NameSplits(s[4..], false);
      assert s == s[..4] + s[4..] && s[..4] == "did:";
      assert DidParts(s, name, ts);
    }
    if name, ts :| DidParts(s, name, ts) {
      NameJoins(name, ts, false);
      assert s[4..] == name + ([':'] + Flat(ts));
    }
  }

  /** A string resolves to an absolute DID URL exactly when it is that URL, or a fragment and the
      document's own id is a DID it can be put after. */
  lemma ResolvesExactly<K>(doc: Document<K>, url: string, absolute: string)
    ensures Absolute(Some(url), Base(doc)) == Some(absolute) <==>
      || (url == absolute && "did:" <= url)
      || (doc.id.Some? && (exists name, ts :: DidParts(doc.id.value, name, ts))
          && url != [] && url[0] == '#' && absolute == doc.id.value + url)
  {
    if doc.id.Some? { IsDidExactly(doc.id.value); }
    hide IsDid, DidParts;
    if "did:" <= url { DidUrlStarts(url); }
    assert "#" <= url <==> url != [] && url[0] == '#';
    assert "did:" <= url ==> url[0] == "did:"[0];
  }

  // ----- spellings -----------------------------------------------------------------------------

  lemma SpellingCases(url: string, absolute: string, base: Option<string>)
    requires url in Spellings(Some(absolute), base)
    ensures "did:" <= absolute
    ensures url == absolute || ("#" <= url && base.Some? && absolute == base.value + url)
  {
  }

  lemma DidUrlStarts(url: string)
    requires "did:" <= url
    ensures !("#" <= url)
  {
    assert url[0] == "did:"[0];
  }

  /** The spellings of an absolute DID URL are exactly the strings that resolve to it. */
  lemma SpellingsAreExact(url: string, absolute: string, base: Option<string>)
    requires base.Some? ==> IsDid(base.value)
    ensures url in Spellings(Some(absolute), base) <==> Absolute(Some(url), base) == Some(absolute)
  {
    hide NameAndId;
    if url in Spellings(Some(absolute), base) {
      SpellingCases(url, absolute, base);
      if "did:" <= url { DidUrlStarts(url); }
    }
    if Absolute(Some(url), base) == Some(absolute) && !("did:" <= url) {
      var b := base.value;
      assert absolute == b + url && absolute[..4] == b[..4] && absolute[..|b|] == b;
      assert absolute[|b|] == '#' && absolute[|b|..] == url;
    }
  }

  lemma SpelledByExactly(url: Option<string>, absolute: Option<string>, base: Option<string>)
    requires base.Some? ==> IsDid(base.value)
    ensures SpelledBy(url, Spellings(absolute, base)) <==> absolute.Some? && Absolute(url, base) == absolute
  {
    hide IsDid, Spellings;
    if absolute.Some? {
      if url.Some? { SpellingsAreExact(url.value, absolute.value, base); }
    } else {
      assert Spellings(absolute, base) == [] by { NoSpellings(base); }
    }
  }

  lemma NoSpellings(base: Option<string>)
    ensures Spellings(None, base) == []
  {
  }

  // ----- the lookup ------------------------------------------------------------------------------

  ghost predicate OnlySpelled<K>(ms: seq<Method<K>>, spellings: seq<string>, i: int) {
    && 0 <= i < |ms|
    && (forall j :: 0 <= j < |ms| ==> (SpelledBy(ms[j].id, spellings) <==> j == i))
  }

  lemma {:induction false} NoMatches<K>(ms: seq<Method<K>>, spellings: seq<string>)
    ensures MethodsWithId(ms, spellings) == [] <==> forall j :: 0 <= j < |ms| ==> !SpelledBy(ms[j].id, spellings)
  {
    if ms != [] {
      NoMatches(ms[1..], spellings);
      assert ms == [ms[0]] + ms[1..];
    }
  }

  lemma {:induction false} OneMatch<K>(ms: seq<Method<K>>, spellings: seq<string>, vm: Method<K>)
    ensures MethodsWithId(ms, spellings) == [vm] <==> exists i :: OnlySpelled(ms, spellings, i) && ms[i] == vm
  {
    if ms == [] {
      assert MethodsWithId(ms, spellings) == [];
    } else if SpelledBy(ms[0].id, spellings) {
      FirstMatches(ms, spellings, vm);
    } else {
      var tail := ms[1..];
      OneMatch(tail, spellings, vm);
      assert MethodsWithId(ms, spellings) == MethodsWithId(tail, spellings);
      hide SpelledBy, MethodsWithId;
      if i :| OnlySpelled(tail, spellings, i) && tail[i] == vm {
        ShiftMatch(ms, spellings, i);
      }
      if i :| OnlySpelled(ms, spellings, i) && ms[i] == vm {
        assert forall j :: 0 <= j < |tail| ==> tail[j] == ms[j + 1];
        assert i != 0;
        assert OnlySpelled(tail, spellings, i - 1) && tail[i - 1] == vm;
      }
    }
  }

  lemma FirstMatches<K>(ms: seq<Method<K>>, spellings: seq<string>, vm: Method<K>)
    requires ms != [] && SpelledBy(ms[0].id, spellings)
    ensures MethodsWithId(ms, spellings) == [vm] <==> exists i :: OnlySpelled(ms, spellings, i) && ms[i] == vm
  {
    var tail := ms[1..];
    NoMatches(tail, spellings);
    var found := MethodsWithId(tail, spellings);
    assert MethodsWithId(ms, spellings) == [ms[0]] + found;
    hide SpelledBy, MethodsWithId;
    assert forall j :: 0 <= j < |tail| ==> tail[j] == ms[j + 1];
    if [ms[0]] + found == [vm] {
      assert ([ms[0]] + found)[0] == [vm][0];
      assert found == ([ms[0]] + found)[1..] == [];
      assert forall j :: 0 < j < |ms| ==> ms[j] == tail[j - 1];
      assert OnlySpelled(ms, spellings, 0) && ms[0] == vm;
    }
    if i :| OnlySpelled(ms, spellings, i) && ms[i] == vm {
      assert i == 0;
      assert [ms[0]] + found == [vm];
    }
  }

  lemma ShiftMatch<K>(ms: seq<Method<K>>, spellings: seq<string>, i: int)
    requires ms != [] && !SpelledBy(ms[0].id, spellings) && OnlySpelled(ms[1..], spellings, i)
    ensures OnlySpelled(ms, spellings, i + 1) && ms[i + 1] == ms[1..][i]
  {
    hide SpelledBy;
    forall j | 0 <= j < |ms|
      ensures SpelledBy(ms[j].id, spellings) <==> j == i + 1
    {
      if j > 0 { assert ms[j] == ms[1..][j - 1]; }
    }
  }

  lemma SelectedExactly<K(!new)>(doc: Document<K>, kid: Kid, vm: Method<K>)
    ensures Selected(doc, kid) == Some(vm) <==> Names(doc, kid, vm)
  {
    var base := Base(doc);
    match kid {
      case Absent =>
      case Unreadable =>
        NoSpellings(base);
        NoMatches(doc.methods, []);
      case Named(absolute) =>
        var spellings := Spellings(Some(absolute), base);
        OneMatch(doc.methods, spellings, vm);
        var matches := MethodsWithId(doc.methods, spellings);
        assert Selected(doc, kid) == Some(vm) <==> matches == [vm];
        forall m: Method<K>
          ensures SpelledBy(m.id, spellings) <==> Absolute(m.id, base) == Some(absolute)
        {
          SpelledByExactly(m.id, Some(absolute), base);
        }
        hide Absolute, Spellings, SpelledBy, IsDid, MethodsWithId, Selected;
        assert forall i :: OnlySpelled(doc.methods, spellings, i) <==> OnlyMatch(doc, absolute, i);
    }
  }

  /** Looking up by spellings is resolving everything and comparing: on every document, the key
      returned is the one uniquely identified method, granted only when the relationship is not
      declared or holds a reference resolving to the same id. */
  lemma KeyForPurposeExactly<K(!new)>(doc: Document<K>, kid: Kid, purpose: Option<string>, vm: Method<K>)
    ensures KeyForPurpose(doc, kid, purpose) == Some(vm)
      <==> purpose.Some? && Names(doc, kid, vm) && Grants(doc, purpose.value, vm)
  {
    SelectedExactly(doc, kid, vm);
    var base := Base(doc);
    var own := Absolute(vm.id, base);
    var spellings := Spellings(own, base);
    forall ref: Option<string>
      ensures SpelledBy(ref, spellings) <==> Absolute(ref, base).Some? && Absolute(ref, base) == own
    {
      SpelledByExactly(ref, own, base);
    }
  }

  /** A key named in full and granted by a declared relationship has that id, and so does one of
      the relationship's references: another DID's reference with the same fragment grants nothing. */
  lemma GrantedKeyIsNamed<K(!new)>(doc: Document<K>, kid: string, purpose: string, vm: Method<K>)
    requires KeyForPurpose(doc, Named(kid), Some(purpose)) == Some(vm)
    requires purpose in doc.relationships
    ensures Absolute(vm.id, Base(doc)) == Some(kid)
    ensures exists ref | ref in doc.relationships[purpose] :: Absolute(ref, Base(doc)) == Some(kid)
  {
    KeyForPurposeExactly(doc, Named(kid), Some(purpose), vm);
    hide Absolute, Base, KeyForPurpose;
    var i :| OnlyMatch(doc, kid, i) && doc.methods[i] == vm;
    assert Absolute(doc.methods[i].id, Base(doc)) == Some(kid);
  }
}
