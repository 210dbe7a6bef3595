/**
 The node-list verifier: custodians, threshold, rollback, and the document's own
 rules, each stage reading only what the one before authenticated; and what holds
 over every run in which the caller stores what it accepted.
 */
module Nodes {
  import opened Prelude
  import opened OpenPgpSignature

  const MAX_LIST_BYTES := 262144
  const MAX_KEYS_BYTES := 65536
  const MAX_CUSTODIANS := 16
  const MAX_NODES := 512
  const MAX_VERSION := 0x7FFF_FFFF_FFFF_FFFF
  const SKEW := 300
  const MAX_VALIDITY := 90 * 86400

  const ENVIRONMENTS := ["pilot", "preprod", "prod"]

  datatype NodeListError =
    | ConfigError | Malformed | SignatureError | ThresholdError | Rollback
    | Expired | NotYetValid | Stale | EnvironmentMissing

  // ----- the documents ---------------------------------------------------------------------

  datatype Custodian = Custodian(fingerprint: Fingerprint, armor: string)

  datatype KeyList = KeyList(version: int, threshold: int, custodians: seq<Custodian>)

  datatype Listed = Listed(url: string, country: string, organisation: string)

  datatype Node = Node(origin: string, host: string, country: string, organisation: string)

  /** `tnl.json` as JSON of the right shape; instants in seconds. */
  datatype RawList = RawList(version: int, keysVersion: int, issued: int, expires: int,
                             environments: map<string, seq<Listed>>)

  datatype Document = Document(version: int, keysVersion: int, issued: int, expires: int,
                               environments: map<string, seq<Node>>)

  datatype Accepted = Accepted(version: int, digest: string)

  datatype Verified = Verified(environment: string, nodes: seq<Node>, list: Accepted, keysVersion: int, keys: Accepted,
                               issued: int, expires: int)

  /** What the verifier calls without seeing inside: JSON reading with its shape checks, OpenPGP
      key blocks, the hash, signature validity over a document, and the country and organisation
      rules of an entry. */
  datatype World = World(
    readKeyList: bytes -> Option<KeyList>,
    readKey: string -> Option<PublicKey>,
    readList: bytes -> Option<RawList>,
    fieldsOk: Listed -> bool,
    sha256: bytes -> string,
    valid: bytes -> (Signature, PublicKey) -> bool)

  datatype Call = Call(
    tnl: bytes, tnlSig: bytes, keys: bytes, keysSig: bytes, environment: string, now: int,
    lastList: Option<Accepted>, lastKeys: Option<Accepted>, anchor: PublicKey,
    listFloor: int, keysFloor: int, maxAge: Option<int>, minThreshold: Option<int>)

  // ----- rollback -----------------------------------------------------------------------------

  /** `_check_pair` raises nothing. */
  predicate PairOk(version: int, digest: string, floor: int, last: Option<Accepted>) {
    && floor <= version
    && (last.Some? ==> last.value.version <= version)
    && (last.Some? && last.value.version == version ==> last.value.digest == digest)
  }

  // ----- node origins ---------------------------------------------------------------------------

  function Prefix(environment: string): string {
    if environment == "pilot" then "https://api-pilot.ebsi."
    else if environment == "preprod" then "https://api-preprod.ebsi."
    else "https://api.ebsi."
  }

  predicate HostChar(c: char) {
    'a' <= c <= 'z' || '0' <= c <= '9' || c == '.' || c == '-'
  }

  function Labels(host: string): (r: seq<string>)
    ensures r != []
  {
    if host == [] then [[]]
    else
      var rest := Labels(host[1..]);
      if host[0] == '.' then [[]] + rest else [[host[0]] + rest[0]] + rest[1..]
  }

  predicate LabelOk(part: string) {
    1 <= |part| <= 63 && part[0] != '-' && part[|part| - 1] != '-'
  }

  const HTTPS := "https://"

  /** `check_node_origin` for an environment that is one of the three. */
  predicate OriginOk(url: string, environment: string) {
    && HTTPS <= url
    && |url| > |HTTPS|
    && (forall i :: |HTTPS| <= i < |url| ==> HostChar(url[i]))
    && Prefix(environment) <= url
    && |url| - |HTTPS| <= 253
    && forall part | part in Labels(url[|HTTPS|..]) :: LabelOk(part)
  }

  /** `'.'.join(parts)`. */
  function JoinDots(parts: seq<string>): string
    requires parts != []
  {
    if |parts| == 1 then parts[0] else parts[0] + "." + JoinDots(parts[1..])
  }

  lemma {:induction false} LabelsJoin(host: string)
    ensures JoinDots(Labels(host)) == host && forall part | part in Labels(host) :: '.' !in part
  {
    if host != [] {
      LabelsJoin(host[1..]);
      var rest, parts := Labels(host[1..]), Labels(host);
      assert host == [host[0]] + host[1..];
      if host[0] == '.' {
        assert parts[1..] == rest && [] + "." + host[1..] == host;
      } else {
        assert parts[1..] == rest[1..] && parts[0] == [host[0]] + rest[0];
        assert rest[0] in rest && forall p | p in rest[1..] :: p in rest;
        if |rest| > 1 {
          ConcatAssoc([host[0]], rest[0], ".");
          ConcatAssoc([host[0]], rest[0] + ".", JoinDots(rest[1..]));
        }
      }
    }
  }

  /** Splitting undoes joining. */
  lemma {:induction false} LabelsOfJoin(parts: seq<string>)
    requires parts != [] && forall part | part in parts :: '.' !in part
    ensures Labels(JoinDots(parts)) == parts
    decreases |parts|, |parts[0]|
  {
    var host := JoinDots(parts);
    assert parts == [parts[0]] + parts[1..];
    if parts[0] != [] {
      var front := parts[0][1..];
      assert parts[0] in parts && parts[0][0] != '.' by { assert parts[0][0] in parts[0]; }
      var less := [front] + parts[1..];
      assert forall part | part in less :: '.' !in part;
      LabelsOfJoin(less);
      assert less[1..] == parts[1..];
      assert parts[0] == [parts[0][0]] + front;
      assert host == [parts[0][0]] + JoinDots(less);
      assert host[1..] == JoinDots(less);
    } else if |parts| > 1 {
      LabelsOfJoin(parts[1..]);
      assert host == "." + JoinDots(parts[1..]);
      assert host[1..] == JoinDots(parts[1..]);
    }
  }

  /** A node origin, written out: `https://` and a DNS name of lower-case labels, beginning as the
      environment's names do. */
  ghost predicate NamesHost(url: string, environment: string, parts: seq<string>) {
    && parts != [] && url == "https://" + JoinDots(parts) && |JoinDots(parts)| <= 253
    && (forall part | part in parts :: 1 <= |part| <= 63 && part[0] != '-' && part[|part| - 1] != '-')
    && (forall part, c | part in parts && c in part :: 'a' <= c <= 'z' || '0' <= c <= '9' || c == '-')
    && (environment == "pilot" ==> "https://api-pilot.ebsi." <= url)
    && (environment == "preprod" ==> "https://api-preprod.ebsi." <= url)
    && (environment == "prod" ==> "https://api.ebsi." <= url)
  }

  lemma OriginExactly(url: string, environment: string)
    requires environment in {"pilot", "preprod", "prod"}
    ensures OriginOk(url, environment) <==> exists parts :: NamesHost(url, environment, parts)
  {
    if OriginOk(url, environment) {
      OriginNames(url, environment);
    }
    if parts :| NamesHost(url, environment, parts) {
      NamesOrigin(url, environment, parts);
    }
    hide *;
  }

  lemma PrefixCut(p: string, url: string)
    requires p <= url
    ensures url == p + url[|p|..]
  {
  }

  lemma PrefixSplit(p: string, url: string, host: string)
    requires url == p + host
    ensures p <= url && |url| == |p| + |host| && url[|p|..] == host
    ensures forall i :: |p| <= i < |url| ==> url[i] == host[i - |p|]
  {
  }

  lemma OriginNames(url: string, environment: string)
    requires environment in {"pilot", "preprod", "prod"} && OriginOk(url, environment)
    ensures NamesHost(url, environment, Labels(url[|HTTPS|..]))
  {
    hide Prefix, Labels, JoinDots, HostChar, NamesHost, LabelOk;
    PrefixCut(HTTPS, url);
    var host := url[|HTTPS|..];
    PrefixSplit(HTTPS, url, host);
    LabelsJoin(host);
    assert forall c | c in host :: HostChar(c);
    LabelsAreParts(url, environment, Labels(host));
  }

  lemma LabelsAreParts(url: string, environment: string, parts: seq<string>)
    requires environment in {"pilot", "preprod", "prod"} && Prefix(environment) <= url
    requires parts != [] && url == HTTPS + JoinDots(parts) && |JoinDots(parts)| <= 253
    requires (forall part | part in parts :: '.' !in part && LabelOk(part)) && forall c | c in JoinDots(parts) :: HostChar(c)
    ensures NamesHost(url, environment, parts)
  {
    hide JoinDots;
    forall part, c | part in parts && c in part
      ensures 'a' <= c <= 'z' || '0' <= c <= '9' || c == '-'
    {
      JoinHolds(parts, part, c);
    }
  }

  lemma NamesOrigin(url: string, environment: string, parts: seq<string>)
    requires environment in {"pilot", "preprod", "prod"} && NamesHost(url, environment, parts)
    ensures OriginOk(url, environment)
  {
    hide *;
    PrefixStands(url, environment, parts);
    PartsAreLabels(url, environment, parts);
    LabelsOfJoin(parts);
    JoinChars(parts);
    OriginFrom(url, environment, JoinDots(parts));
  }

  lemma OriginFrom(url: string, environment: string, host: string)
    requires url == HTTPS + host && host != [] && |host| <= 253 && Prefix(environment) <= url
    requires (forall c | c in host :: HostChar(c)) && forall part | part in Labels(host) :: LabelOk(part)
    ensures OriginOk(url, environment)
  {
    hide Prefix, Labels, LabelOk, HostChar;
    PrefixSplit(HTTPS, url, host);
    assert forall i :: 0 <= i < |host| ==> host[i] in host;
  }

  lemma PrefixStands(url: string, environment: string, parts: seq<string>)
    requires environment in {"pilot", "preprod", "prod"} && NamesHost(url, environment, parts)
    ensures Prefix(environment) <= url && url == HTTPS + JoinDots(parts) && |JoinDots(parts)| <= 253
  {
    hide JoinDots;
  }

  lemma PartsAreLabels(url: string, environment: string, parts: seq<string>)
    requires NamesHost(url, environment, parts)
    ensures parts != []
    ensures forall part | part in parts :: '.' !in part && LabelOk(part)
    ensures forall part, c | part in parts && c in part :: HostChar(c)
    ensures JoinDots(parts) != []
  {
    assert parts[0] in parts;
  }

  lemma {:induction false} JoinChars(parts: seq<string>)
    requires parts != [] && forall part, c | part in parts && c in part :: HostChar(c)
    ensures forall c | c in JoinDots(parts) :: HostChar(c)
  {
    assert parts[0] in parts;
    if |parts| > 1 {
      assert parts == [parts[0]] + parts[1..];
      JoinChars(parts[1..]);
    }
  }

  lemma {:induction false} JoinHolds(parts: seq<string>, part: string, c: char)
    requires parts != [] && part in parts && c in part
    ensures c in JoinDots(parts)
  {
    if part != parts[0] {
      assert parts == [parts[0]] + parts[1..];
      JoinHolds(parts[1..], part, c);
    }
  }

  function NodeOf(e: Listed): Node
    requires |HTTPS| <= |e.url|
  {
    Node(e.url, e.url[|HTTPS|..], e.country, e.organisation)
  }

  // ----- the environments of a list -----------------------------------------------------------------

  function Urls(entries: seq<Listed>): (r: seq<string>)
    ensures |r| == |entries| && forall i :: 0 <= i < |r| ==> r[i] == entries[i].url
  {
    seq(|entries|, i requires 0 <= i < |entries| => entries[i].url)
  }

  /** The entries of an environment, none when the list does not name it. */
  function EntriesOf(raw: map<string, seq<Listed>>, environment: string): seq<Listed> {
    if environment in raw then raw[environment] else []
  }

  /** Every URL of the list, environment by environment. */
  function AllUrls(raw: map<string, seq<Listed>>, envs: seq<string>): seq<string> {
    if envs == [] then []
    else AllUrls(raw, envs[..|envs| - 1]) + Urls(EntriesOf(raw, envs[|envs| - 1]))
  }

  predicate NoDuplicates(s: seq<string>) {
    forall i, j :: 0 <= i < j < |s| ==> s[i] != s[j]
  }

  predicate EnvironmentOk(entries: seq<Listed>, environment: string, fieldsOk: Listed -> bool) {
    && entries != []
    && forall e | e in entries :: OriginOk(e.url, environment) && fieldsOk(e)
  }

  /** The environments are acceptable: each names only its own origins, no URL is listed twice
      anywhere, and there are at most 512 nodes. */
  predicate EnvironmentsOk(raw: map<string, seq<Listed>>, envs: seq<string>, fieldsOk: Listed -> bool) {
    && (forall env | env in envs && env in raw :: EnvironmentOk(raw[env], env, fieldsOk))
    && NoDuplicates(AllUrls(raw, envs))
    && |AllUrls(raw, envs)| <= MAX_NODES
  }

  function NodesOf(entries: seq<Listed>, environment: string, fieldsOk: Listed -> bool): (r: seq<Node>)
    requires EnvironmentOk(entries, environment, fieldsOk)
    ensures |r| == |entries| && forall i :: 0 <= i < |r| ==> r[i].origin == entries[i].url
  {
    assert forall i :: 0 <= i < |entries| ==> entries[i] in entries;
    seq(|entries|, i requires 0 <= i < |entries| => NodeOf(entries[i]))
  }

  function EnvironmentsOf(raw: map<string, seq<Listed>>, fieldsOk: Listed -> bool): Option<map<string, seq<Node>>>
  {
    if EnvironmentsOk(raw, ENVIRONMENTS, fieldsOk) then
      Some(Parsed(raw, ENVIRONMENTS, fieldsOk))
    else None
  }

  function Parsed(raw: map<string, seq<Listed>>, envs: seq<string>, fieldsOk: Listed -> bool): map<string, seq<Node>>
    requires EnvironmentsOk(raw, envs, fieldsOk)
  {
    map env | env in envs && env in raw :: NodesOf(raw[env], env, fieldsOk)
  }

  /** What one more environment asks of the list, and adds to it. */
  lemma OneMore(raw: map<string, seq<Listed>>, envs: seq<string>, k: nat, fieldsOk: Listed -> bool)
    requires k < |envs| && EnvironmentsOk(raw, envs[..k], fieldsOk)
    ensures var env, seen := envs[k], AllUrls(raw, envs[..k]);
      var entries := EntriesOf(raw, env);
      && AllUrls(raw, envs[..k + 1]) == seen + Urls(entries)
      && (EnvironmentsOk(raw, envs[..k + 1], fieldsOk) <==>
            && (env in raw ==> EnvironmentOk(entries, env, fieldsOk))
            && NoDuplicates(seen + Urls(entries)) && |seen| + |entries| <= MAX_NODES)
  {
    hide EnvironmentOk, NoDuplicates;
    AllUrlsNext(raw, envs, k);
    assert envs[..k + 1] == envs[..k] + [envs[k]];
  }

  lemma ParsedNext(raw: map<string, seq<Listed>>, envs: seq<string>, k: nat, fieldsOk: Listed -> bool)
    requires k < |envs| && EnvironmentsOk(raw, envs[..k], fieldsOk) && EnvironmentsOk(raw, envs[..k + 1], fieldsOk)
    ensures var env := envs[k];
      Parsed(raw, envs[..k + 1], fieldsOk) ==
        if env in raw then Parsed(raw, envs[..k], fieldsOk)[env := NodesOf(raw[env], env, fieldsOk)]
        else Parsed(raw, envs[..k], fieldsOk)
  {
    hide AllUrls, NoDuplicates;
    assert envs[..k + 1] == envs[..k] + [envs[k]];
  }

  lemma DuplicatesStay(s: seq<string>, t: seq<string>)
    requires NoDuplicates(s + t)
    ensures NoDuplicates(s)
    ensures forall x | x in t :: x !in s
  {
    var st := s + t;
    assert forall i :: 0 <= i < |s| ==> st[i] == s[i];
    forall i, j | 0 <= i < |s| && 0 <= j < |t|
      ensures s[i] != t[j]
    {
      assert st[i] == s[i] && st[|s| + j] == t[j];
    }
  }

  lemma {:induction false} AllUrlsFront(raw: map<string, seq<Listed>>, envs: seq<string>, k: nat)
    requires k <= |envs|
    ensures AllUrls(raw, envs[..k]) <= AllUrls(raw, envs)
    decreases |envs|
  {
    if k < |envs| {
      assert envs[..|envs| - 1][..k] == envs[..k];
      AllUrlsFront(raw, envs[..|envs| - 1], k);
    } else {
      assert envs[..k] == envs;
    }
  }

  lemma FrontOk(raw: map<string, seq<Listed>>, envs: seq<string>, k: nat, fieldsOk: Listed -> bool)
    requires k <= |envs| && EnvironmentsOk(raw, envs, fieldsOk)
    ensures EnvironmentsOk(raw, envs[..k], fieldsOk)
  {
    AllUrlsFront(raw, envs, k);
    var all, front := AllUrls(raw, envs), AllUrls(raw, envs[..k]);
    assert all == front + all[|front|..];
    DuplicatesStay(front, all[|front|..]);
    hide AllUrls, EnvironmentOk;
  }

  /** One environment's entries: the inner loop of `_parse_list`, with the URLs already seen. */
  method ParseEntries(entries: seq<Listed>, environment: string, seen: seq<string>, fieldsOk: Listed -> bool)
    returns (r: Option<seq<Node>>)
    requires NoDuplicates(seen)
    ensures r.Some? <==>
      (forall e | e in entries :: OriginOk(e.url, environment) && fieldsOk(e)) && NoDuplicates(seen + Urls(entries))
    ensures r.Some? ==> |r.value| == |entries| && forall i :: 0 <= i < |entries| ==>
      |HTTPS| <= |entries[i].url| && r.value[i] == NodeOf(entries[i])
  {
    hide OriginOk, NodeOf;
    var known := seen;
    var nodes: seq<Node> := [];
    assert seen + Urls([]) == seen;
    for i := 0 to |entries|
      invariant known == seen + Urls(entries[..i]) && NoDuplicates(known)
      invariant forall j :: 0 <= j < i ==> OriginOk(entries[j].url, environment) && fieldsOk(entries[j])
      invariant |nodes| == i && forall j :: 0 <= j < i ==>
        |HTTPS| <= |entries[j].url| && nodes[j] == NodeOf(entries[j])
    {
      var e := entries[i];
      assert e in entries;
      assert Urls(entries[..i + 1]) == Urls(entries[..i]) + [e.url];
      assert known + [e.url] == seen + Urls(entries[..i + 1]);
      if !OriginOk(e.url, environment) {
        return None;
      }
      OriginIsHttps(e.url, environment);
      if e.url in known {
        SeenTwice(seen, entries, i);
        return None;
      }
      if !fieldsOk(e) {
        return None;
      }
      known := known + [e.url];
      nodes := nodes + [NodeOf(e)];
    }
    assert entries[..|entries|] == entries;
    assert forall e | e in entries :: OriginOk(e.url, environment) && fieldsOk(e);
    return Some(nodes);
  }

  lemma OriginIsHttps(url: string, environment: string)
    requires OriginOk(url, environment)
    ensures |HTTPS| <= |url|
  {
  }

  lemma SeenTwice(seen: seq<string>, entries: seq<Listed>, i: nat)
    requires i < |entries| && entries[i].url in seen + Urls(entries[..i])
    ensures !NoDuplicates(seen + Urls(entries))
  {
    var all := seen + Urls(entries);
    var before := seen + Urls(entries[..i]);
    var k :| 0 <= k < |before| && before[k] == entries[i].url;
    assert all[k] == before[k] by {
      if k >= |seen| { assert all[k] == entries[k - |seen|].url; }
    }
    assert all[|seen| + i] == entries[i].url;
  }

  /** The environment loops of `_parse_list`: `None` is NodeListMalformed. */
  method ParseEnvironments(raw: map<string, seq<Listed>>, fieldsOk: Listed -> bool)
    returns (r: Option<map<string, seq<Node>>>)
    ensures r == EnvironmentsOf(raw, fieldsOk)
  {
    hide OriginOk, NodeOf, AllUrls, NoDuplicates, Parsed, EnvironmentsOk;
    var envs := ENVIRONMENTS;
    var seen: seq<string>, total := [], 0;
    var parsed: map<string, seq<Node>> := map[];
    NothingParsed(raw, envs[..0], fieldsOk);
    for k := 0 to |envs|
      invariant EnvironmentsOk(raw, envs[..k], fieldsOk)
      invariant seen == AllUrls(raw, envs[..k]) && total == |seen| <= MAX_NODES && NoDuplicates(seen)
      invariant parsed == Parsed(raw, envs[..k], fieldsOk)
    {
      var env := envs[k];
      OneMore(raw, envs, k, fieldsOk);
      if env !in raw {
        assert EntriesOf(raw, env) == [] && seen + Urls(EntriesOf(raw, env)) == seen;
        ParsedNext(raw, envs, k, fieldsOk);
        continue;
      }
      var entries := raw[env];
      if entries == [] {
        FrontFails(raw, envs, k + 1, fieldsOk);
        return None;
      }
      total := total + |entries|;
      if total > MAX_NODES {
        FrontFails(raw, envs, k + 1, fieldsOk);
        return None;
      }
      var nodes := ParseEntries(entries, env, seen, fieldsOk);
      if nodes.None? {
        FrontFails(raw, envs, k + 1, fieldsOk);
        return None;
      }
      ParsedNext(raw, envs, k, fieldsOk);
      assert nodes.value == NodesOf(entries, env, fieldsOk);
      seen := seen + Urls(entries);
      parsed := parsed[env := nodes.value];
    }
    assert envs[..|envs|] == envs;
    return Some(parsed);
  }

  lemma NothingParsed(raw: map<string, seq<Listed>>, envs: seq<string>, fieldsOk: Listed -> bool)
    requires envs == []
    ensures EnvironmentsOk(raw, envs, fieldsOk) && AllUrls(raw, envs) == [] && NoDuplicates([])
    ensures Parsed(raw, envs, fieldsOk) == map[]
  {
  }

  lemma AllUrlsNext(raw: map<string, seq<Listed>>, envs: seq<string>, k: nat)
    requires k < |envs|
    ensures AllUrls(raw, envs[..k + 1]) == AllUrls(raw, envs[..k]) + Urls(EntriesOf(raw, envs[k]))
  {
    assert envs[..k + 1][..k] == envs[..k];
  }

  lemma FrontFails(raw: map<string, seq<Listed>>, envs: seq<string>, k: nat, fieldsOk: Listed -> bool)
    requires k <= |envs| && !EnvironmentsOk(raw, envs[..k], fieldsOk)
    ensures !EnvironmentsOk(raw, envs, fieldsOk)
  {
    if EnvironmentsOk(raw, envs, fieldsOk) { FrontOk(raw, envs, k, fieldsOk); }
  }

  predicate VersionOk(v: int) {
    1 <= v <= MAX_VERSION
  }

  /** `_parse_list`. */
  function ParseList(w: World, raw: bytes): Option<Document> {
    match w.readList(raw)
    case None => None
    case Some(doc) =>
      if !VersionOk(doc.version) || !VersionOk(doc.keysVersion) then None
      else if doc.issued >= doc.expires || doc.expires - doc.issued > MAX_VALIDITY then None
      else if doc.environments == map[] || exists env | env in doc.environments :: env !in ENVIRONMENTS then None
      else
        match EnvironmentsOf(doc.environments, w.fieldsOk)
        case None => None
        case Some(envs) => Some(Document(doc.version, doc.keysVersion, doc.issued, doc.expires, envs))
  }

  // ----- the custodians -----------------------------------------------------------------------------

  function Points(allowed: map<Fingerprint, PublicKey>): set<bytes> {
    set f | f in allowed :: allowed[f].point
  }

  /** What `_read_custodians` reads: `None` is NodeListMalformed. */
  function Custodians(w: World, listed: seq<Custodian>): Option<map<Fingerprint, PublicKey>> {
    if listed == [] then Some(map[])
    else
      var c := listed[|listed| - 1];
      var before := Custodians(w, listed[..|listed| - 1]);
      var key := w.readKey(c.armor);
      if before.None? || key.None? then None
      else if key.value.fingerprint != c.fingerprint then None
      else if c.fingerprint in before.value || key.value.point in Points(before.value) then None
      else Some(before.value[c.fingerprint := key.value])
  }

  lemma {:induction false} FirstFailureStays(w: World, listed: seq<Custodian>, k: nat)
    requires k <= |listed| && Custodians(w, listed[..k]).None?
    ensures Custodians(w, listed).None?
    decreases |listed|
  {
    if k < |listed| {
      assert listed[..|listed| - 1][..k] == listed[..k];
      FirstFailureStays(w, listed[..|listed| - 1], k);
    } else {
      assert listed[..k] == listed;
    }
  }

  /** `_read_custodians`. */
  method ReadCustodians(w: World, listed: seq<Custodian>) returns (r: Option<map<Fingerprint, PublicKey>>)
    ensures r == Custodians(w, listed)
  {
    var allowed: map<Fingerprint, PublicKey> := map[];
    var points: set<bytes> := {};
    for i := 0 to |listed|
      invariant Custodians(w, listed[..i]) == Some(allowed) && points == Points(allowed)
    {
      assert listed[..i + 1][..i] == listed[..i];
      var key := w.readKey(listed[i].armor);
      if key.None? || key.value.fingerprint != listed[i].fingerprint
         || key.value.fingerprint in allowed || key.value.point in points {
        FirstFailureStays(w, listed, i + 1);
        return None;
      }
      PointsGrow(allowed, key.value);
      allowed := allowed[key.value.fingerprint := key.value];
      points := points + {key.value.point};
    }
    assert listed[..|listed|] == listed;
    return Some(allowed);
  }

  lemma PointsGrow(allowed: map<Fingerprint, PublicKey>, key: PublicKey)
    requires key.fingerprint !in allowed
    ensures Points(allowed[key.fingerprint := key]) == Points(allowed) + {key.point}
  {
    var more := allowed[key.fingerprint := key];
    assert forall f | f in allowed :: f in more && more[f] == allowed[f];
    assert key.fingerprint in more && more[key.fingerprint] == key;
  }

  /** Accepted custodians are filed under their own fingerprints, one per list entry, and no two
      share a public point. */
  lemma {:induction false} CustodiansDistinct(w: World, listed: seq<Custodian>)
    requires Custodians(w, listed).Some?
    ensures var allowed := Custodians(w, listed).value;
      && Filed(allowed) && |allowed| == |listed|
      && (forall f, g | f in allowed && g in allowed && f != g :: allowed[f].point != allowed[g].point)
      && (forall c | c in listed :: c.fingerprint in allowed)
    decreases |listed|
  {
    if listed != [] {
      var front, c := listed[..|listed| - 1], listed[|listed| - 1];
      CustodiansDistinct(w, front);
      assert listed == front + [c];
      var before := Custodians(w, front).value;
      forall f | f in before
        ensures before[f].point in Points(before)
      {
      }
    }
  }

  // ----- the verifier ---------------------------------------------------------------------------------

  predicate LastOk(last: Option<Accepted>) {
    last.Some? ==> VersionOk(last.value.version)
  }

  /** The checks of stage 1 that concern the arguments alone. */
  predicate ConfigOk(c: Call) {
    && c.environment in ENVIRONMENTS
    && LastOk(c.lastList) && LastOk(c.lastKeys)
    && 1 <= c.listFloor && 1 <= c.keysFloor
    && (c.maxAge.Some? ==> 0 < c.maxAge.value)
    && (c.minThreshold.Some? ==> 1 <= c.minThreshold.value)
  }

  predicate SizesOk(c: Call) {
    && |c.tnl| <= MAX_LIST_BYTES && |c.keys| <= MAX_KEYS_BYTES
    && |c.tnlSig| <= 4096 && |c.keysSig| <= 4096
  }

  /** Stages 2 and 3: the key list, authenticated before it is parsed. */
  function CheckKeys(w: World, c: Call): Result<KeyList, NodeListError> {
    match SignatureFile(c.keysSig)
    case Err(_) => Err(Malformed)
    case Ok(sigs) =>
      var signers := SignersOf(sigs, map[c.anchor.fingerprint := c.anchor], w.valid(c.keys));
      if signers.None? || c.anchor.fingerprint !in signers.value then Err(SignatureError)
      else
        match w.readKeyList(c.keys)
        case None => Err(Malformed)
        case Some(list) =>
          if !VersionOk(list.version) || !(1 <= |list.custodians| <= MAX_CUSTODIANS) then Err(Malformed)
          else if !PairOk(list.version, w.sha256(c.keys), c.keysFloor, c.lastKeys) then Err(Rollback)
          else if !(1 <= list.threshold <= |list.custodians|) then Err(Malformed)
          else if c.minThreshold.Some? && list.threshold < c.minThreshold.value then Err(ThresholdError)
          else Ok(list)
  }

  /** Stages 4 and 5: who signed the node list. */
  function CheckSigners(w: World, c: Call, list: KeyList): Result<set<Fingerprint>, NodeListError> {
    match Custodians(w, list.custodians)
    case None => Err(Malformed)
    case Some(allowed) =>
      match SignatureFile(c.tnlSig)
      case Err(_) => Err(Malformed)
      case Ok(sigs) =>
        var signers := SignersOf(sigs, allowed, w.valid(c.tnl));
        if signers.None? then Err(SignatureError)
        else if |signers.value| < list.threshold then Err(ThresholdError)
        else Ok(signers.value)
  }

  /** Stage 6: the node list itself. */
  function CheckList(w: World, c: Call, keysVersion: int): Result<Verified, NodeListError> {
    match ParseList(w, c.tnl)
    case None => Err(Malformed)
    case Some(doc) =>
      if !PairOk(doc.version, w.sha256(c.tnl), c.listFloor, c.lastList) then Err(Rollback)
      else if doc.keysVersion > keysVersion then Err(Rollback)
      else if c.now >= doc.expires then Err(Expired)
      else if doc.issued - c.now > SKEW then Err(NotYetValid)
      else if c.maxAge.Some? && c.now - doc.issued > c.maxAge.value then Err(Stale)
      else if c.environment !in doc.environments then Err(EnvironmentMissing)
      else
        Ok(Verified(c.environment, doc.environments[c.environment],
                    Accepted(doc.version, w.sha256(c.tnl)), doc.keysVersion, Accepted(keysVersion, w.sha256(c.keys)),
                    doc.issued, doc.expires))
  }

  function Verify(w: World, c: Call): Result<Verified, NodeListError> {
    if !ConfigOk(c) then Err(ConfigError)
    else if !SizesOk(c) then Err(Malformed)
    else
      match CheckKeys(w, c)
      case Err(e) => Err(e)
      case Ok(list) =>
        match CheckSigners(w, c, list)
        case Err(e) => Err(e)
        case Ok(_) => CheckList(w, c, list.version)
  }

  /** `verify_node_list`, stage by stage. */
  method VerifyNodeList(w: World, c: Call) returns (r: Result<Verified, NodeListError>)
    ensures r == Verify(w, c)
  {
    hide SignatureFile, SignersOf, Custodians, PairOk, EnvironmentsOf;
    if !ConfigOk(c) {
      return Err(ConfigError);
    }
    if !SizesOk(c) {
      return Err(Malformed);
    }
    var keySigs := ReadSignatures(c.keysSig);
    if keySigs.Err? {
      return Err(Malformed);
    }
    var anchors := map[c.anchor.fingerprint := c.anchor];
    var anchorSigners := VerifiedSigners(keySigs.value, anchors, w.valid(c.keys));
    if anchorSigners.None? || c.anchor.fingerprint !in anchorSigners.value {
      return Err(SignatureError);
    }
    var list := w.readKeyList(c.keys);
    if list.None? || !VersionOk(list.value.version) || !(1 <= |list.value.custodians| <= MAX_CUSTODIANS) {
      return Err(Malformed);
    }
    if !PairOk(list.value.version, w.sha256(c.keys), c.keysFloor, c.lastKeys) {
      return Err(Rollback);
    }
    if !(1 <= list.value.threshold <= |list.value.custodians|) {
      return Err(Malformed);
    }
    if c.minThreshold.Some? && list.value.threshold < c.minThreshold.value {
      return Err(ThresholdError);
    }
    var custodians := ReadCustodians(w, list.value.custodians);
    if custodians.None? {
      return Err(Malformed);
    }
    CustodiansDistinct(w, list.value.custodians);
    var sigs := ReadSignatures(c.tnlSig);
    if sigs.Err? {
      return Err(Malformed);
    }
    var signers := VerifiedSigners(sigs.value, custodians.value, w.valid(c.tnl));
    if signers.None? {
      return Err(SignatureError);
    }
    if |signers.value| < list.value.threshold {
      return Err(ThresholdError);
    }
    var doc := w.readList(c.tnl);
    if doc.None? || !VersionOk(doc.value.version) || !VersionOk(doc.value.keysVersion) {
      return Err(Malformed);
    }
    var raw := doc.value;
    if raw.issued >= raw.expires || raw.expires - raw.issued > MAX_VALIDITY {
      return Err(Malformed);
    }
    if raw.environments == map[] || exists env | env in raw.environments :: env !in ENVIRONMENTS {
      return Err(Malformed);
    }
    var parsed := ParseEnvironments(raw.environments, w.fieldsOk);
    if parsed.None? {
      return Err(Malformed);
    }
    var digest := w.sha256(c.tnl);
    if !PairOk(raw.version, digest, c.listFloor, c.lastList) || raw.keysVersion > list.value.version {
      return Err(Rollback);
    }
    if c.now >= raw.expires {
      return Err(Expired);
    }
    if raw.issued - c.now > SKEW {
      return Err(NotYetValid);
    }
    if c.maxAge.Some? && c.now - raw.issued > c.maxAge.value {
      return Err(Stale);
    }
    if c.environment !in parsed.value {
      return Err(EnvironmentMissing);
    }
    return Ok(Verified(c.environment, parsed.value[c.environment], Accepted(raw.version, digest), raw.keysVersion,
                       Accepted(list.value.version, w.sha256(c.keys)), raw.issued, raw.expires));
  }

  // ----- what one acceptance rests on --------------------------------------------------------------------

  /** An accepted list was signed by at least `threshold` custodians of a key list the anchor
      signed: distinct fingerprints with distinct public points, each with a valid signature over
      exactly the bytes accepted. */
  lemma AcceptedWithThreshold(w: World, c: Call)
    requires Verify(w, c).Ok?
    ensures w.readKeyList(c.keys).Some? && SignatureFile(c.keysSig).Ok? && SignatureFile(c.tnlSig).Ok?
    ensures var list := w.readKeyList(c.keys).value;
      && Custodians(w, list.custodians).Some?
      && 1 <= list.threshold && (c.minThreshold.Some? ==> c.minThreshold.value <= list.threshold)
      && (exists sig | sig in SignatureFile(c.keysSig).value ::
            sig.signer == Some(c.anchor.fingerprint) && w.valid(c.keys)(sig, c.anchor))
      && exists signers: set<Fingerprint> :: Quorum(w, c, Custodians(w, list.custodians).value, list.threshold, signers)
  {
    hide PairOk, Custodians, ParseList, SignersOf, SignatureFile;
    var list := CheckKeys(w, c).value;
    var signers := CheckSigners(w, c, list).value;
    var allowed := Custodians(w, list.custodians).value;
    CustodiansDistinct(w, list.custodians);
    SignersAreExactlyTheVerified(SignatureFile(c.keysSig).value, map[c.anchor.fingerprint := c.anchor], w.valid(c.keys),
                                 c.anchor.fingerprint);
    forall f: Fingerprint
      ensures f in signers <==>
        f in allowed && exists sig | sig in SignatureFile(c.tnlSig).value :: sig.signer == Some(f) && w.valid(c.tnl)(sig, allowed[f])
    {
      SignersAreExactlyTheVerified(SignatureFile(c.tnlSig).value, allowed, w.valid(c.tnl), f);
    }
    DistinctPoints(allowed, signers);
    assert Quorum(w, c, allowed, list.threshold, signers);
  }

  /** At least `threshold` allowed keys, as many distinct public points, each vouching. */
  ghost predicate Quorum(w: World, c: Call, allowed: map<Fingerprint, PublicKey>, threshold: int, signers: set<Fingerprint>) {
    && SignatureFile(c.tnlSig).Ok?
    && (forall f | f in signers :: f in allowed &&
          exists sig | sig in SignatureFile(c.tnlSig).value :: sig.signer == Some(f) && w.valid(c.tnl)(sig, allowed[f]))
    && |set f | f in signers && f in allowed :: allowed[f].point| == |signers| >= threshold
  }

  lemma {:induction false} DistinctPoints(allowed: map<Fingerprint, PublicKey>, signers: set<Fingerprint>)
    requires forall f | f in signers :: f in allowed
    requires forall f, g | f in allowed && g in allowed && f != g :: allowed[f].point != allowed[g].point
    ensures |set f | f in signers && f in allowed :: allowed[f].point| == |signers|
    decreases |signers|
  {
    var points := set f | f in signers && f in allowed :: allowed[f].point;
    if signers != {} {
      var f :| f in signers;
      var rest := signers - {f};
      DistinctPoints(allowed, rest);
      var others := set g | g in rest && g in allowed :: allowed[g].point;
      assert points == others + {allowed[f].point};
      assert allowed[f].point !in others;
    } else {
      assert points == {};
    }
  }

  // ----- acceptance, written out ---------------------------------------------------------------------------

  /** What the caller must pass, and the sizes that are read at all. */
  predicate Asked(c: Call) {
    Configured(c) && |c.tnl| <= 256 * 1024 && |c.keys| <= 64 * 1024 && |c.tnlSig| <= 4096 && |c.keysSig| <= 4096
  }

  predicate Configured(c: Call) {
    && c.environment in {"pilot", "preprod", "prod"}
    && (c.lastList.Some? ==> 1 <= c.lastList.value.version < 0x8000_0000_0000_0000)
    && (c.lastKeys.Some? ==> 1 <= c.lastKeys.value.version < 0x8000_0000_0000_0000)
    && 1 <= c.listFloor && 1 <= c.keysFloor
    && (c.maxAge.Some? ==> c.maxAge.value > 0) && (c.minThreshold.Some? ==> c.minThreshold.value >= 1)
  }

  /** The publisher's rollback rule for a version and the digest of its bytes. */
  predicate NotRolledBack(version: int, digest: string, floor: int, last: Option<Accepted>) {
    && 1 <= version < 0x8000_0000_0000_0000 && version >= floor
    && (last.Some? ==> version > last.value.version || (version == last.value.version && digest == last.value.digest))
  }

  /** The key list: signed by the anchor and by nobody badly in the anchor's name, not rolled back, of
      1 to 16 custodians with a threshold among them and not below the caller's minimum. */
  ghost predicate KeyListRules(w: World, c: Call, list: KeyList) {
    && SignedByAnchor(w, c) && w.readKeyList(c.keys) == Some(list)
    && NotRolledBack(list.version, w.sha256(c.keys), c.keysFloor, c.lastKeys)
    && 1 <= list.threshold <= |list.custodians| <= 16
    && (c.minThreshold.Some? ==> list.threshold >= c.minThreshold.value)
  }

  /** A signature in the anchor's name, and every one in its name good. */
  ghost predicate SignedByAnchor(w: World, c: Call) {
    && SignatureFile(c.keysSig).Ok?
    && (exists sig | sig in SignatureFile(c.keysSig).value :: sig.signer == Some(c.anchor.fingerprint))
    && (forall sig | sig in SignatureFile(c.keysSig).value && sig.signer == Some(c.anchor.fingerprint) ::
          w.valid(c.keys)(sig, c.anchor))
  }

  /** The custodians: each listed fingerprint is its key's own, and no fingerprint and no point is
      listed twice. */
  ghost predicate CustodianRules(w: World, listed: seq<Custodian>) {
    && (forall i | 0 <= i < |listed| :: w.readKey(listed[i].armor).Some?
          && w.readKey(listed[i].armor).value.fingerprint == listed[i].fingerprint)
    && (forall i, j | 0 <= i < j < |listed| ::
          listed[i].fingerprint != listed[j].fingerprint
          && w.readKey(listed[i].armor).value.point != w.readKey(listed[j].armor).value.point)
  }

  /** The signers of the node list: every signature naming a custodian is good, and they name at least
      as many custodians as the threshold. */
  ghost predicate QuorumRules(w: World, c: Call, list: KeyList) {
    && SignatureFile(c.tnlSig).Ok?
    && (forall sig, i | sig in SignatureFile(c.tnlSig).value && 0 <= i < |list.custodians|
          && sig.signer == Some(list.custodians[i].fingerprint) ::
          w.readKey(list.custodians[i].armor).Some? && w.valid(c.tnl)(sig, w.readKey(list.custodians[i].armor).value))
    && |set sig, k | sig in SignatureFile(c.tnlSig).value && k in list.custodians && sig.signer == Some(k.fingerprint)
          :: k.fingerprint| >= list.threshold
  }

  /** The node list: its versions, its life of at most 90 days, the instant it is read at, and its
      environments, the caller's among them. */
  ghost predicate ListRules(w: World, c: Call, keysVersion: int, raw: RawList) {
    && w.readList(c.tnl) == Some(raw)
    && NotRolledBack(raw.version, w.sha256(c.tnl), c.listFloor, c.lastList)
    && 1 <= raw.keysVersion < 0x8000_0000_0000_0000 && raw.keysVersion <= keysVersion
    && 0 < raw.expires - raw.issued <= 90 * 24 * 3600
    && c.now < raw.expires && raw.issued - c.now <= 300
    && (c.maxAge.Some? ==> c.now - raw.issued <= c.maxAge.value)
    && c.environment in raw.environments && EnvironmentRules(raw.environments, w.fieldsOk)
  }

  /** Nothing but the three environments, none of them empty, each with origins of its own; and over
      all of them at most 512 nodes, no URL twice. */
  ghost predicate EnvironmentRules(raw: map<string, seq<Listed>>, fieldsOk: Listed -> bool) {
    && (forall env | env in raw ::
          env in {"pilot", "preprod", "prod"} && raw[env] != []
          && forall e | e in raw[env] :: OriginOk(e.url, env) && fieldsOk(e))
    && var urls := Urls(EntriesOf(raw, "pilot")) + Urls(EntriesOf(raw, "preprod")) + Urls(EntriesOf(raw, "prod"));
       |urls| <= 512 && forall i, j :: 0 <= i < j < |urls| ==> urls[i] != urls[j]
  }

  /** What comes back: the caller's environment's entries in list order, and both pairs to persist. */
  ghost predicate Returned(w: World, c: Call, keysVersion: int, raw: RawList, v: Verified) {
    && v.environment == c.environment && v.issued == raw.issued && v.expires == raw.expires
    && v.list == Accepted(raw.version, w.sha256(c.tnl)) && v.keysVersion == raw.keysVersion
    && v.keys == Accepted(keysVersion, w.sha256(c.keys))
    && c.environment in raw.environments && AreNodes(raw.environments[c.environment], v.nodes)
  }

  ghost predicate AreNodes(entries: seq<Listed>, nodes: seq<Node>) {
    && |nodes| == |entries|
    && forall i :: 0 <= i < |nodes| ==>
         && nodes[i].origin == entries[i].url && "https://" + nodes[i].host == entries[i].url
         && nodes[i].country == entries[i].country && nodes[i].organisation == entries[i].organisation
  }

  lemma AnchorExactly(w: World, c: Call)
    requires SignatureFile(c.keysSig).Ok?
    ensures var signers := SignersOf(SignatureFile(c.keysSig).value, map[c.anchor.fingerprint := c.anchor], w.valid(c.keys));
      SignedByAnchor(w, c) <==> signers.Some? && c.anchor.fingerprint in signers.value
  {
    hide SignatureFile;
    var sigs, f := SignatureFile(c.keysSig).value, c.anchor.fingerprint;
    var anchors := map[f := c.anchor];
    assert forall sig :: Names(sig, anchors) <==> sig.signer == Some(f);
    assert AllValid(sigs, anchors, w.valid(c.keys)) <==>
      forall sig | sig in sigs && sig.signer == Some(f) :: w.valid(c.keys)(sig, c.anchor);
    if sig :| sig in sigs && sig.signer == Some(f) {
      assert Names(sig, anchors) && f in Named(sigs, anchors);
    }
    if f in Named(sigs, anchors) {
      var sig :| sig in sigs && Names(sig, anchors) && sig.signer.value == f;
      assert sig.signer == Some(f);
    }
    hide AllValid, Named;
  }

  lemma CheckKeysExactly(w: World, c: Call, list: KeyList)
    ensures CheckKeys(w, c) == Ok(list) <==> KeyListRules(w, c, list)
  {
    hide SignatureFile, SignedByAnchor, SignersOf;
    if SignatureFile(c.keysSig).Ok? {
      AnchorExactly(w, c);
    } else {
      assert !SignedByAnchor(w, c) by { UnreadableUnsigned(w, c); }
    }
  }

  lemma UnreadableUnsigned(w: World, c: Call)
    requires SignatureFile(c.keysSig).Err?
    ensures !SignedByAnchor(w, c)
  {
  }

  /** The keys filed are those listed, each under the fingerprint it is listed with. */
  ghost predicate FiledAs(w: World, listed: seq<Custodian>, allowed: map<Fingerprint, PublicKey>) {
    && (forall i | 0 <= i < |listed| ::
          listed[i].fingerprint in allowed && w.readKey(listed[i].armor) == Some(allowed[listed[i].fingerprint]))
    && (forall f | f in allowed :: exists i | 0 <= i < |listed| :: listed[i].fingerprint == f)
  }

  lemma {:induction false} CustodiansExactly(w: World, listed: seq<Custodian>)
    ensures Custodians(w, listed).Some? <==> CustodianRules(w, listed)
    ensures Custodians(w, listed).Some? ==> FiledAs(w, listed, Custodians(w, listed).value)
    decreases |listed|
  {
    if listed == [] {
      assert CustodianRules(w, listed);
    } else {
      var n := |listed| - 1;
      var front, c := listed[..n], listed[n];
      assert listed == front + [c];
      CustodiansExactly(w, front);
      CustodianRulesNext(w, listed);
      hide CustodianRules, FiledAs;
      if Custodians(w, front).Some? {
        var before := Custodians(w, front).value;
        RepeatsExactly(w, front, before, c);
        hide Points;
        var key := w.readKey(c.armor);
        if key.Some? && key.value.fingerprint == c.fingerprint && c.fingerprint !in before {
          FiledNext(w, front, before, c, before[c.fingerprint := key.value]);
        }
      }
    }
  }

  lemma CustodianRulesNext(w: World, listed: seq<Custodian>)
    requires listed != []
    ensures var n := |listed| - 1; var key := w.readKey(listed[n].armor);
      CustodianRules(w, listed) <==>
        && CustodianRules(w, listed[..n]) && key.Some? && key.value.fingerprint == listed[n].fingerprint
        && forall i | 0 <= i < n :: listed[i].fingerprint != listed[n].fingerprint
             && w.readKey(listed[i].armor).Some? && w.readKey(listed[i].armor).value.point != key.value.point
  {
    var n := |listed| - 1;
    var front := listed[..n];
    assert forall i :: 0 <= i < n ==> front[i] == listed[i];
  }

  lemma RepeatsExactly(w: World, front: seq<Custodian>, before: map<Fingerprint, PublicKey>, c: Custodian)
    requires FiledAs(w, front, before)
    ensures c.fingerprint in before <==> exists i | 0 <= i < |front| :: front[i].fingerprint == c.fingerprint
    ensures forall p :: p in Points(before) <==>
      exists i | 0 <= i < |front| :: w.readKey(front[i].armor).Some? && w.readKey(front[i].armor).value.point == p
  {
    forall p
      ensures p in Points(before) <==>
        exists i | 0 <= i < |front| :: w.readKey(front[i].armor).Some? && w.readKey(front[i].armor).value.point == p
    {
      if p in Points(before) {
        var f :| f in before && before[f].point == p;
        var i :| 0 <= i < |front| && front[i].fingerprint == f;
        assert w.readKey(front[i].armor).value.point == p;
      }
    }
  }

  lemma FiledNext(w: World, front: seq<Custodian>, before: map<Fingerprint, PublicKey>, c: Custodian, allowed: map<Fingerprint, PublicKey>)
    requires FiledAs(w, front, before) && c.fingerprint !in before && w.readKey(c.armor).Some?
    requires allowed == before[c.fingerprint := w.readKey(c.armor).value]
    ensures FiledAs(w, front + [c], allowed)
  {
    var listed := front + [c];
    forall f | f in allowed
      ensures exists i | 0 <= i < |listed| :: listed[i].fingerprint == f
    {
      if f in before {
        var i :| 0 <= i < |front| && front[i].fingerprint == f;
        assert listed[i].fingerprint == f;
      } else {
        assert listed[|front|].fingerprint == f;
      }
    }
  }

  lemma CheckSignersExactly(w: World, c: Call, list: KeyList)
    ensures CheckSigners(w, c, list).Ok? <==> CustodianRules(w, list.custodians) && QuorumRules(w, c, list)
  {
    hide SignatureFile, CustodianRules;
    CustodiansExactly(w, list.custodians);
    if CustodianRules(w, list.custodians) && SignatureFile(c.tnlSig).Ok? {
      NamedExactly(w, list.custodians, Custodians(w, list.custodians).value, SignatureFile(c.tnlSig).value, w.valid(c.tnl));
      hide Custodians, FiledAs;
    }
  }

  lemma NamedExactly(w: World, listed: seq<Custodian>, allowed: map<Fingerprint, PublicKey>, sigs: seq<Signature>, valid: (Signature, PublicKey) -> bool)
    requires FiledAs(w, listed, allowed)
    ensures AllValid(sigs, allowed, valid) <==>
      forall sig, i | sig in sigs && 0 <= i < |listed| && sig.signer == Some(listed[i].fingerprint) ::
        w.readKey(listed[i].armor).Some? && valid(sig, w.readKey(listed[i].armor).value)
    ensures Named(sigs, allowed) == set sig, k | sig in sigs && k in listed && sig.signer == Some(k.fingerprint) :: k.fingerprint
  {
    forall sig | sig in sigs
      ensures Names(sig, allowed) <==> exists i | 0 <= i < |listed| :: sig.signer == Some(listed[i].fingerprint)
    {
      if Names(sig, allowed) {
        var i :| 0 <= i < |listed| && listed[i].fingerprint == sig.signer.value;
        assert sig.signer == Some(listed[i].fingerprint);
      }
    }
    var those := set sig, k | sig in sigs && k in listed && sig.signer == Some(k.fingerprint) :: k.fingerprint;
    forall f | f in Named(sigs, allowed)
      ensures f in those
    {
      var sig :| sig in sigs && Names(sig, allowed) && sig.signer.value == f;
      var i :| 0 <= i < |listed| && sig.signer == Some(listed[i].fingerprint);
      assert listed[i] in listed;
    }
    forall f | f in those
      ensures f in Named(sigs, allowed)
    {
      var sig, k :| sig in sigs && k in listed && sig.signer == Some(k.fingerprint) && k.fingerprint == f;
      var i :| 0 <= i < |listed| && listed[i] == k;
      assert Names(sig, allowed);
    }
  }

  lemma UrlsOfAll(raw: map<string, seq<Listed>>)
    ensures AllUrls(raw, ENVIRONMENTS) ==
      Urls(EntriesOf(raw, "pilot")) + Urls(EntriesOf(raw, "preprod")) + Urls(EntriesOf(raw, "prod"))
  {
    var envs := ENVIRONMENTS;
    assert |envs| == 3 && envs[..3] == envs && envs[..0] == [] && envs[0] == "pilot" && envs[1] == "preprod" && envs[2] == "prod";
    assert AllUrls(raw, envs[..0]) == [];
    hide *;
    AllUrlsNext(raw, envs, 0);
    AllUrlsNext(raw, envs, 1);
    AllUrlsNext(raw, envs, 2);
    assert [] + Urls(EntriesOf(raw, "pilot")) == Urls(EntriesOf(raw, "pilot"));
  }

  lemma EnvironmentsExactly(raw: map<string, seq<Listed>>, fieldsOk: Listed -> bool)
    ensures (forall env | env in raw :: env in ENVIRONMENTS) && EnvironmentsOk(raw, ENVIRONMENTS, fieldsOk)
      <==> EnvironmentRules(raw, fieldsOk)
  {
    UrlsOfAll(raw);
    hide OriginOk, AllUrls, Urls, EntriesOf;
  }

  lemma NodesExactly(entries: seq<Listed>, environment: string, fieldsOk: Listed -> bool, nodes: seq<Node>)
    requires EnvironmentOk(entries, environment, fieldsOk)
    ensures nodes == NodesOf(entries, environment, fieldsOk) <==> AreNodes(entries, nodes)
  {
    var own := NodesOf(entries, environment, fieldsOk);
    forall i | 0 <= i < |entries|
      ensures own[i] == NodeOf(entries[i]) && HTTPS + own[i].host == entries[i].url
    {
      assert entries[i] in entries;
    }
    hide OriginOk;
    if AreNodes(entries, nodes) {
      forall i | 0 <= i < |nodes|
        ensures nodes[i] == own[i]
      {
        assert (HTTPS + nodes[i].host)[|HTTPS|..] == nodes[i].host;
      }
    }
  }

  lemma CheckListExactly(w: World, c: Call, keysVersion: int, v: Verified)
    ensures CheckList(w, c, keysVersion) == Ok(v) <==>
      w.readList(c.tnl).Some? && ListRules(w, c, keysVersion, w.readList(c.tnl).value)
      && Returned(w, c, keysVersion, w.readList(c.tnl).value, v)
  {
    hide EnvironmentRules, AreNodes, EnvironmentsOk, NodesOf;
    if w.readList(c.tnl).Some? {
      var raw := w.readList(c.tnl).value;
      EnvironmentsExactly(raw.environments, w.fieldsOk);
      if EnvironmentRules(raw.environments, w.fieldsOk) && c.environment in raw.environments {
        OneParsed(raw.environments, c.environment, w.fieldsOk);
        NodesExactly(raw.environments[c.environment], c.environment, w.fieldsOk, v.nodes);
      }
      hide Parsed, EnvironmentOk;
    }
  }

  lemma OneParsed(raw: map<string, seq<Listed>>, environment: string, fieldsOk: Listed -> bool)
    requires environment in raw && environment in ENVIRONMENTS && EnvironmentsOk(raw, ENVIRONMENTS, fieldsOk)
    ensures EnvironmentOk(raw[environment], environment, fieldsOk)
    ensures environment in Parsed(raw, ENVIRONMENTS, fieldsOk)
    ensures Parsed(raw, ENVIRONMENTS, fieldsOk)[environment] == NodesOf(raw[environment], environment, fieldsOk)
    ensures forall env | env in Parsed(raw, ENVIRONMENTS, fieldsOk) :: env in raw
  {
    hide AllUrls, NoDuplicates, EnvironmentOk, NodesOf;
  }

  /** An accepted call, exactly: the arguments, the key list, the custodians, the quorum and the node
      list follow the publisher's rules as written above, and what comes back is what the list says. */
  lemma AcceptedExactly(w: World, c: Call, v: Verified)
    ensures Verify(w, c) == Ok(v) <==>
      && Asked(c) && w.readKeyList(c.keys).Some? && w.readList(c.tnl).Some?
      && var list, raw := w.readKeyList(c.keys).value, w.readList(c.tnl).value;
         && KeyListRules(w, c, list) && CustodianRules(w, list.custodians) && QuorumRules(w, c, list)
         && ListRules(w, c, list.version, raw) && Returned(w, c, list.version, raw, v)
  {
    ArgumentsExactly(c);
    hide ConfigOk, SizesOk, Asked, CheckKeys, CheckSigners, CheckList;
    if w.readKeyList(c.keys).Some? {
      var list := w.readKeyList(c.keys).value;
      CheckKeysExactly(w, c, list);
      CheckSignersExactly(w, c, list);
      CheckListExactly(w, c, list.version, v);
    }
    if CheckKeys(w, c).Ok? {
      CheckKeysExactly(w, c, CheckKeys(w, c).value);
      ListRead(w, c, CheckKeys(w, c).value);
    }
    hide KeyListRules, CustodianRules, QuorumRules, ListRules, Returned;
  }

  lemma ListRead(w: World, c: Call, list: KeyList)
    requires KeyListRules(w, c, list)
    ensures w.readKeyList(c.keys) == Some(list)
  {
  }

  lemma ArgumentsExactly(c: Call)
    ensures ConfigOk(c) && SizesOk(c) <==> Asked(c)
  {
  }

  /** Which error a bad argument and a bad key list give: the signature is judged before anything of
      the key list is read, and its shape and versions before the threshold. */
  lemma KeyListErrors(w: World, c: Call)
    ensures Verify(w, c) == Err(ConfigError) <==> !Configured(c)
    ensures Configured(c) && !Asked(c) ==> Verify(w, c) == Err(Malformed)
    ensures Asked(c) && !SignedByAnchor(w, c) ==>
      Verify(w, c) == Err(if SignatureFile(c.keysSig).Err? then Malformed else SignatureError)
    ensures Asked(c) && SignedByAnchor(w, c) ==>
      match w.readKeyList(c.keys)
      case None => Verify(w, c) == Err(Malformed)
      case Some(list) =>
        if !(1 <= list.version < 0x8000_0000_0000_0000) || !(1 <= |list.custodians| <= 16) then Verify(w, c) == Err(Malformed)
        else if !NotRolledBack(list.version, w.sha256(c.keys), c.keysFloor, c.lastKeys) then Verify(w, c) == Err(Rollback)
        else if list.threshold < 1 || list.threshold > |list.custodians| then Verify(w, c) == Err(Malformed)
        else !KeyListRules(w, c, list) ==> Verify(w, c) == Err(ThresholdError)
  {
    hide SignatureFile, SignersOf, SignedByAnchor, CheckSigners, CheckList;
    ArgumentsSplit(c);
    NoLaterConfigError(w, c);
    if SignatureFile(c.keysSig).Ok? {
      AnchorExactly(w, c);
    } else {
      UnreadableUnsigned(w, c);
    }
    hide ConfigOk, SizesOk, Configured, Asked;
  }

  lemma ArgumentsSplit(c: Call)
    ensures ConfigOk(c) <==> Configured(c)
    ensures SizesOk(c) && Configured(c) <==> Asked(c)
  {
  }

  lemma NoLaterConfigError(w: World, c: Call)
    ensures CheckKeys(w, c) != Err(ConfigError)
    ensures forall list :: CheckSigners(w, c, list) != Err(ConfigError)
    ensures forall v :: CheckList(w, c, v) != Err(ConfigError)
  {
    hide SignatureFile, SignersOf, Custodians, ParseList;
  }

  /** Under a good key list: what each failure of the custodians, the signatures and then the node list
      itself raises, the first in this order. */
  lemma NodeListErrors(w: World, c: Call, list: KeyList)
    requires Asked(c) && KeyListRules(w, c, list)
    ensures !CustodianRules(w, list.custodians) ==> Verify(w, c) == Err(Malformed)
    ensures CustodianRules(w, list.custodians) && !QuorumRules(w, c, list) ==>
      Verify(w, c) == Err(if SignatureFile(c.tnlSig).Err? then Malformed
                          else if GoodSignatures(w, c, list) then ThresholdError else SignatureError)
    ensures CustodianRules(w, list.custodians) && QuorumRules(w, c, list) ==>
      match w.readList(c.tnl)
      case None => Verify(w, c) == Err(Malformed)
      case Some(raw) =>
        if !Shaped(w, raw) then Verify(w, c) == Err(Malformed)
        else if !NotRolledBack(raw.version, w.sha256(c.tnl), c.listFloor, c.lastList) || raw.keysVersion > list.version then
          Verify(w, c) == Err(Rollback)
        else if c.now >= raw.expires then Verify(w, c) == Err(Expired)
        else if raw.issued > c.now + 300 then Verify(w, c) == Err(NotYetValid)
        else if c.maxAge.Some? && c.now > raw.issued + c.maxAge.value then Verify(w, c) == Err(Stale)
        else if c.environment !in raw.environments then Verify(w, c) == Err(EnvironmentMissing)
        else Verify(w, c).Ok?
  {
    ArgumentsSplit(c);
    CheckKeysExactly(w, c, list);
    CheckSignersExactly(w, c, list);
    SignerErrors(w, c, list);
    hide SignatureFile, Custodians, CustodianRules, QuorumRules, CheckKeys, CheckSigners, ConfigOk, SizesOk, Asked, Configured, GoodSignatures, KeyListRules;
    hide EnvironmentRules, EnvironmentsOk, Parsed;
    if w.readList(c.tnl).Some? {
      var raw := w.readList(c.tnl).value.environments;
      EnvironmentsExactly(raw, w.fieldsOk);
      if EnvironmentsOk(raw, ENVIRONMENTS, w.fieldsOk) { ParsedKeys(raw, w.fieldsOk); }
    }
  }

  /** Each listed custodian's name stands only on signatures its key verifies. */
  ghost predicate GoodSignatures(w: World, c: Call, list: KeyList)
    requires SignatureFile(c.tnlSig).Ok?
  {
    forall sig, i | sig in SignatureFile(c.tnlSig).value && 0 <= i < |list.custodians|
        && sig.signer == Some(list.custodians[i].fingerprint) ::
      w.readKey(list.custodians[i].armor).Some? && w.valid(c.tnl)(sig, w.readKey(list.custodians[i].armor).value)
  }

  /** A node list document of the profile's shape. */
  ghost predicate Shaped(w: World, raw: RawList) {
    && 1 <= raw.version < 0x8000_0000_0000_0000 && 1 <= raw.keysVersion < 0x8000_0000_0000_0000
    && 0 < raw.expires - raw.issued <= 90 * 24 * 3600
    && raw.environments != map[] && EnvironmentRules(raw.environments, w.fieldsOk)
  }

  lemma SignerErrors(w: World, c: Call, list: KeyList)
    ensures !CustodianRules(w, list.custodians) ==> CheckSigners(w, c, list) == Err(Malformed)
    ensures CustodianRules(w, list.custodians) && !QuorumRules(w, c, list) ==>
      CheckSigners(w, c, list) == Err(if SignatureFile(c.tnlSig).Err? then Malformed
                                      else if GoodSignatures(w, c, list) then ThresholdError else SignatureError)
  {
    hide SignatureFile, CustodianRules;
    CustodiansExactly(w, list.custodians);
    if CustodianRules(w, list.custodians) && SignatureFile(c.tnlSig).Ok? {
      NamedExactly(w, list.custodians, Custodians(w, list.custodians).value, SignatureFile(c.tnlSig).value, w.valid(c.tnl));
      hide Custodians, FiledAs;
    }
  }

  lemma ParsedKeys(raw: map<string, seq<Listed>>, fieldsOk: Listed -> bool)
    requires EnvironmentsOk(raw, ENVIRONMENTS, fieldsOk)
    ensures forall env :: env in Parsed(raw, ENVIRONMENTS, fieldsOk) <==> env in raw && env in ENVIRONMENTS
  {
    hide EnvironmentsOk, NodesOf;
  }

  /** Reordering or repeating the signatures of the node list changes nothing. */
  lemma SignatureOrderIrrelevant(w: World, c: Call, tnlSig: bytes)
    requires SizesOk(c) && SizesOk(c.(tnlSig := tnlSig))
    requires SignatureFile(c.tnlSig).Ok? && SignatureFile(tnlSig).Ok?
    requires forall sig :: sig in SignatureFile(c.tnlSig).value <==> sig in SignatureFile(tnlSig).value
    ensures Verify(w, c.(tnlSig := tnlSig)) == Verify(w, c)
  {
    hide SignatureFile, SignersOf, Custodians, PairOk, ParseList;
    if CheckKeys(w, c).Ok? {
      var list := CheckKeys(w, c).value;
      var custodians := Custodians(w, list.custodians);
      if custodians.Some? {
        OrderAndRepetitionIrrelevant(SignatureFile(c.tnlSig).value, SignatureFile(tnlSig).value,
                                     custodians.value, w.valid(c.tnl));
      }
    }
  }

  /** The accepted nodes are distinct origins of the requested environment, at most 512. */
  lemma AcceptedNodes(w: World, c: Call)
    requires Verify(w, c).Ok?
    ensures var nodes := Verify(w, c).value.nodes;
      && 1 <= |nodes| <= MAX_NODES
      && (forall n | n in nodes :: OriginOk(n.origin, c.environment) && |HTTPS| <= |n.origin| && n.host == n.origin[|HTTPS|..])
      && (forall i, j :: 0 <= i < j < |nodes| ==> nodes[i].origin != nodes[j].origin)
  {
    hide *;
    AcceptedList(w, c);
    var raw := w.readList(c.tnl).value.environments;
    var entries := raw[c.environment];
    NodesOfFacts(entries, c.environment, w.fieldsOk);
    OneEnvironment(raw, c.environment);
    var nodes := NodesOf(entries, c.environment, w.fieldsOk);
    forall i, j | 0 <= i < j < |nodes|
      ensures nodes[i].origin != nodes[j].origin
    {
      DistinctAt(Urls(entries), i, j);
    }
  }

  lemma DistinctAt(s: seq<string>, i: nat, j: nat)
    requires NoDuplicates(s) && i < j < |s|
    ensures s[i] != s[j]
  {
  }

  lemma AcceptedList(w: World, c: Call)
    requires Verify(w, c).Ok?
    ensures w.readList(c.tnl).Some?
    ensures var raw := w.readList(c.tnl).value.environments;
      && c.environment in ENVIRONMENTS && c.environment in raw
      && EnvironmentOk(raw[c.environment], c.environment, w.fieldsOk)
      && NoDuplicates(AllUrls(raw, ENVIRONMENTS)) && |AllUrls(raw, ENVIRONMENTS)| <= MAX_NODES
      && Verify(w, c).value.nodes == NodesOf(raw[c.environment], c.environment, w.fieldsOk)
  {
    hide SignatureFile, SignersOf, Custodians, PairOk, EnvironmentOk, AllUrls, NoDuplicates;
  }

  lemma NodesOfFacts(entries: seq<Listed>, environment: string, fieldsOk: Listed -> bool)
    requires EnvironmentOk(entries, environment, fieldsOk)
    ensures var nodes := NodesOf(entries, environment, fieldsOk);
      && |nodes| == |entries| >= 1
      && forall n | n in nodes ::
           OriginOk(n.origin, environment) && |HTTPS| <= |n.origin| && n.host == n.origin[|HTTPS|..]
  {
    hide OriginOk;
    var nodes := NodesOf(entries, environment, fieldsOk);
    forall n | n in nodes
      ensures OriginOk(n.origin, environment) && |HTTPS| <= |n.origin| && n.host == n.origin[|HTTPS|..]
    {
      var i :| 0 <= i < |nodes| && nodes[i] == n;
      assert entries[i] in entries;
      OriginIsHttps(entries[i].url, environment);
    }
  }

  lemma OneEnvironment(raw: map<string, seq<Listed>>, environment: string)
    requires environment in ENVIRONMENTS && environment in raw
    requires NoDuplicates(AllUrls(raw, ENVIRONMENTS)) && |AllUrls(raw, ENVIRONMENTS)| <= MAX_NODES
    ensures NoDuplicates(Urls(raw[environment])) && |raw[environment]| <= MAX_NODES
  {
    var k :| 0 <= k < |ENVIRONMENTS| && ENVIRONMENTS[k] == environment;
    AllUrlsFront(raw, ENVIRONMENTS, k + 1);
    AllUrlsNext(raw, ENVIRONMENTS, k);
    var all, front := AllUrls(raw, ENVIRONMENTS), AllUrls(raw, ENVIRONMENTS[..k]);
    var urls := Urls(raw[environment]);
    assert front + urls <= all;
    assert forall i :: 0 <= i < |urls| ==> all[|front| + i] == (front + urls)[|front| + i] == urls[i];
    hide AllUrls;
  }

  // ----- runs --------------------------------------------------------------------------------------------------

  /** What a caller persists. */
  datatype Stored = Stored(list: Option<Accepted>, keys: Option<Accepted>)

  function Attempt(w: World, st: Stored, c: Call): Result<Verified, NodeListError> {
    Verify(w, c.(lastList := st.list, lastKeys := st.keys))
  }

  /** The caller stores each accepted pair and nothing else. */
  function After(w: World, st: Stored, c: Call): Stored {
    match Attempt(w, st, c)
    case Ok(v) => Stored(Some(v.list), Some(v.keys))
    case Err(_) => st
  }

  function StoredAfter(w: World, start: Stored, calls: seq<Call>): Stored {
    if calls == [] then start else After(w, StoredAfter(w, start, calls[..|calls| - 1]), calls[|calls| - 1])
  }

  /** Everything accepted, in order. */
  function Acceptances(w: World, start: Stored, calls: seq<Call>): seq<Verified> {
    if calls == [] then []
    else
      var front, c := calls[..|calls| - 1], calls[|calls| - 1];
      match Attempt(w, StoredAfter(w, start, front), c)
      case Ok(v) => Acceptances(w, start, front) + [v]
      case Err(_) => Acceptances(w, start, front)
  }

  /** `later` may follow `earlier`: no lower version, and the same version only for the same bytes. */
  predicate Follows(earlier: Accepted, later: Accepted) {
    && earlier.version <= later.version
    && (earlier.version == later.version ==> earlier.digest == later.digest)
  }

  lemma AcceptedPairs(w: World, c: Call)
    requires Verify(w, c).Ok?
    ensures var v := Verify(w, c).value;
      && PairOk(v.list.version, v.list.digest, c.listFloor, c.lastList)
      && PairOk(v.keys.version, v.keys.digest, c.keysFloor, c.lastKeys)
      && v.list.digest == w.sha256(c.tnl) && v.keys.digest == w.sha256(c.keys)
  {
    hide SignatureFile, SignersOf, Custodians, ParseList;
  }

  ghost predicate AllFollow(vs: seq<Verified>, last: Option<Accepted>, lastKeys: Option<Accepted>) {
    && (vs != [] ==> last.Some? && lastKeys.Some?)
    && (forall i :: 0 <= i < |vs| ==> Follows(vs[i].list, last.value) && Follows(vs[i].keys, lastKeys.value))
  }

  lemma {:induction false} RunFollows(w: World, start: Stored, calls: seq<Call>)
    ensures var vs, st := Acceptances(w, start, calls), StoredAfter(w, start, calls);
      && AllFollow(vs, st.list, st.keys)
      && (forall i, j :: 0 <= i < j < |vs| ==> Follows(vs[i].list, vs[j].list) && Follows(vs[i].keys, vs[j].keys))
    decreases |calls|
  {
    hide Verify;
    if calls != [] {
      var front, c := calls[..|calls| - 1], calls[|calls| - 1];
      RunFollows(w, start, front);
      var st := StoredAfter(w, start, front);
      var r := Attempt(w, st, c);
      if r.Ok? {
        AcceptedPairs(w, c.(lastList := st.list, lastKeys := st.keys));
        var before := Acceptances(w, start, front);
        var vs := before + [r.value];
        assert Acceptances(w, start, calls) == vs;
        forall i | 0 <= i < |vs|
          ensures Follows(vs[i].list, r.value.list) && Follows(vs[i].keys, r.value.keys)
        {
          if i < |before| { assert vs[i] == before[i]; }
        }
      }
    }
  }

  /** Over every run: list and key-list versions never go down, no version is ever accepted with
      two digests, and neither is ever below the floors of the call that accepted it. */
  lemma NoRollback(w: World, start: Stored, calls: seq<Call>)
    ensures var vs := Acceptances(w, start, calls);
      && (forall i, j :: 0 <= i <= j < |vs| ==>
            vs[i].list.version <= vs[j].list.version && vs[i].keys.version <= vs[j].keys.version)
      && (forall i, j :: 0 <= i < |vs| && 0 <= j < |vs| && vs[i].list.version == vs[j].list.version ==>
            vs[i].list.digest == vs[j].list.digest)
      && (forall i, j :: 0 <= i < |vs| && 0 <= j < |vs| && vs[i].keys.version == vs[j].keys.version ==>
            vs[i].keys.digest == vs[j].keys.digest)
  {
    hide Acceptances, StoredAfter;
    RunFollows(w, start, calls);
    var vs := Acceptances(w, start, calls);
    forall i, j | 0 <= i < |vs| && 0 <= j < |vs|
      ensures vs[i].list.version == vs[j].list.version ==> vs[i].list.digest == vs[j].list.digest
      ensures vs[i].keys.version == vs[j].keys.version ==> vs[i].keys.digest == vs[j].keys.digest
    {
      if i < j { assert Follows(vs[i].list, vs[j].list); }
      if j < i { assert Follows(vs[j].list, vs[i].list); }
    }
  }

  lemma NeverBelowFloor(w: World, st: Stored, c: Call)
    requires Attempt(w, st, c).Ok?
    ensures c.listFloor <= Attempt(w, st, c).value.list.version
    ensures c.keysFloor <= Attempt(w, st, c).value.keys.version
  {
    hide Verify;
    AcceptedPairs(w, c.(lastList := st.list, lastKeys := st.keys));
  }
}
