/** internal/verify: the independent reader that compares the published list with the key store. */
module Verify {
  import opened Prelude
  import opened EchConfig
  import Base64
  import Svcb
  import SvcParams
  import opened HttpsRecords
  import opened Protocol
  import opened Machine
  import opened KeyIndex
  import opened Keystore
  import opened RotatorSteps
  import opened Rotator
  import opened Convergence
  import opened Rotation
  import ConfigIds
  import PemFile

  datatype Severity = Fine | Warn

  datatype Code =
    | RRPresent | RRMissing | RRMultiple
    | EchParamMissing | EchBadBase64 | EchListBadFormat | EchListEntryCount
    | KeyInDnsAndStore | KeyInDnsNotStore | KeyInStoreNotDns | KeyExpectedNotInDns

  /** One observation; of its text only the config_id is kept. */
  datatype Finding = Finding(severity: Severity, code: Code, id: Option<byte>)

  class Report {
    var findings: seq<Finding>

    constructor ()
      ensures findings == []
    {
      findings := [];
    }

    method Add(severity: Severity, code: Code, id: Option<byte>)
      modifies this
      ensures findings == old(findings) + [Finding(severity, code, id)]
    {
      findings := findings + [Finding(severity, code, id)];
    }

    method Warns() returns (w: bool)
      ensures w <==> HasWarning(findings)
    {
      for i := 0 to |findings|
        invariant forall j | 0 <= j < i :: findings[j].severity != Warn
      {
        if findings[i].severity == Warn { return true; }
      }
      return false;
    }
  }

  ghost predicate HasWarning(findings: seq<Finding>) {
    exists f | f in findings :: f.severity == Warn
  }

  // ---------------------------------------------------------------- what is published

  datatype Reading = Unparsable | NoEch | BadBase64 | BadList | Decoded(list: List)

  /** What the first record says. */
  function Read(text: string): Reading {
    match Svcb.ParseText(text)
    case Err => Unparsable
    case Ok(r) =>
      match SvcParams.GetEch(r)
      case None => NoEch
      case Some(b64) =>
        if b64 == "" then NoEch else
        match Base64.Decode(b64)
        case None => BadBase64
        case Some(bytes) =>
          match DecodeList(bytes)
          case Err => BadList
          case Ok(l) => Decoded(l)
  }

  ghost function PublishedIds(configs: seq<Config>): set<byte> {
    set c | c in configs :: c.configId
  }

  /** The entry that the map ends up with for each config_id: the last listed one. */
  function ById(listed: seq<Entry>): map<byte, Entry> {
    if listed == [] then map[]
    else var e := listed[|listed| - 1]; ById(listed[..|listed| - 1])[e.configId := e]
  }

  // ---------------------------------------------------------------- what is found

  function Header(texts: seq<string>): seq<Finding> {
    [Finding(Fine, RRPresent, None)] + (if |texts| > 1 then [Finding(Warn, RRMultiple, None)] else [])
  }

  function OfPublished(id: byte, stored: bool): Finding {
    if stored then Finding(Fine, KeyInDnsAndStore, Some(id)) else Finding(Warn, KeyInDnsNotStore, Some(id))
  }

  function OfStored(e: Entry): Finding {
    if e.state == Grace then Finding(Fine, KeyInStoreNotDns, Some(e.configId))
    else Finding(Warn, KeyExpectedNotInDns, Some(e.configId))
  }

  /** One finding for each published id in ids, and for each stored one in rest: nothing else, nothing twice. */
  ghost predicate Covered(fs: seq<Finding>, store: map<byte, Entry>, ids: set<byte>, rest: set<byte>) {
    && rest <= store.Keys
    && |fs| == |ids| + |rest|
    && (forall id | id in ids :: OfPublished(id, id in store) in fs)
    && (forall id | id in rest :: OfStored(store[id]) in fs)
    && (forall f | f in fs :: (exists id | id in ids :: f == OfPublished(id, id in store))
                              || exists id | id in rest :: f == OfStored(store[id]))
  }

  /** The findings about a non-empty record set. */
  ghost predicate Reconciled(texts: seq<string>, store: map<byte, Entry>, findings: seq<Finding>) {
    && texts != []
    && match Read(texts[0])
       case Unparsable => findings == Header(texts) + [Finding(Warn, RRPresent, None)]
       case NoEch => findings == Header(texts) + [Finding(Warn, EchParamMissing, None)]
       case BadBase64 => findings == Header(texts) + [Finding(Warn, EchBadBase64, None)]
       case BadList => findings == Header(texts) + [Finding(Warn, EchListBadFormat, None)]
       case Decoded(list) =>
         var head := Header(texts) + [Finding(Fine, EchListEntryCount, None)];
         var ids := PublishedIds(list.configs);
         head <= findings && Covered(findings[|head|..], store, ids, store.Keys - ids)
  }

  // ---------------------------------------------------------------- Verify

  lemma CoverPublished(fs: seq<Finding>, store: map<byte, Entry>, ids: set<byte>, id: byte)
    requires Covered(fs, store, ids, {}) && id !in ids
    ensures Covered(fs + [OfPublished(id, id in store)], store, ids + {id}, {})
  {
    hide OfPublished, OfStored;
    var f := OfPublished(id, id in store);
    assert (fs + [f])[|fs|] == f;
    forall g | g in fs + [f] ensures exists x | x in ids + {id} :: g == OfPublished(x, x in store) {
      if g in fs {
        var x :| x in ids && g == OfPublished(x, x in store);
        assert x in ids + {id};
      } else {
        assert id in ids + {id};
      }
    }
  }

  lemma CoverStored(fs: seq<Finding>, store: map<byte, Entry>, ids: set<byte>, rest: set<byte>, id: byte)
    requires Covered(fs, store, ids, rest) && id in store && id !in rest
    ensures Covered(fs + [OfStored(store[id])], store, ids, rest + {id})
  {
    hide OfPublished, OfStored;
    var f := OfStored(store[id]);
    assert (fs + [f])[|fs|] == f;
    forall g | g in fs + [f]
      ensures (exists x | x in ids :: g == OfPublished(x, x in store)) || exists x | x in rest + {id} :: g == OfStored(store[x])
    {
      if g in fs {
        if !(exists x | x in ids :: g == OfPublished(x, x in store)) {
          var x :| x in rest && g == OfStored(store[x]);
          assert x in rest + {id};
        }
      } else {
        assert id in rest + {id};
      }
    }
  }

  /** Step 4a, in any order: every published config_id. */
  method ReportPublished(rep: Report, ids: set<byte>, store: map<byte, Entry>) returns (ghost fs: seq<Finding>)
    modifies rep
    ensures rep.findings == old(rep.findings) + fs && Covered(fs, store, ids, {})
  {
    hide Covered;
    ghost var head := rep.findings;
    fs := [];
    CoverNothing(store);
    var todo := ids;
    assert ids - todo == {};
    while todo != {}
      invariant todo <= ids && rep.findings == head + fs && Covered(fs, store, ids - todo, {})
      decreases |todo|
    {
      var id := Choose(todo);
      CoverPublished(fs, store, ids - todo, id);
      if id in store {
        rep.Add(Fine, KeyInDnsAndStore, Some(id));
      } else {
        rep.Add(Warn, KeyInDnsNotStore, Some(id));
      }
      fs := fs + [OfPublished(id, id in store)];
      assert ids - todo + {id} == ids - (todo - {id});
      todo := todo - {id};
    }
    assert ids - {} == ids;
  }

  /** The body of step 4b's loop. */
  method ReportUnpublished(rep: Report, e: Entry)
    modifies rep
    ensures rep.findings == old(rep.findings) + [OfStored(e)]
  {
    match e.state {
      case Current => rep.Add(Warn, KeyExpectedNotInDns, Some(e.configId));
      case Previous => rep.Add(Warn, KeyExpectedNotInDns, Some(e.configId));
      case Grace => rep.Add(Fine, KeyInStoreNotDns, Some(e.configId));
    }
  }

  /** Step 4b, in any order: every stored config_id that is not published. */
  method ReportStored(rep: Report, ids: set<byte>, store: map<byte, Entry>, ghost start: seq<Finding>)
    returns (ghost fs: seq<Finding>)
    requires (forall id | id in store :: store[id].configId == id) && Covered(start, store, ids, {})
    modifies rep
    ensures rep.findings == old(rep.findings) + fs && Covered(start + fs, store, ids, store.Keys - ids)
  {
    hide Covered, OfStored;
    ghost var head := rep.findings;
    fs := [];
    assert start + [] == start;
    var left := store.Keys;
    ghost var seen: set<byte> := {};
    while left != {}
      invariant left <= store.Keys && seen == store.Keys - left - ids
      invariant rep.findings == head + fs && Covered(start + fs, store, ids, seen)
      decreases |left|
    {
      var id := Choose(left);
      var e := store[id];
      if id !in ids {
        CoverStored(start + fs, store, ids, seen, id);
        ReportUnpublished(rep, e);
        Associates(start, fs, [OfStored(e)]);
        fs := fs + [OfStored(e)];
        seen := seen + {id};
      }
      left := left - {id};
    }
    assert seen == store.Keys - ids;
  }

  lemma CoverNothing(store: map<byte, Entry>)
    ensures Covered([], store, {}, {})
  {
  }

  method CollectIds(configs: seq<Config>) returns (ids: set<byte>)
    ensures ids == PublishedIds(configs)
  {
    ids := {};
    for i := 0 to |configs|
      invariant ids == PublishedIds(configs[..i])
    {
      assert configs[..i + 1] == configs[..i] + [configs[i]];
      assert PublishedIds(configs[..i + 1]) == PublishedIds(configs[..i]) + {configs[i].configId} by {
        assert forall c | c in configs[..i + 1] :: c in configs[..i] || c == configs[i];
        assert forall c | c in configs[..i] :: c in configs[..i + 1];
        assert configs[i] in configs[..i + 1];
      }
      ids := ids + {configs[i].configId};
    }
    assert configs[..|configs|] == configs;
  }

  method CollectStore(listed: seq<Entry>) returns (store: map<byte, Entry>)
    ensures store == ById(listed) && forall id | id in store :: store[id].configId == id
  {
    store := map[];
    for i := 0 to |listed|
      invariant store == ById(listed[..i]) && forall id | id in store :: store[id].configId == id
    {
      assert listed[..i + 1][..i] == listed[..i];
      store := store[listed[i].configId := listed[i]];
    }
    assert listed[..|listed|] == listed;
  }

  /** Steps 2 and 3: parse the record, decode its ech value, decode the list. */
  method ReadFirst(text: string) returns (r: Reading)
    ensures r == Read(text)
  {
    hide Base64.Decode, DecodeList, Svcb.ParseText, SvcParams.GetEch;
    var rec := SvcParams.Parse(text);
    if rec.Err? { return Unparsable; }
    var ech := SvcParams.GetEch(rec.value);
    if ech.None? || ech.value == "" { return NoEch; }
    var bytes := Base64.Decode(ech.value);
    if bytes.None? { return BadBase64; }
    var list := UnmarshalList(bytes.value);
    if list.Err? { return BadList; }
    return Decoded(list.value);
  }

  /** Step 4: compare the published list with the store. */
  method Compare(rep: Report, list: List, st: Store)
    requires st.Valid()
    modifies rep
    ensures var store, ids := ById(Newest(st.Entries())), PublishedIds(list.configs);
            && old(rep.findings) <= rep.findings
            && Covered(rep.findings[|old(rep.findings)|..], store, ids, store.Keys - ids)
  {
    hide Newest, ById, Covered, PublishedIds;
    ghost var head := rep.findings;
    var ids := CollectIds(list.configs);
    var listed := st.List();
    var store := CollectStore(listed);
    ghost var fs := ReportPublished(rep, ids, store);
    ghost var gs := ReportStored(rep, ids, store, fs);
    Associates(head, fs, gs);
    assert rep.findings[|head|..] == fs + gs;
  }

  lemma AllFindingsMean(texts: seq<string>, keys: seq<Entry>, findings: seq<Finding>)
    ensures DistinctIds(keys) && Reconciled(texts, ById(Newest(keys)), findings) ==>
              texts != [] && forall f :: f in findings <==> Expected(texts, keys, f)
  {
    hide Expected, Reconciled, DistinctIds, ById, Newest;
    if DistinctIds(keys) && Reconciled(texts, ById(Newest(keys)), findings) {
      ReconciledSome(texts, ById(Newest(keys)), findings);
      forall f ensures f in findings <==> Expected(texts, keys, f) { FindingsMean(texts, keys, findings, f); }
    }
  }

  lemma ReconciledSome(texts: seq<string>, store: map<byte, Entry>, findings: seq<Finding>)
    requires Reconciled(texts, store, findings)
    ensures texts != []
  {
  }

  /** Verify: never an error, every problem is a finding in the report. */
  method Verify(st: Store) returns (o: Outcome, rep: Report)
    requires st.Valid()
    modifies st.m
    ensures st.Valid() && Quiet(old(st.m.trace), st.m.trace) && fresh(rep) && o != Failed
    ensures o == Done ==>
              || rep.findings == [Finding(Warn, RRMissing, None)]
              || Reconciled(st.m.s.rrset, ById(Newest(st.Entries())), rep.findings)
    ensures o == Done && DistinctIds(st.Entries()) ==>
              || rep.findings == [Finding(Warn, RRMissing, None)]
              || (st.m.s.rrset != [] && forall f :: f in rep.findings <==> Expected(st.m.s.rrset, st.Entries(), f))
    ensures st.m.calm && old(st.m.s.rrset) != [] ==> o == Done && rep.findings != [Finding(Warn, RRMissing, None)]
  {
    hide Quiet, Newest, ById, Covered, PublishedIds, Read, Expected, DistinctIds;
    hide IsRun, Sound, AllLoaded;
    rep := new Report();
    var missing, rdata;
    o, missing, rdata := st.m.GetRRset();
    QuietSound(old(st.m.trace), st.m.trace);
    if o == Crashed { return; }
    if o == Failed || rdata == [] {
      rep.Add(Warn, RRMissing, None);
      return Done, rep;
    }
    rep.Add(Fine, RRPresent, None);
    if |rdata| > 1 { rep.Add(Warn, RRMultiple, None); }
    assert rep.findings == Header(rdata);
    var reading := ReadFirst(rdata[0]);
    match reading {
      case Unparsable => rep.Add(Warn, RRPresent, None);
      case NoEch => rep.Add(Warn, EchParamMissing, None);
      case BadBase64 => rep.Add(Warn, EchBadBase64, None);
      case BadList => rep.Add(Warn, EchListBadFormat, None);
      case Decoded(list) =>
        rep.Add(Fine, EchListEntryCount, None);
        Compare(rep, list, st);
    }
    AllFindingsMean(rdata, st.Entries(), rep.findings);
  }

  // ---------------------------------------------------------------- what the report means

  /** Every published config_id is stored, and every stored one outside grace is published. */
  ghost predicate Agree(configs: seq<Config>, keys: seq<Entry>) {
    && (forall c | c in configs :: exists e | e in keys :: e.configId == c.configId)
    && (forall e | e in keys && e.state != Grace :: exists c | c in configs :: c.configId == e.configId)
  }

  lemma {:induction false} ByIdMembers(listed: seq<Entry>)
    ensures forall id :: id in ById(listed) <==> exists e | e in listed :: e.configId == id
    ensures forall id | id in ById(listed) :: ById(listed)[id] in listed && ById(listed)[id].configId == id
  {
    if listed != [] {
      var n := |listed| - 1;
      ByIdMembers(listed[..n]);
      assert listed == listed[..n] + [listed[n]];
      assert listed[n] in listed;
    }
  }

  lemma ByIdOfDistinct(keys: seq<Entry>)
    requires DistinctIds(keys)
    ensures Indexes(ById(Newest(keys)), keys)
  {
    hide Newest, ById;
    ByIdMembers(Newest(keys));
    NewestMembers(keys);
    var store := ById(Newest(keys));
    forall e | e in keys ensures e.configId in store && store[e.configId] == e {
      assert e in Newest(keys);
      var f := store[e.configId];
      var i :| 0 <= i < |keys| && keys[i] == e;
      var j :| 0 <= j < |keys| && keys[j] == f;
    }
  }

  lemma CoveredWarns(fs: seq<Finding>, store: map<byte, Entry>, ids: set<byte>, rest: set<byte>)
    requires Covered(fs, store, ids, rest)
    ensures HasWarning(fs) <==>
              (exists id | id in ids :: id !in store) || exists id | id in rest :: store[id].state != Grace
  {
    if HasWarning(fs) {
      var f :| f in fs && f.severity == Warn;
    }
    if id :| id in ids && id !in store {
      assert OfPublished(id, id in store) in fs;
    }
    if id :| id in rest && store[id].state != Grace {
      assert OfStored(store[id]) in fs;
    }
  }

  lemma WarningSplits(a: seq<Finding>, fs: seq<Finding>)
    requires a <= fs
    ensures HasWarning(fs) <==> HasWarning(a) || HasWarning(fs[|a|..])
  {
    assert fs == a + fs[|a|..];
  }

  lemma HeaderWarns(texts: seq<string>, f: Finding)
    ensures HasWarning(Header(texts) + [f]) <==> |texts| > 1 || f.severity == Warn
  {
    var h := Header(texts) + [f];
    assert h[|h| - 1] == f;
    if |texts| > 1 { assert h[1] == Finding(Warn, RRMultiple, None); }
  }

  /** Warns is false exactly when there is one record, it decodes to a list, and the list and the store agree. */
  lemma NoWarningIffAgree(texts: seq<string>, keys: seq<Entry>, findings: seq<Finding>)
    requires DistinctIds(keys) && Reconciled(texts, ById(Newest(keys)), findings)
    ensures !HasWarning(findings) <==>
              |texts| == 1 && Read(texts[0]).Decoded? && Agree(Read(texts[0]).list.configs, keys)
  {
    hide Read, ById, Newest, DistinctIds, Covered, HasWarning, Header;
    match Read(texts[0])
    case Unparsable => HeaderWarns(texts, Finding(Warn, RRPresent, None));
    case NoEch => HeaderWarns(texts, Finding(Warn, EchParamMissing, None));
    case BadBase64 => HeaderWarns(texts, Finding(Warn, EchBadBase64, None));
    case BadList => HeaderWarns(texts, Finding(Warn, EchListBadFormat, None));
    case Decoded(list) =>
      var store := ById(Newest(keys));
      var head := Header(texts) + [Finding(Fine, EchListEntryCount, None)];
      var ids := PublishedIds(list.configs);
      HeaderWarns(texts, Finding(Fine, EchListEntryCount, None));
      WarningSplits(head, findings);
      CoveredWarns(findings[|head|..], store, ids, store.Keys - ids);
      AgreeById(list.configs, keys);
  }

  /** The map holds each entry under its id, and nothing else. */
  ghost predicate Indexes(store: map<byte, Entry>, keys: seq<Entry>) {
    && (forall e | e in keys :: e.configId in store && store[e.configId] == e)
    && (forall id | id in store :: store[id] in keys && store[id].configId == id)
  }

  ghost predicate Differ(store: map<byte, Entry>, ids: set<byte>) {
    (exists id | id in ids :: id !in store) || exists id | id in store.Keys - ids :: store[id].state != Grace
  }

  lemma AgreeingDoNotDiffer(configs: seq<Config>, keys: seq<Entry>, store: map<byte, Entry>)
    requires Indexes(store, keys) && Agree(configs, keys)
    ensures !Differ(store, PublishedIds(configs))
  {
    var ids := PublishedIds(configs);
    forall id | id in ids ensures id in store {
      var c :| c in configs && c.configId == id;
      var e :| e in keys && e.configId == c.configId;
    }
    forall id | id in store && store[id].state != Grace ensures id in ids {
      var e := store[id];
      var c :| c in configs && c.configId == e.configId;
      assert c.configId in ids;
    }
  }

  lemma NotDifferingAgree(configs: seq<Config>, keys: seq<Entry>, store: map<byte, Entry>)
    requires Indexes(store, keys) && !Differ(store, PublishedIds(configs))
    ensures Agree(configs, keys)
  {
    var ids := PublishedIds(configs);
    forall c | c in configs ensures exists e | e in keys :: e.configId == c.configId {
      assert c.configId in ids;
      var e := store[c.configId];
      assert e in keys && e.configId == c.configId;
    }
    forall e | e in keys && e.state != Grace ensures exists c | c in configs :: c.configId == e.configId {
      assert e.configId in store && store[e.configId] == e;
      assert e.configId in store.Keys - ids || e.configId in ids;
      var c :| c in configs && c.configId == e.configId;
    }
  }

  lemma AgreeById(configs: seq<Config>, keys: seq<Entry>)
    requires DistinctIds(keys)
    ensures Agree(configs, keys) <==> !Differ(ById(Newest(keys)), PublishedIds(configs))
  {
    hide ById, Newest, DistinctIds, Indexes, Agree, Differ, PublishedIds;
    ByIdOfDistinct(keys);
    if Agree(configs, keys) {
      AgreeingDoNotDiffer(configs, keys, ById(Newest(keys)));
    } else if !Differ(ById(Newest(keys)), PublishedIds(configs)) {
      NotDifferingAgree(configs, keys, ById(Newest(keys)));
    }
  }

  // ---------------------------------------------------------------- the report, finding by finding

  /** The ech value of the first record, if it parses and has one that is not empty. */
  ghost predicate HasEch(texts: seq<string>, b64: string) {
    && texts != [] && Svcb.ParseText(texts[0]).Ok? && b64 != ""
    && SvcParams.GetEch(Svcb.ParseText(texts[0]).value) == Some(b64)
  }

  /** The list that this value decodes to. */
  ghost predicate Lists(texts: seq<string>, list: List) {
    exists b64 :: HasEch(texts, b64) && Base64.Decode(b64).Some? && DecodeList(Base64.Decode(b64).value) == Ok(list)
  }

  ghost predicate Publishes(texts: seq<string>, id: byte) {
    exists list, c :: Lists(texts, list) && c in list.configs && c.configId == id
  }

  /** Which findings belong in the report about a non-empty record set and this index. */
  ghost predicate Expected(texts: seq<string>, keys: seq<Entry>, f: Finding)
    requires texts != []
  {
    match f.code
    case RRPresent => f.id == None && (f.severity == Fine || Svcb.ParseText(texts[0]).Err?)
    case RRMissing => false
    case RRMultiple => f.severity == Warn && f.id == None && |texts| > 1
    case EchParamMissing =>
      f.severity == Warn && f.id == None && Svcb.ParseText(texts[0]).Ok? && forall b64 :: !HasEch(texts, b64)
    case EchBadBase64 =>
      f.severity == Warn && f.id == None && exists b64 :: HasEch(texts, b64) && Base64.Decode(b64).None?
    case EchListBadFormat =>
      f.severity == Warn && f.id == None
      && exists b64 :: HasEch(texts, b64) && Base64.Decode(b64).Some? && DecodeList(Base64.Decode(b64).value).Err?
    case EchListEntryCount => f.severity == Fine && f.id == None && exists list :: Lists(texts, list)
    case KeyInDnsAndStore =>
      f.severity == Fine && f.id.Some? && Publishes(texts, f.id.value) && exists e | e in keys :: e.configId == f.id.value
    case KeyInDnsNotStore =>
      f.severity == Warn && f.id.Some? && Publishes(texts, f.id.value) && forall e | e in keys :: e.configId != f.id.value
    case KeyInStoreNotDns =>
      f.severity == Fine && f.id.Some? && (exists list :: Lists(texts, list)) && !Publishes(texts, f.id.value)
      && exists e | e in keys :: e.configId == f.id.value && e.state == Grace
    case KeyExpectedNotInDns =>
      f.severity == Warn && f.id.Some? && (exists list :: Lists(texts, list)) && !Publishes(texts, f.id.value)
      && exists e | e in keys :: e.configId == f.id.value && e.state != Grace
  }

  /** What a reading says about the text. */
  lemma ReadingMeans(texts: seq<string>)
    requires texts != []
    ensures Read(texts[0]).Unparsable? <==> Svcb.ParseText(texts[0]).Err?
    ensures Read(texts[0]).NoEch? <==> Svcb.ParseText(texts[0]).Ok? && forall b64 :: !HasEch(texts, b64)
    ensures Read(texts[0]).BadBase64? <==> exists b64 :: HasEch(texts, b64) && Base64.Decode(b64).None?
    ensures Read(texts[0]).BadList? <==>
              exists b64 :: HasEch(texts, b64) && Base64.Decode(b64).Some? && DecodeList(Base64.Decode(b64).value).Err?
    ensures forall list :: Lists(texts, list) <==> Read(texts[0]) == Decoded(list)
  {
    hide Svcb.ParseText, SvcParams.GetEch, Base64.Decode, DecodeList;
    if Svcb.ParseText(texts[0]).Ok? && SvcParams.GetEch(Svcb.ParseText(texts[0]).value).Some? {
      var b64 := SvcParams.GetEch(Svcb.ParseText(texts[0]).value).value;
      assert b64 != "" ==> HasEch(texts, b64);
    }
  }

  lemma PublishesMeans(texts: seq<string>, list: List, id: byte)
    requires texts != [] && Read(texts[0]) == Decoded(list)
    ensures Publishes(texts, id) <==> id in PublishedIds(list.configs)
    ensures Lists(texts, list)
  {
    hide Read, Lists;
    ReadingMeans(texts);
    if id in PublishedIds(list.configs) {
      var c :| c in list.configs && c.configId == id;
      assert Lists(texts, list);
    }
  }

  lemma InHeader(texts: seq<string>, last: Finding, f: Finding)
    ensures f in Header(texts) + [last] <==>
              f == Finding(Fine, RRPresent, None) || (|texts| > 1 && f == Finding(Warn, RRMultiple, None)) || f == last
  {
    var h := Header(texts) + [last];
    assert h[0] == Finding(Fine, RRPresent, None) && h[|h| - 1] == last;
    if |texts| > 1 { assert h[1] == Finding(Warn, RRMultiple, None); }
  }

  lemma StoredIs(keys: seq<Entry>, store: map<byte, Entry>, id: byte)
    requires Indexes(store, keys)
    ensures id in store <==> exists e | e in keys :: e.configId == id
    ensures id in store ==>
              ((exists e | e in keys :: e.configId == id && e.state == Grace) <==> store[id].state == Grace)
              && ((exists e | e in keys :: e.configId == id && e.state != Grace) <==> store[id].state != Grace)
  {
  }

  /** The findings behind the header. */
  ghost predicate OfKeys(store: map<byte, Entry>, ids: set<byte>, f: Finding) {
    f.id.Some? && match f.code
      case KeyInDnsAndStore => f.severity == Fine && f.id.value in ids && f.id.value in store
      case KeyInDnsNotStore => f.severity == Warn && f.id.value in ids && f.id.value !in store
      case KeyInStoreNotDns =>
        f.severity == Fine && f.id.value !in ids && f.id.value in store && store[f.id.value].state == Grace
      case KeyExpectedNotInDns =>
        f.severity == Warn && f.id.value !in ids && f.id.value in store && store[f.id.value].state != Grace
      case _ => false
  }

  lemma OfKeysIs(store: map<byte, Entry>, ids: set<byte>, f: Finding)
    requires forall id | id in store :: store[id].configId == id
    ensures OfKeys(store, ids, f) <==>
              && f.id.Some?
              && ((f.id.value in ids && f == OfPublished(f.id.value, f.id.value in store))
                  || (f.id.value in store.Keys - ids && f == OfStored(store[f.id.value])))
  {
  }

  lemma InCovered(fs: seq<Finding>, store: map<byte, Entry>, ids: set<byte>, f: Finding)
    requires Covered(fs, store, ids, store.Keys - ids) && forall id | id in store :: store[id].configId == id
    ensures f in fs <==> OfKeys(store, ids, f)
  {
    hide OfKeys, OfPublished, OfStored;
    OfKeysIs(store, ids, f);
    if f in fs {
      if id :| id in ids && f == OfPublished(id, id in store) {
        FindingId(id, id in store);
      } else {
        var id :| id in store.Keys - ids && f == OfStored(store[id]);
        StoredId(store[id]);
      }
    }
  }

  lemma FindingId(id: byte, stored: bool)
    ensures OfPublished(id, stored).id == Some(id)
  {
  }

  lemma StoredId(e: Entry)
    ensures OfStored(e).id == Some(e.configId)
  {
  }

  lemma IndexesIds(store: map<byte, Entry>, keys: seq<Entry>)
    requires Indexes(store, keys)
    ensures forall id | id in store :: store[id].configId == id
  {
  }

  /** The report about a record set that decodes. */
  lemma DecodedMeans(texts: seq<string>, keys: seq<Entry>, store: map<byte, Entry>, list: List, findings: seq<Finding>, f: Finding)
    requires texts != [] && Read(texts[0]) == Decoded(list) && Indexes(store, keys)
    requires Reconciled(texts, store, findings)
    ensures f in findings <==> Expected(texts, keys, f)
  {
    hide Read, Lists, HasEch, Publishes, Indexes, PublishedIds, Covered, Header, Svcb.ParseText, Base64.Decode, DecodeList;
    var head := Header(texts) + [Finding(Fine, EchListEntryCount, None)];
    var ids := PublishedIds(list.configs);
    assert findings == head + findings[|head|..];
    InHeader(texts, Finding(Fine, EchListEntryCount, None), f);
    IndexesIds(store, keys);
    InCovered(findings[|head|..], store, ids, f);
    ReadingMeans(texts);
    PublishesMeans(texts, list, 0);
    if f.id.Some? {
      PublishesMeans(texts, list, f.id.value);
      StoredIs(keys, store, f.id.value);
    }
  }

  /** Exactly which findings a report holds. */
  lemma FindingsMean(texts: seq<string>, keys: seq<Entry>, findings: seq<Finding>, f: Finding)
    requires DistinctIds(keys) && Reconciled(texts, ById(Newest(keys)), findings)
    ensures texts != [] && (f in findings <==> Expected(texts, keys, f))
  {
    hide Read, ById, Newest, DistinctIds, Indexes, Covered, Header, HasEch, Lists;
    hide Svcb.ParseText, Base64.Decode, DecodeList;
    ByIdOfDistinct(keys);
    ReadingMeans(texts);
    match Read(texts[0])
    case Unparsable => InHeader(texts, Finding(Warn, RRPresent, None), f);
    case NoEch => InHeader(texts, Finding(Warn, EchParamMissing, None), f);
    case BadBase64 => InHeader(texts, Finding(Warn, EchBadBase64, None), f);
    case BadList => InHeader(texts, Finding(Warn, EchListBadFormat, None), f);
    case Decoded(list) => DecodedMeans(texts, keys, ById(Newest(keys)), list, findings, f);
  }

  // ---------------------------------------------------------------- the rotator and the verifier agree

  lemma ReadCarrying(text: string, rec: Svcb.Record, c: Config)
    requires ListEncodable(List([c], [])) && Svcb.ParseText(text) == Ok(Carrying(rec, c))
    requires rec.IsAliasMode() ==> rec.params == []
    ensures Read(text) == if rec.IsAliasMode() then NoEch else Decoded(List([c], []))
  {
    hide Svcb.ParseText, ListEncodable, Base64.Decode, Base64.Encode, DecodeList, SvcParams.WithParam;
    hide SvcParams.ParamAt;
    var bytes := ListBytes(List([c], []));
    var b64 := Base64.Encode(bytes);
    Base64.RoundTrip(bytes);
    ListRoundTrip(List([c], []));
    if rec.IsAliasMode() {
      NoEchWithoutParams(rec);
    } else {
      SvcParams.SetEchFrame(rec.(params := SvcParams.EscapeParamsTimes(rec.params, 2)), b64);
      assert bytes != [] by { PemFile.ListBytesNonempty(List([c], [])); }
    }
  }

  /** After any completed cycle, Verify reports no warning exactly when there is one record and it is in ServiceMode. */
  lemma RotatedIsVerified(run: seq<Sys>, s1: Sys, cfg: Settings, r: Cycle, findings: seq<Finding>)
    requires Sound(run) && Completed(Last(run), Keys(Last(run)), s1, cfg, r)
    requires Reconciled(s1.rrset, ById(Newest(Keys(s1))), findings)
    ensures !HasWarning(findings) <==> |s1.rrset| == 1 && IsService(s1.rrset[0])
  {
    hide IsRun, Reconciled, Completed, QuotelessText, Svcb.ParseText, ById, Newest, HasWarning, ListEncodable, Carrying;
    hide FileKey, DistinctIds, Read;
    var s0 := Last(run);
    CycleDelivers(run, s1, cfg, r);
    CompletedDistinct(run, s1, cfg, r);
    NoWarningIffAgree(s1.rrset, Keys(s1), findings);
    if |s1.rrset| == 1 {
      var rec := Svcb.ParseText(s0.rrset[0]).value;
      assert s0.rrset[0] in s0.rrset;
      AliasHasNoParams(s0.rrset[0]);
      ReadCarrying(s1.rrset[0], rec, r.config);
      CarryingMode(rec, r.config);
      var e :| e in Keys(s1) && e.state == Current && Holds(s1, e, r.config);
      SameId(s0, Keys(s0), s1, cfg, r);
      assert Agree([r.config], Keys(s1));
    }
  }

  lemma CarryingMode(rec: Svcb.Record, c: Config)
    requires ListEncodable(List([c], []))
    ensures Carrying(rec, c).IsAliasMode() <==> rec.IsAliasMode()
  {
    hide ListEncodable, ListBytes, Base64.Encode;
  }

  lemma SameId(s0: Sys, keys: seq<Entry>, s1: Sys, cfg: Settings, r: Cycle)
    requires Completed(s0, keys, s1, cfg, r)
    ensures r.config.configId == r.entry.configId
  {
    hide PreviousConfigs, Republished, CycleEntries, BeforePrune;
  }

  lemma CompletedDistinct(run: seq<Sys>, s1: Sys, cfg: Settings, r: Cycle)
    requires Sound(run) && Completed(Last(run), Keys(Last(run)), s1, cfg, r)
    ensures DistinctIds(Keys(s1))
  {
    hide IsRun, QuotelessSet, DistinctIds, BeforePrune, MarkIds, PreviousConfigs, Republished, ConfigIds.Used, NewConfig;
    hide PemFile.FittingKey;
    var keys := Keys(Last(run));
    SoundDistinctKeys(run);
    FreshInIds(keys, r.entry.configId);
    BeforePruneDistinct(keys, r);
    KeepDistinct(BeforePrune(keys, r), r.prunedAt);
    CycleIsKept(keys, r);
  }
}
