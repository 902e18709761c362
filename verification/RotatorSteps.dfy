/** internal/rotator: the steps of a rotation cycle as the code runs them, on a machine whose every call may fail or crash
    and whose environment acts at any time. */
module RotatorSteps {
  import opened Prelude
  import opened EchConfig
  import Base64
  import PemFile
  import SvcParams
  import opened HttpsRecords
  import opened Protocol
  import opened Machine
  import opened KeyIndex
  import opened Keystore
  import opened Rotation
  import opened ConfigIds

  // ---------------------------------------------------------------- what a cycle keeps

  /** The run so far is one of the protocol, and no published value holds a quote. */
  ghost predicate Sound(tr: seq<Sys>) {
    IsRun(tr) && tr != [] && QuotelessSet(Last(tr).rrset)
  }

  /** The index in memory is the one on disk. */
  ghost predicate InSync(st: Store)
    reads st, st.buf, st.m
  {
    st.Valid() && st.m.s.image.index == Some(Index(st.Entries()))
  }

  /** The current entry's complete file holds c. */
  ghost predicate IsCurrentKey(s: Sys, c: Config) {
    exists e :: Holds(s, e, c) && e.state == Current && e.configId == c.configId
  }

  lemma QuietSound(a: seq<Sys>, b: seq<Sys>)
    requires Quiet(a, b)
    ensures Sound(a) ==> Sound(b)
    ensures AllLoaded(Last(a)) ==> AllLoaded(Last(b))
    ensures a <= b && Last(a).image == Last(b).image && Last(a).rrset == Last(b).rrset
    ensures Last(a).clock <= Last(b).clock && Last(a).ttl == Last(b).ttl
  {
    hide IsRun, QuotelessSet, Visible, AllKeys;
  }

  lemma PrefixTrans(a: seq<Sys>, b: seq<Sys>, c: seq<Sys>)
    requires a <= b && b <= c
    ensures a <= c
  {
    assert forall i | 0 <= i < |a| :: c[i] == b[i] == a[i];
  }

  // ---------------------------------------------------------------- R1 and R2

  /** buildPEMBytes and keystore.Add for a fresh key. */
  method StoreKey(st: Store, c: Config, kp: PemFile.KeyPair) returns (o: Outcome, e: Entry)
    requires st.Valid()
    requires PemFile.Matched(kp) && c.publicKey == kp.publicKey
    requires c.configId as int !in Used(st.Entries())
    modifies st, st.buf, st.m
    ensures st.Valid() && (st.buf == old(st.buf) || fresh(st.buf)) && old(st.m.trace) <= st.m.trace
    ensures o == Done ==>
              && ListEncodable(List([c], []))
              && e.configId == c.configId && e.name.id == e.configId && e.state == Current && e.dropAt == 0
              && e.inDnsSince == 0 && old(st.m.s.clock) <= e.createdAt <= st.m.s.clock
              && st.Entries() == Demote(old(st.Entries())) + [e]
              && st.m.s.image == Placed(old(st.m.s.image), KeyFile(e.name), Pem(KeyBlocks(c, kp))).(index := Some(Index(st.Entries())))
              && FileKey(st.m.s.image, e.name) == Some(c) && PemFile.FittingKey(KeyBlocks(c, kp)) == Some(c)
    ensures o == Failed ==>
              if ListEncodable(List([c], [])) then
                FailedAdd(old(st.m.s.image), KeyBlocks(c, kp), e, st.m.s.image, st.m.failedRemoves > old(st.m.failedRemoves))
              else st.m.s.image == old(st.m.s.image) && st.m.failedRemoves == old(st.m.failedRemoves)
    ensures o == Failed && e.name !in old(st.m.s.image).files ==>
              (st.m.s.image == old(st.m.s.image) <==> st.m.failedRemoves == old(st.m.failedRemoves))
    ensures st.m.failedRemoves >= old(st.m.failedRemoves) && e.configId == c.configId
    ensures st.m.s.rrset == old(st.m.s.rrset) && old(st.m.s.clock) <= st.m.s.clock
    ensures Sound(old(st.m.trace)) && old(st.Entries()) == Keys(old(st.m.s)) ==> Sound(st.m.trace)
    ensures st.m.calm && ListEncodable(List([c], [])) && old(st.m.s.clock) > 0 ==> o == Done
  {
    hide IsRun, ListEncodable, PemFile.KeyOf, PemFile.FittingKey, AddTrace, QuotelessSet;
    ghost var keys := st.Entries();
    e := Entry(Name(0, c.configId, None), c.configId, Current, 0, 0, 0);
    var bytes := MarshalList(List([c], []));
    if bytes.Err? { return Failed, e; }
    PemFile.StoredKeyReadsBack(kp, c);
    var pem := PemFile.Marshal(kp, bytes.value);
    if pem.Err? { return Failed, e; }
    FreshId(keys, c.configId);
    o, e := st.Add(pem.value, c.configId);
    assert old(st.m.trace) <= st.m.trace by { AddTracePrefix(old(st.m.trace), st.m.trace, keys, pem.value, e); }
    PlacedFiles(old(st.m.s.image), e.name, Pem(pem.value));
  }

  /** The blocks of a fresh key's file. */
  ghost function KeyBlocks(c: Config, kp: PemFile.KeyPair): seq<PemFile.Block>
    requires ListEncodable(List([c], []))
  {
    [PemFile.Block(PemFile.PRIVATE_KEY, kp.privateKey), PemFile.Block(PemFile.ECHCONFIG, ListBytes(List([c], [])))]
  }

  lemma AddTracePrefix(a: seq<Sys>, b: seq<Sys>, keys: seq<Entry>, pem: seq<PemFile.Block>, e: Entry)
    requires AddTrace(a, b, keys, pem, e)
    ensures a <= b
  {
  }

  lemma FreshId(keys: seq<Entry>, id: byte)
    requires id as int !in Used(keys)
    ensures forall o | o in keys :: o.configId != id
  {
    assert forall o | o in keys :: o.configId as int in Used(keys);
  }

  // ---------------------------------------------------------------- R4 and R6: publishing

  /** buildOverlapList: the new config first, then every previous one, newest first, read back from its file. */
  method BuildOverlapList(st: Store, c: Config) returns (o: Outcome, bytes: seq<byte>, marked: seq<byte>)
    requires st.Valid()
    modifies st.m
    ensures st.Valid() && Quiet(old(st.m.trace), st.m.trace)
    ensures var list := Newest(PreviousOf(st.Entries()));
            var configs := FileConfigs(st.m.s.image, list);
            && (o == Done ==>
                  && configs.Some? && ListEncodable(List([c] + configs.value, []))
                  && bytes == ListBytes(List([c] + configs.value, []))
                  && marked == [c.configId] + Ids(list))
            && (st.m.calm && configs.Some? && ListEncodable(List([c] + configs.value, [])) ==> o == Done)
  {
    hide Quiet, ListEncodable, ListBytes, Newest, DecodeList, ReadKey, FileConfigs, PreviousOf;
    ghost var start := st.m.trace;
    ghost var image := st.m.s.image;
    QuietRefl(start);
    bytes, marked := [], [c.configId];
    var configs := [c];
    var listed := st.List();
    PreviousOfNewest(st.Entries());
    OverlapStarts(image, listed, c);
    for i := 0 to |listed|
      invariant st.Valid() && Quiet(start, st.m.trace) && st.m.s.image == image
      invariant Overlap(image, listed, i, c, configs, marked)
    {
      var e := listed[i];
      OverlapStep(image, listed, i, c, configs, marked);
      if e.state == Previous {
        MissingFileFails(image, listed, i);
        ghost var before := st.m.trace;
        var config;
        o, config := ReadConfig(st, e);
        QuietTrans(start, before, st.m.trace);
        if o != Done { return; }
        configs := configs + [config];
        marked := marked + [e.configId];
      }
    }
    assert listed[..|listed|] == listed;
    assert configs == [c] + configs[1..];
    var list := MarshalList(List(configs, []));
    if list.Err? { return Failed, [], marked; }
    return Done, list.value, marked;
  }

  /** What the loop has collected before entry i. */
  ghost predicate Overlap(image: Image, listed: seq<Entry>, i: nat, c: Config, configs: seq<Config>, marked: seq<byte>) {
    && i <= |listed| && configs != [] && configs[0] == c
    && FileConfigs(image, PreviousOf(listed[..i])) == Some(configs[1..])
    && marked == [c.configId] + Ids(PreviousOf(listed[..i]))
  }

  lemma OverlapStarts(image: Image, listed: seq<Entry>, c: Config)
    ensures Overlap(image, listed, 0, c, [c], [c.configId])
  {
    assert listed[..0] == [] && [c][1..] == [];
  }

  lemma OverlapStep(image: Image, listed: seq<Entry>, i: nat, c: Config, configs: seq<Config>, marked: seq<byte>)
    requires Overlap(image, listed, i, c, configs, marked) && i < |listed|
    ensures listed[i].state != Previous ==> Overlap(image, listed, i + 1, c, configs, marked)
    ensures listed[i].state == Previous && ReadKey(image, listed[i].name).Some? ==>
              Overlap(image, listed, i + 1, c, configs + [ReadKey(image, listed[i].name).value], marked + [listed[i].configId])
  {
    hide ReadKey, FileConfigs;
    var e := listed[i];
    assert listed[..i + 1] == listed[..i] + [e];
    PreviousSnoc(listed[..i], e);
    if e.state != Previous {
      assert PreviousOf(listed[..i + 1]) == PreviousOf(listed[..i]);
    } else if ReadKey(image, e.name).Some? {
      FileConfigsSnoc(image, PreviousOf(listed[..i]), e);
      IdsSnoc(PreviousOf(listed[..i]), e);
      var config := ReadKey(image, e.name).value;
      assert (configs + [config])[1..] == configs[1..] + [config];
    }
  }

  /** Read one previous key's config back from its file. */
  method ReadConfig(st: Store, e: Entry) returns (o: Outcome, config: Config)
    requires st.Valid()
    modifies st.m
    ensures st.Valid() && Quiet(old(st.m.trace), st.m.trace) && st.m.s.image == old(st.m.s.image)
    ensures o == Done ==> ReadKey(st.m.s.image, e.name) == Some(config)
    ensures st.m.calm && ReadKey(st.m.s.image, e.name).Some? ==> o == Done
  {
    hide Quiet, PemFile.KeyOf;
    config := FRESH;
    var data;
    o, data := st.Read(e);
    QuietImages(old(st.m.trace), st.m.trace);
    if o != Done { return; }
    var first := FirstConfig(data);
    if first.None? { return Failed, config; }
    config := first.value;
  }

  /** Parse a key file and decode its list. */
  method FirstConfig(data: Content) returns (c: Option<Config>)
    ensures c == if data.Pem? then PemFile.KeyOf(data.blocks) else None
  {
    if !data.Pem? { return None; }
    var f := PemFile.Parse(data.blocks);
    if f.Err? { return None; }
    var l := UnmarshalList(f.value.configList);
    if l.Err? || l.value.configs == [] { return None; }
    return Some(l.value.configs[0]);
  }

  lemma FileConfigsSnoc(image: Image, list: seq<Entry>, e: Entry)
    ensures FileConfigs(image, list + [e])
         == if FileConfigs(image, list).Some? && ReadKey(image, e.name).Some?
            then Some(FileConfigs(image, list).value + [ReadKey(image, e.name).value]) else None
  {
    hide ReadKey;
    assert (list + [e])[..|list|] == list;
  }

  /** If the files of all previous entries can be read, so can this one's. */
  lemma MissingFileFails(image: Image, listed: seq<Entry>, i: nat)
    requires i < |listed| && listed[i].state == Previous
    ensures FileConfigs(image, PreviousOf(listed)).Some? ==> ReadKey(image, listed[i].name).Some?
    ensures ReadKey(image, listed[i].name).Some? ==> listed[i].name in image.files
  {
    hide PemFile.KeyOf;
    FileConfigsPointwise(image, PreviousOf(listed));
    PreviousMembers(listed);
  }

  /** publishDNS: read the record set, patch every record's ech, write the set back. */
  method PublishDNS(m: Host, bytes: seq<byte>) returns (o: Outcome)
    requires m.Valid()
    modifies m
    ensures m.Valid() && old(m.trace) <= m.trace
    ensures var texts := PatchedAll(old(m.s.rrset), Base64.Encode(bytes));
            && (o == Done ==> texts.Ok? && m.s.rrset == texts.value)
            && (forall r | r in m.s.rrset :: r in old(m.s.rrset) || (texts.Ok? && r in texts.value))
            && (m.definite && o == Failed ==> m.s.rrset == old(m.s.rrset))
            && (m.calm && old(m.s.rrset) != [] && texts.Ok? ==> o == Done)
            && (IsRun(old(m.trace)) && (texts.Ok? ==> Backed(old(m.s), texts.value)) ==> IsRun(m.trace))
    ensures m.s.image == old(m.s.image) && m.s.ttl == old(m.s.ttl) && old(m.s.clock) <= m.s.clock
    ensures AllLoaded(old(m.s)) ==> AllLoaded(m.s)
  {
    hide Quiet, Puts, IsRun, Patched, Backed, AllLoaded;
    ghost var start := m.trace;
    var b64 := Base64.Encode(bytes);
    var missing, current;
    o, missing, current := m.GetRRset();
    QuietSound(start, m.trace);
    QuietKeepsRun(start, m.trace);
    if o != Done { return; }
    ghost var got := m.trace;
    var patched := PatchSet(current, b64);
    if patched.Err? { return Failed; }
    var out := patched.value;
    if IsRun(start) && Backed(Last(start), out) { BackedLater(start, got, out); }
    o := m.PutRRset(out);
    PutsFacts(got, m.trace, out, o);
    PrefixTrans(start, got, m.trace);
  }

  /** publishDNS's loop: every record in turn, in order. */
  method PatchSet(current: seq<string>, b64: string) returns (out: Result<seq<string>>)
    ensures out == PatchedAll(current, b64)
  {
    hide Patched;
    var texts: seq<string> := [];
    PatchedAllEmpty(b64);
    for i := 0 to |current|
      invariant PatchedAll(current[..i], b64) == Ok(texts)
    {
      assert current[..i + 1][..i] == current[..i];
      PatchedAllPointwise(current, b64);
      var text := PatchOne(current[i], b64);
      if text.Err? { return Err; }
      texts := texts + [text.value];
    }
    assert current[..|current|] == current;
    return Ok(texts);
  }

  /** The body of publishDNS's loop. */
  method PatchOne(raw: string, b64: string) returns (text: Result<string>)
    ensures text == Patched(raw, b64)
  {
    var rec := SvcParams.Parse(raw);
    if rec.Err? { return Err; }
    if rec.value.IsAliasMode() {
      var alias := SvcParams.Format(rec.value);
      return Ok(alias);
    }
    var patched := SvcParams.SetECH(rec.value, b64);
    var printed := SvcParams.Format(patched.value);
    return Ok(printed);
  }

  lemma PatchedAllEmpty(b64: string)
    ensures PatchedAll([], b64) == Ok([])
  {
  }

  lemma QuietKeepsRun(a: seq<Sys>, b: seq<Sys>)
    requires Quiet(a, b)
    ensures IsRun(a) ==> IsRun(b)
  {
  }

  lemma BackedLater(a: seq<Sys>, b: seq<Sys>, texts: seq<string>)
    requires Quiet(a, b) && Backed(Last(a), texts)
    ensures Backed(Last(b), texts)
  {
    hide IsRun, Visible, AllKeys, Advertised, FileKey;
    forall r, c | r in texts && c in Advertised(r) ensures exists e :: Holds(Last(b), e, c) && e.state != Grace {
      var e :| Holds(Last(a), e, c) && e.state != Grace;
      assert Holds(Last(b), e, c);
    }
  }

  lemma PutsFacts(a: seq<Sys>, b: seq<Sys>, texts: seq<string>, o: Outcome)
    requires Puts(a, b, texts, o)
    ensures a <= b && Last(b).image == Last(a).image && Last(b).ttl == Last(a).ttl && Last(a).clock <= Last(b).clock
    ensures o == Done ==> Last(b).rrset == texts
    ensures forall r | r in Last(b).rrset :: r in Last(a).rrset || r in texts
    ensures AllLoaded(Last(a)) ==> AllLoaded(Last(b))
    ensures IsRun(a) && Backed(Last(a), texts) ==> IsRun(b)
  {
    hide IsRun, Backed, AllLoaded, Visible;
  }

  // ---------------------------------------------------------------- R4 and R7: index updates

  /** Only the index and the environment changed. */
  ghost predicate IndexOnly(a: seq<Sys>, b: seq<Sys>) {
    && a != [] && b != [] && a <= b
    && Last(b).image.files == Last(a).image.files && Last(b).rrset == Last(a).rrset && Last(b).ttl == Last(a).ttl
    && Last(a).clock <= Last(b).clock
    && (AllLoaded(Last(a)) ==> AllLoaded(Last(b)))
  }

  lemma IndexOnlyTrans(a: seq<Sys>, b: seq<Sys>, c: seq<Sys>)
    requires IndexOnly(a, b) && IndexOnly(b, c)
    ensures IndexOnly(a, c)
  {
    hide AllLoaded;
    PrefixTrans(a, b, c);
  }

  lemma QuietIndexOnly(a: seq<Sys>, b: seq<Sys>)
    requires Quiet(a, b)
    ensures IndexOnly(a, b) && (Sound(a) ==> Sound(b))
  {
    hide IsRun, AllLoaded, Visible, QuotelessSet;
  }

  lemma MovesIndexOnly(a: seq<Sys>, b: seq<Sys>, keys: seq<Entry>, o: Outcome)
    requires a != [] && Moves(a, b, Last(a).image.(index := Some(Index(keys))), o)
    ensures IndexOnly(a, b)
    ensures o == Done ==> Last(b).image.index == Some(Index(keys))
    ensures Sound(a) && StablyPermitted(Last(a), Last(a).image.(index := Some(Index(keys)))) ==> Sound(b)
  {
    hide IsRun, AllLoaded, Visible, QuotelessSet, StablyPermitted;
  }

  lemma MarkOneIsMark(keys: seq<Entry>, id: byte, now: int) returns (k: nat, t: int)
    ensures MarkOne(keys, id, now) == Changed(keys, Mark(k, t))
  {
    k := Find(keys, id);
    t := 0;
    if k < |keys| {
      var e := keys[k];
      t := Updated(e, e.state, now, e.dropAt).inDnsSince;
      assert Updated(e, e.state, now, e.dropAt) == e.(inDnsSince := t);
    }
  }

  /** markInDNS: every listed key's publication time is set to one clock reading. */
  method MarkInDNS(st: Store, ids: seq<byte>) returns (o: Outcome, now: int)
    requires InSync(st)
    modifies st.buf, st.m
    ensures st.Valid() && IndexOnly(old(st.m.trace), st.m.trace)
    ensures o == Done ==> InSync(st) && st.Entries() == MarkIds(old(st.Entries()), ids, now)
    ensures o == Done ==> Marked(old(st.Entries()), ids, now, st.Entries())
    ensures old(st.m.s.clock) <= now <= st.m.s.clock
    ensures Sound(old(st.m.trace)) ==> Sound(st.m.trace)
    ensures st.m.calm && (forall id | id in ids :: Find(old(st.Entries()), id) < st.n) ==> o == Done
  {
    hide Quiet, IsRun, IndexOnly, QuotelessSet, Moves, MarkOne, Marked, StablyPermitted;
    ghost var t0, keys := st.m.trace, st.Entries();
    now := st.m.Now();
    QuietIndexOnly(t0, st.m.trace);
    QuietImages(t0, st.m.trace);
    o := Done;
    for i := 0 to |ids|
      invariant o == Done && InSync(st) && st.Entries() == MarkIds(keys, ids[..i], now)
      invariant IndexOnly(t0, st.m.trace) && (Sound(t0) ==> Sound(st.m.trace))
      invariant Last(t0).clock <= now <= st.m.s.clock
    {
      ghost var t1, before := st.m.trace, st.Entries();
      var e := st.Lookup(ids[i]);
      MarkedFind(keys, ids[..i], now, ids[i]);
      if e.None? { return Failed, now; }
      assert ids[..i + 1][..i] == ids[..i];
      MarkLawful(st.m.s, before, ids[i], now);
      o := st.SetState(ids[i], e.value.state, now, e.value.dropAt);
      assert st.Entries() == MarkOne(before, ids[i], now) by { MarkOneDef(before, ids[i], now); }
      MovesIndexOnly(t1, st.m.trace, st.Entries(), o);
      IndexOnlyTrans(t0, t1, st.m.trace);
      if o != Done { assert ids[i] in ids; IndexOnlyClock(t1, st.m.trace); return; }
      IndexOnlyClock(t1, st.m.trace);
    }
    assert ids[..|ids|] == ids;
    MarkIdsMarks(keys, ids, now);
  }

  lemma IndexOnlyClock(a: seq<Sys>, b: seq<Sys>)
    requires IndexOnly(a, b)
    ensures Last(a).clock <= Last(b).clock
  {
  }

  lemma MarkOneDef(keys: seq<Entry>, id: byte, now: int)
    requires Find(keys, id) < |keys|
    ensures MarkOne(keys, id, now)
         == WithState(keys, id, keys[Find(keys, id)].state, now, keys[Find(keys, id)].dropAt)
  {
  }

  lemma MarkedFind(keys: seq<Entry>, ids: seq<byte>, now: int, id: byte)
    ensures Find(MarkIds(keys, ids, now), id) == Find(keys, id) && |MarkIds(keys, ids, now)| == |keys|
  {
    var r := MarkIds(keys, ids, now);
    MarkIdsOnlyMarks(keys, ids, now);
    FindIs(r, id, Find(keys, id));
  }

  lemma MarkLawful(s: Sys, keys: seq<Entry>, id: byte, now: int)
    requires s.image.index == Some(Index(keys))
    ensures StablyPermitted(s, s.image.(index := Some(Index(MarkOne(keys, id, now)))))
  {
    hide MarkOne, StablyPermitted;
    var k, t := MarkOneIsMark(keys, id, now);
    MarkPermitted(s, k, t);
  }

  // ---------------------------------------------------------------- R7

  ghost predicate OnlyVisible(s: Sys, c: Config) {
    forall x | x != c :: !Visible(s, x)
  }

  /** c alone is published, and no cached copy of any other config outlives d. */
  ghost predicate Fading(s: Sys, c: Config, d: int) {
    && OnlyVisible(s, c)
    && forall k | k in s.cached && k.config != c :: k.expiry <= d
  }

  lemma FadingLater(a: seq<Sys>, b: seq<Sys>, img: Image, o: Outcome, c: Config, d: int)
    requires Moves(a, b, img, o) && Fading(Last(a), c, d)
    ensures Fading(Last(b), c, d)
  {
    hide IsRun, AllLoaded, StablyPermitted, Visible;
    SameVisible(Last(a), Last(b));
    SameVisible(Last(a), Last(a).(image := img));
  }

  /** The timing argument: a deadline one grace period after a clock reading outlives every cached copy, if the grace
      period covers the time to live. */
  lemma FadingNow(tr: seq<Sys>, c: Config, grace: nat)
    requires IsRun(tr) && tr != [] && Last(tr).ttl <= grace
    requires OnlyVisible(Last(tr), c)
    ensures Fading(Last(tr), c, Last(tr).clock + grace)
  {
    hide IsRun, Visible, FileKey, DistinctIds, OneCurrent, FilesPresent, PublishedServed;
    RunKeepsInv(tr, |tr| - 1);
  }

  /** A previous entry's file holds another config than the current entry's. */
  lemma PreviousIsOther(s: Sys, k: nat, c: Config)
    requires Inv(s) && IsCurrentKey(s, c) && k < |Keys(s)| && Keys(s)[k].state == Previous
    ensures FileKey(s.image, Keys(s)[k].name).Some? && FileKey(s.image, Keys(s)[k].name).value != c
  {
    hide FileKey, PublishedServed, CachedServed, OneCurrent;
    var keys := Keys(s);
    assert keys[k] in keys;
    var x :| Holds(s, x, c) && x.state == Current && x.configId == c.configId;
    var j :| 0 <= j < |keys| && keys[j] == x;
  }

  /** Retiring the listed entry e, first seen in list, is permitted. */
  lemma RetireLawful(tr: seq<Sys>, keys: seq<Entry>, e: Entry, c: Config, d: int)
    requires IsRun(tr) && tr != [] && Last(tr).image.index == Some(Index(keys))
    requires IsCurrentKey(Last(tr), c) && Fading(Last(tr), c, d)
    requires e.state == Previous && Find(keys, e.configId) < |keys|
    requires keys[Find(keys, e.configId)] == e || keys[Find(keys, e.configId)] == Retired(e, d)
    ensures var after := Index(WithState(keys, e.configId, Grace, e.inDnsSince, d));
            StablyPermitted(Last(tr), Last(tr).image.(index := Some(after)))
  {
    hide IsRun, Visible, FileKey, StablyPermitted, Inv, IsCurrentKey;
    var s := Last(tr);
    var k := Find(keys, e.configId);
    if keys[k] == e {
      RunKeepsInv(tr, |tr| - 1);
      PreviousIsOther(s, k, c);
      assert WithState(keys, e.configId, Grace, e.inDnsSince, d) == Changed(keys, Retire(k, d));
      RetirePermitted(s, k, d);
    } else {
      assert WithState(keys, e.configId, Grace, e.inDnsSince, d) == keys;
      SamePermitted(s);
    }
  }

  lemma CurrentKeyKept(s: Sys, t: Sys, keys: seq<Entry>, e: Entry, c: Config, d: int)
    requires IsCurrentKey(s, c) && s.image.index == Some(Index(keys)) && t.image.files == s.image.files
    requires e.state == Previous && Find(keys, e.configId) < |keys| && keys[Find(keys, e.configId)].state != Current
    requires t.image.index == Some(Index(WithState(keys, e.configId, Grace, e.inDnsSince, d)))
    ensures IsCurrentKey(t, c)
  {
    hide FileKey;
    SameFiles(s.image, t.image);
    var x :| Holds(s, x, c) && x.state == Current && x.configId == c.configId;
    var j :| 0 <= j < |keys| && keys[j] == x;
    assert Keys(t)[j] == x;
    assert x in Keys(t);
    assert Holds(t, x, c);
  }

  /** R7: every listed previous entry enters grace, with one deadline a grace period after one clock reading. */
  method RetirePrevious(st: Store, grace: nat, ghost c: Config) returns (o: Outcome, d: int)
    requires InSync(st)
    modifies st.buf, st.m
    ensures st.Valid() && IndexOnly(old(st.m.trace), st.m.trace)
    ensures o == Done && DistinctIds(old(st.Entries())) ==>
              InSync(st) && st.Entries() == RetireAll(old(st.Entries()), d)
    ensures o == Done ==> InSync(st)
    ensures old(st.m.s.clock) <= d - grace <= st.m.s.clock
    ensures (Sound(old(st.m.trace)) && old(st.m.s).ttl <= grace && IsCurrentKey(old(st.m.s), c)
             && OnlyVisible(old(st.m.s), c)) ==> Sound(st.m.trace)
    ensures st.m.calm && DistinctIds(old(st.Entries())) ==> o == Done
  {
    hide Quiet, IsRun, IndexOnly, QuotelessSet, Moves, StablyPermitted, Visible, DistinctIds, IsCurrentKey, RetireList;
    ghost var t0, keys, s0 := st.m.trace, st.Entries(), st.m.s;
    ghost var lawful := Sound(t0) && s0.ttl <= grace && IsCurrentKey(s0, c) && OnlyVisible(s0, c);
    var now := st.m.Now();
    d := now + grace;
    QuietIndexOnly(t0, st.m.trace);
    QuietImages(t0, st.m.trace);
    var listed := st.List();
    if lawful { RetireStarts(t0, st.m.trace, c, grace); SoundDistinctKeys(t0); }
    RetireNothing(keys, listed, d);
    o := Done;
    for i := 0 to |listed|
      invariant o == Done && InSync(st) && IndexOnly(t0, st.m.trace) && Last(t0).clock <= d - grace <= st.m.s.clock
      invariant DistinctIds(keys) ==> st.Entries() == RetireList(keys, listed[..i], d)
      invariant lawful ==> Sound(st.m.trace) && IsCurrentKey(st.m.s, c) && Fading(st.m.s, c, d)
    {
      var e := listed[i];
      RetireListStep(keys, listed, i, d);
      if e.state == Previous {
        ghost var t1 := st.m.trace;
        o := RetireOne(st, keys, listed, i, e, d, c, lawful);
        IndexOnlyTrans(t0, t1, st.m.trace);
        IndexOnlyClock(t1, st.m.trace);
        if o != Done { return; }
      }
    }
    assert listed[..|listed|] == listed;
    if DistinctIds(keys) { RetireListIsRetireAll(keys, d); }
  }

  lemma RetireStarts(t0: seq<Sys>, t1: seq<Sys>, c: Config, grace: nat)
    requires Quiet(t0, t1) && Sound(t0) && Last(t0).ttl <= grace && IsCurrentKey(Last(t0), c)
    requires OnlyVisible(Last(t0), c)
    ensures Sound(t1) && IsCurrentKey(Last(t1), c) && Fading(Last(t1), c, Last(t1).clock + grace)
  {
    hide IsRun, Visible, FileKey, QuotelessSet, AllLoaded;
    QuietSound(t0, t1);
    SameVisible(Last(t0), Last(t1));
    FadingNow(t1, c, grace);
    var e :| Holds(Last(t0), e, c) && e.state == Current && e.configId == c.configId;
    assert Holds(Last(t1), e, c);
  }

  lemma SoundDistinctKeys(tr: seq<Sys>)
    requires Sound(tr)
    ensures DistinctIds(Keys(Last(tr)))
  {
    hide IsRun, QuotelessSet, DistinctIds;
    RunDistinct(tr);
  }

  lemma RetireNothing(keys: seq<Entry>, listed: seq<Entry>, d: int)
    ensures RetireList(keys, listed[..0], d) == keys
  {
  }

  lemma RetireListStep(keys: seq<Entry>, listed: seq<Entry>, i: nat, d: int)
    requires i < |listed|
    ensures var e := listed[i];
            RetireList(keys, listed[..i + 1], d)
            == if e.state == Previous then WithState(RetireList(keys, listed[..i], d), e.configId, Grace, e.inDnsSince, d)
               else RetireList(keys, listed[..i], d)
  {
    assert listed[..i + 1][..i] == listed[..i];
  }

  lemma RetireFind(keys: seq<Entry>, listed: seq<Entry>, i: nat, d: int)
    requires DistinctIds(keys) && listed == Newest(keys) && i < |listed|
    ensures var ks, e := RetireList(keys, listed[..i], d), listed[i];
            var k := Find(ks, e.configId);
            k < |ks| && (ks[k] == e || ks[k] == Retired(e, d))
  {
    hide Retired, RetireList, Newest;
    var e := listed[i];
    NewestMembers(keys);
    RetireListPointwise(keys, listed[..i], d);
    var ks := RetireList(keys, listed[..i], d);
    assert e in listed;
    var j :| 0 <= j < |keys| && keys[j] == e;
    forall x | 0 <= x < |keys| ensures ks[x].configId == keys[x].configId { RetiredId(keys[x], d); }
    assert forall x | 0 <= x < j :: keys[x].configId != keys[j].configId;
    FindIs(ks, e.configId, j);
  }

  lemma RetiredId(e: Entry, d: int)
    ensures Retired(e, d).configId == e.configId
  {
  }

  /** One round of R7's loop. */
  method RetireOne(st: Store, ghost keys: seq<Entry>, ghost listed: seq<Entry>, ghost i: nat, e: Entry, d: int,
                   ghost c: Config, ghost lawful: bool)
    returns (o: Outcome)
    requires InSync(st) && listed == Newest(keys) && i < |listed| && e == listed[i] && e.state == Previous
    requires DistinctIds(keys) ==> st.Entries() == RetireList(keys, listed[..i], d)
    requires lawful ==> DistinctIds(keys) && Sound(st.m.trace) && IsCurrentKey(st.m.s, c) && Fading(st.m.s, c, d)
    modifies st.buf, st.m
    ensures st.Valid() && IndexOnly(old(st.m.trace), st.m.trace)
    ensures o == Done ==> InSync(st)
    ensures o == Done && DistinctIds(keys) ==> st.Entries() == RetireList(keys, listed[..i + 1], d)
    ensures lawful ==> Sound(st.m.trace) && Fading(st.m.s, c, d)
    ensures lawful && o == Done ==> IsCurrentKey(st.m.s, c)
    ensures st.m.calm && DistinctIds(keys) ==> o == Done
  {
    hide IsRun, IndexOnly, QuotelessSet, Moves, StablyPermitted, Visible, DistinctIds, IsCurrentKey, RetireList, Fading;
    hide Newest;
    ghost var t1, before, s1 := st.m.trace, st.Entries(), st.m.s;
    RetireListStep(keys, listed, i, d);
    if DistinctIds(keys) { RetireFind(keys, listed, i, d); }
    if lawful { RetireLawful(t1, before, e, c, d); }
    o := st.SetState(e.configId, Grace, e.inDnsSince, d);
    MovesIndexOnly(t1, st.m.trace, st.Entries(), o);
    IndexOnlyFiles(t1, st.m.trace);
    if lawful {
      FadingLater(t1, st.m.trace, s1.image.(index := Some(Index(st.Entries()))), o, c, d);
      if o == Done { CurrentKeyKept(s1, st.m.s, before, e, c, d); }
    }
  }

  lemma IndexOnlyFiles(a: seq<Sys>, b: seq<Sys>)
    requires IndexOnly(a, b)
    ensures Last(b).image.files == Last(a).image.files
  {
  }
}
