/** internal/rotator: Rotate, from R1 to R9, and its guarantees: it keeps the run within the protocol whatever fails, it
    converges when nothing fails, and it cannot leave a store with all config_ids in use. */
module Rotator {
  import opened Prelude
  import opened EchConfig
  import Base64
  import PemFile
  import Svcb
  import opened HttpsRecords
  import opened Protocol
  import opened Machine
  import opened KeyIndex
  import opened Keystore
  import opened Rotation
  import opened ConfigIds
  import opened RotatorSteps

  // ---------------------------------------------------------------- published sets

  /** texts1 is what publishing configs makes of texts0. */
  ghost predicate PublishedAs(texts0: seq<string>, texts1: seq<string>, configs: seq<Config>) {
    && ListEncodable(List(configs, []))
    && PatchedAll(texts0, Base64.Encode(ListBytes(List(configs, [])))) == Ok(texts1)
  }

  /** Every record is one of before or what publishing configs makes of one of them. */
  ghost predicate Between(before: seq<string>, after: seq<string>, configs: seq<Config>) {
    forall r | r in after :: r in before || exists texts :: PublishedAs(before, texts, configs) && r in texts
  }

  lemma PatchedBetween(before: seq<string>, after: seq<string>, configs: seq<Config>, bytes: seq<byte>)
    requires ListEncodable(List(configs, [])) && bytes == ListBytes(List(configs, []))
    requires var texts := PatchedAll(before, Base64.Encode(bytes));
             forall r | r in after :: r in before || (texts.Ok? && r in texts.value)
    ensures Between(before, after, configs)
  {
    hide PatchedAll, ListEncodable, ListBytes;
    var texts := PatchedAll(before, Base64.Encode(bytes));
    if texts.Ok? {
      assert PublishedAs(before, texts.value, configs);
    }
  }

  lemma PublishedSet(texts0: seq<string>, texts1: seq<string>, configs: seq<Config>)
    requires PublishedAs(texts0, texts1, configs) && QuotelessSet(texts0)
    ensures QuotelessSet(texts1) && |texts1| == |texts0|
    ensures forall i | 0 <= i < |texts1| ::
              Advertised(texts1[i]) == (if IsAlias(texts0[i]) then [] else configs) && (IsAlias(texts1[i]) <==> IsAlias(texts0[i]))
    ensures forall r | r in texts1 :: Advertised(r) == [] || Advertised(r) == configs
  {
    hide QuotelessSet, Advertised, IsAlias, PatchedAll, ListEncodable, ListBytes;
    PatchedSetAdvertises(texts0, configs);
  }

  /** However a publication ended, each record is an old one, or carries all of the new configs unless it is an alias. */
  lemma BetweenAdvertises(before: seq<string>, after: seq<string>, configs: seq<Config>, r: string)
    requires QuotelessSet(before) && Between(before, after, configs) && r in after
    ensures r in before || Advertised(r) == if IsAlias(r) then [] else configs
  {
    hide QuotelessSet, Advertised, PublishedAs, IsAlias;
    if r !in before {
      var texts :| PublishedAs(before, texts, configs) && r in texts;
      PublishedSet(before, texts, configs);
    }
  }

  /** Publishing configs that entries outside grace hold is within the protocol. */
  lemma HeldIsBacked(s: Sys, texts: seq<string>, configs: seq<Config>)
    requires AllLoaded(s) && QuotelessSet(s.rrset) && PublishedAs(s.rrset, texts, configs)
    requires forall x | x in configs :: exists e :: Holds(s, e, x) && e.state != Grace
    ensures Backed(s, texts) && QuotelessSet(texts)
  {
    hide QuotelessSet, Advertised, PublishedAs, AllLoaded, FileKey;
    PublishedSet(s.rrset, texts, configs);
  }

  lemma CurrentIsHeld(s: Sys, c: Config)
    requires IsCurrentKey(s, c)
    ensures exists e :: Holds(s, e, c) && e.state != Grace
  {
    hide FileKey;
    var e :| Holds(s, e, c) && e.state == Current && e.configId == c.configId;
  }

  lemma OverlapIsHeld(s: Sys, keys: seq<Entry>, c: Config, prev: seq<Config>)
    requires FilesPresent(s) && IsCurrentKey(s, c) && s.image.index == Some(Index(keys))
    requires FileConfigs(s.image, Newest(PreviousOf(keys))) == Some(prev)
    ensures forall x | x in [c] + prev :: exists e :: Holds(s, e, x) && e.state != Grace
  {
    hide FileKey, ReadKey, Newest, FileConfigs, IsCurrentKey;
    var list := Newest(PreviousOf(keys));
    CurrentIsHeld(s, c);
    FileConfigsPointwise(s.image, list);
    NewestMembers(PreviousOf(keys));
    PreviousMembers(keys);
    forall x | x in prev ensures exists e :: Holds(s, e, x) && e.state != Grace {
      var i :| 0 <= i < |prev| && prev[i] == x;
      assert list[i] in list && !Due(list[i], s.clock);
      FittingIsRead(s.image, list[i].name);
      assert Holds(s, list[i], x);
    }
  }

  lemma SoloIsOnlyVisible(s: Sys, texts0: seq<string>, c: Config)
    requires PublishedAs(texts0, s.rrset, [c]) && QuotelessSet(texts0)
    ensures OnlyVisible(s, c)
  {
    hide QuotelessSet, Advertised, PublishedAs;
    PublishedSet(texts0, s.rrset, [c]);
  }

  lemma CurrentKeySameImage(s: Sys, t: Sys, c: Config)
    requires IsCurrentKey(s, c) && t.image == s.image
    ensures IsCurrentKey(t, c)
  {
    hide FileKey;
    var e :| Holds(s, e, c) && e.state == Current && e.configId == c.configId;
    assert Holds(t, e, c);
  }

  lemma CurrentKeyMarked(s: Sys, t: Sys, c: Config)
    requires IsCurrentKey(s, c) && t.image.files == s.image.files && OnlyMarked(Keys(s), Keys(t))
    ensures IsCurrentKey(t, c)
  {
    hide FileKey;
    SameFiles(s.image, t.image);
    var e :| Holds(s, e, c) && e.state == Current && e.configId == c.configId;
    var i :| 0 <= i < |Keys(s)| && Keys(s)[i] == e;
    assert Keys(t)[i] in Keys(t);
    assert Holds(t, Keys(t)[i], c);
  }

  /** Every record can be read, so every record can be patched. */
  ghost predicate Readable(texts: seq<string>) {
    forall r | r in texts :: Svcb.ParseText(r).Ok?
  }

  lemma ReadablePatches(texts: seq<string>, b64: string)
    requires Readable(texts)
    ensures PatchedAll(texts, b64).Ok?
  {
    hide Svcb.ParseText, PatchedAll, Svcb.Print;
    PatchedAllPointwise(texts, b64);
    assert forall i | 0 <= i < |texts| :: texts[i] in texts;
  }

  lemma PublishedReadable(texts0: seq<string>, texts1: seq<string>, configs: seq<Config>)
    requires PublishedAs(texts0, texts1, configs) && QuotelessSet(texts0)
    ensures Readable(texts1)
  {
    hide Svcb.ParseText, PatchedAll, ListEncodable, ListBytes, Patched, Advertised, IsAlias, QuotelessText;
    var b64 := Base64.Encode(ListBytes(List(configs, [])));
    PatchedAllPointwise(texts0, b64);
    forall r | r in texts1 ensures Svcb.ParseText(r).Ok? {
      var i :| 0 <= i < |texts1| && texts1[i] == r;
      assert texts0[i] in texts0;
      PatchedAdvertises(texts0[i], configs);
    }
  }

  // ---------------------------------------------------------------- R3 and R4

  /** The configs of the previous entries, newest first. */
  function PreviousConfigs(image: Image, keys: seq<Entry>): Option<seq<Config>> {
    FileConfigs(image, Newest(PreviousOf(keys)))
  }

  ghost predicate OverlapFits(image: Image, keys: seq<Entry>, c: Config) {
    && PreviousConfigs(image, keys).Some?
    && ListEncodable(List([c] + PreviousConfigs(image, keys).value, []))
    && exists e | e in keys :: e.configId == c.configId
  }

  lemma MarkedIdsFound(keys: seq<Entry>, id: byte)
    requires exists e | e in keys :: e.configId == id
    ensures forall x | x in [id] + Ids(Newest(PreviousOf(keys))) :: Find(keys, x) < |keys|
  {
    hide Newest, PreviousOf;
    var list := Newest(PreviousOf(keys));
    NewestMembers(PreviousOf(keys));
    PreviousMembers(keys);
    forall x | x in [id] + Ids(list) ensures Find(keys, x) < |keys| {
      if x != id {
        var i :| 0 <= i < |list| && Ids(list)[i] == x;
        assert list[i] in list && list[i] in keys;
      }
      var e :| e in keys && e.configId == x;
    }
  }

  lemma OverlapBacked(s: Sys, keys: seq<Entry>, c: Config, bytes: seq<byte>)
    requires FilesPresent(s) && AllLoaded(s) && QuotelessSet(s.rrset) && IsCurrentKey(s, c) && s.image.index == Some(Index(keys))
    requires PreviousConfigs(s.image, keys).Some?
    requires ListEncodable(List([c] + PreviousConfigs(s.image, keys).value, []))
    requires bytes == ListBytes(List([c] + PreviousConfigs(s.image, keys).value, []))
    ensures var texts := PatchedAll(s.rrset, Base64.Encode(bytes));
            texts.Ok? ==> Backed(s, texts.value) && QuotelessSet(texts.value)
  {
    hide AllLoaded, QuotelessSet, IsCurrentKey, Backed, PatchedAll, ListEncodable, ListBytes, FilesPresent;
    var prev := PreviousConfigs(s.image, keys).value;
    OverlapIsHeld(s, keys, c, prev);
    var texts := PatchedAll(s.rrset, Base64.Encode(bytes));
    if texts.Ok? {
      HeldIsBacked(s, texts.value, [c] + prev);
    }
  }

  lemma SoundFiles(tr: seq<Sys>)
    requires Sound(tr)
    ensures FilesPresent(Last(tr))
  {
    hide IsRun, QuotelessSet, FilesPresent, DistinctIds, OneCurrent, PublishedServed, CachedServed;
    RunKeepsInv(tr, |tr| - 1);
  }

  lemma StillQuoteless(before: seq<string>, texts: Result<seq<string>>, after: seq<string>)
    requires QuotelessSet(before) && (texts.Ok? ==> QuotelessSet(texts.value))
    requires forall r | r in after :: r in before || (texts.Ok? && r in texts.value)
    ensures QuotelessSet(after)
  {
    hide QuotelessText;
  }

  lemma IndexOnlyFacts(a: seq<Sys>, b: seq<Sys>)
    requires IndexOnly(a, b)
    ensures a <= b && Last(b).image.files == Last(a).image.files && Last(b).rrset == Last(a).rrset
    ensures Last(b).ttl == Last(a).ttl && Last(a).clock <= Last(b).clock
    ensures AllLoaded(Last(a)) ==> AllLoaded(Last(b))
  {
    hide AllLoaded;
  }

  /** R3 and the publication of R4: reload, publish the new key with all previous ones. */
  method PublishList(st: Store, c: Config) returns (o: Outcome, ids: seq<byte>)
    requires InSync(st)
    modifies st.m
    ensures InSync(st) && old(st.m.trace) <= st.m.trace
    ensures o == Done ==>
              && AllLoaded(st.m.s) && ids == [c.configId] + Ids(Newest(PreviousOf(st.Entries())))
              && PreviousConfigs(old(st.m.s.image), st.Entries()).Some?
              && PublishedAs(old(st.m.s.rrset), st.m.s.rrset, [c] + PreviousConfigs(old(st.m.s.image), st.Entries()).value)
    ensures || st.m.s.rrset == old(st.m.s.rrset)
            || (var previous := PreviousConfigs(old(st.m.s.image), st.Entries());
                previous.Some? && Between(old(st.m.s.rrset), st.m.s.rrset, [c] + previous.value))
    ensures st.m.definite && o == Failed ==> st.m.s.rrset == old(st.m.s.rrset)
    ensures st.m.s.image == old(st.m.s.image) && st.m.s.ttl == old(st.m.s.ttl) && old(st.m.s.clock) <= st.m.s.clock
    ensures Sound(old(st.m.trace)) && IsCurrentKey(old(st.m.s), c) ==> Sound(st.m.trace)
    ensures (st.m.calm && old(st.m.s.rrset) != [] && Readable(old(st.m.s.rrset))
             && OverlapFits(old(st.m.s.image), st.Entries(), c)) ==> o == Done
  {
    hide Quiet, IsRun, QuotelessSet, PatchedAll, ListEncodable, ListBytes, FileConfigs, Newest, PreviousOf, Ids;
    hide AllLoaded, IsCurrentKey, Backed, Readable, Between, FilesPresent;
    ids := [];
    ghost var t0, s0, keys := st.m.trace, st.m.s, st.Entries();
    o := st.m.Reload();
    QuietSound(t0, st.m.trace);
    if o != Done { return; }
    LoadedAll(st.m.s);
    ghost var t1 := st.m.trace;
    var bytes;
    o, bytes, ids := BuildOverlapList(st, c);
    QuietSound(t1, st.m.trace);
    PrefixTrans(t0, t1, st.m.trace);
    if o != Done { return; }
    ghost var t2, s2 := st.m.trace, st.m.s;
    if IsCurrentKey(s0, c) {
      CurrentKeySameImage(s0, s2, c);
      if Sound(t0) { SoundFiles(t2); OverlapBacked(s2, keys, c, bytes); }
    }
    if Readable(s0.rrset) { ReadablePatches(s0.rrset, Base64.Encode(bytes)); }
    o := PublishDNS(st.m, bytes);
    PatchedBetween(s2.rrset, st.m.s.rrset, [c] + PreviousConfigs(s2.image, keys).value, bytes);
    PrefixTrans(t0, t2, st.m.trace);
    if IsCurrentKey(s0, c) && Sound(t0) {
      StillQuoteless(s2.rrset, PatchedAll(s2.rrset, Base64.Encode(bytes)), st.m.s.rrset);
    }
  }

  /** Where a cycle ended: R4 is the reload of R3 and the publication of R4, Marking the rest of R4. */
  datatype Stage = R1 | R2 | R4 | Marking | R6 | R9

  /** What clients can find if R4 was the last step begun, and how it ended is unknown. */
  ghost predicate OverlapOrOld(texts0: seq<string>, texts: seq<string>, c: Config, previous: Option<seq<Config>>) {
    texts == texts0 || (previous.Some? && Between(texts0, texts, [c] + previous.value))
  }

  /** What clients can find if R6 was the last step begun, and how it ended is unknown. */
  ghost predicate SoloOrOverlap(texts0: seq<string>, texts: seq<string>, c: Config, previous: Option<seq<Config>>) {
    previous.Some?
    && exists texts1 :: PublishedAs(texts0, texts1, [c] + previous.value) && (texts == texts1 || Between(texts1, texts, [c]))
  }

  /** R3 and R4: reload, publish the new key with all previous ones, record the time. */
  method PublishOverlap(st: Store, c: Config) returns (o: Outcome, ids: seq<byte>, t4: int, ghost at: Stage)
    requires InSync(st)
    modifies st.buf, st.m
    ensures st.Valid() && old(st.m.trace) <= st.m.trace
    ensures o == Done ==>
              && InSync(st) && AllLoaded(st.m.s)
              && st.Entries() == MarkIds(old(st.Entries()), ids, t4)
              && ids == [c.configId] + Ids(Newest(PreviousOf(old(st.Entries()))))
              && old(st.m.s.clock) <= t4 <= st.m.s.clock
              && PreviousConfigs(old(st.m.s.image), old(st.Entries())).Some?
              && PublishedAs(old(st.m.s.rrset), st.m.s.rrset,
                             [c] + PreviousConfigs(old(st.m.s.image), old(st.Entries())).value)
    ensures var previous := PreviousConfigs(old(st.m.s.image), old(st.Entries()));
            || (at == R4 && o != Done && OverlapOrOld(old(st.m.s.rrset), st.m.s.rrset, c, previous)
                && (st.m.definite && o == Failed ==> st.m.s.rrset == old(st.m.s.rrset)))
            || (at == Marking && previous.Some?
                && PublishedAs(old(st.m.s.rrset), st.m.s.rrset, [c] + previous.value))
    ensures st.m.s.image.files == old(st.m.s.image).files && st.m.s.ttl == old(st.m.s.ttl)
    ensures old(st.m.s.clock) <= st.m.s.clock
    ensures Sound(old(st.m.trace)) && IsCurrentKey(old(st.m.s), c) ==> Sound(st.m.trace)
    ensures o == Done && IsCurrentKey(old(st.m.s), c) ==> IsCurrentKey(st.m.s, c)
    ensures (st.m.calm && old(st.m.s.rrset) != [] && Readable(old(st.m.s.rrset))
             && OverlapFits(old(st.m.s.image), old(st.Entries()), c)) ==> o == Done
  {
    hide Sound, PublishedAs, Newest, PreviousOf, MarkIds, IndexOnly, PreviousConfigs, AllLoaded, IsCurrentKey, Readable, Between;
    t4, at := 0, R4;
    ghost var t0, s0, keys := st.m.trace, st.m.s, st.Entries();
    o, ids := PublishList(st, c);
    if o != Done { return; }
    at := Marking;
    ghost var t3, s3 := st.m.trace, st.m.s;
    if exists e | e in keys :: e.configId == c.configId { MarkedIdsFound(keys, c.configId); }
    o, t4 := MarkInDNS(st, ids);
    IndexOnlyFacts(t3, st.m.trace);
    PrefixTrans(t0, t3, st.m.trace);
    if o == Done && IsCurrentKey(s0, c) {
      CurrentKeySameImage(s0, s3, c);
      MarkIdsOnlyMarks(keys, ids, t4);
      CurrentKeyMarked(s3, st.m.s, c);
    }
  }

  // ---------------------------------------------------------------- R5 and R6

  /** R5 and R6: wait for the settle delay, then publish the new key alone. */
  method PublishSolo(m: Host, c: Config, settleDelay: nat) returns (o: Outcome)
    requires m.Valid()
    modifies m
    ensures m.Valid() && old(m.trace) <= m.trace
    ensures o == Done ==> PublishedAs(old(m.s.rrset), m.s.rrset, [c]) && old(m.s.clock) + settleDelay <= m.s.clock
    ensures m.s.rrset == old(m.s.rrset) || Between(old(m.s.rrset), m.s.rrset, [c])
    ensures m.definite && o == Failed ==> m.s.rrset == old(m.s.rrset)
    ensures m.s.image == old(m.s.image) && m.s.ttl == old(m.s.ttl) && old(m.s.clock) <= m.s.clock
    ensures (Sound(old(m.trace)) && AllLoaded(old(m.s)) && IsCurrentKey(old(m.s), c)) ==>
              Sound(m.trace) && (o == Done ==> OnlyVisible(m.s, c))
    ensures (m.calm && old(m.s.rrset) != [] && Readable(old(m.s.rrset)) && ListEncodable(List([c], []))) ==> o == Done
  {
    hide Quiet, IsRun, QuotelessSet, PatchedAll, ListEncodable, ListBytes, AllLoaded, IsCurrentKey, Backed, Readable;
    hide OnlyVisible, Between;
    ghost var t0, s0 := m.trace, m.s;
    o := m.Sleep(settleDelay);
    QuietSound(t0, m.trace);
    if o != Done { return; }
    var bytes := MarshalList(List([c], []));
    if bytes.Err? { return Failed; }
    ghost var t1, s1 := m.trace, m.s;
    ghost var texts := PatchedAll(s1.rrset, Base64.Encode(bytes.value));
    ghost var lawful := Sound(t0) && AllLoaded(s0) && IsCurrentKey(s0, c);
    if lawful {
      CurrentKeySameImage(s0, s1, c);
      CurrentIsHeld(s1, c);
      if texts.Ok? { HeldIsBacked(s1, texts.value, [c]); }
    }
    if Readable(s0.rrset) { ReadablePatches(s0.rrset, Base64.Encode(bytes.value)); }
    o := PublishDNS(m, bytes.value);
    PatchedBetween(s1.rrset, m.s.rrset, [c], bytes.value);
    PrefixTrans(t0, t1, m.trace);
    if lawful {
      StillQuoteless(s1.rrset, texts, m.s.rrset);
      if o == Done { SoloIsOnlyVisible(m.s, s1.rrset, c); }
    }
  }

  // ---------------------------------------------------------------- R8 and R9

  /** R8 and R9: drop what is due with its files, reload. */
  method Finish(st: Store) returns (o: Outcome, t8: int)
    requires InSync(st)
    modifies st`n, st.buf, st.m
    ensures st.Valid() && old(st.m.trace) <= st.m.trace
    ensures o == Done ==>
              && InSync(st) && st.m.s.loaded == AllKeys(st.m.s.image)
              && st.Entries() == Keep(old(st.Entries()), t8)
              && st.m.s.image.files == old(st.m.s.image).files - NamesOf(DueEntries(old(st.Entries()), t8))
    ensures old(st.m.s.clock) <= t8 <= st.m.s.clock && st.m.s.rrset == old(st.m.s.rrset)
    ensures Sound(old(st.m.trace)) ==> Sound(st.m.trace)
    ensures st.m.calm ==> o == Done
  {
    hide Quiet, IsRun, QuotelessSet, AllLoaded, AllKeys, Keep, DueEntries, PruneTrace;
    ghost var t0, keys := st.m.trace, st.Entries();
    t8 := st.m.Now();
    QuietSound(t0, st.m.trace);
    ghost var t1 := st.m.trace;
    var pruned;
    o, pruned := st.PruneExpired(t8);
    PrunePrefix(t1, st.m.trace, keys, t8);
    PrefixTrans(t0, t1, st.m.trace);
    if o != Done { return; }
    NothingPruned(keys, t8, Last(t1).image);
    ghost var t2 := st.m.trace;
    o := st.m.Reload();
    QuietSound(t2, st.m.trace);
    PrefixTrans(t0, t2, st.m.trace);
  }

  lemma PrunePrefix(a: seq<Sys>, b: seq<Sys>, keys: seq<Entry>, now: int)
    requires PruneTrace(a, b, keys, now)
    ensures a <= b
  {
  }

  lemma NothingPruned(keys: seq<Entry>, now: int, image: Image)
    ensures Ids(DueEntries(keys, now)) == [] ==>
              Keep(keys, now) == keys && image.files - NamesOf(DueEntries(keys, now)) == image.files
  {
    KeepSplits(keys, now);
    assert |Ids(DueEntries(keys, now))| == |DueEntries(keys, now)|;
    if DueEntries(keys, now) == [] {
      assert NamesOf(DueEntries(keys, now)) == {};
      assert image.files - {} == image.files;
    }
  }

  // ---------------------------------------------------------------- R1 to R9

  /** What one cycle did: the new key, the configs it was first published with, the ids marked then, and the times. */
  datatype Cycle = Cycle(
    config: Config,
    entry: Entry,
    blocks: seq<PemFile.Block>,
    previous: seq<Config>,
    ids: seq<byte>,
    markedAt: int,
    deadline: int,
    prunedAt: int)

  /** The index as R8 finds it. */
  function BeforePrune(keys: seq<Entry>, r: Cycle): seq<Entry> {
    RetireAll(MarkIds(Demote(keys) + [r.entry], r.ids, r.markedAt), r.deadline)
  }

  lemma CycleIsKept(keys: seq<Entry>, r: Cycle)
    ensures CycleEntries(keys, r.entry, r.ids, r.markedAt, r.deadline, r.prunedAt) == Keep(BeforePrune(keys, r), r.prunedAt)
  {
  }

  /** From s0 with these entries, a completed cycle led to s1. */
  ghost predicate Completed(s0: Sys, keys: seq<Entry>, s1: Sys, cfg: Settings, r: Cycle) {
    && |r.config.publicKey| == 32 && r.config == NewConfig(cfg, r.entry.configId, r.config.publicKey)
    && r.entry.configId as int !in Used(keys) && r.entry.state == Current && r.entry.name.id == r.entry.configId
    && PemFile.FittingKey(r.blocks) == Some(r.config)
    && PreviousConfigs(s0.image, Demote(keys)) == Some(r.previous)
    && r.ids == [r.entry.configId] + Ids(Newest(PreviousOf(Demote(keys))))
    && s1.image.index == Some(Index(CycleEntries(keys, r.entry, r.ids, r.markedAt, r.deadline, r.prunedAt)))
    && s1.image.files == s0.image.files[r.entry.name := Pem(r.blocks)]
                         - NamesOf(DueEntries(BeforePrune(keys, r), r.prunedAt))
    && Republished(s0.rrset, s1.rrset, r.config, r.previous)
    && r.entry.inDnsSince == 0 && r.entry.dropAt == 0 && s0.clock <= r.entry.createdAt <= r.markedAt
    && r.markedAt + cfg.settleDelay <= r.deadline - cfg.gracePeriod <= r.prunedAt <= s1.clock
  }

  /** A new config fits in one list with these. */
  ghost predicate Fits(cfg: Settings, previous: seq<Config>, id: byte, publicKey: seq<byte>) {
    ListEncodable(List([NewConfig(cfg, id, publicKey)] + previous, []))
  }

  /** Nothing but a failing call can stop a cycle. */
  ghost predicate Ready(s: Sys, cfg: Settings) {
    && cfg.kemId == PemFile.KEM_X25519 && |Used(Keys(s))| < 256 && s.clock > 0
    && s.rrset != [] && Readable(s.rrset)
    && var previous := PreviousConfigs(s.image, Demote(Keys(s)));
       previous.Some? ==> forall id, pk | |pk| == 32 :: Fits(cfg, previous.value, id, pk)
  }

  lemma {:induction false} FileConfigsForeign(a: Image, b: Image, list: seq<Entry>)
    requires forall x | x in list :: ReadKey(a, x.name) == ReadKey(b, x.name)
    ensures FileConfigs(a, list) == FileConfigs(b, list)
  {
    hide ReadKey;
    if list != [] {
      assert list[|list| - 1] in list;
      FileConfigsForeign(a, b, list[..|list| - 1]);
    }
  }

  /** A new key changes nothing about the previous ones. */
  lemma AddKeepsPrevious(img0: Image, keys: seq<Entry>, e: Entry, blocks: seq<PemFile.Block>, img1: Image)
    requires DistinctIds(keys) && e.name.id == e.configId && e.configId as int !in Used(keys) && e.state == Current
    requires img1.files == Placed(img0, KeyFile(e.name), Pem(blocks)).files
    ensures PreviousOf(Demote(keys) + [e]) == PreviousOf(Demote(keys))
    ensures PreviousConfigs(img1, Demote(keys) + [e]) == PreviousConfigs(img0, Demote(keys))
    ensures DistinctIds(Demote(keys) + [e])
  {
    hide FileKey, ReadKey, Newest, FileConfigs, PreviousOf;
    var old' := Demote(keys);
    PreviousSnoc(old', e);
    assert PreviousOf(old') + [] == PreviousOf(old');
    FreshId(keys, e.configId);
    InsertDistinct(keys, e);
    var list := Newest(PreviousOf(old'));
    NewestMembers(PreviousOf(old'));
    PreviousMembers(old');
    SameFiles(img1, Placed(img0, KeyFile(e.name), Pem(blocks)));
    PlacedFiles(img0, e.name, Pem(blocks));
    forall x | x in list ensures ReadKey(img1, x.name) == ReadKey(img0, x.name) {
      var i :| 0 <= i < |old'| && old'[i] == x;
      assert keys[i] in keys && x.name == keys[i].name;
    }
    FileConfigsForeign(img1, img0, list);
  }

  /** In a run, the files of all previous keys can be read. */
  lemma PreviousReadable(tr: seq<Sys>)
    requires IsRun(tr) && tr != []
    ensures PreviousConfigs(Last(tr).image, Demote(Keys(Last(tr)))).Some?
  {
    hide IsRun, FileKey, ReadKey, Newest, FileConfigs, DistinctIds, OneCurrent, PublishedServed, CachedServed, PreviousOf;
    var s := Last(tr);
    var keys := Keys(s);
    RunKeepsInv(tr, |tr| - 1);
    var list := Newest(PreviousOf(Demote(keys)));
    NewestMembers(PreviousOf(Demote(keys)));
    PreviousMembers(Demote(keys));
    FileConfigsPointwise(s.image, list);
    forall x | x in list ensures ReadKey(s.image, x.name).Some? {
      var i :| 0 <= i < |keys| && Demote(keys)[i] == x;
      assert keys[i] in keys && !Due(keys[i], s.clock);
      FittingIsRead(s.image, x.name);
    }
  }

  lemma SameTtl(a: seq<Sys>, b: seq<Sys>)
    requires a <= b && a != [] && IsRun(b)
    ensures Last(b).ttl == Last(a).ttl
  {
    hide IsRun;
    ClockOverRun(b, |a| - 1, |b| - 1);
    assert b[|a| - 1] == a[|a| - 1];
  }

  lemma HoldsCurrent(s: Sys, keys: seq<Entry>, e: Entry, c: Config)
    requires s.image.index == Some(Index(keys + [e])) && FileKey(s.image, e.name) == Some(c)
    requires e.state == Current && e.configId == c.configId
    ensures IsCurrentKey(s, c)
  {
    hide FileKey;
    assert (keys + [e])[|keys|] == e;
    assert Holds(s, e, c);
  }

  lemma MarkedDistinct(a: seq<Entry>, ids: seq<byte>, now: int)
    requires DistinctIds(a)
    ensures DistinctIds(MarkIds(a, ids, now))
  {
    var b := MarkIds(a, ids, now);
    MarkIdsOnlyMarks(a, ids, now);
    forall i | 0 <= i < |a| ensures b[i].configId == a[i].configId && b[i].name == a[i].name && a[i] in a {
      assert b[i] == a[i].(inDnsSince := b[i].inDnsSince);
    }
  }

  /** R1: a key pair and a free config_id. */
  method NewKey(st: Store, cfg: Settings) returns (o: Outcome, c: Config, kp: PemFile.KeyPair)
    requires st.Valid()
    ensures o == Done ==>
              && kp.kemId == cfg.kemId && PemFile.Matched(kp)
              && c == NewConfig(cfg, c.configId, kp.publicKey) && c.configId as int !in Used(st.Entries())
    ensures |Used(st.Entries())| == 256 ==> o == Failed
    ensures st.m.calm && cfg.kemId == PemFile.KEM_X25519 && |Used(st.Entries())| < 256 ==> o == Done
    ensures o != Crashed
  {
    hide Used, Newest;
    c, kp := FRESH, PemFile.KeyPair(0, [], []);
    var generated := st.m.GenerateKeyPair(cfg.kemId);
    if generated.None? { return Failed, c, kp; }
    var listed := st.List();
    NewestMembers(st.Entries());
    UsedNewest(listed, st.Entries());
    UsedBound(st.Entries());
    var choice := PickConfigId(st.m, listed);
    if !choice.Chosen? { return Failed, c, kp; }
    kp := generated.value;
    c := NewConfig(cfg, choice.id, kp.publicKey);
    o := Done;
  }

  lemma UsedBound(keys: seq<Entry>)
    ensures |Used(keys)| <= 256
  {
    Covers(Used(keys), 256);
  }

  lemma NothingAdded(image: Image)
    ensures forall pem, e :: FailedAdd(image, pem, e, image, false)
  {
  }

  /** R1 and R2: generate a key and store it. */
  method AddNewKey(st: Store, cfg: Settings)
    returns (o: Outcome, c: Config, e: Entry, ghost blocks: seq<PemFile.Block>, ghost at: Stage)
    requires st.Valid()
    modifies st, st.buf, st.m
    ensures st.Valid() && (st.buf == old(st.buf) || fresh(st.buf)) && old(st.m.trace) <= st.m.trace
    ensures o == Done ==>
              && |c.publicKey| == 32 && c == NewConfig(cfg, e.configId, c.publicKey) && PemFile.FittingKey(blocks) == Some(c)
              && e.configId as int !in Used(old(st.Entries())) && e.state == Current && e.name.id == e.configId
              && e.inDnsSince == 0 && e.dropAt == 0 && old(st.m.s.clock) <= e.createdAt <= st.m.s.clock
              && InSync(st) && st.Entries() == Demote(old(st.Entries())) + [e] && IsCurrentKey(st.m.s, c)
              && st.m.s.image.files == old(st.m.s.image).files[e.name := Pem(blocks)]
    ensures o == Done && DistinctIds(old(st.Entries())) ==>
              && DistinctIds(st.Entries())
              && PreviousOf(st.Entries()) == PreviousOf(Demote(old(st.Entries())))
              && PreviousConfigs(st.m.s.image, st.Entries()) == PreviousConfigs(old(st.m.s.image), Demote(old(st.Entries())))
    ensures o != Done ==> at == R1 || at == R2
    ensures at == R1 ==> o == Failed && st.m.trace == old(st.m.trace) && st.m.s == old(st.m.s)
    ensures o == Failed ==>
              FailedAdd(old(st.m.s.image), blocks, e, st.m.s.image, st.m.failedRemoves > old(st.m.failedRemoves))
    ensures o == Failed && e.name !in old(st.m.s.image).files ==>
              (st.m.s.image == old(st.m.s.image) <==> st.m.failedRemoves == old(st.m.failedRemoves))
    ensures st.m.failedRemoves >= old(st.m.failedRemoves)
    ensures st.m.s.rrset == old(st.m.s.rrset) && old(st.m.s.clock) <= st.m.s.clock
    ensures Sound(old(st.m.trace)) && old(st.Entries()) == Keys(old(st.m.s)) ==> Sound(st.m.trace)
    ensures |Used(old(st.Entries()))| == 256 ==>
              o == Failed && st.m.trace == old(st.m.trace) && st.Entries() == old(st.Entries())
    ensures (st.m.calm && Sound(old(st.m.trace)) && old(st.Entries()) == Keys(old(st.m.s)) && Ready(old(st.m.s), cfg)) ==>
              o == Done && Publishable(st.m.s, st.Entries(), c)
  {
    hide QuotelessSet, ListEncodable, IsRun, IsCurrentKey, FileConfigs, Newest, PreviousOf, Readable, DistinctIds;
    hide FileKey, Used;
    hide Demote, Sound, PreviousConfigs, OverlapFits, Ready, PemFile.FittingKey, FailedAdd, KeyBlocks;
    hide PemFile.KeyOf, PemFile.ParsedFile, AllLoaded, Quiet;
    NothingAdded(st.m.s.image);
    ghost var t0, s0, keys := st.m.trace, st.m.s, st.Entries();
    ghost var ready := st.m.calm && Sound(t0) && keys == Keys(s0) && Ready(s0, cfg);
    blocks, e, at := [], Entry(Name(0, 0, None), 0, Current, 0, 0, 0), R1;
    if ready { ReadyBasics(s0, cfg); }
    var kp;
    o, c, kp := NewKey(st, cfg);
    if o != Done { return; }
    if ready { ReadyFits(t0, cfg, c, kp.publicKey); }
    at := R2;
    if ListEncodable(List([c], [])) { blocks := KeyBlocks(c, kp); }
    o, e := StoreKey(st, c, kp);
    if o != Done { return; }
    HoldsCurrent(st.m.s, Demote(keys), e, c);
    if Sound(t0) && keys == Keys(s0) { SoundDistinctKeys(t0); }
    if DistinctIds(keys) { AddKeepsPrevious(s0.image, keys, e, blocks, st.m.s.image); }
    if ready { ReadyOverlap(st.m.s.image, st.Entries(), c, e); }
  }

  /** Nothing but a failing call can stop the two publications. */
  ghost predicate Publishable(s: Sys, keys: seq<Entry>, c: Config) {
    s.rrset != [] && Readable(s.rrset) && OverlapFits(s.image, keys, c) && ListEncodable(List([c], []))
  }

  /** The record set went through both publications. */
  ghost predicate Republished(texts0: seq<string>, texts2: seq<string>, c: Config, previous: seq<Config>) {
    exists texts1 :: PublishedAs(texts0, texts1, [c] + previous) && PublishedAs(texts1, texts2, [c])
  }

  /** A failed publication never lets a ServiceMode record lose its configs: until R6 it carries what an old record did
      or the new key and all previous ones, and from then on the new key first in any case. */
  lemma FailedPublicationAdvertises(texts0: seq<string>, texts: seq<string>, c: Config, previous: Option<seq<Config>>, r: string)
    requires QuotelessSet(texts0) && r in texts
    ensures OverlapOrOld(texts0, texts, c, previous) ==>
              r in texts0 || IsAlias(r) || (previous.Some? && Advertised(r) == [c] + previous.value)
    ensures SoloOrOverlap(texts0, texts, c, previous) ==>
              IsAlias(r) || Advertised(r) == [c] || Advertised(r) == [c] + previous.value
  {
    hide QuotelessSet, Advertised, PublishedAs, IsAlias, Between;
    if texts != texts0 && OverlapOrOld(texts0, texts, c, previous) {
      BetweenAdvertises(texts0, texts, [c] + previous.value, r);
    }
    if SoloOrOverlap(texts0, texts, c, previous) {
      var texts1 :| PublishedAs(texts0, texts1, [c] + previous.value) && (texts == texts1 || Between(texts1, texts, [c]));
      PublishedSet(texts0, texts1, [c] + previous.value);
      if texts != texts1 { BetweenAdvertises(texts1, texts, [c], r); }
    }
  }

  /** R3 to R6: publish the new key with the previous ones, then alone. */
  method PublishBoth(st: Store, c: Config, settleDelay: nat) returns (o: Outcome, ids: seq<byte>, t4: int, ghost at: Stage)
    requires InSync(st)
    modifies st.buf, st.m
    ensures st.Valid() && old(st.m.trace) <= st.m.trace
    ensures o == Done ==>
              && InSync(st) && st.Entries() == MarkIds(old(st.Entries()), ids, t4)
              && ids == [c.configId] + Ids(Newest(PreviousOf(old(st.Entries()))))
              && old(st.m.s.clock) <= t4 && t4 + settleDelay <= st.m.s.clock
              && PreviousConfigs(old(st.m.s.image), old(st.Entries())).Some?
              && Republished(old(st.m.s.rrset), st.m.s.rrset, c,
                             PreviousConfigs(old(st.m.s.image), old(st.Entries())).value)
    ensures var previous := PreviousConfigs(old(st.m.s.image), old(st.Entries()));
            || (at == R4 && o != Done && OverlapOrOld(old(st.m.s.rrset), st.m.s.rrset, c, previous)
                && (st.m.definite && o == Failed ==> st.m.s.rrset == old(st.m.s.rrset)))
            || (at == Marking && o != Done && previous.Some?
                && PublishedAs(old(st.m.s.rrset), st.m.s.rrset, [c] + previous.value))
            || (at == R6 && SoloOrOverlap(old(st.m.s.rrset), st.m.s.rrset, c, previous)
                && (st.m.definite && o == Failed ==>
                      PublishedAs(old(st.m.s.rrset), st.m.s.rrset, [c] + previous.value)))
    ensures st.m.s.image.files == old(st.m.s.image).files && st.m.s.ttl == old(st.m.s.ttl)
    ensures old(st.m.s.clock) <= st.m.s.clock
    ensures Sound(old(st.m.trace)) && IsCurrentKey(old(st.m.s), c) ==>
              Sound(st.m.trace) && (o == Done ==> OnlyVisible(st.m.s, c) && IsCurrentKey(st.m.s, c))
    ensures (st.m.calm && Sound(old(st.m.trace)) && Publishable(old(st.m.s), old(st.Entries()), c)) ==> o == Done
  {
    hide IsRun, ListEncodable, AllLoaded, IsCurrentKey, OnlyVisible, PreviousConfigs, Newest, PreviousOf, MarkIds;
    hide Readable;
    hide PublishedAs, FileKey, Ids, OverlapFits, QuotelessSet, Between;
    ghost var t0, s0, keys := st.m.trace, st.m.s, st.Entries();
    o, ids, t4, at := PublishOverlap(st, c);
    if o != Done { return; }
    at := R6;
    ghost var t1, s1 := st.m.trace, st.m.s;
    ghost var previous := PreviousConfigs(s0.image, keys).value;
    if Publishable(s0, keys, c) && Sound(t0) {
      PublishedReadable(s0.rrset, s1.rrset, [c] + previous);
      PublishedNonempty(s0.rrset, s1.rrset, [c] + previous);
    }
    o := PublishSolo(st.m, c, settleDelay);
    PrefixTrans(t0, t1, st.m.trace);
    if o == Done && IsCurrentKey(s0, c) { CurrentKeySameImage(s1, st.m.s, c); }
  }

  /** R7 to R9: retire the previous keys, prune, reload. */
  method RetireAndFinish(st: Store, grace: nat, ghost c: Config) returns (o: Outcome, d: int, t8: int)
    requires InSync(st)
    modifies st`n, st.buf, st.m
    ensures st.Valid() && old(st.m.trace) <= st.m.trace && st.m.s.rrset == old(st.m.s.rrset)
    ensures o == Done ==>
              && InSync(st) && st.m.s.loaded == AllKeys(st.m.s.image)
              && old(st.m.s.clock) <= d - grace <= t8 <= st.m.s.clock
    ensures o == Done && DistinctIds(old(st.Entries())) ==>
              var retired := RetireAll(old(st.Entries()), d);
              && st.Entries() == Keep(retired, t8)
              && st.m.s.image.files == old(st.m.s.image).files - NamesOf(DueEntries(retired, t8))
    ensures (Sound(old(st.m.trace)) && old(st.m.s).ttl <= grace && IsCurrentKey(old(st.m.s), c)
             && OnlyVisible(old(st.m.s), c)) ==> Sound(st.m.trace)
    ensures st.m.calm && DistinctIds(old(st.Entries())) ==> o == Done
  {
    hide AllLoaded, AllKeys, IsCurrentKey, OnlyVisible, Keep, DistinctIds, RetireAll, IndexOnly, DueEntries, Sound, NamesOf;
    t8 := 0;
    ghost var t0 := st.m.trace;
    o, d := RetirePrevious(st, grace, c);
    IndexOnlyFacts(t0, st.m.trace);
    if o != Done { return; }
    ghost var t1 := st.m.trace;
    o, t8 := Finish(st);
    PrefixTrans(t0, t1, st.m.trace);
  }

  /** What a cycle that ended at a stage has left behind, whatever failed there. R1: nothing. R2: the old index and
      records, and the new file exactly when its removal failed. R4: the new key's complete file, and records that are
      old or overlap ones, all old after a failure with a definite provider. Marking: exactly the overlap records. R6:
      overlap or solo ones, all overlap ones after a failure with a definite provider. R7 to R9: exactly the solo ones. */
  ghost predicate EndedAt(s0: Sys, keys: seq<Entry>, s1: Sys, o: Outcome, r: Cycle, at: Stage, definite: bool, stuck: bool) {
    var previous := PreviousConfigs(s0.image, Demote(keys));
    match at
    case R1 => o == Failed && s1 == s0
    case R2 =>
      && o != Done && s1.rrset == s0.rrset
      && (o == Failed ==>
            && FailedAdd(s0.image, r.blocks, r.entry, s1.image, stuck)
            && (r.entry.name !in s0.image.files ==> (s1.image == s0.image <==> !stuck)))
    case R4 =>
      && o != Done && HasNewFile(s0, s1, r) && OverlapOrOld(s0.rrset, s1.rrset, r.config, previous)
      && (definite && o == Failed ==> s1.rrset == s0.rrset)
    case Marking =>
      o != Done && HasNewFile(s0, s1, r) && previous.Some? && PublishedAs(s0.rrset, s1.rrset, [r.config] + previous.value)
    case R6 =>
      && o != Done && HasNewFile(s0, s1, r) && SoloOrOverlap(s0.rrset, s1.rrset, r.config, previous)
      && (definite && o == Failed ==> PublishedAs(s0.rrset, s1.rrset, [r.config] + previous.value))
    case R9 => previous.Some? && Republished(s0.rrset, s1.rrset, r.config, previous.value)
  }

  ghost predicate HasNewFile(s0: Sys, s1: Sys, r: Cycle) {
    s1.image.files == s0.image.files[r.entry.name := Pem(r.blocks)] && PemFile.FittingKey(r.blocks) == Some(r.config)
  }

  /** The first six steps led from s0 with these entries to s1. */
  ghost predicate Published(s0: Sys, keys: seq<Entry>, s1: Sys, cfg: Settings, r: Cycle) {
    && |r.config.publicKey| == 32 && r.config == NewConfig(cfg, r.entry.configId, r.config.publicKey)
    && r.entry.configId as int !in Used(keys) && r.entry.state == Current && r.entry.name.id == r.entry.configId
    && PemFile.FittingKey(r.blocks) == Some(r.config)
    && PreviousConfigs(s0.image, Demote(keys)) == Some(r.previous)
    && r.ids == [r.entry.configId] + Ids(Newest(PreviousOf(Demote(keys))))
    && s1.image.files == s0.image.files[r.entry.name := Pem(r.blocks)]
    && Republished(s0.rrset, s1.rrset, r.config, r.previous)
    && r.entry.inDnsSince == 0 && r.entry.dropAt == 0 && s0.clock <= r.entry.createdAt <= r.markedAt
    && r.markedAt + cfg.settleDelay <= s1.clock
  }

  /** R1 to R6. */
  method AddAndPublish(st: Store, cfg: Settings) returns (o: Outcome, ghost r: Cycle, ghost at: Stage)
    requires st.Valid()
    modifies st, st.buf, st.m
    ensures st.Valid() && (st.buf == old(st.buf) || fresh(st.buf)) && old(st.m.trace) <= st.m.trace
    ensures Sound(old(st.m.trace)) && old(st.Entries()) == Keys(old(st.m.s)) ==>
              Sound(st.m.trace) && (o == Done ==> OnlyVisible(st.m.s, r.config) && IsCurrentKey(st.m.s, r.config))
    ensures o == Done ==> InSync(st)
    ensures o == Done && DistinctIds(old(st.Entries())) ==>
              && Published(old(st.m.s), old(st.Entries()), st.m.s, cfg, r) && DistinctIds(st.Entries())
              && st.Entries() == MarkIds(Demote(old(st.Entries())) + [r.entry], r.ids, r.markedAt)
    ensures o != Done && DistinctIds(old(st.Entries())) ==>
              EndedAt(old(st.m.s), old(st.Entries()), st.m.s, o, r, at, st.m.definite,
                      st.m.failedRemoves > old(st.m.failedRemoves))
    ensures at == R1 ==> st.m.trace == old(st.m.trace)
    ensures |Used(old(st.Entries()))| == 256 ==>
              o == Failed && st.m.trace == old(st.m.trace) && st.Entries() == old(st.Entries())
    ensures (st.m.calm && Sound(old(st.m.trace)) && old(st.Entries()) == Keys(old(st.m.s)) && Ready(old(st.m.s), cfg)) ==>
              o == Done
  {
    hide AllLoaded, IsCurrentKey, OnlyVisible, PreviousConfigs, PreviousOf, Newest, Ids, MarkIds, Publishable, Republished;
    hide OverlapOrOld, SoloOrOverlap, DistinctIds, Used, Demote, Sound, Ready, PemFile.FittingKey, PublishedAs, FailedAdd;
    ghost var t0, s0, keys := st.m.trace, st.m.s, st.Entries();
    ghost var mirrors := Sound(t0) && keys == Keys(s0);
    if mirrors { SoundDistinctKeys(t0); }
    r := Cycle(FRESH, Entry(Name(0, 0, None), 0, Current, 0, 0, 0), [], [], [], 0, 0, 0);
    var c, e;
    ghost var blocks;
    o, c, e, blocks, at := AddNewKey(st, cfg);
    r := r.(config := c, entry := e, blocks := blocks);
    if o != Done { return; }
    ghost var t1, keys1 := st.m.trace, st.Entries();
    var ids, t4;
    o, ids, t4, at := PublishBoth(st, c, cfg.settleDelay);
    PrefixTrans(t0, t1, st.m.trace);
    if o == Done && DistinctIds(keys) {
      r := r.(previous := PreviousConfigs(s0.image, Demote(keys)).value, ids := ids, markedAt := t4);
      MarkedDistinct(keys1, ids, t4);
    }
  }

  /** One cycle. Whatever fails, and wherever the process dies, it keeps the run within the protocol if memory mirrors
      the disk and the grace period covers the time to live. A cycle that reports success has completed. A cycle that
      nothing blocks succeeds on a calm machine. With all config_ids in use it fails and touches nothing. */
  method Rotate(st: Store, cfg: Settings) returns (o: Outcome, ghost r: Cycle, ghost at: Stage)
    requires st.Valid()
    modifies st, st.buf, st.m
    ensures st.Valid() && (st.buf == old(st.buf) || fresh(st.buf)) && old(st.m.trace) <= st.m.trace
    ensures (Sound(old(st.m.trace)) && old(st.Entries()) == Keys(old(st.m.s)) && old(st.m.s).ttl <= cfg.gracePeriod) ==>
              Sound(st.m.trace)
    ensures o == Done && DistinctIds(old(st.Entries())) ==>
              InSync(st) && st.m.s.loaded == AllKeys(st.m.s.image) && Completed(old(st.m.s), old(st.Entries()), st.m.s, cfg, r)
    ensures DistinctIds(old(st.Entries())) ==>
              EndedAt(old(st.m.s), old(st.Entries()), st.m.s, o, r, at, st.m.definite,
                      st.m.failedRemoves > old(st.m.failedRemoves))
    ensures at == R1 ==> st.m.trace == old(st.m.trace)
    ensures |Used(old(st.Entries()))| == 256 ==>
              o == Failed && st.m.trace == old(st.m.trace) && st.Entries() == old(st.Entries())
    ensures (st.m.calm && Sound(old(st.m.trace)) && old(st.Entries()) == Keys(old(st.m.s)) && Ready(old(st.m.s), cfg)) ==>
              o == Done
  {
    hide AllLoaded, AllKeys, IsCurrentKey, OnlyVisible, PreviousConfigs, PreviousOf, Newest, Ids, MarkIds, Keep, EndedAt;
    hide Republished, DistinctIds, RetireAll, Used, Demote, DueEntries, Sound, Ready, PemFile.FittingKey, NamesOf;
    ghost var t0, s0, keys := st.m.trace, st.m.s, st.Entries();
    if Sound(t0) && keys == Keys(s0) { SoundDistinctKeys(t0); }
    o, r, at := AddAndPublish(st, cfg);
    if o != Done { return; }
    ghost var t1, s1 := st.m.trace, st.m.s;
    at := R9;
    if Sound(t0) && keys == Keys(s0) { SoundTtl(t0, t1); }
    var d, t8;
    o, d, t8 := RetireAndFinish(st, cfg.gracePeriod, r.config);
    PrefixTrans(t0, t1, st.m.trace);
    if o == Done { r := r.(deadline := d, prunedAt := t8); }
    if DistinctIds(keys) { EndsPublished(s0, keys, st.m.s, o, r, st.m.definite, st.m.failedRemoves > old(st.m.failedRemoves)); }
  }

  lemma EndsPublished(s0: Sys, keys: seq<Entry>, s1: Sys, o: Outcome, r: Cycle, definite: bool, stuck: bool)
    requires PreviousConfigs(s0.image, Demote(keys)) == Some(r.previous)
    requires Republished(s0.rrset, s1.rrset, r.config, r.previous)
    ensures EndedAt(s0, keys, s1, o, r, R9, definite, stuck)
  {
    hide PreviousConfigs, Republished;
  }

  lemma ReadyBasics(s: Sys, cfg: Settings)
    requires Ready(s, cfg)
    ensures cfg.kemId == PemFile.KEM_X25519 && |Used(Keys(s))| < 256 && s.clock > 0 && s.rrset != [] && Readable(s.rrset)
  {
    hide Readable, Used, PreviousConfigs;
  }

  lemma ReadyFits(tr: seq<Sys>, cfg: Settings, c: Config, publicKey: seq<byte>)
    requires Sound(tr) && Ready(Last(tr), cfg) && |publicKey| == 32 && c == NewConfig(cfg, c.configId, publicKey)
    ensures var previous := PreviousConfigs(Last(tr).image, Demote(Keys(Last(tr))));
            previous.Some? && ListEncodable(List([c] + previous.value, [])) && ListEncodable(List([c], []))
  {
    hide IsRun, ListEncodable, PreviousConfigs, QuotelessSet, Readable, Used;
    PreviousReadable(tr);
    var previous := PreviousConfigs(Last(tr).image, Demote(Keys(Last(tr)))).value;
    assert Fits(cfg, previous, c.configId, publicKey);
    FirstPartFits([c], previous);
  }

  lemma ReadyOverlap(image: Image, keys: seq<Entry>, c: Config, e: Entry)
    requires PreviousConfigs(image, keys).Some? && ListEncodable(List([c] + PreviousConfigs(image, keys).value, []))
    requires keys != [] && keys[|keys| - 1] == e && e.configId == c.configId
    ensures OverlapFits(image, keys, c)
  {
    hide PreviousConfigs, ListEncodable;
    assert e in keys;
  }

  lemma PublishedNonempty(texts0: seq<string>, texts1: seq<string>, configs: seq<Config>)
    requires PublishedAs(texts0, texts1, configs) && texts0 != []
    ensures texts1 != []
  {
    hide ListEncodable, ListBytes, Patched;
    PatchedAllPointwise(texts0, Base64.Encode(ListBytes(List(configs, []))));
  }

  lemma SoundTtl(a: seq<Sys>, b: seq<Sys>)
    requires a <= b && a != [] && Sound(b)
    ensures Last(b).ttl == Last(a).ttl
  {
    hide IsRun, QuotelessSet;
    SameTtl(a, b);
  }
}
