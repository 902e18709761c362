/** cmd/ech-keymgr: the commands that change the world, and what holds over every sequence of them. */
module Commands {
  import opened Prelude
  import opened EchConfig
  import Base64
  import PemFile
  import Svcb
  import SvcParams
  import opened HttpsRecords
  import opened Protocol
  import opened Machine
  import opened KeyIndex
  import opened Keystore
  import opened Rotation
  import opened ConfigIds
  import opened RotatorSteps
  import opened Rotator
  import Convergence

  // ---------------------------------------------------------------- init

  /** The list with one empty entry of version 0. */
  const PLACEHOLDER: seq<byte> := [0, 4, 0, 0, 0, 0]

  function PlaceholderText(): string {
    Svcb.Print(Svcb.Record(1, ".", [Svcb.Param(Svcb.ECH, Base64.Encode(PLACEHOLDER))]))
  }

  /** The placeholder decodes, to a list without any usable config. */
  lemma PlaceholderDecodes()
    ensures DecodeList(PLACEHOLDER) == Ok(List([], [UnknownEntry(0, [])]))
  {
    var wire: seq<byte> := [0, 0, 0, 0];
    assert PLACEHOLDER[2..] == wire;
    assert ReadPrefixed16(PLACEHOLDER).value.value == wire;
    var rest: seq<byte> := [0, 0];
    assert wire[2..] == rest && rest[2..] == [];
    assert rest[2..2] == [];
    assert ReadU16(wire) == Some(Read(0, rest));
    assert ReadPrefixed16(rest) == Some(Read([], []));
    assert Split([]) == Ok([]);
    assert Split(wire) == Ok([Raw(0, [])] + []);
    assert [Raw(0, [])] + [] == [Raw(0, [])];
    var raws := [Raw(0, [])];
    assert raws[1..] == [];
    assert ListOf(raws[1..]) == Ok(List([], []));
    assert [UnknownEntry(0, [])] + [] == [UnknownEntry(0, [])];
  }

  /** A client that reads the placeholder record finds no config, and a publish rewrites the record faithfully. */
  lemma PlaceholderAdvertisesNothing()
    ensures Advertised(PlaceholderText()) == [] && CleanText(PlaceholderText()) && QuotelessText(PlaceholderText())
    ensures Svcb.ParseText(PlaceholderText())
         == Ok(Svcb.Record(1, ".", [Svcb.Param(Svcb.ECH, Base64.Encode(PLACEHOLDER))]))
  {
    hide Svcb.ParseText, Svcb.Print, DecodeList, Base64.Decode, Base64.Encode;
    var r := Svcb.Record(1, ".", [Svcb.Param(Svcb.ECH, Base64.Encode(PLACEHOLDER))]);
    SvcParams.EncodedIsEscapeFree(PLACEHOLDER);
    Svcb.TextRoundTrip(r);
    Base64.RoundTrip(PLACEHOLDER);
    PlaceholderDecodes();
    assert SvcParams.GetEch(r) == Some(Base64.Encode(PLACEHOLDER));
  }

  /** The record as it is written. */
  lemma PlaceholderIs()
    ensures PlaceholderText() == "1 . ech=\"AAQAAAAA\""
  {
    hide Svcb.Escape, Svcb.PrintParams, Svcb.Decimal, Base64.Encode;
    PlaceholderBase64();
    OneParam("AAQAAAAA");
    OneIsOne();
    PlaceholderPieces();
  }

  lemma OneIsOne()
    ensures Svcb.Decimal(1) == "1"
  {
  }

  lemma OneParam(value: string)
    requires Svcb.EscapeFree(value) && value != ""
    ensures Svcb.PrintParams([Svcb.Param(Svcb.ECH, value)]) == " " + Svcb.ECH + "=\"" + value + "\""
  {
    hide Svcb.Escape, Svcb.EscapeFree;
    var p := Svcb.Param(Svcb.ECH, value);
    Svcb.EscapeIdentity(value);
    assert [p][1..] == [] && Svcb.PrintParams([]) == "";
    assert Svcb.PrintParams([p]) == Svcb.PrintParam(p) + "";
  }

  lemma PlaceholderPieces()
    ensures " " + Svcb.ECH + "=\"" + "AAQAAAAA" + "\"" == " ech=\"AAQAAAAA\""
    ensures "1" + (" " + ("." + " ech=\"AAQAAAAA\"")) == "1 . ech=\"AAQAAAAA\""
  {
  }

  lemma PlaceholderBase64()
    ensures Base64.Encode(PLACEHOLDER) == "AAQAAAAA"
  {
    var tail: seq<byte> := [0, 0, 0];
    assert PLACEHOLDER[3..] == tail;
    ThreeZeros(tail);
    assert Base64.Encode(PLACEHOLDER) == "AAQA" + "AAAA";
  }

  lemma ThreeZeros(b: seq<byte>)
    requires b == [0, 0, 0]
    ensures Base64.Encode(b) == "AAAA"
  {
    assert b[3..] == [] && Base64.Encode([]) == "";
  }

  lemma PlaceholderBacked(s: Sys)
    ensures Backed(s, [PlaceholderText()]) && QuotelessSet([PlaceholderText()])
  {
    hide Advertised, QuotelessText, AllLoaded, PlaceholderText, Holds, Base64.Encode, Svcb.Print, Svcb.ParseText;
    PlaceholderAdvertisesNothing();
  }

  /** doInit: refuses when there is any record, otherwise writes the placeholder. */
  method InitRecord(m: Host) returns (o: Outcome)
    requires m.Valid()
    modifies m
    ensures m.Valid() && old(m.trace) <= m.trace
    ensures o == Done ==> old(m.s.rrset) == [] && m.s.rrset == ["1 . ech=\"AAQAAAAA\""] == [PlaceholderText()]
    ensures old(m.s.rrset) != [] ==> o != Done && m.s.rrset == old(m.s.rrset)
    ensures m.s.image == old(m.s.image) && m.s.ttl == old(m.s.ttl) && old(m.s.clock) <= m.s.clock
    ensures Sound(old(m.trace)) ==> Sound(m.trace)
    ensures m.calm && old(m.s.rrset) == [] ==> o == Done
  {
    hide Quiet, IsRun, QuotelessSet, Backed, Puts, AllLoaded, PlaceholderText;
    ghost var t0 := m.trace;
    var missing, existing;
    o, missing, existing := m.GetRRset();
    QuietSound(t0, m.trace);
    ghost var t1 := m.trace;
    if o == Done && existing != [] { return Failed; }
    if o != Done && !missing { return; }
    var texts := [PlaceholderText()];
    PlaceholderIs();
    PlaceholderBacked(m.s);
    o := m.PutRRset(texts);
    PutsFacts(t1, m.trace, texts, o);
    if Sound(t0) { StillQuoteless(Last(t1).rrset, Ok(texts), m.s.rrset); }
    PrefixTrans(t0, t1, m.trace);
  }

  // ---------------------------------------------------------------- opening the store

  lemma OpenedFacts(a: seq<Sys>, b: seq<Sys>, o: Outcome)
    requires a != [] && Moves(a, b, Last(a).image.(index := Some(Index(Keys(Last(a))))), o)
    ensures a <= b && (Sound(a) ==> Sound(b))
    ensures Keys(Last(b)) == Keys(Last(a)) && Last(b).image.files == Last(a).image.files
    ensures Last(b).rrset == Last(a).rrset && Last(b).ttl == Last(a).ttl && Last(a).clock <= Last(b).clock
  {
    hide IsRun, QuotelessSet, StablyPermitted, Visible, AllLoaded;
    SamePermitted(Last(a));
  }

  /** openStore: afterwards memory mirrors the disk, and nothing but a missing index has changed. */
  method Open(m: Host) returns (o: Outcome, st: Store?)
    requires m.Valid()
    modifies m
    ensures m.Valid() && old(m.trace) <= m.trace && (Sound(old(m.trace)) ==> Sound(m.trace))
    ensures Keys(m.s) == Keys(old(m.s)) && m.s.image.files == old(m.s.image).files && m.s.rrset == old(m.s.rrset)
    ensures m.s.ttl == old(m.s.ttl) && old(m.s.clock) <= m.s.clock
    ensures o == Done ==> st != null && fresh(st) && fresh(st.buf) && st.m == m && InSync(st)
    ensures !Legible(old(m.s)) ==> o != Done && m.s.image == old(m.s.image)
    ensures m.calm && Legible(old(m.s)) ==> o == Done
  {
    hide Moves, Sound;
    o, st := Store.OpenOrInit(m);
    OpenedFacts(old(m.trace), m.trace, o);
    if !Legible(Last(old(m.trace))) { QuietImages(old(m.trace), m.trace); }
  }

  /** The index is missing or complete. */
  predicate Legible(s: Sys) {
    s.image.index.Some? ==> s.image.index.value.Index?
  }

  // ---------------------------------------------------------------- rotate

  lemma SamePrevious(a: Image, b: Image, keys: seq<Entry>)
    requires a.files == b.files
    ensures PreviousConfigs(a, keys) == PreviousConfigs(b, keys)
  {
    hide FileKey, ReadKey, FileConfigs, Newest, PreviousOf;
    SameFiles(a, b);
    FileConfigsForeign(a, b, Newest(PreviousOf(keys)));
  }

  lemma CompletedFrom(s: Sys, t: Sys, keys: seq<Entry>, s1: Sys, cfg: Settings, r: Cycle)
    requires Completed(t, keys, s1, cfg, r)
    requires t.image.files == s.image.files && t.rrset == s.rrset && s.clock <= t.clock
    ensures Completed(s, keys, s1, cfg, r)
  {
    hide PreviousConfigs, Republished, CycleEntries, BeforePrune, Used, PemFile.FittingKey;
    SamePrevious(s.image, t.image, Demote(keys));
  }

  lemma ReadyLater(s: Sys, t: Sys, cfg: Settings)
    requires Ready(s, cfg) && Keys(t) == Keys(s) && t.image.files == s.image.files && t.rrset == s.rrset && s.clock <= t.clock
    ensures Ready(t, cfg)
  {
    hide PreviousConfigs, Fits, Used, Readable;
    SamePrevious(s.image, t.image, Demote(Keys(s)));
  }

  /** rotateOne, one daemon tick: reopen the store from disk and run one cycle. */
  method RotateOne(m: Host, cfg: Settings) returns (o: Outcome, ghost r: Cycle)
    requires m.Valid()
    modifies m
    ensures m.Valid() && old(m.trace) <= m.trace
    ensures Sound(old(m.trace)) && old(m.s).ttl <= cfg.gracePeriod ==> Sound(m.trace)
    ensures o == Done && DistinctIds(Keys(old(m.s))) ==>
              m.s.loaded == AllKeys(m.s.image) && Completed(old(m.s), Keys(old(m.s)), m.s, cfg, r)
    ensures |Used(Keys(old(m.s)))| == 256 ==> o != Done && Keys(m.s) == Keys(old(m.s)) && m.s.rrset == old(m.s.rrset)
    ensures m.calm && Sound(old(m.trace)) && Legible(old(m.s)) && Ready(old(m.s), cfg) ==> o == Done
  {
    hide Sound, DistinctIds, AllLoaded, AllKeys, Completed, Used, Ready;
    ghost var t0, s0 := m.trace, m.s;
    r := Cycle(FRESH, Entry(Name(0, 0, None), 0, Current, 0, 0, 0), [], [], [], 0, 0, 0);
    var st;
    o, st := Open(m);
    if o != Done { return; }
    ghost var t1, s1 := m.trace, m.s;
    if Ready(s0, cfg) { ReadyLater(s0, s1, cfg); }
    ghost var at;
    o, r, at := Rotate(st, cfg);
    PrefixTrans(t0, t1, m.trace);
    if o == Done && DistinctIds(Keys(s0)) { CompletedFrom(s0, s1, Keys(s0), m.s, cfg, r); }
  }

  // ---------------------------------------------------------------- keygen

  function KeygenSettings(publicName: seq<byte>): Settings {
    Settings(PemFile.KEM_X25519, [CipherSuite(1, 1), CipherSuite(1, 3)], 64, publicName, 0, 0)
  }

  /** doKeygen: a new current key with the least free config_id; no reload, no DNS. */
  method Keygen(m: Host, publicName: seq<byte>) returns (o: Outcome, e: Entry)
    requires m.Valid()
    modifies m
    ensures m.Valid() && old(m.trace) <= m.trace && m.s.rrset == old(m.s.rrset)
    ensures Sound(old(m.trace)) ==> Sound(m.trace)
    ensures o == Done ==>
              && Keys(m.s) == Demote(Keys(old(m.s))) + [e] && e.state == Current && e.name.id == e.configId
              && e.configId as int !in Used(Keys(old(m.s))) && (forall v | 0 <= v < e.configId as int :: v in Used(Keys(old(m.s))))
              && m.s.image.files - {e.name} == old(m.s.image).files - {e.name}
              && FileKey(m.s.image, e.name).Some? && SecretFits(m.s, e, FileKey(m.s.image, e.name).value)
              && var c := FileKey(m.s.image, e.name).value;
                 && |c.publicKey| == 32
                 && c == Config(e.configId, 0x0020, c.publicKey, [CipherSuite(1, 1), CipherSuite(1, 3)], 64, publicName, [])
    ensures |Used(Keys(old(m.s)))| == 256 ==> o != Done && Keys(m.s) == Keys(old(m.s))
    ensures (m.calm && Legible(old(m.s)) && old(m.s).clock > 0 && |Used(Keys(old(m.s)))| < 256
             && 1 <= |publicName| <= 0xFF) ==> o == Done
  {
    hide Sound, DistinctIds, Used, ListEncodable, Newest, FileKey, PemFile.FittingKey, Demote, FailedAdd, KeyBlocks, Quiet;
    hide PemFile.Matched, PemFile.KeyOf, PemFile.ParsedFile;
    ghost var t0, s0 := m.trace, m.s;
    e := Entry(Name(0, 0, None), 0, Current, 0, 0, 0);
    var st;
    o, st := Open(m);
    if o != Done { return; }
    ghost var t1, s1 := m.trace, m.s;
    var kp := m.GenerateKeyPair(PemFile.KEM_X25519);
    if kp.None? { return Failed, e; }
    var listed := st.List();
    NewestMembers(st.Entries());
    UsedNewest(listed, st.Entries());
    UsedBound(st.Entries());
    var choice := LeastFree(listed);
    if !choice.Chosen? { return Failed, e; }
    var c := NewConfig(KeygenSettings(publicName), choice.id, kp.value.publicKey);
    OverlapListFits([c], 2, |publicName|);
    o, e := StoreKey(st, c, kp.value);
    if o == Done { FittingSecret(m.s.image, e.name); }
    PrefixTrans(t0, t1, m.trace);
  }

  // ---------------------------------------------------------------- from nothing to a published key

  /** Exactly which stores a calm machine can rotate, when the previous keys have the shape of the new one. */
  lemma ReadyBySize(s: Sys, cfg: Settings, previous: seq<Config>)
    requires PreviousConfigs(s.image, Demote(Keys(s))) == Some(previous)
    requires Uniform(previous, 32, |cfg.cipherSuites|, |cfg.publicName|)
    ensures Ready(s, cfg) <==>
              && cfg.kemId == PemFile.KEM_X25519 && |Used(Keys(s))| < 256 && s.clock > 0
              && s.rrset != [] && Readable(s.rrset)
              && 1 <= |cfg.cipherSuites| && 1 <= |cfg.publicName| <= 0xFF
              && (1 + |previous|) * (47 + 4 * |cfg.cipherSuites| + |cfg.publicName|) <= 0xFFFF
  {
    hide PreviousConfigs, Used, Readable, ListEncodable, Demote;
    forall id: byte, pk: seq<byte> | |pk| == 32
      ensures Fits(cfg, previous, id, pk) <==>
                && 1 <= |cfg.cipherSuites| && 1 <= |cfg.publicName| <= 0xFF
                && (1 + |previous|) * (47 + 4 * |cfg.cipherSuites| + |cfg.publicName|) <= 0xFFFF
    {
      OverlapListFits([NewConfig(cfg, id, pk)] + previous, |cfg.cipherSuites|, |cfg.publicName|);
    }
    var zeros := seq<byte>(32, i => 0);
    assert |zeros| == 32;
    assert Ready(s, cfg) ==> Fits(cfg, previous, 0, zeros);
  }

  lemma NoPrevious(image: Image)
    ensures PreviousConfigs(image, Demote([])) == Some([])
  {
    hide FileKey;
    assert Demote([]) == [];
    assert PreviousOf([]) == [] && Newest([]) == [];
  }

  lemma PlaceholderReadable()
    ensures Readable([PlaceholderText()])
  {
    hide Svcb.ParseText, PlaceholderText, Svcb.Print, Base64.Encode;
    PlaceholderAdvertisesNothing();
  }

  /** init and then rotate, on a calm machine with an empty store and no record: the one record carries the new key. */
  method Bootstrap(m: Host, cfg: Settings) returns (o: Outcome, ghost r: Cycle)
    requires m.Valid() && m.calm && Sound(m.trace) && Legible(m.s) && Keys(m.s) == [] && m.s.rrset == [] && m.s.clock > 0
    requires cfg.kemId == PemFile.KEM_X25519 && 1 <= |cfg.cipherSuites| && 1 <= |cfg.publicName| <= 0xFF
    requires 47 + 4 * |cfg.cipherSuites| + |cfg.publicName| <= 0xFFFF
    modifies m
    ensures o == Done && |m.s.rrset| == 1 && Advertised(m.s.rrset[0]) == [r.config]
    ensures exists e :: Holds(m.s, e, r.config) && SecretFits(m.s, e, r.config) && e.state == Current
  {
    hide Sound, PlaceholderText, Advertised, Completed, Readable, IsAlias, PreviousConfigs, Uniform, Ready;
    hide DistinctIds, FileKey;
    o := InitRecord(m);
    ghost var ready := m.trace;
    NoPrevious(m.s.image);
    PlaceholderReadable();
    assert Uniform([], 32, |cfg.cipherSuites|, |cfg.publicName|) by { NoneUniform(|cfg.cipherSuites|, |cfg.publicName|); }
    assert Used([]) == {};
    ReadyBySize(m.s, cfg, []);
    o, r := RotateOne(m, cfg);
    SoundDistinctKeys(ready);
    PlaceholderIsService();
    OneRecordDelivered(ready, m.s, cfg, r);
  }

  lemma OneRecordDelivered(run: seq<Sys>, s1: Sys, cfg: Settings, r: Cycle)
    requires Sound(run) && Completed(Last(run), Keys(Last(run)), s1, cfg, r)
    requires |Last(run).rrset| == 1 && !IsAlias(Last(run).rrset[0])
    ensures |s1.rrset| == 1 && Advertised(s1.rrset[0]) == [r.config]
    ensures exists e :: Holds(s1, e, r.config) && SecretFits(s1, e, r.config) && e.state == Current
  {
    hide Sound, Completed, Advertised, IsAlias, Svcb.ParseText, Convergence.Carrying, FileKey, QuotelessSet, ListEncodable;
    Convergence.CycleDelivers(run, s1, cfg, r);
    var e :| Holds(s1, e, r.config) && e.state == Current;
    HeldSecretFits(s1, e, r.config);
  }

  lemma HeldSecretFits(s: Sys, e: Entry, c: Config)
    requires Holds(s, e, c)
    ensures SecretFits(s, e, c)
  {
    hide FileKey, Secret;
    FittingSecret(s.image, e.name);
  }

  lemma NoneUniform(s: nat, p: nat)
    ensures Uniform([], 32, s, p)
  {
  }

  lemma PlaceholderIsService()
    ensures !IsAlias(PlaceholderText())
  {
    hide Svcb.ParseText, PlaceholderText, Advertised, Svcb.Print, Base64.Encode;
    PlaceholderAdvertisesNothing();
  }

  // ---------------------------------------------------------------- every run

  /** No downtime (A1), over everything: start the tool on a run so far, then let any n commands and environment steps
      follow, each failing or crashing anywhere. In every state ever passed through, each config that a client can
      still use is loaded by the server and has its complete indexed key file, and a published one is not in grace.
      Once all 256 config_ids are in use, the index never changes again. */
  method Operate(m: Host, cfg: Settings, n: nat)
    requires m.Valid() && Sound(m.trace) && m.s.ttl <= cfg.gracePeriod
    modifies m
    ensures m.Valid() && Sound(m.trace) && old(m.trace) <= m.trace
    ensures forall i, c | 0 <= i < |m.trace| && Usable(m.trace[i], c) ::
              && c in m.trace[i].loaded && c in AllKeys(m.trace[i].image)
              && exists e :: Holds(m.trace[i], e, c) && SecretFits(m.trace[i], e, c) && (Visible(m.trace[i], c) ==> e.state != Grace)
    ensures |Used(Keys(old(m.s)))| == 256 ==> Keys(m.s) == Keys(old(m.s))
  {
    hide Sound, Used, Usable, Holds, SecretFits, AllKeys, Visible, Quiet;
    ghost var t0, s0 := m.trace, m.s;
    for i := 0 to n
      invariant m.Valid() && Sound(m.trace) && t0 <= m.trace
      invariant |Used(Keys(s0))| == 256 ==> Keys(m.s) == Keys(s0)
    {
      ghost var t1 := m.trace;
      SoundTtl(t0, t1);
      if * {
        var o;
        ghost var r;
        o, r := RotateOne(m, cfg);
      } else if * {
        var publicName: seq<byte> :| true;
        var o, e := Keygen(m, publicName);
      } else if * {
        var o := InitRecord(m);
      } else {
        m.Env();
        QuietSound(t1, m.trace);
      }
      PrefixTrans(t0, t1, m.trace);
    }
    SoundIsRun(m.trace);
    forall i, c | 0 <= i < |m.trace| && Usable(m.trace[i], c)
      ensures c in m.trace[i].loaded && c in AllKeys(m.trace[i].image)
      ensures exists e :: Holds(m.trace[i], e, c) && SecretFits(m.trace[i], e, c) && (Visible(m.trace[i], c) ==> e.state != Grace)
    {
      NoDowntime(m.trace, i, c);
      RestartIsSafe(m.trace, i, c);
    }
  }

  lemma SoundIsRun(tr: seq<Sys>)
    requires Sound(tr)
    ensures IsRun(tr)
  {
  }
}
