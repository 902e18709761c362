/** Why the grace period must cover the time to live: the code does not check it, and without it the rotation drops a
    key that a client still uses. */
module GracePeriod {
  import opened Prelude
  import opened EchConfig
  import Base64
  import PemFile
  import Svcb
  import opened HttpsRecords
  import opened Protocol
  import opened Machine
  import opened KeyIndex
  import opened Keystore
  import opened Rotation
  import opened RotatorSteps
  import opened Commands

  /** As between R4 and R6: the i-th key is Previous and still published, its file is the only one with its config, and
      solo is a record set to publish without it. */
  ghost predicate Overlapping(s: Sys, i: nat, c: Config, solo: seq<string>) {
    && Inv(s) && s.clock > 0
    && i < |Keys(s)| && Keys(s)[i].state == Previous && Holds(s, Keys(s)[i], c) && Visible(s, c)
    && (forall n | n in s.image.files && n != Keys(s)[i].name :: FileKey(s.image, n) != Some(c))
    && (forall r | r in solo :: Servable(s, r) && c !in Advertised(r))
  }

  /** A client reads the overlap list and may keep it for the time to live. */
  function Queried(s: Sys, c: Config): Sys {
    s.(cached := s.cached + {Cached(c, s.clock + s.ttl)})
  }

  function Shrunk(s: Sys, solo: seq<string>): Sys {
    s.(rrset := solo)
  }

  /** R7 for all previous keys, a grace period ahead. */
  function RetiredKeys(s: Sys, grace: nat): Sys {
    s.(image := s.image.(index := Some(Index(RetireAll(Keys(s), s.clock + grace)))))
  }

  function Later(s: Sys, d: nat): Sys {
    s.(clock := s.clock + d)
  }

  /** R8 and R9. */
  function PrunedAndReloaded(s: Sys): Sys {
    var image := WithoutFiles(s.image, DueEntries(Keys(s), s.clock)).(index := Some(Index(Keep(Keys(s), s.clock))));
    s.(image := image, loaded := AllKeys(image))
  }

  /** A query during the overlap, then R6 to R9 with no delay but the grace period. */
  function Timeline(s: Sys, c: Config, solo: seq<string>, grace: nat): Sys {
    PrunedAndReloaded(Later(RetiredKeys(Shrunk(Queried(s, c), solo), grace), grace))
  }

  /** The query and the shrinking are steps of the protocol; R7's deadline then is what breaks it. At the next prune
      after the grace period the cached copy is unexpired, but the key is gone from the directory and the server. */
  lemma ShortGraceLosesAKey(s: Sys, i: nat, c: Config, solo: seq<string>, grace: nat)
    requires Overlapping(s, i, c, solo) && grace < s.ttl
    ensures Step(s, Queried(s, c)) && Step(Queried(s, c), Shrunk(Queried(s, c), solo))
    ensures var end := Timeline(s, c, solo, grace);
            Usable(end, c) && c !in end.loaded && forall e :: !Holds(end, e, c)
  {
    hide Advertised, FileKey, FileStep, IndexStep, OneCurrent, FilesPresent, PublishedServed, CachedServed, Keep;
    hide DueEntries;
    var b := Shrunk(Queried(s, c), solo);
    QueryAndShrink(s, c, solo);
    var e := Keys(s)[i];
    var late := Later(RetiredKeys(b, grace), grace);
    var gone := Keys(late)[i];
    assert gone == Retired(e, s.clock + grace);
    DueMembers(Keys(late), late.clock);
    assert gone in DueEntries(Keys(late), late.clock) && gone.name == e.name;
    var end := PrunedAndReloaded(late);
    FileLost(s.image, late.image, end.image, e.name, c);
    assert Cached(c, s.clock + s.ttl) in end.cached;
  }

  lemma QueryAndShrink(s: Sys, c: Config, solo: seq<string>)
    requires Visible(s, c) && forall r | r in solo :: Servable(s, r)
    ensures Step(s, Queried(s, c)) && Step(Queried(s, c), Shrunk(Queried(s, c), solo))
  {
    hide Advertised, FileKey, FileStep, IndexStep, AllKeys;
    var k := Cached(c, s.clock + s.ttl);
    assert Visible(s, k.config) && Query(s, Queried(s, c));
    var a := Queried(s, c);
    forall r | r in solo ensures Servable(a, r) {
      forall x | x in Advertised(r) ensures x in a.loaded && exists e :: Holds(a, e, x) && e.state != Grace {
        var e :| Holds(s, e, x) && e.state != Grace;
        assert Holds(a, e, x);
      }
    }
    assert DnsStep(a, Shrunk(a, solo));
  }

  lemma FileLost(before: Image, late: Image, after: Image, name: Name, c: Config)
    requires late.files == before.files && after.files == before.files - (before.files.Keys - after.files.Keys)
    requires name !in after.files && forall n | n in before.files && n != name :: FileKey(before, n) != Some(c)
    ensures c !in AllKeys(after) && forall n :: FileKey(after, n) != Some(c)
  {
    hide PemFile.FittingKey;
    forall n ensures FileKey(after, n) != Some(c) {
      if n in after.files { assert after.files[n] == before.files[n]; }
    }
  }

  // ---------------------------------------------------------------- an overlap state

  const SETTINGS: Settings := KeygenSettings([97])

  function ExamplePair(): PemFile.KeyPair {
    var secret: PemFile.Key32 := seq<byte>(32, i => 0);
    PemFile.KeyPair(PemFile.KEM_X25519, PemFile.PublicOf(secret), secret)
  }

  function ExampleConfig(id: byte): Config {
    NewConfig(SETTINGS, id, ExamplePair().publicKey)
  }

  function ExampleEntry(id: byte): Entry {
    Entry(Name(0, id, None), id, Current, id as int, 0, 0)
  }

  ghost function ExampleBlocks(id: byte): seq<PemFile.Block>
    requires ListEncodable(List([ExampleConfig(id)], []))
  {
    KeyBlocks(ExampleConfig(id), ExamplePair())
  }

  lemma ExamplesFit(configs: seq<Config>)
    requires 1 <= |configs| <= 2 && forall c | c in configs :: exists id :: c == ExampleConfig(id)
    ensures ListEncodable(List(configs, []))
  {
    hide ListEncodable;
    OverlapListFits(configs, 2, 1);
  }

  lemma ExampleFits(id: byte)
    ensures ListEncodable(List([ExampleConfig(id)], [])) && PemFile.FittingKey(ExampleBlocks(id)) == Some(ExampleConfig(id))
    ensures ExampleConfig(id).configId == id
  {
    hide ListEncodable, PemFile.FittingKey, PemFile.KeyOf, PemFile.ParsedFile;
    ExamplesFit([ExampleConfig(id)]);
    PemFile.StoredKeyReadsBack(ExamplePair(), ExampleConfig(id));
  }

  /** A new key's file and then its entry. */
  lemma StoredStep(run: seq<Sys>, id: byte) returns (longer: seq<Sys>)
    requires IsRun(run) && run != [] && (forall e | e in Keys(Last(run)) :: e.configId != id && e.name.id != id)
    requires Last(run).image.index.Some?
    ensures IsRun(longer) && longer != []
    ensures var s, t, n := Last(run), Last(longer), Name(0, id, None);
            && t == s.(image := t.image) && Keys(t) == Demote(Keys(s)) + [ExampleEntry(id)] && t.image.index.Some?
            && FileKey(t.image, n) == Some(ExampleConfig(id))
            && (forall x | x != n :: FileKey(t.image, x) == FileKey(s.image, x))
            && t.image.files.Keys == s.image.files.Keys + {n}
  {
    hide IsRun, ListEncodable, PemFile.FittingKey, ExampleBlocks, Visible, EnvStep, TmpStep, DnsStep;
    ExampleFits(id);
    var s, n := Last(run), Name(0, id, None);
    PlacedFiles(s.image, n, Pem(ExampleBlocks(id)));
    var t := s.(image := Placed(s.image, KeyFile(n), Pem(ExampleBlocks(id))));
    assert FileStep(s, t);
    RunExtends(run, t);
    var e := ExampleEntry(id);
    assert Permitted(t, Protocol.Insert(e));
    var u := t.(image := t.image.(index := Some(Index(Demote(Keys(t)) + [e]))));
    assert IndexStep(t, u);
    RunExtends(run + [t], u);
    SameFiles(t.image, u.image);
    longer := run + [t] + [u];
  }

  function Started(ttl: nat): Sys {
    Sys(1, Image(Some(Index([])), map[]), map[], [PlaceholderText()], {}, {}, ttl)
  }

  /** The placeholder, two stored keys, a reload: a run up to R4. */
  lemma TwoKeys(ttl: nat) returns (run: seq<Sys>)
    ensures IsRun(run) && run != [] && AllLoaded(Last(run))
    ensures var s := Last(run);
            && s.clock == 1 && s.ttl == ttl && s.rrset == [PlaceholderText()]
            && Keys(s) == [ExampleEntry(1).(state := Previous), ExampleEntry(2)]
            && (forall n | n in s.image.files :: n == Name(0, 1, None) || n == Name(0, 2, None))
            && FileKey(s.image, Name(0, 1, None)) == Some(ExampleConfig(1))
            && FileKey(s.image, Name(0, 2, None)) == Some(ExampleConfig(2))
  {
    hide IsRun, PlaceholderText, Advertised, Step, FileKey, AllKeys, ExampleConfig, Demote;
    StartIsRun(ttl);
    run := StoredStep([Started(ttl)], 1);
    DemotedExample();
    run := StoredStep(run, 2);
    var s := Last(run);
    assert s.image.files.Keys == {} + {Name(0, 1, None)} + {Name(0, 2, None)};
    var t := s.(loaded := AllKeys(s.image));
    LoadIsStep(s);
    RunExtends(run, t);
    run := run + [t];
  }

  lemma StartIsRun(ttl: nat)
    ensures IsRun([Started(ttl)])
  {
    hide IsRun, Advertised, PlaceholderText, Base64.Encode, Svcb.Print, Svcb.ParseText, FileKey;
    PlaceholderAdvertisesNothing();
    assert forall r | r in Started(ttl).rrset :: r == PlaceholderText();
    FirstStateIsRun(Started(ttl));
  }

  lemma FirstStateIsRun(s: Sys)
    requires Init(s)
    ensures IsRun([s])
  {
    hide Step, Advertised;
  }

  lemma DemotedExample()
    ensures Demote([]) + [ExampleEntry(1)] == [ExampleEntry(1)]
    ensures Demote([ExampleEntry(1)]) + [ExampleEntry(2)] == [ExampleEntry(1).(state := Previous), ExampleEntry(2)]
  {
  }

  lemma LoadIsStep(s: Sys)
    ensures Step(s, s.(loaded := AllKeys(s.image)))
  {
    hide AllKeys, TmpStep, FileStep, IndexStep, DnsStep;
    assert Load(s, s.(loaded := AllKeys(s.image)));
  }

  lemma PublishedText(text: string, configs: seq<Config>) returns (out: string)
    requires QuotelessText(text) && IsService(text) && ListEncodable(List(configs, []))
    ensures QuotelessText(out) && IsService(out) && Advertised(out) == configs
  {
    hide Svcb.ParseText, Advertised, QuotelessText, ListEncodable, ListBytes, Base64.Encode, Patched, CleanText;
    var b64 := Base64.Encode(ListBytes(List(configs, [])));
    PatchedIsParsed(text, b64);
    out := Patched(text, b64).value;
    PatchedAdvertises(text, configs);
  }

  lemma SeedText()
    ensures QuotelessText(PlaceholderText()) && IsService(PlaceholderText())
  {
    hide Svcb.ParseText, PlaceholderText, QuotelessText, Advertised, CleanText;
    PlaceholderAdvertisesNothing();
  }

  /** For every time to live overlap states exist, at the end of a run: the placeholder record, patched to carry the
      second key and the first. The record that replaces it carries the second alone. */
  lemma OverlapExists(ttl: nat) returns (run: seq<Sys>, c: Config, next: Config, solo: seq<string>)
    ensures IsRun(run) && run != [] && Last(run).ttl == ttl && Overlapping(Last(run), 0, c, solo)
    ensures c != next && forall r | r in solo :: Advertised(r) == [next]
  {
    hide IsRun, ListEncodable, Advertised, QuotelessText, IsService, FileKey, Inv, AllKeys, Step;
    hide PlaceholderText, ExampleConfig;
    run := TwoKeys(ttl);
    var s := Last(run);
    var c1, c2 := ExampleConfig(1), ExampleConfig(2);
    c, next := c1, c2;
    DifferentExamples();
    SeedText();
    var both := PublishedText(PlaceholderText(), [c2, c1]);
    var alone := PublishedText(both, [c2]);
    solo := [alone];
    var t := s.(rrset := [both]);
    HeldAndLoaded(s, Keys(s)[0], c1);
    HeldAndLoaded(s, Keys(s)[1], c2);
    HeldAndLoaded(t, Keys(t)[0], c1);
    HeldAndLoaded(t, Keys(t)[1], c2);
    PublishIsStep(s, both);
    RunExtends(run, t);
    run := run + [t];
    RunKeepsInv(run, |run| - 1);
    assert c1 in [c2, c1] by { assert [c2, c1][1] == c1; }
    assert both in t.rrset && Visible(t, c1);
  }

  lemma DifferentExamples()
    ensures ExampleConfig(1) != ExampleConfig(2)
    ensures ListEncodable(List([ExampleConfig(2), ExampleConfig(1)], [])) && ListEncodable(List([ExampleConfig(2)], []))
  {
    hide ListEncodable;
    ExamplesFit([ExampleConfig(2), ExampleConfig(1)]);
    ExamplesFit([ExampleConfig(2)]);
  }

  lemma PublishIsStep(s: Sys, text: string)
    requires Servable(s, text)
    ensures Step(s, s.(rrset := [text]))
  {
    hide Servable, EnvStep, TmpStep, FileStep, IndexStep;
    assert DnsStep(s, s.(rrset := [text]));
  }

  lemma HeldAndLoaded(s: Sys, e: Entry, c: Config)
    requires AllLoaded(s) && e in Keys(s) && FileKey(s.image, e.name) == Some(c)
    ensures Holds(s, e, c) && c in s.loaded
  {
    hide FileKey, AllKeys;
    FileInAllKeys(s.image, e.name);
  }

  /** So with every grace period that is shorter than the time to live the tool can lose a key in use. */
  lemma ShortGraceHappens(ttl: nat, grace: nat) returns (run: seq<Sys>, c: Config, solo: seq<string>)
    requires grace < ttl
    ensures IsRun(run) && run != [] && Last(run).ttl == ttl
    ensures var end := Timeline(Last(run), c, solo, grace); Usable(end, c) && c !in end.loaded
  {
    hide IsRun, Overlapping, Timeline, Usable, Step, Advertised;
    var next;
    run, c, next, solo := OverlapExists(ttl);
    ShortGraceLosesAKey(Last(run), 0, c, solo, grace);
  }

  // ---------------------------------------------------------------- the exact condition

  /** At R7 the deadline outlives every cached copy of every retired config, in every run with this time to live. */
  ghost predicate DeadlinesSuffice(ttl: nat, grace: nat) {
    forall run, c | IsRun(run) && run != [] && Last(run).ttl == ttl && OnlyVisible(Last(run), c) ::
      Fading(Last(run), c, Last(run).clock + grace)
  }

  /** The run goes on from an overlap: a query, and R6. */
  lemma QueriedRun(ttl: nat) returns (run: seq<Sys>, c: Config, next: Config)
    ensures IsRun(run) && run != [] && Last(run).ttl == ttl && OnlyVisible(Last(run), next)
    ensures c != next && Cached(c, Last(run).clock + ttl) in Last(run).cached
  {
    hide IsRun, Step, Advertised, FileKey, Inv;
    var solo;
    run, c, next, solo := OverlapExists(ttl);
    var s := Last(run);
    QueryAndShrink(s, c, solo);
    RunExtends(run, Queried(s, c));
    RunExtends(run + [Queried(s, c)], Shrunk(Queried(s, c), solo));
    run := run + [Queried(s, c)] + [Shrunk(Queried(s, c), solo)];
  }

  /** Exactly when the deadlines that R7 sets protect every cached copy. */
  lemma GraceIsExact(ttl: nat, grace: nat)
    ensures DeadlinesSuffice(ttl, grace) <==> ttl <= grace
  {
    hide IsRun, OnlyVisible, Visible;
    if ttl <= grace {
      forall run, c | IsRun(run) && run != [] && Last(run).ttl == ttl && OnlyVisible(Last(run), c)
        ensures Fading(Last(run), c, Last(run).clock + grace)
      {
        FadingNow(run, c, grace);
      }
    } else {
      var run, c, next := QueriedRun(ttl);
      var k := Cached(c, Last(run).clock + ttl);
      assert k in Last(run).cached && k.config != next && k.expiry > Last(run).clock + grace;
      assert !Fading(Last(run), next, Last(run).clock + grace);
    }
  }
}
