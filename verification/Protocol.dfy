/** The rotation protocol as a transition system: the key directory, the server, the published records, the client
    caches and a clock, with the steps that the tool, the server, the clients and time itself may take. */
module Protocol {
  import opened Prelude
  import opened EchConfig
  import PemFile
  import opened HttpsRecords

  // ---------------------------------------------------------------- internal/keystore/types.go

  datatype State = Current | Previous | Grace

  /** A .ech file name: the second it was created in, the config_id and, after a collision, a random tag. */
  datatype Name = Name(stamp: int, id: byte, tag: Option<int>)

  /** Times are nanoseconds; 0 is Go's zero time. */
  datatype Entry = Entry(
    name: Name,
    configId: byte,
    state: State,
    createdAt: int,
    inDnsSince: int,
    dropAt: int)

  /** A grace entry whose deadline has passed at time t. */
  predicate Due(e: Entry, t: int) {
    e.state == Grace && e.dropAt != 0 && e.dropAt <= t
  }

  // ---------------------------------------------------------------- the system

  datatype Content = Torn | Pem(blocks: seq<PemFile.Block>) | Index(keys: seq<Entry>)

  datatype Target = IndexFile | KeyFile(name: Name)

  datatype Tmp = Tmp(target: Target, suffix: int)

  /** The visible part of the key directory: .meta.json, if there is one, and the .ech files. */
  datatype Image = Image(index: Option<Content>, files: map<Name, Content>)

  /** A config in some client's cache, until it expires. */
  datatype Cached = Cached(config: Config, expiry: int)

  datatype Sys = Sys(
    clock: int,
    image: Image,
    tmps: map<Tmp, Content>,
    rrset: seq<string>,
    loaded: set<Config>,
    cached: set<Cached>,
    ttl: nat)

  function IndexKeys(image: Image): seq<Entry> {
    if image.index.Some? && image.index.value.Index? then image.index.value.keys else []
  }

  function Keys(s: Sys): seq<Entry> {
    IndexKeys(s.image)
  }

  /** The config whose complete key file, with the private key that fits it, stands under a name. */
  function FileKey(image: Image, name: Name): Option<Config> {
    if name in image.files && image.files[name].Pem? then PemFile.FittingKey(image.files[name].blocks) else None
  }

  /** The config that the tool finds in the file of this name. It looks at no key. */
  function ReadKey(image: Image, name: Name): Option<Config> {
    if name in image.files && image.files[name].Pem? then PemFile.KeyOf(image.files[name].blocks) else None
  }

  lemma FittingIsRead(image: Image, name: Name)
    requires FileKey(image, name).Some?
    ensures ReadKey(image, name) == FileKey(image, name)
  {
    hide PemFile.KeyOf;
  }

  /** The private key in the file of this name. */
  function Secret(image: Image, name: Name): Option<PemFile.Key32> {
    if name in image.files && image.files[name].Pem? && PemFile.ParsedFile(image.files[name].blocks).Ok?
    then Some(PemFile.ParsedFile(image.files[name].blocks).value.keyPair.privateKey)
    else None
  }

  lemma FittingSecret(image: Image, name: Name)
    requires FileKey(image, name).Some?
    ensures Secret(image, name).Some?
    ensures PemFile.PublicOf(Secret(image, name).value) == FileKey(image, name).value.publicKey
  {
    hide PemFile.FittingKey, PemFile.ParsedFile;
    PemFile.FittingMeans(image.files[name].blocks, FileKey(image, name).value);
  }

  /** e's private key belongs to c. */
  ghost predicate SecretFits(s: Sys, e: Entry, c: Config) {
    Secret(s.image, e.name).Some? && PemFile.PublicOf(Secret(s.image, e.name).value) == c.publicKey
  }

  /** What a server that reads the whole directory can serve: it holds the private keys. */
  function AllKeys(image: Image): set<Config> {
    set n | n in image.files && FileKey(image, n).Some? :: FileKey(image, n).value
  }

  ghost predicate Visible(s: Sys, c: Config) {
    exists r | r in s.rrset :: c in Advertised(r)
  }

  /** e is the index entry of a complete key file holding c. */
  ghost predicate Holds(s: Sys, e: Entry, c: Config) {
    e in Keys(s) && FileKey(s.image, e.name) == Some(c)
  }

  // ---------------------------------------------------------------- index changes

  datatype Change =
    | Same
    | Insert(entry: Entry)
    | Mark(at: nat, time: int)
    | Retire(at: nat, deadline: int)
    | Prune(time: int)

  function Demote(keys: seq<Entry>): (r: seq<Entry>)
    ensures |r| == |keys|
    ensures forall i | 0 <= i < |r| :: r[i] == (if keys[i].state == Current then keys[i].(state := Previous) else keys[i])
  {
    seq(|keys|, i requires 0 <= i < |keys| =>
      if keys[i].state == Current then keys[i].(state := Previous) else keys[i])
  }

  function Keep(keys: seq<Entry>, t: int): seq<Entry> {
    if keys == [] then []
    else (if Due(keys[0], t) then [] else [keys[0]]) + Keep(keys[1..], t)
  }

  function Changed(keys: seq<Entry>, c: Change): seq<Entry> {
    match c
    case Same => keys
    case Insert(e) => Demote(keys) + [e]
    case Mark(i, t) => if i < |keys| then keys[i := keys[i].(inDnsSince := t)] else keys
    case Retire(i, d) => if i < |keys| then keys[i := keys[i].(state := Grace, dropAt := d)] else keys
    case Prune(t) => Keep(keys, t)
  }

  lemma {:induction false} KeepMembers(keys: seq<Entry>, t: int)
    ensures forall e :: e in Keep(keys, t) <==> e in keys && !Due(e, t)
  {
    hide Due;
    if keys != [] {
      KeepMembers(keys[1..], t);
      assert keys == [keys[0]] + keys[1..];
    }
  }

  /** What a prune keeps: every entry but those in grace whose deadline is set and not in the future. */
  lemma KeepExactly(keys: seq<Entry>, t: int)
    ensures forall e :: e in Keep(keys, t) <==> e in keys && (e.state == Grace && e.dropAt != 0 ==> t < e.dropAt)
  {
    hide Keep;
    KeepMembers(keys, t);
  }

  /** When the protocol permits an index change. */
  ghost predicate Permitted(s: Sys, c: Change) {
    match c
    case Same => true
    case Insert(e) =>
      && e.state == Current && e.name.id == e.configId
      && (forall o | o in Keys(s) :: o.configId != e.configId)
      && FileKey(s.image, e.name).Some? && FileKey(s.image, e.name).value.configId == e.configId
    case Mark(i, t) => true
    case Retire(i, d) =>
      && i < |Keys(s)| && Keys(s)[i].state == Previous
      && FileKey(s.image, Keys(s)[i].name).Some?
      && Expiring(s, FileKey(s.image, Keys(s)[i].name).value, d)
    case Prune(t) => t <= s.clock
  }

  /** No published record carries c any more, and no cached copy outlives d. */
  ghost predicate Expiring(s: Sys, c: Config, d: int) {
    !Visible(s, c) && forall k | k in s.cached && k.config == c :: k.expiry <= d
  }

  // ---------------------------------------------------------------- steps

  ghost predicate Tick(s: Sys, t: Sys) {
    s.clock <= t.clock && t == s.(clock := t.clock)
  }

  /** A client reads a published config and caches it for at most the time to live. */
  ghost predicate Query(s: Sys, t: Sys) {
    exists k: Cached :: Visible(s, k.config) && k.expiry <= s.clock + s.ttl && t == s.(cached := s.cached + {k})
  }

  /** The server starts anew or reloads. */
  ghost predicate Load(s: Sys, t: Sys) {
    t == s.(loaded := AllKeys(s.image))
  }

  ghost predicate EnvStep(s: Sys, t: Sys) {
    s == t || Tick(s, t) || Query(s, t) || Load(s, t)
  }

  ghost predicate TmpStep(s: Sys, t: Sys) {
    t == s.(tmps := t.tmps)
  }

  /** Key files come and go, except those that an entry still needs. */
  ghost predicate FileStep(s: Sys, t: Sys) {
    && t == s.(image := t.image) && t.image.index == s.image.index
    && forall e | e in Keys(s) && !Due(e, s.clock) :: FileKey(t.image, e.name) == FileKey(s.image, e.name)
  }

  ghost predicate IndexStep(s: Sys, t: Sys) {
    && t == s.(image := t.image) && t.image.files == s.image.files
    && exists c :: Permitted(s, c) && t.image.index == Some(Index(Changed(Keys(s), c)))
  }

  /** Every config in the record is loaded and held by an entry that is not in grace. */
  ghost predicate Servable(s: Sys, text: string) {
    forall c | c in Advertised(text) :: c in s.loaded && exists e :: Holds(s, e, c) && e.state != Grace
  }

  ghost predicate DnsStep(s: Sys, t: Sys) {
    && t == s.(rrset := t.rrset)
    && forall r | r in t.rrset :: r in s.rrset || Servable(s, r)
  }

  ghost predicate Step(s: Sys, t: Sys) {
    EnvStep(s, t) || TmpStep(s, t) || FileStep(s, t) || IndexStep(s, t) || DnsStep(s, t)
  }

  /** At the beginning: an empty store, a record set that advertises nothing (the placeholder), empty caches. */
  ghost predicate Init(s: Sys) {
    Keys(s) == [] && s.cached == {} && forall r | r in s.rrset :: Advertised(r) == []
  }

  ghost predicate IsRun(run: seq<Sys>) {
    && run != [] && Init(run[0])
    && forall i | 0 <= i < |run| - 1 :: Step(run[i], run[i + 1])
  }

  // ---------------------------------------------------------------- the invariant

  ghost predicate DistinctIds(keys: seq<Entry>) {
    && (forall i, j | 0 <= i < j < |keys| :: keys[i].configId != keys[j].configId)
    && (forall e | e in keys :: e.name.id == e.configId)
  }

  /** Exactly one entry is Current once there is any. */
  ghost predicate OneCurrent(keys: seq<Entry>) {
    && (keys != [] ==> exists i | 0 <= i < |keys| :: keys[i].state == Current)
    && (forall i, j | 0 <= i < j < |keys| :: !(keys[i].state == Current && keys[j].state == Current))
  }

  /** Every entry that is not due has its complete file. */
  ghost predicate FilesPresent(s: Sys) {
    forall e | e in Keys(s) && !Due(e, s.clock) ::
      FileKey(s.image, e.name).Some? && FileKey(s.image, e.name).value.configId == e.configId
  }

  ghost predicate PublishedServed(s: Sys) {
    forall c | Visible(s, c) :: c in s.loaded && exists e :: Holds(s, e, c) && e.state != Grace
  }

  ghost predicate Outlasts(e: Entry, expiry: int) {
    e.state == Grace && e.dropAt != 0 ==> expiry <= e.dropAt
  }

  ghost predicate CachedServed(s: Sys) {
    forall k | k in s.cached ::
      && k.expiry <= s.clock + s.ttl
      && (s.clock < k.expiry ==>
            k.config in s.loaded && exists e :: Holds(s, e, k.config) && Outlasts(e, k.expiry))
  }

  ghost predicate Inv(s: Sys) {
    && DistinctIds(Keys(s)) && OneCurrent(Keys(s)) && FilesPresent(s)
    && PublishedServed(s) && CachedServed(s)
  }

  // ---------------------------------------------------------------- the invariant is kept

  lemma InitInv(s: Sys)
    requires Init(s)
    ensures Inv(s)
  {
    hide Advertised, FileKey;
  }

  lemma EnvKeepsInv(s: Sys, t: Sys)
    requires Inv(s) && EnvStep(s, t)
    ensures Inv(t)
  {
    hide Advertised, FileKey;
    if s == t {
    } else if Tick(s, t) {
      TickKeepsInv(s, t);
    } else if Query(s, t) {
      QueryKeepsInv(s, t);
    } else {
      LoadKeepsInv(s, t);
    }
  }

  lemma TickKeepsInv(s: Sys, t: Sys)
    requires Inv(s) && Tick(s, t)
    ensures Inv(t)
  {
    hide Advertised, FileKey;
    assert forall c :: Visible(s, c) <==> Visible(t, c);
    assert forall e, c :: Holds(s, e, c) <==> Holds(t, e, c);
  }

  lemma QueryKeepsInv(s: Sys, t: Sys)
    requires Inv(s) && Query(s, t)
    ensures Inv(t)
  {
    hide Advertised, FileKey;
    assert forall c :: Visible(s, c) <==> Visible(t, c);
    assert forall e, c :: Holds(s, e, c) <==> Holds(t, e, c);
    forall k | k in t.cached && k !in s.cached && t.clock < k.expiry
      ensures k.config in t.loaded && exists e :: Holds(t, e, k.config) && Outlasts(e, k.expiry)
    {
      assert Visible(s, k.config);
      var e :| Holds(s, e, k.config) && e.state != Grace;
      assert Holds(t, e, k.config) && Outlasts(e, k.expiry);
    }
  }

  lemma LoadKeepsInv(s: Sys, t: Sys)
    requires Inv(s) && Load(s, t)
    ensures Inv(t)
  {
    hide Advertised, FileKey;
    assert forall c :: Visible(s, c) <==> Visible(t, c);
    assert forall e, c :: Holds(s, e, c) <==> Holds(t, e, c);
    forall e, c | Holds(s, e, c) ensures c in t.loaded {
      FileInAllKeys(s.image, e.name);
    }
  }

  lemma FileInAllKeys(image: Image, n: Name)
    requires FileKey(image, n).Some?
    ensures FileKey(image, n).value in AllKeys(image)
  {
    assert n in image.files;
  }

  lemma FileKeepsInv(s: Sys, t: Sys)
    requires Inv(s) && FileStep(s, t)
    ensures Inv(t)
  {
    hide Advertised, FileKey;
    assert forall c :: Visible(s, c) <==> Visible(t, c);
    assert forall e, c :: Holds(s, e, c) && !Due(e, s.clock) ==> Holds(t, e, c);
    forall k | k in t.cached && t.clock < k.expiry
      ensures k.config in t.loaded && exists e :: Holds(t, e, k.config) && Outlasts(e, k.expiry)
    {
      var e :| Holds(s, e, k.config) && Outlasts(e, k.expiry);
      assert Holds(t, e, k.config);
    }
  }

  lemma DnsKeepsInv(s: Sys, t: Sys)
    requires Inv(s) && DnsStep(s, t)
    ensures Inv(t)
  {
    hide Advertised, FileKey;
    assert forall e, c :: Holds(s, e, c) <==> Holds(t, e, c);
    forall c | Visible(t, c)
      ensures c in t.loaded && exists e :: Holds(t, e, c) && e.state != Grace
    {
      var r :| r in t.rrset && c in Advertised(r);
      if r in s.rrset { assert Visible(s, c); }
      var e :| Holds(s, e, c) && e.state != Grace;
      assert Holds(t, e, c);
    }
    forall k | k in t.cached && t.clock < k.expiry
      ensures exists e :: Holds(t, e, k.config) && Outlasts(e, k.expiry)
    {
      var e :| Holds(s, e, k.config) && Outlasts(e, k.expiry);
      assert Holds(t, e, k.config);
    }
  }

  /** Every entry has a successor under the same name that serves as well, or was due and is gone with its id. */
  ghost predicate Carries(s: Sys, t: Sys) {
    forall e | e in Keys(s) :: (exists f :: Succeeds(s, e, f) && f in Keys(t)) || Dropped(s, t, e)
  }

  ghost predicate Dropped(s: Sys, t: Sys, e: Entry) {
    Due(e, s.clock) && forall x | x in Keys(t) :: x.configId != e.configId
  }

  /** f is what e becomes; only an entry that nobody needs beyond f's deadline may enter grace. */
  ghost predicate Succeeds(s: Sys, e: Entry, f: Entry) {
    && f.name == e.name && f.configId == e.configId && f.createdAt == e.createdAt
    && (e.state == Grace ==> f.state == Grace && f.dropAt == e.dropAt)
    && (f.state == Grace && e.state != Grace ==>
          e.state == Previous && FileKey(s.image, e.name).Some?
          && Expiring(s, FileKey(s.image, e.name).value, f.dropAt))
    && (f.state == Current ==> e.state == Current)
  }

  lemma CarriedServed(s: Sys, t: Sys)
    requires Inv(s) && t == s.(image := t.image) && t.image.files == s.image.files && Carries(s, t)
    ensures PublishedServed(t) && CachedServed(t)
  {
    hide Advertised, FileKey, Visible, DistinctIds, OneCurrent, FilesPresent;
    assert forall n :: FileKey(t.image, n) == FileKey(s.image, n) by { SameFiles(s.image, t.image); }
    SameVisible(s, t);
    forall c | Visible(t, c)
      ensures c in t.loaded && exists e :: Holds(t, e, c) && e.state != Grace
    {
      var e :| Holds(s, e, c) && e.state != Grace;
      var f :| Succeeds(s, e, f) && f in Keys(t);
      assert Holds(t, f, c) && f.state != Grace;
    }
    forall k | k in t.cached && t.clock < k.expiry
      ensures k.config in t.loaded && exists e :: Holds(t, e, k.config) && Outlasts(e, k.expiry)
    {
      var e :| Holds(s, e, k.config) && Outlasts(e, k.expiry);
      var f :| Succeeds(s, e, f) && f in Keys(t);
      assert Holds(t, f, k.config) && Outlasts(f, k.expiry);
    }
  }

  lemma SameFiles(a: Image, b: Image)
    requires a.files == b.files
    ensures forall n :: FileKey(a, n) == FileKey(b, n)
    ensures forall n :: ReadKey(a, n) == ReadKey(b, n)
  {
    hide PemFile.FittingKey, PemFile.KeyOf;
  }

  lemma SameVisible(s: Sys, t: Sys)
    requires s.rrset == t.rrset
    ensures forall c :: Visible(s, c) <==> Visible(t, c)
  {
    hide Advertised;
  }

  /** What each permitted change does to the entries. */
  lemma ChangeKeepsEntries(s: Sys, t: Sys, c: Change)
    requires Inv(s) && Permitted(s, c) && t == s.(image := t.image) && t.image.files == s.image.files
    requires t.image.index == Some(Index(Changed(Keys(s), c)))
    ensures Carries(s, t) && DistinctIds(Keys(t)) && OneCurrent(Keys(t)) && FilesPresent(t)
  {
    hide Advertised, FileKey, Visible, Expiring, PublishedServed, CachedServed;
    SameFiles(s.image, t.image);
    var ks, kt := Keys(s), Keys(t);
    match c
    case Same =>
      assert forall e | e in ks :: Succeeds(s, e, e);
    case Insert(n) =>
      InsertKeepsEntries(s, t, n);
    case Mark(i, time) =>
      forall j | 0 <= j < |ks| ensures Succeeds(s, ks[j], kt[j]) { }
      PointwiseKeepsEntries(s, t);
    case Retire(i, d) =>
      forall j | 0 <= j < |ks| ensures Succeeds(s, ks[j], kt[j]) { }
      PointwiseKeepsEntries(s, t);
    case Prune(time) =>
      PruneKeepsEntries(s, t, time);
  }

  lemma InsertOneCurrent(ks: seq<Entry>, n: Entry)
    requires n.state == Current
    ensures OneCurrent(Demote(ks) + [n])
  {
    assert (Demote(ks) + [n])[|ks|] == n;
  }

  lemma InsertDistinct(ks: seq<Entry>, n: Entry)
    requires DistinctIds(ks) && n.name.id == n.configId && forall o | o in ks :: o.configId != n.configId
    ensures DistinctIds(Demote(ks) + [n])
  {
    var kt := Demote(ks) + [n];
    forall i | 0 <= i < |ks|
      ensures kt[i].configId == ks[i].configId && kt[i].name == ks[i].name && ks[i] in ks
    {
    }
  }

  lemma InsertKeepsEntries(s: Sys, t: Sys, n: Entry)
    requires Inv(s) && Permitted(s, Insert(n)) && t == s.(image := t.image) && t.image.files == s.image.files
    requires Keys(t) == Demote(Keys(s)) + [n]
    ensures Carries(s, t) && DistinctIds(Keys(t)) && OneCurrent(Keys(t)) && FilesPresent(t)
  {
    hide Advertised, FileKey, Visible, Expiring, PublishedServed, CachedServed, OneCurrent, DistinctIds, Keys, Demote;
    SameFiles(s.image, t.image);
    var ks, kt := Keys(s), Keys(t);
    InsertOneCurrent(ks, n);
    InsertDistinct(ks, n);
    forall e | e in ks ensures exists f :: Succeeds(s, e, f) && f in kt {
      var i :| 0 <= i < |ks| && ks[i] == e;
      assert kt[i] == Demote(ks)[i];
      assert Succeeds(s, e, kt[i]) && kt[i] in kt;
    }
    forall e | e in kt && !Due(e, t.clock)
      ensures FileKey(t.image, e.name).Some? && FileKey(t.image, e.name).value.configId == e.configId
    {
      var i :| 0 <= i < |kt| && kt[i] == e;
      if i < |ks| { assert e == Demote(ks)[i] && ks[i] in ks; }
    }
  }

  lemma PointwiseKeepsEntries(s: Sys, t: Sys)
    requires Inv(s) && t == s.(image := t.image) && t.image.files == s.image.files
    requires |Keys(t)| == |Keys(s)|
    requires forall j | 0 <= j < |Keys(s)| :: Succeeds(s, Keys(s)[j], Keys(t)[j])
    requires forall j | 0 <= j < |Keys(s)| :: Keys(s)[j].state == Current ==> Keys(t)[j].state == Current
    ensures Carries(s, t) && DistinctIds(Keys(t)) && OneCurrent(Keys(t)) && FilesPresent(t)
  {
    hide Advertised, FileKey, Visible, Expiring, PublishedServed, CachedServed, OneCurrent, Keys, Succeeds;
    SameFiles(s.image, t.image);
    PointwiseOneCurrent(s, Keys(s), Keys(t));
    PointwiseDistinct(s, Keys(s), Keys(t));
    var ks, kt := Keys(s), Keys(t);
    forall e | e in ks ensures exists f :: Succeeds(s, e, f) && f in kt {
      var i :| 0 <= i < |ks| && ks[i] == e;
      assert Succeeds(s, e, kt[i]) && kt[i] in kt;
    }
    forall e | e in kt && !Due(e, t.clock)
      ensures FileKey(t.image, e.name).Some? && FileKey(t.image, e.name).value.configId == e.configId
    {
      var i :| 0 <= i < |kt| && kt[i] == e;
      SucceedsFacts(s, ks[i], e);
      assert ks[i] in ks;
    }
  }

  lemma SucceedsFacts(s: Sys, e: Entry, f: Entry)
    requires Succeeds(s, e, f)
    ensures f.name == e.name && f.configId == e.configId && (f.state == Current ==> e.state == Current)
    ensures forall t :: Due(e, t) ==> Due(f, t)
  {
  }

  lemma PointwiseOneCurrent(s: Sys, ks: seq<Entry>, kt: seq<Entry>)
    requires |ks| == |kt| && OneCurrent(ks)
    requires forall j | 0 <= j < |ks| :: Succeeds(s, ks[j], kt[j])
    requires forall j | 0 <= j < |ks| :: ks[j].state == Current ==> kt[j].state == Current
    ensures OneCurrent(kt)
  {
    hide Succeeds;
    forall j | 0 <= j < |ks| ensures kt[j].state == Current <==> ks[j].state == Current {
      SucceedsFacts(s, ks[j], kt[j]);
    }
  }

  lemma PointwiseDistinct(s: Sys, ks: seq<Entry>, kt: seq<Entry>)
    requires |ks| == |kt| && DistinctIds(ks)
    requires forall j | 0 <= j < |ks| :: Succeeds(s, ks[j], kt[j])
    ensures DistinctIds(kt)
  {
    hide Succeeds;
    forall j | 0 <= j < |ks| ensures kt[j].configId == ks[j].configId && kt[j].name == ks[j].name && ks[j] in ks {
      SucceedsFacts(s, ks[j], kt[j]);
    }
  }

  lemma {:induction false} KeepIsSubsequence(keys: seq<Entry>, t: int, i: nat, j: nat) returns (a: nat, b: nat)
    requires i < j < |Keep(keys, t)|
    ensures a < b < |keys| && keys[a] == Keep(keys, t)[i] && keys[b] == Keep(keys, t)[j]
  {
    if Due(keys[0], t) {
      a, b := KeepIsSubsequence(keys[1..], t, i, j);
      a, b := a + 1, b + 1;
    } else if i > 0 {
      a, b := KeepIsSubsequence(keys[1..], t, i - 1, j - 1);
      a, b := a + 1, b + 1;
    } else {
      KeepMembers(keys[1..], t);
      var e := Keep(keys[1..], t)[j - 1];
      assert e in Keep(keys[1..], t);
      b :| 0 <= b < |keys[1..]| && keys[1..][b] == e;
      a, b := 0, b + 1;
    }
  }

  lemma KeepOneCurrent(ks: seq<Entry>, time: int)
    requires OneCurrent(ks)
    ensures OneCurrent(Keep(ks, time))
  {
    hide Keep;
    KeepMembers(ks, time);
    var kt := Keep(ks, time);
    if kt != [] {
      assert kt[0] in kt;
      var i :| 0 <= i < |ks| && ks[i].state == Current;
      assert ks[i] in kt;
    }
    forall i, j | 0 <= i < j < |kt| ensures !(kt[i].state == Current && kt[j].state == Current) {
      var a, b := KeepIsSubsequence(ks, time, i, j);
    }
  }

  lemma KeepDistinct(ks: seq<Entry>, time: int)
    requires DistinctIds(ks)
    ensures DistinctIds(Keep(ks, time))
  {
    hide Keep;
    KeepMembers(ks, time);
    var kt := Keep(ks, time);
    forall i, j | 0 <= i < j < |kt| ensures kt[i].configId != kt[j].configId {
      var a, b := KeepIsSubsequence(ks, time, i, j);
    }
  }

  lemma OtherId(keys: seq<Entry>, e: Entry, x: Entry)
    requires DistinctIds(keys) && e in keys && x in keys && x != e
    ensures x.configId != e.configId
  {
    var i :| 0 <= i < |keys| && keys[i] == e;
    var j :| 0 <= j < |keys| && keys[j] == x;
  }

  lemma PruneKeepsEntries(s: Sys, t: Sys, time: int)
    requires Inv(s) && time <= s.clock && t == s.(image := t.image) && t.image.files == s.image.files
    requires Keys(t) == Keep(Keys(s), time)
    ensures Carries(s, t) && DistinctIds(Keys(t)) && OneCurrent(Keys(t)) && FilesPresent(t)
  {
    hide Advertised, FileKey, Visible, Expiring, PublishedServed, CachedServed, OneCurrent, DistinctIds, Keys, Keep;
    SameFiles(s.image, t.image);
    KeepOneCurrent(Keys(s), time);
    KeepDistinct(Keys(s), time);
    KeepMembers(Keys(s), time);
    forall e | e in Keys(s) ensures (exists f :: Succeeds(s, e, f) && f in Keys(t)) || Dropped(s, t, e) {
      if Due(e, time) {
        forall x | x in Keys(t) ensures x.configId != e.configId { OtherId(Keys(s), e, x); }
      } else {
        assert Succeeds(s, e, e) && e in Keys(t);
      }
    }
  }

  lemma IndexKeepsInv(s: Sys, t: Sys)
    requires Inv(s) && IndexStep(s, t)
    ensures Inv(t)
  {
    hide Advertised, FileKey, Visible, Permitted, Changed, Carries;
    hide DistinctIds, OneCurrent, FilesPresent, PublishedServed, CachedServed;
    var c :| Permitted(s, c) && t.image.index == Some(Index(Changed(Keys(s), c)));
    ChangeKeepsEntries(s, t, c);
    CarriedServed(s, t);
  }

  lemma TmpKeepsInv(s: Sys, t: Sys)
    requires Inv(s) && TmpStep(s, t)
    ensures Inv(t)
  {
    hide Advertised, FileKey;
    assert forall c :: Visible(s, c) <==> Visible(t, c);
    assert forall e, c :: Holds(s, e, c) <==> Holds(t, e, c);
  }

  lemma StepKeepsInv(s: Sys, t: Sys)
    requires Inv(s) && Step(s, t)
    ensures Inv(t)
  {
    hide Inv, EnvStep, TmpStep, FileStep, IndexStep, DnsStep;
    if EnvStep(s, t) { EnvKeepsInv(s, t); }
    else if TmpStep(s, t) { TmpKeepsInv(s, t); }
    else if FileStep(s, t) { FileKeepsInv(s, t); }
    else if IndexStep(s, t) { IndexKeepsInv(s, t); }
    else { DnsKeepsInv(s, t); }
  }

  /** The invariant holds in every state of every run. */
  lemma {:induction false} RunKeepsInv(run: seq<Sys>, i: nat)
    requires IsRun(run) && i < |run|
    ensures Inv(run[i])
  {
    hide Inv, Step, Init;
    if i == 0 {
      InitInv(run[0]);
    } else {
      RunKeepsInv(run, i - 1);
      assert Step(run[i - 1], run[i - 1 + 1]);
      StepKeepsInv(run[i - 1], run[i]);
    }
  }

  // ---------------------------------------------------------------- what clients get

  /** Some client can still use c: it is published now, or sits in an unexpired cache. */
  ghost predicate Usable(s: Sys, c: Config) {
    Visible(s, c) || exists k | k in s.cached :: k.config == c && s.clock < k.expiry
  }

  /** No downtime: in every state of every run, each config that any client can use has its complete key file in the
      directory, indexed, and is loaded by the server; a published one is never in grace. */
  lemma NoDowntime(run: seq<Sys>, i: nat, c: Config)
    requires IsRun(run) && i < |run| && Usable(run[i], c)
    ensures c in run[i].loaded
    ensures exists e :: Holds(run[i], e, c) && SecretFits(run[i], e, c) && (Visible(run[i], c) ==> e.state != Grace)
  {
    hide Secret, Advertised, FileKey, Visible, IsRun, DistinctIds, OneCurrent, FilesPresent;
    RunKeepsInv(run, i);
    var s := run[i];
    if Visible(s, c) {
      var e :| Holds(s, e, c) && e.state != Grace;
      FittingSecret(s.image, e.name);
    } else {
      var k :| k in s.cached && k.config == c && s.clock < k.expiry;
      var e :| Holds(s, e, k.config) && Outlasts(e, k.expiry);
      FittingSecret(s.image, e.name);
    }
  }

  /** A restart at any moment of any run leaves every usable config loaded. */
  lemma RestartIsSafe(run: seq<Sys>, i: nat, c: Config)
    requires IsRun(run) && i < |run| && Usable(run[i], c)
    ensures c in AllKeys(run[i].image)
  {
    hide Advertised, FileKey, Visible, IsRun;
    NoDowntime(run, i, c);
    var e :| Holds(run[i], e, c);
    FileInAllKeys(run[i].image, e.name);
  }

  // ---------------------------------------------------------------- lifecycle

  /** In one step of a run every entry stays itself or moves forward, Current, Previous, Grace, keeping a grace deadline,
      or else it was due and is gone with its id. */
  lemma LifecycleStep(run: seq<Sys>, i: nat, e: Entry)
    requires IsRun(run) && i + 1 < |run| && e in Keys(run[i])
    ensures (exists f :: Succeeds(run[i], e, f) && f in Keys(run[i + 1])) || Dropped(run[i], run[i + 1], e)
  {
    hide Inv, Init, Advertised, FileKey, Visible, Expiring, Permitted, Changed;
    var s, t := run[i], run[i + 1];
    RunKeepsInv(run, i);
    assert Step(s, t);
    if IndexStep(s, t) {
      var c :| Permitted(s, c) && t.image.index == Some(Index(Changed(Keys(s), c)));
      ChangeKeepsEntries(s, t, c);
    } else {
      assert Keys(s) == Keys(t);
      assert Succeeds(s, e, e);
    }
  }

  lemma ClockIsMonotone(s: Sys, t: Sys)
    requires Step(s, t)
    ensures s.clock <= t.clock && s.ttl == t.ttl
  {
    hide Advertised, FileKey, Visible, Permitted, Changed, Servable;
  }

  /** In every later state of a run a retired key is indexed in grace with its deadline unchanged, or that deadline has
      passed; until it has, the key's complete file is there. */
  lemma {:induction false} GraceIsKept(run: seq<Sys>, i: nat, j: nat, e: Entry)
    requires IsRun(run) && i <= j < |run| && e in Keys(run[i]) && e.state == Grace
    ensures (exists f :: f in Keys(run[j]) && f.name == e.name && f.configId == e.configId
                         && f.state == Grace && f.dropAt == e.dropAt) || Due(e, run[j].clock)
    ensures !Due(e, run[j].clock) ==>
              FileKey(run[j].image, e.name).Some? && FileKey(run[j].image, e.name).value.configId == e.configId
    decreases j - i
  {
    hide Advertised, FileKey, Visible, Expiring, Step, Init, DistinctIds, OneCurrent, PublishedServed, CachedServed;
    RunKeepsInv(run, i);
    if i < j {
      ClockOverRun(run, i, j);
      LifecycleStep(run, i, e);
      if f :| Succeeds(run[i], e, f) && f in Keys(run[i + 1]) {
        GraceIsKept(run, i + 1, j, f);
      }
    }
  }

  lemma {:induction false} ClockOverRun(run: seq<Sys>, i: nat, j: nat)
    requires IsRun(run) && i <= j < |run|
    ensures run[i].clock <= run[j].clock && run[i].ttl == run[j].ttl
    decreases j - i
  {
    hide Step, Init;
    if i < j {
      assert Step(run[i], run[i + 1]);
      ClockIsMonotone(run[i], run[i + 1]);
      ClockOverRun(run, i + 1, j);
    }
  }
}
