/** internal/keystore: the operations on the key index as functions of its entries, and what the protocol thinks of
    the directory images they lead to. */
module KeyIndex {
  import opened Prelude
  import opened EchConfig
  import PemFile
  import opened Protocol
  import opened Machine

  // ---------------------------------------------------------------- lookups

  /** The first position with this config_id, or the length. */
  function Find(keys: seq<Entry>, id: byte): (k: nat)
    ensures k <= |keys|
    ensures forall i | 0 <= i < k :: keys[i].configId != id
    ensures k < |keys| ==> keys[k].configId == id
  {
    if keys == [] || keys[0].configId == id then 0 else 1 + Find(keys[1..], id)
  }

  lemma {:induction false} FindIs(keys: seq<Entry>, id: byte, k: nat)
    requires k <= |keys| && (forall i | 0 <= i < k :: keys[i].configId != id) && (k < |keys| ==> keys[k].configId == id)
    ensures Find(keys, id) == k
  {
    if k > 0 {
      FindIs(keys[1..], id, k - 1);
    }
  }

  // ---------------------------------------------------------------- SetState and PruneExpired

  /** The entry SetState writes. */
  function Updated(e: Entry, state: State, inDns: int, drop: int): Entry {
    e.(state := state,
       inDnsSince := if state != Grace && inDns != 0 then inDns else e.inDnsSince,
       dropAt := if state == Grace then drop else e.dropAt)
  }

  function WithState(keys: seq<Entry>, id: byte, state: State, inDns: int, drop: int): seq<Entry> {
    var k := Find(keys, id);
    if k < |keys| then keys[k := Updated(keys[k], state, inDns, drop)] else keys
  }

  /** The due entries in order. */
  function DueEntries(keys: seq<Entry>, now: int): seq<Entry> {
    if keys == [] then []
    else (if Due(keys[0], now) then [keys[0]] else []) + DueEntries(keys[1..], now)
  }

  function Ids(keys: seq<Entry>): seq<byte> {
    seq(|keys|, i requires 0 <= i < |keys| => keys[i].configId)
  }

  function NamesOf(keys: seq<Entry>): set<Name> {
    set e | e in keys :: e.name
  }

  lemma KeepCons(e: Entry, rest: seq<Entry>, now: int)
    ensures Keep([e] + rest, now) == (if Due(e, now) then [] else [e]) + Keep(rest, now)
    ensures DueEntries([e] + rest, now) == (if Due(e, now) then [e] else []) + DueEntries(rest, now)
  {
    hide Due;
    assert ([e] + rest)[1..] == rest;
  }

  lemma {:induction false} KeepSnoc(keys: seq<Entry>, e: Entry, now: int)
    ensures Keep(keys + [e], now) == Keep(keys, now) + (if Due(e, now) then [] else [e])
  {
    hide Due;
    if keys == [] {
      assert keys + [e] == [e] + [];
      KeepCons(e, [], now);
    } else {
      hide Keep;
      KeepSnoc(keys[1..], e, now);
      assert keys + [e] == [keys[0]] + (keys[1..] + [e]) && keys == [keys[0]] + keys[1..];
      KeepCons(keys[0], keys[1..] + [e], now);
      KeepCons(keys[0], keys[1..], now);
    }
  }

  lemma {:induction false} DueSnoc(keys: seq<Entry>, e: Entry, now: int)
    ensures DueEntries(keys + [e], now) == DueEntries(keys, now) + (if Due(e, now) then [e] else [])
  {
    hide Due;
    if keys == [] {
      assert keys + [e] == [e] + [];
      KeepCons(e, [], now);
    } else {
      hide DueEntries;
      DueSnoc(keys[1..], e, now);
      assert keys + [e] == [keys[0]] + (keys[1..] + [e]) && keys == [keys[0]] + keys[1..];
      KeepCons(keys[0], keys[1..] + [e], now);
      KeepCons(keys[0], keys[1..], now);
    }
  }

  lemma {:induction false} DueMembers(keys: seq<Entry>, now: int)
    ensures forall e :: e in DueEntries(keys, now) <==> e in keys && Due(e, now)
  {
    hide Due;
    if keys != [] {
      DueMembers(keys[1..], now);
      assert keys == [keys[0]] + keys[1..];
    }
  }

  lemma {:induction false} KeepSplits(keys: seq<Entry>, now: int)
    ensures |Keep(keys, now)| + |DueEntries(keys, now)| == |keys|
    ensures DueEntries(keys, now) == [] ==> Keep(keys, now) == keys
  {
    if keys != [] {
      KeepSplits(keys[1..], now);
    }
  }

  // ---------------------------------------------------------------- List

  /** Newest first; entries of the same age keep their order. */
  function Insert(e: Entry, sorted: seq<Entry>): seq<Entry> {
    if sorted == [] || sorted[0].createdAt <= e.createdAt then [e] + sorted
    else [sorted[0]] + Insert(e, sorted[1..])
  }

  function Newest(keys: seq<Entry>): seq<Entry> {
    if keys == [] then [] else Insert(keys[0], Newest(keys[1..]))
  }

  predicate NewestFirst(keys: seq<Entry>) {
    forall i, j | 0 <= i < j < |keys| :: keys[j].createdAt <= keys[i].createdAt
  }

  /** The entries of one age, in order. */
  function OfAge(keys: seq<Entry>, t: int): seq<Entry> {
    if keys == [] then [] else (if keys[0].createdAt == t then [keys[0]] else []) + OfAge(keys[1..], t)
  }

  lemma {:induction false} InsertMembers(e: Entry, sorted: seq<Entry>)
    ensures multiset(Insert(e, sorted)) == multiset(sorted) + multiset{e}
  {
    if sorted != [] && sorted[0].createdAt > e.createdAt {
      InsertMembers(e, sorted[1..]);
      assert sorted == [sorted[0]] + sorted[1..];
    }
  }

  lemma NewestFirstCons(x: Entry, rest: seq<Entry>)
    requires NewestFirst(rest) && forall y | y in rest :: y.createdAt <= x.createdAt
    ensures NewestFirst([x] + rest)
  {
    var all := [x] + rest;
    forall i, j | 0 <= i < j < |all| ensures all[j].createdAt <= all[i].createdAt {
      assert all[j] == rest[j - 1] && rest[j - 1] in rest;
    }
  }

  lemma NewestFirstRest(sorted: seq<Entry>)
    requires NewestFirst(sorted) && sorted != []
    ensures NewestFirst(sorted[1..]) && forall y | y in sorted[1..] :: y.createdAt <= sorted[0].createdAt
  {
    assert forall i | 0 <= i < |sorted| - 1 :: sorted[1..][i] == sorted[i + 1];
  }

  lemma {:induction false} InsertSorts(e: Entry, sorted: seq<Entry>)
    requires NewestFirst(sorted)
    ensures NewestFirst(Insert(e, sorted))
  {
    hide NewestFirst;
    if sorted == [] {
      NothingIsSorted();
      NewestFirstCons(e, []);
      assert [e] + [] == [e] + sorted;
    } else {
      NewestFirstRest(sorted);
      if sorted[0].createdAt > e.createdAt {
        var rest := Insert(e, sorted[1..]);
        InsertSorts(e, sorted[1..]);
        InsertMembers(e, sorted[1..]);
        forall y | y in rest ensures y.createdAt <= sorted[0].createdAt {
          assert y in multiset(rest);
          assert y == e || y in sorted[1..];
        }
        NewestFirstCons(sorted[0], rest);
      } else {
        forall y | y in sorted ensures y.createdAt <= e.createdAt {
          assert y == sorted[0] || y in sorted[1..];
        }
        NewestFirstCons(e, sorted);
      }
    }
  }

  lemma NothingIsSorted()
    ensures NewestFirst([])
  {
  }

  lemma {:induction false} InsertIsStable(e: Entry, sorted: seq<Entry>, t: int)
    ensures OfAge(Insert(e, sorted), t) == (if e.createdAt == t then [e] else []) + OfAge(sorted, t)
  {
    if sorted == [] || sorted[0].createdAt <= e.createdAt {
      assert ([e] + sorted)[1..] == sorted;
    } else {
      InsertIsStable(e, sorted[1..], t);
      assert Insert(e, sorted)[1..] == Insert(e, sorted[1..]);
      if e.createdAt == t {
        assert OfAge(sorted, t) == OfAge(sorted[1..], t);
        assert OfAge(Insert(e, sorted), t) == OfAge(Insert(e, sorted[1..]), t);
      }
    }
  }

  lemma {:induction false} NewestIsPermutation(keys: seq<Entry>)
    ensures multiset(Newest(keys)) == multiset(keys)
  {
    if keys != [] {
      NewestIsPermutation(keys[1..]);
      InsertMembers(keys[0], Newest(keys[1..]));
      assert keys == [keys[0]] + keys[1..];
    }
  }

  /** List is a stable sort by age, newest first. */
  lemma {:induction false} NewestSorts(keys: seq<Entry>, t: int)
    ensures NewestFirst(Newest(keys))
    ensures multiset(Newest(keys)) == multiset(keys)
    ensures OfAge(Newest(keys), t) == OfAge(keys, t)
  {
    NewestIsPermutation(keys);
    if keys != [] {
      NewestSorts(keys[1..], t);
      InsertSorts(keys[0], Newest(keys[1..]));
      InsertIsStable(keys[0], Newest(keys[1..]), t);
    }
  }

  lemma NewestMembers(keys: seq<Entry>)
    ensures forall e :: e in Newest(keys) <==> e in keys
    ensures |Newest(keys)| == |keys|
  {
    NewestIsPermutation(keys);
    forall e ensures e in Newest(keys) <==> e in keys {
      assert e in multiset(Newest(keys)) <==> e in Newest(keys);
      assert e in multiset(keys) <==> e in keys;
    }
    assert |multiset(Newest(keys))| == |multiset(keys)|;
  }

  // ---------------------------------------------------------------- what the protocol permits

  lemma CoreKeys(s: Sys, t: Sys)
    requires CoreRel(s, t)
    ensures Keys(t) == Keys(s) && t.image == s.image && s.clock <= t.clock && t.rrset == s.rrset && t.ttl == s.ttl
  {
  }

  /** A file that no entry refers to may be written or removed at any time. */
  lemma ForeignFilePermitted(s: Sys, img: Image, name: Name)
    requires img.index == s.image.index
    requires forall n | n != name :: FileKey(img, n) == FileKey(s.image, n)
    requires forall e | e in Keys(s) :: e.name != name
    ensures StablyPermitted(s, img)
  {
    hide FileKey, Visible, EnvStep, TmpStep, IndexStep, DnsStep;
    forall t | CoreRel(s, t) ensures Step(t, t.(image := img)) {
      assert FileStep(t, t.(image := img));
    }
  }

  lemma PlacedFiles(image: Image, name: Name, data: Content)
    ensures forall n | n != name :: FileKey(Placed(image, KeyFile(name), data), n) == FileKey(image, n)
    ensures forall n | n != name :: FileKey(Removed(image, name), n) == FileKey(image, n)
    ensures forall n | n != name :: ReadKey(Placed(image, KeyFile(name), data), n) == ReadKey(image, n)
    ensures data.Pem? ==> FileKey(Placed(image, KeyFile(name), data), name) == PemFile.FittingKey(data.blocks)
    ensures FileKey(Removed(image, name), name) == None
  {
    hide PemFile.FittingKey, PemFile.KeyOf;
  }

  /** The file of an entry that is due may go. */
  lemma DueFilePermitted(s: Sys, e: Entry)
    requires DistinctIds(Keys(s)) && e in Keys(s) && Due(e, s.clock)
    ensures StablyPermitted(s, Removed(s.image, e.name))
  {
    hide FileKey, Visible, EnvStep, TmpStep, IndexStep, DnsStep;
    var img := Removed(s.image, e.name);
    PlacedFiles(s.image, e.name, Torn);
    forall t | CoreRel(s, t) ensures Step(t, t.(image := img)) {
      forall f | f in Keys(t) && !Due(f, t.clock) ensures FileKey(img, f.name) == FileKey(t.image, f.name) {
        var i :| 0 <= i < |Keys(s)| && Keys(s)[i] == e;
        var j :| 0 <= j < |Keys(s)| && Keys(s)[j] == f;
        assert i != j;
      }
      assert FileStep(t, t.(image := img));
    }
  }

  lemma ChangePermitted(s: Sys, c: Change)
    requires forall t | CoreRel(s, t) :: Permitted(t, c)
    ensures StablyPermitted(s, s.image.(index := Some(Index(Changed(Keys(s), c)))))
  {
    hide Permitted, Changed, FileStep, DnsStep, EnvStep, TmpStep, Visible;
    var img := s.image.(index := Some(Index(Changed(Keys(s), c))));
    forall t | CoreRel(s, t) ensures Step(t, t.(image := img)) {
      assert IndexStep(t, t.(image := img));
    }
  }

  lemma InsertPermitted(s: Sys, e: Entry, pem: seq<PemFile.Block>)
    requires e.state == Current && e.name.id == e.configId
    requires forall o | o in Keys(s) :: o.configId != e.configId
    requires FileKey(s.image, e.name).Some? && FileKey(s.image, e.name).value.configId == e.configId
    ensures StablyPermitted(s, s.image.(index := Some(Index(Demote(Keys(s)) + [e]))))
  {
    hide FileKey, Visible;
    forall t | CoreRel(s, t) ensures Permitted(t, Protocol.Insert(e)) { CoreKeys(s, t); }
    ChangePermitted(s, Protocol.Insert(e));
  }

  lemma PrunePermitted(s: Sys, now: int)
    requires now <= s.clock
    ensures StablyPermitted(s, s.image.(index := Some(Index(Keep(Keys(s), now)))))
  {
    hide FileKey, Visible;
    forall t | CoreRel(s, t) ensures Permitted(t, Prune(now)) { CoreKeys(s, t); }
    ChangePermitted(s, Prune(now));
  }

  lemma MarkPermitted(s: Sys, i: nat, time: int)
    ensures StablyPermitted(s, s.image.(index := Some(Index(Changed(Keys(s), Mark(i, time))))))
  {
    hide FileKey, Visible;
    ChangePermitted(s, Mark(i, time));
  }

  lemma SamePermitted(s: Sys)
    ensures StablyPermitted(s, s.image.(index := Some(Index(Keys(s)))))
  {
    hide FileKey, Visible;
    ChangePermitted(s, Same);
  }

  /** A previous entry may retire once its config is no longer published and its cached copies expire in time. */
  lemma RetirePermitted(s: Sys, i: nat, d: int)
    requires i < |Keys(s)| && Keys(s)[i].state == Previous
    requires FileKey(s.image, Keys(s)[i].name).Some?
    requires Expiring(s, FileKey(s.image, Keys(s)[i].name).value, d)
    ensures StablyPermitted(s, s.image.(index := Some(Index(Changed(Keys(s), Retire(i, d))))))
  {
    hide FileKey, Visible, Changed;
    var c := FileKey(s.image, Keys(s)[i].name).value;
    forall t | CoreRel(s, t) ensures Permitted(t, Retire(i, d)) {
      CoreKeys(s, t);
      ExpiringLater(s, t, c, d);
    }
    ChangePermitted(s, Retire(i, d));
  }

  lemma ExpiringLater(s: Sys, t: Sys, c: Config, d: int)
    requires CoreRel(s, t) && Expiring(s, c, d)
    ensures Expiring(t, c, d)
  {
    hide Visible;
    SameVisible(s, t);
  }
}
