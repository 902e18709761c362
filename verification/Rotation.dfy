/** What one rotation cycle does to the key index, as functions of the entries, and what it converges to. */
module Rotation {
  import opened Prelude
  import opened EchConfig
  import opened Protocol
  import opened KeyIndex

  /** The resolved rotator configuration. */
  datatype Settings = Settings(
    kemId: u16,
    cipherSuites: seq<CipherSuite>,
    maxNameLength: byte,
    publicName: seq<byte>,
    settleDelay: nat,
    gracePeriod: nat)

  function NewConfig(cfg: Settings, id: byte, publicKey: seq<byte>): Config {
    Config(id, cfg.kemId, publicKey, cfg.cipherSuites, cfg.maxNameLength, cfg.publicName, [])
  }

  // ---------------------------------------------------------------- R4: the overlap list

  function PreviousOf(keys: seq<Entry>): seq<Entry> {
    if keys == [] then []
    else (if keys[0].state == Previous then [keys[0]] else []) + PreviousOf(keys[1..])
  }

  /** The configs in the files of the listed entries, if they can all be read. */
  function FileConfigs(image: Image, list: seq<Entry>): Option<seq<Config>> {
    if list == [] then Some([])
    else match FileConfigs(image, list[..|list| - 1])
      case None => None
      case Some(head) =>
        match ReadKey(image, list[|list| - 1].name)
        case None => None
        case Some(c) => Some(head + [c])
  }

  lemma {:induction false} PreviousMembers(keys: seq<Entry>)
    ensures forall e :: e in PreviousOf(keys) <==> e in keys && e.state == Previous
  {
    if keys != [] {
      PreviousMembers(keys[1..]);
      assert keys == [keys[0]] + keys[1..];
    }
  }

  lemma {:induction false} PreviousSnoc(keys: seq<Entry>, e: Entry)
    ensures PreviousOf(keys + [e]) == PreviousOf(keys) + (if e.state == Previous then [e] else [])
  {
    if keys == [] {
      assert keys + [e] == [e];
      assert [e][1..] == [];
    } else {
      PreviousSnoc(keys[1..], e);
      assert (keys + [e])[1..] == keys[1..] + [e];
    }
  }

  lemma {:induction false} PreviousOfInsert(x: Entry, sorted: seq<Entry>)
    requires NewestFirst(sorted)
    ensures PreviousOf(KeyIndex.Insert(x, sorted))
         == if x.state == Previous then KeyIndex.Insert(x, PreviousOf(sorted)) else PreviousOf(sorted)
  {
    if sorted == [] || sorted[0].createdAt <= x.createdAt {
      assert ([x] + sorted)[1..] == sorted;
      PreviousMembers(sorted);
      if PreviousOf(sorted) != [] {
        assert PreviousOf(sorted)[0] in PreviousOf(sorted);
      }
    } else {
      PreviousOfInsert(x, sorted[1..]);
      assert KeyIndex.Insert(x, sorted)[1..] == KeyIndex.Insert(x, sorted[1..]);
      var rest := PreviousOf(sorted[1..]);
      var grown := PreviousOf(KeyIndex.Insert(x, sorted[1..]));
      if sorted[0].state == Previous {
        assert PreviousOf(sorted) == [sorted[0]] + rest && PreviousOf(sorted)[1..] == rest;
        assert PreviousOf(KeyIndex.Insert(x, sorted)) == [sorted[0]] + grown;
      } else {
        assert PreviousOf(sorted) == rest;
        assert PreviousOf(KeyIndex.Insert(x, sorted)) == grown;
      }
    }
  }

  /** Selecting from the sorted list is sorting the selection. */
  lemma {:induction false} PreviousOfNewest(keys: seq<Entry>)
    ensures PreviousOf(Newest(keys)) == Newest(PreviousOf(keys))
  {
    if keys != [] {
      PreviousOfNewest(keys[1..]);
      NewestSorts(keys[1..], 0);
      PreviousOfInsert(keys[0], Newest(keys[1..]));
      var rest := PreviousOf(keys[1..]);
      if keys[0].state == Previous {
        assert PreviousOf(keys) == [keys[0]] + rest && PreviousOf(keys)[1..] == rest;
      } else {
        assert PreviousOf(keys) == rest;
      }
    }
  }

  lemma {:induction false} FileConfigsPointwise(image: Image, list: seq<Entry>)
    ensures FileConfigs(image, list).Some? <==> forall e | e in list :: ReadKey(image, e.name).Some?
    ensures FileConfigs(image, list).Some? ==>
              var cs := FileConfigs(image, list).value;
              |cs| == |list| && forall i | 0 <= i < |list| :: ReadKey(image, list[i].name) == Some(cs[i])
  {
    hide ReadKey;
    if list != [] {
      FileConfigsPointwise(image, list[..|list| - 1]);
      assert list == list[..|list| - 1] + [list[|list| - 1]];
    }
  }

  // ---------------------------------------------------------------- markInDNS

  function MarkOne(keys: seq<Entry>, id: byte, now: int): seq<Entry> {
    var k := Find(keys, id);
    if k < |keys| then WithState(keys, id, keys[k].state, now, keys[k].dropAt) else keys
  }

  function MarkIds(keys: seq<Entry>, ids: seq<byte>, now: int): seq<Entry> {
    if ids == [] then keys else MarkOne(MarkIds(keys, ids[..|ids| - 1], now), ids[|ids| - 1], now)
  }

  /** What a marking does: the first entry with a listed id carries the time, unless it is in grace or the time is Go's
      zero; every other entry, and every other field, is unchanged. */
  ghost predicate Marked(keys: seq<Entry>, ids: seq<byte>, now: int, r: seq<Entry>) {
    && |r| == |keys|
    && forall i | 0 <= i < |keys| ::
         && r[i].name == keys[i].name && r[i].configId == keys[i].configId && r[i].state == keys[i].state
         && r[i].createdAt == keys[i].createdAt && r[i].dropAt == keys[i].dropAt
         && r[i].inDnsSince ==
              if now != 0 && keys[i].state != Grace && keys[i].configId in ids && IsFirst(keys, i) then now
              else keys[i].inDnsSince
  }

  ghost predicate IsFirst(keys: seq<Entry>, i: nat)
    requires i < |keys|
  {
    forall j | 0 <= j < i :: keys[j].configId != keys[i].configId
  }

  lemma SameFirst(a: seq<Entry>, b: seq<Entry>, i: nat)
    requires |a| == |b| && i < |a| && forall j | 0 <= j < |a| :: a[j].configId == b[j].configId
    ensures IsFirst(a, i) <==> IsFirst(b, i)
  {
  }

  lemma MarkOneMarks(keys: seq<Entry>, id: byte, now: int)
    ensures Marked(keys, [id], now, MarkOne(keys, id, now))
  {
    var k := Find(keys, id);
    forall i | 0 <= i < |keys| ensures keys[i].configId in [id] && IsFirst(keys, i) <==> i == k {
      if i < k { assert keys[i].configId != id; }
      if k < i { assert keys[k].configId == id; }
    }
  }

  lemma MarkedThen(a: seq<Entry>, b: seq<Entry>, c: seq<Entry>, ids: seq<byte>, id: byte, now: int)
    requires Marked(a, ids, now, b) && Marked(b, [id], now, c)
    ensures Marked(a, ids + [id], now, c)
  {
    hide IsFirst;
    forall i | 0 <= i < |a| ensures IsFirst(a, i) <==> IsFirst(b, i) { SameFirst(a, b, i); }
  }

  /** markInDNS records the publication: every listed id's time is the clock reading. */
  lemma {:induction false} MarkIdsMarks(keys: seq<Entry>, ids: seq<byte>, now: int)
    ensures Marked(keys, ids, now, MarkIds(keys, ids, now))
  {
    hide MarkOne, Marked;
    if ids == [] {
      assert Marked(keys, [], now, keys) by { NothingMarked(keys, now); }
    } else {
      var n := |ids| - 1;
      assert ids == ids[..n] + [ids[n]];
      MarkIdsMarks(keys, ids[..n], now);
      MarkOneMarks(MarkIds(keys, ids[..n], now), ids[n], now);
      MarkedThen(keys, MarkIds(keys, ids[..n], now), MarkIds(keys, ids, now), ids[..n], ids[n], now);
    }
  }

  lemma NothingMarked(keys: seq<Entry>, now: int)
    ensures Marked(keys, [], now, keys)
  {
  }

  /** Only the time of publication changes, and not for entries in grace. */
  ghost predicate OnlyMarked(a: seq<Entry>, b: seq<Entry>) {
    && |a| == |b|
    && forall i | 0 <= i < |a| ::
         b[i] == a[i].(inDnsSince := b[i].inDnsSince) && (a[i].state == Grace ==> b[i] == a[i])
  }

  lemma MarkOneOnlyMarks(keys: seq<Entry>, id: byte, now: int)
    ensures OnlyMarked(keys, MarkOne(keys, id, now))
  {
  }

  lemma OnlyMarkedTrans(a: seq<Entry>, b: seq<Entry>, c: seq<Entry>)
    requires OnlyMarked(a, b) && OnlyMarked(b, c)
    ensures OnlyMarked(a, c)
  {
    forall i | 0 <= i < |a| ensures c[i] == a[i].(inDnsSince := c[i].inDnsSince) && (a[i].state == Grace ==> c[i] == a[i]) {
      assert b[i] == a[i].(inDnsSince := b[i].inDnsSince);
      assert c[i] == b[i].(inDnsSince := c[i].inDnsSince);
    }
  }

  lemma {:induction false} MarkIdsOnlyMarks(keys: seq<Entry>, ids: seq<byte>, now: int)
    ensures OnlyMarked(keys, MarkIds(keys, ids, now))
  {
    hide OnlyMarked, MarkOne;
    if ids == [] {
      assert OnlyMarked(keys, keys) by { OnlyMarkedRefl(keys); }
    } else {
      var before := MarkIds(keys, ids[..|ids| - 1], now);
      MarkIdsOnlyMarks(keys, ids[..|ids| - 1], now);
      MarkOneOnlyMarks(before, ids[|ids| - 1], now);
      OnlyMarkedTrans(keys, before, MarkIds(keys, ids, now));
    }
  }

  lemma OnlyMarkedRefl(keys: seq<Entry>)
    ensures OnlyMarked(keys, keys)
  {
  }

  // ---------------------------------------------------------------- R7: retirement

  /** One pass over the listed entries. */
  function RetireList(keys: seq<Entry>, list: seq<Entry>, d: int): seq<Entry> {
    if list == [] then keys
    else
      var e := list[|list| - 1];
      var before := RetireList(keys, list[..|list| - 1], d);
      if e.state == Previous then WithState(before, e.configId, Grace, e.inDnsSince, d) else before
  }

  function Retired(e: Entry, d: int): Entry {
    if e.state == Previous then e.(state := Grace, dropAt := d) else e
  }

  function RetireAll(keys: seq<Entry>, d: int): (r: seq<Entry>)
    ensures |r| == |keys| && forall i | 0 <= i < |r| :: r[i] == Retired(keys[i], d)
  {
    seq(|keys|, i requires 0 <= i < |keys| => Retired(keys[i], d))
  }

  /** One more entry of the list: what it stands for in the index so far is still itself, or already retired. */
  lemma RetireOneMore(keys: seq<Entry>, before: seq<Entry>, list: seq<Entry>, e: Entry, d: int)
    requires DistinctIds(keys) && e in keys && |before| == |keys|
    requires forall i | 0 <= i < |keys| :: before[i] == if keys[i] in list then Retired(keys[i], d) else keys[i]
    ensures var r := if e.state == Previous then WithState(before, e.configId, Grace, e.inDnsSince, d) else before;
            |r| == |keys| && forall i | 0 <= i < |keys| ::
              r[i] == if keys[i] in list + [e] then Retired(keys[i], d) else keys[i]
  {
    var k :| 0 <= k < |keys| && keys[k] == e;
    forall i | 0 <= i < |keys| && i != k ensures keys[i].configId != e.configId && keys[i] != e { }
    forall i | 0 <= i < |keys| ensures before[i].configId == keys[i].configId { }
    FindIs(before, e.configId, k);
    assert forall i | 0 <= i < |keys| :: keys[i] in list + [e] <==> keys[i] in list || i == k;
  }

  lemma {:induction false} RetireListPointwise(keys: seq<Entry>, list: seq<Entry>, d: int)
    requires DistinctIds(keys) && forall e | e in list :: e in keys
    ensures var r := RetireList(keys, list, d);
            |r| == |keys| && forall i | 0 <= i < |keys| ::
              r[i] == if keys[i] in list then Retired(keys[i], d) else keys[i]
  {
    hide DistinctIds, WithState, Retired;
    if list != [] {
      var n := |list| - 1;
      assert list == list[..n] + [list[n]];
      RetireListPointwise(keys, list[..n], d);
      RetireOneMore(keys, RetireList(keys, list[..n], d), list[..n], list[n], d);
    }
  }

  /** The pass over the sorted snapshot retires exactly the previous entries. */
  lemma RetireListIsRetireAll(keys: seq<Entry>, d: int)
    requires DistinctIds(keys)
    ensures RetireList(keys, Newest(keys), d) == RetireAll(keys, d)
  {
    hide Retired, RetireList, Newest;
    NewestMembers(keys);
    RetireListPointwise(keys, Newest(keys), d);
    assert forall i | 0 <= i < |keys| :: keys[i] in keys;
  }

  // ---------------------------------------------------------------- a whole cycle

  /** The index after R2, R4, R7 and R8: new entry n, ids marked at t4, deadline d, pruned at t8. */
  function CycleEntries(keys: seq<Entry>, n: Entry, ids: seq<byte>, t4: int, d: int, t8: int): seq<Entry> {
    Keep(RetireAll(MarkIds(Demote(keys) + [n], ids, t4), d), t8)
  }

  lemma CyclePointwise(keys: seq<Entry>, n: Entry, ids: seq<byte>, t4: int, d: int)
    requires n.state == Current
    ensures var r := RetireAll(MarkIds(Demote(keys) + [n], ids, t4), d);
            && |r| == |keys| + 1
            && r[|keys|] == n.(inDnsSince := r[|keys|].inDnsSince)
            && forall i | 0 <= i < |keys| ::
                 && (keys[i].state == Grace ==> r[i] == keys[i])
                 && (keys[i].state != Grace ==>
                       r[i] == keys[i].(state := Grace, dropAt := d, inDnsSince := r[i].inDnsSince))
  {
    hide MarkIds;
    var a := Demote(keys) + [n];
    MarkIdsOnlyMarks(a, ids, t4);
    assert a[|keys|] == n;
    assert forall i | 0 <= i < |keys| :: a[i] == Demote(keys)[i];
  }

  /** The ids of an overlap list are those of the new key and of every key that is not in grace. */
  lemma OverlapIds(keys: seq<Entry>, n: Entry, e: Entry)
    requires n.state == Current && e in Demote(keys) + [n]
    ensures e.state != Grace ==> e.configId in [n.configId] + Ids(Newest(PreviousOf(Demote(keys))))
  {
    hide Newest, PreviousOf;
    var list := Newest(PreviousOf(Demote(keys)));
    PreviousMembers(Demote(keys));
    NewestMembers(PreviousOf(Demote(keys)));
    if e.state == Previous {
      assert e in list;
      var i :| 0 <= i < |list| && list[i] == e;
      assert Ids(list)[i] == e.configId;
    }
  }

  /** After a cycle the new key and every key that was not in grace carry the time of the marking. */
  lemma CycleMarks(keys: seq<Entry>, n: Entry, t4: int, d: int, t8: int, o: Entry, x: Entry)
    requires DistinctIds(Demote(keys) + [n]) && n.state == Current && (o in keys || o == n)
    requires x in CycleEntries(keys, n, [n.configId] + Ids(Newest(PreviousOf(Demote(keys)))), t4, d, t8)
    requires x.configId == o.configId
    ensures x.inDnsSince == if o.state != Grace && t4 != 0 then t4 else o.inDnsSince
  {
    hide Keep, MarkIds, Newest, PreviousOf, Ids;
    var a, ids := Demote(keys) + [n], [n.configId] + Ids(Newest(PreviousOf(Demote(keys))));
    var r := RetireAll(MarkIds(a, ids, t4), d);
    KeepMembers(r, t8);
    MarkIdsMarks(a, ids, t4);
    var i :| 0 <= i < |r| && r[i] == x;
    var j: nat :| j < |a| && a[j].configId == o.configId && (if j < |keys| then keys[j] == o else o == n)
      by { PositionOf(keys, n, o); }
    assert i == j && IsFirst(a, j);
    OverlapIds(keys, n, a[j]);
  }

  lemma PositionOf(keys: seq<Entry>, n: Entry, o: Entry)
    requires o in keys || o == n
    ensures exists j: nat :: j < |Demote(keys) + [n]| && (Demote(keys) + [n])[j].configId == o.configId
                             && if j < |keys| then keys[j] == o else o == n
  {
    var a := Demote(keys) + [n];
    if o in keys {
      var j: nat :| j < |keys| && keys[j] == o;
      assert a[j].configId == o.configId;
    } else {
      assert a[|keys|] == n;
    }
  }

  /** Convergence of the index: whatever it was, after a cycle the new key is the one Current entry, nothing is
      Previous, every key that was published is in grace with the one deadline d unless that has already passed,
      every older grace entry keeps its own deadline, nothing due is left and nothing else is there. */
  lemma CycleConverges(keys: seq<Entry>, n: Entry, ids: seq<byte>, t4: int, d: int, t8: int)
    requires n.state == Current
    ensures var r := CycleEntries(keys, n, ids, t4, d, t8);
            && (exists x | x in r :: x.state == Current)
            && (forall x | x in r && x.state == Current :: x == n.(inDnsSince := x.inDnsSince))
            && (forall x | x in r :: x.state != Previous && !Due(x, t8))
            && (forall o | o in keys && o.state == Grace && !Due(o, t8) :: o in r)
            && (d == 0 || t8 < d ==> forall o | o in keys && o.state != Grace ::
                  exists x | x in r :: x == o.(state := Grace, dropAt := d, inDnsSince := x.inDnsSince))
            && (forall x | x in r :: x.state != Grace || x in keys
                  || exists o | o in keys :: o.state != Grace && x == o.(state := Grace, dropAt := d, inDnsSince := x.inDnsSince))
  {
    hide MarkIds, Keep, RetireAll;
    var pre := RetireAll(MarkIds(Demote(keys) + [n], ids, t4), d);
    var r := CycleEntries(keys, n, ids, t4, d, t8);
    CyclePointwise(keys, n, ids, t4, d);
    KeepMembers(pre, t8);
    assert pre[|keys|] in pre && pre[|keys|] in r;
    forall x | x in r
      ensures x.state == Current ==> x == n.(inDnsSince := x.inDnsSince)
      ensures x.state != Previous
      ensures x.state != Grace || x in keys
              || exists o | o in keys :: o.state != Grace && x == o.(state := Grace, dropAt := d, inDnsSince := x.inDnsSince)
    {
      var i :| 0 <= i < |pre| && pre[i] == x;
      if i < |keys| { assert keys[i] in keys; }
    }
    forall o | o in keys && o.state == Grace && !Due(o, t8) ensures o in r {
      var i :| 0 <= i < |keys| && keys[i] == o;
      assert pre[i] in pre;
    }
    if d == 0 || t8 < d {
      forall o | o in keys && o.state != Grace
        ensures exists x | x in r :: x == o.(state := Grace, dropAt := d, inDnsSince := x.inDnsSince)
      {
        var i :| 0 <= i < |keys| && keys[i] == o;
        assert pre[i] in pre && pre[i] in r;
      }
    }
  }
}
