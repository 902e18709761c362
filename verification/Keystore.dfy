/** internal/keystore/store.go: the key directory's index, kept in memory and rewritten as a whole on every change. */
module Keystore {
  import opened Prelude
  import PemFile
  import opened Protocol
  import opened Machine
  import opened KeyIndex
  import AtomicFile

  const NANOS_PER_SECOND: int := 1_000_000_000

  // ---------------------------------------------------------------- the images an operation passes through

  /** The image while and after one Add: untouched, the file added, file and index added, or rolled back. */
  ghost predicate AddImage(img0: Image, keys: seq<Entry>, pem: seq<PemFile.Block>, e: Entry, img: Image) {
    var placed := Placed(img0, KeyFile(e.name), Pem(pem));
    || img == img0
    || img == placed
    || img == placed.(index := Some(Index(Demote(keys) + [e])))
    || img == Removed(placed, e.name)
  }

  ghost predicate AddTrace(a: seq<Sys>, b: seq<Sys>, keys: seq<Entry>, pem: seq<PemFile.Block>, e: Entry) {
    && a != [] && a <= b
    && forall i | |a| <= i < |b| :: AddImage(Last(a).image, keys, pem, e, b[i].image)
  }

  /** The image while one PruneExpired runs: the files of some first due entries are gone, or all of them and their
      entries. */
  ghost predicate PruneImage(img0: Image, keys: seq<Entry>, now: int, img: Image) {
    var due := DueEntries(keys, now);
    || (exists k | 0 <= k <= |due| :: img == WithoutFiles(img0, due[..k]))
    || img == WithoutFiles(img0, due).(index := Some(Index(Keep(keys, now))))
  }

  ghost predicate PruneTrace(a: seq<Sys>, b: seq<Sys>, keys: seq<Entry>, now: int) {
    && a != [] && a <= b
    && forall i | |a| <= i < |b| :: PruneImage(Last(a).image, keys, now, b[i].image)
  }

  function WithoutFiles(image: Image, gone: seq<Entry>): Image {
    image.(files := image.files - NamesOf(gone))
  }

  /** What a failed Add leaves: the old image, without a foreign file of the new name after an undo, or, when the undo was
      stuck, with the new key's file. */
  ghost predicate FailedAdd(img0: Image, pem: seq<PemFile.Block>, e: Entry, img: Image, stuck: bool) {
    if stuck then img == Placed(img0, KeyFile(e.name), Pem(pem)) else img == img0 || img == Removed(img0, e.name)
  }

  lemma RemovedPlaced(img0: Image, name: Name, data: Content)
    ensures Removed(Placed(img0, KeyFile(name), data), name) == Removed(img0, name)
    ensures name in Placed(img0, KeyFile(name), data).files
    ensures name !in img0.files ==> Removed(img0, name) == img0 && Placed(img0, KeyFile(name), data) != img0
  {
    assert img0.files[name := data] - {name} == img0.files - {name};
    if name !in img0.files { assert img0.files - {name} == img0.files; }
  }

  /** What the rotation protocol asks of an Add: memory mirrors the disk, the config_id is new, the file is whole. */
  ghost predicate AddLawful(s: Sys, keys: seq<Entry>, pem: seq<PemFile.Block>, id: byte) {
    && keys == Keys(s) && (forall o | o in keys :: o.configId != id)
    && PemFile.FittingKey(pem).Some? && PemFile.FittingKey(pem).value.configId == id
  }

  lemma MovesImages(a: seq<Sys>, b: seq<Sys>, img: Image, o: Outcome)
    requires Moves(a, b, img, o)
    ensures a <= b && a != []
    ensures forall i | |a| <= i < |b| :: b[i].image == Last(a).image || b[i].image == img
    ensures o == Done ==> Last(b).image == img
    ensures o == Failed ==> Last(b).image == Last(a).image
    ensures Last(b).image == Last(a).image || Last(b).image == img
    ensures Last(b).rrset == Last(a).rrset && Last(a).clock <= Last(b).clock
  {
    hide IsRun, StablyPermitted, Visible, AllLoaded;
  }

  lemma QuietImages(a: seq<Sys>, b: seq<Sys>)
    requires Quiet(a, b)
    ensures a <= b && a != []
    ensures forall i | |a| <= i < |b| :: b[i].image == Last(a).image
    ensures Last(b).image == Last(a).image && Last(b).rrset == Last(a).rrset && Last(a).clock <= Last(b).clock
    ensures IsRun(a) ==> IsRun(b)
  {
    hide IsRun, Visible, AllLoaded;
  }

  lemma RunDistinct(a: seq<Sys>)
    requires IsRun(a)
    ensures DistinctIds(Keys(Last(a)))
  {
    hide IsRun, OneCurrent, FilesPresent, PublishedServed, CachedServed;
    assert a != [] by { RunNonempty(a); }
    RunKeepsInv(a, |a| - 1);
  }

  lemma RunNonempty(a: seq<Sys>)
    requires IsRun(a)
    ensures a != []
  {
  }

  /** The new key's file is nobody else's. */
  lemma AddFileLawful(a: seq<Sys>, pem: seq<PemFile.Block>, e: Entry)
    requires IsRun(a) && AddLawful(Last(a), Keys(Last(a)), pem, e.configId) && e.name.id == e.configId
    ensures StablyPermitted(Last(a), Placed(Last(a).image, KeyFile(e.name), Pem(pem)))
    ensures StablyPermitted(Last(a), Removed(Last(a).image, e.name))
  {
    hide IsRun, StablyPermitted, FileKey;
    RunNonempty(a);
    var s := Last(a);
    RunDistinct(a);
    PlacedFiles(s.image, e.name, Pem(pem));
    ForeignFilePermitted(s, Placed(s.image, KeyFile(e.name), Pem(pem)), e.name);
    ForeignFilePermitted(s, Removed(s.image, e.name), e.name);
  }

  lemma AddIndexLawful(s0: Sys, s: Sys, pem: seq<PemFile.Block>, e: Entry)
    requires AddLawful(s0, Keys(s0), pem, e.configId) && e.name.id == e.configId && e.state == Current
    requires s.image == Placed(s0.image, KeyFile(e.name), Pem(pem))
    ensures StablyPermitted(s, s.image.(index := Some(Index(Demote(Keys(s0)) + [e]))))
  {
    hide StablyPermitted;
    PlacedFiles(s0.image, e.name, Pem(pem));
    InsertPermitted(s, e, pem);
  }

  /** What one SetState does, field by field: the first entry with the id has the new state, the deadline only in grace,
      and the publication time, if there is one, only outside it; every other entry is unchanged. */
  ghost predicate Rewritten(a: seq<Entry>, b: seq<Entry>, id: byte, state: State, inDns: int, drop: int) {
    && |b| == |a|
    && forall i | 0 <= i < |a| ::
         if a[i].configId == id && forall j | 0 <= j < i :: a[j].configId != id then
           && b[i].name == a[i].name && b[i].configId == id && b[i].createdAt == a[i].createdAt && b[i].state == state
           && b[i].dropAt == (if state == Grace then drop else a[i].dropAt)
           && b[i].inDnsSince == (if (state == Protocol.Current || state == Previous) && inDns != 0 then inDns else a[i].inDnsSince)
         else b[i] == a[i]
  }

  lemma WithStateRewrites(keys: seq<Entry>, id: byte, state: State, inDns: int, drop: int)
    ensures Rewritten(keys, WithState(keys, id, state, inDns, drop), id, state, inDns, drop)
  {
    var k := Find(keys, id);
    forall i | k < i < |keys| && keys[i].configId == id ensures exists j :: 0 <= j < i && keys[j].configId == id {
      assert keys[k].configId == id;
    }
  }

  // ---------------------------------------------------------------- the store

  class Store {
    const m: Host
    var buf: array<Entry>
    var n: nat

    ghost predicate Valid()
      reads this, buf, m
    {
      n <= buf.Length && m.Valid()
    }

    function Entries(): seq<Entry>
      reads this, buf
      requires n <= buf.Length
    {
      buf[..n]
    }

    constructor (m: Host, keys: seq<Entry>)
      requires m.Valid()
      ensures Valid() && this.m == m && fresh(buf) && Entries() == keys
    {
      this.m := m;
      buf := new Entry[|keys|](i requires 0 <= i < |keys| => keys[i]);
      n := |keys|;
    }

    /** OpenOrInit: a missing index is created, empty. */
    static method OpenOrInit(m: Host) returns (o: Outcome, st: Store?)
      requires m.Valid()
      modifies m
      ensures m.Valid()
      ensures Moves(old(m.trace), m.trace, old(m.s.image).(index := Some(Index(IndexKeys(old(m.s.image))))), o)
      ensures o == Done ==> st != null && fresh(st) && fresh(st.buf) && st.m == m && st.Valid()
                            && m.s.image.index == Some(Index(st.Entries()))
      ensures old(m.s.image).index.Some? && !old(m.s.image).index.value.Index? ==>
                o != Done && Quiet(old(m.trace), m.trace)
      ensures m.calm && (old(m.s.image).index.Some? ==> old(m.s.image).index.value.Index?) ==> o == Done
    {
      hide Quiet, Moves;
      st := null;
      ghost var start := m.trace;
      ghost var img := m.s.image.(index := Some(Index(IndexKeys(m.s.image))));
      var keys, missing;
      o, missing, keys := m.ReadIndex();
      QuietImages(start, m.trace);
      if o == Done {
        QuietIsDone(start, m.trace, o);
        assert img == Last(start).image;
        st := new Store(m, keys);
        return;
      }
      if !missing { QuietIsMove(start, m.trace, img, o); return; }
      ghost var read := m.trace;
      var fresh' := new Store(m, []);
      o := fresh'.PersistLocked();
      QuietThenMoves(start, read, m.trace, img, o);
      if o == Done {
        MovesImages(start, m.trace, img, o);
        st := fresh';
      }
    }

    /** Replace .meta.json by the index in memory. */
    method PersistLocked() returns (o: Outcome)
      requires Valid()
      modifies m`s, m`trace, m`failedCleanups
      ensures Valid() && Moves(old(m.trace), m.trace, old(m.s.image).(index := Some(Index(Entries()))), o)
      ensures m.calm ==> o == Done
    {
      o := AtomicFile.AtomicWrite(m, IndexFile, Index(Entries()));
    }

    /** List: a copy, stably sorted by age, newest first. */
    method List() returns (out: seq<Entry>)
      requires Valid()
      ensures NewestFirst(out) && multiset(out) == multiset(Entries())
      ensures forall t :: OfAge(out, t) == OfAge(Entries(), t)
      ensures out == Newest(Entries())
    {
      out := [];
      assert buf[n..n] == [];
      for i := n downto 0
        invariant out == Newest(buf[i..n])
      {
        assert buf[i..n] == [buf[i]] + buf[i + 1..n];
        out := KeyIndex.Insert(buf[i], out);
      }
      assert buf[0..n] == Entries();
      NewestSorts(Entries(), 0);
      forall t ensures OfAge(out, t) == OfAge(Entries(), t) { NewestSorts(Entries(), t); }
    }

    method Current() returns (e: Option<Entry>)
      requires Valid()
      ensures e.None? <==> forall x | x in Entries() :: x.state != Protocol.Current
      ensures e.Some? ==> e.value in Entries() && e.value.state == Protocol.Current
    {
      for i := 0 to n
        invariant forall j | 0 <= j < i :: buf[j].state != Protocol.Current
      {
        if buf[i].state == Protocol.Current {
          assert buf[i] == Entries()[i];
          return Some(buf[i]);
        }
      }
      return None;
    }

    method Lookup(id: byte) returns (e: Option<Entry>)
      requires Valid()
      ensures var k := Find(Entries(), id); e == if k < n then Some(Entries()[k]) else None
    {
      for i := 0 to n
        invariant forall j | 0 <= j < i :: buf[j].configId != id
      {
        if buf[i].configId == id {
          FindIs(Entries(), id, i);
          return Some(buf[i]);
        }
      }
      FindIs(Entries(), id, n);
      return None;
    }

    method Read(e: Entry) returns (o: Outcome, data: Content)
      requires Valid()
      modifies m
      ensures Valid() && Quiet(old(m.trace), m.trace)
      ensures o == Done ==> e.name in m.s.image.files && data == m.s.image.files[e.name]
      ensures m.calm && e.name in old(m.s.image).files ==> o == Done
    {
      o, data := m.ReadFile(e.name);
    }

    /** SetState: the first entry with this config_id is rewritten in memory and the index persisted; memory keeps the
        new state even when that fails. */
    method SetState(id: byte, state: State, inDns: int, drop: int) returns (o: Outcome)
      requires Valid()
      modifies buf, m
      ensures Valid() && Entries() == WithState(old(Entries()), id, state, inDns, drop)
      ensures Rewritten(old(Entries()), Entries(), id, state, inDns, drop)
      ensures Moves(old(m.trace), m.trace, old(m.s.image).(index := Some(Index(Entries()))), o)
      ensures Find(old(Entries()), id) == n ==> o == Failed
      ensures m.calm && Find(old(Entries()), id) < n ==> o == Done
    {
      hide Quiet, Moves, Rewritten;
      WithStateRewrites(Entries(), id, state, inDns, drop);
      for i := 0 to n
        invariant n <= buf.Length && m.Valid() && m.trace == old(m.trace) && m.s == old(m.s)
        invariant buf[..] == old(buf[..])
        invariant forall j | 0 <= j < i :: buf[j].configId != id
      {
        if buf[i].configId == id {
          FindIs(Entries(), id, i);
          buf[i] := Updated(buf[i], state, inDns, drop);
          assert Entries() == old(Entries())[i := Updated(old(Entries())[i], state, inDns, drop)];
          o := PersistLocked();
          return;
        }
      }
      FindIs(Entries(), id, n);
      QuietRefl(m.trace);
      QuietIsMove(m.trace, m.trace, m.s.image.(index := Some(Index(Entries()))), Failed);
      return Failed;
    }

    // -------------------------------------------------------------- Add

    method UniqueName(name: Name) returns (r: Option<Name>)
      requires Valid()
      ensures r.Some? ==> r.value.stamp == name.stamp && r.value.id == name.id
                          && (name !in NamesOf(Entries()) ==> r.value == name)
                          && (name in NamesOf(Entries()) ==> r.value.tag.Some?)
      ensures name !in NamesOf(Entries()) || m.calm ==> r.Some?
    {
      for i := 0 to n
        invariant forall j | 0 <= j < i :: buf[j].name != name
      {
        if buf[i].name == name {
          assert Entries()[i] in Entries();
          var tag := m.DrawSuffix(KeyFile(name));
          if tag.None? { return None; }
          return Some(name.(tag := tag));
        }
      }
      return Some(name);
    }

    method DemoteAll()
      requires n <= buf.Length
      modifies buf
      ensures Entries() == Demote(old(Entries()))
    {
      for i := 0 to n
        invariant forall j | 0 <= j < i ::
                    buf[j] == if old(buf[j]).state == Protocol.Current then old(buf[j]).(state := Previous) else old(buf[j])
        invariant forall j | i <= j < n :: buf[j] == old(buf[j])
      {
        if buf[i].state == Protocol.Current {
          buf[i] := buf[i].(state := Previous);
        }
      }
    }

    /** append: into spare room, or into a grown copy. */
    method Append(e: Entry)
      requires n <= buf.Length
      modifies this, buf
      ensures n <= buf.Length && Entries() == old(Entries()) + [e]
      ensures buf == old(buf) || fresh(buf)
    {
      if n == buf.Length {
        var bigger := new Entry[2 * n + 1](_ => e);
        for i := 0 to n
          invariant n == old(n) && buf == old(buf) && buf[..] == old(buf[..])
          invariant forall j | 0 <= j < i :: bigger[j] == buf[j]
        {
          bigger[i] := buf[i];
        }
        buf := bigger;
      }
      buf[n] := e;
      n := n + 1;
    }

    /** Add: write the key file, demote the current entry, append the new one, persist; roll the file back on errors.
        On failure the returned entry is the prepared one, and memory may already hold the new index; the file stays
        exactly when it could not be removed again. */
    method Add(pem: seq<PemFile.Block>, id: byte) returns (o: Outcome, e: Entry)
      requires Valid()
      modifies this, buf, m
      ensures Valid() && (buf == old(buf) || fresh(buf))
      ensures AddTrace(old(m.trace), m.trace, old(Entries()), pem, e)
      ensures e.configId == id && e.name.id == id && e.state == Protocol.Current && e.inDnsSince == 0 && e.dropAt == 0
      ensures o == Done ==>
                && Entries() == Demote(old(Entries())) + [e]
                && m.s.image == Placed(old(m.s.image), KeyFile(e.name), Pem(pem)).(index := Some(Index(Entries())))
                && old(m.s.clock) <= e.createdAt <= m.s.clock && e.createdAt != 0
                && e.name.stamp == e.createdAt / 1_000_000_000
                && (Name(e.name.stamp, id, None) !in NamesOf(old(Entries())) ==> e.name.tag == None)
      ensures o == Failed ==> FailedAdd(old(m.s.image), pem, e, m.s.image, m.failedRemoves > old(m.failedRemoves))
      ensures o == Failed && e.name !in old(m.s.image).files ==>
                (m.s.image == old(m.s.image) <==> m.failedRemoves == old(m.failedRemoves))
      ensures o != Done ==>
                || Entries() == old(Entries())
                || Entries() == Demote(old(Entries()))
                || Entries() == Demote(old(Entries())) + [e]
      ensures m.failedRemoves >= old(m.failedRemoves)
      ensures m.s.rrset == old(m.s.rrset) && old(m.s.clock) <= m.s.clock
      ensures IsRun(old(m.trace)) && AddLawful(old(m.s), old(Entries()), pem, id) ==> IsRun(m.trace)
      ensures m.calm && pem != [] && old(m.s.clock) > 0 ==> o == Done
    {
      hide Quiet, Moves, IsRun, AddLawful, StablyPermitted;
      ghost var t0 := m.trace;
      e := Entry(Name(0, id, None), id, Protocol.Current, 0, 0, 0);
      if pem == [] { return Failed, e; }
      var now := m.Now();
      QuietImages(t0, m.trace);
      var name := UniqueName(Name(now / NANOS_PER_SECOND, id, None));
      if name.None? { return Failed, e; }
      e := Entry(name.value, id, Protocol.Current, now, 0, 0);
      RemovedPlaced(m.s.image, e.name, Pem(pem));
      ghost var t1 := m.trace;
      o := AtomicFile.AtomicWrite(m, KeyFile(e.name), Pem(pem));
      FileWritten(t0, t1, m.trace, Entries(), pem, e, o);
      if o != Done { return; }
      ghost var keys := Entries();
      ghost var t2 := m.trace;
      DemoteAll();
      if now == 0 {
        o := RollBack(e, t0, t2, keys, pem);
        return;
      }
      Append(e);
      o := PersistLocked();
      IndexWritten(t0, t2, m.trace, keys, pem, e, o);
      if o == Failed {
        o := RollBack(e, t0, m.trace, keys, pem);
      }
    }

    /** Remove the file again, if that works. */
    method RollBack(e: Entry, ghost t0: seq<Sys>, ghost t: seq<Sys>, ghost keys: seq<Entry>, ghost pem: seq<PemFile.Block>)
      returns (o: Outcome)
      requires Valid() && t == m.trace && AddTrace(t0, t, keys, pem, e) && e.name.id == e.configId
      requires m.s.image == Placed(Last(t0).image, KeyFile(e.name), Pem(pem))
      requires IsRun(t0) && AddLawful(Last(t0), keys, pem, e.configId) ==> IsRun(t)
      modifies m
      ensures Valid() && AddTrace(t0, m.trace, keys, pem, e) && o != Done
      ensures o == Failed ==>
                m.s.image == if m.failedRemoves > old(m.failedRemoves) then old(m.s.image) else Removed(Last(t0).image, e.name)
      ensures m.failedRemoves >= old(m.failedRemoves)
      ensures m.s.rrset == old(m.s.rrset) && old(m.s.clock) <= m.s.clock
      ensures IsRun(t0) && AddLawful(Last(t0), keys, pem, e.configId) ==> IsRun(m.trace)
    {
      hide Moves, IsRun, StablyPermitted, AddLawful;
      var missing;
      o, missing := m.RemoveFile(e.name);
      FileRolledBack(t0, t, m.trace, keys, pem, e, o);
      RemovedPlaced(Last(t0).image, e.name, Pem(pem));
      if o == Done { o := Failed; }
    }

    // -------------------------------------------------------------- PruneExpired

    /** The rest of the index slides down behind the kept prefix. */
    method SlideDown(w: nat, i: nat)
      requires w <= i <= n <= buf.Length
      modifies this`n, buf
      ensures n == w + (old(n) - i) && n <= buf.Length
      ensures Entries() == old(buf[..w]) + old(buf[i..n])
    {
      ghost var was := buf[..];
      for j := i to n
        invariant n == old(n) && buf == old(buf) && |was| == buf.Length
        invariant forall k | 0 <= k < w :: buf[k] == was[k]
        invariant forall k | j <= k < n :: buf[k] == was[k]
        invariant forall k | w <= k < w + (j - i) :: buf[k] == was[i + (k - w)]
      {
        buf[w + (j - i)] := buf[j];
      }
      n := w + (n - i);
      Slid(was, buf[..n], w, i, old(n));
    }

    /** One kept entry moves down behind the kept prefix. */
    method MoveDown(w: nat, i: nat)
      requires w <= i < n <= buf.Length
      modifies buf
      ensures buf[..w + 1] == old(buf[..w]) + [old(buf[i])]
      ensures buf[i + 1..n] == old(buf[i + 1..n])
    {
      buf[w] := buf[i];
    }

    /** PruneExpired compacts the index in place while it reads it. Success leaves exactly the entries that are not
        due, in order, without the files of the others. When a remove fails at entry i, memory holds the kept part of
        the first i entries followed by the untouched rest, and the disk index is unchanged. */
    method PruneExpired(now: int) returns (o: Outcome, pruned: seq<byte>)
      requires Valid()
      modifies this`n, buf, m
      ensures Valid()
      ensures PruneTrace(old(m.trace), m.trace, old(Entries()), now)
      ensures o == Done ==>
                && Entries() == Keep(old(Entries()), now)
                && pruned == Ids(DueEntries(old(Entries()), now))
                && m.s.image == (if pruned == [] then old(m.s.image)
                                 else WithoutFiles(old(m.s.image), DueEntries(old(Entries()), now))
                                      .(index := Some(Index(Entries()))))
      ensures o == Failed ==>
                exists i | 0 <= i <= |old(Entries())| ::
                  && Entries() == Keep(old(Entries())[..i], now) + old(Entries())[i..]
                  && pruned == Ids(DueEntries(old(Entries())[..i], now))
                  && m.s.image == WithoutFiles(old(m.s.image), DueEntries(old(Entries())[..i], now))
      ensures m.s.rrset == old(m.s.rrset) && old(m.s.clock) <= m.s.clock
      ensures IsRun(old(m.trace)) && old(Entries()) == Keys(old(m.s)) && now <= old(m.s.clock) ==> IsRun(m.trace)
      ensures m.calm ==> o == Done
    {
      hide Quiet, Moves, IsRun, Due, Keep, DueEntries, PruneTrace, PruneProgress, WithoutFiles, Ids;
      ghost var t0, keys := m.trace, Entries();
      NoIds();
      var w := 0;
      pruned := [];
      PruneStarts(t0, keys, now);
      assert keys[..0] == [];
      for i := 0 to n
        invariant Valid() && n == old(n) && buf == old(buf) && w <= i
        invariant buf[..w] == Keep(keys[..i], now) && buf[i..n] == keys[i..]
        invariant pruned == Ids(DueEntries(keys[..i], now))
        invariant PruneProgress(t0, m.trace, keys, now, i)
      {
        var e := buf[i];
        assert e == buf[i..n][0] == keys[i] && keys[..i + 1] == keys[..i] + [e];
        assert buf[i + 1..n] == buf[i..n][1..] == keys[i + 1..];
        KeepSnoc(keys[..i], e, now);
        DueSnoc(keys[..i], e, now);
        if Due(e, now) {
          ghost var t1 := m.trace;
          var missing;
          o, missing := m.RemoveFile(e.name);
          PruneRemoves(t0, t1, m.trace, keys, now, i, o, missing);
          if o == Crashed { return; }
          if o == Failed && !missing {
            ProgressMeans(t0, m.trace, keys, now, i);
            SlideDown(w, i);
            assert Entries() == Keep(keys[..i], now) + keys[i..];
            return;
          }
          IdsSnoc(DueEntries(keys[..i], now), e);
          assert Keep(keys[..i], now) + [] == Keep(keys[..i], now);
          pruned := pruned + [e.configId];
        } else {
          PruneSkips(t0, m.trace, keys, now, i);
          assert DueEntries(keys[..i], now) + [] == DueEntries(keys[..i], now);
          MoveDown(w, i);
          w := w + 1;
        }
      }
      assert keys[..n] == keys;
      n := w;
      KeepSplits(keys, now);
      IdsLength(DueEntries(keys, now));
      ProgressMeans(t0, m.trace, keys, now, |keys|);
      if pruned == [] {
        PruneNothing(t0, m.trace, keys, now);
        return Done, pruned;
      }
      ghost var t2 := m.trace;
      o := PersistLocked();
      PruneEnds(t0, t2, m.trace, keys, now, o);
      if o == Failed {
        assert keys[..|keys|] == keys && keys[|keys|..] == [];
        assert Entries() == Keep(keys[..|keys|], now) + keys[|keys|..];
      }
    }
  }

  lemma Slid(was: seq<Entry>, now: seq<Entry>, w: nat, i: nat, n: nat)
    requires w <= i <= n <= |was| && |now| == w + (n - i)
    requires forall k | 0 <= k < w :: now[k] == was[k]
    requires forall k | w <= k < |now| :: now[k] == was[i + (k - w)]
    ensures now == was[..w] + was[i..n]
  {
  }

  /** Where the loop of PruneExpired stands before entry i. */
  ghost predicate PruneProgress(t0: seq<Sys>, t: seq<Sys>, keys: seq<Entry>, now: int, i: nat) {
    && i <= |keys| && t0 != [] && t != [] && PruneTrace(t0, t, keys, now)
    && Last(t).image == WithoutFiles(Last(t0).image, DueEntries(keys[..i], now))
    && Last(t).rrset == Last(t0).rrset && Last(t0).clock <= Last(t).clock
    && (IsRun(t0) && keys == Keys(Last(t0)) && now <= Last(t0).clock ==> IsRun(t))
  }

  lemma ProgressMeans(t0: seq<Sys>, t: seq<Sys>, keys: seq<Entry>, now: int, i: nat)
    requires PruneProgress(t0, t, keys, now, i)
    ensures i <= |keys| && t0 != [] && t != [] && PruneTrace(t0, t, keys, now)
    ensures Last(t).image == WithoutFiles(Last(t0).image, DueEntries(keys[..i], now))
    ensures Last(t).rrset == Last(t0).rrset && Last(t0).clock <= Last(t).clock
    ensures IsRun(t0) && keys == Keys(Last(t0)) && now <= Last(t0).clock ==> IsRun(t)
  {
    hide IsRun, PruneTrace, DueEntries, WithoutFiles;
  }

  lemma NoIds()
    ensures Ids([]) == []
  {
  }

  lemma IdsLength(keys: seq<Entry>)
    ensures |Ids(keys)| == |keys|
  {
  }

  lemma IdsSnoc(keys: seq<Entry>, e: Entry)
    ensures Ids(keys + [e]) == Ids(keys) + [e.configId]
  {
  }

  lemma PruneStarts(t0: seq<Sys>, keys: seq<Entry>, now: int)
    requires t0 != []
    ensures PruneProgress(t0, t0, keys, now, 0)
    ensures Keep(keys[..0], now) == [] && DueEntries(keys[..0], now) == []
  {
    hide IsRun, Due;
    assert keys[..0] == [];
    assert DueEntries(keys[..0], now) == [];
    assert NamesOf([]) == {};
    assert Last(t0).image.files - {} == Last(t0).image.files;
  }

  lemma {:induction false} DuePrefix(keys: seq<Entry>, now: int, i: nat)
    requires i <= |keys|
    ensures DueEntries(keys[..i], now) <= DueEntries(keys, now)
    ensures i < |keys| && Due(keys[i], now) ==> DueEntries(keys[..i], now) + [keys[i]] <= DueEntries(keys, now)
    decreases |keys| - i
  {
    hide Due;
    if i == |keys| {
      assert keys[..i] == keys;
    } else {
      assert keys[..i + 1] == keys[..i] + [keys[i]];
      DueSnoc(keys[..i], keys[i], now);
      DuePrefix(keys, now, i + 1);
    }
  }

  lemma PrefixImage(img0: Image, keys: seq<Entry>, now: int, due: seq<Entry>)
    requires due <= DueEntries(keys, now)
    ensures PruneImage(img0, keys, now, WithoutFiles(img0, due))
  {
    assert due == DueEntries(keys, now)[..|due|];
  }

  lemma PruneSkips(t0: seq<Sys>, t: seq<Sys>, keys: seq<Entry>, now: int, i: nat)
    requires PruneProgress(t0, t, keys, now, i) && i < |keys| && !Due(keys[i], now)
    ensures PruneProgress(t0, t, keys, now, i + 1)
  {
    hide IsRun, Due, PruneTrace;
    assert keys[..i + 1] == keys[..i] + [keys[i]];
    DueSnoc(keys[..i], keys[i], now);
  }

  lemma WithoutOneMore(img: Image, gone: seq<Entry>, e: Entry)
    ensures Removed(WithoutFiles(img, gone), e.name) == WithoutFiles(img, gone + [e])
  {
    var a := NamesOf(gone + [e]);
    var b := NamesOf(gone) + {e.name};
    assert forall x | x in gone + [e] :: x in gone || x == e;
    assert e in gone + [e];
    assert forall x | x in gone :: x in gone + [e];
    assert a == b;
    assert img.files - NamesOf(gone) - {e.name} == img.files - a;
  }

  lemma PruneRemoves(t0: seq<Sys>, t1: seq<Sys>, t2: seq<Sys>, keys: seq<Entry>, now: int, i: nat, o: Outcome, missing: bool)
    requires PruneProgress(t0, t1, keys, now, i) && i < |keys| && Due(keys[i], now)
    requires Moves(t1, t2, Removed(Last(t1).image, keys[i].name), o)
    requires missing ==> o == Failed && keys[i].name !in Last(t1).image.files
    ensures PruneTrace(t0, t2, keys, now) && t2 != []
    ensures o == Done || missing ==> PruneProgress(t0, t2, keys, now, i + 1)
    ensures o == Failed && !missing ==> PruneProgress(t0, t2, keys, now, i)
    ensures Last(t2).rrset == Last(t0).rrset && Last(t0).clock <= Last(t2).clock
    ensures IsRun(t0) && keys == Keys(Last(t0)) && now <= Last(t0).clock ==> IsRun(t2)
  {
    hide IsRun, StablyPermitted, DueEntries, Moves, PruneImage, Due;
    var e, s1 := keys[i], Last(t1);
    var due := DueEntries(keys[..i], now);
    var img := Removed(s1.image, e.name);
    assert keys[..i + 1] == keys[..i] + [e];
    DueSnoc(keys[..i], e, now);
    DuePrefix(keys, now, i);
    WithoutOneMore(Last(t0).image, due, e);
    PrefixImage(Last(t0).image, keys, now, due);
    PrefixImage(Last(t0).image, keys, now, due + [e]);
    MovesImages(t1, t2, img, o);
    forall j | |t0| <= j < |t2| ensures PruneImage(Last(t0).image, keys, now, t2[j].image) {
      if j < |t1| { assert t2[j] == t1[j]; }
    }
    if missing { assert img.files == s1.image.files; }
    if IsRun(t0) && keys == Keys(Last(t0)) && now <= Last(t0).clock {
      RunDistinct(t1);
      assert Keys(s1) == keys;
      DueLater(e, now, s1.clock);
      DueFilePermitted(s1, e);
      MovesLawful(t1, t2, img, o);
    }
  }

  lemma DueLater(e: Entry, now: int, t: int)
    requires Due(e, now) && now <= t
    ensures Due(e, t)
  {
  }

  lemma MovesLawful(a: seq<Sys>, b: seq<Sys>, img: Image, o: Outcome)
    requires Moves(a, b, img, o) && IsRun(a) && StablyPermitted(Last(a), img)
    ensures IsRun(b)
  {
  }

  lemma PruneNothing(t0: seq<Sys>, t: seq<Sys>, keys: seq<Entry>, now: int)
    requires PruneProgress(t0, t, keys, now, |keys|) && DueEntries(keys, now) == []
    ensures Last(t).image == Last(t0).image
  {
    hide IsRun, DueEntries, PruneTrace;
    assert keys[..|keys|] == keys;
    assert NamesOf([]) == {};
    assert Last(t0).image.files - {} == Last(t0).image.files;
  }

  lemma PruneEnds(t0: seq<Sys>, t2: seq<Sys>, t3: seq<Sys>, keys: seq<Entry>, now: int, o: Outcome)
    requires PruneProgress(t0, t2, keys, now, |keys|)
    requires Moves(t2, t3, Last(t2).image.(index := Some(Index(Keep(keys, now)))), o)
    ensures PruneTrace(t0, t3, keys, now) && t3 != []
    ensures o == Done ==>
              Last(t3).image == WithoutFiles(Last(t0).image, DueEntries(keys, now)).(index := Some(Index(Keep(keys, now))))
    ensures o == Failed ==> Last(t3).image == WithoutFiles(Last(t0).image, DueEntries(keys, now))
    ensures Last(t3).rrset == Last(t0).rrset && Last(t0).clock <= Last(t3).clock
    ensures IsRun(t0) && keys == Keys(Last(t0)) && now <= Last(t0).clock ==> IsRun(t3)
  {
    hide IsRun, StablyPermitted, DueEntries, Moves, PruneImage, Keep;
    assert keys[..|keys|] == keys;
    var img := Last(t2).image.(index := Some(Index(Keep(keys, now))));
    MovesImages(t2, t3, img, o);
    PrefixImage(Last(t0).image, keys, now, DueEntries(keys, now));
    FinalImage(Last(t0).image, keys, now);
    forall j | |t0| <= j < |t3| ensures PruneImage(Last(t0).image, keys, now, t3[j].image) {
      if j < |t2| { assert t3[j] == t2[j]; }
    }
    if IsRun(t0) && keys == Keys(Last(t0)) && now <= Last(t0).clock {
      assert Keys(Last(t2)) == keys;
      PrunePermitted(Last(t2), now);
      MovesLawful(t2, t3, img, o);
    }
  }

  lemma FinalImage(img0: Image, keys: seq<Entry>, now: int)
    ensures PruneImage(img0, keys, now, WithoutFiles(img0, DueEntries(keys, now)).(index := Some(Index(Keep(keys, now)))))
  {
  }

  lemma FileWritten(t0: seq<Sys>, t1: seq<Sys>, t2: seq<Sys>, keys: seq<Entry>, pem: seq<PemFile.Block>, e: Entry, o: Outcome)
    requires Quiet(t0, t1) && Moves(t1, t2, Placed(Last(t0).image, KeyFile(e.name), Pem(pem)), o)
    requires e.name.id == e.configId
    ensures AddTrace(t0, t2, keys, pem, e)
    ensures Last(t2).rrset == Last(t0).rrset && Last(t0).clock <= Last(t1).clock <= Last(t2).clock
    ensures o == Done ==> Last(t2).image == Placed(Last(t0).image, KeyFile(e.name), Pem(pem))
    ensures o == Failed ==> Last(t2).image == Last(t0).image
    ensures IsRun(t0) && AddLawful(Last(t0), keys, pem, e.configId) ==> IsRun(t2)
  {
    hide IsRun, StablyPermitted, CoreRel, Reached, PemFile.FittingKey, AllLoaded;
    var img := Placed(Last(t0).image, KeyFile(e.name), Pem(pem));
    QuietImages(t0, t1);
    MovesImages(t1, t2, img, o);
    forall i | |t0| <= i < |t2| ensures AddImage(Last(t0).image, keys, pem, e, t2[i].image) {
      if i < |t1| { assert t2[i] == t1[i]; }
    }
    if IsRun(t0) && AddLawful(Last(t0), keys, pem, e.configId) {
      AddFileLawful(t1, pem, e);
    }
  }

  lemma IndexWritten(t0: seq<Sys>, t2: seq<Sys>, t3: seq<Sys>, keys: seq<Entry>, pem: seq<PemFile.Block>, e: Entry, o: Outcome)
    requires AddTrace(t0, t2, keys, pem, e) && t2 != []
    requires Last(t2).image == Placed(Last(t0).image, KeyFile(e.name), Pem(pem))
    requires Moves(t2, t3, Last(t2).image.(index := Some(Index(Demote(keys) + [e]))), o)
    requires e.name.id == e.configId && e.state == Current
    requires IsRun(t0) && AddLawful(Last(t0), keys, pem, e.configId) ==> IsRun(t2)
    ensures AddTrace(t0, t3, keys, pem, e)
    ensures Last(t3).rrset == Last(t2).rrset && Last(t2).clock <= Last(t3).clock
    ensures o == Done ==> Last(t3).image == Last(t2).image.(index := Some(Index(Demote(keys) + [e])))
    ensures o == Failed ==> Last(t3).image == Last(t2).image
    ensures IsRun(t0) && AddLawful(Last(t0), keys, pem, e.configId) ==> IsRun(t3)
  {
    hide IsRun, StablyPermitted, CoreRel, Reached, PemFile.FittingKey, AllLoaded;
    var img := Last(t2).image.(index := Some(Index(Demote(keys) + [e])));
    MovesImages(t2, t3, img, o);
    forall i | |t0| <= i < |t3| ensures AddImage(Last(t0).image, keys, pem, e, t3[i].image) {
      if i < |t2| { assert t3[i] == t2[i]; }
    }
    if IsRun(t0) && AddLawful(Last(t0), keys, pem, e.configId) {
      AddIndexLawful(Last(t0), Last(t2), pem, e);
    }
  }

  lemma FileRolledBack(t0: seq<Sys>, t3: seq<Sys>, t4: seq<Sys>, keys: seq<Entry>, pem: seq<PemFile.Block>, e: Entry, o: Outcome)
    requires AddTrace(t0, t3, keys, pem, e) && t3 != [] && e.name.id == e.configId
    requires Last(t3).image == Placed(Last(t0).image, KeyFile(e.name), Pem(pem))
    requires Moves(t3, t4, Removed(Last(t3).image, e.name), o)
    requires IsRun(t0) && AddLawful(Last(t0), keys, pem, e.configId) ==> IsRun(t3)
    ensures AddTrace(t0, t4, keys, pem, e)
    ensures Last(t4).rrset == Last(t3).rrset && Last(t3).clock <= Last(t4).clock
    ensures o == Done ==> Last(t4).image == Removed(Last(t3).image, e.name)
    ensures o == Failed ==> Last(t4).image == Last(t3).image
    ensures IsRun(t0) && AddLawful(Last(t0), keys, pem, e.configId) ==> IsRun(t4)
  {
    hide IsRun, StablyPermitted, CoreRel, Reached, PemFile.FittingKey, AllLoaded;
    var img := Removed(Last(t3).image, e.name);
    MovesImages(t3, t4, img, o);
    forall i | |t0| <= i < |t4| ensures AddImage(Last(t0).image, keys, pem, e, t4[i].image) {
      if i < |t3| { assert t4[i] == t3[i]; }
    }
    if IsRun(t0) && AddLawful(Last(t0), keys, pem, e.configId) {
      AddFileLawful(t3, pem, e);
    }
  }
}
