/** How large the key store grows when every cycle succeeds: retired keys carry deadlines that lie at least one rotation
    interval apart and at most one grace period ahead, so only so many fit. */
module StoreBound {
  import opened Prelude
  import opened Protocol
  import opened Machine
  import opened KeyIndex
  import opened Rotation
  import opened ConfigIds
  import opened RotatorSteps
  import opened Rotator
  import opened Commands

  /** Rounded up. */
  function Ceil(g: nat, interval: nat): nat
    requires interval > 0
  {
    (g + interval - 1) / interval
  }

  /** The index after these cycles, from an empty store. */
  function KeysAfter(cycles: seq<Cycle>): seq<Entry> {
    if cycles == [] then []
    else
      var r := cycles[|cycles| - 1];
      CycleEntries(KeysAfter(cycles[..|cycles| - 1]), r.entry, r.ids, r.markedAt, r.deadline, r.prunedAt)
  }

  /** Successful cycles whose R7 clock readings (a grace period before the deadline) are at least an interval apart. */
  ghost predicate Spaced(cycles: seq<Cycle>, grace: nat, interval: nat) {
    && (forall r | r in cycles ::
          r.entry.state == Current && 0 < r.deadline - grace <= r.prunedAt)
    && (forall i | 0 < i < |cycles| :: cycles[i - 1].deadline + interval <= cycles[i].deadline)
  }

  // ---------------------------------------------------------------- the shape of the index

  /** Grace entries whose deadlines lie after t, at most a grace period after it, and pairwise an interval apart. */
  ghost predicate Fading(list: seq<Entry>, t: int, grace: nat, interval: nat) {
    && (forall i | 0 <= i < |list| :: list[i].state == Grace && t < list[i].dropAt <= t + grace)
    && (forall i, j | 0 <= i < j < |list| :: list[i].dropAt + interval <= list[j].dropAt)
  }

  /** The index after a cycle whose R7 read t: fading entries, then the current one. */
  ghost predicate Settled(keys: seq<Entry>, t: int, grace: nat, interval: nat) {
    keys != [] && keys[|keys| - 1].state == Current && Fading(keys[..|keys| - 1], t, grace, interval)
  }

  lemma FirstCycleSettles(r: Cycle, grace: nat, interval: nat)
    requires r.entry.state == Current
    ensures Settled(CycleEntries([], r.entry, r.ids, r.markedAt, r.deadline, r.prunedAt), r.deadline - grace, grace, interval)
  {
    hide MarkIds;
    var pre := BeforePrune([], r);
    CyclePointwise([], r.entry, r.ids, r.markedAt, r.deadline);
    assert pre == [pre[0]] && pre[0].state == Current;
    assert pre[1..] == [];
    assert Keep(pre, r.prunedAt) == [pre[0]] + Keep(pre[1..], r.prunedAt);
    var keys := CycleEntries([], r.entry, r.ids, r.markedAt, r.deadline, r.prunedAt);
    assert keys == [pre[0]];
  }

  /** Before R8 the index is the old fading entries, the retired former current entry, and the new one. */
  lemma BeforePruneShape(keys: seq<Entry>, r: Cycle)
    requires keys != [] && r.entry.state == Current
    requires keys[|keys| - 1].state == Current && forall i | 0 <= i < |keys| - 1 :: keys[i].state == Grace
    ensures var pre := BeforePrune(keys, r);
            && |pre| == |keys| + 1 && pre[|keys|].state == Current
            && pre[..|keys| - 1] == keys[..|keys| - 1]
            && pre[|keys| - 1].state == Grace && pre[|keys| - 1].dropAt == r.deadline
  {
    hide MarkIds;
    CyclePointwise(keys, r.entry, r.ids, r.markedAt, r.deadline);
  }

  /** A later cycle keeps the shape, an interval later. */
  lemma NextCycleSettles(keys: seq<Entry>, t: int, r: Cycle, grace: nat, interval: nat)
    requires 0 < t && Settled(keys, t, grace, interval) && r.entry.state == Current
    requires t + interval <= r.deadline - grace && 0 < r.deadline - grace <= r.prunedAt
    ensures Settled(CycleEntries(keys, r.entry, r.ids, r.markedAt, r.deadline, r.prunedAt), r.deadline - grace, grace, interval)
  {
    hide CycleEntries, BeforePrune, Keep;
    var n := |keys|;
    var pre := BeforePrune(keys, r);
    assert forall i | 0 <= i < n - 1 :: keys[..n - 1][i] == keys[i];
    BeforePruneShape(keys, r);
    var old', e := pre[..n], pre[n];
    assert pre == old' + [e];
    KeepSnoc(old', e, r.prunedAt);
    var kept := Keep(old', r.prunedAt);
    assert forall i | 0 <= i < n - 1 :: old'[i] == pre[..n - 1][i];
    FadingKept(old', r.prunedAt, r.deadline - grace, grace, interval);
    CycleIsKept(keys, r);
    assert (kept + [e])[..|kept|] == kept;
  }

  /** What pruning at t8 leaves of spaced grace entries fades after t8. */
  lemma FadingKept(list: seq<Entry>, t8: int, t: int, grace: nat, interval: nat)
    requires 0 < t <= t8
    requires forall i | 0 <= i < |list| :: list[i].state == Grace && list[i].dropAt <= t + grace && list[i].dropAt != 0
    requires forall i, j | 0 <= i < j < |list| :: list[i].dropAt + interval <= list[j].dropAt
    ensures Fading(Keep(list, t8), t, grace, interval)
  {
    hide Keep;
    var kept := Keep(list, t8);
    KeepMembers(list, t8);
    forall i | 0 <= i < |kept| ensures kept[i].state == Grace && t < kept[i].dropAt <= t + grace {
      assert kept[i] in kept;
    }
    forall i, j | 0 <= i < j < |kept| ensures kept[i].dropAt + interval <= kept[j].dropAt {
      var a, b := KeepIsSubsequence(list, t8, i, j);
    }
  }

  // ---------------------------------------------------------------- counting

  lemma {:induction false} Spread(list: seq<Entry>, t: int, grace: nat, interval: nat, i: nat)
    requires Fading(list, t, grace, interval) && i < |list|
    ensures list[0].dropAt + i * interval <= list[i].dropAt
  {
    if i > 0 {
      Spread(list, t, grace, interval, i - 1);
      assert i * interval == (i - 1) * interval + interval;
    }
  }

  lemma FadingCount(list: seq<Entry>, t: int, grace: nat, interval: nat)
    requires interval > 0 && Fading(list, t, grace, interval)
    ensures |list| <= Ceil(grace, interval)
  {
    var m := |list|;
    if m > 0 {
      Spread(list, t, grace, interval, m - 1);
      assert (m - 1) * interval < grace;
      RoundsUp(m, grace, interval);
    }
  }

  lemma RoundsUp(m: nat, g: nat, interval: nat)
    requires interval > 0 && m > 0 && (m - 1) * interval < g
    ensures m <= Ceil(g, interval)
  {
    var x, q := g + interval - 1, Ceil(g, interval);
    assert m * interval == (m - 1) * interval + interval;
    assert x == q * interval + x % interval;
    if m > q {
      Times(q + 1, m, interval);
      assert false;
    }
  }

  lemma Times(a: nat, b: nat, c: nat)
    requires a <= b
    ensures a * c <= b * c && a * c == (a - 1) * c + c
  {
  }

  // ---------------------------------------------------------------- every run of successful cycles

  lemma SpacedBefore(cycles: seq<Cycle>, grace: nat, interval: nat)
    requires Spaced(cycles, grace, interval) && cycles != []
    ensures var n, r := |cycles|, cycles[|cycles| - 1];
            && Spaced(cycles[..n - 1], grace, interval)
            && r.entry.state == Current && 0 < r.deadline - grace <= r.prunedAt
            && (n > 1 ==> 0 < cycles[n - 2].deadline - grace && cycles[n - 2].deadline + interval <= r.deadline)
  {
    var n := |cycles|;
    assert cycles[n - 1] in cycles;
    assert forall x | x in cycles[..n - 1] :: x in cycles;
    if n > 1 {
      assert cycles[n - 2] in cycles && cycles[n - 1 - 1].deadline + interval <= cycles[n - 1].deadline;
    }
  }

  lemma KeysAfterOne(cycles: seq<Cycle>)
    requires cycles != []
    ensures var r := cycles[|cycles| - 1];
            KeysAfter(cycles)
            == CycleEntries(KeysAfter(cycles[..|cycles| - 1]), r.entry, r.ids, r.markedAt, r.deadline, r.prunedAt)
  {
    hide CycleEntries;
  }

  lemma {:induction false} CyclesSettle(cycles: seq<Cycle>, grace: nat, interval: nat)
    requires Spaced(cycles, grace, interval) && cycles != []
    ensures Settled(KeysAfter(cycles), cycles[|cycles| - 1].deadline - grace, grace, interval)
  {
    hide Settled, CycleEntries, KeysAfter, Spaced;
    var n := |cycles|;
    var r, before := cycles[n - 1], cycles[..n - 1];
    SpacedBefore(cycles, grace, interval);
    KeysAfterOne(cycles);
    if n == 1 {
      NoKeys(before);
      FirstCycleSettles(r, grace, interval);
    } else {
      CyclesSettle(before, grace, interval);
      NextCycleSettles(KeysAfter(before), before[n - 2].deadline - grace, r, grace, interval);
    }
  }

  /** The bound: after any number of successful cycles at least an interval apart the store holds at most one key and
      one more for every interval begun in a grace period; while a cycle runs, one more than that. */
  lemma StoreIsBounded(cycles: seq<Cycle>, grace: nat, interval: nat)
    requires interval > 0 && Spaced(cycles, grace, interval) && cycles != []
    ensures |KeysAfter(cycles)| <= 1 + Ceil(grace, interval)
    ensures |BeforePrune(KeysAfter(cycles[..|cycles| - 1]), cycles[|cycles| - 1])| <= 2 + Ceil(grace, interval)
  {
    hide KeysAfter, Ceil, Settled, BeforePrune, Spaced;
    var n := |cycles|;
    SpacedBefore(cycles, grace, interval);
    CyclesSettle(cycles, grace, interval);
    SettledCount(KeysAfter(cycles), cycles[n - 1].deadline - grace, grace, interval);
    var before, r := cycles[..n - 1], cycles[n - 1];
    PeakSize(KeysAfter(before), r);
    if n == 1 {
      NoKeys(before);
    } else {
      CyclesSettle(before, grace, interval);
      SettledCount(KeysAfter(before), before[n - 2].deadline - grace, grace, interval);
    }
  }

  lemma NoKeys(cycles: seq<Cycle>)
    requires cycles == []
    ensures KeysAfter(cycles) == []
  {
  }

  lemma SettledCount(keys: seq<Entry>, t: int, grace: nat, interval: nat)
    requires interval > 0 && Settled(keys, t, grace, interval)
    ensures |keys| <= 1 + Ceil(grace, interval)
  {
    FadingCount(keys[..|keys| - 1], t, grace, interval);
  }

  lemma PeakSize(keys: seq<Entry>, r: Cycle)
    ensures |BeforePrune(keys, r)| == |keys| + 1
  {
    MarkIdsOnlyMarks(Demote(keys) + [r.entry], r.ids, r.markedAt);
  }

  lemma {:induction false} UsedSize(keys: seq<Entry>)
    ensures |Used(keys)| <= |keys|
  {
    if keys == [] {
      assert Used(keys) == {};
    } else {
      UsedSize(keys[1..]);
      assert keys == [keys[0]] + keys[1..];
      assert Used(keys) == {keys[0].configId as int} + Used(keys[1..]);
    }
  }

  /** Under a bound of 256 there is always a free config_id. */
  lemma IdsNeverRunOut(cycles: seq<Cycle>, grace: nat, interval: nat)
    requires interval > 0 && Spaced(cycles, grace, interval) && 1 + Ceil(grace, interval) < 256
    ensures |Used(KeysAfter(cycles))| < 256
  {
    hide Ceil, KeysAfter, Used;
    UsedSize(KeysAfter(cycles));
    if cycles == [] {
      NoKeys(cycles);
    } else {
      StoreIsBounded(cycles, grace, interval);
    }
  }

  // ---------------------------------------------------------------- the code's cycles

  /** A series of cycles on the machine, as long as they succeed: the index on disk is that of the recorded cycles, so
      the bound holds for it. */
  method Rounds(m: Host, cfg: Settings, n: nat) returns (o: Outcome, ghost cycles: seq<Cycle>)
    requires m.Valid() && Sound(m.trace) && Keys(m.s) == [] && m.s.ttl <= cfg.gracePeriod && m.s.clock > 0
    modifies m
    ensures m.Valid() && Sound(m.trace)
    ensures o == Done ==> |cycles| == n && Keys(m.s) == KeysAfter(cycles)
    ensures forall r | r in cycles :: r.entry.state == Current && 0 < r.deadline - cfg.gracePeriod <= r.prunedAt
    ensures forall interval: nat ::
              (o == Done && n > 0 && interval > 0
               && forall i | 0 < i < n :: cycles[i - 1].deadline + interval <= cycles[i].deadline) ==>
                |Keys(m.s)| <= 1 + Ceil(cfg.gracePeriod, interval)
  {
    hide Sound, KeysAfter, Ceil, Quiet;
    cycles := [];
    NoKeys(cycles);
    ghost var t0 := m.trace;
    o := Done;
    for i := 0 to n
      invariant o == Done && m.Valid() && Sound(m.trace) && t0 <= m.trace && m.s.clock > 0
      invariant |cycles| == i && Keys(m.s) == KeysAfter(cycles)
      invariant forall r | r in cycles :: r.entry.state == Current && 0 < r.deadline - cfg.gracePeriod <= r.prunedAt
    {
      ghost var t1 := m.trace;
      m.Env();
      QuietSound(t1, m.trace);
      ghost var t2, s2 := m.trace, m.s;
      SoundTtl(t0, t1);
      SoundDistinctKeys(t2);
      ghost var r;
      o, r := RotateOne(m, cfg);
      PrefixTrans(t0, t1, t2);
      PrefixTrans(t0, t2, m.trace);
      if o != Done { return; }
      CompletedTimes(s2, m.s, cfg, r);
      OneMoreCycle(cycles, r);
      cycles := cycles + [r];
    }
    forall interval: nat | n > 0 && interval > 0
                           && forall i | 0 < i < n :: cycles[i - 1].deadline + interval <= cycles[i].deadline
      ensures |Keys(m.s)| <= 1 + Ceil(cfg.gracePeriod, interval)
    {
      StoreIsBounded(cycles, cfg.gracePeriod, interval);
    }
  }

  lemma CompletedTimes(s0: Sys, s1: Sys, cfg: Settings, r: Cycle)
    requires Completed(s0, Keys(s0), s1, cfg, r) && s0.clock > 0
    ensures r.entry.state == Current && 0 < r.deadline - cfg.gracePeriod <= r.prunedAt && s1.clock > 0
    ensures Keys(s1) == CycleEntries(Keys(s0), r.entry, r.ids, r.markedAt, r.deadline, r.prunedAt)
  {
    hide PreviousConfigs, Republished, BeforePrune, CycleEntries;
  }

  lemma OneMoreCycle(cycles: seq<Cycle>, r: Cycle)
    ensures KeysAfter(cycles + [r])
         == CycleEntries(KeysAfter(cycles), r.entry, r.ids, r.markedAt, r.deadline, r.prunedAt)
  {
    hide CycleEntries;
    assert (cycles + [r])[..|cycles|] == cycles;
  }
}
