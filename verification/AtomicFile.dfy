/** internal/keystore/atomic.go: replacing a file at once. */
module AtomicFile {
  import opened Prelude
  import opened Protocol
  import opened Machine

  /** Give up after an error: the temporary file is removed, if that works. */
  method Abandon(m: Host, tmp: Tmp) returns (o: Outcome)
    requires m.Valid()
    modifies m`s, m`trace, m`failedCleanups
    ensures m.Valid() && Quiet(old(m.trace), m.trace) && o != Done
    ensures o == Failed ==>
              m.s.tmps == if m.failedCleanups == old(m.failedCleanups) then old(m.s.tmps) - {tmp} else old(m.s.tmps)
    ensures m.failedCleanups >= old(m.failedCleanups)
  {
    o := m.RemoveTmp(tmp);
    if o != Crashed { o := Failed; }
  }

  /** atomicWrite: in every state it passes through, and after a crash anywhere in it, the directory shows either the
      old image or the one with the complete new contents at the target. Unless the process dies, no temporary file is
      left behind, exactly if the cleanup has not failed. */
  method AtomicWrite(m: Host, target: Target, data: Content) returns (o: Outcome)
    requires m.Valid()
    modifies m`s, m`trace, m`failedCleanups
    ensures m.Valid() && Moves(old(m.trace), m.trace, Placed(old(m.s.image), target, data), o)
    ensures o != Crashed ==>
              && m.failedCleanups >= old(m.failedCleanups)
              && (m.s.tmps == old(m.s.tmps) <==> m.failedCleanups == old(m.failedCleanups))
    ensures m.calm ==> o == Done
  {
    hide Quiet, Moves;
    ghost var start, tmps := m.trace, m.s.tmps;
    ghost var img := Placed(m.s.image, target, data);
    QuietRefl(start);
    var suffix := m.DrawSuffix(target);
    if suffix.None? { QuietIsMove(start, m.trace, img, Failed); return Failed; }
    var tmp := Tmp(target, suffix.value);
    o := Prepare(m, tmp, data);
    SameImageQuiet(start, m.trace);
    if o != Done { QuietIsMove(start, m.trace, img, o); return; }
    ghost var ready := m.trace;
    GoneAgain(tmps, tmp, data);
    o := m.Rename(tmp, target);
    QuietThenMoves(start, ready, m.trace, img, o);
    ghost var renamed := m.trace;
    if o == Failed {
      o := Abandon(m, tmp);
      MovesThenQuiet(start, renamed, m.trace, img, Failed, o);
    } else if o == Done {
      var synced := m.Settle();
      o := if synced == Crashed then Crashed else Done;
      MovesThenQuiet(start, renamed, m.trace, img, Done, o);
    }
  }

  lemma GoneAgain(tmps: map<Tmp, Content>, tmp: Tmp, data: Content)
    requires tmp !in tmps
    ensures tmps[tmp := data] - {tmp} == tmps && tmps[tmp := data] != tmps
  {
  }

  /** Create the temporary file, write it, sync, close and chmod it. */
  method Prepare(m: Host, tmp: Tmp, data: Content) returns (o: Outcome)
    requires m.Valid()
    modifies m`s, m`trace, m`failedCleanups
    ensures m.Valid() && Quiet(old(m.trace), m.trace)
    ensures o == Done ==>
              tmp !in old(m.s.tmps) && m.s.tmps == old(m.s.tmps)[tmp := data] && m.failedCleanups == old(m.failedCleanups)
    ensures o == Failed ==>
              && m.failedCleanups >= old(m.failedCleanups)
              && (m.s.tmps == old(m.s.tmps) <==> m.failedCleanups == old(m.failedCleanups))
    ensures m.calm && tmp !in old(m.s.tmps) ==> o == Done
  {
    hide Quiet;
    ghost var t0 := m.trace;
    o := m.CreateTmp(tmp);
    if o != Done { return; }
    GoneAgain(old(m.s.tmps), tmp, Torn);
    GoneAgain(old(m.s.tmps), tmp, data);
    ghost var t1 := m.trace;
    o := m.WriteTmp(tmp, data);
    QuietTrans(t0, t1, m.trace);
    ghost var written := m.s.tmps;
    assert old(m.s.tmps)[tmp := Torn][tmp := data] == old(m.s.tmps)[tmp := data];
    for i := 0 to 3
      invariant m.Valid() && Quiet(t0, m.trace) && m.failedCleanups == old(m.failedCleanups)
      invariant o != Crashed ==> m.s.tmps == written
      invariant o == Done ==> written == old(m.s.tmps)[tmp := data]
      invariant o == Failed ==> written == old(m.s.tmps)[tmp := data] || written == old(m.s.tmps)[tmp := Torn]
      invariant m.calm ==> o == Done || tmp in old(m.s.tmps)
    {
      ghost var t2 := m.trace;
      if o == Done {
        o := m.Settle();
        QuietTrans(t0, t2, m.trace);
      }
    }
    if o == Failed {
      GoneAgain(old(m.s.tmps), tmp, written[tmp]);
      ghost var t3 := m.trace;
      o := Abandon(m, tmp);
      QuietTrans(t0, t3, m.trace);
    }
  }
}
