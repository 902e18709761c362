/** The machine the tool runs on: every system call, with its failures and crashes, and the environment that acts
    between any two of them. The ghost trace records every state passed through. */
module Machine {
  import opened Prelude
  import PemFile
  import opened HttpsRecords
  import opened Protocol

  // ---------------------------------------------------------------- relations between traces

  function Last(a: seq<Sys>): Sys
    requires a != []
  {
    a[|a| - 1]
  }

  ghost predicate AllLoaded(s: Sys) {
    AllKeys(s.image) <= s.loaded
  }

  /** What the environment and changes of temporary files leave alone. */
  ghost predicate CoreRel(s: Sys, t: Sys) {
    && t.image == s.image && t.rrset == s.rrset && t.ttl == s.ttl && s.clock <= t.clock
    && (forall k | k in t.cached :: k in s.cached || Visible(s, k.config))
  }

  ghost predicate QuietRel(s: Sys, t: Sys) {
    CoreRel(s, t) && (AllLoaded(s) ==> AllLoaded(t))
  }

  /** Only the environment acted, or temporary files changed. */
  ghost predicate Quiet(a: seq<Sys>, b: seq<Sys>) {
    && a != [] && a <= b
    && (forall i | |a| <= i < |b| :: CoreRel(Last(a), b[i]))
    && QuietRel(Last(a), Last(b))
    && (IsRun(a) ==> IsRun(b))
  }

  /** The protocol permits this new image, now and however long the environment goes on first. */
  ghost predicate StablyPermitted(s: Sys, img: Image) {
    forall t | CoreRel(s, t) :: Step(t, t.(image := img))
  }

  ghost predicate Reached(s: Sys, img: Image, t: Sys) {
    CoreRel(s, t) || CoreRel(s.(image := img), t)
  }

  /** The visible image went from the old one to img at once, or stayed. */
  ghost predicate Moves(a: seq<Sys>, b: seq<Sys>, img: Image, o: Outcome) {
    && a != [] && a <= b
    && (forall i | |a| <= i < |b| :: Reached(Last(a), img, b[i]))
    && Reached(Last(a), img, Last(b))
    && (o == Done ==> CoreRel(Last(a).(image := img), Last(b)))
    && (o == Failed ==> CoreRel(Last(a), Last(b)))
    && (img.files == Last(a).image.files && AllLoaded(Last(a)) ==> AllLoaded(Last(b)))
    && (IsRun(a) && StablyPermitted(Last(a), img) ==> IsRun(b))
  }

  ghost predicate PutRel(s: Sys, texts: seq<string>, t: Sys) {
    && t.image == s.image && t.ttl == s.ttl && s.clock <= t.clock
    && (forall r | r in t.rrset :: r in s.rrset || r in texts)
    && (s.rrset != [] && texts != [] ==> t.rrset != [])
    && (forall k | k in t.cached ::
          k in s.cached || Visible(s, k.config) || exists r | r in texts :: k.config in Advertised(r))
  }

  /** Whatever the new records advertise is loaded and held by an entry that is not in grace. */
  ghost predicate Backed(s: Sys, texts: seq<string>) {
    forall r | r in texts :: forall c | c in Advertised(r) ::
      AllLoaded(s) && exists e :: Holds(s, e, c) && e.state != Grace
  }

  /** The contract of a DNS provider's Put, atomic or not: every record ever visible is an old or a new one, the set
      is never empty in between, and success leaves the new set. */
  ghost predicate Puts(a: seq<Sys>, b: seq<Sys>, texts: seq<string>, o: Outcome) {
    && a != [] && a <= b
    && (forall i | |a| <= i < |b| :: PutRel(Last(a), texts, b[i]))
    && PutRel(Last(a), texts, Last(b)) && (AllLoaded(Last(a)) ==> AllLoaded(Last(b)))
    && (o == Done ==> Last(b).rrset == texts)
    && (IsRun(a) && Backed(Last(a), texts) ==> IsRun(b))
  }

  lemma CoreRelTrans(s: Sys, t: Sys, u: Sys)
    requires CoreRel(s, t) && CoreRel(t, u)
    ensures CoreRel(s, u)
  {
    hide Advertised;
    SameVisible(s, t);
  }

  lemma CoreRelWith(s: Sys, t: Sys, img: Image)
    requires CoreRel(s, t)
    ensures CoreRel(s.(image := img), t.(image := img))
  {
    hide Advertised;
    SameVisible(s, s.(image := img));
  }

  lemma QuietTrans(a: seq<Sys>, b: seq<Sys>, c: seq<Sys>)
    requires Quiet(a, b) && Quiet(b, c)
    ensures Quiet(a, c)
  {
    hide CoreRel, IsRun, AllLoaded;
    forall i | |a| <= i < |c| ensures CoreRel(Last(a), c[i]) {
      if i < |b| { assert c[i] == b[i]; } else { CoreRelTrans(Last(a), Last(b), c[i]); }
    }
    CoreRelTrans(Last(a), Last(b), Last(c));
  }

  lemma RunExtends(a: seq<Sys>, t: Sys)
    requires IsRun(a) && Step(Last(a), t)
    ensures IsRun(a + [t])
  {
    hide Step, Init;
    var b := a + [t];
    forall i | 0 <= i < |b| - 1 ensures Step(b[i], b[i + 1]) {
      if i < |a| - 1 { assert b[i] == a[i] && b[i + 1] == a[i + 1]; }
    }
  }

  lemma QuietRefl(a: seq<Sys>)
    requires a != []
    ensures Quiet(a, a)
  {
    hide IsRun, AllLoaded, Visible;
  }

  lemma EnvIsQuiet(s: Sys, t: Sys)
    requires EnvStep(s, t) || TmpStep(s, t)
    ensures QuietRel(s, t)
  {
    hide Advertised, FileKey;
  }

  lemma QuietSnoc(a: seq<Sys>, t: Sys)
    requires a != [] && (EnvStep(Last(a), t) || TmpStep(Last(a), t))
    ensures Quiet(a, a + [t])
  {
    hide EnvStep, TmpStep, CoreRel, AllLoaded, IsRun;
    EnvIsQuiet(Last(a), t);
    if IsRun(a) {
      RunExtends(a, t);
    }
  }

  lemma SameAllKeys(a: Image, b: Image)
    requires a.files == b.files
    ensures AllKeys(a) == AllKeys(b)
  {
    hide PemFile.FittingKey;
  }

  /** One visible change at the end of a trace. */
  lemma MoveSnoc(a: seq<Sys>, img: Image, o: Outcome)
    requires a != [] && o != Failed
    ensures Moves(a, a + [Last(a).(image := img)], img, o)
  {
    hide Step, IsRun, Visible, FileKey;
    if img.files == Last(a).image.files { SameAllKeys(img, Last(a).image); }
    var t := Last(a).(image := img);
    assert CoreRel(t, t) && CoreRel(Last(a), Last(a));
    if IsRun(a) && StablyPermitted(Last(a), img) {
      RunExtends(a, t);
    }
  }

  lemma QuietIsMove(a: seq<Sys>, b: seq<Sys>, img: Image, o: Outcome)
    requires Quiet(a, b) && o != Done
    ensures Moves(a, b, img, o)
  {
    hide CoreRel, IsRun, StablyPermitted, AllLoaded;
  }

  /** Moving to the image one has is no move. */
  lemma QuietIsDone(a: seq<Sys>, b: seq<Sys>, o: Outcome)
    requires Quiet(a, b)
    ensures Moves(a, b, Last(a).image, o)
  {
    hide IsRun, StablyPermitted, AllKeys, Visible;
    assert Last(a).(image := Last(a).image) == Last(a);
  }

  lemma ReachedLater(s: Sys, t: Sys, img: Image, u: Sys)
    requires CoreRel(s, t) && Reached(t, img, u)
    ensures Reached(s, img, u)
  {
    hide CoreRel;
    if CoreRel(t, u) { CoreRelTrans(s, t, u); }
    else { CoreRelWith(s, t, img); CoreRelTrans(s.(image := img), t.(image := img), u); }
  }

  lemma ReachedThen(s: Sys, img: Image, t: Sys, u: Sys)
    requires Reached(s, img, t) && CoreRel(t, u)
    ensures Reached(s, img, u)
  {
    hide CoreRel;
    if CoreRel(s, t) { CoreRelTrans(s, t, u); } else { CoreRelTrans(s.(image := img), t, u); }
  }

  lemma StableLater(s: Sys, t: Sys, img: Image)
    requires CoreRel(s, t) && StablyPermitted(s, img)
    ensures StablyPermitted(t, img)
  {
    hide CoreRel, Step;
    forall u | CoreRel(t, u) ensures Step(u, u.(image := img)) { CoreRelTrans(s, t, u); }
  }

  lemma QuietThenMoves(a: seq<Sys>, b: seq<Sys>, c: seq<Sys>, img: Image, o: Outcome)
    requires Quiet(a, b) && Moves(b, c, img, o)
    ensures Moves(a, c, img, o)
  {
    hide CoreRel, IsRun, StablyPermitted, Reached, AllLoaded;
    forall i | |a| <= i < |c| ensures Reached(Last(a), img, c[i]) {
      if i < |b| { assert c[i] == b[i]; CoreIsReached(Last(a), img, c[i]); }
      else { ReachedLater(Last(a), Last(b), img, c[i]); }
    }
    ReachedLater(Last(a), Last(b), img, Last(c));
    if StablyPermitted(Last(a), img) { StableLater(Last(a), Last(b), img); }
    if o == Done {
      CoreRelWith(Last(a), Last(b), img);
      CoreRelTrans(Last(a).(image := img), Last(b).(image := img), Last(c));
    }
    if o == Failed { CoreRelTrans(Last(a), Last(b), Last(c)); }
    SameImage(Last(a), Last(b));
  }

  lemma SameImage(s: Sys, t: Sys)
    requires CoreRel(s, t)
    ensures s.image == t.image
  {
  }

  lemma CoreIsReached(s: Sys, img: Image, t: Sys)
    requires CoreRel(s, t)
    ensures Reached(s, img, t)
  {
  }

  lemma MovesThenQuiet(a: seq<Sys>, b: seq<Sys>, c: seq<Sys>, img: Image, o: Outcome, o': Outcome)
    requires Moves(a, b, img, o) && Quiet(b, c) && (o' == o || o' == Crashed)
    ensures Moves(a, c, img, o')
  {
    hide CoreRel, IsRun, StablyPermitted, Reached, AllLoaded;
    forall i | |a| <= i < |c| ensures Reached(Last(a), img, c[i]) {
      if i < |b| { assert c[i] == b[i]; } else { ReachedThen(Last(a), img, Last(b), c[i]); }
    }
    ReachedThen(Last(a), img, Last(b), Last(c));
    if o' == Done { CoreRelTrans(Last(a).(image := img), Last(b), Last(c)); }
    if o' == Failed { CoreRelTrans(Last(a), Last(b), Last(c)); }
  }

  lemma PutRelTrans(s: Sys, texts: seq<string>, t: Sys, u: Sys)
    requires PutRel(s, texts, t) && PutRel(t, texts, u)
    ensures PutRel(s, texts, u)
  {
    hide Advertised;
    forall k | k in u.cached
      ensures k in s.cached || Visible(s, k.config) || exists r | r in texts :: k.config in Advertised(r)
    {
      if k !in t.cached && Visible(t, k.config) {
        var r :| r in t.rrset && k.config in Advertised(r);
      }
    }
  }

  lemma CoreIsPut(s: Sys, texts: seq<string>, t: Sys)
    requires CoreRel(s, t)
    ensures PutRel(s, texts, t)
  {
    hide Advertised;
  }

  /** A backed record is servable in every state that a Put passes through. */
  lemma BackedIsServable(s: Sys, texts: seq<string>, t: Sys, r: string)
    requires Backed(s, texts) && PutRel(s, texts, t) && (AllLoaded(s) ==> AllLoaded(t)) && r in texts
    ensures Servable(t, r)
  {
    hide Advertised, FileKey, AllKeys, Visible;
    forall c | c in Advertised(r) ensures c in t.loaded && exists e :: Holds(t, e, c) && e.state != Grace {
      var e :| Holds(s, e, c) && e.state != Grace;
      assert Holds(t, e, c);
      FileInAllKeys(t.image, e.name);
    }
  }

  lemma PutSnoc(a: seq<Sys>, b: seq<Sys>, texts: seq<string>, mix: seq<string>)
    requires Puts(a, b, texts, Failed)
    requires forall r | r in mix :: r in Last(b).rrset || r in texts
    requires Last(a).rrset != [] && texts != [] ==> mix != []
    ensures Puts(a, b + [Last(b).(rrset := mix)], texts, if mix == texts then Done else Failed)
  {
    hide IsRun, Advertised, AllKeys, Servable, Holds;
    var t := Last(b).(rrset := mix);
    assert PutRel(Last(a), texts, t) by { hide Visible; }
    if IsRun(a) && Backed(Last(a), texts) {
      forall r | r in t.rrset ensures r in Last(b).rrset || Servable(Last(b), r) {
        if r in texts { BackedIsServable(Last(a), texts, Last(b), r); }
      }
      assert DnsStep(Last(b), t);
      RunExtends(b, t);
    }
  }

  lemma PutQuiet(a: seq<Sys>, b: seq<Sys>, c: seq<Sys>, texts: seq<string>, o: Outcome)
    requires Puts(a, b, texts, o) && Quiet(b, c)
    ensures Puts(a, c, texts, o)
  {
    hide IsRun, AllLoaded, Backed, PutRel, Visible;
    forall i | |a| <= i < |c| ensures PutRel(Last(a), texts, c[i]) {
      if i < |b| { assert c[i] == b[i]; }
      else {
        CoreIsPut(Last(b), texts, c[i]);
        PutRelTrans(Last(a), texts, Last(b), c[i]);
      }
    }
    CoreIsPut(Last(b), texts, Last(c));
    PutRelTrans(Last(a), texts, Last(b), Last(c));
  }

  lemma PutRefl(a: seq<Sys>, texts: seq<string>)
    requires a != []
    ensures Puts(a, a, texts, Failed)
  {
    hide IsRun, AllLoaded, Backed, Visible;
  }

  lemma PutEnds(a: seq<Sys>, b: seq<Sys>, texts: seq<string>, o: Outcome)
    requires Puts(a, b, texts, o) && o != Done
    ensures Puts(a, b, texts, Failed) && Puts(a, b, texts, Crashed)
  {
  }

  lemma PutAsFailed(a: seq<Sys>, b: seq<Sys>, texts: seq<string>, o: Outcome)
    requires Puts(a, b, texts, o)
    ensures Puts(a, b, texts, Failed)
  {
    hide IsRun, AllLoaded, Backed, PutRel;
  }

  // ---------------------------------------------------------------- the system calls

  class Host {
    var s: Sys
    ghost var trace: seq<Sys>

    /** A calm machine: no call fails and nothing crashes. */
    const calm: bool

    /** A DNS provider whose failed Puts have had no effect. */
    const definite: bool

    /** How many removes of existing key files have failed so far. */
    ghost var failedRemoves: nat

    /** How many removes of temporary files have failed so far. */
    ghost var failedCleanups: nat

    ghost predicate Valid()
      reads this
    {
      trace != [] && s == Last(trace)
    }

    constructor (initial: Sys, calm: bool, definite: bool)
      ensures Valid() && trace == [initial] && this.calm == calm && this.definite == definite
    {
      this.s, this.trace, this.calm, this.definite := initial, [initial], calm, definite;
      failedRemoves, failedCleanups := 0, 0;
    }

    /** How the next call ends. */
    method Fate() returns (o: Outcome)
      ensures calm ==> o == Done
    {
      if calm { return Done; }
      if * { return Done; }
      if * { return Failed; }
      return Crashed;
    }

    method Pass(t: Sys)
      requires Valid() && (EnvStep(s, t) || TmpStep(s, t))
      modifies `s, `trace
      ensures Valid() && s == t && Quiet(old(trace), trace)
    {
      QuietSnoc(trace, t);
      s, trace := t, trace + [t];
    }

    /** Any number of environment steps. */
    method Env()
      requires Valid()
      modifies `s, `trace
      ensures Valid() && Quiet(old(trace), trace) && s.tmps == old(s.tmps)
    {
      hide EnvStep, TmpStep, Quiet;
      QuietRefl(trace);
      var k: nat :| true;
      for i := 0 to k
        invariant Valid() && Quiet(old(trace), trace) && s.tmps == old(s.tmps)
      {
        ghost var before := trace;
        EnvOnce();
        QuietTrans(old(trace), before, trace);
      }
    }

    method EnvOnce()
      requires Valid()
      modifies `s, `trace
      ensures Valid() && Quiet(old(trace), trace) && s.tmps == old(s.tmps)
    {
      hide Quiet, AllKeys, Advertised;
      QuietRefl(trace);
      if * {
        var d: nat :| true;
        Pass(s.(clock := s.clock + d));
      } else if * {
        var j: nat, x: int :| true;
        if j < |s.rrset| && x <= s.clock + s.ttl {
          var i: nat :| true;
          var cs := Advertised(s.rrset[j]);
          if i < |cs| {
            assert s.rrset[j] in s.rrset;
            assert Visible(s, Cached(cs[i], x).config);
            Pass(s.(cached := s.cached + {Cached(cs[i], x)}));
          }
        }
      } else if * {
        Pass(s.(loaded := AllKeys(s.image)));
      }
    }

    // -------------------------------------------------------------- clock, server, randomness

    method Now() returns (t: int)
      requires Valid()
      modifies `s, `trace
      ensures Valid() && Quiet(old(trace), trace) && s.tmps == old(s.tmps) && t == s.clock
    {
      Env();
      t := s.clock;
    }

    /** A wait of at least d; it ends early, with an error, when the context is cancelled. */
    method Sleep(d: nat) returns (o: Outcome)
      requires Valid()
      modifies `s, `trace
      ensures Valid() && Quiet(old(trace), trace)
      ensures o == Done ==> old(s.clock) + d <= s.clock
      ensures calm ==> o == Done
    {
      hide Quiet;
      Env();
      EnvClock(old(trace), trace);
      o := Fate();
      if o != Done { return; }
      ghost var before := trace;
      Pass(s.(clock := s.clock + d));
      QuietTrans(old(trace), before, trace);
    }

    /** A reload that reports success has loaded every key file and dropped every other key; one that fails may or may not
        have. */
    method Reload() returns (o: Outcome)
      requires Valid()
      modifies `s, `trace
      ensures Valid() && Quiet(old(trace), trace)
      ensures o == Done ==> s.loaded == AllKeys(s.image)
      ensures calm ==> o == Done
    {
      hide Quiet, AllKeys;
      Env();
      o := Fate();
      if o != Done {
        if * { return; }
      }
      ghost var before := trace;
      Pass(s.(loaded := AllKeys(s.image)));
      QuietTrans(old(trace), before, trace);
    }

    /** One byte from the random source, or its failure. */
    method DrawByte() returns (b: Option<byte>)
      ensures calm ==> b.Some?
    {
      if !calm {
        if * { return None; }
      }
      var x: byte :| true;
      return Some(x);
    }

    /** A random suffix; on a calm machine it is one that no temporary file for this target uses yet. */
    method DrawSuffix(target: Target) returns (x: Option<int>)
      ensures calm ==> x.Some? && Tmp(target, x.value) !in s.tmps
    {
      if calm {
        FreshSuffix(target, s.tmps);
        var y: int :| Tmp(target, y) !in s.tmps;
        return Some(y);
      }
      if * { return None; }
      var y: int :| true;
      return Some(y);
    }

    /** A fresh X25519 key pair, whose halves belong together; no other KEM is supported. */
    method GenerateKeyPair(kemId: u16) returns (kp: Option<PemFile.KeyPair>)
      ensures kp.Some? ==>
                kp.value.kemId == kemId && PemFile.Matched(kp.value)
      ensures calm && kemId == PemFile.KEM_X25519 ==> kp.Some?
    {
      if kemId != PemFile.KEM_X25519 { return None; }
      if !calm {
        if * { return None; }
      }
      var secret: PemFile.Key32 :| true;
      return Some(PemFile.KeyPair(kemId, PemFile.PublicOf(secret), secret));
    }

    // -------------------------------------------------------------- files

    /** open with O_CREAT and O_EXCL: an empty file. */
    method CreateTmp(tmp: Tmp) returns (o: Outcome)
      requires Valid()
      modifies `s, `trace
      ensures Valid() && Quiet(old(trace), trace)
      ensures o == Done ==> tmp !in old(s.tmps) && s.tmps == old(s.tmps)[tmp := Torn]
      ensures o == Failed ==> s.tmps == old(s.tmps)
      ensures calm && tmp !in old(s.tmps) ==> o == Done
    {
      hide Quiet;
      Env();
      if tmp in s.tmps { return Failed; }
      o := Fate();
      if o == Failed { return; }
      if o == Crashed {
        if * { return; }
      }
      ghost var before := trace;
      Pass(s.(tmps := s.tmps[tmp := Torn]));
      QuietTrans(old(trace), before, trace);
    }

    /** write: a failure leaves an incomplete file. */
    method WriteTmp(tmp: Tmp, data: Content) returns (o: Outcome)
      requires Valid()
      modifies `s, `trace
      ensures Valid() && Quiet(old(trace), trace)
      ensures o == Done ==> s.tmps == old(s.tmps)[tmp := data]
      ensures o == Failed ==> s.tmps == old(s.tmps)
      ensures calm ==> o == Done
    {
      hide Quiet;
      Env();
      o := Fate();
      if o != Done { return; }
      ghost var before := trace;
      Pass(s.(tmps := s.tmps[tmp := data]));
      QuietTrans(old(trace), before, trace);
    }

    /** fsync, close, chmod: calls that change no contents. */
    method Settle() returns (o: Outcome)
      requires Valid()
      modifies `s, `trace
      ensures Valid() && Quiet(old(trace), trace) && s.tmps == old(s.tmps)
      ensures calm ==> o == Done
    {
      Env();
      o := Fate();
    }

    method RemoveTmp(tmp: Tmp) returns (o: Outcome)
      requires Valid()
      modifies `s, `trace, `failedCleanups
      ensures Valid() && Quiet(old(trace), trace)
      ensures o == Done ==> s.tmps == old(s.tmps) - {tmp}
      ensures o == Failed ==> s.tmps == old(s.tmps)
      ensures failedCleanups == old(failedCleanups) + if o == Failed then 1 else 0
    {
      hide Quiet;
      Env();
      o := Fate();
      if o == Failed { failedCleanups := failedCleanups + 1; }
      if o != Done { return; }
      ghost var before := trace;
      Pass(s.(tmps := s.tmps - {tmp}));
      QuietTrans(old(trace), before, trace);
    }

    /** rename: the target has its new contents at once, or nothing happened. */
    method Rename(tmp: Tmp, target: Target) returns (o: Outcome)
      requires Valid()
      modifies `s, `trace
      ensures Valid()
      ensures tmp in old(s.tmps) ==>
                Moves(old(trace), trace, Placed(old(s.image), target, old(s.tmps)[tmp]), o)
      ensures tmp !in old(s.tmps) ==> o == Failed && Quiet(old(trace), trace)
      ensures o == Done ==> s.tmps == old(s.tmps) - {tmp}
      ensures o == Failed ==> s.tmps == old(s.tmps)
      ensures calm && tmp in old(s.tmps) ==> o == Done
    {
      hide Quiet, Moves;
      Env();
      if tmp !in s.tmps { return Failed; }
      SameImageQuiet(old(trace), trace);
      o := Fate();
      ghost var img := Placed(s.image, target, s.tmps[tmp]);
      if o == Failed { QuietIsMove(old(trace), trace, img, o); return; }
      if o == Crashed {
        if * { QuietIsMove(old(trace), trace, img, o); return; }
      }
      ghost var before := trace;
      Change(Placed(s.image, target, s.tmps[tmp]), o);
      QuietThenMoves(old(trace), before, trace, img, o);
      ghost var placed := trace;
      Pass(s.(tmps := s.tmps - {tmp}));
      MovesThenQuiet(old(trace), placed, trace, img, o, o);
    }

    /** remove of a key file. */
    method RemoveFile(name: Name) returns (o: Outcome, missing: bool)
      requires Valid()
      modifies this
      ensures Valid() && Moves(old(trace), trace, Removed(old(s.image), name), o)
      ensures missing ==> o == Failed && name !in old(s.image).files
      ensures failedRemoves == old(failedRemoves) + if o == Failed && !missing then 1 else 0
      ensures calm ==> o == Done || missing
    {
      hide Quiet, Moves;
      missing := false;
      Env();
      SameImageQuiet(old(trace), trace);
      ghost var img := Removed(s.image, name);
      o := Fate();
      if o == Done && name !in s.image.files {
        o, missing := Failed, true;
      }
      if o == Failed {
        if !missing { failedRemoves := failedRemoves + 1; }
        QuietIsMove(old(trace), trace, img, o);
        return;
      }
      if o == Crashed {
        if * { QuietIsMove(old(trace), trace, img, o); return; }
      }
      ghost var before := trace;
      Change(Removed(s.image, name), o);
      QuietThenMoves(old(trace), before, trace, img, o);
    }

    method Change(img: Image, ghost o: Outcome)
      requires Valid() && o != Failed
      modifies `s, `trace
      ensures Valid() && Moves(old(trace), trace, img, o) && s == old(s).(image := img)
    {
      MoveSnoc(trace, img, o);
      s, trace := s.(image := img), trace + [s.(image := img)];
    }

    method ReadFile(name: Name) returns (o: Outcome, data: Content)
      requires Valid()
      modifies `s, `trace
      ensures Valid() && Quiet(old(trace), trace)
      ensures o == Done ==> name in s.image.files && data == s.image.files[name]
      ensures calm && name in old(s.image).files ==> o == Done
    {
      data := Torn;
      Env();
      o := Fate();
      if o != Done { return; }
      if name !in s.image.files { return Failed, Torn; }
      data := s.image.files[name];
    }

    /** Read and decode .meta.json. */
    method ReadIndex() returns (o: Outcome, missing: bool, keys: seq<Entry>)
      requires Valid()
      modifies `s, `trace
      ensures Valid() && Quiet(old(trace), trace)
      ensures o == Done ==> s.image.index == Some(Index(keys))
      ensures missing ==> o == Failed && s.image.index.None?
      ensures calm && (old(s.image).index.Some? ==> old(s.image).index.value.Index?) ==> o == Done || missing
    {
      missing, keys := false, [];
      Env();
      o := Fate();
      if o != Done { return; }
      if s.image.index.None? { return Failed, true, []; }
      if !s.image.index.value.Index? { return Failed, false, []; }
      keys := s.image.index.value.keys;
    }

    // -------------------------------------------------------------- DNS

    /** GetHTTPSRDATA: an empty set is ErrRecordNotFound, or an empty answer. */
    method GetRRset() returns (o: Outcome, missing: bool, texts: seq<string>)
      requires Valid()
      modifies `s, `trace
      ensures Valid() && Quiet(old(trace), trace)
      ensures o == Done ==> texts == s.rrset
      ensures missing ==> o == Failed && s.rrset == []
      ensures calm ==> o == Done || missing
    {
      missing, texts := false, [];
      Env();
      o := Fate();
      if o != Done { return; }
      if s.rrset == [] {
        if * { return Failed, true, []; }
      }
      texts := s.rrset;
    }

    /** PutHTTPSRDATA of any provider: it may pass through any mixture of old and new records, and may fail before,
        while or after it takes effect, unless the provider is a definite one. */
    method PutRRset(texts: seq<string>) returns (o: Outcome)
      requires Valid()
      modifies `s, `trace
      ensures Valid() && Puts(old(trace), trace, texts, o)
      ensures definite && o == Failed ==> s.rrset == old(s.rrset)
      ensures calm ==> o == Done
    {
      hide Puts, Quiet;
      PutRefl(trace, texts);
      o := Fate();
      if o == Failed && definite {
        ghost var before := trace;
        Env();
        QuietRRset(before, trace);
        PutQuiet(before, before, trace, texts, Failed);
        return;
      }
      var k: nat :| true;
      for i := 0 to k
        invariant Valid() && Puts(old(trace), trace, texts, Failed)
      {
        var mix: seq<string> :| true;
        Mix(old(trace), texts, mix);
      }
      if o == Done {
        Mix(old(trace), texts, texts);
      } else {
        PutEnds(old(trace), trace, texts, Failed);
      }
    }

    /** One change of the visible record set towards texts, if it is one that a Put may make. */
    method Mix(ghost start: seq<Sys>, texts: seq<string>, mix: seq<string>)
      requires Valid() && Puts(start, trace, texts, Failed)
      modifies `s, `trace
      ensures Valid() && Puts(start, trace, texts, if mix == texts then Done else Failed)
      ensures Puts(start, trace, texts, Failed)
    {
      hide Puts, Quiet;
      ghost var before := trace;
      Env();
      PutQuiet(start, before, trace, texts, Failed);
      var fits := (forall r | r in mix :: r in s.rrset || r in texts) && (s.rrset != [] && texts != [] ==> mix != []);
      if fits {
        StartNonempty(start, trace, texts);
        Show(start, texts, mix);
      }
    }

    /** The record set becomes mix at once. */
    method Show(ghost start: seq<Sys>, ghost texts: seq<string>, mix: seq<string>)
      requires Valid() && Puts(start, trace, texts, Failed)
      requires forall r | r in mix :: r in s.rrset || r in texts
      requires Last(start).rrset != [] && texts != [] ==> mix != []
      modifies `s, `trace
      ensures Valid() && s == old(s).(rrset := mix)
      ensures Puts(start, trace, texts, if mix == texts then Done else Failed) && Puts(start, trace, texts, Failed)
    {
      hide Puts;
      PutSnoc(start, trace, texts, mix);
      s, trace := s.(rrset := mix), trace + [s.(rrset := mix)];
      PutAsFailed(start, trace, texts, if mix == texts then Done else Failed);
    }
  }

  lemma LoadedAll(s: Sys)
    requires s.loaded == AllKeys(s.image)
    ensures AllLoaded(s)
  {
  }

  lemma EnvClock(a: seq<Sys>, b: seq<Sys>)
    requires Quiet(a, b)
    ensures Last(a).clock <= Last(b).clock
  {
  }

  function Placed(image: Image, target: Target, data: Content): Image {
    match target
    case IndexFile => image.(index := Some(data))
    case KeyFile(n) => image.(files := image.files[n := data])
  }

  function Removed(image: Image, name: Name): Image {
    image.(files := image.files - {name})
  }

  lemma SameImageQuiet(a: seq<Sys>, b: seq<Sys>)
    requires Quiet(a, b)
    ensures Last(a).image == Last(b).image
  {
  }

  lemma QuietRRset(a: seq<Sys>, b: seq<Sys>)
    requires Quiet(a, b)
    ensures Last(a).rrset == Last(b).rrset
  {
  }

  lemma StartNonempty(a: seq<Sys>, b: seq<Sys>, texts: seq<string>)
    requires Puts(a, b, texts, Failed)
    ensures Last(a).rrset != [] && texts != [] ==> Last(b).rrset != []
  {
    hide IsRun, Backed, AllLoaded;
  }

  lemma FreshSuffix(target: Target, tmps: map<Tmp, Content>)
    ensures exists y :: Tmp(target, y) !in tmps
  {
    var used := set t | t in tmps :: t.suffix;
    var y := BiggerThanAll(used);
    assert forall t | t in tmps :: t.suffix in used;
    assert Tmp(target, y).suffix !in used;
  }
}
