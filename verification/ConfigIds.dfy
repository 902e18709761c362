/** The choice of a config_id: internal/rotator pickConfigID and cmd/ech-keymgr doKeygen. */
module ConfigIds {
  import opened Prelude
  import opened Protocol
  import opened Machine

  /** The config_ids in use. */
  function Used(keys: seq<Entry>): (r: set<int>)
    ensures forall id | id in r :: 0 <= id < 256
  {
    set e | e in keys :: e.configId as int
  }

  datatype Choice = Chosen(id: byte) | AllUsed | NoRandom

  /** Pigeonhole: n numbers below n + 1 cannot cover it, and n + 1 such numbers are all of them. */
  lemma {:induction false} Covers(s: set<int>, n: nat)
    requires forall v | v in s :: 0 <= v < n
    ensures |s| <= n
    ensures |s| == n <==> forall v | 0 <= v < n :: v in s
  {
    if n > 0 {
      var t := s - {n - 1};
      Covers(t, n - 1);
      if n - 1 in s {
        assert |t| == |s| - 1;
        assert forall v | 0 <= v < n - 1 :: v in s <==> v in t;
      } else {
        assert t == s;
      }
    } else if s != {} {
      var v := Pick(s);
      assert false;
    }
  }

  /** The map filled from the listed entries. */
  method CollectUsed(keys: seq<Entry>) returns (used: set<int>)
    ensures used == Used(keys)
  {
    used := {};
    for i := 0 to |keys|
      invariant used == Used(keys[..i])
    {
      assert keys[..i + 1] == keys[..i] + [keys[i]];
      assert Used(keys[..i + 1]) == Used(keys[..i]) + {keys[i].configId as int} by {
        assert forall e | e in keys[..i + 1] :: e in keys[..i] || e == keys[i];
        assert forall e | e in keys[..i] :: e in keys[..i + 1];
        assert keys[i] in keys[..i + 1];
      }
      used := used + {keys[i].configId as int};
    }
    assert keys[..|keys|] == keys;
  }

  lemma UsedNewest(a: seq<Entry>, b: seq<Entry>)
    requires forall e :: e in a <==> e in b
    ensures Used(a) == Used(b)
  {
  }

  /** pickConfigID over the listed entries: 32 random draws, then a scan. It fails for want of an id exactly when all
      256 are used; the scan never comes out empty. */
  method PickConfigId(m: Host, listed: seq<Entry>) returns (c: Choice)
    ensures c.Chosen? ==> c.id as int !in Used(listed)
    ensures c.AllUsed? <==> |Used(listed)| == 256
    ensures m.calm ==> !c.NoRandom?
  {
    var used := CollectUsed(listed);
    Covers(used, 256);
    if |used| >= 256 { return AllUsed; }
    for i := 0 to 32 {
      var b := m.DrawByte();
      if b.None? { return NoRandom; }
      if b.value as int !in used { return Chosen(b.value); }
    }
    for v := 0 to 256
      invariant forall w | 0 <= w < v :: w in used
    {
      if v !in used { return Chosen(v); }
    }
    assert false;
    return AllUsed;
  }

  /** doKeygen's scan: the least free id. */
  method LeastFree(listed: seq<Entry>) returns (c: Choice)
    ensures c.Chosen? ==> c.id as int !in Used(listed) && forall v | 0 <= v < c.id as int :: v in Used(listed)
    ensures c.AllUsed? <==> |Used(listed)| == 256
    ensures !c.NoRandom?
  {
    var used := CollectUsed(listed);
    Covers(used, 256);
    var id: byte := 0;
    for v := 0 to 256
      invariant id == 0 && forall w | 0 <= w < v :: w in used
    {
      if v !in used {
        id := v;
        break;
      }
    }
    if id as int in used { return AllUsed; }
    return Chosen(id);
  }
}
