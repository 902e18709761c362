/** What a completed rotation cycle leaves behind: the records, the index and the key files. */
module Convergence {
  import opened Prelude
  import opened EchConfig
  import Base64
  import PemFile
  import Svcb
  import SvcParams
  import opened HttpsRecords
  import opened Protocol
  import opened Machine
  import opened KeyIndex
  import opened Rotation
  import opened RotatorSteps
  import opened Rotator
  import ConfigIds

  // ---------------------------------------------------------------- the records

  /** The record r after the two publications of a cycle, carrying the one config c. */
  ghost function Carrying(r: Svcb.Record, c: Config): Svcb.Record
    requires ListEncodable(List([c], []))
  {
    if r.IsAliasMode() then r
    else SvcParams.WithEch(r.(params := SvcParams.EscapeParamsTimes(r.params, 2)), Base64.Encode(ListBytes(List([c], []))))
  }

  /** If no value of r needs escaping, nothing but the first ech has changed. */
  lemma CarryingClean(r: Svcb.Record, c: Config)
    requires ListEncodable(List([c], [])) && Svcb.Clean(r)
    ensures Carrying(r, c)
         == if r.IsAliasMode() then r else SvcParams.WithEch(r, Base64.Encode(ListBytes(List([c], []))))
  {
    hide ListEncodable, ListBytes, Base64.Encode, SvcParams.WithEch, Svcb.EscapeFree;
    SvcParams.EscapeParamsTimesIdentity(r.params, 2);
  }

  lemma PublicationAt(texts0: seq<string>, texts1: seq<string>, configs: seq<Config>, i: nat)
    requires QuotelessSet(texts0) && PublishedAs(texts0, texts1, configs) && i < |texts0|
    ensures |texts1| == |texts0| && Svcb.ParseText(texts0[i]).Ok?
    ensures var r, b64 := Svcb.ParseText(texts0[i]).value, Base64.Encode(ListBytes(List(configs, [])));
            && Svcb.ParseText(texts1[i])
               == Ok(if r.IsAliasMode() then r else SvcParams.WithEch(Svcb.EscapeValues(r), b64))
            && Advertised(texts1[i]) == (if r.IsAliasMode() then [] else configs)
  {
    hide Svcb.ParseText, Svcb.Print, Advertised, QuotelessText, PatchedAll, ListEncodable, ListBytes, Base64.Encode;
    hide SvcParams.WithEch, CleanText, Svcb.EscapeValues, Patched;
    var b64 := Base64.Encode(ListBytes(List(configs, [])));
    PatchedAllPointwise(texts0, b64);
    assert texts0[i] in texts0;
    PatchedIsParsed(texts0[i], b64);
    PatchedAdvertises(texts0[i], configs);
  }

  lemma TwicePatched(r: Svcb.Record, a: string, b: string)
    requires Svcb.EscapeFree(a)
    ensures SvcParams.WithEch(Svcb.EscapeValues(SvcParams.WithEch(Svcb.EscapeValues(r), a)), b)
         == SvcParams.WithEch(r.(params := SvcParams.EscapeParamsTimes(r.params, 2)), b)
  {
    hide Svcb.EscapeFree, Svcb.EscapeParams, SvcParams.WithParam;
    var ps := Svcb.EscapeParams(r.params);
    SvcParams.EscapeWithParam(ps, Svcb.ECH, a);
    SvcParams.WithParamTwice(Svcb.EscapeParams(ps), Svcb.ECH, a, b);
    assert SvcParams.EscapeParamsTimes(r.params, 1) == ps;
    assert SvcParams.EscapeParamsTimes(r.params, 2) == Svcb.EscapeParams(ps);
  }

  /** After both publications every ServiceMode record carries exactly the new config. Number, order, priority, target
      and the place and key of every parameter are unchanged; every other value has been escaped twice, which changes
      nothing in a record that needs no escaping. */
  lemma RecordsConverge(texts0: seq<string>, texts2: seq<string>, c: Config, previous: seq<Config>)
    requires QuotelessSet(texts0) && Republished(texts0, texts2, c, previous)
    ensures ListEncodable(List([c], [])) && |texts2| == |texts0| && QuotelessSet(texts2)
    ensures forall i | 0 <= i < |texts0| ::
              && Svcb.ParseText(texts0[i]).Ok?
              && Svcb.ParseText(texts2[i]) == Ok(Carrying(Svcb.ParseText(texts0[i]).value, c))
              && Advertised(texts2[i]) == (if IsAlias(texts0[i]) then [] else [c])
  {
    hide Svcb.ParseText, Advertised, QuotelessSet, PatchedAll, ListEncodable, ListBytes, Base64.Encode, SvcParams.WithEch;
    hide Svcb.EscapeValues, SvcParams.EscapeParamsTimes, Svcb.EscapeFree;
    var texts1 :| PublishedAs(texts0, texts1, [c] + previous) && PublishedAs(texts1, texts2, [c]);
    PublishedSet(texts0, texts1, [c] + previous);
    PublishedSet(texts1, texts2, [c]);
    var bytes := ListBytes(List([c] + previous, []));
    var a, b := Base64.Encode(bytes), Base64.Encode(ListBytes(List([c], [])));
    SvcParams.EncodedIsEscapeFree(bytes);
    forall i | 0 <= i < |texts0|
      ensures Svcb.ParseText(texts0[i]).Ok?
      ensures Svcb.ParseText(texts2[i]) == Ok(Carrying(Svcb.ParseText(texts0[i]).value, c))
      ensures Advertised(texts2[i]) == (if IsAlias(texts0[i]) then [] else [c])
    {
      PublicationAt(texts0, texts1, [c] + previous, i);
      var r := Svcb.ParseText(texts0[i]).value;
      PublicationAt(texts1, texts2, [c], i);
      TwicePatched(r, a, b);
      KeepsMode(r, a);
    }
  }

  lemma KeepsMode(r: Svcb.Record, a: string)
    ensures SvcParams.WithEch(Svcb.EscapeValues(r), a).IsAliasMode() <==> r.IsAliasMode()
  {
    hide Svcb.EscapeParams, SvcParams.WithParam;
  }

  // ---------------------------------------------------------------- the files

  lemma BeforePruneDistinct(keys: seq<Entry>, r: Cycle)
    requires DistinctIds(keys) && r.entry.configId !in Ids(keys) && r.entry.name.id == r.entry.configId
    ensures DistinctIds(BeforePrune(keys, r))
  {
    hide DistinctIds, MarkIds, Retired;
    var a := Demote(keys) + [r.entry];
    forall o | o in keys ensures o.configId != r.entry.configId {
      var i :| 0 <= i < |keys| && keys[i] == o;
      assert Ids(keys)[i] == o.configId;
    }
    InsertDistinct(keys, r.entry);
    MarkedDistinct(a, r.ids, r.markedAt);
    RetireAllDistinct(MarkIds(a, r.ids, r.markedAt), r.deadline);
  }

  lemma RetireAllDistinct(keys: seq<Entry>, d: int)
    requires DistinctIds(keys)
    ensures DistinctIds(RetireAll(keys, d))
  {
    forall i | 0 <= i < |keys|
      ensures RetireAll(keys, d)[i].configId == keys[i].configId && RetireAll(keys, d)[i].name == keys[i].name && keys[i] in keys
    {
    }
  }

  lemma FreshInIds(keys: seq<Entry>, id: byte)
    requires id as int !in ConfigIds.Used(keys)
    ensures id !in Ids(keys)
  {
    FreshId(keys, id);
    forall i | 0 <= i < |keys| ensures Ids(keys)[i] != id { assert keys[i] in keys; }
  }

  /** A name in a distinct index belongs to one entry, so pruning leaves the files of the kept entries alone. */
  lemma KeptNames(keys: seq<Entry>, t: int, x: Entry)
    requires DistinctIds(keys) && x in keys && !Due(x, t)
    ensures x.name !in NamesOf(DueEntries(keys, t))
  {
    hide Due;
    DueMembers(keys, t);
    forall y | y in DueEntries(keys, t) ensures y.name != x.name {
      var i :| 0 <= i < |keys| && keys[i] == x;
      var j :| 0 <= j < |keys| && keys[j] == y;
      assert i != j;
    }
  }

  /** The new key's file is in place, and every kept old entry's file holds what it held. */
  lemma FilesConverge(s0: Sys, keys: seq<Entry>, s1: Sys, cfg: Settings, r: Cycle)
    requires Completed(s0, keys, s1, cfg, r) && DistinctIds(keys)
    ensures FileKey(s1.image, r.entry.name) == Some(r.config)
    ensures forall o, x | o in keys && x in Keys(s1) && x.name == o.name :: FileKey(s1.image, x.name) == FileKey(s0.image, o.name)
    ensures forall x | x in BeforePrune(keys, r) && Due(x, r.prunedAt) :: x.name !in s1.image.files
  {
    hide DistinctIds, MarkIds, PemFile.FittingKey, Republished, PreviousConfigs, ConfigIds.Used, Due, Newest, PreviousOf;
    hide NewConfig;
    hide Keep, DueEntries, RetireAll, Demote;
    FreshInIds(keys, r.entry.configId);
    BeforePruneDistinct(keys, r);
    var pre := BeforePrune(keys, r);
    KeepMembers(pre, r.prunedAt);
    DueMembers(pre, r.prunedAt);
    CyclePointwise(keys, r.entry, r.ids, r.markedAt, r.deadline);
    assert pre[|keys|] in pre && pre[|keys|].name == r.entry.name && !Due(pre[|keys|], r.prunedAt) by { NotDue(pre[|keys|], r.prunedAt); }
    KeptNames(pre, r.prunedAt, pre[|keys|]);
    forall o, x | o in keys && x in Keys(s1) && x.name == o.name
      ensures FileKey(s1.image, x.name) == FileKey(s0.image, o.name)
    {
      KeptNames(pre, r.prunedAt, x);
      FreshNames(keys, r.entry, o);
    }
    assert forall x | x in DueEntries(pre, r.prunedAt) :: x.name in NamesOf(DueEntries(pre, r.prunedAt));
  }

  lemma NotDue(e: Entry, t: int)
    requires e.state == Current
    ensures !Due(e, t)
  {
  }

  lemma FreshNames(keys: seq<Entry>, e: Entry, o: Entry)
    requires DistinctIds(keys) && e.configId !in Ids(keys) && e.name.id == e.configId && o in keys
    ensures o.name != e.name
  {
    var i :| 0 <= i < |keys| && keys[i] == o;
    assert Ids(keys)[i] == o.configId;
  }

  // ---------------------------------------------------------------- all together

  /** From any store of a run, however the last cycles ended, one completed cycle converges: the new key is the one
      Current entry and its file is in place; nothing is Previous; every key that was Current or Previous is in grace
      until one grace period after a moment of this cycle, with its file as it was, unless that has already passed;
      nothing that was due is left, entry or file; and every ServiceMode record carries exactly the new config. */
  lemma CycleDelivers(run: seq<Sys>, s1: Sys, cfg: Settings, r: Cycle)
    requires Sound(run) && Completed(Last(run), Keys(Last(run)), s1, cfg, r)
    ensures var s0 := Last(run);
            && (exists e | e in Keys(s1) :: e.state == Current && Holds(s1, e, r.config))
            && (forall e | e in Keys(s1) && e.state == Current ::
                  e == Entry(r.entry.name, r.config.configId, Current, r.entry.createdAt, r.markedAt, 0))
            && (forall e | e in Keys(s1) :: e.state != Previous && !Due(e, r.prunedAt))
            && (forall e | e in Keys(s0) && Due(e, r.prunedAt) :: e !in Keys(s1) && e.name !in s1.image.files)
            && s0.clock <= r.entry.createdAt <= r.markedAt
            && r.markedAt + cfg.settleDelay + cfg.gracePeriod <= r.deadline <= s1.clock + cfg.gracePeriod
            && |r.config.publicKey| == 32
            && r.config == Config(r.entry.configId, cfg.kemId, r.config.publicKey, cfg.cipherSuites, cfg.maxNameLength,
                                  cfg.publicName, [])
            && (r.prunedAt < r.deadline ==> forall o | o in Keys(s0) && o.state != Grace ::
                  exists e | e in Keys(s1) ::
                    && e == o.(state := Grace, dropAt := r.deadline,
                               inDnsSince := if r.markedAt != 0 then r.markedAt else o.inDnsSince)
                    && FileKey(s1.image, e.name) == FileKey(s0.image, o.name))
    ensures ListEncodable(List([r.config], [])) && |s1.rrset| == |Last(run).rrset| && QuotelessSet(s1.rrset)
    ensures forall i | 0 <= i < |s1.rrset| ::
              && Svcb.ParseText(Last(run).rrset[i]).Ok?
              && Svcb.ParseText(s1.rrset[i]) == Ok(Carrying(Svcb.ParseText(Last(run).rrset[i]).value, r.config))
              && Advertised(s1.rrset[i]) == (if IsAlias(Last(run).rrset[i]) then [] else [r.config])
  {
    hide IsRun, MarkIds, PemFile.FittingKey, Republished, Svcb.ParseText, QuotelessSet, Advertised, ListEncodable;
    hide PreviousConfigs, FileKey;
    hide DistinctIds, CycleEntries, Due, BeforePrune, ConfigIds.Used, Newest, PreviousOf, Carrying, IsAlias;
    var s0 := Last(run);
    SoundDistinctKeys(run);
    RecordsConverge(s0.rrset, s1.rrset, r.config, r.previous);
    CycleConverges(Keys(s0), r.entry, r.ids, r.markedAt, r.deadline, r.prunedAt);
    FilesConverge(s0, Keys(s0), s1, cfg, r);
    var e :| e in Keys(s1) && e.state == Current;
    assert Holds(s1, e, r.config);
    forall x | x in Keys(s1) && x.state == Current
      ensures x.inDnsSince == if r.markedAt != 0 then r.markedAt else r.entry.inDnsSince
    {
      MarkedInCycle(Keys(s0), s0, s1, cfg, r, r.entry, x);
    }
    if r.prunedAt < r.deadline {
      forall o | o in Keys(s0) && o.state != Grace
        ensures exists e | e in Keys(s1) ::
                  && e == o.(state := Grace, dropAt := r.deadline,
                             inDnsSince := if r.markedAt != 0 then r.markedAt else o.inDnsSince)
                  && FileKey(s1.image, e.name) == FileKey(s0.image, o.name)
      {
        var x :| x in Keys(s1) && x == o.(state := Grace, dropAt := r.deadline, inDnsSince := x.inDnsSince);
        MarkedInCycle(Keys(s0), s0, s1, cfg, r, o, x);
      }
    }
    forall x | x in Keys(s0) && Due(x, r.prunedAt) ensures x !in Keys(s1) && x.name !in s1.image.files {
      DueIsBeforePrune(Keys(s0), r, x);
    }
  }

  lemma MarkedInCycle(keys: seq<Entry>, s0: Sys, s1: Sys, cfg: Settings, r: Cycle, o: Entry, x: Entry)
    requires Completed(s0, keys, s1, cfg, r) && DistinctIds(keys) && (o in keys || o == r.entry)
    requires x in Keys(s1) && x.configId == o.configId
    ensures x.inDnsSince == if o.state != Grace && r.markedAt != 0 then r.markedAt else o.inDnsSince
  {
    hide DistinctIds, CycleEntries, Newest, PreviousOf, Ids, PreviousConfigs, Republished, PemFile.FittingKey;
    hide ConfigIds.Used, Demote, BeforePrune;
    ConfigIdIsNew(keys, r.entry);
    InsertDistinct(keys, r.entry);
    CycleMarks(keys, r.entry, r.markedAt, r.deadline, r.prunedAt, o, x);
  }

  lemma ConfigIdIsNew(keys: seq<Entry>, e: Entry)
    requires e.configId as int !in ConfigIds.Used(keys)
    ensures forall o | o in keys :: o.configId != e.configId
  {
    FreshId(keys, e.configId);
  }

  lemma DueIsBeforePrune(keys: seq<Entry>, r: Cycle, x: Entry)
    requires x in keys && Due(x, r.prunedAt) && r.entry.state == Current
    ensures x in BeforePrune(keys, r)
  {
    hide MarkIds, Demote, RetireAll;
    CyclePointwise(keys, r.entry, r.ids, r.markedAt, r.deadline);
    var i :| 0 <= i < |keys| && keys[i] == x;
    assert BeforePrune(keys, r)[i] == x;
  }
}
