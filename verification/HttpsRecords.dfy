/** The published text of a managed record set: what clients read from it and how a publish patches it. */
module HttpsRecords {
  import opened Prelude
  import opened EchConfig
  import Base64
  import Svcb
  import SvcParams

  /** The configs a client finds in one published record. */
  function Advertised(text: string): seq<Config> {
    match Svcb.ParseText(text)
    case Err => []
    case Ok(r) =>
      match SvcParams.GetEch(r)
      case None => []
      case Some(b64) =>
        match Base64.Decode(b64)
        case None => []
        case Some(bytes) =>
          match DecodeList(bytes)
          case Err => []
          case Ok(l) => l.configs
  }

  /** What publishDNS makes of one existing record. */
  function Patched(text: string, b64: string): Result<string> {
    match Svcb.ParseText(text)
    case Err => Err
    case Ok(r) => Ok(Svcb.Print(if r.IsAliasMode() then r else SvcParams.WithEch(r, b64)))
  }

  /** What publishDNS makes of the existing record set. */
  function PatchedAll(texts: seq<string>, b64: string): Result<seq<string>> {
    if texts == [] then Ok([])
    else match PatchedAll(texts[..|texts| - 1], b64)
      case Err => Err
      case Ok(head) =>
        match Patched(texts[|texts| - 1], b64)
        case Err => Err
        case Ok(t) => Ok(head + [t])
  }

  /** No value needs escaping, or the record cannot be read at all. */
  predicate CleanText(text: string) {
    Svcb.ParseText(text).Ok? ==> Svcb.Clean(Svcb.ParseText(text).value)
  }

  /** No value holds a quote, or the record cannot be read at all: only a bare value could hold one. */
  predicate QuotelessText(text: string) {
    var r := Svcb.ParseText(text);
    r.Ok? ==> Svcb.TokensWellFormed(r.value) && Svcb.ValuesQuoteFree(r.value)
  }

  predicate QuotelessSet(texts: seq<string>) {
    forall t | t in texts :: QuotelessText(t)
  }

  /** Every record that can be read has well-formed tokens, as all records over the alphabet do. */
  predicate WellFormedSet(texts: seq<string>) {
    forall t | t in texts :: Svcb.ParseText(t).Ok? ==> Svcb.TokensWellFormed(Svcb.ParseText(t).value)
  }

  predicate IsAlias(text: string) {
    Svcb.ParseText(text).Ok? && Svcb.ParseText(text).value.IsAliasMode()
  }

  predicate IsService(text: string) {
    Svcb.ParseText(text).Ok? && !Svcb.ParseText(text).value.IsAliasMode()
  }

  // ---------------------------------------------------------------- one publish of one record

  /** A published record that holds no quotes is read back with every value escaped once more and the new ech; an alias
      is read back as it was. */
  lemma PatchedReadsBack(text: string, b64: string)
    requires QuotelessText(text) && Svcb.ParseText(text).Ok? && Svcb.EscapeFree(b64)
    ensures Patched(text, b64).Ok? && QuotelessText(Patched(text, b64).value)
    ensures var r := Svcb.ParseText(text).value;
            && Svcb.ParseText(Patched(text, b64).value)
               == Ok(if r.IsAliasMode() then r else SvcParams.WithEch(Svcb.EscapeValues(r), b64))
            && (!r.IsAliasMode() ==> Svcb.ParseText(Patched(text, b64).value) == SvcParams.Publish(r, b64))
  {
    hide Svcb.ParseText, Svcb.Print, SvcParams.WithEch, Svcb.EscapeFree;
    var r := Svcb.ParseText(text).value;
    if r.IsAliasMode() {
      Svcb.ParseOfPrint(r);
    } else {
      SvcParams.PublishOnce(r, b64);
    }
  }

  /** A published ServiceMode record carries exactly the published configs; an AliasMode record carries none. A record
      that needs no escaping stays one. */
  lemma PatchedAdvertises(text: string, configs: seq<Config>)
    requires QuotelessText(text) && ListEncodable(List(configs, []))
    requires Patched(text, Base64.Encode(ListBytes(List(configs, [])))).Ok?
    ensures var b64 := Base64.Encode(ListBytes(List(configs, [])));
            var out := Patched(text, b64).value;
            var r := Svcb.ParseText(text).value;
            && QuotelessText(out)
            && Svcb.ParseText(out)
               == Ok(if r.IsAliasMode() then r else SvcParams.WithEch(Svcb.EscapeValues(r), b64))
            && (CleanText(text) ==> CleanText(out) && Svcb.EscapeValues(r) == r)
            && Advertised(out) == (if IsAlias(text) then [] else configs)
            && (IsAlias(out) <==> IsAlias(text))
  {
    hide Svcb.ParseText, Svcb.Print, DecodeList, Base64.Decode, Base64.Encode, ListBytes, ListEncodable, Patched;
    hide SvcParams.WithParam, SvcParams.ParamAt, Svcb.EscapeParams, QuotelessText;
    var bytes := ListBytes(List(configs, []));
    var b64 := Base64.Encode(bytes);
    PatchedIsParsed(text, b64);
    var r := Svcb.ParseText(text).value;
    SvcParams.EncodedIsEscapeFree(bytes);
    PatchedReadsBack(text, b64);
    Base64.RoundTrip(bytes);
    ListRoundTrip(List(configs, []));
    if CleanText(text) {
      Svcb.EscapeParamsIdentity(r.params);
      WithEchClean(r, b64);
    }
    if r.IsAliasMode() {
      AliasHasNoParams(text);
      NoEchWithoutParams(r);
    } else {
      SvcParams.SetEchFrame(Svcb.EscapeValues(r), b64);
    }
  }

  lemma PatchedIsParsed(text: string, b64: string)
    ensures Patched(text, b64).Ok? <==> Svcb.ParseText(text).Ok?
  {
    hide Svcb.ParseText, Svcb.Print;
  }

  lemma AliasHasNoParams(text: string)
    requires Svcb.ParseText(text).Ok? && QuotelessText(text)
    ensures Svcb.ParseText(text).value.IsAliasMode() ==> Svcb.ParseText(text).value.params == []
  {
    hide Svcb.ParseText;
  }

  lemma WithEchClean(r: Svcb.Record, b64: string)
    requires Svcb.Clean(r) && Svcb.EscapeFree(b64)
    ensures !r.IsAliasMode() ==> Svcb.Clean(SvcParams.WithEch(r, b64))
  {
    hide Svcb.EscapeFree;
  }

  lemma NoEchWithoutParams(r: Svcb.Record)
    requires r.params == []
    ensures SvcParams.GetEch(r).None?
  {
  }

  // ---------------------------------------------------------------- publishing sets

  lemma {:induction false} PatchedAllPointwise(texts: seq<string>, b64: string)
    ensures PatchedAll(texts, b64).Ok? <==> forall i | 0 <= i < |texts| :: Patched(texts[i], b64).Ok?
    ensures PatchedAll(texts, b64).Ok? ==>
              var out := PatchedAll(texts, b64).value;
              |out| == |texts| && forall i | 0 <= i < |texts| :: out[i] == Patched(texts[i], b64).value
  {
    hide Patched;
    if texts != [] {
      PatchedAllPointwise(texts[..|texts| - 1], b64);
    }
  }

  /** A published set: same number and order of records, each carrying the published configs and nothing else. */
  lemma PatchedSetAdvertises(texts: seq<string>, configs: seq<Config>)
    requires QuotelessSet(texts) && ListEncodable(List(configs, []))
    requires PatchedAll(texts, Base64.Encode(ListBytes(List(configs, [])))).Ok?
    ensures var out := PatchedAll(texts, Base64.Encode(ListBytes(List(configs, [])))).value;
            && |out| == |texts| && QuotelessSet(out)
            && forall i | 0 <= i < |out| ::
                 && Advertised(out[i]) == (if IsAlias(texts[i]) then [] else configs)
                 && (IsAlias(out[i]) <==> IsAlias(texts[i]))
  {
    hide Patched, Advertised, QuotelessText, CleanText, IsAlias, ListEncodable, ListBytes, PatchedAll;
    var b64 := Base64.Encode(ListBytes(List(configs, [])));
    var out := PatchedAll(texts, b64).value;
    PatchedAllPointwise(texts, b64);
    forall i | 0 <= i < |out|
      ensures QuotelessText(out[i]) && Advertised(out[i]) == (if IsAlias(texts[i]) then [] else configs)
      ensures IsAlias(out[i]) <==> IsAlias(texts[i])
    {
      PatchedAdvertises(texts[i], configs);
    }
  }

  // ---------------------------------------------------------------- publishing sets again and again

  /** Publishing these values one after the other, each time reading the set that the last publish wrote. */
  function PatchedTimes(texts: seq<string>, values: seq<string>): Result<seq<string>> {
    if values == [] then Ok(texts)
    else match PatchedTimes(texts, values[..|values| - 1])
      case Err => Err
      case Ok(out) => PatchedAll(out, values[|values| - 1])
  }

  /** The record r after these publishes: every value but that of the first ech escaped once for each, the last ech. */
  function Rewritten(r: Svcb.Record, values: seq<string>): Svcb.Record {
    if r.IsAliasMode() || values == [] then r
    else SvcParams.WithEch(r.(params := SvcParams.EscapeParamsTimes(r.params, |values|)), values[|values| - 1])
  }

  lemma RewrittenIsPublished(r: Svcb.Record, values: seq<string>)
    requires SvcParams.Publishable(r) && forall v | v in values :: Svcb.EscapeFree(v)
    ensures SvcParams.PublishAll(r, values) == Ok(Rewritten(r, values))
  {
    hide Svcb.EscapeFree, SvcParams.WithEch;
    if values != [] {
      SvcParams.PublishMany(r, values);
    }
  }

  /** One record of the set: where it stands after the values so far decides where it stands after the next. */
  lemma NextPublish(r: Svcb.Record, out: string, values: seq<string>)
    requires values != [] && (forall v | v in values :: Svcb.EscapeFree(v)) && QuotelessText(out)
    requires Svcb.TokensWellFormed(r) && Svcb.ValuesQuoteFree(r)
    requires Svcb.ParseText(out) == Ok(Rewritten(r, values[..|values| - 1]))
    ensures var next := Patched(out, values[|values| - 1]);
            next.Ok? && QuotelessText(next.value) && Svcb.ParseText(next.value) == Ok(Rewritten(r, values))
  {
    hide Svcb.ParseText, Patched, Svcb.EscapeFree, QuotelessText, SvcParams.Publish, Svcb.TokensWellFormed;
    hide SvcParams.EscapeParamsTimes, SvcParams.WithParam;
    var before, last := values[..|values| - 1], values[|values| - 1];
    assert last in values && forall v | v in before :: v in values;
    PatchedReadsBack(out, last);
    if !r.IsAliasMode() {
      RewrittenIsPublished(r, before);
      RewrittenIsPublished(r, values);
      assert Rewritten(r, before).priority == r.priority;
    }
  }

  /** Any number of publishes of any readable set: the number and order of the records, aliases, priorities, targets and
      the place and key of every parameter are unchanged; each ServiceMode record carries the last published value, and
      every other value has been escaped once for each publish. */
  lemma {:induction false} PublishSets(texts: seq<string>, values: seq<string>)
    requires QuotelessSet(texts) && (forall t | t in texts :: Svcb.ParseText(t).Ok?)
    requires forall v | v in values :: Svcb.EscapeFree(v)
    ensures PatchedTimes(texts, values).Ok?
    ensures var out := PatchedTimes(texts, values).value;
            && |out| == |texts| && QuotelessSet(out)
            && forall i | 0 <= i < |texts| ::
                 Svcb.ParseText(out[i]) == Ok(Rewritten(Svcb.ParseText(texts[i]).value, values))
  {
    hide Svcb.ParseText, Patched, PatchedAll, Svcb.EscapeFree, Rewritten, Svcb.TokensWellFormed, Svcb.ValuesQuoteFree;
    if values == [] {
      forall i | 0 <= i < |texts|
        ensures Svcb.ParseText(texts[i]) == Ok(Rewritten(Svcb.ParseText(texts[i]).value, []))
      {
        assert texts[i] in texts;
        RewrittenByNothing(Svcb.ParseText(texts[i]).value);
      }
    } else {
      var before, last := values[..|values| - 1], values[|values| - 1];
      PublishSets(texts, before);
      var mid := PatchedTimes(texts, before).value;
      PatchedAllPointwise(mid, last);
      forall i | 0 <= i < |mid|
        ensures var next := Patched(mid[i], last);
                next.Ok? && QuotelessText(next.value)
                && Svcb.ParseText(next.value) == Ok(Rewritten(Svcb.ParseText(texts[i]).value, values))
      {
        assert texts[i] in texts && mid[i] in mid;
        NextPublish(Svcb.ParseText(texts[i]).value, mid[i], values);
      }
    }
  }

  lemma RewrittenByNothing(r: Svcb.Record)
    ensures Rewritten(r, []) == r
  {
  }

  /** On a record that needs no escaping any number of publishes does nothing but set the first ech. */
  lemma RewrittenClean(r: Svcb.Record, values: seq<string>)
    requires Svcb.Clean(r)
    ensures Rewritten(r, values)
         == if r.IsAliasMode() || values == [] then r else SvcParams.WithEch(r, values[|values| - 1])
  {
    hide Svcb.EscapeFree, SvcParams.WithEch;
    SvcParams.EscapeParamsTimesIdentity(r.params, |values|);
  }

  /** One unreadable record stops every publish. */
  lemma {:induction false} UnreadableStops(texts: seq<string>, values: seq<string>, t: string)
    requires t in texts && Svcb.ParseText(t).Err? && values != []
    ensures PatchedTimes(texts, values).Err?
  {
    hide Svcb.ParseText, Patched, PatchedAll;
    var before, last := values[..|values| - 1], values[|values| - 1];
    if before == [] {
      PatchedAllPointwise(texts, last);
      PatchedIsParsed(t, last);
    } else {
      UnreadableStops(texts, before, t);
    }
  }
}
