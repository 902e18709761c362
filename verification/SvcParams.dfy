/** pkg/svcb: the parameter edits, the parsing and printing loops, and what repeated publishing keeps. */
module SvcParams {
  import opened Prelude
  import opened Svcb
  import Base64

  // ---------------------------------------------------------------- parameter edits, as functions

  /** The first position holding key, or the length. */
  function ParamAt(ps: seq<Param>, key: string): (k: nat)
    ensures k <= |ps|
    ensures forall i | 0 <= i < k :: ps[i].key != key
    ensures k < |ps| ==> ps[k].key == key
  {
    if ps == [] || ps[0].key == key then 0 else 1 + ParamAt(ps[1..], key)
  }

  /** SetParam: the first occurrence is overwritten in place, else the pair is appended. */
  function WithParam(ps: seq<Param>, key: string, value: string): seq<Param> {
    var k := ParamAt(ps, key);
    if k < |ps| then ps[k := Param(key, value)] else ps + [Param(key, value)]
  }

  function WithoutParam(ps: seq<Param>, key: string): seq<Param> {
    if ps == [] then []
    else (if ps[0].key == key then [] else [ps[0]]) + WithoutParam(ps[1..], key)
  }

  function GetParam(r: Record, key: string): Option<string> {
    var k := ParamAt(r.params, key);
    if k < |r.params| then Some(r.params[k].value) else None
  }

  function GetEch(r: Record): Option<string> {
    GetParam(r, ECH)
  }

  function WithEch(r: Record, value: string): Record {
    r.(params := WithParam(r.params, ECH, value))
  }

  function SetEch(r: Record, value: string): Result<Record> {
    if r.IsAliasMode() then Err else Ok(WithEch(r, value))
  }

  lemma {:induction false} ParamAtIs(ps: seq<Param>, key: string, k: nat)
    requires k <= |ps| && (forall i | 0 <= i < k :: ps[i].key != key) && (k < |ps| ==> ps[k].key == key)
    ensures ParamAt(ps, key) == k
  {
    if k > 0 {
      ParamAtIs(ps[1..], key, k - 1);
    }
  }

  /** SetECH changes the first ech value and nothing else: same priority, target, other parameters and order. */
  lemma SetEchFrame(r: Record, value: string)
    requires !r.IsAliasMode()
    ensures SetEch(r, value).Ok?
    ensures var p, k := SetEch(r, value).value, ParamAt(r.params, ECH);
            && p.priority == r.priority && p.target == r.target
            && GetEch(p) == Some(value)
            && p.params[..k] == r.params[..k]
            && p.params[k] == Param(ECH, value)
            && p.params[k + 1..] == (if k < |r.params| then r.params[k + 1..] else [])
  {
    var k := ParamAt(r.params, ECH);
    var ps := WithParam(r.params, ECH, value);
    assert forall i | 0 <= i < k :: ps[i] == r.params[i];
    ParamAtIs(ps, ECH, k);
  }

  /** GetParam answers the value of the first parameter with the key, and nothing exactly when there is none. */
  lemma GetExactly(r: Record, key: string, k: nat)
    ensures GetParam(r, key).None? <==> forall p | p in r.params :: p.key != key
    ensures k < |r.params| && r.params[k].key == key && (forall j | 0 <= j < k :: r.params[j].key != key) ==>
              GetParam(r, key) == Some(r.params[k].value)
  {
    if k < |r.params| && r.params[k].key == key && forall j | 0 <= j < k :: r.params[j].key != key {
      ParamAtIs(r.params, key, k);
    }
    if GetParam(r, key).Some? { assert r.params[ParamAt(r.params, key)] in r.params; }
  }

  lemma WithParamTwice(ps: seq<Param>, key: string, a: string, b: string)
    ensures WithParam(WithParam(ps, key, a), key, b) == WithParam(ps, key, b)
  {
    var k := ParamAt(ps, key);
    var qs := WithParam(ps, key, a);
    assert forall i | 0 <= i < k :: qs[i] == ps[i];
    ParamAtIs(qs, key, k);
  }

  lemma {:induction false} EscapeParamsPointwise(ps: seq<Param>)
    ensures |EscapeParams(ps)| == |ps|
    ensures forall i | 0 <= i < |ps| :: EscapeParams(ps)[i] == Param(ps[i].key, Escape(ps[i].value))
  {
    hide Escape;
    if ps != [] {
      EscapeParamsPointwise(ps[1..]);
    }
  }

  lemma EscapeWithParam(ps: seq<Param>, key: string, value: string)
    requires EscapeFree(value)
    ensures EscapeParams(WithParam(ps, key, value)) == WithParam(EscapeParams(ps), key, value)
  {
    hide Escape, EscapeParams;
    EscapeParamsPointwise(ps);
    EscapeParamsPointwise(WithParam(ps, key, value));
    EscapeIdentity(value);
    ParamAtIs(EscapeParams(ps), key, ParamAt(ps, key));
  }

  // ---------------------------------------------------------------- publishing again and again

  /** One publish of one ServiceMode record: patch, print, and read back at the next cycle. */
  function Publish(r: Record, value: string): Result<Record> {
    match SetEch(r, value)
    case Err => Err
    case Ok(p) => ParseText(Print(p))
  }

  function PublishAll(r: Record, values: seq<string>): Result<Record> {
    if values == [] then Ok(r)
    else match PublishAll(r, values[..|values| - 1])
      case Err => Err
      case Ok(p) => Publish(p, values[|values| - 1])
  }

  function EscapeTimes(v: string, n: nat): string {
    if n == 0 then v else Escape(EscapeTimes(v, n - 1))
  }

  function EscapeParamsTimes(ps: seq<Param>, n: nat): seq<Param> {
    if n == 0 then ps else EscapeParams(EscapeParamsTimes(ps, n - 1))
  }

  predicate Publishable(r: Record) {
    !r.IsAliasMode() && TokensWellFormed(r) && ValuesQuoteFree(r)
  }

  lemma WithEchPublishable(r: Record, value: string)
    requires Publishable(r) && EscapeFree(value)
    ensures Publishable(WithEch(r, value))
  {
  }

  lemma EscapedPublishable(r: Record)
    requires Publishable(r)
    ensures Publishable(EscapeValues(r))
  {
    hide Escape, EscapeParams;
    EscapeParamsPointwise(r.params);
    forall p | p in EscapeParams(r.params) ensures KeyToken(p.key) && QuoteFree(p.value) {
      var i :| 0 <= i < |r.params| && p == EscapeParams(r.params)[i];
      assert r.params[i] in r.params;
      EscapeQuoteFree(r.params[i].value);
    }
  }

  /** After any number of publishes: every parameter but the first ech keeps its place and key, its value has been
      escaped once per publish, ech holds the last published value, priority and target are unchanged. */
  lemma {:induction false} PublishMany(r: Record, values: seq<string>)
    requires Publishable(r) && values != [] && forall v | v in values :: EscapeFree(v)
    ensures PublishAll(r, values)
         == Ok(WithEch(r.(params := EscapeParamsTimes(r.params, |values|)), values[|values| - 1]))
    ensures Publishable(PublishAll(r, values).value)
  {
    hide ParseText, Print, EscapeParams, WithParam, TokensWellFormed, ValuesQuoteFree, EscapeFree;
    var n := |values|;
    var last := values[n - 1];
    var before := values[..n - 1];
    assert last in values;
    if before == [] {
      PublishOnce(r, last);
    } else {
      PublishMany(r, before);
      var q := r.(params := EscapeParamsTimes(r.params, n - 1));
      var prev := before[n - 2];
      assert prev in values;
      PublishOnce(WithEch(q, prev), last);
      EscapeWithParam(q.params, ECH, prev);
      WithParamTwice(EscapeParams(q.params), ECH, prev, last);
    }
  }

  lemma PublishOnce(r: Record, value: string)
    requires Publishable(r) && EscapeFree(value)
    ensures Publish(r, value) == Ok(WithEch(EscapeValues(r), value))
    ensures Publishable(Publish(r, value).value)
  {
    hide ParseText, Print, EscapeParams, WithParam, TokensWellFormed, ValuesQuoteFree, EscapeFree;
    WithEchPublishable(r, value);
    ParsePrinted(WithEch(r, value));
    EscapeWithParam(r.params, ECH, value);
    EscapedPublishable(r);
    WithEchPublishable(EscapeValues(r), value);
  }

  function Backslashes(v: string): nat {
    if v == "" then 0 else (if v[0] == '\\' then 1 else 0) + Backslashes(v[1..])
  }

  function Power2(n: nat): nat {
    if n == 0 then 1 else 2 * Power2(n - 1)
  }

  predicate PlainText(v: string) {
    forall c | c in v :: Printable(c) && c != '\"'
  }

  lemma {:induction false} EscapeDoubles(v: string)
    requires PlainText(v)
    ensures PlainText(Escape(v))
    ensures Backslashes(Escape(v)) == 2 * Backslashes(v)
    ensures |Escape(v)| == |v| + Backslashes(v)
  {
    if v != "" {
      var e := Escape(v[1..]);
      assert v[0] in v;
      EscapeDoubles(v[1..]);
      if v[0] == '\\' {
        assert Escape(v) == "\\" + ("\\" + e);
        assert (Escape(v))[1..] == "\\" + e && ("\\" + e)[1..] == e;
        assert Backslashes("\\" + e) == 1 + Backslashes(e);
      } else {
        assert Escape(v) == [v[0]] + e;
        assert Escape(v)[1..] == e;
      }
    }
  }

  /** A value with k backslashes has k * 2^n of them after n publishes. */
  lemma {:induction false} BackslashGrowth(v: string, n: nat)
    requires PlainText(v)
    ensures PlainText(EscapeTimes(v, n))
    ensures Backslashes(EscapeTimes(v, n)) == Backslashes(v) * Power2(n)
    ensures |EscapeTimes(v, n)| >= |v|
    ensures Backslashes(v) > 0 && n > 0 ==> |EscapeTimes(v, n)| > |v|
  {
    hide Escape, Backslashes;
    if n > 0 {
      BackslashGrowth(v, n - 1);
      var w := EscapeTimes(v, n - 1);
      EscapeDoubles(w);
      assert Backslashes(v) * Power2(n) == 2 * (Backslashes(v) * Power2(n - 1));
      if Backslashes(v) > 0 {
        PositivePower(n - 1);
        assert Backslashes(w) > 0;
      }
    }
  }

  lemma {:induction false} PositivePower(n: nat)
    ensures Power2(n) > 0
  {
    if n > 0 {
      PositivePower(n - 1);
    }
  }

  lemma {:induction false} NoBackslashIsEscapeFree(v: string)
    requires PlainText(v)
    ensures Backslashes(v) == 0 <==> EscapeFree(v)
  {
    if v != "" {
      assert v[0] in v;
      NoBackslashIsEscapeFree(v[1..]);
      assert forall c | c in v :: c == v[0] || c in v[1..];
    }
  }

  function Tabs(v: string): nat {
    if v == "" then 0 else (if v[0] == '\t' then 1 else 0) + Tabs(v[1..])
  }

  lemma {:induction false} BackslashesConcat(a: string, b: string)
    ensures Backslashes(a + b) == Backslashes(a) + Backslashes(b)
  {
    if a == "" {
      assert a + b == b;
    } else {
      BackslashesConcat(a[1..], b);
      assert (a + b)[1..] == a[1..] + b;
    }
  }

  /** One escape doubles the backslashes and turns every tab into one more. */
  lemma {:induction false} FirstEscape(v: string)
    requires QuoteFree(v)
    ensures PlainText(Escape(v)) && Backslashes(Escape(v)) == 2 * Backslashes(v) + Tabs(v)
  {
    if v != "" {
      assert v[0] in v;
      FirstEscape(v[1..]);
      EscapedChar(v[0]);
      BackslashesConcat(EscapeChar(v[0]), Escape(v[1..]));
    }
  }

  lemma EscapedChar(c: char)
    requires QuoteFree([c])
    ensures PlainText(EscapeChar(c))
    ensures Backslashes(EscapeChar(c)) == if c == '\\' then 2 else if c == '\t' then 1 else 0
  {
    assert c in [c];
    assert "\\\\"[1..] == "\\" && "\\"[1..] == "" && "\\t"[1..] == "t" && "t"[1..] == "" && [c][1..] == "";
  }

  lemma {:induction false} EscapeFirst(v: string, n: nat)
    ensures EscapeTimes(v, n + 1) == EscapeTimes(Escape(v), n)
  {
    hide Escape;
    if n > 0 {
      EscapeFirst(v, n - 1);
    }
  }

  /** A quote-free value with k backslashes and t tabs has (2 * k + t) * 2^n backslashes after n + 1 publishes. */
  lemma TabGrowth(v: string, n: nat)
    requires QuoteFree(v)
    ensures Backslashes(EscapeTimes(v, n + 1)) == (2 * Backslashes(v) + Tabs(v)) * Power2(n)
  {
    hide Escape, Backslashes, Tabs, EscapeTimes;
    FirstEscape(v);
    EscapeFirst(v, n);
    BackslashGrowth(Escape(v), n);
  }

  lemma {:induction false} EscapeTimesGrows(v: string, n: nat)
    requires QuoteFree(v) && !EscapeFree(v)
    ensures QuoteFree(EscapeTimes(v, n)) && |EscapeTimes(v, n)| >= |v| && (n > 0 ==> |EscapeTimes(v, n)| > |v|)
  {
    hide Escape, QuoteFree, EscapeFree;
    if n > 0 {
      EscapeTimesGrows(v, n - 1);
      EscapeQuoteFree(EscapeTimes(v, n - 1));
      EscapeGrows(EscapeTimes(v, n - 1));
      EscapeGrows(v);
      assert EscapeTimes(v, 0) == v;
    }
  }

  /** Publishing keeps a quote-free value, however often, exactly when it holds no backslash and no tab. */
  lemma PublishKeepsValue(v: string, n: nat)
    requires QuoteFree(v) && n > 0
    ensures EscapeTimes(v, n) == v <==> '\\' !in v && '\t' !in v
  {
    hide Escape;
    assert EscapeFree(v) <==> '\\' !in v && '\t' !in v;
    if EscapeFree(v) {
      EscapeTimesIdentity(v, n);
    } else {
      EscapeTimesGrows(v, n);
    }
  }

  lemma {:induction false} EscapeTimesIdentity(v: string, n: nat)
    requires EscapeFree(v)
    ensures EscapeTimes(v, n) == v
  {
    if n > 0 {
      EscapeTimesIdentity(v, n - 1);
      EscapeIdentity(v);
    }
  }

  lemma {:induction false} EscapeParamsTimesIdentity(ps: seq<Param>, n: nat)
    requires forall p | p in ps :: EscapeFree(p.value)
    ensures EscapeParamsTimes(ps, n) == ps
  {
    hide EscapeFree, EscapeParams;
    if n > 0 {
      EscapeParamsTimesIdentity(ps, n - 1);
      EscapeParamsIdentity(ps);
    }
  }

  lemma {:induction false} EncodedIsEscapeFree(b: seq<byte>)
    ensures EscapeFree(Base64.Encode(b))
  {
    hide Base64.Encode;
    forall c | c in Base64.Encode(b) ensures Printable(c) && c != '\"' && c != '\\' {
      assert Base64.IsBase64Char(c);
    }
  }

  // ---------------------------------------------------------------- the loops

  /** parseUint16 */
  method ReadUint16(s: string) returns (r: Result<u16>)
    ensures r == Uint16(s)
  {
    if s == "" { return Err; }
    var v: nat := 0;
    for i := 0 to |s|
      invariant v <= 0xFFFF && Uint16From(s, 0) == Uint16From(s[i..], v)
    {
      assert s[i..][1..] == s[i + 1..];
      if s[i] < '0' || s[i] > '9' { return Err; }
      v := v * 10 + (s[i] as int - '0' as int);
      if v > 0xFFFF { return Err; }
    }
    return Ok(v);
  }

  method Parse(text: string) returns (r: Result<Record>)
    ensures r == ParseText(text)
  {
    hide Uint16, TrimSpace, NextToken, NextParam, Params, TrimLeft, ReadSoFar;
    var s := TrimSpace(text);
    EmptyText();
    if s == "" { return Err; }
    var (priTok, rest) := NextToken(s);
    var priority := ReadUint16(priTok);
    if priority.Err? { return Err; }
    var (target, tail) := NextToken(TrimLeft(rest, Blank));
    if target == "" { return Err; }
    if priority.value == 0 { return Ok(Record(0, target, [])); }
    rest := tail;
    var params: seq<Param> := [];
    NothingReadYet(tail);
    while true
      invariant ReadSoFar(tail, params, rest)
      decreases |rest|
    {
      var t := TrimLeft(rest, Blank);
      NextIsRead(tail, params, rest);
      if t == "" { break; }
      var one := NextParam(t);
      if one.Err? { return Err; }
      params, rest := params + [one.value.param], one.value.rest;
    }
    return Ok(Record(priority.value, target, params));
  }

  /** The parameters of tail are those read so far and those of the rest. */
  ghost predicate ReadSoFar(tail: string, params: seq<Param>, rest: string) {
    Params(tail) == match Params(rest) case Err => Err case Ok(more) => Ok(params + more)
  }

  lemma NothingReadYet(tail: string)
    ensures ReadSoFar(tail, [], tail)
  {
    hide Params;
    if Params(tail).Ok? { assert [] + Params(tail).value == Params(tail).value; }
  }

  lemma NextIsRead(tail: string, params: seq<Param>, rest: string)
    requires ReadSoFar(tail, params, rest)
    ensures var t := TrimLeft(rest, Blank);
            if t == "" then Params(tail) == Ok(params)
            else match NextParam(t)
              case Err => Params(tail) == Err
              case Ok(one) => ReadSoFar(tail, params + [one.param], one.rest) && |one.rest| < |rest|
  {
    hide NextParam, TrimLeft;
    var t := TrimLeft(rest, Blank);
    if t == "" {
      assert params + [] == params;
    } else if NextParam(t).Ok? {
      var one := NextParam(t).value;
      if Params(one.rest).Ok? { Associates(params, [one.param], Params(one.rest).value); }
    }
  }

  lemma EmptyText()
    ensures NextToken("") == ("", "") && Uint16("") == Err
  {
  }

  lemma {:induction false} PrintParamsSnoc(ps: seq<Param>, p: Param)
    ensures PrintParams(ps + [p]) == PrintParams(ps) + PrintParam(p)
  {
    hide PrintParam;
    if ps == [] {
      assert ([] + [p])[1..] == [];
    } else {
      PrintParamsSnoc(ps[1..], p);
      assert (ps + [p])[1..] == ps[1..] + [p];
    }
  }

  /** String */
  method Format(r: Record) returns (text: string)
    ensures text == Print(r)
  {
    hide PrintParam;
    text := Decimal(r.priority) + (" " + r.target);
    assert text + "" == text;
    if r.IsAliasMode() { assert r.target + "" == r.target; return; }
    ghost var head := text;
    for i := 0 to |r.params|
      invariant text == head + PrintParams(r.params[..i])
    {
      PrintParamsSnoc(r.params[..i], r.params[i]);
      assert r.params[..i + 1] == r.params[..i] + [r.params[i]];
      text := text + PrintParam(r.params[i]);
    }
    assert r.params[..|r.params|] == r.params;
  }

  lemma WithoutParamCons(p: Param, rest: seq<Param>, key: string)
    ensures WithoutParam([p] + rest, key) == (if p.key == key then [] else [p]) + WithoutParam(rest, key)
  {
    assert ([p] + rest)[1..] == rest;
  }

  lemma {:induction false} WithoutParamSnoc(ps: seq<Param>, p: Param, key: string)
    ensures WithoutParam(ps + [p], key) == WithoutParam(ps, key) + (if p.key == key then [] else [p])
  {
    if ps == [] {
      assert [] + [p] == [p] + [];
      WithoutParamCons(p, [], key);
    } else {
      hide WithoutParam;
      WithoutParamSnoc(ps[1..], p, key);
      HeadAndRest(ps, [p]);
      WithoutParamCons(ps[0], ps[1..] + [p], key);
      WithoutParamCons(ps[0], ps[1..], key);
      Associates(if ps[0].key == key then [] else [ps[0]], WithoutParam(ps[1..], key), if p.key == key then [] else [p]);
    }
  }

  lemma {:induction false} WithoutParamConcat(a: seq<Param>, b: seq<Param>, key: string)
    ensures WithoutParam(a + b, key) == WithoutParam(a, key) + WithoutParam(b, key)
  {
    if a == [] {
      assert a + b == b;
    } else {
      hide WithoutParam;
      WithoutParamConcat(a[1..], b, key);
      HeadAndRest(a, b);
      WithoutParamCons(a[0], a[1..] + b, key);
      WithoutParamCons(a[0], a[1..], key);
      Associates(if a[0].key == key then [] else [a[0]], WithoutParam(a[1..], key), WithoutParam(b, key));
    }
  }

  /** Deleting a key leaves every other parameter where it stood among the others, value and all. */
  lemma DeletedExactly(a: seq<Param>, p: Param, b: seq<Param>, key: string)
    ensures p.key == key ==> WithoutParam(a + [p] + b, key) == WithoutParam(a + b, key)
    ensures p.key != key ==> WithoutParam(a + [p] + b, key) == WithoutParam(a, key) + [p] + WithoutParam(b, key)
    ensures WithoutParam([], key) == []
  {
    WithoutParamConcat(a + [p], b, key);
    WithoutParamConcat(a, [p], key);
    WithoutParamConcat(a, b, key);
    assert [p][1..] == [] && WithoutParam([], key) == [];
    assert WithoutParam([p], key) == if p.key == key then [] else [p];
  }

  lemma {:induction false} WithoutParamHasNone(ps: seq<Param>, key: string)
    ensures ParamAt(WithoutParam(ps, key), key) == |WithoutParam(ps, key)|
  {
    if ps != [] {
      WithoutParamHasNone(ps[1..], key);
      if ps[0].key != key {
        assert WithoutParam(ps, key)[1..] == WithoutParam(ps[1..], key);
      }
    }
  }

  /** A record whose parameters are edited in place. */
  class RecordEditor {
    var priority: u16
    var target: string
    var params: seq<Param>

    function View(): Record
      reads this
    {
      Record(priority, target, params)
    }

    constructor (base: Record)
      ensures View() == base
    {
      priority, target, params := base.priority, base.target, base.params;
    }

    method SetParam(key: string, value: string)
      modifies this`params
      ensures params == WithParam(old(params), key, value)
    {
      for i := 0 to |params|
        invariant params == old(params) && forall j | 0 <= j < i :: params[j].key != key
      {
        if params[i].key == key {
          ParamAtIs(params, key, i);
          params := params[i := params[i].(value := value)];
          return;
        }
      }
      ParamAtIs(params, key, |params|);
      params := params + [Param(key, value)];
    }

    method DeleteParam(key: string)
      modifies this`params
      ensures params == WithoutParam(old(params), key)
      ensures ParamAt(params, key) == |params|
    {
      var out: seq<Param> := [];
      for i := 0 to |params|
        invariant params == old(params) && out == WithoutParam(params[..i], key)
      {
        WithoutParamSnoc(params[..i], params[i], key);
        assert params[..i + 1] == params[..i] + [params[i]];
        if params[i].key != key {
          out := out + [params[i]];
        }
      }
      assert params[..|params|] == params;
      params := out;
      WithoutParamHasNone(old(params), key);
    }
  }

  /** SetECH edits a copy. */
  method SetECH(base: Record, value: string) returns (r: Result<Record>)
    ensures r == SetEch(base, value)
  {
    if base.IsAliasMode() { return Err; }
    var cp := new RecordEditor(base);
    cp.SetParam(ECH, value);
    return Ok(cp.View());
  }
}
