/** pkg/svcb: presentation-form parsing, printing and patching of HTTPS records (section 2.1 of RFC 9460). */
module Svcb {
  import opened Prelude
  const ECH: string := "ech"

  datatype Param = Param(key: string, value: string)

  /** The value of one parsed record. */
  datatype Record = Record(priority: u16, target: string, params: seq<Param>) {
    predicate IsAliasMode() { priority == 0 }
  }

  // ---------------------------------------------------------------- characters

  predicate Blank(c: char) { c == ' ' || c == '\t' }

  /** Go's white space, within ASCII. */
  predicate Space(c: char) { Blank(c) || '\n' <= c <= '\r' }

  predicate Delimiter(c: char) { c == '=' || Blank(c) }

  predicate IsQuote(c: char) { c == '\"' }

  predicate Printable(c: char) { ' ' <= c <= '~' }

  /** The texts considered: printable ASCII and tabs. */
  predicate InAlphabet(s: string) {
    forall c | c in s :: Printable(c) || c == '\t'
  }

  // ---------------------------------------------------------------- scanning

  /** The first position satisfying p, or the length. */
  function Find(s: string, p: char -> bool): (k: nat)
    ensures k <= |s|
    ensures forall i | 0 <= i < k :: !p(s[i])
    ensures k < |s| ==> p(s[k])
  {
    if s == "" || p(s[0]) then 0 else 1 + Find(s[1..], p)
  }

  lemma {:induction false} FindAt(s: string, p: char -> bool, k: nat)
    requires k <= |s| && (forall i | 0 <= i < k :: !p(s[i])) && (k < |s| ==> p(s[k]))
    ensures Find(s, p) == k
  {
    if k > 0 {
      FindAt(s[1..], p, k - 1);
    }
  }

  function TrimLeft(s: string, p: char -> bool): (r: string)
    ensures r == "" || !p(r[0])
    ensures |r| <= |s| && r == s[|s| - |r|..]
  {
    if s != "" && p(s[0]) then TrimLeft(s[1..], p) else s
  }

  function TrimRight(s: string, p: char -> bool): (r: string)
    ensures r <= s
    ensures r == "" || !p(r[|r| - 1])
  {
    if s != "" && p(s[|s| - 1]) then TrimRight(s[..|s| - 1], p) else s
  }

  function TrimSpace(s: string): string {
    TrimRight(TrimLeft(s, Space), Space)
  }

  /** nextToken: up to the next blank. */
  function NextToken(s: string): (string, string) {
    var k := Find(s, Blank);
    (s[..k], s[k..])
  }

  datatype Scanned = Scanned(param: Param, rest: string)

  /** nextParam. */
  function NextParam(s: string): (r: Result<Scanned>)
    requires s != "" && !Blank(s[0])
    ensures r.Ok? ==> |r.value.rest| < |s| && r.value.param.key != ""
  {
    var eq := Find(s, Delimiter);
    if eq == |s| then Ok(Scanned(Param(s, ""), ""))
    else if s[eq] != '=' then Ok(Scanned(Param(s[..eq], ""), s[eq..]))
    else if eq == 0 then Err
    else
      var rem := s[eq + 1..];
      if rem == "" then Ok(Scanned(Param(s[..eq], ""), ""))
      else if rem[0] == '\"' then
        var end := Find(rem[1..], IsQuote);
        if end == |rem| - 1 then Err
        else Ok(Scanned(Param(s[..eq], rem[1..1 + end]), rem[end + 2..]))
      else
        var (tok, rest) := NextToken(rem);
        Ok(Scanned(Param(s[..eq], tok), rest))
  }

  /** The parameter list; the recursion ends because every nextParam shortens the text. */
  function Params(s: string): Result<seq<Param>>
    decreases |s|
  {
    var t := TrimLeft(s, Blank);
    if t == "" then Ok([])
    else match NextParam(t)
      case Err => Err
      case Ok(one) =>
        match Params(one.rest)
        case Err => Err
        case Ok(tail) => Ok([one.param] + tail)
  }

  /** parseUint16, continuing from the value v of the digits read so far. */
  function Uint16From(s: string, v: u16): Result<u16> {
    if s == "" then Ok(v)
    else if !('0' <= s[0] <= '9') then Err
    else
      var w: nat := v as int * 10 + (s[0] as int - '0' as int);
      if w > 0xFFFF then Err else Uint16From(s[1..], w)
  }

  function Uint16(s: string): Result<u16> {
    if s == "" then Err else Uint16From(s, 0)
  }

  /** Parse, as a function. */
  function ParseText(text: string): Result<Record> {
    var (pri, rest) := NextToken(TrimSpace(text));
    match Uint16(pri)
    case Err => Err
    case Ok(priority) =>
      var (target, tail) := NextToken(TrimLeft(rest, Blank));
      if target == "" then Err
      else if priority == 0 then Ok(Record(0, target, []))
      else match Params(tail)
        case Err => Err
        case Ok(params) => Ok(Record(priority, target, params))
  }

  // ---------------------------------------------------------------- printing

  function Decimal(n: nat): (s: string)
    ensures s != "" && forall c | c in s :: '0' <= c <= '9'
  {
    if n < 10 then [('0' as int + n) as char] else Decimal(n / 10) + Decimal(n % 10)
  }

  /** What %q makes of one character between its quotes. */
  function EscapeChar(c: char): string {
    if c == '\"' then "\\\"" else if c == '\\' then "\\\\" else if c == '\t' then "\\t" else [c]
  }

  function Escape(v: string): string {
    if v == "" then "" else EscapeChar(v[0]) + Escape(v[1..])
  }

  function PrintParam(p: Param): string {
    if p.value == "" then " " + p.key
    else " " + p.key + "=\"" + Escape(p.value) + "\""
  }

  function PrintParams(ps: seq<Param>): string {
    if ps == [] then "" else PrintParam(ps[0]) + PrintParams(ps[1..])
  }

  /** String, as a function. */
  function Print(r: Record): string {
    Decimal(r.priority) + (" " + (r.target + if r.IsAliasMode() then "" else PrintParams(r.params)))
  }

  // ---------------------------------------------------------------- well-formed records

  predicate Token(s: string) {
    s != "" && forall c | c in s :: '!' <= c <= '~'
  }

  predicate KeyToken(s: string) {
    Token(s) && '=' !in s
  }

  predicate QuoteFree(v: string) {
    InAlphabet(v) && '\"' !in v
  }

  /** Values that %q leaves alone. */
  predicate EscapeFree(v: string) {
    forall c | c in v :: Printable(c) && c != '\"' && c != '\\'
  }

  predicate TokensWellFormed(r: Record) {
    && Token(r.target)
    && (forall p | p in r.params :: KeyToken(p.key))
    && (r.IsAliasMode() ==> r.params == [])
  }

  predicate ValuesQuoteFree(r: Record) {
    forall p | p in r.params :: QuoteFree(p.value)
  }

  predicate Clean(r: Record) {
    TokensWellFormed(r) && forall p | p in r.params :: EscapeFree(p.value)
  }

  function EscapeParams(ps: seq<Param>): seq<Param> {
    if ps == [] then [] else [Param(ps[0].key, Escape(ps[0].value))] + EscapeParams(ps[1..])
  }

  /** What one print and re-parse makes of a record. */
  function EscapeValues(r: Record): Record {
    r.(params := EscapeParams(r.params))
  }

  // ---------------------------------------------------------------- print, then parse

  lemma {:induction false} EscapeQuoteFree(v: string)
    requires QuoteFree(v)
    ensures QuoteFree(Escape(v))
    ensures Escape(v) == "" <==> v == ""
  {
    if v != "" {
      EscapeQuoteFree(v[1..]);
      assert v[0] in v;
    }
  }

  lemma {:induction false} EscapeIdentity(v: string)
    requires EscapeFree(v)
    ensures Escape(v) == v
  {
    if v != "" {
      assert v[0] in v;
      EscapeIdentity(v[1..]);
    }
  }

  lemma {:induction false} Uint16Snoc(s: string, d: char, v: u16)
    ensures Uint16From(s + [d], v) == match Uint16From(s, v) case Err => Err case Ok(w) => Uint16From([d], w)
  {
    if s == "" {
      assert s + [d] == [d];
    } else {
      assert (s + [d])[1..] == s[1..] + [d];
      if '0' <= s[0] <= '9' {
        var w: nat := v as int * 10 + (s[0] as int - '0' as int);
        if w <= 0xFFFF {
          Uint16Snoc(s[1..], d, w);
        }
      }
    }
  }

  lemma {:induction false} Uint16OfDecimal(n: u16)
    ensures Uint16From(Decimal(n), 0) == Ok(n)
  {
    if n >= 10 {
      Uint16OfDecimal(n / 10);
      Uint16Snoc(Decimal(n / 10), Decimal(n % 10)[0], 0);
      assert Decimal(n % 10) == [Decimal(n % 10)[0]];
    }
  }

  lemma TrimSpaceIdentity(s: string)
    requires s != "" && !Space(s[0]) && !Space(s[|s| - 1])
    ensures TrimSpace(s) == s
  {
  }

  /** A token before a blank or the end is read back whole. */
  lemma NextTokenOf(tok: string, rest: string)
    requires Token(tok) && (rest == "" || Blank(rest[0]))
    ensures NextToken(tok + rest) == (tok, rest)
  {
    var s := tok + rest;
    assert forall i | 0 <= i < |tok| :: s[i] == tok[i] && tok[i] in tok;
    FindAt(s, Blank, |tok|);
    assert s[..|tok|] == tok && s[|tok|..] == rest;
  }

  lemma KeyEndsAt(key: string, tail: string)
    requires KeyToken(key) && (tail == "" || Delimiter(tail[0]))
    ensures Find(key + tail, Delimiter) == |key| && !Blank(key[0]) && (key + tail)[..|key|] == key
  {
    var s := key + tail;
    assert forall i | 0 <= i < |key| :: s[i] == key[i] && key[i] in key;
    FindAt(s, Delimiter, |key|);
  }

  lemma QuoteEndsAt(e: string, tail: string)
    requires '\"' !in e
    ensures Find(e + "\"" + tail, IsQuote) == |e|
  {
    var s := e + "\"" + tail;
    assert forall i | 0 <= i < |e| :: s[i] == e[i] && e[i] in e;
    FindAt(s, IsQuote, |e|);
  }

  lemma BareParamOf(key: string, tail: string)
    requires KeyToken(key) && (tail == "" || Blank(tail[0]))
    ensures key + tail != "" && !Blank((key + tail)[0])
    ensures NextParam(key + tail) == Ok(Scanned(Param(key, ""), tail))
  {
    hide Find, KeyToken;
    var s := key + tail;
    KeyTokenNonempty(key);
    KeyEndsAt(key, tail);
    assert s[|key|..] == tail;
    if tail == "" {
      assert s == key;
    }
  }

  lemma QuotedParamOf(key: string, e: string, tail: string)
    requires KeyToken(key) && '\"' !in e
    ensures var s := key + ("=" + ("\"" + (e + "\"" + tail)));
            !Blank(s[0]) && NextParam(s) == Ok(Scanned(Param(key, e), tail))
  {
    hide Find, KeyToken;
    var rem := "\"" + (e + "\"" + tail);
    var s := key + ("=" + rem);
    KeyTokenNonempty(key);
    KeyEndsAt(key, "=" + rem);
    assert s[|key| + 1..] == rem;
    assert rem[1..] == e + "\"" + tail;
    QuoteEndsAt(e, tail);
    assert rem[1..1 + |e|] == e;
    assert rem[|e| + 2..] == tail;
  }

  lemma BareValueOf(key: string, tok: string, tail: string)
    requires KeyToken(key) && Token(tok) && tok[0] != '\"' && (tail == "" || Blank(tail[0]))
    ensures var s := key + ("=" + (tok + tail));
            !Blank(s[0]) && NextParam(s) == Ok(Scanned(Param(key, tok), tail))
  {
    hide Find, KeyToken, Token, NextToken;
    var rem := tok + tail;
    var s := key + ("=" + rem);
    KeyTokenNonempty(key);
    KeyEndsAt(key, "=" + rem);
    assert s[|key| + 1..] == rem;
    NextTokenOf(tok, tail);
  }

  lemma NextParamOf(p: Param, tail: string)
    requires KeyToken(p.key) && QuoteFree(p.value) && (tail == "" || Blank(tail[0]))
    ensures var s := PrintParam(p)[1..] + tail;
            s != "" && !Blank(s[0])
            && NextParam(s) == Ok(Scanned(Param(p.key, Escape(p.value)), tail))
  {
    hide Escape, NextParam, KeyToken, QuoteFree, Blank;
    var s := PrintParam(p)[1..] + tail;
    EscapeQuoteFree(p.value);
    if p.value == "" {
      assert s == p.key + tail;
      BareParamOf(p.key, tail);
    } else {
      var e := Escape(p.value);
      QuoteFreeHasNoQuote(e);
      assert s == p.key + ("=" + ("\"" + (e + "\"" + tail)));
      QuotedParamOf(p.key, e, tail);
    }
  }

  lemma KeyTokenNonempty(key: string)
    requires KeyToken(key)
    ensures key != "" && !Space(key[0]) && !Space(key[|key| - 1])
  {
    assert key[0] in key && key[|key| - 1] in key;
  }

  lemma QuoteFreeHasNoQuote(v: string)
    requires QuoteFree(v)
    ensures '\"' !in v
  {
  }

  lemma ParamsUnfold(s: string, t: string, one: Scanned)
    requires TrimLeft(s, Blank) == t && t != "" && !Blank(t[0]) && NextParam(t) == Ok(one) && Params(one.rest).Ok?
    ensures Params(s) == Ok([one.param] + Params(one.rest).value)
  {
    hide NextParam, TrimLeft;
  }

  lemma ParamsStep(p: Param, tail: string)
    requires KeyToken(p.key) && QuoteFree(p.value) && (tail == "" || Blank(tail[0]))
    requires Params(tail).Ok?
    ensures Params(PrintParam(p) + tail) == Ok([Param(p.key, Escape(p.value))] + Params(tail).value)
  {
    hide NextParam, Escape, KeyToken, QuoteFree, PrintParam, TrimLeft, Params;
    NextParamOf(p, tail);
    PrintParamEnds(p);
    var t := PrintParam(p)[1..] + tail;
    assert PrintParam(p) + tail == " " + t;
    TrimOneSpace(t);
    ParamsUnfold(PrintParam(p) + tail, t, Scanned(Param(p.key, Escape(p.value)), tail));
  }

  lemma {:induction false} ParamsOfPrint(ps: seq<Param>)
    requires forall p | p in ps :: KeyToken(p.key) && QuoteFree(p.value)
    ensures Params(PrintParams(ps)) == Ok(EscapeParams(ps))
    ensures PrintParams(ps) == "" || (PrintParams(ps)[0] == ' ' && !Space(PrintParams(ps)[|PrintParams(ps)| - 1]))
  {
    hide Params, Escape, KeyToken, QuoteFree, PrintParam;
    if ps == [] {
      NoParams();
    } else {
      ParamsOfPrint(ps[1..]);
      PrintParamEnds(ps[0]);
      ParamsStep(ps[0], PrintParams(ps[1..]));
    }
  }

  lemma NoParams()
    ensures Params("") == Ok([])
  {
  }

  lemma PrintParamEnds(p: Param)
    requires KeyToken(p.key)
    ensures PrintParam(p) != "" && PrintParam(p)[0] == ' ' && !Space(PrintParam(p)[|PrintParam(p)| - 1])
  {
    KeyTokenNonempty(p.key);
  }

  lemma TrimOneSpace(t: string)
    requires t == "" || !Blank(t[0])
    ensures TrimLeft(" " + t, Blank) == t
  {
    assert (" " + t)[1..] == t;
  }

  /** The two leading tokens of a printed record. */
  lemma HeadOfPrint(pri: string, target: string, tail: string)
    requires Token(pri) && Token(target)
    requires tail == "" || (tail[0] == ' ' && !Space(tail[|tail| - 1]))
    ensures var text := pri + (" " + (target + tail));
            && NextToken(TrimSpace(text)) == (pri, " " + (target + tail))
            && NextToken(TrimLeft(" " + (target + tail), Blank)) == (target, tail)
  {
    hide NextToken, TrimLeft, TrimSpace;
    var text := pri + (" " + (target + tail));
    assert pri[0] in pri && target[|target| - 1] in target && target[0] in target;
    assert text[|text| - 1] == if tail == "" then target[|target| - 1] else tail[|tail| - 1];
    TrimSpaceIdentity(text);
    NextTokenOf(pri, " " + (target + tail));
    TrimOneSpace(target + tail);
    NextTokenOf(target, tail);
  }

  /** The general law: printing and re-parsing escapes every value once more and changes nothing else. */
  lemma ParsePrinted(r: Record)
    requires TokensWellFormed(r) && ValuesQuoteFree(r)
    ensures ParseText(Print(r)) == Ok(EscapeValues(r))
  {
    hide Params, PrintParams, Uint16From, NextToken, TrimLeft, TrimSpace, Decimal;
    var tail := if r.IsAliasMode() then "" else PrintParams(r.params);
    ParamsOfPrint(r.params);
    HeadOfPrint(Decimal(r.priority), r.target, tail);
    Uint16OfDecimal(r.priority);
  }

  lemma {:induction false} EscapeParamsIdentity(ps: seq<Param>)
    requires forall p | p in ps :: EscapeFree(p.value)
    ensures EscapeParams(ps) == ps
  {
    if ps != [] {
      EscapeIdentity(ps[0].value);
      EscapeParamsIdentity(ps[1..]);
    }
  }

  /** Text round trip: a clean record is read back exactly. */
  lemma TextRoundTrip(r: Record)
    requires Clean(r)
    ensures ParseText(Print(r)) == Ok(r)
  {
    EscapeParamsIdentity(r.params);
    ParsePrinted(r);
  }

  // ---------------------------------------------------------------- parse, then print

  lemma {:induction false} ParamsWellFormed(s: string)
    requires InAlphabet(s) && Params(s).Ok?
    ensures forall p | p in Params(s).value :: KeyToken(p.key) && InAlphabet(p.value)
    decreases |s|
  {
    var t := TrimLeft(s, Blank);
    if t != "" {
      var one := NextParam(t).value;
      assert InAlphabet(t);
      NextParamWellFormed(t);
      ParamsWellFormed(one.rest);
    }
  }

  lemma NextParamWellFormed(s: string)
    requires InAlphabet(s) && s != "" && !Blank(s[0]) && NextParam(s).Ok?
    ensures var one := NextParam(s).value; KeyToken(one.param.key) && InAlphabet(one.param.value) && InAlphabet(one.rest)
  {
    var eq := Find(s, Delimiter);
    assert forall i | 0 <= i < eq :: s[i] in s && !Delimiter(s[i]);
    assert KeyToken(s[..eq]) || eq == 0;
  }

  lemma NextTokenInAlphabet(s: string)
    requires InAlphabet(s)
    ensures var (tok, rest) := NextToken(s);
            InAlphabet(rest) && (tok != "" ==> Token(tok))
  {
    var (tok, rest) := NextToken(s);
    assert forall i | 0 <= i < |tok| :: tok[i] == s[i] && s[i] in s && !Blank(s[i]);
  }

  lemma TrimmedInAlphabet(s: string)
    requires InAlphabet(s)
    ensures InAlphabet(TrimSpace(s)) && InAlphabet(TrimLeft(s, Blank))
  {
  }

  /** Whatever Parse accepts has well-formed tokens. */
  lemma ParsedIsWellFormed(text: string)
    requires InAlphabet(text) && ParseText(text).Ok?
    ensures TokensWellFormed(ParseText(text).value)
    ensures forall p | p in ParseText(text).value.params :: InAlphabet(p.value)
  {
    hide Params, Uint16, TrimSpace, TrimLeft, NextToken;
    TrimmedInAlphabet(text);
    var (pri, rest) := NextToken(TrimSpace(text));
    NextTokenInAlphabet(TrimSpace(text));
    TrimmedInAlphabet(rest);
    var (target, tail) := NextToken(TrimLeft(rest, Blank));
    NextTokenInAlphabet(TrimLeft(rest, Blank));
    if Params(tail).Ok? {
      ParamsWellFormed(tail);
    }
  }

  lemma EscapeCons(c: char, v: string)
    ensures Escape([c] + v) == EscapeChar(c) + Escape(v)
  {
    hide EscapeChar;
    assert ([c] + v)[1..] == v;
  }

  lemma {:induction false} EscapeConcat(a: string, b: string)
    ensures Escape(a + b) == Escape(a) + Escape(b)
  {
    if a == "" {
      assert a + b == b;
    } else {
      hide Escape, EscapeChar;
      var rest := a[1..];
      EscapeConcat(rest, b);
      HeadAndRest(a, b);
      EscapeCons(a[0], rest + b);
      EscapeCons(a[0], rest);
      Associates(EscapeChar(a[0]), Escape(rest), Escape(b));
    }
  }

  /** A value with a quote, cut at its first one. */
  lemma CutAtQuote(v: string) returns (a: string, b: string)
    requires InAlphabet(v) && '\"' in v
    ensures v == a + ("\"" + b) && QuoteFree(a) && Escape(v) == Escape(a) + ("\\\"" + Escape(b))
  {
    var k := Find(v, IsQuote);
    assert k < |v| by {
      var i :| 0 <= i < |v| && v[i] == '\"';
    }
    a, b := v[..k], v[k + 1..];
    assert forall i | 0 <= i < |a| :: a[i] == v[i] && !IsQuote(v[i]) && v[i] in v;
    assert v == a + ("\"" + b);
    EscapeConcat(a, "\"" + b);
    assert ("\"" + b)[1..] == b;
  }

  /** The printer's escape does not help the parser: a value with a quote is read back short, ending in a backslash. */
  lemma CutValueDiffers(a: string, b: string)
    requires QuoteFree(a)
    ensures Escape(a) + "\\" != a + ("\"" + b) && Escape(a) + "\\" != Escape(a) + ("\\\"" + Escape(b))
  {
    EscapeQuoteFree(a);
    EscapeGrows(a);
    var short := Escape(a) + "\\";
    assert |short| == |Escape(a)| + 1 && |short| != |Escape(a) + ("\\\"" + Escape(b))|;
    assert '\"' !in short;
    assert (a + ("\"" + b))[|a|] == '\"';
  }

  lemma ParamsStart(s: string, t: string, one: Scanned)
    requires TrimLeft(s, Blank) == t && t != "" && !Blank(t[0]) && NextParam(t) == Ok(one)
    ensures Params(s).Ok? <==> Params(one.rest).Ok?
    ensures Params(s).Ok? ==> Params(s) == Ok([one.param] + Params(one.rest).value)
  {
    hide NextParam, TrimLeft;
  }

  lemma QuotedValueIsCut(p: Param, tail: string)
    requires KeyToken(p.key) && InAlphabet(p.value) && '\"' in p.value
    ensures var ps := Params(PrintParam(p) + tail);
            ps.Ok? ==> ps.value != [] && ps.value[0].value != p.value && ps.value[0].value != Escape(p.value)
  {
    hide NextParam, Escape, KeyToken, QuoteFree, TrimLeft, Params;
    var a, b := CutAtQuote(p.value);
    CutValueDiffers(a, b);
    EscapeQuoteFree(a);
    QuoteFreeHasNoQuote(Escape(a));
    var e := Escape(a) + "\\";
    var rest := Escape(b) + ("\"" + tail);
    var t := p.key + ("=" + ("\"" + (e + "\"" + rest)));
    QuotedParamOf(p.key, e, rest);
    assert PrintParam(p) + tail == " " + t;
    TrimOneSpace(t);
    ParamsStart(PrintParam(p) + tail, t, Scanned(Param(p.key, e), rest));
  }

  lemma HasQuote(v: string)
    requires InAlphabet(v) && !QuoteFree(v)
    ensures '\"' in v
  {
  }

  lemma PrintParamsFirst(ps: seq<Param>)
    requires ps != []
    ensures PrintParams(ps) == PrintParam(ps[0]) + PrintParams(ps[1..])
  {
    hide PrintParam;
  }

  lemma PrintedStart(p: Param)
    requires KeyToken(p.key)
    ensures PrintParam(p) != "" && PrintParam(p) == " " + PrintParam(p)[1..]
  {
    hide KeyToken;
    PrintParamEnds(p);
  }

  /** A first value without quotes is read back escaped, whatever follows. */
  lemma FirstReadsBack(ps: seq<Param>)
    requires ps != [] && (forall p | p in ps :: KeyToken(p.key)) && QuoteFree(ps[0].value)
    ensures var got, rest := Params(PrintParams(ps)), Params(PrintParams(ps[1..]));
            && (got.Ok? <==> rest.Ok?)
            && (got.Ok? ==> got.value == [Param(ps[0].key, Escape(ps[0].value))] + rest.value)
  {
    hide Params, Escape, KeyToken, PrintParam, PrintParams, NextParam, TrimLeft, QuoteFree;
    var p, tail := ps[0], PrintParams(ps[1..]);
    assert forall q | q in ps[1..] :: q in ps;
    PrintedTail(ps[1..]);
    PrintParamsFirst(ps);
    PrintedStart(p);
    NextParamOf(p, tail);
    var t := PrintParam(p)[1..] + tail;
    Associates(" ", PrintParam(p)[1..], tail);
    TrimOneSpace(t);
    ParamsStart(PrintParams(ps), t, Scanned(Param(p.key, Escape(p.value)), tail));
  }

  /** One value with a quote is enough: the parameters read back are neither the printed ones nor their escapes. */
  lemma {:induction false} QuotesAreCut(ps: seq<Param>)
    requires forall p | p in ps :: KeyToken(p.key) && InAlphabet(p.value)
    requires exists p | p in ps :: !QuoteFree(p.value)
    ensures Params(PrintParams(ps)) != Ok(ps) && Params(PrintParams(ps)) != Ok(EscapeParams(ps))
  {
    hide Params, Escape, KeyToken, PrintParam, PrintParams, EscapeParams, QuoteFree, InAlphabet;
    var p, tail := ps[0], PrintParams(ps[1..]);
    PrintParamsFirst(ps);
    EscapeParamsFirst(ps);
    if QuoteFree(p.value) {
      QuotesAreCut(ps[1..]);
      FirstReadsBack(ps);
      if Params(PrintParams(ps)).Ok? {
        var got := Params(PrintParams(ps)).value;
        assert got[1..] == Params(tail).value && ps[1..] != got[1..] && EscapeParams(ps)[1..] != got[1..];
      }
    } else {
      HasQuote(p.value);
      QuotedValueIsCut(p, tail);
    }
  }

  /** Nothing, or a blank and then a text without blanks at its ends. */
  predicate Tail(tail: string) {
    tail == "" || (|tail| >= 2 && tail[0] == ' ' && !Space(tail[1]) && !Space(tail[|tail| - 1]))
  }

  lemma {:induction false} PrintedTail(ps: seq<Param>)
    requires forall p | p in ps :: KeyToken(p.key)
    ensures Tail(PrintParams(ps))
  {
    hide Escape;
    if ps != [] {
      PrintedTail(ps[1..]);
      PrintParamEnds(ps[0]);
      KeyTokenNonempty(ps[0].key);
      assert PrintParam(ps[0])[1] == ps[0].key[0];
    }
  }

  /** A line made of a priority, a target and a parameter text. */
  lemma ParseOfParts(priority: u16, target: string, tail: string)
    requires Token(target) && Tail(tail)
    ensures ParseText(Decimal(priority) + (" " + (target + tail))) ==
            if priority == 0 then Ok(Record(0, target, []))
            else match Params(tail) case Err => Err case Ok(ps) => Ok(Record(priority, target, ps))
  {
    hide Params, Uint16From, NextToken, TrimLeft, TrimSpace, Decimal;
    HeadOfPrint(Decimal(priority), target, tail);
    Uint16OfDecimal(priority);
  }

  /** What a printed record's parameters are read back as decides what the record is read back as. */
  lemma ParseOfPrint(r: Record)
    requires TokensWellFormed(r)
    ensures ParseText(Print(r)) ==
            if r.IsAliasMode() then Ok(r)
            else match Params(PrintParams(r.params)) case Err => Err case Ok(ps) => Ok(r.(params := ps))
  {
    hide Params, PrintParams, ParseText, Decimal;
    PrintedTail(r.params);
    ParseOfParts(r.priority, r.target, if r.IsAliasMode() then "" else PrintParams(r.params));
  }

  /** Exactly when printing and re-parsing does no more than escape every value once: when no value holds a quote. */
  lemma QuotesDecide(r: Record)
    requires TokensWellFormed(r) && forall p | p in r.params :: InAlphabet(p.value)
    ensures ParseText(Print(r)) == Ok(EscapeValues(r)) <==> ValuesQuoteFree(r)
    ensures ParseText(Print(r)) == Ok(r) ==> ValuesQuoteFree(r)
  {
    hide ParseText, Print, Params, PrintParams, EscapeParams, KeyToken, QuoteFree;
    if ValuesQuoteFree(r) {
      ParsePrinted(r);
    } else {
      assert exists p | p in r.params :: !QuoteFree(p.value);
      ParseOfPrint(r);
      QuotesAreCut(r.params);
    }
  }

  /** An accepted text survives a print exactly when all its values are free of characters that %q escapes. */
  lemma ReparseIsIdentity(text: string)
    requires InAlphabet(text) && ParseText(text).Ok?
    ensures ParseText(Print(ParseText(text).value)) == ParseText(text) <==> Clean(ParseText(text).value)
  {
    hide ParseText, Print, EscapeParams;
    var r := ParseText(text).value;
    ParsedIsWellFormed(text);
    if Clean(r) {
      TextRoundTrip(r);
    } else {
      QuotesDecide(r);
      if ValuesQuoteFree(r) {
        ParsePrinted(r);
        EscapeParamsIdentityConverse(r.params);
      }
    }
  }

  lemma CharsOf(v: string)
    requires v != "" && QuoteFree(v)
    ensures QuoteFree([v[0]]) && QuoteFree(v[1..]) && v == [v[0]] + v[1..]
    ensures EscapeFree(v) <==> EscapeFree([v[0]]) && EscapeFree(v[1..])
  {
    assert v == [v[0]] + v[1..] && v[0] in v;
    assert forall c | c in v :: c == v[0] || c in v[1..];
  }

  lemma EscapeCharGrows(c: char)
    requires QuoteFree([c])
    ensures |EscapeChar(c)| >= 1 && (|EscapeChar(c)| == 1 <==> EscapeFree([c]))
  {
    assert c in [c];
  }

  lemma {:induction false} EscapeGrows(v: string)
    requires QuoteFree(v)
    ensures |Escape(v)| >= |v|
    ensures |Escape(v)| == |v| <==> EscapeFree(v)
  {
    if v != "" {
      hide Escape, EscapeFree, QuoteFree, EscapeChar;
      CharsOf(v);
      EscapeGrows(v[1..]);
      EscapeCharGrows(v[0]);
      EscapeCons(v[0], v[1..]);
    }
  }

  lemma EscapeParamsFirst(ps: seq<Param>)
    requires ps != []
    ensures var es := EscapeParams(ps);
            es != [] && es[0] == Param(ps[0].key, Escape(ps[0].value)) && es[1..] == EscapeParams(ps[1..])
  {
    hide Escape;
  }

  lemma {:induction false} EscapeParamsIdentityConverse(ps: seq<Param>)
    requires forall p | p in ps :: QuoteFree(p.value)
    requires exists p | p in ps :: !EscapeFree(p.value)
    ensures EscapeParams(ps) != ps
  {
    hide EscapeFree, QuoteFree, Escape, EscapeParams;
    var x, rest, es := ps[0], ps[1..], EscapeParams(ps);
    EscapeParamsFirst(ps);
    EscapeGrows(x.value);
    if EscapeFree(x.value) {
      var p :| p in ps && !EscapeFree(p.value);
      assert p in rest;
      EscapeParamsIdentityConverse(rest);
      assert es[1..] != rest;
    } else {
      assert |es[0].value| != |x.value|;
    }
  }
}
