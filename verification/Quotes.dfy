/** Why published records must not hold quotes in bare values: the parser accepts such a value, the printer escapes its
    quotes, and the parser, which knows no escapes, then ends the value at the first of them. */
module Quotes {
  import opened Prelude
  import opened EchConfig
  import Base64
  import opened Svcb
  import SvcParams
  import opened HttpsRecords

  /** The value of y mentions another list; the bare value of x holds a quote. */
  function Example(other: string): string {
    "1 . x=a\"k= y=\"z ech=" + other + " w\""
  }

  function ExampleRecord(other: string): Record {
    Record(1, ".", [Param("x", "a\"k="), Param("y", "z ech=" + other + " w")])
  }

  predicate Word(s: string) {
    Token(s) && '\"' !in s && '\\' !in s
  }

  // ---------------------------------------------------------------- one parameter at a time

  function Quoted(key: string, e: string, rest: string): string {
    key + ("=" + ("\"" + (e + "\"" + rest)))
  }

  function Bare(key: string, tok: string, rest: string): string {
    key + ("=" + (tok + rest))
  }

  /** ps is what t is read as, also after a blank. */
  predicate ReadsAs(t: string, ps: seq<Param>) {
    Params(t) == Ok(ps) && Params(" " + t) == Ok(ps)
  }

  lemma Prepend(t: string, param: Param, rest: string, ps: seq<Param>)
    requires t != "" && !Blank(t[0]) && NextParam(t) == Ok(Scanned(param, rest)) && Params(rest) == Ok(ps)
    ensures ReadsAs(t, [param] + ps)
  {
    hide NextParam, TrimLeft;
    TrimOneSpace(t);
    NoTrim(t);
    ParamsStart(t, t, Scanned(param, rest));
    ParamsStart(" " + t, t, Scanned(param, rest));
  }

  lemma NoTrim(t: string)
    requires t != "" && !Blank(t[0])
    ensures TrimLeft(t, Blank) == t
  {
  }

  lemma QuotedFirst(key: string, e: string, rest: string, ps: seq<Param>)
    requires KeyToken(key) && '\"' !in e && Params(rest) == Ok(ps)
    ensures ReadsAs(Quoted(key, e, rest), [Param(key, e)] + ps)
  {
    hide NextParam, Params, KeyToken, ReadsAs;
    QuotedParamOf(key, e, rest);
    Prepend(Quoted(key, e, rest), Param(key, e), rest, ps);
  }

  lemma BareFirst(key: string, tok: string, rest: string, ps: seq<Param>)
    requires KeyToken(key) && Token(tok) && tok[0] != '\"' && ReadsAs(rest, ps)
    ensures ReadsAs(Bare(key, tok, " " + rest), [Param(key, tok)] + ps)
  {
    hide NextParam, Params, KeyToken, Token;
    BareValueOf(key, tok, " " + rest);
    Prepend(Bare(key, tok, " " + rest), Param(key, tok), " " + rest, ps);
  }

  lemma KeyFirst(key: string, rest: string, ps: seq<Param>)
    requires KeyToken(key) && ReadsAs(rest, ps)
    ensures ReadsAs(key + (" " + rest), [Param(key, "")] + ps)
  {
    hide NextParam, Params, KeyToken;
    BareParamOf(key, " " + rest);
    Prepend(key + (" " + rest), Param(key, ""), " " + rest, ps);
  }

  // ---------------------------------------------------------------- the example

  function ExampleTail(y: string): string {
    Bare("x", "a\"k=", " " + Quoted("y", y, ""))
  }

  lemma ExampleParses(other: string)
    requires Word(other)
    ensures ParseText(Example(other)) == Ok(ExampleRecord(other))
  {
    hide Params, ParseText, Decimal, Quoted, Bare;
    var y := "z ech=" + other + " w";
    NoParams();
    QuotedFirst("y", y, "", []);
    BareFirst("x", "a\"k=", Quoted("y", y, ""), [Param("y", y)] + []);
    assert [Param("x", "a\"k=")] + ([Param("y", y)] + []) == ExampleRecord(other).params;
    ExampleText(other, y);
    ParseOfParts(1, ".", " " + ExampleTail(y));
  }

  lemma ExampleText(other: string, y: string)
    requires y == "z ech=" + other + " w"
    ensures Example(other) == Decimal(1) + (" " + ("." + (" " + ExampleTail(y)))) && Svcb.Tail(" " + ExampleTail(y))
  {
    hide Decimal, ExampleTail, Example, Svcb.Tail;
    OneDigit();
    ExampleEnds(y, ExampleTail(y));
    TailIsFlat(y);
    FlatTail(other);
    ExampleIsFlat(other);
  }

  lemma TailIsFlat(y: string)
    ensures ExampleTail(y) == "x=a\"k= y=\"" + (y + "\"")
  {
    hide Quoted;
    YIsFlat(y);
  }

  lemma YIsFlat(y: string)
    ensures Quoted("y", y, "") == "y=\"" + (y + "\"")
  {
  }

  lemma FlatTail(other: string)
    ensures "x=a\"k= y=\"" + (("z ech=" + other + " w") + "\"") == "x=a\"k= y=\"z ech=" + (other + " w\"")
  {
  }

  lemma ExampleIsFlat(other: string)
    ensures Example(other) == "1" + (" " + ("." + (" " + ("x=a\"k= y=\"z ech=" + (other + " w\"")))))
  {
  }

  lemma OneDigit()
    ensures Decimal(1) == "1"
  {
  }

  lemma ExampleEnds(y: string, t: string)
    requires t == ExampleTail(y)
    ensures Svcb.Tail(" " + t)
  {
    assert t[0] == 'x' && t[|t| - 1] == '\"';
  }

  function Misread(other: string, value: string): seq<Param> {
    [Param("x", "a\\")] + ([Param("k", " y=")] + ([Param("z", "")] + ([Param(ECH, other)]
      + ([Param("w\"", "")] + ([Param(ECH, value)] + [])))))
  }

  function MisreadText(other: string, value: string): string {
    Quoted("x", "a\\", Quoted("k", " y=", "z" + (" " + Bare(ECH, other, " " + ("w\"" + (" " + Quoted(ECH, value, "")))))))
  }

  /** What the printed parameters are read back as. */
  lemma ExampleMisread(other: string, value: string)
    requires Word(other) && Word(value)
    ensures Params(PrintParams(ExampleRecord(other).params + [Param(ECH, value)])) == Ok(Misread(other, value))
  {
    hide Params, Escape, PrintParams, Quoted, Bare;
    var r6, p6 := Quoted(ECH, value, ""), [Param(ECH, value)] + [];
    NoParams();
    QuotedFirst(ECH, value, "", []);
    var r5, p5 := "w\"" + (" " + r6), [Param("w\"", "")] + p6;
    KeyFirst("w\"", r6, p6);
    assert other[0] in other;
    var r4, p4 := Bare(ECH, other, " " + r5), [Param(ECH, other)] + p5;
    BareFirst(ECH, other, r5, p5);
    var r3, p3 := "z" + (" " + r4), [Param("z", "")] + p4;
    KeyFirst("z", r4, p4);
    QuotedFirst("k", " y=", r3, p3);
    QuotedFirst("x", "a\\", Quoted("k", " y=", r3), [Param("k", " y=")] + p3);
    ExamplePrinted(other, value);
  }

  lemma ExamplePrinted(other: string, value: string)
    requires Word(other) && Word(value)
    ensures PrintParams(ExampleRecord(other).params + [Param(ECH, value)]) == " " + MisreadText(other, value)
  {
    hide Word, PrintParam, PrintParams, MisreadText;
    var x, y, e := Param("x", "a\"k="), Param("y", "z ech=" + other + " w"), Param(ECH, value);
    PrintThree(x, y, e);
    assert ExampleRecord(other).params + [e] == [x, y, e];
    ExamplePieces(other, value);
    Regrouped(other, value);
  }

  function Flat(other: string, value: string): string {
    " x=\"a\\\"k=\" y=\"z ech=" + (other + (" w\" ech=\"" + (value + "\"")))
  }

  lemma Regrouped(other: string, value: string)
    ensures " x=\"a\\\"k=\"" + ((" y=\"" + ("z ech=" + other + " w") + "\"") + (" ech=\"" + value + "\""))
         == " " + MisreadText(other, value)
  {
    hide Flat, MisreadText;
    PrintedIsFlat(other, value);
    MisreadIsFlat(other, value);
  }

  lemma PrintedIsFlat(other: string, value: string)
    ensures " x=\"a\\\"k=\"" + ((" y=\"" + ("z ech=" + other + " w") + "\"") + (" ech=\"" + value + "\""))
         == Flat(other, value)
  {
    var tail := value + "\"";
    assert " ech=\"" + value + "\"" == " ech=\"" + tail;
    assert (" y=\"" + ("z ech=" + other + " w") + "\"") + (" ech=\"" + tail)
        == " y=\"z ech=" + (other + (" w\" ech=\"" + tail));
  }

  lemma MisreadIsFlat(other: string, value: string)
    ensures " " + MisreadText(other, value) == Flat(other, value)
  {
    hide Quoted, Bare;
    var last, tail := Quoted(ECH, value, ""), value + "\"";
    LastIsFlat(value);
    var word := Bare(ECH, other, " " + ("w\"" + (" " + last)));
    WordIsFlat(other, tail, last);
    OuterIsFlat(word, other + (" w\" ech=\"" + tail));
  }

  lemma LastIsFlat(value: string)
    ensures Quoted(ECH, value, "") == "ech=\"" + (value + "\"")
  {
  }

  lemma WordIsFlat(other: string, tail: string, last: string)
    requires last == "ech=\"" + tail
    ensures Bare(ECH, other, " " + ("w\"" + (" " + last))) == "ech=" + (other + (" w\" ech=\"" + tail))
  {
    assert " " + ("w\"" + (" " + last)) == " w\" ech=\"" + tail;
  }

  lemma OuterIsFlat(word: string, rest: string)
    requires word == "ech=" + rest
    ensures " " + Quoted("x", "a\\", Quoted("k", " y=", "z" + (" " + word))) == " x=\"a\\\"k=\" y=\"z ech=" + rest
  {
    assert "z" + (" " + word) == "z ech=" + rest;
    KIsFlat("z ech=" + rest);
    XIsFlat("k=\" y=\"" + ("z ech=" + rest));
  }

  lemma KIsFlat(rest: string)
    ensures Quoted("k", " y=", rest) == "k=\" y=\"" + rest
  {
  }

  lemma XIsFlat(rest: string)
    ensures Quoted("x", "a\\", rest) == "x=\"a\\\"" + rest
  {
  }

  lemma PrintThree(x: Param, y: Param, e: Param)
    ensures PrintParams([x, y, e]) == PrintParam(x) + (PrintParam(y) + PrintParam(e))
  {
    hide PrintParam;
    assert [x, y, e][1..] == [y, e] && [y, e][1..] == [e] && [e][1..] == [];
    assert PrintParams([]) == "" && PrintParams([e]) == PrintParam(e) + "";
    assert PrintParams([y, e]) == PrintParam(y) + PrintParam(e);
  }

  lemma ExamplePieces(other: string, value: string)
    requires Word(other) && Word(value)
    ensures PrintParam(Param("x", "a\"k=")) == " x=\"a\\\"k=\""
    ensures PrintParam(Param("y", "z ech=" + other + " w")) == " y=\"" + ("z ech=" + other + " w") + "\""
    ensures PrintParam(Param(ECH, value)) == " ech=\"" + value + "\""
  {
    hide Escape, EscapeFree, Word, PrintParam;
    FirstPiece();
    WordIsEscapeFree(other);
    WordIsEscapeFree(value);
    BlanksAreEscapeFree();
    JoinedEscapeFree("z ech=", other);
    JoinedEscapeFree("z ech=" + other, " w");
    PlainPiece("y", "z ech=" + other + " w");
    PlainPiece(ECH, value);
    assert " " + "y" + "=\"" == " y=\"" && " " + ECH + "=\"" == " ech=\"";
  }

  lemma FirstPiece()
    ensures PrintParam(Param("x", "a\"k=")) == " x=\"a\\\"k=\""
  {
    hide Escape;
    EscapedExample();
  }

  lemma PlainPiece(key: string, v: string)
    requires EscapeFree(v) && v != ""
    ensures PrintParam(Param(key, v)) == " " + key + "=\"" + v + "\""
  {
    hide Escape, EscapeFree;
    EscapeIdentity(v);
  }

  lemma WordIsEscapeFree(w: string)
    requires Word(w)
    ensures EscapeFree(w) && w != ""
  {
  }

  lemma BlanksAreEscapeFree()
    ensures EscapeFree("z ech=") && EscapeFree(" w")
  {
  }

  lemma JoinedEscapeFree(a: string, b: string)
    requires EscapeFree(a) && EscapeFree(b)
    ensures EscapeFree(a + b)
  {
  }

  lemma EscapedExample()
    ensures Escape("a\"k=") == "a\\\"k="
  {
    hide Escape;
    var k := "k=";
    assert "a\"k=" == ['a'] + (['\"'] + k);
    EscapeCons('a', ['\"'] + k);
    EscapeCons('\"', k);
    EscapeIdentity(k);
    assert EscapeChar('a') + (EscapeChar('\"') + k) == "a\\\"k=";
  }

  /** Every publish of such a record, which a client reads no config from, makes clients read the list that its other
      value mentions, instead of the published one. */
  lemma QuoteMisleads(others: seq<Config>, configs: seq<Config>)
    requires ListEncodable(List(others, [])) && ListEncodable(List(configs, []))
    ensures var text := Example(Base64.Encode(ListBytes(List(others, []))));
            var out := Patched(text, Base64.Encode(ListBytes(List(configs, []))));
            Advertised(text) == [] && !QuotelessText(text) && out.Ok? && Advertised(out.value) == others
  {
    hide ParseText, Print, Base64.Encode, Base64.Decode, DecodeList, ListBytes, ListEncodable, Example, Word, Misread;
    hide ExampleRecord;
    var other := Base64.Encode(ListBytes(List(others, [])));
    var value := Base64.Encode(ListBytes(List(configs, [])));
    EncodedIsWord(List(others, []));
    EncodedIsWord(List(configs, []));
    ExampleParses(other);
    ExampleShape(other);
    PublishedExample(other, value);
    Base64.RoundTrip(ListBytes(List(others, [])));
    ListRoundTrip(List(others, []));
  }

  lemma ExampleShape(other: string)
    ensures var r := ExampleRecord(other);
            SvcParams.GetEch(r).None? && !ValuesQuoteFree(r) && !r.IsAliasMode()
  {
    var r := ExampleRecord(other);
    ParamOrder(r.params, ECH, 2);
    assert r.params[0] in r.params && '\"' in r.params[0].value by { assert r.params[0].value[1] == '\"'; }
  }

  lemma PublishedExample(other: string, value: string)
    requires Word(other) && Word(value)
    ensures var got := ParseText(Print(SvcParams.WithEch(ExampleRecord(other), value)));
            got.Ok? && SvcParams.GetEch(got.value) == Some(other)
  {
    hide ParseText, Print, Params, PrintParams, TokensWellFormed, ExampleRecord, Misread, Word;
    var p := SvcParams.WithEch(ExampleRecord(other), value);
    ExamplePatched(other, value);
    ExampleMisread(other, value);
    ParseOfPrint(p);
    MisreadEch(other, value);
  }

  lemma ExamplePatched(other: string, value: string)
    ensures var p := SvcParams.WithEch(ExampleRecord(other), value);
            p.params == ExampleRecord(other).params + [Param(ECH, value)] && TokensWellFormed(p) && !p.IsAliasMode()
  {
    ParamOrder(ExampleRecord(other).params, ECH, 2);
  }

  lemma MisreadEch(other: string, value: string)
    ensures var ps := Misread(other, value);
            SvcParams.ParamAt(ps, ECH) == 3 < |ps| && ps[3].value == other
  {
    ParamOrder(Misread(other, value), ECH, 3);
  }

  // ---------------------------------------------------------------- quotes behind the first ech

  /** Up to the first value with a quote, the printed parameters are read back as they should, if they can be read. */
  lemma {:induction false} PrefixReadsBack(ps: seq<Param>, k: nat)
    requires (forall p | p in ps :: KeyToken(p.key)) && k < |ps| && forall i | 0 <= i <= k :: QuoteFree(ps[i].value)
    requires Params(PrintParams(ps)).Ok?
    ensures var got := Params(PrintParams(ps)).value;
            |got| > k && forall i | 0 <= i <= k :: got[i] == Param(ps[i].key, Escape(ps[i].value))
  {
    hide Params, PrintParams, Escape, KeyToken, QuoteFree;
    FirstReadsBack(ps);
    if k > 0 {
      var rest := ps[1..];
      assert forall p | p in rest :: p in ps;
      assert forall i | 0 <= i < k :: rest[i] == ps[i + 1];
      PrefixReadsBack(rest, k - 1);
      var got := Params(PrintParams(ps)).value;
      forall i | 1 <= i <= k ensures got[i] == Param(ps[i].key, Escape(ps[i].value)) {
        assert got[i] == Params(PrintParams(rest)).value[i - 1] && rest[i - 1] == ps[i];
      }
    }
  }

  /** Quotes behind the first ech do no such harm: the record carries the published value, or cannot be read at all. */
  lemma QuotesBehindEch(r: Record, value: string)
    requires !r.IsAliasMode() && TokensWellFormed(r) && EscapeFree(value)
    requires forall i | 0 <= i < SvcParams.ParamAt(r.params, ECH) :: QuoteFree(r.params[i].value)
    ensures var back := ParseText(Print(SvcParams.WithEch(r, value)));
            back.Ok? ==> SvcParams.GetEch(back.value) == Some(value)
  {
    hide ParseText, Print, Params, PrintParams, Escape, KeyToken, QuoteFree, Token;
    var k := SvcParams.ParamAt(r.params, ECH);
    var p := SvcParams.WithEch(r, value);
    EchTokens(r, value);
    EscapeIsQuoteFree(value);
    ParseOfPrint(p);
    if ParseText(Print(p)).Ok? {
      assert forall i | 0 <= i <= k :: QuoteFree(p.params[i].value);
      PrefixReadsBack(p.params, k);
      EscapeIdentity(value);
      ParamOrder(Params(PrintParams(p.params)).value, ECH, k);
    }
  }

  lemma EscapeIsQuoteFree(v: string)
    requires EscapeFree(v)
    ensures QuoteFree(v)
  {
  }

  lemma EchTokens(r: Record, value: string)
    requires TokensWellFormed(r) && !r.IsAliasMode()
    ensures TokensWellFormed(SvcParams.WithEch(r, value))
  {
  }

  /** A publish of such a record offers clients the published configs or none, and never others. */
  lemma QuotesBehindEchAdvertise(text: string, configs: seq<Config>)
    requires ListEncodable(List(configs, [])) && IsService(text) && TokensWellFormed(ParseText(text).value)
    requires var ps := ParseText(text).value.params;
             forall i | 0 <= i < SvcParams.ParamAt(ps, ECH) :: QuoteFree(ps[i].value)
    ensures var out := Patched(text, Base64.Encode(ListBytes(List(configs, []))));
            out.Ok? && (Advertised(out.value) == [] || Advertised(out.value) == configs)
  {
    hide ParseText, Print, Base64.Encode, Base64.Decode, DecodeList, ListBytes, ListEncodable, SvcParams.WithEch;
    hide SvcParams.GetEch, SvcParams.ParamAt, QuoteFree, EscapeFree, TokensWellFormed;
    var bytes := ListBytes(List(configs, []));
    SvcParams.EncodedIsEscapeFree(bytes);
    QuotesBehindEch(ParseText(text).value, Base64.Encode(bytes));
    Base64.RoundTrip(bytes);
    ListRoundTrip(List(configs, []));
  }

  lemma ParamOrder(ps: seq<Param>, key: string, k: nat)
    requires k <= |ps| && (forall i | 0 <= i < k :: ps[i].key != key) && (k < |ps| ==> ps[k].key == key)
    ensures SvcParams.ParamAt(ps, key) == k
  {
    SvcParams.ParamAtIs(ps, key, k);
  }

  lemma EncodedIsWord(l: List)
    requires ListEncodable(l)
    ensures Word(Base64.Encode(ListBytes(l)))
  {
    hide Base64.Encode, ListBytes;
    assert ListBytes(l) != [] by { ListIsNotEmpty(l); }
    var s := Base64.Encode(ListBytes(l));
    forall c | c in s ensures '!' <= c <= '~' && c != '\"' && c != '\\' {
      assert Base64.IsBase64Char(c);
    }
  }

  lemma ListIsNotEmpty(l: List)
    requires ListEncodable(l)
    ensures ListBytes(l) != []
  {
    hide RawBytes;
  }
}
