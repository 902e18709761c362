/** providers/cloudflare: the create-then-delete Put, one API call at a time, on the machine whose record set everybody
    sees. It meets the contract that the rotation relies on, Machine.Puts, as long as one page lists all records. */
module Cloudflare {
  import opened Prelude
  import Base64
  import Svcb
  import SvcbGrammar
  import SvcParams
  import opened HttpsRecords
  import opened Protocol
  import opened Machine
  import opened RotatorSteps

  /** The per_page of every listing. */
  const PAGE: nat := 100

  // ---------------------------------------------------------------- records and their text

  datatype Data = Data(priority: u16, target: string, value: string)

  datatype Rec = Rec(id: nat, content: string, data: Option<Data>)

  function DataText(d: Data): string {
    var target := if d.target == "" then "." else d.target;
    var value := Svcb.TrimSpace(d.value);
    Svcb.Decimal(d.priority) + (" " + (target + if value == "" then "" else " " + value))
  }

  /** toRDATA. */
  function ToRdata(r: Rec): string {
    match r.data
    case Some(d) => DataText(d)
    case None => Svcb.TrimSpace(r.content)
  }

  /** splitRDATA. */
  function SplitRdata(line: string): Option<Data> {
    var s := Svcb.TrimSpace(line);
    var k := Svcb.Find(s, Svcb.Blank);
    if k == |s| then None
    else match Svcb.Uint16(Svcb.TrimSpace(s[..k]))
      case Err => None
      case Ok(priority) => Some(SplitTarget(priority, Svcb.TrimLeft(s[k..], Svcb.Blank)))
  }

  function SplitTarget(priority: u16, t: string): Data {
    var j := Svcb.Find(t, Svcb.Blank);
    if j == |t| then Data(priority, t, "")
    else Data(priority, t[..j], Svcb.TrimLeft(t[j..], Svcb.Blank))
  }

  /** The text that a written line is read back as. */
  function Stored(line: string): string {
    match SplitRdata(line)
    case None => line
    case Some(d) => DataText(d)
  }

  function StoredAll(lines: seq<string>): (r: seq<string>)
    ensures |r| == |lines| && forall i | 0 <= i < |r| :: r[i] == Stored(lines[i])
  {
    seq(|lines|, i requires 0 <= i < |lines| => Stored(lines[i]))
  }

  /** The parts of a line made of a priority, a target and a parameter text. */
  lemma SplitsAs(pri: string, n: u16, target: string, tail: string)
    requires Svcb.Token(pri) && Svcb.Uint16(pri) == Ok(n) && Svcb.Token(target) && Svcb.Tail(tail)
    ensures SplitRdata(pri + (" " + (target + tail))) == Some(Data(n, target, if tail == "" then "" else tail[1..]))
  {
    hide Svcb.Uint16, Svcb.TrimLeft, Svcb.TrimSpace, Svcb.Find, Svcb.NextToken, SplitTarget;
    var rest := " " + (target + tail);
    var line := pri + rest;
    Svcb.NextTokenOf(pri, rest);
    TokenEnds(pri);
    TokenEnds(target);
    Svcb.TrimSpaceIdentity(pri);
    LineIsTrimmed(pri, target, tail);
    SplitHead(line, pri, rest);
    assert line[..|pri|] == pri && line[|pri|..] == rest;
    Svcb.TrimOneSpace(target + tail);
    SplitsTarget(n, target, tail);
  }

  lemma TokenEnds(tok: string)
    requires Svcb.Token(tok)
    ensures !Svcb.Space(tok[0]) && !Svcb.Space(tok[|tok| - 1])
  {
    assert tok[0] in tok && tok[|tok| - 1] in tok;
  }

  lemma SplitsTarget(n: u16, target: string, tail: string)
    requires Svcb.Token(target) && Svcb.Tail(tail)
    ensures SplitTarget(n, target + tail) == Data(n, target, if tail == "" then "" else tail[1..])
  {
    hide Svcb.TrimLeft, Svcb.Find, Svcb.NextToken;
    if tail == "" {
      TargetEnds(target);
    } else {
      Svcb.NextTokenOf(target, tail);
      SplitHead(target + tail, target, tail);
      assert (target + tail)[..|target|] == target && (target + tail)[|target|..] == tail;
      assert tail == " " + tail[1..];
      Svcb.TrimOneSpace(tail[1..]);
    }
  }

  lemma TargetEnds(target: string)
    requires Svcb.Token(target)
    ensures target + "" == target && Svcb.Find(target, Svcb.Blank) == |target| && !Svcb.Blank(target[0])
  {
    assert forall i | 0 <= i < |target| :: target[i] in target;
    Svcb.FindAt(target, Svcb.Blank, |target|);
  }

  lemma JoinsAs(n: u16, target: string, tail: string)
    requires Svcb.Token(target) && Svcb.Tail(tail)
    ensures DataText(Data(n, target, if tail == "" then "" else tail[1..])) == Svcb.Decimal(n) + (" " + (target + tail))
  {
    hide Svcb.TrimSpace, Svcb.Decimal;
    TrimNothing();
    if tail != "" {
      Svcb.TrimSpaceIdentity(tail[1..]);
      assert " " + tail[1..] == tail;
    }
  }

  /** A printed record survives being taken apart, stored in pieces and put together again. */
  lemma PrintedIsStored(r: Svcb.Record)
    requires Svcb.TokensWellFormed(r)
    ensures SplitRdata(Svcb.Print(r)).Some? && Stored(Svcb.Print(r)) == Svcb.Print(r)
  {
    hide Svcb.Uint16From, Svcb.Decimal, Svcb.PrintParams, SplitRdata, DataText;
    var pri := Svcb.Decimal(r.priority);
    var tail := if r.IsAliasMode() then "" else Svcb.PrintParams(r.params);
    Svcb.PrintedTail(r.params);
    Svcb.Uint16OfDecimal(r.priority);
    SplitsAs(pri, r.priority, r.target, tail);
    JoinsAs(r.priority, r.target, tail);
  }

  lemma TrimNothing()
    ensures Svcb.TrimSpace("") == ""
  {
  }

  lemma LineIsTrimmed(pri: string, target: string, tail: string)
    requires Svcb.Token(pri) && Svcb.Token(target) && (tail == "" || !Svcb.Space(tail[|tail| - 1]))
    ensures Svcb.TrimSpace(pri + (" " + (target + tail))) == pri + (" " + (target + tail))
  {
    hide Svcb.TrimSpace;
    var line := pri + (" " + (target + tail));
    assert pri[0] in pri && target[|target| - 1] in target;
    assert line[|line| - 1] == if tail == "" then target[|target| - 1] else tail[|tail| - 1];
    Svcb.TrimSpaceIdentity(line);
  }

  lemma SplitHead(s: string, tok: string, rest: string)
    requires s == tok + rest && rest != "" && Svcb.NextToken(s) == (tok, rest)
    ensures Svcb.Find(s, Svcb.Blank) == |tok| < |s|
  {
    hide Svcb.Find;
    var k := Svcb.Find(s, Svcb.Blank);
    assert |s[..k]| == k;
  }

  /** What publishDNS prints is stored as it is, if the tokens it was read from are well formed. */
  lemma PublishedIsStored(texts: seq<string>, bytes: seq<byte>)
    requires WellFormedSet(texts) && PatchedAll(texts, Base64.Encode(bytes)).Ok?
    ensures var out := PatchedAll(texts, Base64.Encode(bytes)).value;
            StoredAll(out) == out && forall r | r in out :: SplitRdata(r).Some?
  {
    hide PatchedAll, Svcb.ParseText, Svcb.Print, Stored, SplitRdata, Base64.Encode, SvcParams.WithParam;
    var b64 := Base64.Encode(bytes);
    var out := PatchedAll(texts, b64).value;
    PatchedAllPointwise(texts, b64);
    forall i | 0 <= i < |out| ensures Stored(out[i]) == out[i] && SplitRdata(out[i]).Some? {
      assert texts[i] in texts;
      var r := Svcb.ParseText(texts[i]).value;
      WithEchTokens(r, b64);
      PrintedIsStored(if r.IsAliasMode() then r else SvcParams.WithEch(r, b64));
    }
  }

  lemma WithEchTokens(r: Svcb.Record, b64: string)
    requires Svcb.TokensWellFormed(r)
    ensures !r.IsAliasMode() ==> Svcb.TokensWellFormed(SvcParams.WithEch(r, b64))
  {
  }

  // ---------------------------------------------------------------- any line, any record

  /** A record that the API lists as plain content is that content without the white space around it, and means the same. */
  lemma ContentIsTrusted(id: nat, content: string) returns (lead: string, trail: string)
    ensures var text := ToRdata(Rec(id, content, None));
            && SvcbGrammar.WhiteSpace(lead) && SvcbGrammar.WhiteSpace(trail) && content == lead + (text + trail)
            && (text != "" ==> !Svcb.Space(text[0]) && !Svcb.Space(text[|text| - 1]))
            && Svcb.ParseText(text) == Svcb.ParseText(content)
  {
    hide Svcb.TrimSpace, Svcb.Space, SvcbGrammar.WhiteSpace;
    lead, trail := SvcbGrammar.SpaceTrimmed(content);
    TrimmedStart(content);
    var text := Svcb.TrimSpace(content);
    if text != "" { Svcb.TrimSpaceIdentity(text); } else { TrimNothing(); }
    SameTrimmed(text, content);
  }

  lemma TrimmedStart(s: string)
    ensures var t := Svcb.TrimSpace(s); t != "" ==> !Svcb.Space(t[0])
  {
    hide Svcb.TrimLeft, Svcb.TrimRight, Svcb.Space;
  }

  lemma SameTrimmed(a: string, b: string)
    requires Svcb.TrimSpace(a) == Svcb.TrimSpace(b)
    ensures Svcb.ParseText(a) == Svcb.ParseText(b)
  {
    hide Svcb.TrimSpace, Svcb.Params, Svcb.Uint16, Svcb.TrimLeft, Svcb.NextToken;
  }

  /** A structured record without a target means the owner name, and white space around its value means nothing. */
  lemma StructuredText(n: u16, target: string, lead: string, value: string, trail: string)
    requires SvcbGrammar.WhiteSpace(lead) && SvcbGrammar.WhiteSpace(trail) && value != ""
    requires !Svcb.Space(value[0]) && !Svcb.Space(value[|value| - 1])
    ensures var t := if target == "" then "." else target;
            && DataText(Data(n, target, lead + (value + trail))) == Svcb.Decimal(n) + (" " + (t + (" " + value)))
            && DataText(Data(n, target, lead)) == Svcb.Decimal(n) + (" " + t)
  {
    hide Svcb.TrimSpace, Svcb.Decimal, SvcbGrammar.WhiteSpace, Svcb.Space;
    SvcbGrammar.TrimsToCore(lead, value, trail);
    OnlyWhite(lead);
    var t := if target == "" then "." else target;
    assert t + "" == t;
  }

  lemma OnlyWhite(s: string)
    requires SvcbGrammar.WhiteSpace(s)
    ensures Svcb.TrimSpace(s) == ""
  {
    hide Svcb.TrimLeft, SvcbGrammar.WhiteSpace, SvcbGrammar.All, Svcb.Space;
    SvcbGrammar.AllSpace(s);
    SvcbGrammar.TrimFront(s, "", Svcb.Space);
    assert s + "" == s;
  }

  lemma SplitParts(line: string, n: u16, rest: string, target: string, tail: string)
    requires var (pri, behind) := Svcb.NextToken(Svcb.TrimSpace(line));
             behind == rest && rest != "" && Svcb.Uint16(Svcb.TrimSpace(pri)) == Ok(n)
    requires Svcb.NextToken(Svcb.TrimLeft(rest, Svcb.Blank)) == (target, tail)
    ensures SplitRdata(line) == Some(Data(n, target, Svcb.TrimLeft(tail, Svcb.Blank)))
  {
    hide Svcb.TrimSpace, Svcb.Find, Svcb.Uint16, Svcb.TrimLeft, SplitTarget;
    TargetParts(n, Svcb.TrimLeft(rest, Svcb.Blank), target, tail);
  }

  lemma TargetParts(n: u16, t: string, target: string, tail: string)
    requires Svcb.NextToken(t) == (target, tail)
    ensures SplitTarget(n, t) == Data(n, target, Svcb.TrimLeft(tail, Svcb.Blank))
  {
    hide Svcb.Find, Svcb.TrimLeft;
    SvcbGrammar.TrimNothing("", Svcb.Blank);
    if Svcb.Find(t, Svcb.Blank) == |t| { assert target == t && tail == ""; }
  }

  lemma SameParams(a: string, b: string)
    requires Svcb.TrimLeft(a, Svcb.Blank) == Svcb.TrimLeft(b, Svcb.Blank)
    ensures Svcb.Params(a) == Svcb.Params(b)
  {
    hide Svcb.TrimLeft, Svcb.NextParam;
  }

  /** The value behind a target, as the text that DataText puts there. */
  function ValueTail(tail: string): string {
    var v := Svcb.TrimLeft(tail, Svcb.Blank);
    if v == "" then "" else " " + v
  }

  lemma ValueTailIs(tail: string)
    requires Svcb.InAlphabet(tail) && (tail != "" ==> !Svcb.Space(tail[|tail| - 1]))
    ensures var text := ValueTail(tail);
            && Svcb.Tail(text) && (if text == "" then "" else text[1..]) == Svcb.TrimLeft(tail, Svcb.Blank)
            && Svcb.TrimLeft(text, Svcb.Blank) == Svcb.TrimLeft(tail, Svcb.Blank)
  {
    hide Svcb.TrimLeft, Svcb.InAlphabet, Svcb.Space;
    var v := Svcb.TrimLeft(tail, Svcb.Blank);
    if v == "" {
      SvcbGrammar.TrimNothing("", Svcb.Blank);
    } else {
      InAlphabetStart(tail, v);
      Svcb.TrimOneSpace(v);
    }
  }

  /** What DataText makes of the parts that splitRDATA finds. */
  lemma PartsAreRead(n: u16, target: string, tail: string)
    requires Svcb.Token(target) && Svcb.InAlphabet(tail)
    requires tail != "" ==> !Svcb.Space(tail[|tail| - 1])
    ensures Svcb.ParseText(DataText(Data(n, target, Svcb.TrimLeft(tail, Svcb.Blank)))) ==
            if n == 0 then Ok(Svcb.Record(0, target, []))
            else match Svcb.Params(tail) case Err => Err case Ok(ps) => Ok(Svcb.Record(n, target, ps))
  {
    hide DataText, ValueTail, Svcb.ParseText, Svcb.Params, Svcb.TrimLeft, Svcb.Decimal, Svcb.Token, Svcb.Tail, Svcb.InAlphabet;
    hide Svcb.Space;
    var text, v := ValueTail(tail), Svcb.TrimLeft(tail, Svcb.Blank);
    ValueTailIs(tail);
    SameParams(text, tail);
    ValueIsRead(n, target, text, v);
  }

  lemma ValueIsRead(n: u16, target: string, text: string, v: string)
    requires Svcb.Token(target) && Svcb.Tail(text) && v == if text == "" then "" else text[1..]
    ensures Svcb.ParseText(DataText(Data(n, target, v))) ==
            if n == 0 then Ok(Svcb.Record(0, target, []))
            else match Svcb.Params(text) case Err => Err case Ok(ps) => Ok(Svcb.Record(n, target, ps))
  {
    hide *;
    JoinsAs(n, target, text);
    Svcb.ParseOfParts(n, target, text);
  }

  lemma TokenNonempty(t: string)
    requires Svcb.Token(t)
    ensures t != ""
  {
  }

  lemma InAlphabetStart(tail: string, v: string)
    requires Svcb.InAlphabet(tail) && v == Svcb.TrimLeft(tail, Svcb.Blank) && v != "" && !Svcb.Space(tail[|tail| - 1])
    ensures !Svcb.Space(v[0]) && !Svcb.Space(v[|v| - 1])
  {
    hide Svcb.TrimLeft;
    assert v[0] in tail && v[|v| - 1] == tail[|tail| - 1];
  }

  /** A line that parses, taken apart. */
  lemma ParsedParts(line: string) returns (n: u16, rest: string, target: string, tail: string)
    requires Svcb.InAlphabet(line) && Svcb.ParseText(line).Ok?
    ensures var (pri, behind) := Svcb.NextToken(Svcb.TrimSpace(line));
            behind == rest && rest != "" && Svcb.Uint16(Svcb.TrimSpace(pri)) == Ok(n)
    ensures Svcb.NextToken(Svcb.TrimLeft(rest, Svcb.Blank)) == (target, tail)
    ensures Svcb.Token(target) && Svcb.InAlphabet(tail) && (tail != "" ==> !Svcb.Space(tail[|tail| - 1]))
    ensures Svcb.ParseText(line) ==
            if n == 0 then Ok(Svcb.Record(0, target, []))
            else match Svcb.Params(tail) case Err => Err case Ok(ps) => Ok(Svcb.Record(n, target, ps))
  {
    hide Svcb.TrimSpace, Svcb.Params, Svcb.Uint16, Svcb.TrimLeft, Svcb.NextToken, Svcb.Token, Svcb.InAlphabet, Svcb.Space;
    var s := Svcb.TrimSpace(line);
    Svcb.TrimmedInAlphabet(line);
    var (pri, behind) := Svcb.NextToken(s);
    var (tok, last) := Svcb.NextToken(Svcb.TrimLeft(behind, Svcb.Blank));
    n, rest, target, tail := Svcb.Uint16(pri).value, behind, tok, last;
    Svcb.NextTokenInAlphabet(s);
    Svcb.TrimmedInAlphabet(rest);
    Svcb.NextTokenInAlphabet(Svcb.TrimLeft(rest, Svcb.Blank));
    PlainNumber(pri);
    BehindIsEnd(s, rest, target, tail);
    var lead, trail := SvcbGrammar.SpaceTrimmed(line);
  }

  /** Every line that parses is read back from the provider as the same record. */
  lemma StoredMeansSame(line: string)
    requires Svcb.InAlphabet(line) && Svcb.ParseText(line).Ok?
    ensures SplitRdata(line).Some? && Svcb.ParseText(Stored(line)) == Svcb.ParseText(line)
  {
    hide Svcb.ParseText, Svcb.TrimSpace, Svcb.Params, Svcb.Uint16, Svcb.TrimLeft, Svcb.NextToken, Svcb.Token, DataText;
    hide Svcb.Space, Svcb.InAlphabet, SplitRdata;
    var n, rest, target, tail := ParsedParts(line);
    SplitParts(line, n, rest, target, tail);
    PartsAreRead(n, target, tail);
  }

  lemma PlainNumber(pri: string)
    requires Svcb.Uint16(pri).Ok?
    ensures Svcb.TrimSpace(pri) == pri
  {
    hide Svcb.TrimSpace, SvcbGrammar.NumberOf;
    SvcbGrammar.NumberIsRead(pri);
    assert pri[0] in pri && pri[|pri| - 1] in pri;
    Svcb.TrimSpaceIdentity(pri);
  }

  lemma BehindIsEnd(s: string, rest: string, target: string, tail: string)
    requires Svcb.NextToken(s).1 == rest && Svcb.NextToken(Svcb.TrimLeft(rest, Svcb.Blank)) == (target, tail) && target != ""
    ensures rest != "" && (tail != "" ==> s != "" && tail[|tail| - 1] == s[|s| - 1])
  {
    hide Svcb.NextToken, Svcb.TrimLeft, SvcbGrammar.NoBlanks;
    var t := Svcb.TrimLeft(rest, Svcb.Blank);
    SvcbGrammar.TokenTaken(s);
    SvcbGrammar.TokenTaken(t);
    if rest == "" { SvcbGrammar.TrimNothing("", Svcb.Blank); }
    SvcbGrammar.FrontTrimmed(rest, Svcb.Blank);
    if tail != "" {
      SameEnd(target, tail);
      SameEnd(rest[..|rest| - |t|], t);
      SameEnd(Svcb.NextToken(s).0, rest);
    }
  }

  lemma SameEnd(a: string, b: string)
    ensures b != "" ==> (a + b)[|a + b| - 1] == b[|b| - 1]
  {
  }

  // ---------------------------------------------------------------- the zone

  function Texts(records: seq<Rec>): (r: seq<string>)
    ensures |r| == |records| && forall i | 0 <= i < |r| :: r[i] == ToRdata(records[i])
  {
    seq(|records|, i requires 0 <= i < |records| => ToRdata(records[i]))
  }

  function RecIds(records: seq<Rec>): (r: seq<nat>)
    ensures |r| == |records| && forall i | 0 <= i < |r| :: r[i] == records[i].id
  {
    seq(|records|, i requires 0 <= i < |records| => records[i].id)
  }

  ghost predicate Unique(records: seq<Rec>, next: nat) {
    && (forall i, j | 0 <= i < j < |records| :: records[i].id != records[j].id)
    && (forall i | 0 <= i < |records| :: records[i].id < next)
  }

  function Without(records: seq<Rec>, id: nat): seq<Rec> {
    if records == [] then []
    else (if records[0].id == id then [] else [records[0]]) + Without(records[1..], id)
  }

  lemma WithoutCons(x: Rec, rest: seq<Rec>, id: nat)
    ensures Without([x] + rest, id) == (if x.id == id then [] else [x]) + Without(rest, id)
  {
    assert ([x] + rest)[1..] == rest;
  }

  lemma {:induction false} WithoutAbsent(records: seq<Rec>, id: nat)
    requires forall r | r in records :: r.id != id
    ensures Without(records, id) == records
  {
    if records != [] {
      hide Without;
      var x, rest := records[0], records[1..];
      HeadAndRest(records, []);
      assert forall r | r in rest :: r in records;
      WithoutAbsent(rest, id);
      WithoutCons(x, rest, id);
    }
  }

  lemma {:induction false} WithoutJoined(a: seq<Rec>, b: seq<Rec>, id: nat)
    ensures Without(a + b, id) == Without(a, id) + Without(b, id)
  {
    if a == [] {
      assert a + b == b;
    } else {
      hide Without;
      WithoutJoined(a[1..], b, id);
      HeadAndRest(a, b);
      WithoutCons(a[0], a[1..] + b, id);
      WithoutCons(a[0], a[1..], id);
      Associates(if a[0].id == id then [] else [a[0]], Without(a[1..], id), Without(b, id));
    }
  }

  /** Deleting one record by its id deletes exactly that one. */
  lemma WithoutOne(a: seq<Rec>, x: Rec, b: seq<Rec>, next: nat)
    requires Unique(a + [x] + b, next)
    ensures Without(a + [x] + b, x.id) == a + b
  {
    hide Without;
    var all := a + [x] + b;
    assert all[|a|] == x;
    forall r | r in a ensures r.id != x.id { var i :| 0 <= i < |a| && a[i] == r; assert all[i] == r; }
    forall r | r in b ensures r.id != x.id { var i :| 0 <= i < |b| && b[i] == r; assert all[|a| + 1 + i] == r; }
    WithoutJoined(a + [x], b, x.id);
    WithoutJoined(a, [x], x.id);
    WithoutAbsent(a, x.id);
    WithoutAbsent(b, x.id);
    WithoutSelf(x);
  }

  lemma WithoutSelf(x: Rec)
    ensures Without([x], x.id) == []
  {
    assert [x][1..] == [];
  }

  lemma {:induction false} WithoutMembers(records: seq<Rec>, id: nat)
    ensures forall r :: r in Without(records, id) <==> r in records && r.id != id
  {
    if records != [] {
      WithoutMembers(records[1..], id);
      assert records == [records[0]] + records[1..];
    }
  }

  lemma {:induction false} WithoutUnique(records: seq<Rec>, id: nat, next: nat)
    requires Unique(records, next)
    ensures Unique(Without(records, id), next)
  {
    if records != [] {
      WithoutUnique(records[1..], id, next);
      WithoutMembers(records[1..], id);
      var rest := Without(records[1..], id);
      forall i | 0 <= i < |rest| ensures rest[i].id != records[0].id && rest[i].id < next {
        assert rest[i] in rest && rest[i] in records[1..];
      }
    }
  }

  lemma WithoutTexts(records: seq<Rec>, id: nat)
    ensures forall t | t in Texts(Without(records, id)) :: t in Texts(records)
  {
    hide Without, ToRdata;
    WithoutMembers(records, id);
    var rest := Without(records, id);
    forall t | t in Texts(rest) ensures t in Texts(records) {
      var i :| 0 <= i < |rest| && Texts(rest)[i] == t;
      assert rest[i] in rest && rest[i] in records;
      var j :| 0 <= j < |records| && records[j] == rest[i];
      assert Texts(records)[j] == t;
    }
  }

  /** The old records, and perhaps some new ones behind them. */
  ghost predicate Leftover(base: seq<Rec>, now: seq<Rec>, texts: seq<string>) {
    base <= now && forall t | t in Texts(now[|base|..]) :: t in texts
  }

  class Zone {
    const m: Host
    var records: seq<Rec>
    var next: nat

    /** An API whose failed calls have had no effect. */
    const definite: bool

    /** How many deletes have not reported success so far. */
    ghost var missed: nat

    ghost predicate Valid()
      reads this, m
    {
      m.Valid() && m.s.rrset == Texts(records) && Unique(records, next)
    }

    constructor (m: Host, records: seq<Rec>, next: nat, definite: bool)
      requires m.Valid() && m.s.rrset == Texts(records) && Unique(records, next)
      ensures Valid() && this.m == m && this.records == records && this.definite == definite
    {
      this.m, this.records, this.next, this.definite, this.missed := m, records, next, definite, 0;
    }

    // -------------------------------------------------------------- API calls

    /** The environment acts while a request is on its way. */
    method Wait(ghost start: seq<Sys>, ghost texts: seq<string>)
      requires Valid() && Puts(start, m.trace, texts, Failed)
      modifies m
      ensures Valid() && Puts(start, m.trace, texts, Failed)
    {
      hide Quiet, Puts;
      ghost var before := m.trace;
      m.Env();
      QuietSound(before, m.trace);
      PutQuiet(start, before, m.trace, texts, Failed);
    }

    /** One page of records. */
    method List(ghost start: seq<Sys>, ghost texts: seq<string>) returns (o: Outcome, page: seq<Rec>)
      requires Valid() && Puts(start, m.trace, texts, Failed)
      modifies m
      ensures Valid() && Puts(start, m.trace, texts, Failed)
      ensures o == Done ==> page == records[..if |records| <= 100 then |records| else 100]
      ensures m.calm ==> o == Done
    {
      hide Puts;
      page := [];
      Wait(start, texts);
      o := m.Fate();
      if o == Done {
        page := records[..if |records| <= PAGE then |records| else PAGE];
      }
    }

    method Create(data: Data, ghost start: seq<Sys>, ghost texts: seq<string>) returns (o: Outcome, id: nat)
      requires Valid() && Puts(start, m.trace, texts, Failed) && DataText(data) in texts
      modifies this, m
      ensures Valid() && Puts(start, m.trace, texts, Failed) && missed == old(missed)
      ensures o == Done ==> records == old(records) + [Rec(id, "", Some(data))]
      ensures o != Done ==> records == old(records) || records == old(records) + [Rec(id, "", Some(data))]
      ensures definite && o == Failed ==> records == old(records)
      ensures m.calm ==> o == Done
    {
      hide Puts, DataText;
      id := next;
      Wait(start, texts);
      o := m.Fate();
      if o == Failed && definite { return; }
      if o != Done {
        if * { return; }
      }
      var r := Rec(id, "", Some(data));
      assert Texts(records + [r]) == m.s.rrset + [DataText(data)];
      m.Show(start, texts, m.s.rrset + [DataText(data)]);
      records, next := records + [r], next + 1;
    }

    /** deleteByID. */
    method Delete(id: nat, ghost start: seq<Sys>, ghost texts: seq<string>) returns (o: Outcome)
      requires Valid() && Puts(start, m.trace, texts, Failed)
      requires Last(start).rrset != [] && texts != [] ==> Without(records, id) != []
      modifies this, m
      ensures Valid() && Puts(start, m.trace, texts, Failed) && next == old(next)
      ensures missed == old(missed) + if o == Done then 0 else 1
      ensures o == Done ==> records == Without(old(records), id)
      ensures o != Done ==> records == old(records) || records == Without(old(records), id)
      ensures definite && o == Failed ==> records == old(records)
      ensures m.calm && id in RecIds(old(records)) ==> o == Done
    {
      hide Puts, Without, ToRdata, Texts, Unique, RecIds;
      Wait(start, texts);
      o := if id in RecIds(records) then Done else Failed;
      if o == Done { o := m.Fate(); }
      if o != Done { missed := missed + 1; }
      if id !in RecIds(records) { return; }
      if o == Failed && definite { return; }
      if o != Done {
        if * { return; }
      }
      WithoutUnique(records, id, next);
      WithoutTexts(records, id);
      TextsEmpty(Without(records, id));
      m.Show(start, texts, Texts(Without(records, id)));
      records := Without(records, id);
    }

    /** GetHTTPSRDATA: the first page; an empty one is ErrRecordNotFound. */
    method GetHTTPSRDATA() returns (o: Outcome, texts: seq<string>)
      requires Valid()
      modifies m
      ensures Valid() && Quiet(old(m.trace), m.trace)
      ensures o == Done ==> texts == (if |records| <= 100 then m.s.rrset else m.s.rrset[..100]) && texts != []
      ensures m.calm && old(m.s.rrset) != [] ==> o == Done
    {
      hide Quiet;
      texts := [];
      m.Env();
      QuietSound(old(m.trace), m.trace);
      o := m.Fate();
      if o != Done { return; }
      if records == [] { return Failed, []; }
      texts := Texts(records[..if |records| <= PAGE then |records| else PAGE]);
      assert records[..|records|] == records;
      assert |records| > PAGE ==> texts == Texts(records)[..PAGE];
    }

    // -------------------------------------------------------------- Put

    /** bestEffortDelete: try to delete every created record. No old record is touched, and exactly as many created
        ones stay behind as deletes were missed. */
    method BestEffortDelete(created: seq<nat>, ghost base: seq<Rec>, ghost start: seq<Sys>, ghost texts: seq<string>)
      returns (o: Outcome)
      requires Valid() && Puts(start, m.trace, texts, Failed) && base <= records && |Last(start).rrset| == |base|
      requires Apart(created, base)
      modifies this, m
      ensures Valid() && Puts(start, m.trace, texts, Failed) && base <= records && o != Done && missed >= old(missed)
      ensures (o == Failed && created == RecIds(old(records)[|base|..]) && (definite || missed == old(missed))) ==>
                Leaves(base, old(records), records, missed - old(missed))
      ensures m.calm && created == RecIds(old(records)[|base|..]) ==> o == Failed && missed == old(missed)
    {
      hide Puts, Without, RecIds, Unique, Texts, Undone, Leaves, Apart, ToRdata;
      ghost var was, extra := records, records[|base|..];
      ghost var kept;
      o, kept := Undo(created, base, extra, created == RecIds(extra), start, texts);
      if o == Failed && created == RecIds(extra) && (definite || missed == old(missed)) {
        RecIdsLength(extra);
        UndoneAll(base, was, kept, records, missed - old(missed));
      }
    }

    /** The loop of the undo; exact says that the created ids are those of extra. */
    method Undo(created: seq<nat>, ghost base: seq<Rec>, ghost extra: seq<Rec>, ghost exact: bool, ghost start: seq<Sys>,
                ghost texts: seq<string>)
      returns (o: Outcome, ghost kept: seq<Rec>)
      requires Valid() && Puts(start, m.trace, texts, Failed) && base <= records && |Last(start).rrset| == |base|
      requires Apart(created, base) && extra == records[|base|..] && (exact ==> created == RecIds(extra))
      modifies this, m
      ensures Valid() && Puts(start, m.trace, texts, Failed) && base <= records && o != Done && missed >= old(missed)
      ensures o == Failed && exact && (definite || missed == old(missed)) ==>
                Undone(base, extra, |created|, kept, records, missed - old(missed))
      ensures m.calm && exact ==> o == Failed && missed == old(missed)
    {
      hide Puts, Without, RecIds, Unique, Texts, Undone, Apart, ToRdata;
      o, kept := Failed, [];
      UndoneNothing(base, records);
      for i := 0 to |created|
        invariant Valid() && Puts(start, m.trace, texts, Failed) && base <= records && missed >= old(missed)
        invariant exact && (definite || missed == old(missed)) ==>
                    Undone(base, extra, i, kept, records, missed - old(missed))
        invariant m.calm && exact ==> missed == old(missed)
      {
        ghost var sure := exact && (definite || missed == old(missed));
        CreatedAt(created, base, extra, exact, i);
        var deleted;
        deleted, kept := UndoOne(created[i], base, extra, i, kept, missed - old(missed), sure, start, texts);
        if deleted == Crashed { o := deleted; return; }
      }
    }

    /** One delete of the undo. */
    method UndoOne(id: nat, ghost base: seq<Rec>, ghost extra: seq<Rec>, ghost i: nat, ghost kept: seq<Rec>, ghost n: nat,
                   ghost sure: bool, ghost start: seq<Sys>, ghost texts: seq<string>)
      returns (o: Outcome, ghost still: seq<Rec>)
      requires Valid() && Puts(start, m.trace, texts, Failed) && base <= records && |Last(start).rrset| == |base|
      requires id !in RecIds(base)
      requires sure ==> i < |extra| && extra[i].id == id && Undone(base, extra, i, kept, records, n)
      modifies this, m
      ensures Valid() && Puts(start, m.trace, texts, Failed) && base <= records
      ensures missed == old(missed) + if o == Done then 0 else 1
      ensures sure && (o == Done || (o == Failed && definite)) ==>
                Undone(base, extra, i + 1, still, records, n + (missed - old(missed)))
      ensures m.calm && sure ==> o == Done
    {
      hide Puts, Without, RecIds, Unique, Texts, Undone, ToRdata;
      still := kept;
      RollbackStep(base, records, id);
      if sure { UndoneStep(base, extra, i, kept, records, n, next); }
      o := Delete(id, start, texts);
      if sure && o == Failed { still := kept + [extra[i]]; }
    }

    /** Create one line's record; on an error, undo what was created so far. */
    method CreateLine(line: string, created: seq<nat>, ghost base: seq<Rec>, ghost start: seq<Sys>, ghost texts: seq<string>)
      returns (o: Outcome, more: seq<nat>)
      requires Valid() && Puts(start, m.trace, texts, Failed) && |Last(start).rrset| == |base|
      requires Leftover(base, records, texts) && created == RecIds(records[|base|..]) && Stored(line) in texts
      modifies this, m
      ensures Valid() && Puts(start, m.trace, texts, Failed) && base <= records && missed >= old(missed)
      ensures o == Done ==>
                && SplitRdata(line).Some? && more == RecIds(records[|base|..]) && missed == old(missed)
                && Texts(records[|base|..]) == Texts(old(records)[|base|..]) + [Stored(line)]
      ensures definite && o == Failed ==>
                Leftover(base, records, texts) && |records| == |base| + (missed - old(missed))
      ensures m.calm ==> if SplitRdata(line).Some? then o == Done else o == Failed && records == base
    {
      hide Puts, RecIds, Unique, Texts, SplitRdata, DataText, ToRdata;
      ghost var extra := records[|base|..];
      more := created;
      CreatedIds(base, records, next);
      assert records == base + extra;
      var body := SplitRdata(line);
      if body.None? {
        o := BestEffortDelete(created, base, start, texts);
        if o == Failed && (definite || missed == old(missed)) { LeftBehind(base, base + extra, records, texts); }
        return;
      }
      var id;
      o, id := Create(body.value, start, texts);
      CreatedOne(base, extra, base + extra + [Rec(id, "", Some(body.value))], id, body.value);
      if o == Failed {
        o := BestEffortDelete(created, base, start, texts);
        if o == Failed && definite { LeftBehind(base, base + extra, records, texts); }
      } else if o == Done {
        more := created + [id];
      }
    }

    /** Create every line's record. */
    method CreateAll(rdata: seq<string>, ghost base: seq<Rec>, ghost start: seq<Sys>) returns (o: Outcome)
      requires Valid() && Puts(start, m.trace, StoredAll(rdata), Failed) && records == base && |Last(start).rrset| == |base|
      modifies this, m
      ensures Valid() && Puts(start, m.trace, StoredAll(rdata), Failed) && base <= records && missed >= old(missed)
      ensures o == Done ==> Texts(records[|base|..]) == StoredAll(rdata) && missed == old(missed)
      ensures definite && o == Failed ==>
                Leftover(base, records, StoredAll(rdata)) && |records| == |base| + (missed - old(missed))
      ensures m.calm ==> if forall line | line in rdata :: SplitRdata(line).Some? then o == Done else records == base
    {
      hide Puts, RecIds, Unique, Texts, StoredAll, SplitRdata, Stored, ToRdata;
      var created: seq<nat> := [];
      assert records[|base|..] == [];
      CreatedNothing(rdata);
      for i := 0 to |rdata|
        invariant Valid() && Puts(start, m.trace, StoredAll(rdata), Failed) && base <= records && missed == old(missed)
        invariant created == RecIds(records[|base|..]) && Texts(records[|base|..]) == StoredAll(rdata[..i])
        invariant forall line | line in rdata[..i] :: SplitRdata(line).Some?
      {
        StoredSnoc(rdata, i);
        StoredPart(rdata, i);
        o, created := CreateLine(rdata[i], created, base, start, StoredAll(rdata));
        if o != Done { return; }
      }
      assert rdata[..|rdata|] == rdata;
      o := Done;
    }

    /** Delete the listed records, one after the other, until a call fails. */
    method DeleteAll(listed: seq<Rec>, ghost base: seq<Rec>, ghost extra: seq<Rec>, ghost start: seq<Sys>,
                     ghost texts: seq<string>)
      returns (o: Outcome)
      requires Valid() && Puts(start, m.trace, texts, Failed) && records == base + extra && listed <= base
      requires texts != [] ==> extra != []
      modifies this, m
      ensures Valid() && Puts(start, m.trace, texts, Failed)
      ensures missed == old(missed) + if o == Done then 0 else 1
      ensures o == Done ==> records == base[|listed|..] + extra
      ensures definite && o == Failed ==> exists k | 0 <= k < |listed| :: records == base[k..] + extra
      ensures m.calm ==> o == Done
    {
      hide Puts, Without, RecIds, Unique, Texts, ToRdata;
      assert base[0..] == base;
      for i := 0 to |listed|
        invariant Valid() && Puts(start, m.trace, texts, Failed) && records == base[i..] + extra && missed == old(missed)
      {
        DeleteStep(base, extra, i, next);
        o := Delete(listed[i].id, start, texts);
        if o != Done { return; }
      }
      o := Done;
    }

    /** PutHTTPSRDATA. Meets the contract of a Put in every outcome, with every state it passes through, as long as one
        page held all old records; success leaves the unlisted old records and then the new ones. If failed calls have
        no effect, a failure leaves the old records, with as many new ones behind them as deletes of the undo were
        missed, or, when a delete of an old record was the one missed, a rest of the old records and all new ones; so
        without a missed delete it leaves exactly the old records. */
    method PutHTTPSRDATA(rdata: seq<string>) returns (o: Outcome)
      requires Valid()
      modifies this, m
      ensures Valid() && missed >= old(missed)
      ensures Puts(old(m.trace), m.trace, StoredAll(rdata), if |old(records)| > 100 && o == Done then Failed else o)
      ensures o == Done ==>
                missed == old(missed)
                && Texts(records)
                   == Texts(old(records))[if |old(records)| <= 100 then |old(records)| else 100..] + StoredAll(rdata)
      ensures o == Done ==> (Texts(records) == StoredAll(rdata) <==> |old(records)| <= 100)
      ensures definite && o == Failed ==>
                || (Leftover(old(records), records, StoredAll(rdata))
                    && |records| == |old(records)| + (missed - old(missed)))
                || (missed == old(missed) + 1
                    && exists k | 0 <= k < |old(records)| :: Texts(records) == Texts(old(records))[k..] + StoredAll(rdata))
      ensures definite && o == Failed && missed == old(missed) ==> records == old(records)
      ensures m.calm && (forall line | line in rdata :: SplitRdata(line).Some?) ==> o == Done
    {
      hide Puts, RecIds, Unique, StoredAll, SplitRdata, ToRdata;
      ghost var start, base, texts := m.trace, records, StoredAll(rdata);
      StoredLength(rdata);
      PutRefl(start, texts);
      NothingLeft(base, texts);
      var listed;
      o, listed := List(start, texts);
      if o != Done { PutEnds(start, m.trace, texts, Failed); return; }
      o := CreateAll(rdata, base, start);
      if o != Done { PutEnds(start, m.trace, texts, Failed); return; }
      ghost var extra := records[|base|..];
      assert records == base + extra && |extra| == |Texts(extra)|;
      o := DeleteAll(listed, base, extra, start, texts);
      if o != Done {
        PutEnds(start, m.trace, texts, Failed);
        if definite && o == Failed {
          ghost var k :| 0 <= k < |listed| && records == base[k..] + extra;
          TextsOfRest(base, extra, k);
        }
      } else {
        TextsOfRest(base, extra, |listed|);
        if |base| <= PAGE {
          assert Texts(base)[|base|..] + texts == texts;
          PutDone(start, m.trace, texts);
        }
      }
    }
  }

  lemma TextsEmpty(records: seq<Rec>)
    ensures Texts(records) == [] <==> records == []
  {
  }

  lemma NothingLeft(base: seq<Rec>, texts: seq<string>)
    ensures Leftover(base, base, texts)
  {
    assert base[|base|..] == [];
  }

  lemma LeftBehind(base: seq<Rec>, was: seq<Rec>, now: seq<Rec>, texts: seq<string>)
    requires Leftover(base, was, texts) && base <= now && forall r | r in now[|base|..] :: r in was[|base|..]
    ensures Leftover(base, now, texts)
  {
    hide ToRdata;
    var a, b := was[|base|..], now[|base|..];
    forall i | 0 <= i < |b| ensures Texts(b)[i] in texts {
      assert b[i] in b;
      var j :| 0 <= j < |a| && a[j] == b[i];
      assert Texts(a)[j] in Texts(a);
    }
  }

  lemma StoredPart(rdata: seq<string>, i: nat)
    requires i <= |rdata|
    ensures forall t | t in StoredAll(rdata[..i]) :: t in StoredAll(rdata)
  {
    hide Stored;
    forall j | 0 <= j < i ensures StoredAll(rdata[..i])[j] in StoredAll(rdata) {
      assert StoredAll(rdata)[j] == Stored(rdata[j]);
    }
  }

  lemma PutDone(a: seq<Sys>, b: seq<Sys>, texts: seq<string>)
    requires Puts(a, b, texts, Failed) && Last(b).rrset == texts
    ensures Puts(a, b, texts, Done)
  {
    hide IsRun, Backed, AllLoaded, PutRel;
  }

  lemma TextsOfRest(base: seq<Rec>, extra: seq<Rec>, k: nat)
    requires k <= |base|
    ensures Texts(base[k..] + extra) == Texts(base)[k..] + Texts(extra)
  {
    hide ToRdata;
  }

  lemma StoredLength(rdata: seq<string>)
    ensures |StoredAll(rdata)| == |rdata|
  {
  }

  lemma DeleteStep(base: seq<Rec>, extra: seq<Rec>, i: nat, next: nat)
    requires i < |base| && Unique(base[i..] + extra, next)
    ensures Without(base[i..] + extra, base[i].id) == base[i + 1..] + extra
    ensures base[i].id in RecIds(base[i..] + extra)
  {
    hide Without, Unique;
    assert base[i..] + extra == [] + [base[i]] + (base[i + 1..] + extra);
    WithoutOne([], base[i], base[i + 1..] + extra, next);
    assert [] + (base[i + 1..] + extra) == base[i + 1..] + extra;
    assert RecIds(base[i..] + extra)[0] == base[i].id;
  }

  lemma CreatedNothing(rdata: seq<string>)
    ensures RecIds([]) == [] && Texts([]) == [] && StoredAll(rdata[..0]) == []
  {
  }

  lemma CreatedIds(base: seq<Rec>, records: seq<Rec>, next: nat)
    requires base <= records && Unique(records, next)
    ensures forall id | id in RecIds(records[|base|..]) :: id !in RecIds(base)
  {
    forall i, j | 0 <= i < |base| && 0 <= j < |records| - |base|
      ensures RecIds(base)[i] != RecIds(records[|base|..])[j]
    {
      assert records[i].id != records[|base| + j].id;
    }
  }

  lemma StoredSnoc(rdata: seq<string>, i: nat)
    requires i < |rdata|
    ensures StoredAll(rdata[..i + 1]) == StoredAll(rdata[..i]) + [Stored(rdata[i])]
    ensures Stored(rdata[i]) in StoredAll(rdata)
    ensures rdata[..i + 1] == rdata[..i] + [rdata[i]]
  {
    hide DataText, SplitRdata;
    assert StoredAll(rdata)[i] == Stored(rdata[i]);
  }

  lemma CreatedOne(base: seq<Rec>, extra: seq<Rec>, records: seq<Rec>, id: nat, data: Data)
    requires records == base + extra + [Rec(id, "", Some(data))]
    ensures base <= records && RecIds(records[|base|..]) == RecIds(extra) + [id]
    ensures Texts(records[|base|..]) == Texts(extra) + [DataText(data)]
  {
    hide DataText;
    assert records[|base|..] == extra + [Rec(id, "", Some(data))];
  }

  lemma RecIdsLength(records: seq<Rec>)
    ensures |RecIds(records)| == |records| && forall i | 0 <= i < |records| :: RecIds(records)[i] == records[i].id
  {
  }

  /** Deleting a created record leaves all earlier ones. */
  lemma RollbackStep(base: seq<Rec>, records: seq<Rec>, id: nat)
    requires base <= records && id !in RecIds(base)
    ensures base <= Without(records, id)
  {
    hide Without;
    assert records == base + records[|base|..];
    WithoutJoined(base, records[|base|..], id);
    forall r | r in base ensures r.id != id {
      var i :| 0 <= i < |base| && base[i] == r;
      assert RecIds(base)[i] == r.id;
    }
    WithoutAbsent(base, id);
  }

  /** No created id is one of base. */
  ghost predicate Apart(created: seq<nat>, base: seq<Rec>) {
    forall id | id in created :: id !in RecIds(base)
  }

  lemma CreatedAt(created: seq<nat>, base: seq<Rec>, extra: seq<Rec>, exact: bool, i: nat)
    requires Apart(created, base) && i < |created| && (exact ==> created == RecIds(extra))
    ensures created[i] !in RecIds(base) && (exact ==> i < |extra| && extra[i].id == created[i])
  {
  }

  /** The undo before its i-th delete: the missed ones and those still to come stand behind the old records. */
  ghost predicate Undone(base: seq<Rec>, extra: seq<Rec>, i: nat, kept: seq<Rec>, records: seq<Rec>, n: nat) {
    i <= |extra| && records == base + (kept + extra[i..]) && |kept| == n && forall r | r in kept :: r in extra
  }

  lemma UndoneNothing(base: seq<Rec>, records: seq<Rec>)
    requires base <= records
    ensures Undone(base, records[|base|..], 0, [], records, 0)
  {
    var extra := records[|base|..];
    assert extra[0..] == extra && [] + extra == extra && base + extra == records;
  }

  lemma UndoneStep(base: seq<Rec>, extra: seq<Rec>, i: nat, kept: seq<Rec>, records: seq<Rec>, n: nat, next: nat)
    requires Undone(base, extra, i, kept, records, n) && i < |extra| && Unique(records, next)
    ensures extra[i].id in RecIds(records)
    ensures Undone(base, extra, i + 1, kept, Without(records, extra[i].id), n)
    ensures Undone(base, extra, i + 1, kept + [extra[i]], records, n + 1)
  {
    hide Without, Unique;
    assert records == (base + kept) + [extra[i]] + extra[i + 1..];
    WithoutOne(base + kept, extra[i], extra[i + 1..], next);
    assert base + (kept + extra[i + 1..]) == (base + kept) + extra[i + 1..];
    assert RecIds(records)[|base| + |kept|] == extra[i].id;
    assert kept + extra[i..] == (kept + [extra[i]]) + extra[i + 1..];
  }

  lemma UndoneAll(base: seq<Rec>, was: seq<Rec>, kept: seq<Rec>, records: seq<Rec>, n: nat)
    requires base <= was && Undone(base, was[|base|..], |was| - |base|, kept, records, n)
    ensures Leaves(base, was, records, n)
  {
    var extra := was[|base|..];
    assert extra[|extra|..] == [] && kept + [] == kept;
    assert records[|base|..] == kept;
  }

  /** Of the records behind base exactly n are left. */
  ghost predicate Leaves(base: seq<Rec>, was: seq<Rec>, now: seq<Rec>, n: nat) {
    && base <= was && base <= now && |now| == |base| + n
    && forall r | r in now[|base|..] :: r in was[|base|..]
  }

  // ---------------------------------------------------------------- publishing through the zone

  /** publishDNS through this provider keeps the contract it has with an atomic one (RotatorSteps.PublishDNS), in every
      state that any of its API calls goes through; of a set that does not fit one page it sees the first page, and
      success leaves the rest in place. */
  method PublishDNS(z: Zone, bytes: seq<byte>) returns (o: Outcome)
    requires z.Valid() && WellFormedSet(z.m.s.rrset)
    modifies z, z.m
    ensures z.Valid() && old(z.m.trace) <= z.m.trace
    ensures var fits := |old(z.records)| <= 100;
            var texts := PatchedAll(if fits then old(z.m.s.rrset) else old(z.m.s.rrset)[..100], Base64.Encode(bytes));
            && (o == Done ==>
                  texts.Ok? && z.m.s.rrset == if fits then texts.value else old(z.m.s.rrset)[100..] + texts.value)
            && (forall r | r in z.m.s.rrset :: r in old(z.m.s.rrset) || (texts.Ok? && r in texts.value))
            && (z.m.calm && old(z.m.s.rrset) != [] && texts.Ok? ==> o == Done)
            && (IsRun(old(z.m.trace)) && (texts.Ok? ==> Backed(old(z.m.s), texts.value)) ==> IsRun(z.m.trace))
    ensures z.m.s.image == old(z.m.s.image) && z.m.s.ttl == old(z.m.s.ttl) && old(z.m.s.clock) <= z.m.s.clock
    ensures AllLoaded(old(z.m.s)) ==> AllLoaded(z.m.s)
  {
    hide Quiet, Puts, IsRun, Backed, AllLoaded, PatchedAll, WellFormedSet, StoredAll, Texts, Unique;
    ghost var start := z.m.trace;
    var b64 := Base64.Encode(bytes);
    var page;
    o, page := z.GetHTTPSRDATA();
    QuietSound(start, z.m.trace);
    QuietKeepsRun(start, z.m.trace);
    if o != Done { return; }
    ghost var got, all := z.m.trace, z.m.s.rrset;
    var patched := PatchSet(page, b64);
    if patched.Err? { return Failed; }
    var out := patched.value;
    if |z.records| > PAGE { FirstPage(all, PAGE); }
    PublishedIsStored(page, bytes);
    if IsRun(start) && Backed(Last(start), out) { BackedLater(start, got, out); }
    ghost var many := |z.records| > PAGE;
    o := z.PutHTTPSRDATA(out);
    PutsFacts(got, z.m.trace, out, if many && o == Done then Failed else o);
    PrefixTrans(start, got, z.m.trace);
  }

  lemma FirstPage(texts: seq<string>, n: nat)
    requires WellFormedSet(texts) && n <= |texts|
    ensures WellFormedSet(texts[..n])
  {
    hide Svcb.ParseText, Svcb.TokensWellFormed;
  }
}
