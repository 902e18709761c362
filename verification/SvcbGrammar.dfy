/** What the record text looks like (section 2.1 of RFC 9460), as a grammar that knows no scanner and no printer, and how
    Parse and String relate to it. */
module SvcbGrammar {
  import opened Prelude
  import opened Svcb
  import SvcParams
  import opened HttpsRecords

  // ---------------------------------------------------------------- the grammar

  predicate Blanks(s: string) {
    forall c | c in s :: c == ' ' || c == '\t'
  }

  predicate NoBlanks(s: string) {
    forall c | c in s :: c != ' ' && c != '\t'
  }

  /** A parameter: `key`, `key=token` or `key="value"`. */
  datatype Item = Bare(key: string) | Assigned(key: string, token: string) | Quoted(key: string, value: string)

  predicate KeyText(k: string) {
    k != "" && NoBlanks(k) && '=' !in k
  }

  predicate ItemOk(i: Item) {
    KeyText(i.key)
    && match i
       case Bare(_) => true
       case Assigned(_, t) => NoBlanks(t) && (t == "" || t[0] != '\"')
       case Quoted(_, v) => '\"' !in v
  }

  function ItemText(i: Item): string {
    match i
    case Bare(k) => k
    case Assigned(k, t) => k + "=" + t
    case Quoted(k, v) => k + "=\"" + v + "\""
  }

  function ItemParam(i: Item): Param {
    match i
    case Bare(k) => Param(k, "")
    case Assigned(k, t) => Param(k, t)
    case Quoted(k, v) => Param(k, v)
  }

  /** Parameters, each behind blanks. Only behind a closing quote may the blanks be missing. */
  datatype Spaced = Spaced(gap: string, item: Item)

  predicate ItemsOk(items: seq<Spaced>) {
    items != [] ==>
      && Blanks(items[0].gap) && ItemOk(items[0].item)
      && (|items| > 1 ==> items[1].gap != "" || items[0].item.Quoted?)
      && ItemsOk(items[1..])
  }

  function ItemsText(items: seq<Spaced>): string {
    if items == [] then "" else items[0].gap + (ItemText(items[0].item) + ItemsText(items[1..]))
  }

  function ItemParams(items: seq<Spaced>): (r: seq<Param>)
    ensures |r| == |items| && forall i | 0 <= i < |r| :: r[i] == ItemParam(items[i].item)
  {
    seq(|items|, i requires 0 <= i < |items| => ItemParam(items[i].item))
  }

  // ---------------------------------------------------------------- the parameters: spelled, then parsed

  predicate All(s: string, p: char -> bool) {
    forall c | c in s :: p(c)
  }

  lemma {:induction false} AllCons(c: char, s: string, p: char -> bool)
    ensures All([c] + s, p) <==> p(c) && All(s, p)
  {
    assert c in [c] + s;
    assert forall d | d in s :: d in [c] + s;
  }

  lemma {:induction false} TrimUnfold(c: char, s: string, p: char -> bool)
    ensures TrimLeft([c] + s, p) == if p(c) then TrimLeft(s, p) else [c] + s
  {
    assert ([c] + s)[1..] == s;
  }

  lemma {:induction false} TrimFront(gap: string, t: string, p: char -> bool)
    requires All(gap, p) && (t == "" || !p(t[0]))
    ensures TrimLeft(gap + t, p) == t
  {
    hide TrimLeft, All;
    if gap == "" {
      assert gap + t == t;
      TrimNothing(t, p);
    } else {
      assert gap == [gap[0]] + gap[1..];
      AllCons(gap[0], gap[1..], p);
      TrimFront(gap[1..], t, p);
      TrimUnfold(gap[0], gap[1..] + t, p);
      assert gap + t == [gap[0]] + (gap[1..] + t);
    }
  }

  lemma {:induction false} TrimNothing(t: string, p: char -> bool)
    requires t == "" || !p(t[0])
    ensures TrimLeft(t, p) == t
  {
  }

  lemma {:induction false} TrimGap(gap: string, t: string)
    requires Blanks(gap) && (t == "" || !Blank(t[0]))
    ensures TrimLeft(gap + t, Blank) == t
  {
    TrimFront(gap, t, Blank);
  }

  lemma {:induction false} FrontDropped(s: string, p: char -> bool)
    ensures forall i | 0 <= i < |s| - |TrimLeft(s, p)| :: p(s[i])
    ensures s != "" && p(s[0]) ==> |TrimLeft(s, p)| < |s|
  {
    if s != "" && p(s[0]) {
      var rest := s[1..];
      FrontDropped(rest, p);
      forall i | 0 < i < |s| - |TrimLeft(s, p)| ensures p(s[i]) { assert s[i] == rest[i - 1]; }
    }
  }

  lemma {:induction false} Suffix(s: string, p: char -> bool) returns (n: nat)
    ensures n <= |s| && TrimLeft(s, p) == s[n..] && n == |s| - |TrimLeft(s, p)|
  {
    n := |s| - |TrimLeft(s, p)|;
  }

  lemma {:induction false} FrontCount(s: string, p: char -> bool) returns (n: nat)
    ensures n <= |s| && TrimLeft(s, p) == s[n..] && (s != "" && p(s[0]) ==> n > 0)
    ensures forall i | 0 <= i < n :: p(s[i])
  {
    n := Suffix(s, p);
    FrontDropped(s, p);
  }

  lemma {:induction false} AllAt(s: string, p: char -> bool)
    requires forall i | 0 <= i < |s| :: p(s[i])
    ensures All(s, p)
  {
  }

  lemma {:induction false} PrefixAll(s: string, n: nat, p: char -> bool)
    requires n <= |s| && forall i | 0 <= i < n :: p(s[i])
    ensures All(s[..n], p) && s == s[..n] + s[n..]
  {
    hide All;
    AllAt(s[..n], p);
  }

  lemma {:induction false} FrontTrimmed(s: string, p: char -> bool)
    ensures var t := TrimLeft(s, p);
            All(s[..|s| - |t|], p) && s == s[..|s| - |t|] + t && (s != "" && p(s[0]) ==> |t| < |s|)
  {
    hide All, TrimLeft;
    var n := FrontCount(s, p);
    PrefixAll(s, n, p);
    assert |s| - |s[n..]| == n;
  }

  lemma {:induction false} TrimBack(t: string, gap: string, p: char -> bool)
    requires All(gap, p) && t != "" && !p(t[|t| - 1])
    ensures TrimRight(t + gap, p) == t
  {
    if gap == "" {
      assert t + gap == t;
    } else {
      var k := |gap| - 1;
      assert gap[k] in gap && forall c | c in gap[..k] :: c in gap;
      TrimBack(t, gap[..k], p);
      assert (t + gap)[..|t + gap| - 1] == t + gap[..k];
    }
  }

  lemma {:induction false} BackDropped(s: string, p: char -> bool)
    ensures forall i | |TrimRight(s, p)| <= i < |s| :: p(s[i])
  {
    if s != "" && p(s[|s| - 1]) {
      BackDropped(s[..|s| - 1], p);
    }
  }

  lemma {:induction false} BackTrimmed(s: string, p: char -> bool)
    ensures All(s[|TrimRight(s, p)|..], p)
  {
    hide All;
    BackDropped(s, p);
    AllAt(s[|TrimRight(s, p)|..], p);
  }

  lemma {:induction false} KeyEnds(k: string, tail: string)
    requires KeyText(k) && (tail == "" || Delimiter(tail[0]))
    ensures Find(k + tail, Delimiter) == |k| && !Blank((k + tail)[0])
  {
    var s := k + tail;
    assert forall i | 0 <= i < |k| :: s[i] == k[i] && k[i] in k;
    FindAt(s, Delimiter, |k|);
  }

  lemma {:induction false} TokenEnds(t: string, tail: string)
    requires NoBlanks(t) && (tail == "" || Blank(tail[0]))
    ensures NextToken(t + tail) == (t, tail)
  {
    var s := t + tail;
    assert forall i | 0 <= i < |t| :: s[i] == t[i] && t[i] in t;
    FindAt(s, Blank, |t|);
    assert s[..|t|] == t && s[|t|..] == tail;
  }

  /** A key, an equals sign and the rest of the text, cut where the scanner cuts. */
  lemma {:induction false} KeyCut(k: string, rem: string)
    requires KeyText(k)
    ensures var s := k + ("=" + rem);
            && Find(s, Delimiter) == |k| < |s| && s[|k|] == '=' && !Blank(s[0])
            && s[..|k|] == k && s[|k| + 1..] == rem
  {
    hide Find, KeyText;
    KeyNonempty(k);
    KeyEnds(k, "=" + rem);
  }

  lemma {:induction false} QuoteCut(v: string, tail: string)
    requires '\"' !in v
    ensures var rem := "\"" + (v + "\"" + tail);
            && rem[0] == '\"' && Find(rem[1..], IsQuote) == |v| < |rem| - 1
            && rem[1..1 + |v|] == v && rem[|v| + 2..] == tail
  {
    hide Find;
    var rem := "\"" + (v + "\"" + tail);
    assert rem[1..] == v + "\"" + tail;
    QuoteEndsAt(v, tail);
  }

  lemma {:induction false} AssignedScanned(k: string, t: string, tail: string)
    requires KeyText(k) && NoBlanks(t) && (t == "" || t[0] != '\"') && (tail == "" || Blank(tail[0]))
    ensures var s := k + ("=" + (t + tail)); !Blank(s[0]) && NextParam(s) == Ok(Scanned(Param(k, t), tail))
  {
    hide Find, NextToken, KeyText, NoBlanks;
    KeyNonempty(k);
    KeyCut(k, t + tail);
    TokenEnds(t, tail);
    assert t == "" ==> t + tail == tail;
  }

  lemma {:induction false} QuotedIsScanned(k: string, v: string, tail: string)
    requires KeyText(k) && '\"' !in v
    ensures var s := k + ("=" + ("\"" + (v + "\"" + tail))); !Blank(s[0]) && NextParam(s) == Ok(Scanned(Param(k, v), tail))
  {
    hide Find, KeyText;
    KeyNonempty(k);
    KeyCut(k, "\"" + (v + "\"" + tail));
    QuoteCut(v, tail);
  }

  lemma {:induction false} AssignedText(k: string, t: string, tail: string)
    ensures ItemText(Assigned(k, t)) + tail == k + ("=" + (t + tail))
  {
  }

  lemma {:induction false} QuotedText(k: string, v: string, tail: string)
    ensures ItemText(Quoted(k, v)) + tail == k + ("=" + ("\"" + (v + "\"" + tail)))
  {
  }

  lemma {:induction false} BareScanned(k: string, tail: string)
    requires KeyText(k) && (tail == "" || Blank(tail[0]))
    ensures var s := k + tail; s != "" && !Blank(s[0]) && NextParam(s) == Ok(Scanned(Param(k, ""), tail))
  {
    hide Find, KeyText;
    var s := k + tail;
    KeyNonempty(k);
    KeyEnds(k, tail);
    assert s[..|k|] == k && s[|k|..] == tail;
    if tail == "" { assert s == k; }
  }

  /** One spelled parameter is scanned whole. */
  lemma {:induction false} ItemScanned(i: Item, tail: string)
    requires ItemOk(i) && (tail == "" || Blank(tail[0]) || i.Quoted?)
    ensures var s := ItemText(i) + tail;
            s != "" && !Blank(s[0]) && NextParam(s) == Ok(Scanned(ItemParam(i), tail))
  {
    hide NextParam, KeyText, NoBlanks, Blank, ItemText;
    match i
    case Bare(k) =>
      assert ItemText(i) == k by { BareText(k); }
      BareScanned(k, tail);
    case Assigned(k, t) =>
      AssignedText(k, t, tail);
      AssignedScanned(k, t, tail);
    case Quoted(k, v) =>
      QuotedText(k, v, tail);
      QuotedIsScanned(k, v, tail);
  }

  lemma {:induction false} BareText(k: string)
    ensures ItemText(Bare(k)) == k
  {
  }

  lemma {:induction false} KeyNonempty(k: string)
    requires KeyText(k)
    ensures k != ""
  {
  }

  /** What follows a parameter in a text: nothing, a blank, or anything if it was quoted. */
  lemma {:induction false} TailStarts(items: seq<Spaced>, trail: string)
    requires ItemsOk(items) && items != [] && Blanks(trail)
    ensures var tail := ItemsText(items[1..]) + trail;
            tail == "" || Blank(tail[0]) || items[0].item.Quoted?
  {
    var rest := items[1..];
    if rest != [] {
      if rest[0].gap != "" { assert rest[0].gap[0] in rest[0].gap; }
    } else if trail != "" {
      assert trail[0] in trail;
    }
  }

  /** Every spelling is accepted, and read as it is spelled. */
  lemma {:induction false} SpelledIsParsed(items: seq<Spaced>, trail: string)
    requires ItemsOk(items) && Blanks(trail)
    ensures Params(ItemsText(items) + trail) == Ok(ItemParams(items))
  {
    hide Params, NextParam, ItemText, ItemOk, TrimLeft, Blank;
    var s := ItemsText(items) + trail;
    if items == [] {
      assert s == trail == trail + "";
      TrimGap(trail, "");
      NothingLeft(s);
    } else {
      var x, tail := items[0], ItemsText(items[1..]) + trail;
      TailStarts(items, trail);
      ItemScanned(x.item, tail);
      assert s == x.gap + (ItemText(x.item) + tail);
      TrimGap(x.gap, ItemText(x.item) + tail);
      SpelledIsParsed(items[1..], trail);
      ParamsUnfold(s, ItemText(x.item) + tail, Scanned(ItemParam(x.item), tail));
      assert [ItemParam(x.item)] + ItemParams(items[1..]) == ItemParams(items);
    }
  }

  lemma {:induction false} NothingLeft(s: string)
    requires TrimLeft(s, Blank) == ""
    ensures Params(s) == Ok([])
  {
  }

  // ---------------------------------------------------------------- the parameters: parsed, hence spelled

  lemma {:induction false} KeyScanned(s: string)
    requires s != "" && !Blank(s[0])
    ensures var eq := Find(s, Delimiter); (eq == 0 ==> s[0] == '=') && (eq > 0 ==> KeyText(s[..eq]))
  {
    var eq := Find(s, Delimiter);
    forall c | c in s[..eq] ensures c != ' ' && c != '\t' && c != '=' {
      var j :| 0 <= j < eq && s[..eq][j] == c;
      assert !Delimiter(s[j]);
    }
  }

  lemma {:induction false} QuotedScanned(k: string, rem: string) returns (v: string)
    requires rem != "" && rem[0] == '\"' && Find(rem[1..], IsQuote) < |rem| - 1
    ensures var end := Find(rem[1..], IsQuote); v == rem[1..1 + end] && '\"' !in v
    ensures var end := Find(rem[1..], IsQuote); k + ("=" + rem) == ItemText(Quoted(k, v)) + rem[end + 2..]
  {
    hide Find, ItemText;
    var end := Find(rem[1..], IsQuote);
    v := rem[1..1 + end];
    forall j | 0 <= j < |v| ensures v[j] != '\"' { assert v[j] == rem[1..][j] && !IsQuote(rem[1..][j]); }
    assert rem[1..][end] == rem[end + 1] == '\"';
    assert rem == "\"" + (v + "\"" + rem[end + 2..]);
    QuotedText(k, v, rem[end + 2..]);
  }

  lemma {:induction false} TokenScanned(k: string, rem: string)
    ensures var (tok, rest) := NextToken(rem);
            NoBlanks(tok) && rem == tok + rest && (rest == "" || Blank(rest[0]))
            && k + ("=" + rem) == ItemText(Assigned(k, tok)) + rest && (tok != "" ==> tok[0] == rem[0])
  {
    hide ItemText, Find;
    var (tok, rest) := NextToken(rem);
    forall c | c in tok ensures c != ' ' && c != '\t' {
      var j :| 0 <= j < |tok| && tok[j] == c;
      assert !Blank(rem[j]);
    }
    assert rem == tok + rest;
    AssignedText(k, tok, rest);
  }

  /** What the scanner finds behind the equals sign. */
  lemma {:induction false} ScannedValue(s: string) returns (i: Item)
    requires s != "" && !Blank(s[0]) && NextParam(s).Ok? && Find(s, Delimiter) < |s| && s[Find(s, Delimiter)] == '='
    ensures var one := NextParam(s).value;
            && ItemOk(i) && ItemParam(i) == one.param && s == ItemText(i) + one.rest
            && (one.rest == "" || Blank(one.rest[0]) || i.Quoted?)
  {
    hide KeyText, NoBlanks, NextToken, Find, ItemText, Blank;
    var eq := Find(s, Delimiter);
    KeyScanned(s);
    var k, rem := s[..eq], s[eq + 1..];
    CutAt(s, eq, "=");
    if rem != "" && rem[0] == '\"' {
      var v := QuotedScanned(k, rem);
      i := Quoted(k, v);
    } else {
      TokenScanned(k, rem);
      NothingScanned();
      i := Assigned(k, NextToken(rem).0);
    }
  }

  lemma {:induction false} CutAt(s: string, k: nat, c: string)
    requires k < |s| && c == [s[k]]
    ensures s == s[..k] + (c + s[k + 1..])
  {
  }

  lemma {:induction false} NothingScanned()
    ensures NextToken("") == ("", "")
  {
  }

  /** The spelling of what one scan takes. */
  lemma {:induction false} ScannedItem(s: string) returns (i: Item)
    requires s != "" && !Blank(s[0]) && NextParam(s).Ok?
    ensures var one := NextParam(s).value;
            && ItemOk(i) && ItemParam(i) == one.param && s == ItemText(i) + one.rest
            && (one.rest == "" || Blank(one.rest[0]) || i.Quoted?)
  {
    hide KeyText, NoBlanks, NextToken, Find;
    var eq := Find(s, Delimiter);
    if eq < |s| && s[eq] == '=' {
      i := ScannedValue(s);
    } else {
      KeyScanned(s);
      i := Bare(s[..eq]);
      assert s[..eq] + s[eq..] == s;
      assert eq == |s| ==> s[..eq] == s == s + "";
    }
  }

  lemma {:induction false} TrimmedGap(s: string)
    ensures var t := TrimLeft(s, Blank);
            Blanks(s[..|s| - |t|]) && s == s[..|s| - |t|] + t && (s != "" && Blank(s[0]) ==> |t| < |s|)
  {
    FrontTrimmed(s, Blank);
  }

  /** These items and trailing blanks make up s, and are what it is read as. */
  predicate SpelledAs(s: string, items: seq<Spaced>, trail: string) {
    && ItemsOk(items) && Blanks(trail) && s == ItemsText(items) + trail && Params(s) == Ok(ItemParams(items))
    && (s != "" && Blank(s[0]) && items != [] ==> items[0].gap != "")
  }

  lemma {:induction false} OnlyBlanks(s: string)
    requires TrimLeft(s, Blank) == ""
    ensures SpelledAs(s, [], s)
  {
    hide Blanks, TrimLeft;
    TrimmedGap(s);
    NoItems();
    NothingLeft(s);
    assert s[..|s| - 0] == s == "" + s;
  }

  lemma {:induction false} ItemFirst(s: string, t: string, one: Scanned, i: Item, items: seq<Spaced>, trail: string)
    requires TrimLeft(s, Blank) == t && t != "" && !Blank(t[0]) && NextParam(t) == Ok(one)
    requires ItemOk(i) && ItemParam(i) == one.param && t == ItemText(i) + one.rest
    requires (one.rest == "" || Blank(one.rest[0]) || i.Quoted?) && SpelledAs(one.rest, items, trail)
    ensures SpelledAs(s, [Spaced(s[..|s| - |t|], i)] + items, trail)
  {
    hide NextParam, ItemText, ItemOk, Blank, Blanks, TrimLeft, ItemsOk, ItemsText, Params, ItemParams;
    var gap := s[..|s| - |t|];
    TrimmedGap(s);
    ParamsUnfold(s, t, one);
    if one.rest == "" { ItemsTextEmpty(items); }
    OneMoreItem(gap, i, items, trail);
    assert s == gap + (ItemText(i) + one.rest);
  }

  /** Nothing else is accepted. */
  lemma {:induction false} ParsedIsSpelled(s: string) returns (items: seq<Spaced>, trail: string)
    requires Params(s).Ok?
    ensures SpelledAs(s, items, trail)
    decreases |s|
  {
    hide NextParam, ItemText, ItemOk, Blank, TrimLeft, SpelledAs, Params, ItemParam;
    var t := TrimLeft(s, Blank);
    if t == "" {
      OnlyBlanks(s);
      items, trail := [], s;
    } else {
      Scans(s);
      var one := NextParam(t).value;
      var i := ScannedItem(t);
      items, trail := ParsedIsSpelled(one.rest);
      ItemFirst(s, t, one, i, items, trail);
      items := [Spaced(s[..|s| - |t|], i)] + items;
    }
  }

  lemma {:induction false} Scans(s: string)
    requires Params(s).Ok? && TrimLeft(s, Blank) != ""
    ensures var t := TrimLeft(s, Blank);
            && !Blank(t[0]) && NextParam(t).Ok? && |t| <= |s|
            && |NextParam(t).value.rest| < |s| && Params(NextParam(t).value.rest).Ok?
  {
    hide NextParam;
  }

  lemma {:induction false} NoItems()
    ensures ItemsOk([]) && ItemsText([]) == "" && ItemParams([]) == []
  {
  }

  lemma {:induction false} ItemParamsCons(x: Spaced, items: seq<Spaced>)
    ensures ItemParams([x] + items) == [ItemParam(x.item)] + ItemParams(items)
  {
    hide ItemParam;
  }

  lemma {:induction false} ItemsTextCons(x: Spaced, items: seq<Spaced>)
    ensures ItemsText([x] + items) == x.gap + (ItemText(x.item) + ItemsText(items))
  {
    hide ItemText;
    assert ([x] + items)[1..] == items;
  }

  lemma {:induction false} OneMoreItem(gap: string, i: Item, items: seq<Spaced>, trail: string)
    requires Blanks(gap) && ItemOk(i) && ItemsOk(items) && (items == [] || items[0].gap != "" || i.Quoted?)
    ensures var all := [Spaced(gap, i)] + items;
            && ItemsOk(all) && ItemParams(all) == [ItemParam(i)] + ItemParams(items)
            && ItemsText(all) + trail == gap + (ItemText(i) + (ItemsText(items) + trail))
  {
    hide ItemText, ItemOk, Blanks, ItemParams, ItemParam, ItemsText;
    var x := Spaced(gap, i);
    ItemParamsCons(x, items);
    ItemsTextCons(x, items);
    assert ([x] + items)[1..] == items;
  }

  lemma {:induction false} ItemsTextEmpty(items: seq<Spaced>)
    requires ItemsOk(items) && ItemsText(items) == ""
    ensures items == []
  {
    if items != [] {
      FirstItemText(items);
      assert false;
    }
  }

  lemma {:induction false} FirstItemText(items: seq<Spaced>)
    requires ItemsOk(items) && items != []
    ensures ItemsText(items) != ""
  {
    assert |ItemsText(items)| >= |ItemText(items[0].item)|;
  }

  // ---------------------------------------------------------------- numbers

  predicate Digits(s: string) {
    s != "" && forall c | c in s :: '0' <= c <= '9'
  }

  function NumberOf(s: string): nat {
    if s == "" then 0
    else 10 * NumberOf(s[..|s| - 1]) + (if '0' <= s[|s| - 1] <= '9' then s[|s| - 1] as int - '0' as int else 0)
  }

  lemma {:induction false} NumberIsRead(s: string)
    ensures Uint16From(s, 0).Ok? <==> (forall c | c in s :: '0' <= c <= '9') && NumberOf(s) <= 0xFFFF
    ensures Uint16From(s, 0).Ok? ==> Uint16From(s, 0).value == NumberOf(s)
  {
    if s != "" {
      var k := |s| - 1;
      var head, d := s[..k], s[k];
      assert s == head + [d];
      assert forall c | c in s :: c in head || c == d;
      assert forall c | c in head :: c in s;
      assert d in s;
      Uint16Snoc(head, d, 0);
      NumberIsRead(head);
      assert [d][1..] == "";
    }
  }

  // ---------------------------------------------------------------- whole records

  predicate WhiteSpace(s: string) {
    forall c | c in s :: c in " \t\n\r" || c as int == 11 || c as int == 12
  }

  /** A record as it is written. Everything behind the target of an alias is ignored. */
  datatype Spelling = Spelling(lead: string, priority: string, gap: string, target: string, items: seq<Spaced>,
                               ignored: string, trail: string)

  function Behind(p: Spelling): string {
    ItemsText(p.items) + p.ignored
  }

  function Core(p: Spelling): string {
    p.priority + (p.gap + (p.target + Behind(p)))
  }

  /** p is a way to write r as text: white space, a decimal number, blanks, a target, and the parameters, up to the last
      character that is not white space. */
  predicate Spells(p: Spelling, text: string, r: Record) {
    && text == p.lead + (Core(p) + p.trail) && WhiteSpace(p.lead) && WhiteSpace(p.trail)
    && Digits(p.priority) && NumberOf(p.priority) == r.priority
    && p.gap != "" && Blanks(p.gap)
    && p.target != "" && NoBlanks(p.target) && p.target == r.target
    && !WhiteSpace([Core(p)[|Core(p)| - 1]])
    && if r.priority == 0
       then p.items == [] && r.params == [] && (p.ignored == "" || p.ignored[0] == ' ' || p.ignored[0] == '\t')
       else p.ignored == "" && ItemsOk(p.items) && (p.items != [] ==> p.items[0].gap != "") && ItemParams(p.items) == r.params
  }

  lemma {:induction false} SpaceIsWhite(c: char)
    ensures Space(c) <==> WhiteSpace([c])
  {
    assert c in [c];
    assert ' ' in " \t\n\r" && '\t' in " \t\n\r" && '\n' in " \t\n\r" && '\r' in " \t\n\r";
  }

  lemma {:induction false} AllSpace(s: string)
    ensures All(s, Space) <==> WhiteSpace(s)
  {
    forall c | c in s ensures Space(c) <==> c in " \t\n\r" || c as int == 11 || c as int == 12 {
      SpaceIsWhite(c);
      assert c in [c];
    }
  }

  lemma {:induction false} TrimsToCore(lead: string, core: string, trail: string)
    requires WhiteSpace(lead) && WhiteSpace(trail) && core != "" && !Space(core[0]) && !Space(core[|core| - 1])
    ensures TrimSpace(lead + (core + trail)) == core
  {
    hide TrimLeft, TrimRight, WhiteSpace, Space, All;
    AllSpace(lead);
    AllSpace(trail);
    assert (core + trail)[0] == core[0];
    TrimFront(lead, core + trail, Space);
    TrimBack(core, trail, Space);
  }

  /** What stands behind a target: nothing, or a text that begins with a blank. */
  lemma {:induction false} BehindTarget(p: Spelling, text: string, r: Record)
    requires Spells(p, text, r)
    ensures Behind(p) == "" || Blank(Behind(p)[0])
  {
    hide WhiteSpace, ItemOk, ItemText, NumberOf;
    if r.priority != 0 && p.items != [] {
      var gap := p.items[0].gap;
      assert gap[0] in gap;
    }
  }

  lemma {:induction false} CoreIsSplit(p: Spelling, text: string, r: Record)
    requires Spells(p, text, r)
    ensures TrimSpace(text) == Core(p)
    ensures NextToken(TrimSpace(text)) == (p.priority, p.gap + (p.target + Behind(p)))
    ensures NextToken(TrimLeft(p.gap + (p.target + Behind(p)), Blank)) == (p.target, Behind(p))
  {
    hide TrimSpace, NextToken, TrimLeft, WhiteSpace, Space, ItemsOk, ItemsText, NumberOf, ItemParams, Behind;
    BehindTarget(p, text, r);
    var core := Core(p);
    assert p.priority[0] in p.priority && core[0] == p.priority[0];
    DigitIsText(core[0]);
    SpaceIsWhite(core[|core| - 1]);
    TrimsToCore(p.lead, core, p.trail);
    DigitsNoBlanks(p.priority);
    assert p.gap[0] in p.gap && p.target[0] in p.target;
    TokenEnds(p.priority, p.gap + (p.target + Behind(p)));
    TrimGap(p.gap, p.target + Behind(p));
    TokenEnds(p.target, Behind(p));
  }

  lemma {:induction false} DigitIsText(c: char)
    requires '0' <= c <= '9'
    ensures !Space(c)
  {
  }

  lemma {:induction false} DigitsNoBlanks(s: string)
    requires Digits(s)
    ensures NoBlanks(s)
  {
  }

  lemma {:induction false} SpellsIsParsed(p: Spelling, text: string, r: Record)
    requires Spells(p, text, r)
    ensures ParseText(text) == Ok(r)
  {
    hide TrimSpace, NextToken, TrimLeft, WhiteSpace, Uint16From, NumberOf, Params, ItemsOk, ItemsText;
    CoreIsSplit(p, text, r);
    NumberIsRead(p.priority);
    if r.priority != 0 {
      NoBlanksAtAll();
      SpelledIsParsed(p.items, "");
      assert Behind(p) == ItemsText(p.items) + "";
    }
  }

  lemma {:induction false} NoBlanksAtAll()
    ensures Blanks("")
  {
  }

  lemma {:induction false} TokenTaken(s: string)
    ensures var (tok, rest) := NextToken(s); NoBlanks(tok) && s == tok + rest && (rest == "" || Blank(rest[0]))
  {
    TokenScanned("", s);
  }

  lemma {:induction false} SpaceTrimmed(text: string) returns (lead: string, trail: string)
    ensures var core := TrimSpace(text);
            && WhiteSpace(lead) && WhiteSpace(trail) && text == lead + (core + trail)
            && (core != "" ==> !Space(core[|core| - 1]))
  {
    hide WhiteSpace, All, TrimLeft, TrimRight, Space;
    var t := TrimLeft(text, Space);
    lead, trail := text[..|text| - |t|], t[|TrimRight(t, Space)|..];
    FrontTrimmed(text, Space);
    AllSpace(lead);
    BackTrimmed(t, Space);
    AllSpace(trail);
    RightEnd(t);
  }

  lemma {:induction false} RightEnd(t: string)
    ensures var core := TrimRight(t, Space);
            core <= t && t == core + t[|core|..] && (core != "" ==> !Space(core[|core| - 1]))
  {
    hide TrimRight, Space;
  }

  /** The tokens in front of the parameters. */
  lemma {:induction false} HeadTaken(core: string) returns (pri: string, gap: string, target: string, tail: string)
    ensures var (a, rest) := NextToken(core); a == pri && NextToken(TrimLeft(rest, Blank)) == (target, tail)
    ensures core == pri + (gap + (target + tail)) && Blanks(gap) && NoBlanks(target) && (tail == "" || Blank(tail[0]))
    ensures target != "" ==> gap != ""
  {
    hide NextToken, TrimLeft, NoBlanks, Blanks, Blank;
    var (head, rest) := NextToken(core);
    var (tok, behind) := NextToken(TrimLeft(rest, Blank));
    pri, target, tail := head, tok, behind;
    gap := rest[..|rest| - |TrimLeft(rest, Blank)|];
    TokenTaken(core);
    TokenTaken(TrimLeft(rest, Blank));
    TrimmedGap(rest);
    if target != "" { TrimmedNothing(rest); }
  }

  lemma {:induction false} ParsedHasSpelling(text: string, r: Record) returns (p: Spelling)
    requires ParseText(text) == Ok(r)
    ensures Spells(p, text, r)
  {
    hide TrimSpace, NextToken, TrimLeft, WhiteSpace, Uint16From, NumberOf, Params, ItemsOk, ItemsText, NoBlanks, Blanks, Space;
    var lead, trail := SpaceTrimmed(text);
    var core := TrimSpace(text);
    var pri, gap, target, tail := HeadTaken(core);
    NumberIsRead(pri);
    SpaceIsWhite(core[|core| - 1]);
    var items, ignored := [], tail;
    if r.priority == 0 {
      NoItems();
      assert "" + tail == tail;
    } else {
      var blanks;
      items, blanks := ParsedIsSpelled(tail);
      SpelledMeans(tail, items, blanks);
      if tail == "" { ItemsTextEmpty(items); }
      if tail != "" { assert core[|core| - 1] == tail[|tail| - 1]; }
      EndsPlain(tail, items, blanks, core[|core| - 1]);
      ignored := "";
      assert tail == ItemsText(items) + "";
    }
    p := Spelling(lead, pri, gap, target, items, ignored, trail);
    assert Core(p) == core;
    BlankIs(tail);
  }

  lemma {:induction false} BlankIs(tail: string)
    ensures tail != "" && Blank(tail[0]) ==> tail[0] == ' ' || tail[0] == '\t'
  {
  }

  lemma {:induction false} TrimmedNothing(rest: string)
    requires TrimLeft(rest, Blank) != "" && (rest == "" || Blank(rest[0]))
    ensures rest != "" && |TrimLeft(rest, Blank)| < |rest|
  {
    hide TrimLeft;
    TrimmedGap(rest);
    if rest == "" { TrimNothing(rest, Blank); }
  }

  lemma {:induction false} SpelledMeans(s: string, items: seq<Spaced>, trail: string)
    requires SpelledAs(s, items, trail)
    ensures ItemsOk(items) && Blanks(trail) && s == ItemsText(items) + trail && Params(s) == Ok(ItemParams(items))
    ensures s != "" && Blank(s[0]) && items != [] ==> items[0].gap != ""
  {
  }

  /** A text that ends in no white space has no blanks left over behind its parameters. */
  lemma {:induction false} EndsPlain(tail: string, items: seq<Spaced>, blanks: string, last: char)
    requires Blanks(blanks) && tail == ItemsText(items) + blanks && !Space(last)
    requires tail != "" ==> tail[|tail| - 1] == last
    ensures blanks == ""
  {
    if blanks != "" {
      BlankEnd(ItemsText(items), blanks);
    }
  }

  lemma {:induction false} BlankEnd(head: string, blanks: string)
    requires Blanks(blanks) && blanks != ""
    ensures var s := head + blanks; Space(s[|s| - 1])
  {
    assert blanks[|blanks| - 1] in blanks;
  }

  /** Parse accepts exactly the texts that this grammar spells, and reads each as it is spelled. */
  lemma {:induction false} ParseAcceptsExactly(text: string, r: Record)
    ensures ParseText(text) == Ok(r) <==> exists p :: Spells(p, text, r)
  {
    hide ParseText, Spells;
    if ParseText(text) == Ok(r) {
      var p := ParsedHasSpelling(text, r);
    }
    if p :| Spells(p, text, r) {
      SpellsIsParsed(p, text, r);
    }
  }

  // ---------------------------------------------------------------- what is printed

  /** A record as the tool itself writes it, where no value needs escaping: single blanks, no leading zeros, a bare key for
      an empty value and quotes around every other. */
  predicate Canonical(p: Spelling) {
    && p.lead == "" && p.trail == "" && p.ignored == "" && p.gap == " " && Token(p.target)
    && Digits(p.priority) && (p.priority[0] == '0' ==> p.priority == "0" && p.items == []) && NumberOf(p.priority) <= 0xFFFF
    && CanonicalItems(p.items)
  }

  predicate CanonicalItems(items: seq<Spaced>) {
    forall x | x in items ::
      && x.gap == " " && KeyToken(x.item.key)
      && match x.item
         case Bare(_) => true
         case Assigned(_, _) => false
         case Quoted(_, v) => v != "" && EscapeFree(v)
  }

  lemma {:induction false} CanonicalRest(items: seq<Spaced>)
    requires CanonicalItems(items) && items != []
    ensures CanonicalItems(items[1..]) && CanonicalItems([items[0]])
  {
    assert items[0] in items && forall x | x in items[1..] :: x in items;
  }

  lemma {:induction false} KeyTokenIsKey(k: string)
    requires KeyToken(k)
    ensures KeyText(k)
  {
  }

  lemma {:induction false} CanonicalItem(x: Spaced)
    requires CanonicalItems([x])
    ensures x.gap == " " && ItemOk(x.item) && PrintParam(ItemParam(x.item)) == x.gap + ItemText(x.item)
    ensures ItemText(x.item) != "" && !Space(ItemText(x.item)[|ItemText(x.item)| - 1])
  {
    hide EscapeFree, Escape, KeyText, KeyToken;
    assert x in [x];
    KeyTokenIsKey(x.item.key);
    KeyTokenNonempty(x.item.key);
    if x.item.Quoted? {
      var k, v := x.item.key, x.item.value;
      EscapeIdentity(v);
      NoQuoteInside(v);
      assert " " + k + "=\"" + v + "\"" == " " + (k + "=\"" + v + "\"");
    }
  }

  lemma {:induction false} NoQuoteInside(v: string)
    requires EscapeFree(v)
    ensures '\"' !in v
  {
  }

  lemma {:induction false} CanonicalPrinted(items: seq<Spaced>)
    requires CanonicalItems(items)
    ensures ItemsOk(items) && PrintParams(ItemParams(items)) == ItemsText(items)
    ensures items != [] ==> ItemsText(items) != "" && !Space(ItemsText(items)[|ItemsText(items)| - 1])
  {
    hide CanonicalItems, ItemText, ItemOk, PrintParam, ItemParam, Space;
    if items != [] {
      var x, rest := items[0], items[1..];
      CanonicalRest(items);
      CanonicalItem(x);
      if rest != [] { CanonicalRest(rest); CanonicalItem(rest[0]); }
      CanonicalPrinted(rest);
      OneBlank();
      assert ItemParams(items)[1..] == ItemParams(rest);
      Associates(x.gap, ItemText(x.item), ItemsText(rest));
      if rest == [] { assert ItemsText(items) == x.gap + (ItemText(x.item) + ""); }
    }
  }

  lemma {:induction false} OneBlank()
    ensures Blanks(" ")
  {
  }

  lemma {:induction false} DigitsPart(s: string)
    requires Digits(s)
    ensures var k := |s| - 1;
            && '0' <= s[k] <= '9' && s == s[..k] + [s[k]] && (k > 0 ==> Digits(s[..k]) && s[..k][0] == s[0])
            && NumberOf(s) == 10 * NumberOf(s[..k]) + (s[k] as int - '0' as int)
  {
    var k := |s| - 1;
    assert s[k] in s && forall c | c in s[..k] :: c in s;
  }

  lemma {:induction false} DecimalSnoc(n: nat, d: char)
    requires '0' <= d <= '9' && n > 0
    ensures Decimal(10 * n + (d as int - '0' as int)) == Decimal(n) + [d]
  {
    var m := 10 * n + (d as int - '0' as int);
    assert m / 10 == n && m % 10 == d as int - '0' as int;
  }

  lemma {:induction false} NumberPrinted(s: string)
    requires Digits(s) && (s[0] == '0' ==> s == "0")
    ensures Decimal(NumberOf(s)) == s && (NumberOf(s) == 0 <==> s == "0")
  {
    var k := |s| - 1;
    DigitsPart(s);
    if k == 0 {
      OneDigit(s);
    } else {
      hide Digits, NumberOf, Decimal;
      NumberPrinted(s[..k]);
      assert s[..k] != "0";
      DecimalSnoc(NumberOf(s[..k]), s[k]);
    }
  }

  lemma {:induction false} OneDigit(s: string)
    requires Digits(s) && |s| == 1
    ensures Decimal(NumberOf(s)) == s && (NumberOf(s) == 0 <==> s == "0")
  {
    assert s[0] in s && s[..0] == "" && s == [s[0]];
  }

  /** The record that a canonical text spells. */
  function RecordOf(p: Spelling): Record
    requires NumberOf(p.priority) <= 0xFFFF
  {
    Record(NumberOf(p.priority), p.target, ItemParams(p.items))
  }

  /** A canonical text ends in no white space. */
  lemma {:induction false} CanonicalEnds(p: Spelling)
    requires Canonical(p)
    ensures ItemsOk(p.items) && !WhiteSpace([Core(p)[|Core(p)| - 1]])
  {
    hide CanonicalItems, ItemsOk, ItemsText, Space, WhiteSpace, NumberOf, Digits;
    CanonicalPrinted(p.items);
    TokenIsText(p.target);
    NoItems();
    var tail := ItemsText(p.items);
    assert Behind(p) == tail;
    var last := if p.items == [] then p.target[|p.target| - 1] else tail[|tail| - 1];
    assert Core(p)[|Core(p)| - 1] == last;
    SpaceIsWhite(last);
  }

  lemma {:induction false} CanonicalSpells(p: Spelling)
    requires Canonical(p)
    ensures Spells(p, Core(p), RecordOf(p)) && (RecordOf(p).priority == 0 <==> p.priority == "0")
  {
    hide CanonicalItems, ItemsOk, ItemsText, Space, WhiteSpace, ItemParams, Core, NumberOf;
    NumberPrinted(p.priority);
    OneBlank();
    TokenIsText(p.target);
    NoItems();
    CanonicalEnds(p);
    NoWhite();
    assert Core(p) == p.lead + (Core(p) + p.trail);
    if p.items != [] { GapOfCanonical(p.items); }
  }

  lemma {:induction false} NoWhite()
    ensures WhiteSpace("")
  {
  }

  lemma {:induction false} GapOfCanonical(items: seq<Spaced>)
    requires CanonicalItems(items) && items != []
    ensures items[0].gap == " "
  {
    assert items[0] in items;
  }

  lemma {:induction false} TokenIsText(t: string)
    requires Token(t)
    ensures t != "" && NoBlanks(t) && !Space(t[|t| - 1])
  {
    assert t[|t| - 1] in t;
  }

  /** A canonical text is parsed and printed back as it is, character for character: bare keys stay bare. */
  lemma {:induction false} CanonicalFixpoint(p: Spelling)
    requires Canonical(p)
    ensures ParseText(Core(p)) == Ok(RecordOf(p)) && Print(RecordOf(p)) == Core(p)
  {
    hide ParseText, Spells, CanonicalItems, ItemsText, PrintParams, ItemParams, Decimal, NumberOf;
    CanonicalSpells(p);
    SpellsIsParsed(p, Core(p), RecordOf(p));
    CanonicalPrinted(p.items);
    NumberPrinted(p.priority);
    assert Behind(p) == ItemsText(p.items);
    Associates(Decimal(NumberOf(p.priority)), " ", p.target);
    if p.priority == "0" { NoItems(); assert p.target + "" == p.target; }
  }

  // ---------------------------------------------------------------- what a publish changes in the text

  /** The first ech becomes `ech="value"`; without one it is added at the end. */
  function WithEchItem(items: seq<Spaced>, value: string): seq<Spaced> {
    if items == [] then [Spaced(" ", Quoted("ech", value))]
    else if items[0].item.key == "ech" then [Spaced(" ", Quoted("ech", value))] + items[1..]
    else [items[0]] + WithEchItem(items[1..], value)
  }

  lemma {:induction false} WithParamCons(p: Param, rest: seq<Param>, key: string, value: string)
    ensures SvcParams.WithParam([p] + rest, key, value)
         == if p.key == key then [Param(key, value)] + rest else [p] + SvcParams.WithParam(rest, key, value)
  {
    var ps := [p] + rest;
    assert ps[1..] == rest;
    if p.key != key {
      assert SvcParams.ParamAt(ps, key) == 1 + SvcParams.ParamAt(rest, key);
    } else {
      assert SvcParams.ParamAt(ps, key) == 0;
      assert ps[0 := Param(key, value)] == [Param(key, value)] + rest;
    }
  }

  lemma {:induction false} EchItemIsParam(items: seq<Spaced>, value: string)
    ensures ItemParams(WithEchItem(items, value)) == SvcParams.WithParam(ItemParams(items), ECH, value)
  {
    hide SvcParams.WithParam, ItemParams;
    var e := Spaced(" ", Quoted("ech", value));
    if items == [] {
      ItemParamsCons(e, []);
      NoItems();
      EchOnly(value);
    } else {
      var x, rest := items[0], items[1..];
      assert items == [x] + rest;
      ItemParamsCons(x, rest);
      WithParamCons(ItemParam(x.item), ItemParams(rest), ECH, value);
      if x.item.key == "ech" {
        ItemParamsCons(e, rest);
      } else {
        EchItemIsParam(rest, value);
        ItemParamsCons(x, WithEchItem(rest, value));
      }
    }
  }

  lemma {:induction false} EchOnly(value: string)
    ensures SvcParams.WithParam([], ECH, value) == [Param(ECH, value)] + []
  {
  }

  lemma {:induction false} EchItemCanonical(items: seq<Spaced>, value: string)
    requires CanonicalItems(items) && value != "" && EscapeFree(value)
    ensures CanonicalItems(WithEchItem(items, value))
  {
    hide EscapeFree;
    assert KeyToken("ech");
    if items != [] {
      CanonicalRest(items);
      EchItemCanonical(items[1..], value);
    }
  }

  /** A publish of a canonical text changes its ech, or adds one, and not one other character; an alias stays as it is. */
  lemma {:induction false} PublishedText(p: Spelling, value: string)
    requires Canonical(p) && value != "" && EscapeFree(value)
    ensures Patched(Core(p), value)
         == Ok(Core(if p.priority == "0" then p else p.(items := WithEchItem(p.items, value))))
  {
    hide ParseText, Print, CanonicalItems, EscapeFree, Core, NumberOf, Token;
    CanonicalFixpoint(p);
    NumberPrinted(p.priority);
    if p.priority != "0" {
      var q := p.(items := WithEchItem(p.items, value));
      EchItemCanonical(p.items, value);
      EchItemIsParam(p.items, value);
      CanonicalFixpoint(q);
    }
  }

  // ---------------------------------------------------------------- values that need escaping

  /** Reading a quoted string by Go's rules, as far as printable ASCII and tabs need them. */
  function Unquoted(s: string): Option<string> {
    if s == "" then Some("")
    else if s[0] == '\\' then
      if |s| < 2 then None
      else match Unquoted(s[2..])
        case None => None
        case Some(v) =>
          if s[1] == '\\' || s[1] == '\"' then Some([s[1]] + v)
          else if s[1] == 't' then Some("\t" + v)
          else None
    else if s[0] == '\"' || s[0] < ' ' || s[0] > '~' then None
    else match Unquoted(s[1..])
      case None => None
      case Some(v) => Some([s[0]] + v)
  }

  lemma {:induction false} UnquotedChar(c: char, rest: string, v: string)
    requires (Printable(c) || c == '\t') && Unquoted(rest) == Some(v)
    ensures Unquoted(EscapeChar(c) + rest) == Some([c] + v)
  {
    var s := EscapeChar(c) + rest;
    if |EscapeChar(c)| == 2 { assert s[2..] == rest; } else { assert s[1..] == rest; }
  }

  /** What %q writes between its quotes is read back as the value by those rules, whatever the value. */
  lemma {:induction false} EscapeIsQuoting(v: string)
    requires InAlphabet(v)
    ensures Unquoted(Escape(v)) == Some(v)
  {
    if v != "" {
      hide Unquoted, EscapeChar, Escape;
      assert v[0] in v && forall d | d in v[1..] :: d in v;
      EscapeIsQuoting(v[1..]);
      UnquotedChar(v[0], Escape(v[1..]), v[1..]);
      assert v == [v[0]] + v[1..];
      EscapeCons(v[0], v[1..]);
    }
  }

  // ---------------------------------------------------------------- an example

  const KEYLESS: string := "1 . " + ("no-default-alpn" + (" " + "alpn=\"h3\""))

  const KEYLESS_ITEMS: seq<Spaced> := [Spaced(" ", Bare("no-default-alpn")), Spaced(" ", Quoted("alpn", "h3"))]

  lemma {:induction false} TwoItems(a: Spaced, b: Spaced)
    ensures ItemsText([a, b]) == a.gap + (ItemText(a.item) + (b.gap + ItemText(b.item)))
    ensures ItemParams([a, b]) == [ItemParam(a.item), ItemParam(b.item)]
    ensures CanonicalItems([a]) && CanonicalItems([b]) ==> CanonicalItems([a, b])
  {
    hide ItemText, ItemParam;
    assert [a, b][1..] == [b] && [b][1..] == [];
    assert ItemsText([b]) == b.gap + (ItemText(b.item) + "");
    assert ItemText(b.item) + "" == ItemText(b.item);
    assert forall x | x in [a, b] :: x in [a] || x in [b];
  }

  lemma {:induction false} KeylessCanonical()
    ensures CanonicalItems(KEYLESS_ITEMS)
  {
    hide CanonicalItems;
    var a, b := Spaced(" ", Bare("no-default-alpn")), Spaced(" ", Quoted("alpn", "h3"));
    assert CanonicalItems([a]) by { BareCanonical("no-default-alpn"); }
    assert CanonicalItems([b]) by { QuotedCanonical("alpn", "h3"); }
    TwoItems(a, b);
  }

  lemma {:induction false} BareCanonical(k: string)
    requires KeyToken(k)
    ensures CanonicalItems([Spaced(" ", Bare(k))])
  {
  }

  lemma {:induction false} QuotedCanonical(k: string, v: string)
    requires KeyToken(k) && v != "" && EscapeFree(v)
    ensures CanonicalItems([Spaced(" ", Quoted(k, v))])
  {
  }

  lemma {:induction false} KeylessText()
    ensures "1" + (" " + ("." + (" " + ("no-default-alpn" + (" " + ("alpn" + "=\"" + "h3" + "\"")))))) == KEYLESS
  {
    assert "alpn" + "=\"" + "h3" + "\"" == "alpn=\"h3\"";
    AfterHead("no-default-alpn" + (" " + "alpn=\"h3\""));
  }

  lemma {:induction false} AfterHead(tail: string)
    ensures "1" + (" " + ("." + (" " + tail))) == "1 . " + tail
  {
  }

  lemma {:induction false} EchText()
    ensures " " + ("ech" + "=\"" + "AEX+DQBB" + "\"") == " ech=\"AEX+DQBB\""
  {
  }

  lemma {:induction false} KeylessSpelled(p: Spelling)
    requires p == Spelling("", "1", " ", ".", KEYLESS_ITEMS, "", "")
    ensures Canonical(p) && Core(p) == KEYLESS
    ensures RecordOf(p) == Record(1, ".", [Param("no-default-alpn", ""), Param("alpn", "h3")])
  {
    hide CanonicalItems, ItemsText, ItemParams, Digits, Token, NumberOf;
    NumberOfOne();
    KeylessCanonical();
    TwoItems(KEYLESS_ITEMS[0], KEYLESS_ITEMS[1]);
    KeylessText();
    assert Behind(p) == ItemsText(KEYLESS_ITEMS);
  }

  lemma {:induction false} KeylessWithEch(e: Spaced)
    requires e == Spaced(" ", Quoted("ech", "AEX+DQBB"))
    ensures WithEchItem(KEYLESS_ITEMS, "AEX+DQBB") == KEYLESS_ITEMS + [e] && EscapeFree("AEX+DQBB")
  {
    var a, b := KEYLESS_ITEMS[0], KEYLESS_ITEMS[1];
    assert KEYLESS_ITEMS[1..] == [b] && [b][1..] == [];
    assert "no-default-alpn"[0] != "ech"[0] && "alpn"[0] != "ech"[0];
    assert WithEchItem([b], "AEX+DQBB") == [b] + [e];
  }

  /** A parameter without a value is printed as it was read, and a publish adds the ech behind it. */
  lemma {:induction false} KeylessExample()
    ensures ParseText(KEYLESS) == Ok(Record(1, ".", [Param("no-default-alpn", ""), Param("alpn", "h3")]))
    ensures Print(ParseText(KEYLESS).value) == KEYLESS
    ensures Patched(KEYLESS, "AEX+DQBB") == Ok(KEYLESS + " ech=\"AEX+DQBB\"")
  {
    hide *;
    var p := Spelling("", "1", " ", ".", KEYLESS_ITEMS, "", "");
    var e := Spaced(" ", Quoted("ech", "AEX+DQBB"));
    KeylessSpelled(p);
    CanonicalFixpoint(p);
    KeylessWithEch(e);
    PublishedText(p, "AEX+DQBB");
    CoreAppended(p, e);
    EchText();
    EchItemText("AEX+DQBB");
    assert "1"[0] != "0"[0];
  }

  lemma {:induction false} EchItemText(value: string)
    ensures ItemText(Quoted("ech", value)) == "ech" + "=\"" + value + "\""
  {
  }

  lemma {:induction false} NumberOfOne()
    ensures NumberOf("1") == 1 && Digits("1") && Token(".")
  {
    assert "1"[..0] == "" && NumberOf("") == 0;
  }

  lemma {:induction false} CoreAppended(p: Spelling, x: Spaced)
    requires p.ignored == ""
    ensures Core(p.(items := p.items + [x])) == Core(p) + (x.gap + ItemText(x.item))
  {
    hide ItemText;
    ItemsTextSnoc(p.items, x);
    assert ItemsText(p.items) + "" == ItemsText(p.items);
  }

  lemma {:induction false} ItemsTextSnoc(items: seq<Spaced>, x: Spaced)
    ensures ItemsText(items + [x]) == ItemsText(items) + (x.gap + ItemText(x.item))
  {
    hide ItemText;
    if items == [] {
      assert [] + [x] == [x] && [x][1..] == [];
      assert ItemsText([x]) == x.gap + (ItemText(x.item) + "");
    } else {
      ItemsTextSnoc(items[1..], x);
      assert (items + [x])[1..] == items[1..] + [x];
    }
  }
}
