/** internal/pemfile: the two PEM blocks of a .ech file. The PEM armour and PKCS#8 wrapping are not modelled:
    a file is the sequence of its decoded blocks, and the key block holds the raw private key. */
module PemFile {
  import opened Prelude
  import opened EchConfig
  import Base64
  import Svcb
  import SvcbGrammar
  import Names

  const PRIVATE_KEY: string := "PRIVATE KEY"
  const ECHCONFIG: string := "ECHCONFIG"
  const KEM_X25519: u16 := 0x0020

  datatype Block = Block(kind: string, bytes: seq<byte>)

  datatype KeyPair = KeyPair(kemId: u16, publicKey: seq<byte>, privateKey: seq<byte>)

  datatype File = File(keyPair: KeyPair, configList: seq<byte>)

  /** An X25519 scalar or point. */
  type Key32 = k: seq<byte> | |k| == 32 witness seq(32, i => 0)

  type Derivation = f: Key32 -> Key32 | true witness (k: Key32) => k

  /** The public half of an X25519 private key: some fixed function. */
  const PublicOf: Derivation

  /** The two halves of an X25519 pair belong together. */
  predicate Matched(kp: KeyPair) {
    kp.kemId == KEM_X25519 && |kp.privateKey| == 32 && kp.publicKey == PublicOf(kp.privateKey)
  }

  function UpperChar(c: char): char {
    if 'a' <= c <= 'z' then (c as int - 'a' as int + 'A' as int) as char else c
  }

  function Upper(s: string): string {
    if s == "" then "" else [UpperChar(s[0])] + Upper(s[1..])
  }

  predicate IsKey(b: Block) { Upper(b.kind) == PRIVATE_KEY }

  predicate IsEch(b: Block) { Upper(b.kind) == ECHCONFIG }

  /** Marshal: the private key first. */
  function Marshal(kp: KeyPair, configList: seq<byte>): Result<seq<Block>> {
    if configList == [] || kp.kemId != KEM_X25519 then Err
    else Ok([Block(PRIVATE_KEY, kp.privateKey), Block(ECHCONFIG, configList)])
  }

  predicate Base64Byte(c: byte) {
    || 'A' as int <= c <= 'Z' as int || 'a' as int <= c <= 'z' as int || '0' as int <= c <= '9' as int
    || c == '+' as int || c == '/' as int || c == '=' as int
    || c == '\n' as int || c == '\r' as int || c == ' ' as int || c == '\t' as int
  }

  predicate LooksLikeBase64(b: seq<byte>) {
    |b| >= 4 && forall c | c in b :: Base64Byte(c)
  }

  function Text(b: seq<byte>): string {
    seq(|b|, i requires 0 <= i < |b| => b[i] as char)
  }

  /** The second base64 decoding some writers make necessary. */
  function Undouble(b: seq<byte>): seq<byte> {
    if !LooksLikeBase64(b) then b
    else match Base64.Decode(Svcb.TrimSpace(Text(b)))
      case None => b
      case Some(d) => d
  }

  function Bodies(blocks: seq<Block>, wanted: Block -> bool): seq<seq<byte>> {
    if blocks == [] then []
    else (if wanted(blocks[0]) then [blocks[0].bytes] else []) + Bodies(blocks[1..], wanted)
  }

  /** What Parse makes of the bodies of the two kinds of blocks, whatever stood between and around them. */
  function FileOf(keys: seq<seq<byte>>, echs: seq<seq<byte>>): Result<File> {
    if |keys| == 1 && |echs| == 1 && |keys[0]| == 32
    then Ok(File(KeyPair(KEM_X25519, PublicOf(keys[0]), keys[0]), Undouble(echs[0])))
    else Err
  }

  function ParsedFile(blocks: seq<Block>): Result<File> {
    FileOf(Bodies(blocks, IsKey), Bodies(blocks, IsEch))
  }

  lemma BodiesCons(x: Block, rest: seq<Block>, wanted: Block -> bool)
    ensures Bodies([x] + rest, wanted) == (if wanted(x) then [x.bytes] else []) + Bodies(rest, wanted)
  {
    assert ([x] + rest)[1..] == rest;
  }

  lemma {:induction false} BodiesConcat(a: seq<Block>, b: seq<Block>, wanted: Block -> bool)
    ensures Bodies(a + b, wanted) == Bodies(a, wanted) + Bodies(b, wanted)
  {
    if a == [] {
      assert a + b == b;
    } else {
      hide Bodies;
      BodiesConcat(a[1..], b, wanted);
      HeadAndRest(a, b);
      BodiesCons(a[0], a[1..] + b, wanted);
      BodiesCons(a[0], a[1..], wanted);
      Associates(if wanted(a[0]) then [a[0].bytes] else [], Bodies(a[1..], wanted), Bodies(b, wanted));
    }
  }

  lemma KindsDiffer(b: Block)
    ensures !(IsKey(b) && IsEch(b))
  {
    assert PRIVATE_KEY[0] != ECHCONFIG[0];
  }

  /** The block loop. */
  method Parse(blocks: seq<Block>) returns (r: Result<File>)
    ensures r == ParsedFile(blocks)
  {
    hide Undouble, IsKey, IsEch;
    var keyBlock: Option<seq<byte>> := None;
    var echBlock: Option<seq<byte>> := None;
    for i := 0 to |blocks|
      invariant Bodies(blocks[..i], IsKey) == (if keyBlock.Some? then [keyBlock.value] else [])
      invariant Bodies(blocks[..i], IsEch) == (if echBlock.Some? then [echBlock.value] else [])
    {
      var b := blocks[i];
      Grow(blocks, i, IsKey);
      Grow(blocks, i, IsEch);
      KindsDiffer(b);
      if IsKey(b) {
        if keyBlock.Some? { return Err; }
        keyBlock := Some(b.bytes);
      } else if IsEch(b) {
        if echBlock.Some? { return Err; }
        echBlock := Some(b.bytes);
      }
    }
    assert blocks[..|blocks|] == blocks;
    if keyBlock.None? || echBlock.None? || |keyBlock.value| != 32 { return Err; }
    return Ok(File(KeyPair(KEM_X25519, PublicOf(keyBlock.value), keyBlock.value), Undouble(echBlock.value)));
  }

  lemma Grow(blocks: seq<Block>, i: nat, wanted: Block -> bool)
    requires i < |blocks|
    ensures Bodies(blocks[..i + 1], wanted)
         == Bodies(blocks[..i], wanted) + (if wanted(blocks[i]) then [blocks[i].bytes] else [])
    ensures |Bodies(blocks, wanted)| >= |Bodies(blocks[..i + 1], wanted)|
  {
    assert blocks[..i + 1] == blocks[..i] + [blocks[i]];
    BodiesConcat(blocks[..i], [blocks[i]], wanted);
    assert Bodies([blocks[i]], wanted) == if wanted(blocks[i]) then [blocks[i].bytes] else [];
    assert blocks == blocks[..i + 1] + blocks[i + 1..];
    BodiesConcat(blocks[..i + 1], blocks[i + 1..], wanted);
  }

  /** The one block that is wanted. */
  ghost predicate OnlyAt(blocks: seq<Block>, wanted: Block -> bool, i: nat) {
    && i < |blocks| && wanted(blocks[i])
    && forall j | 0 <= j < |blocks| && j != i :: !wanted(blocks[j])
  }

  lemma {:induction false} OnlyBody(blocks: seq<Block>, wanted: Block -> bool, i: nat)
    requires OnlyAt(blocks, wanted, i)
    ensures Bodies(blocks, wanted) == [blocks[i].bytes]
  {
    hide Bodies;
    var a, b := blocks[..i], blocks[i + 1..];
    assert blocks == a + [blocks[i]] + b;
    forall f | f in a ensures !wanted(f) { var j :| 0 <= j < |a| && a[j] == f; assert blocks[j] == f; }
    forall f | f in b ensures !wanted(f) { var j :| 0 <= j < |b| && b[j] == f; assert blocks[i + 1 + j] == f; }
    NoBodies(a, wanted);
    NoBodies(b, wanted);
    OneBody(blocks[i], wanted);
    BodiesConcat(a + [blocks[i]], b, wanted);
    BodiesConcat(a, [blocks[i]], wanted);
  }

  lemma {:induction false} BodyComesFrom(blocks: seq<Block>, wanted: Block -> bool) returns (i: nat)
    requires |Bodies(blocks, wanted)| == 1
    ensures OnlyAt(blocks, wanted, i)
  {
    if wanted(blocks[0]) {
      i := 0;
      NoneLeft(blocks[1..], wanted);
      forall j | 1 <= j < |blocks| ensures !wanted(blocks[j]) { assert blocks[j] == blocks[1..][j - 1]; }
    } else {
      i := BodyComesFrom(blocks[1..], wanted);
      forall j | 1 <= j < |blocks| && j != i + 1 ensures !wanted(blocks[j]) { assert blocks[j] == blocks[1..][j - 1]; }
      i := i + 1;
    }
  }

  lemma {:induction false} NoneLeft(blocks: seq<Block>, wanted: Block -> bool)
    requires Bodies(blocks, wanted) == []
    ensures forall f | f in blocks :: !wanted(f)
  {
    if blocks != [] {
      NoneLeft(blocks[1..], wanted);
      assert forall f | f in blocks :: f == blocks[0] || f in blocks[1..];
    }
  }

  /** Exactly which files parse: one block of each kind, the private key in 32 bytes. */
  lemma ParsesExactly(blocks: seq<Block>)
    ensures ParsedFile(blocks).Ok? <==>
              exists i: nat, j: nat :: OnlyAt(blocks, IsKey, i) && OnlyAt(blocks, IsEch, j) && |blocks[i].bytes| == 32
    ensures forall i: nat, j: nat | OnlyAt(blocks, IsKey, i) && OnlyAt(blocks, IsEch, j) && ParsedFile(blocks).Ok? ::
              && ParsedFile(blocks).value.keyPair.privateKey == blocks[i].bytes
              && ParsedFile(blocks).value.configList == Undouble(blocks[j].bytes)
  {
    hide IsKey, IsEch, Undouble, Bodies, OnlyAt;
    forall i: nat, j: nat | OnlyAt(blocks, IsKey, i) && OnlyAt(blocks, IsEch, j)
      ensures i < |blocks| && j < |blocks|
      ensures Bodies(blocks, IsKey) == [blocks[i].bytes] && Bodies(blocks, IsEch) == [blocks[j].bytes]
    {
      OnlyBody(blocks, IsKey, i);
      OnlyBody(blocks, IsEch, j);
      OnlyIsThere(blocks, IsKey, i);
      OnlyIsThere(blocks, IsEch, j);
    }
    if ParsedFile(blocks).Ok? {
      var i := BodyComesFrom(blocks, IsKey);
      var j := BodyComesFrom(blocks, IsEch);
      OnlyIsThere(blocks, IsKey, i);
    }
  }

  lemma OnlyIsThere(blocks: seq<Block>, wanted: Block -> bool, i: nat)
    requires OnlyAt(blocks, wanted, i)
    ensures i < |blocks|
  {
  }

  /** Parse ignores the order of the two blocks and every block of another kind, wherever it stands. */
  lemma OrderIndependent(a: seq<Block>, b: seq<Block>, c: seq<Block>, x: Block, y: Block)
    requires IsKey(x) && IsEch(y)
    requires forall f | f in a + b + c :: !IsKey(f) && !IsEch(f)
    ensures ParsedFile(a + [x] + b + [y] + c) == ParsedFile([x, y])
    ensures ParsedFile(a + [y] + b + [x] + c) == ParsedFile([x, y])
  {
    hide IsKey, IsEch, FileOf, Bodies;
    KindsDiffer(x);
    KindsDiffer(y);
    assert !IsEch(x) && !IsKey(y);
    assert [] + [x.bytes] == [x.bytes] + [] && [] + [y.bytes] == [y.bytes] + [];
    assert forall f | f in a || f in b || f in c :: f in a + b + c;
    BodiesOfFive(a, x, b, y, c, IsKey);
    BodiesOfFive(a, x, b, y, c, IsEch);
    BodiesOfFive(a, y, b, x, c, IsKey);
    BodiesOfFive(a, y, b, x, c, IsEch);
    BodiesOfFive([], x, [], y, [], IsKey);
    BodiesOfFive([], x, [], y, [], IsEch);
    assert [] + [x] + [] + [y] + [] == [x, y];
  }

  lemma BodiesOfFive(a: seq<Block>, x: Block, b: seq<Block>, y: Block, c: seq<Block>, wanted: Block -> bool)
    requires forall f | f in a || f in b || f in c :: !wanted(f)
    ensures Bodies(a + [x] + b + [y] + c, wanted)
         == (if wanted(x) then [x.bytes] else []) + (if wanted(y) then [y.bytes] else [])
  {
    hide Bodies;
    BodiesConcat(a + [x] + b + [y], c, wanted);
    BodiesConcat(a + [x] + b, [y], wanted);
    BodiesConcat(a + [x], b, wanted);
    BodiesConcat(a, [x], wanted);
    NoBodies(a, wanted);
    NoBodies(b, wanted);
    NoBodies(c, wanted);
    OneBody(x, wanted);
    OneBody(y, wanted);
  }

  lemma {:induction false} NoBodies(a: seq<Block>, wanted: Block -> bool)
    requires forall f | f in a :: !wanted(f)
    ensures Bodies(a, wanted) == []
  {
    if a != [] {
      NoBodies(a[1..], wanted);
    }
  }

  lemma OneBody(x: Block, wanted: Block -> bool)
    ensures Bodies([x], wanted) == if wanted(x) then [x.bytes] else []
  {
  }

  /** The ECHConfig a key file holds: the first one of its list. */
  function KeyOf(blocks: seq<Block>): Option<Config> {
    match ParsedFile(blocks)
    case Err => None
    case Ok(f) =>
      match DecodeList(f.configList)
      case Err => None
      case Ok(l) => if l.configs == [] then None else Some(l.configs[0])
  }

  /** That config, if the private key of the file fits it: what a server can serve with the file. */
  function FittingKey(blocks: seq<Block>): Option<Config> {
    match KeyOf(blocks)
    case None => None
    case Some(c) => if c.publicKey == ParsedFile(blocks).value.keyPair.publicKey then Some(c) else None
  }

  /** What serving a file takes: a 32-byte private key whose public half is in the file's first config. */
  lemma FittingMeans(blocks: seq<Block>, c: Config)
    requires FittingKey(blocks) == Some(c)
    ensures ParsedFile(blocks).Ok? && Matched(ParsedFile(blocks).value.keyPair)
    ensures |ParsedFile(blocks).value.keyPair.privateKey| == 32
    ensures PublicOf(ParsedFile(blocks).value.keyPair.privateKey) == c.publicKey
    ensures var l := DecodeList(ParsedFile(blocks).value.configList); l.Ok? && l.value.configs != [] && l.value.configs[0] == c
  {
    hide DecodeList, Bodies, Undouble;
  }

  /** A stored list that starts with a known config never looks like base64. */
  lemma KnownListIsNotBase64(l: List)
    requires ListEncodable(l) && l.configs != []
    ensures !LooksLikeBase64(ListBytes(l))
  {
    hide BodyBytes, Prefixed16, Base64Byte;
    var raws := RawsOf(l);
    assert raws[0] == Raw(VERSION, BodyBytes(l.configs[0]));
    var inner := RawBytes(raws);
    assert inner == U16(VERSION) + (Prefixed16(raws[0].body) + RawBytes(raws[1..]));
    assert inner[0] == 0xFE;
    ThirdByte(inner);
    var bytes := ListBytes(l);
    assert bytes[2] in bytes;
    HighByteIsNotBase64();
  }

  lemma ThirdByte(inner: seq<byte>)
    requires 0 < |inner| <= 0xFFFF
    ensures Prefixed16(inner)[2] == inner[0]
  {
  }

  lemma HighByteIsNotBase64()
    ensures !Base64Byte(0xFE)
  {
  }

  /** Stored keys read back exactly: key pair, list and config; and the file can be served exactly when the config is for
      the public half of the stored private key. */
  lemma StoredKeyReadsBack(kp: KeyPair, c: Config)
    requires ListEncodable(List([c], [])) && kp.kemId == KEM_X25519 && |kp.privateKey| == 32
    ensures var bytes := ListBytes(List([c], []));
            && Marshal(kp, bytes).Ok?
            && ParsedFile(Marshal(kp, bytes).value) == Ok(File(KeyPair(KEM_X25519, PublicOf(kp.privateKey), kp.privateKey), bytes))
            && (ParsedFile(Marshal(kp, bytes).value).value.keyPair == kp <==> Matched(kp))
            && KeyOf(Marshal(kp, bytes).value) == Some(c)
            && (FittingKey(Marshal(kp, bytes).value) == Some(c) <==> c.publicKey == PublicOf(kp.privateKey))
  {
    hide DecodeList, LooksLikeBase64, Prefixed16, RawBytes, ListEncodable, IsKey, IsEch, Bodies;
    var l := List([c], []);
    var bytes := ListBytes(l);
    KnownListIsNotBase64(l);
    ListRoundTrip(l);
    ListBytesNonempty(l);
    var x, y := Block(PRIVATE_KEY, kp.privateKey), Block(ECHCONFIG, bytes);
    BlockKinds(x, y);
    BodiesOfFive([], x, [], y, [], IsKey);
    BodiesOfFive([], x, [], y, [], IsEch);
    assert [] + [x] + [] + [y] + [] == [x, y];
  }

  lemma ListBytesNonempty(l: List)
    requires ListEncodable(l)
    ensures ListBytes(l) != []
  {
    hide RawBytes;
  }

  /** The list decodes and one of its configs carries the public key. */
  ghost predicate ReferencesKey(f: File) {
    && DecodeList(f.configList).Ok?
    && exists c | c in DecodeList(f.configList).value.configs :: c.publicKey == f.keyPair.publicKey
  }

  /** VerifyECHConfigList. */
  method VerifyEchConfigList(f: File) returns (ok: bool)
    ensures ok <==> ReferencesKey(f)
  {
    hide DecodeList;
    var list := UnmarshalList(f.configList);
    if list.Err? { return false; }
    for i := 0 to |list.value.configs|
      invariant forall j | 0 <= j < i :: list.value.configs[j].publicKey != f.keyPair.publicKey
    {
      if list.value.configs[i].publicKey == f.keyPair.publicKey { return true; }
    }
    return false;
  }

  /** A stored file passes the check exactly when its config was built for its private key. */
  lemma StoredKeyVerifies(kp: KeyPair, c: Config)
    requires ListEncodable(List([c], [])) && kp.kemId == KEM_X25519 && |kp.privateKey| == 32
    ensures var f := ParsedFile(Marshal(kp, ListBytes(List([c], []))).value);
            f.Ok? && (ReferencesKey(f.value) <==> c.publicKey == PublicOf(kp.privateKey))
  {
    hide DecodeList, ParsedFile, ListEncodable, ListBytes;
    StoredKeyReadsBack(kp, c);
    ListRoundTrip(List([c], []));
    assert c in [c];
  }

  lemma BlockKinds(x: Block, y: Block)
    requires x.kind == PRIVATE_KEY && y.kind == ECHCONFIG
    ensures IsKey(x) && !IsEch(x) && IsEch(y) && !IsKey(y)
  {
    hide Upper;
    UpperIdentity(PRIVATE_KEY);
    UpperIdentity(ECHCONFIG);
    KindsDiffer(x);
    KindsDiffer(y);
  }

  lemma {:induction false} UpperIdentity(s: string)
    requires forall i | 0 <= i < |s| :: !('a' <= s[i] <= 'z')
    ensures Upper(s) == s
  {
    if s != "" {
      UpperIdentity(s[1..]);
    }
  }

  // ---------------------------------------------------------------- other writers' files

  /** Letter by letter, in any case. */
  predicate SameLetters(s: string, capitals: string) {
    && |s| == |capitals|
    && forall i | 0 <= i < |s| ::
         s[i] == capitals[i] || (capitals[i] in Names.SMALL && s[i] == Names.SMALL[capitals[i]])
  }

  lemma UpperLetter(c: char, capital: char)
    requires !('a' <= capital <= 'z')
    ensures UpperChar(c) == capital <==> c == capital || (capital in Names.SMALL && c == Names.SMALL[capital])
  {
    Names.LoweredLetter(capital);
  }

  lemma {:induction false} UpperIs(s: string, capitals: string)
    requires forall c | c in capitals :: !('a' <= c <= 'z')
    ensures Upper(s) == capitals <==> SameLetters(s, capitals)
  {
    hide UpperChar;
    if s != "" && capitals != "" {
      assert capitals[0] in capitals && forall c | c in capitals[1..] :: c in capitals;
      UpperIs(s[1..], capitals[1..]);
      UpperLetter(s[0], capitals[0]);
      assert Upper(s) == [UpperChar(s[0])] + Upper(s[1..]);
      assert capitals == [capitals[0]] + capitals[1..];
      assert Upper(s) == capitals <==> UpperChar(s[0]) == capitals[0] && Upper(s[1..]) == capitals[1..];
      SameRest(s, capitals);
    }
  }

  lemma SameRest(s: string, capitals: string)
    requires s != "" && capitals != ""
    ensures SameLetters(s, capitals) <==>
              (s[0] == capitals[0] || (capitals[0] in Names.SMALL && s[0] == Names.SMALL[capitals[0]]))
              && SameLetters(s[1..], capitals[1..])
  {
    if SameLetters(s[1..], capitals[1..]) {
      forall i | 1 <= i < |s| && |s| == |capitals|
        ensures s[i] == capitals[i] || (capitals[i] in Names.SMALL && s[i] == Names.SMALL[capitals[i]])
      {
        assert s[i] == s[1..][i - 1] && capitals[i] == capitals[1..][i - 1];
      }
    }
  }

  /** The two kinds of blocks, by name, in any case. */
  lemma KindsByName(b: Block)
    ensures IsKey(b) <==> SameLetters(b.kind, "PRIVATE KEY")
    ensures IsEch(b) <==> SameLetters(b.kind, "ECHCONFIG")
  {
    hide Upper, SameLetters;
    UpperIs(b.kind, "PRIVATE KEY");
    UpperIs(b.kind, "ECHCONFIG");
  }

  /** ASCII text as bytes. */
  function Ascii(s: string): (r: seq<byte>)
    requires forall c | c in s :: c as int < 0x80
    ensures |r| == |s| && forall i | 0 <= i < |s| :: r[i] == s[i] as int
  {
    if s == "" then [] else assert s[0] in s && forall c | c in s[1..] :: c in s; [s[0] as int] + Ascii(s[1..])
  }

  predicate LineSpace(s: string) {
    forall c | c in s :: c == ' ' || c == '\t' || c == '\n' || c == '\r'
  }

  lemma Base64IsAscii(c: char)
    requires Base64.IsBase64Char(c)
    ensures c as int < 0x80 && Base64Byte(c as int) && !Svcb.Space(c)
  {
  }

  lemma WrappedIsAscii(lead: string, d: seq<byte>, trail: string)
    requires LineSpace(lead) && LineSpace(trail) && d != []
    ensures var s := lead + (Base64.Encode(d) + trail);
            && (forall c | c in s :: c as int < 0x80 && Base64Byte(c as int)) && |s| >= 4
            && Svcb.TrimSpace(s) == Base64.Encode(d)
  {
    hide Svcb.TrimSpace, Svcb.Space, Base64.IsBase64Char, Base64Byte;
    var e := Base64.Encode(d);
    EncodedLength(d);
    forall c | c in e ensures c as int < 0x80 && Base64Byte(c as int) && !Svcb.Space(c) { Base64IsAscii(c); }
    forall c | c in lead || c in trail ensures c as int < 0x80 && Base64Byte(c as int) { LineSpaceIsAscii(c); }
    assert e[0] in e && e[|e| - 1] in e;
    LineSpaceIsWhite(lead);
    LineSpaceIsWhite(trail);
    SvcbGrammar.TrimsToCore(lead, e, trail);
  }

  lemma LineSpaceIsAscii(c: char)
    requires c == ' ' || c == '\t' || c == '\n' || c == '\r'
    ensures c as int < 0x80 && Base64Byte(c as int)
  {
  }

  lemma LineSpaceIsWhite(s: string)
    requires LineSpace(s)
    ensures SvcbGrammar.WhiteSpace(s)
  {
    assert ' ' in " \t\n\r" && '\t' in " \t\n\r" && '\n' in " \t\n\r" && '\r' in " \t\n\r";
  }

  lemma EncodedLength(d: seq<byte>)
    requires d != []
    ensures |Base64.Encode(d)| >= 4
  {
  }

  /** A body that was encoded once more, with white space around it, is decoded once more. */
  lemma DoubledIsUndone(lead: string, d: seq<byte>, trail: string)
    requires LineSpace(lead) && LineSpace(trail) && d != []
    ensures var s := lead + (Base64.Encode(d) + trail);
            (forall c | c in s :: c as int < 0x80) && Undouble(Ascii(s)) == d
  {
    hide Svcb.TrimSpace, Base64.Encode, Base64.Decode, Base64Byte, LineSpace, Ascii, Text, LooksLikeBase64;
    WrappedIsAscii(lead, d, trail);
    AsciiLooksLikeBase64(lead + (Base64.Encode(d) + trail));
    Base64.RoundTrip(d);
  }

  lemma AsciiLooksLikeBase64(s: string)
    requires |s| >= 4 && forall c | c in s :: c as int < 0x80 && Base64Byte(c as int)
    ensures LooksLikeBase64(Ascii(s)) && Text(Ascii(s)) == s
  {
    hide Base64Byte, Ascii;
    var b := Ascii(s);
    forall c | c in b ensures Base64Byte(c) {
      var i :| 0 <= i < |b| && b[i] == c;
      assert s[i] in s;
    }
  }

  /** Files of other writers: any case, and a doubly encoded list. */
  lemma ForeignFileReads(key: Key32, keyKind: string, echKind: string, lead: string, list: seq<byte>, trail: string)
    requires SameLetters(keyKind, "PRIVATE KEY") && SameLetters(echKind, "ECHCONFIG")
    requires LineSpace(lead) && LineSpace(trail) && list != []
    ensures var s := lead + (Base64.Encode(list) + trail);
            && (forall c | c in s :: c as int < 0x80)
            && ParsedFile([Block(keyKind, key), Block(echKind, Ascii(s))])
               == Ok(File(KeyPair(0x0020, PublicOf(key), key), list))
  {
    hide Undouble, IsKey, IsEch, SameLetters, LineSpace, Base64.Encode, Ascii, Bodies;
    DoubledIsUndone(lead, list, trail);
    var x, y := Block(keyKind, key), Block(echKind, Ascii(lead + (Base64.Encode(list) + trail)));
    KindsByName(x);
    KindsByName(y);
    KindsDiffer(x);
    KindsDiffer(y);
    BodiesOfFive([], x, [], y, [], IsKey);
    BodiesOfFive([], x, [], y, [], IsEch);
    assert [] + [x] + [] + [y] + [] == [x, y];
  }

  /** The tool's own names for them. */
  lemma OwnKinds(kp: KeyPair, configList: seq<byte>)
    ensures Marshal(kp, configList).Ok? <==> configList != [] && kp.kemId == 0x0020
    ensures Marshal(kp, configList).Ok? ==>
              Marshal(kp, configList).value == [Block("PRIVATE KEY", kp.privateKey), Block("ECHCONFIG", configList)]
  {
  }
}
