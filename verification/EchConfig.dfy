/** internal/echconfig: the ECHConfig and ECHConfigList wire format (section 4 of RFC 9849). */
module EchConfig {
  import opened Prelude

  const VERSION: u16 := 0xFE0D

  datatype CipherSuite = CipherSuite(kdf: u16, aead: u16)

  datatype Extension = Extension(kind: u16, data: seq<byte>)

  datatype Config = Config(
    configId: byte,
    kemId: u16,
    publicKey: seq<byte>,
    cipherSuites: seq<CipherSuite>,
    maximumNameLength: byte,
    publicName: seq<byte>,
    extensions: seq<Extension>)

  datatype UnknownEntry = UnknownEntry(version: u16, body: seq<byte>)

  datatype List = List(configs: seq<Config>, unknown: seq<UnknownEntry>)

  // ---------------------------------------------------------------- wire primitives

  function U16(v: u16): (r: seq<byte>)
    ensures |r| == 2
  {
    [v / 0x100, v % 0x100]
  }

  function Prefixed16(body: seq<byte>): (r: seq<byte>)
    requires |body| <= 0xFFFF
    ensures |r| == 2 + |body|
  {
    U16(|body|) + body
  }

  function Prefixed8(body: seq<byte>): (r: seq<byte>)
    requires |body| <= 0xFF
    ensures |r| == 1 + |body|
  {
    [|body|] + body
  }

  /** A cursor read: the value read and the bytes after it. */
  datatype Read<+T> = Read(value: T, rest: seq<byte>)

  function Word(hi: byte, lo: byte): u16 {
    hi as int * 0x100 + lo as int
  }

  function ReadU8(s: seq<byte>): Option<Read<byte>> {
    if |s| < 1 then None else Some(Read(s[0], s[1..]))
  }

  function ReadU16(s: seq<byte>): Option<Read<u16>> {
    if |s| < 2 then None else Some(Read(Word(s[0], s[1]), s[2..]))
  }

  function ReadPrefixed16(s: seq<byte>): Option<Read<seq<byte>>> {
    if |s| < 2 then None else
      var n := Word(s[0], s[1]) as int;
      if |s| < 2 + n then None else Some(Read(s[2..2 + n], s[2 + n..]))
  }

  function ReadPrefixed8(s: seq<byte>): Option<Read<seq<byte>>> {
    if |s| < 1 then None else
      var n := s[0] as int;
      if |s| < 1 + n then None else Some(Read(s[1..1 + n], s[1 + n..]))
  }

  lemma WordBytes(hi: byte, lo: byte)
    ensures U16(Word(hi, lo)) == [hi, lo]
  {
    var w := hi as int * 0x100 + lo as int;
    assert w / 0x100 == hi && w % 0x100 == lo;
  }

  lemma ReadU16Of(v: u16, tail: seq<byte>)
    ensures ReadU16(U16(v) + tail) == Some(Read(v, tail))
  {
    assert (U16(v) + tail)[2..] == tail;
  }

  lemma ReadPrefixed16Of(body: seq<byte>, tail: seq<byte>)
    requires |body| <= 0xFFFF
    ensures ReadPrefixed16(Prefixed16(body) + tail) == Some(Read(body, tail))
  {
    var s := Prefixed16(body) + tail;
    assert Word(s[0], s[1]) == |body|;
    assert s[2..2 + |body|] == body;
    assert s[2 + |body|..] == tail;
  }

  lemma ReadPrefixed8Of(body: seq<byte>, tail: seq<byte>)
    requires |body| <= 0xFF
    ensures ReadPrefixed8(Prefixed8(body) + tail) == Some(Read(body, tail))
  {
    var s := Prefixed8(body) + tail;
    assert s[1..1 + |body|] == body;
    assert s[1 + |body|..] == tail;
  }

  /** What a successful read consumed is exactly the encoding of what it returned. */
  lemma ReadPrefixed16Exact(s: seq<byte>)
    requires ReadPrefixed16(s).Some?
    ensures var r := ReadPrefixed16(s).value;
            |r.value| <= 0xFFFF && s == Prefixed16(r.value) + r.rest
  {
    var r := ReadPrefixed16(s).value;
    WordBytes(s[0], s[1]);
    assert U16(|r.value|) == s[..2];
    assert s == s[..2] + r.value + r.rest;
  }

  lemma ReadU16Exact(s: seq<byte>)
    requires ReadU16(s).Some?
    ensures s == U16(ReadU16(s).value.value) + ReadU16(s).value.rest
  {
    WordBytes(s[0], s[1]);
    assert s == [s[0], s[1]] + s[2..];
  }

  lemma ReadPrefixed8Exact(s: seq<byte>)
    requires ReadPrefixed8(s).Some?
    ensures var r := ReadPrefixed8(s).value;
            |r.value| <= 0xFF && s == Prefixed8(r.value) + r.rest
  {
    var r := ReadPrefixed8(s).value;
    assert s == s[..1] + r.value + r.rest;
  }

  // ---------------------------------------------------------------- bodies

  function SuiteBytes(suites: seq<CipherSuite>): (r: seq<byte>)
    ensures |r| == 4 * |suites|
  {
    if suites == [] then [] else U16(suites[0].kdf) + U16(suites[0].aead) + SuiteBytes(suites[1..])
  }

  function ExtensionsSize(exts: seq<Extension>): nat {
    if exts == [] then 0 else 4 + |exts[0].data| + ExtensionsSize(exts[1..])
  }

  ghost predicate ExtensionsFit(exts: seq<Extension>) {
    forall i | 0 <= i < |exts| :: |exts[i].data| <= 0xFFFF
  }

  ghost function ExtensionBytes(exts: seq<Extension>): (r: seq<byte>)
    requires ExtensionsFit(exts)
    ensures |r| == ExtensionsSize(exts)
  {
    if exts == [] then []
    else U16(exts[0].kind) + Prefixed16(exts[0].data) + ExtensionBytes(exts[1..])
  }

  /** The size of the encoded ECHConfigContents. */
  function BodySize(c: Config): nat {
    11 + |c.publicKey| + 4 * |c.cipherSuites| + |c.publicName| + ExtensionsSize(c.extensions)
  }

  /** Every length prefix can hold its child. */
  ghost predicate Sized(c: Config) {
    |c.publicName| <= 0xFF && BodySize(c) <= 0xFFFF
  }

  /** The exact domain of MarshalBinary. */
  ghost predicate Encodable(c: Config) {
    1 <= |c.publicKey| && 1 <= |c.cipherSuites| && 1 <= |c.publicName| && Sized(c)
  }

  lemma {:induction false} BoundedExtensionsFit(exts: seq<Extension>)
    requires ExtensionsSize(exts) <= 0xFFFF
    ensures ExtensionsFit(exts)
  {
    if exts != [] {
      BoundedExtensionsFit(exts[1..]);
      forall i | 0 <= i < |exts| ensures |exts[i].data| <= 0xFFFF {
        if i > 0 { assert exts[i] == exts[1..][i - 1]; }
      }
    }
  }

  /** The encoding of the fields after the public key. */
  ghost function TailBytes(c: Config): (r: seq<byte>)
    requires Sized(c)
    ensures |r| == BodySize(c) - 5 - |c.publicKey|
  {
    BoundedExtensionsFit(c.extensions);
    Prefixed16(SuiteBytes(c.cipherSuites))
    + ([c.maximumNameLength] + (Prefixed8(c.publicName) + Prefixed16(ExtensionBytes(c.extensions))))
  }

  ghost function BodyBytes(c: Config): (r: seq<byte>)
    requires Sized(c)
    ensures |r| == BodySize(c)
  {
    [c.configId] + (U16(c.kemId) + (Prefixed16(c.publicKey) + TailBytes(c)))
  }

  /** A complete list entry: version, length, body. */
  ghost function ConfigBytes(c: Config): (r: seq<byte>)
    requires Sized(c)
    ensures |r| == 4 + BodySize(c)
  {
    U16(VERSION) + Prefixed16(BodyBytes(c))
  }

  // ---------------------------------------------------------------- decoding, as functions

  function Suites(s: seq<byte>): seq<CipherSuite>
    requires |s| % 4 == 0
  {
    if s == [] then []
    else [CipherSuite(Word(s[0], s[1]), Word(s[2], s[3]))] + Suites(s[4..])
  }

  function Extensions(s: seq<byte>): Result<seq<Extension>> {
    if s == [] then Ok([])
    else match ReadU16(s)
      case None => Err
      case Some(k) =>
        match ReadPrefixed16(k.rest)
        case None => Err
        case Some(d) =>
          match Extensions(d.rest)
          case Err => Err
          case Ok(tail) => Ok([Extension(k.value, d.value)] + tail)
  }

  /** The fields after the public key. */
  function Tail(into: Config, s: seq<byte>): Result<Config> {
    match ReadPrefixed16(s)
    case None => Err
    case Some(cs) =>
      if cs.value == [] || |cs.value| % 4 != 0 then Err else
      match ReadU8(cs.rest)
      case None => Err
      case Some(mnl) =>
        match ReadPrefixed8(mnl.rest)
        case None => Err
        case Some(pn) =>
          if pn.value == [] then Err else
          match ReadPrefixed16(pn.rest)
          case None => Err
          case Some(ext) =>
            match Extensions(ext.value)
            case Err => Err
            case Ok(exts) =>
              if ext.rest != [] then Err else
              Ok(into.(cipherSuites := into.cipherSuites + Suites(cs.value),
                       maximumNameLength := mnl.value,
                       publicName := pn.value,
                       extensions := into.extensions + exts))
  }

  /** parseBody decodes into a receiver: its suites and extensions are appended to, not replaced. */
  function ParseBodyInto(into: Config, s: seq<byte>): Result<Config> {
    match ReadU8(s)
    case None => Err
    case Some(id) =>
      match ReadU16(id.rest)
      case None => Err
      case Some(kem) =>
        match ReadPrefixed16(kem.rest)
        case None => Err
        case Some(pk) =>
          Tail(into.(configId := id.value, kemId := kem.value, publicKey := pk.value), pk.rest)
  }

  /** The extensions in front of the first malformed one. */
  function ExtensionsRead(s: seq<byte>): seq<Extension> {
    match ReadU16(s)
    case None => []
    case Some(k) =>
      match ReadPrefixed16(k.rest)
      case None => []
      case Some(d) => [Extension(k.value, d.value)] + ExtensionsRead(d.rest)
  }

  /** What a receiver holds after parseBody, however that ended: every field up to the first malformed one. */
  function Filled(into: Config, s: seq<byte>): Config {
    match ReadU8(s)
    case None => into
    case Some(id) =>
      match ReadU16(id.rest)
      case None => into.(configId := id.value)
      case Some(kem) =>
        match ReadPrefixed16(kem.rest)
        case None => into.(configId := id.value, kemId := kem.value)
        case Some(pk) => FilledTail(into.(configId := id.value, kemId := kem.value, publicKey := pk.value), pk.rest)
  }

  function FilledTail(c: Config, s: seq<byte>): Config {
    match ReadPrefixed16(s)
    case None => c
    case Some(cs) =>
      if cs.value == [] || |cs.value| % 4 != 0 then c else
      var suited := c.(cipherSuites := c.cipherSuites + Suites(cs.value));
      match ReadU8(cs.rest)
      case None => suited
      case Some(mnl) =>
        match ReadPrefixed8(mnl.rest)
        case None => suited.(maximumNameLength := mnl.value)
        case Some(pn) =>
          if pn.value == [] then suited.(maximumNameLength := mnl.value) else
          var named := suited.(maximumNameLength := mnl.value, publicName := pn.value);
          match ReadPrefixed16(pn.rest)
          case None => named
          case Some(ext) => named.(extensions := named.extensions + ExtensionsRead(ext.value))
  }

  lemma {:induction false} AllExtensionsRead(s: seq<byte>)
    ensures Extensions(s).Ok? ==> Extensions(s).value == ExtensionsRead(s)
    decreases |s|
  {
    hide Word;
    if Extensions(s).Ok? && s != [] {
      AllExtensionsRead(ReadPrefixed16(ReadU16(s).value.rest).value.rest);
    }
  }

  /** An accepted body fills every field; no body takes suites or extensions away from the receiver. */
  lemma FilledAccepts(into: Config, s: seq<byte>)
    ensures ParseBodyInto(into, s).Ok? ==> ParseBodyInto(into, s) == Ok(Filled(into, s))
    ensures into.cipherSuites <= Filled(into, s).cipherSuites && into.extensions <= Filled(into, s).extensions
  {
    hide Extensions, ExtensionsRead, Suites;
    forall x ensures Extensions(x).Ok? ==> Extensions(x).value == ExtensionsRead(x) { AllExtensionsRead(x); }
  }

  const FRESH: Config := Config(0, 0, [], [], 0, [], [])

  function ParseBody(s: seq<byte>): Result<Config> {
    ParseBodyInto(FRESH, s)
  }

  // ---------------------------------------------------------------- body round trips

  lemma {:induction false} SuitesOfBytes(suites: seq<CipherSuite>)
    ensures Suites(SuiteBytes(suites)) == suites
  {
    if suites != [] {
      SuitesOfBytes(suites[1..]);
      var s := SuiteBytes(suites);
      assert s[4..] == SuiteBytes(suites[1..]);
    }
  }

  lemma {:induction false} BytesOfSuites(s: seq<byte>)
    requires |s| % 4 == 0
    ensures SuiteBytes(Suites(s)) == s
  {
    if s != [] {
      BytesOfSuites(s[4..]);
      var head := Suites(s)[0];
      assert Suites(s)[1..] == Suites(s[4..]);
      assert U16(head.kdf) + U16(head.aead) == s[..4];
      assert s == s[..4] + s[4..];
    }
  }

  lemma {:induction false} ExtensionsOfBytes(exts: seq<Extension>)
    requires ExtensionsFit(exts)
    ensures Extensions(ExtensionBytes(exts)) == Ok(exts)
  {
    hide U16, Prefixed16, ReadU16, ReadPrefixed16;
    if exts != [] {
      ExtensionsOfBytes(exts[1..]);
      var tail := ExtensionBytes(exts[1..]);
      var rest := Prefixed16(exts[0].data) + tail;
      assert ExtensionBytes(exts) == U16(exts[0].kind) + rest;
      ReadU16Of(exts[0].kind, rest);
      ReadPrefixed16Of(exts[0].data, tail);
      assert ExtensionBytes(exts) != [];
      assert exts == [Extension(exts[0].kind, exts[0].data)] + exts[1..];
    }
  }

  lemma {:induction false} BytesOfExtensions(s: seq<byte>)
    requires Extensions(s).Ok?
    ensures var exts := Extensions(s).value;
            ExtensionsFit(exts) && ExtensionBytes(exts) == s
  {
    if s != [] {
      var k := ReadU16(s).value;
      var d := ReadPrefixed16(k.rest).value;
      ReadU16Exact(s);
      ReadPrefixed16Exact(k.rest);
      BytesOfExtensions(d.rest);
      var exts := Extensions(s).value;
      assert exts[1..] == Extensions(d.rest).value;
      assert U16(k.value) + (Prefixed16(d.value) + d.rest) == U16(k.value) + Prefixed16(d.value) + d.rest;
    }
  }

  lemma TailOfBytes(into: Config, c: Config)
    requires Sized(c) && c.cipherSuites != [] && c.publicName != []
    ensures Tail(into, TailBytes(c))
         == Ok(into.(cipherSuites := into.cipherSuites + c.cipherSuites,
                     maximumNameLength := c.maximumNameLength,
                     publicName := c.publicName,
                     extensions := into.extensions + c.extensions))
  {
    hide U16, Prefixed16, Prefixed8, ReadPrefixed16, ReadPrefixed8;
    hide Suites, SuiteBytes, Extensions, ExtensionBytes, ExtensionsSize;
    BoundedExtensionsFit(c.extensions);
    var ext := ExtensionBytes(c.extensions);
    var t3 := Prefixed16(ext);
    var t2 := Prefixed8(c.publicName) + t3;
    var t1 := [c.maximumNameLength] + t2;
    ReadPrefixed16Of(SuiteBytes(c.cipherSuites), t1);
    assert t1[1..] == t2;
    ReadPrefixed8Of(c.publicName, t3);
    assert t3 == t3 + [];
    ReadPrefixed16Of(ext, []);
    ExtensionsOfBytes(c.extensions);
    SuitesOfBytes(c.cipherSuites);
  }

  /** Decoding an encoded body into a receiver appends its suites and extensions to the receiver's. */
  lemma ParseBodyIntoOfBytes(into: Config, c: Config)
    requires Sized(c) && c.cipherSuites != [] && c.publicName != []
    ensures ParseBodyInto(into, BodyBytes(c))
         == Ok(c.(cipherSuites := into.cipherSuites + c.cipherSuites,
                  extensions := into.extensions + c.extensions))
  {
    hide U16, Prefixed16, ReadU16, ReadPrefixed16, Tail, TailBytes;
    var tail := TailBytes(c);
    var s2 := Prefixed16(c.publicKey) + tail;
    var s1 := U16(c.kemId) + s2;
    assert ([c.configId] + s1)[1..] == s1;
    ReadU16Of(c.kemId, s2);
    ReadPrefixed16Of(c.publicKey, tail);
    TailOfBytes(into.(configId := c.configId, kemId := c.kemId, publicKey := c.publicKey), c);
  }

  lemma BytesOfTail(into: Config, s: seq<byte>)
    requires Tail(into, s).Ok? && into.cipherSuites == [] && into.extensions == []
    requires |into.publicKey| + |s| + 5 <= 0xFFFF
    ensures var c := Tail(into, s).value;
            Sized(c) && c.cipherSuites != [] && c.publicName != [] && TailBytes(c) == s
  {
    hide U16, Prefixed16, Prefixed8, ReadPrefixed16, ReadPrefixed8;
    hide Suites, SuiteBytes, Extensions, ExtensionBytes, ExtensionsSize;
    var cs := ReadPrefixed16(s).value;
    var mnl := ReadU8(cs.rest).value;
    var pn := ReadPrefixed8(mnl.rest).value;
    var ext := ReadPrefixed16(pn.rest).value;
    ReadPrefixed16Exact(s);
    assert cs.rest == [mnl.value] + mnl.rest;
    ReadPrefixed8Exact(mnl.rest);
    ReadPrefixed16Exact(pn.rest);
    BytesOfExtensions(ext.value);
    BytesOfSuites(cs.value);
    var c := Tail(into, s).value;
    assert c.cipherSuites == Suites(cs.value);
    assert c.extensions == Extensions(ext.value).value;
    assert pn.rest == Prefixed16(ext.value);
  }

  /** Every accepted body is the one encoding of what it decodes to. */
  lemma BytesOfParseBody(s: seq<byte>)
    requires |s| <= 0xFFFF && ParseBody(s).Ok?
    ensures var c := ParseBody(s).value;
            Sized(c) && c.cipherSuites != [] && c.publicName != [] && BodyBytes(c) == s
  {
    hide ReadU16, ReadPrefixed16, Tail, TailBytes;
    var id := ReadU8(s).value;
    var kem := ReadU16(id.rest).value;
    var pk := ReadPrefixed16(kem.rest).value;
    assert s == [id.value] + id.rest;
    ReadU16Exact(id.rest);
    ReadPrefixed16Exact(kem.rest);
    var into := FRESH.(configId := id.value, kemId := kem.value, publicKey := pk.value);
    BytesOfTail(into, pk.rest);
    TailKeepsHead(into, pk.rest);
  }

  lemma TailKeepsHead(into: Config, s: seq<byte>)
    requires Tail(into, s).Ok?
    ensures var c := Tail(into, s).value;
            c.configId == into.configId && c.kemId == into.kemId && c.publicKey == into.publicKey
  {
  }

  // ---------------------------------------------------------------- lists

  /** One list entry as it sits on the wire. */
  datatype Raw = Raw(version: u16, body: seq<byte>)

  ghost predicate RawsFit(raws: seq<Raw>) {
    forall i | 0 <= i < |raws| :: |raws[i].body| <= 0xFFFF
  }

  ghost function RawBytes(raws: seq<Raw>): seq<byte>
    requires RawsFit(raws)
  {
    if raws == [] then [] else U16(raws[0].version) + (Prefixed16(raws[0].body) + RawBytes(raws[1..]))
  }

  /** The entries of a list's contents, in wire order. */
  function Split(s: seq<byte>): Result<seq<Raw>> {
    if s == [] then Ok([])
    else match ReadU16(s)
      case None => Err
      case Some(version) =>
        match ReadPrefixed16(version.rest)
        case None => Err
        case Some(body) =>
          match Split(body.rest)
          case Err => Err
          case Ok(tail) => Ok([Raw(version.value, body.value)] + tail)
  }

  /** Entries of the implemented version are decoded, all others are kept as they are. */
  function ListOf(raws: seq<Raw>): Result<List> {
    if raws == [] then Ok(List([], []))
    else match ListOf(raws[1..])
      case Err => Err
      case Ok(l) =>
        if raws[0].version == VERSION then
          match ParseBody(raws[0].body)
          case Err => Err
          case Ok(c) => Ok(List([c] + l.configs, l.unknown))
        else Ok(List(l.configs, [UnknownEntry(raws[0].version, raws[0].body)] + l.unknown))
  }

  function DecodeList(data: seq<byte>): Result<List> {
    match ReadPrefixed16(data)
    case None => Err
    case Some(inner) =>
      if inner.rest != [] || |inner.value| < 4 then Err else
      match Split(inner.value)
      case Err => Err
      case Ok(raws) => ListOf(raws)
  }

  ghost predicate ConfigsEncodable(configs: seq<Config>) {
    forall i | 0 <= i < |configs| :: Encodable(configs[i])
  }

  function UnknownRaws(unknown: seq<UnknownEntry>): (r: seq<Raw>)
    ensures |r| == |unknown|
    ensures forall i | 0 <= i < |r| :: r[i] == Raw(unknown[i].version, unknown[i].body)
  {
    seq(|unknown|, i requires 0 <= i < |unknown| => Raw(unknown[i].version, unknown[i].body))
  }

  ghost function ConfigRaws(configs: seq<Config>): (r: seq<Raw>)
    requires ConfigsEncodable(configs)
    ensures |r| == |configs|
    ensures forall i | 0 <= i < |r| :: r[i] == Raw(VERSION, BodyBytes(configs[i]))
    ensures RawsFit(r)
  {
    seq(|configs|, i requires 0 <= i < |configs| => Raw(VERSION, BodyBytes(configs[i])))
  }

  /** The entries MarshalList emits: every known one first, then every unknown one. */
  ghost function RawsOf(l: List): seq<Raw>
    requires ConfigsEncodable(l.configs)
  {
    ConfigRaws(l.configs) + UnknownRaws(l.unknown)
  }

  ghost predicate ListEncodable(l: List) {
    && ConfigsEncodable(l.configs)
    && RawsFit(UnknownRaws(l.unknown))
    && RawsOf(l) != []
    && |RawBytes(RawsOf(l))| <= 0xFFFF
  }

  ghost function ListBytes(l: List): seq<byte>
    requires ListEncodable(l)
  {
    Prefixed16(RawBytes(RawsOf(l)))
  }

  // ---------------------------------------------------------------- list round trips

  lemma RawBytesCons(x: Raw, rest: seq<Raw>)
    requires |x.body| <= 0xFFFF && RawsFit(rest)
    ensures RawsFit([x] + rest) && RawBytes([x] + rest) == U16(x.version) + (Prefixed16(x.body) + RawBytes(rest))
  {
    hide Prefixed16, U16;
    assert ([x] + rest)[1..] == rest;
  }

  lemma {:induction false} RawBytesConcat(a: seq<Raw>, b: seq<Raw>)
    requires RawsFit(a) && RawsFit(b)
    ensures RawsFit(a + b) && RawBytes(a + b) == RawBytes(a) + RawBytes(b)
  {
    hide Prefixed16, U16;
    if a == [] {
      assert a + b == b;
    } else {
      hide RawBytes;
      var x, rest := a[0], a[1..];
      RawBytesConcat(rest, b);
      HeadAndRest(a, b);
      RawBytesCons(x, rest + b);
      RawBytesCons(x, rest);
      Associates(Prefixed16(x.body), RawBytes(rest), RawBytes(b));
      Associates(U16(x.version), Prefixed16(x.body) + RawBytes(rest), RawBytes(b));
    }
  }

  lemma SplitCons(x: Raw, s: seq<byte>)
    requires |x.body| <= 0xFFFF && Split(s).Ok?
    ensures Split(U16(x.version) + (Prefixed16(x.body) + s)) == Ok([x] + Split(s).value)
  {
    hide ReadU16, ReadPrefixed16, Prefixed16, U16;
    ReadPrefixed16Of(x.body, s);
    ReadU16Of(x.version, Prefixed16(x.body) + s);
  }

  lemma {:induction false} SplitOfBytes(raws: seq<Raw>)
    requires RawsFit(raws)
    ensures Split(RawBytes(raws)) == Ok(raws)
  {
    if raws != [] {
      hide Split, RawBytes;
      SplitOfBytes(raws[1..]);
      HeadAndRest(raws, []);
      RawBytesCons(raws[0], raws[1..]);
      SplitCons(raws[0], RawBytes(raws[1..]));
    }
  }

  lemma {:induction false} BytesOfSplit(s: seq<byte>)
    requires Split(s).Ok?
    ensures RawsFit(Split(s).value) && RawBytes(Split(s).value) == s
    decreases |s|
  {
    hide ReadPrefixed16, Prefixed16, U16;
    if s != [] {
      var version := ReadU16(s).value;
      var body := ReadPrefixed16(version.rest).value;
      ReadU16Exact(s);
      ReadPrefixed16Exact(version.rest);
      BytesOfSplit(body.rest);
      var raws := Split(s).value;
      assert raws[1..] == Split(body.rest).value;
    }
  }

  lemma ConfigRawsCons(configs: seq<Config>)
    requires ConfigsEncodable(configs) && configs != []
    ensures ConfigsEncodable(configs[1..])
    ensures ConfigRaws(configs) == [Raw(VERSION, BodyBytes(configs[0]))] + ConfigRaws(configs[1..])
  {
    hide BodyBytes;
  }

  lemma {:induction false} ListOfConfigRaws(configs: seq<Config>, rest: seq<Raw>, l: List)
    requires ConfigsEncodable(configs) && ListOf(rest) == Ok(l)
    ensures ListOf(ConfigRaws(configs) + rest) == Ok(List(configs + l.configs, l.unknown))
  {
    hide ParseBody, BodyBytes, ConfigRaws, Encodable;
    var raws := ConfigRaws(configs) + rest;
    if configs == [] {
      assert raws == rest;
      assert configs + l.configs == l.configs;
    } else {
      ConfigRawsCons(configs);
      ListOfConfigRaws(configs[1..], rest, l);
      assert raws[1..] == ConfigRaws(configs[1..]) + rest;
      ParseBodyOfBytes(configs[0]);
      assert [configs[0]] + (configs[1..] + l.configs) == configs + l.configs;
    }
  }

  lemma ParseBodyOfBytes(c: Config)
    requires Encodable(c)
    ensures ParseBody(BodyBytes(c)) == Ok(c)
  {
    hide ParseBodyInto, BodyBytes;
    ParseBodyIntoOfBytes(FRESH, c);
    assert [] + c.cipherSuites == c.cipherSuites;
    assert [] + c.extensions == c.extensions;
  }

  lemma {:induction false} ListOfUnknownRaws(unknown: seq<UnknownEntry>)
    requires forall i | 0 <= i < |unknown| :: unknown[i].version != VERSION
    ensures ListOf(UnknownRaws(unknown)) == Ok(List([], unknown))
  {
    if unknown != [] {
      ListOfUnknownRaws(unknown[1..]);
      assert UnknownRaws(unknown)[1..] == UnknownRaws(unknown[1..]);
      assert [UnknownEntry(unknown[0].version, unknown[0].body)] + unknown[1..] == unknown;
    }
  }

  /** Round trip: what MarshalList accepts is decoded back exactly, with every order preserved. */
  lemma ListRoundTrip(l: List)
    requires ListEncodable(l)
    requires forall i | 0 <= i < |l.unknown| :: l.unknown[i].version != VERSION
    ensures DecodeList(ListBytes(l)) == Ok(l)
  {
    hide Split, ListOf, RawBytes, ReadPrefixed16, Prefixed16;
    var raws := RawsOf(l);
    var inner := RawBytes(raws);
    RawBytesAtLeastFour(raws);
    assert Prefixed16(inner) == Prefixed16(inner) + [];
    ReadPrefixed16Of(inner, []);
    SplitOfBytes(raws);
    ListOfUnknownRaws(l.unknown);
    ListOfConfigRaws(l.configs, UnknownRaws(l.unknown), List([], l.unknown));
    assert l.configs + [] == l.configs;
  }

  lemma RawBytesAtLeastFour(raws: seq<Raw>)
    requires RawsFit(raws) && raws != []
    ensures 4 <= |RawBytes(raws)|
  {
  }

  // ---------------------------------------------------------------- canonical decoding

  function Known(raws: seq<Raw>): seq<Raw> {
    if raws == [] then []
    else (if raws[0].version == VERSION then [raws[0]] else []) + Known(raws[1..])
  }

  function Foreign(raws: seq<Raw>): seq<Raw> {
    if raws == [] then []
    else (if raws[0].version != VERSION then [raws[0]] else []) + Foreign(raws[1..])
  }

  /** No unknown entry stands before a known one. */
  predicate KnownFirst(raws: seq<Raw>) {
    forall i, j | 0 <= i < j < |raws| :: raws[j].version == VERSION ==> raws[i].version == VERSION
  }

  ghost predicate KeysPresent(configs: seq<Config>) {
    forall i | 0 <= i < |configs| :: configs[i].publicKey != []
  }

  lemma {:induction false} ListOfParts(raws: seq<Raw>)
    requires RawsFit(raws) && ListOf(raws).Ok? && KeysPresent(ListOf(raws).value.configs)
    ensures var l := ListOf(raws).value;
            && ConfigsEncodable(l.configs)
            && ConfigRaws(l.configs) == Known(raws)
            && UnknownRaws(l.unknown) == Foreign(raws)
  {
    hide ParseBody, BodyBytes, ConfigRaws, UnknownRaws;
    if raws != [] {
      var l := ListOf(raws).value;
      var t := ListOf(raws[1..]).value;
      if raws[0].version == VERSION {
        assert l.configs[1..] == t.configs;
        assert forall i | 0 <= i < |t.configs| :: t.configs[i] == l.configs[i + 1];
        ListOfParts(raws[1..]);
        BytesOfParseBody(raws[0].body);
        assert Encodable(l.configs[0]);
        ConfigRawsCons(l.configs);
      } else {
        ListOfParts(raws[1..]);
        assert UnknownRaws(l.unknown) == [raws[0]] + UnknownRaws(t.unknown);
      }
    }
  }

  lemma {:induction false} PartsFit(raws: seq<Raw>)
    requires RawsFit(raws)
    ensures RawsFit(Known(raws)) && RawsFit(Foreign(raws))
    ensures |RawBytes(Known(raws))| + |RawBytes(Foreign(raws))| == |RawBytes(raws)|
    ensures |Known(raws)| + |Foreign(raws)| == |raws|
  {
    if raws != [] {
      hide RawBytes, Known, Foreign, U16, Prefixed16;
      var x, rest := raws[0], raws[1..];
      PartsFit(rest);
      PartsUnfold(raws);
      HeadAndRest(raws, []);
      RawBytesCons(x, rest);
      if x.version == VERSION {
        RawBytesCons(x, Known(rest));
        assert [] + Foreign(rest) == Foreign(rest);
      } else {
        RawBytesCons(x, Foreign(rest));
        assert [] + Known(rest) == Known(rest);
      }
    }
  }

  lemma {:induction false} PartsAreVersioned(raws: seq<Raw>)
    ensures forall r | r in Known(raws) :: r.version == VERSION
    ensures forall r | r in Foreign(raws) :: r.version != VERSION
  {
    if raws != [] {
      PartsAreVersioned(raws[1..]);
    }
  }

  lemma {:induction false} AllForeign(raws: seq<Raw>)
    requires forall i | 0 <= i < |raws| :: raws[i].version != VERSION
    ensures Known(raws) == [] && Foreign(raws) == raws
  {
    if raws != [] {
      AllForeign(raws[1..]);
    }
  }

  lemma PartsUnfold(raws: seq<Raw>)
    requires raws != []
    ensures Known(raws) == (if raws[0].version == VERSION then [raws[0]] else []) + Known(raws[1..])
    ensures Foreign(raws) == (if raws[0].version != VERSION then [raws[0]] else []) + Foreign(raws[1..])
  {
  }

  lemma KnownFirstRest(raws: seq<Raw>)
    requires KnownFirst(raws) && raws != []
    ensures KnownFirst(raws[1..])
  {
    assert forall i | 0 <= i < |raws| - 1 :: raws[1..][i] == raws[i + 1];
  }

  lemma {:induction false} KnownFirstReordered(raws: seq<Raw>)
    requires KnownFirst(raws)
    ensures Known(raws) + Foreign(raws) == raws
  {
    if raws != [] {
      if raws[0].version == VERSION {
        hide Known, Foreign, KnownFirst;
        var rest := raws[1..];
        KnownFirstRest(raws);
        KnownFirstReordered(rest);
        PartsUnfold(raws);
        HeadAndRest(raws, []);
        Associates([raws[0]], Known(rest), Foreign(rest));
        assert [] + Foreign(rest) == Foreign(rest);
      } else {
        AllForeign(raws);
      }
    }
  }

  lemma KnownFirstIffReordered(raws: seq<Raw>)
    ensures Known(raws) + Foreign(raws) == raws <==> KnownFirst(raws)
  {
    hide Known, Foreign;
    PartsAreVersioned(raws);
    var k, f := Known(raws), Foreign(raws);
    if k + f == raws {
      assert forall i | 0 <= i < |k| :: raws[i] == k[i] && raws[i] in k;
      assert forall i | |k| <= i < |raws| :: raws[i] == f[i - |k|] && raws[i] in f;
    }
    if KnownFirst(raws) {
      KnownFirstReordered(raws);
    }
  }

  /** The entries of an accepted list, in wire order. */
  function EntriesOf(data: seq<byte>): seq<Raw>
    requires DecodeList(data).Ok?
  {
    Split(ReadPrefixed16(data).value.value).value
  }

  lemma EntriesAreTheData(data: seq<byte>)
    requires DecodeList(data).Ok?
    ensures var raws := EntriesOf(data);
            && RawsFit(raws) && raws != []
            && |RawBytes(raws)| <= 0xFFFF && data == Prefixed16(RawBytes(raws))
            && DecodeList(data) == ListOf(raws)
  {
    hide Prefixed16, ListOf;
    var inner := ReadPrefixed16(data).value;
    ReadPrefixed16Exact(data);
    BytesOfSplit(inner.value);
  }

  /** Canonical decoding. A decoded list whose keys are all present re-encodes, at the same length, to the
      stable known-then-unknown reordering of the original entries; that is the input itself exactly when no
      unknown entry preceded a known one; and decoding the result changes nothing any more. */
  lemma CanonicalDecoding(data: seq<byte>)
    requires DecodeList(data).Ok?
    requires KeysPresent(DecodeList(data).value.configs)
    ensures var l, raws := DecodeList(data).value, EntriesOf(data);
            && RawsFit(Known(raws) + Foreign(raws)) && |RawBytes(Known(raws) + Foreign(raws))| <= 0xFFFF
            && ListEncodable(l)
            && ListBytes(l) == Prefixed16(RawBytes(Known(raws) + Foreign(raws)))
            && |ListBytes(l)| == |data|
            && (ListBytes(l) == data <==> KnownFirst(raws))
            && DecodeList(ListBytes(l)) == Ok(l)
  {
    hide DecodeList, Known, Foreign, KnownFirst, ListOf, RawBytes, EntriesOf;
    var l, raws := DecodeList(data).value, EntriesOf(data);
    EntriesAreTheData(data);
    ListOfParts(raws);
    PartsFit(raws);
    RawBytesConcat(Known(raws), Foreign(raws));
    KnownFirstIffReordered(raws);
    PartsAreVersioned(raws);
    SplitOfBytes(raws);
    SplitOfBytes(Known(raws) + Foreign(raws));
    forall i | 0 <= i < |l.unknown| ensures l.unknown[i].version != VERSION {
      assert UnknownRaws(l.unknown)[i] in Foreign(raws);
    }
    if ListBytes(l) == data {
      assert RawBytes(raws) == data[2..] == RawBytes(Known(raws) + Foreign(raws));
    }
    ListRoundTrip(l);
  }

  /** An empty public key is decoded but never re-encoded: the condition above is exact. */
  lemma EmptyKeyDoesNotReencode(data: seq<byte>)
    requires DecodeList(data).Ok?
    ensures ListEncodable(DecodeList(data).value) <==> KeysPresent(DecodeList(data).value.configs)
  {
    hide DecodeList;
    var l := DecodeList(data).value;
    if KeysPresent(l.configs) {
      CanonicalDecoding(data);
    }
  }

  /** If a list fits, so does every non-empty first part of it. */
  lemma FirstPartFits(a: seq<Config>, b: seq<Config>)
    requires a != [] && ListEncodable(List(a + b, []))
    ensures ListEncodable(List(a, []))
  {
    hide BodyBytes, RawBytes, Encodable;
    assert forall i | 0 <= i < |a| :: (a + b)[i] == a[i];
    assert forall i | 0 <= i < |b| :: (a + b)[|a| + i] == b[i];
    assert ConfigRaws(a + b) == ConfigRaws(a) + ConfigRaws(b);
    RawBytesConcat(ConfigRaws(a), ConfigRaws(b));
    assert RawsOf(List(a + b, [])) == ConfigRaws(a + b);
    assert RawsOf(List(a, [])) == ConfigRaws(a);
    assert ConfigRaws(a) != [];
  }

  // ---------------------------------------------------------------- the size of a rotation list

  /** n configs of one shape: k-byte keys, s suites, a p-byte public name and no extensions. */
  predicate Uniform(configs: seq<Config>, k: nat, s: nat, p: nat) {
    forall c | c in configs ::
      |c.publicKey| == k && |c.cipherSuites| == s && |c.publicName| == p && c.extensions == []
  }

  lemma RawBytesSize(raws: seq<Raw>)
    requires RawsFit(raws) && raws != []
    ensures |RawBytes(raws)| == 4 + |raws[0].body| + |RawBytes(raws[1..])|
  {
  }

  lemma OneMore(n: nat, k: nat)
    requires n > 0
    ensures n * k == k + (n - 1) * k
  {
  }

  lemma {:induction false} UniformRawBytes(configs: seq<Config>, size: nat)
    requires ConfigsEncodable(configs)
    requires forall c | c in configs :: BodySize(c) == size
    ensures |RawBytes(ConfigRaws(configs))| == |configs| * (4 + size)
  {
    hide BodyBytes, BodySize, Encodable, ConfigRaws;
    if configs == [] {
      assert ConfigRaws(configs) == [];
    } else {
      hide RawBytes;
      var raws, rest := ConfigRaws(configs), configs[1..];
      assert forall c | c in rest :: c in configs;
      UniformRawBytes(rest, size);
      ConfigRawsCons(configs);
      assert raws[1..] == ConfigRaws(rest);
      assert configs[0] in configs;
      RawBytesSize(raws);
      OneMore(|configs|, 4 + size);
    }
  }

  lemma UniformEncodable(configs: seq<Config>, s: nat, p: nat)
    requires Uniform(configs, 32, s, p) && configs != []
    ensures ConfigsEncodable(configs) <==> 1 <= s && 1 <= p <= 0xFF && 43 + 4 * s + p <= 0xFFFF
    ensures forall c | c in configs :: BodySize(c) == 43 + 4 * s + p
  {
    forall i | 0 <= i < |configs| ensures BodySize(configs[i]) == 43 + 4 * s + p {
      assert configs[i] in configs;
    }
    assert configs[0] in configs;
  }

  lemma KnownListEncodable(configs: seq<Config>)
    ensures ListEncodable(List(configs, [])) <==>
              ConfigsEncodable(configs) && configs != [] && |RawBytes(ConfigRaws(configs))| <= 0xFFFF
  {
    hide BodyBytes, RawBytes, Encodable;
    if ConfigsEncodable(configs) {
      assert RawsOf(List(configs, [])) == ConfigRaws(configs);
    }
  }

  lemma UniformSize(configs: seq<Config>, s: nat, p: nat)
    requires Uniform(configs, 32, s, p) && configs != [] && ConfigsEncodable(configs)
    ensures |RawBytes(ConfigRaws(configs))| == |configs| * (47 + 4 * s + p)
  {
    hide RawBytes, ConfigsEncodable, Uniform, BodySize;
    UniformEncodable(configs, s, p);
    UniformRawBytes(configs, 43 + 4 * s + p);
  }

  lemma AtLeastOne(n: nat, size: nat)
    requires n > 0
    ensures n * size >= size
  {
    OneMore(n, size);
  }

  /** Exactly which overlap lists of X25519 keys fit. */
  lemma OverlapListFits(configs: seq<Config>, s: nat, p: nat)
    requires Uniform(configs, 32, s, p)
    ensures ListEncodable(List(configs, []))
       <==> 1 <= |configs| && 1 <= s && 1 <= p <= 0xFF && |configs| * (47 + 4 * s + p) <= 0xFFFF
  {
    hide RawBytes, ConfigsEncodable, ListEncodable, Uniform, BodySize;
    KnownListEncodable(configs);
    if configs != [] {
      UniformEncodable(configs, s, p);
      AtLeastOne(|configs|, 47 + 4 * s + p);
      if ConfigsEncodable(configs) {
        UniformSize(configs, s, p);
      }
    }
  }

  // ---------------------------------------------------------------- the loops

  lemma {:induction false} SuiteBytesSnoc(suites: seq<CipherSuite>, s: CipherSuite)
    ensures SuiteBytes(suites + [s]) == SuiteBytes(suites) + (U16(s.kdf) + U16(s.aead))
  {
    hide U16;
    if suites != [] {
      SuiteBytesSnoc(suites[1..], s);
      assert (suites + [s])[1..] == suites[1..] + [s];
    }
  }

  lemma {:induction false} ExtensionBytesSnoc(exts: seq<Extension>, e: Extension)
    requires ExtensionsFit(exts) && |e.data| <= 0xFFFF
    ensures ExtensionsFit(exts + [e])
    ensures ExtensionBytes(exts + [e]) == ExtensionBytes(exts) + (U16(e.kind) + Prefixed16(e.data))
  {
    hide U16, Prefixed16;
    if exts == [] {
      assert (exts + [e])[1..] == [];
    } else {
      ExtensionBytesSnoc(exts[1..], e);
      assert (exts + [e])[1..] == exts[1..] + [e];
    }
  }

  method EncodeSuites(suites: seq<CipherSuite>) returns (r: seq<byte>)
    ensures r == SuiteBytes(suites)
  {
    r := [];
    for i := 0 to |suites|
      invariant r == SuiteBytes(suites[..i])
    {
      SuiteBytesSnoc(suites[..i], suites[i]);
      assert suites[..i + 1] == suites[..i] + [suites[i]];
      r := r + (U16(suites[i].kdf) + U16(suites[i].aead));
    }
    assert suites[..|suites|] == suites;
  }

  /** The builder fails for good once one extension is too long for its prefix. */
  method EncodeExtensions(exts: seq<Extension>) returns (r: Result<seq<byte>>)
    ensures r.Ok? <==> ExtensionsFit(exts)
    ensures r.Ok? ==> r.value == ExtensionBytes(exts)
  {
    var bytes: seq<byte> := [];
    for i := 0 to |exts|
      invariant ExtensionsFit(exts[..i]) && bytes == ExtensionBytes(exts[..i])
    {
      if |exts[i].data| > 0xFFFF {
        return Err;
      }
      ExtensionBytesSnoc(exts[..i], exts[i]);
      assert exts[..i + 1] == exts[..i] + [exts[i]];
      bytes := bytes + (U16(exts[i].kind) + Prefixed16(exts[i].data));
    }
    assert exts[..|exts|] == exts;
    return Ok(bytes);
  }

  /** MarshalBinary: succeeds exactly on Encodable configs, whichever of the nested prefixes overflows. */
  method MarshalBinary(c: Config) returns (r: Result<seq<byte>>)
    ensures r.Ok? <==> Encodable(c)
    ensures r.Ok? ==> r.value == ConfigBytes(c) == ConfigLayout(c) && |r.value| == 4 + BodySize(c)
  {
    hide U16, Prefixed16, Prefixed8, SuiteBytes, ExtensionBytes, ConfigLayout;
    if |c.publicKey| == 0 || |c.publicKey| > 0xFFFF || |c.cipherSuites| == 0
      || |c.publicName| == 0 || |c.publicName| > 255 {
      return Err;
    }
    if ExtensionsSize(c.extensions) <= 0xFFFF {
      BoundedExtensionsFit(c.extensions);
    }
    var suites := EncodeSuites(c.cipherSuites);
    var exts := EncodeExtensions(c.extensions);
    if |suites| > 0xFFFF || exts.Err? || |exts.value| > 0xFFFF {
      return Err;
    }
    var tail := Prefixed16(suites) + ([c.maximumNameLength] + (Prefixed8(c.publicName) + Prefixed16(exts.value)));
    var body := [c.configId] + (U16(c.kemId) + (Prefixed16(c.publicKey) + tail));
    assert |body| == BodySize(c);
    if |body| > 0xFFFF {
      return Err;
    }
    assert body == BodyBytes(c);
    ConfigAsLaidOut(c);
    return Ok(U16(VERSION) + Prefixed16(body));
  }

  lemma {:induction false} SuitesSnoc(s: seq<byte>, i: nat)
    requires |s| % 4 == 0 && i % 4 == 0 && i + 4 <= |s|
    ensures Suites(s[..i + 4]) == Suites(s[..i]) + [CipherSuite(Word(s[i], s[i + 1]), Word(s[i + 2], s[i + 3]))]
  {
    hide Word;
    if i > 0 {
      SuitesSnoc(s[4..], i - 4);
      assert s[4..][..i] == s[..i + 4][4..];
      assert s[4..][..i - 4] == s[..i][4..];
    } else {
      assert s[..4][4..] == [];
    }
  }

  /** The cursor loop over the cipher-suite bytes. */
  method DecodeSuites(s: seq<byte>, into: seq<CipherSuite>) returns (r: Result<seq<CipherSuite>>)
    requires |s| % 4 == 0
    ensures r == Ok(into + Suites(s))
  {
    hide Suites, Word;
    var rest, out := s, into;
    ghost var i := 0;
    assert s[..0] == [] && into + [] == into;
    NoSuites();
    while rest != []
      invariant i % 4 == 0 && i <= |s| && rest == s[i..] && out == into + Suites(s[..i])
      decreases |rest|
    {
      var kdf := ReadU16(rest);
      if kdf.None? { return Err; }
      var aead := ReadU16(kdf.value.rest);
      if aead.None? { return Err; }
      SuitesSnoc(s, i);
      var suite := CipherSuite(kdf.value.value, aead.value.value);
      assert into + (Suites(s[..i]) + [suite]) == out + [suite];
      out := out + [suite];
      rest, i := aead.value.rest, i + 4;
    }
    assert s[..i] == s;
    return Ok(out);
  }

  lemma NoSuites()
    ensures Suites([]) == []
  {
  }

  /** The cursor loop over the extension bytes. */
  method DecodeExtensions(s: seq<byte>, into: seq<Extension>) returns (ok: bool, out: seq<Extension>)
    ensures ok <==> Extensions(s).Ok?
    ensures out == into + ExtensionsRead(s)
  {
    hide Word, U16, Prefixed16;
    var rest := s;
    ok, out := true, into;
    assert into + [] == into;
    ghost var done: seq<Extension> := [];
    assert [] + ExtensionsRead(s) == ExtensionsRead(s);
    while rest != []
      invariant out == into + done && ok
      invariant Extensions(s).Ok? <==> Extensions(rest).Ok?
      invariant ExtensionsRead(s) == done + ExtensionsRead(rest)
      decreases |rest|
    {
      var kind := ReadU16(rest);
      if kind.None? {
        assert done + [] == done;
        return false, out;
      }
      var data := ReadPrefixed16(kind.value.rest);
      if data.None? {
        assert done + [] == done;
        return false, out;
      }
      var e := Extension(kind.value.value, data.value.value);
      Associates(done, [e], ExtensionsRead(data.value.rest));
      out, done := out + [e], done + [e];
      rest := data.value.rest;
    }
    assert done + [] == done;
  }

  /** The receiver of a decoding: its fields are filled one after the other, and stay half filled after an error. */
  class Receiver {
    var config: Config

    constructor (config: Config)
      ensures this.config == config
    {
      this.config := config;
    }

    /** parseBody. */
    method ParseBody(s: seq<byte>) returns (ok: bool)
      modifies this
      ensures ok <==> ParseBodyInto(old(config), s).Ok?
      ensures config == Filled(old(config), s) && (ok ==> ParseBodyInto(old(config), s) == Ok(config))
    {
      hide Suites, Extensions, ExtensionsRead;
      FilledAccepts(config, s);
      var id := ReadU8(s);
      if id.None? { return false; }
      config := config.(configId := id.value.value);
      var kem := ReadU16(id.value.rest);
      if kem.None? { return false; }
      config := config.(kemId := kem.value.value);
      var pk := ReadPrefixed16(kem.value.rest);
      if pk.None? { return false; }
      config := config.(publicKey := pk.value.value);
      var cs := ReadPrefixed16(pk.value.rest);
      if cs.None? || cs.value.value == [] || |cs.value.value| % 4 != 0 { return false; }
      var suites := DecodeSuites(cs.value.value, config.cipherSuites);
      config := config.(cipherSuites := suites.value);
      var mnl := ReadU8(cs.value.rest);
      if mnl.None? { return false; }
      config := config.(maximumNameLength := mnl.value.value);
      var pn := ReadPrefixed8(mnl.value.rest);
      if pn.None? || pn.value.value == [] { return false; }
      config := config.(publicName := pn.value.value);
      var ext := ReadPrefixed16(pn.value.rest);
      if ext.None? { return false; }
      var exts;
      ok, exts := DecodeExtensions(ext.value.value, config.extensions);
      config := config.(extensions := exts);
      ok := ok && ext.value.rest == [];
    }

    /** UnmarshalBinary on one entry. */
    method UnmarshalBinary(data: seq<byte>) returns (ok: bool)
      modifies this
      ensures ok <==> DecodeConfig(old(config), data).Ok?
      ensures ok ==> config == DecodeConfig(old(config), data).value
      ensures config == match EntryBody(data) case None => old(config) case Some(body) => Filled(old(config), body)
    {
      hide ParseBodyInto;
      var version := ReadU16(data);
      if version.None? || version.value.value != VERSION { return false; }
      var body := ReadPrefixed16(version.value.rest);
      if body.None? || body.value.rest != [] { return false; }
      ok := ParseBody(body.value.value);
    }
  }

  /** The body of a single entry of the implemented version. */
  function EntryBody(data: seq<byte>): Option<seq<byte>> {
    match ReadU16(data)
    case None => None
    case Some(version) =>
      if version.value != VERSION then None else
      match ReadPrefixed16(version.rest)
      case None => None
      case Some(body) => if body.rest != [] then None else Some(body.value)
  }

  function DecodeConfig(into: Config, data: seq<byte>): Result<Config> {
    match EntryBody(data)
    case None => Err
    case Some(body) => ParseBodyInto(into, body)
  }

  /** One entry reads back into a receiver unchanged exactly when the receiver held no suites and no extensions. */
  lemma ConfigRoundTrip(into: Config, c: Config)
    requires Encodable(c)
    ensures DecodeConfig(into, ConfigBytes(c)) == Ok(c) <==> into.cipherSuites == [] && into.extensions == []
  {
    hide ParseBodyInto, Prefixed16, ReadPrefixed16, ReadU16, U16, BodyBytes;
    var body := BodyBytes(c);
    ReadU16Of(VERSION, Prefixed16(body));
    assert Prefixed16(body) == Prefixed16(body) + [];
    ReadPrefixed16Of(body, []);
    ParseBodyIntoOfBytes(into, c);
    assert |into.cipherSuites + c.cipherSuites| == |into.cipherSuites| + |c.cipherSuites|;
    assert |into.extensions + c.extensions| == |into.extensions| + |c.extensions|;
    assert [] + c.cipherSuites == c.cipherSuites;
    assert [] + c.extensions == c.extensions;
  }

  lemma RawBytesSnoc(raws: seq<Raw>, raw: Raw)
    requires RawsFit(raws) && |raw.body| <= 0xFFFF
    ensures RawsFit(raws + [raw])
    ensures RawBytes(raws + [raw]) == RawBytes(raws) + (U16(raw.version) + Prefixed16(raw.body))
  {
    hide U16, Prefixed16;
    RawBytesConcat(raws, [raw]);
    assert RawBytes([raw]) == U16(raw.version) + (Prefixed16(raw.body) + RawBytes([]));
  }

  lemma RawsOfConfigs(configs: seq<Config>, i: nat)
    requires i < |configs| && ConfigsEncodable(configs[..i + 1])
    ensures ConfigsEncodable(configs[..i])
    ensures ConfigRaws(configs[..i + 1]) == ConfigRaws(configs[..i]) + [Raw(VERSION, BodyBytes(configs[i]))]
  {
    hide Encodable, BodyBytes;
    assert configs[..i + 1][..i] == configs[..i];
    assert forall k | 0 <= k < i :: configs[..i + 1][k] == configs[..i][k];
    assert configs[..i + 1][i] == configs[i];
  }

  /** The first loop of MarshalList. */
  method EncodeConfigs(configs: seq<Config>) returns (r: Result<seq<byte>>)
    ensures r.Ok? <==> ConfigsEncodable(configs)
    ensures r.Ok? ==> r.value == RawBytes(ConfigRaws(configs))
  {
    hide Sized, BodyBytes, Prefixed16, U16;
    var bytes: seq<byte> := [];
    for i := 0 to |configs|
      invariant ConfigsEncodable(configs[..i]) && bytes == RawBytes(ConfigRaws(configs[..i]))
    {
      var raw := MarshalBinary(configs[i]);
      if raw.Err? {
        return Err;
      }
      assert ConfigsEncodable(configs[..i + 1]);
      RawsOfConfigs(configs, i);
      RawBytesSnoc(ConfigRaws(configs[..i]), Raw(VERSION, BodyBytes(configs[i])));
      bytes := bytes + raw.value;
    }
    assert configs[..|configs|] == configs;
    return Ok(bytes);
  }

  /** The second loop of MarshalList. */
  method EncodeUnknown(unknown: seq<UnknownEntry>) returns (r: Result<seq<byte>>)
    ensures r.Ok? <==> RawsFit(UnknownRaws(unknown))
    ensures r.Ok? ==> r.value == RawBytes(UnknownRaws(unknown))
  {
    hide Prefixed16, U16;
    var bytes: seq<byte> := [];
    var raws := UnknownRaws(unknown);
    for i := 0 to |unknown|
      invariant RawsFit(raws[..i]) && bytes == RawBytes(raws[..i])
    {
      var u := unknown[i];
      if |u.body| > 0xFFFF {
        assert |raws[i].body| > 0xFFFF;
        return Err;
      }
      RawBytesSnoc(raws[..i], raws[i]);
      assert raws[..i + 1] == raws[..i] + [raws[i]];
      bytes := bytes + (U16(u.version) + Prefixed16(u.body));
    }
    assert raws[..|unknown|] == raws;
    return Ok(bytes);
  }

  /** MarshalList: succeeds exactly on ListEncodable lists. */
  method MarshalList(l: List) returns (r: Result<seq<byte>>)
    ensures r.Ok? <==> ListEncodable(l)
    ensures r.Ok? ==> r.value == ListBytes(l)
    ensures r.Ok? ==>
              var inner := ConfigsLayout(l.configs) + UnknownLayout(l.unknown);
              |inner| <= 0xFFFF && r.value == BigEndian(|inner|) + inner
  {
    hide ConfigsLayout, UnknownLayout, BigEndian, RawBytes, ConfigsEncodable, Prefixed16, ConfigRaws, RawsFit, UnknownRaws;
    var known := EncodeConfigs(l.configs);
    var unknown := EncodeUnknown(l.unknown);
    if known.Err? || unknown.Err? {
      return Err;
    }
    RawBytesConcat(ConfigRaws(l.configs), UnknownRaws(l.unknown));
    if |l.configs| + |l.unknown| == 0 {
      return Err;
    }
    var inner := known.value + unknown.value;
    assert inner == RawBytes(RawsOf(l));
    if |inner| > 0xFFFF {
      return Err;
    }
    ListAsLaidOut(l);
    return Ok(Prefixed16(inner));
  }

  /** UnmarshalList: one pass over the entries, decoding as it splits. */
  method UnmarshalList(data: seq<byte>) returns (r: Result<List>)
    ensures r == DecodeList(data)
  {
    hide ParseBodyInto, ReadU16;
    var inner := ReadPrefixed16(data);
    if inner.None? || inner.value.rest != [] || |inner.value.value| < 4 { return Err; }
    var rest := inner.value.value;
    var l := List([], []);
    ghost var wire := rest;
    if Split(wire).Ok? && ListOf(Split(wire).value).Ok? {
      JoinedEmpty(ListOf(Split(wire).value).value);
    }
    while rest != []
      invariant Split(wire).Err? <==> Split(rest).Err?
      invariant Split(wire).Ok? ==> ListOf(Split(wire).value) == Joined(l, ListOf(Split(rest).value))
      decreases |rest|
    {
      ghost var before := rest;
      var version := ReadU16(rest);
      if version.None? { return Err; }
      ReadU16Exact(rest);
      var body := ReadPrefixed16(version.value.rest);
      if body.None? { return Err; }
      rest := body.value.rest;
      ghost var raw := Raw(version.value.value, body.value.value);
      if Split(rest).Ok? {
        assert Split(before).value == [raw] + Split(rest).value;
        assert Split(before).value[1..] == Split(rest).value;
      }
      ghost var l0 := l;
      if version.value.value == VERSION {
        var c := new Receiver(FRESH);
        var ok := c.ParseBody(body.value.value);
        if !ok { return Err; }
        l := l.(configs := l.configs + [c.config]);
      } else {
        l := l.(unknown := l.unknown + [UnknownEntry(version.value.value, body.value.value)]);
      }
      if Split(rest).Ok? && ListOf(Split(rest).value).Ok? {
        JoinedStep(l0, l, raw, ListOf(Split(rest).value).value);
      }
    }
    assert l.configs + [] == l.configs && l.unknown + [] == l.unknown;
    return Ok(l);
  }

  /** What a finished prefix and the decoding of the remaining entries make together. */
  ghost function Joined(l: List, rest: Result<List>): Result<List> {
    match rest
    case Err => Err
    case Ok(t) => Ok(List(l.configs + t.configs, l.unknown + t.unknown))
  }

  lemma JoinedEmpty(t: List)
    ensures Joined(List([], []), Ok(t)) == Ok(t)
  {
    assert [] + t.configs == t.configs && [] + t.unknown == t.unknown;
  }

  lemma JoinedStep(l0: List, l1: List, raw: Raw, t: List)
    requires raw.version == VERSION ==>
               ParseBody(raw.body).Ok? && l1 == List(l0.configs + [ParseBody(raw.body).value], l0.unknown)
    requires raw.version != VERSION ==>
               l1 == List(l0.configs, l0.unknown + [UnknownEntry(raw.version, raw.body)])
    ensures Joined(l1, Ok(t))
         == Joined(l0, Ok(if raw.version == VERSION then List([ParseBody(raw.body).value] + t.configs, t.unknown)
                          else List(t.configs, [UnknownEntry(raw.version, raw.body)] + t.unknown)))
  {
    hide ParseBody;
    if raw.version == VERSION {
      var c := ParseBody(raw.body).value;
      assert l0.configs + ([c] + t.configs) == l0.configs + [c] + t.configs;
    } else {
      var u := UnknownEntry(raw.version, raw.body);
      assert l0.unknown + ([u] + t.unknown) == l0.unknown + [u] + t.unknown;
    }
  }

  // ---------------------------------------------------------------- the layout of section 4 of RFC 9849

  /** A number in network order. */
  function BigEndian(n: nat): (r: seq<byte>)
    requires n < 0x1_0000
    ensures |r| == 2 && r[0] as int * 0x100 + r[1] as int == n
  {
    [n / 0x100, n % 0x100]
  }

  function SuitesLayout(suites: seq<CipherSuite>): (r: seq<byte>)
    ensures |r| == 4 * |suites|
  {
    if suites == [] then []
    else SuitesLayout(suites[..|suites| - 1])
         + BigEndian(suites[|suites| - 1].kdf) + BigEndian(suites[|suites| - 1].aead)
  }

  ghost function ExtensionsLayout(exts: seq<Extension>): (r: seq<byte>)
    requires ExtensionsFit(exts)
    ensures |r| == ExtensionsSize(exts)
  {
    if exts == [] then []
    else BigEndian(exts[0].kind) + BigEndian(|exts[0].data|) + exts[0].data + ExtensionsLayout(exts[1..])
  }

  /** One entry of the list, byte for byte: version 0xfe0d, its length, then every field in its place. */
  ghost function ConfigLayout(c: Config): (r: seq<byte>)
    requires Sized(c)
    ensures |r| == 4 + BodySize(c)
  {
    BoundedExtensionsFit(c.extensions);
    [0xFE, 0x0D] + BigEndian(BodySize(c))
    + [c.configId] + BigEndian(c.kemId)
    + BigEndian(|c.publicKey|) + c.publicKey
    + BigEndian(4 * |c.cipherSuites|) + SuitesLayout(c.cipherSuites)
    + [c.maximumNameLength]
    + [|c.publicName|] + c.publicName
    + BigEndian(ExtensionsSize(c.extensions)) + ExtensionsLayout(c.extensions)
  }

  ghost function ConfigsLayout(configs: seq<Config>): seq<byte>
    requires ConfigsEncodable(configs)
  {
    if configs == [] then [] else ConfigLayout(configs[0]) + ConfigsLayout(configs[1..])
  }

  ghost function UnknownLayout(unknown: seq<UnknownEntry>): seq<byte>
    requires RawsFit(UnknownRaws(unknown))
  {
    if unknown == [] then []
    else
      assert UnknownRaws(unknown)[0].body == unknown[0].body;
      assert forall i | 0 <= i < |unknown| - 1 :: UnknownRaws(unknown[1..])[i] == UnknownRaws(unknown)[i + 1];
      BigEndian(unknown[0].version) + BigEndian(|unknown[0].body|) + unknown[0].body + UnknownLayout(unknown[1..])
  }

  lemma TwoBytes(n: u16, r: seq<byte>)
    requires |r| == 2 && r[0] as int * 0x100 + r[1] as int == n
    ensures U16(n) == r
  {
    assert n / 0x100 == r[0] && n % 0x100 == r[1];
  }

  lemma U16IsBigEndian(n: u16)
    ensures U16(n) == BigEndian(n)
  {
    TwoBytes(n, BigEndian(n));
  }

  lemma Prefixed16IsLayout(s: seq<byte>)
    requires |s| <= 0xFFFF
    ensures Prefixed16(s) == BigEndian(|s|) + s
  {
    U16IsBigEndian(|s|);
  }

  lemma {:induction false} SuitesAsLaidOut(suites: seq<CipherSuite>)
    ensures SuiteBytes(suites) == SuitesLayout(suites)
  {
    hide U16, BigEndian;
    if suites != [] {
      var n := |suites| - 1;
      var last := suites[n];
      SuitesAsLaidOut(suites[..n]);
      assert suites == suites[..n] + [last];
      SuiteBytesSnoc(suites[..n], last);
      U16IsBigEndian(last.kdf);
      U16IsBigEndian(last.aead);
      Associates(SuiteBytes(suites[..n]), U16(last.kdf), U16(last.aead));
    }
  }

  lemma {:induction false} ExtensionsAsLaidOut(exts: seq<Extension>)
    requires ExtensionsFit(exts)
    ensures ExtensionBytes(exts) == ExtensionsLayout(exts)
  {
    hide U16, BigEndian, Prefixed16;
    if exts != [] {
      ExtensionsAsLaidOut(exts[1..]);
      U16IsBigEndian(exts[0].kind);
      Prefixed16IsLayout(exts[0].data);
      Associates(BigEndian(exts[0].kind), BigEndian(|exts[0].data|), exts[0].data);
    }
  }

  lemma TailAsLaidOut(c: Config)
    requires Sized(c) && ExtensionsFit(c.extensions)
    ensures TailBytes(c)
         == BigEndian(4 * |c.cipherSuites|) + SuitesLayout(c.cipherSuites) + [c.maximumNameLength]
            + [|c.publicName|] + c.publicName + BigEndian(ExtensionsSize(c.extensions)) + ExtensionsLayout(c.extensions)
  {
    hide U16, BigEndian, Prefixed16, SuiteBytes, SuitesLayout, ExtensionBytes, ExtensionsLayout, ExtensionsSize;
    SuitesAsLaidOut(c.cipherSuites);
    ExtensionsAsLaidOut(c.extensions);
    Prefixed16IsLayout(SuiteBytes(c.cipherSuites));
    Prefixed16IsLayout(ExtensionBytes(c.extensions));
    RegroupTail(BigEndian(4 * |c.cipherSuites|), SuitesLayout(c.cipherSuites), [c.maximumNameLength],
                [|c.publicName|], c.publicName, BigEndian(ExtensionsSize(c.extensions)), ExtensionsLayout(c.extensions));
  }

  lemma RegroupTail(a: seq<byte>, b: seq<byte>, m: seq<byte>, p: seq<byte>, n: seq<byte>, x: seq<byte>, e: seq<byte>)
    ensures (a + b) + (m + ((p + n) + (x + e))) == a + b + m + p + n + x + e
  {
  }

  lemma RegroupBody(v: seq<byte>, z: seq<byte>, i: seq<byte>, k: seq<byte>, q: seq<byte>, pk: seq<byte>, t: seq<byte>)
    ensures v + (z + (i + (k + ((q + pk) + t)))) == (v + z + i + k + q + pk) + t
  {
  }

  lemma RegroupAll(h: seq<byte>, a: seq<byte>, b: seq<byte>, m: seq<byte>, p: seq<byte>, n: seq<byte>, x: seq<byte>, e: seq<byte>)
    ensures h + (a + b + m + p + n + x + e) == h + a + b + m + p + n + x + e
  {
  }

  lemma SizedFits(c: Config)
    requires Sized(c)
    ensures ExtensionsFit(c.extensions) && ExtensionsSize(c.extensions) <= 0xFFFF && 4 * |c.cipherSuites| <= 0xFFFF
    ensures |c.publicKey| <= 0xFFFF && |c.publicName| <= 0xFF && BodySize(c) <= 0xFFFF
  {
    BoundedExtensionsFit(c.extensions);
  }

  /** The encoder emits this layout. */
  lemma ConfigAsLaidOut(c: Config)
    requires Sized(c)
    ensures ConfigBytes(c) == ConfigLayout(c)
  {
    hide U16, BigEndian, Prefixed16, SuitesLayout, ExtensionsLayout, ExtensionsSize, BodySize, TailBytes;
    SizedFits(c);
    TailAsLaidOut(c);
    VersionBytes();
    U16IsBigEndian(c.kemId);
    Prefixed16IsLayout(c.publicKey);
    Prefixed16IsLayout(BodyBytes(c));
    RegroupBody([0xFE, 0x0D], BigEndian(BodySize(c)), [c.configId], BigEndian(c.kemId), BigEndian(|c.publicKey|), c.publicKey,
                TailBytes(c));
    RegroupAll([0xFE, 0x0D] + BigEndian(BodySize(c)) + [c.configId] + BigEndian(c.kemId) + BigEndian(|c.publicKey|) + c.publicKey,
               BigEndian(4 * |c.cipherSuites|), SuitesLayout(c.cipherSuites), [c.maximumNameLength],
               [|c.publicName|], c.publicName, BigEndian(ExtensionsSize(c.extensions)), ExtensionsLayout(c.extensions));
  }

  lemma VersionBytes()
    ensures U16(VERSION) == [0xFE, 0x0D]
  {
  }

  lemma {:induction false} ConfigsAsLaidOut(configs: seq<Config>)
    requires ConfigsEncodable(configs)
    ensures RawBytes(ConfigRaws(configs)) == ConfigsLayout(configs)
  {
    hide U16, Prefixed16, BodyBytes, ConfigLayout, ConfigRaws, Encodable;
    if configs == [] {
      assert ConfigRaws(configs) == [] by { NoConfigRaws(); }
    } else {
      hide RawBytes;
      ConfigRawsCons(configs);
      ConfigsAsLaidOut(configs[1..]);
      EncodableIsSized(configs, 0);
      RawBytesCons(Raw(VERSION, BodyBytes(configs[0])), ConfigRaws(configs[1..]));
      ConfigAsLaidOut(configs[0]);
      Associates(U16(VERSION), Prefixed16(BodyBytes(configs[0])), ConfigsLayout(configs[1..]));
    }
  }

  lemma EncodableIsSized(configs: seq<Config>, i: nat)
    requires ConfigsEncodable(configs) && i < |configs|
    ensures Sized(configs[i])
  {
  }

  lemma NoConfigRaws()
    ensures ConfigsEncodable([]) && ConfigRaws([]) == []
  {
  }

  lemma {:induction false} UnknownAsLaidOut(unknown: seq<UnknownEntry>)
    requires RawsFit(UnknownRaws(unknown))
    ensures RawBytes(UnknownRaws(unknown)) == UnknownLayout(unknown)
  {
    hide U16, Prefixed16, BigEndian;
    if unknown != [] {
      var raws, u := UnknownRaws(unknown), unknown[0];
      assert raws[0] == Raw(u.version, u.body);
      assert raws[1..] == UnknownRaws(unknown[1..]);
      UnknownAsLaidOut(unknown[1..]);
      U16IsBigEndian(u.version);
      Prefixed16IsLayout(u.body);
      var tail := UnknownLayout(unknown[1..]);
      assert BigEndian(u.version) + BigEndian(|u.body|) + u.body + tail
          == BigEndian(u.version) + ((BigEndian(|u.body|) + u.body) + tail);
    }
  }

  /** A list on the wire: its length, the known entries and then the unknown ones, each as laid out. */
  lemma ListAsLaidOut(l: List)
    requires ListEncodable(l)
    ensures var inner := ConfigsLayout(l.configs) + UnknownLayout(l.unknown);
            |inner| <= 0xFFFF && ListBytes(l) == BigEndian(|inner|) + inner
  {
    hide RawBytes, ConfigRaws, ConfigsLayout, UnknownLayout, Prefixed16, U16, BigEndian;
    ConfigsAsLaidOut(l.configs);
    UnknownAsLaidOut(l.unknown);
    RawBytesConcat(ConfigRaws(l.configs), UnknownRaws(l.unknown));
    Prefixed16IsLayout(RawBytes(RawsOf(l)));
  }

  /** And what is laid out like that is decoded to the list. */
  lemma LayoutIsDecoded(l: List)
    requires ListEncodable(l) && forall i | 0 <= i < |l.unknown| :: l.unknown[i].version != 0xFE0D
    ensures var inner := ConfigsLayout(l.configs) + UnknownLayout(l.unknown);
            |inner| <= 0xFFFF && DecodeList(BigEndian(|inner|) + inner) == Ok(l)
  {
    hide DecodeList, ListBytes, ConfigsLayout, UnknownLayout, BigEndian;
    ListAsLaidOut(l);
    ListRoundTrip(l);
  }

  const EXAMPLE: Config :=
    Config(7, 0x0820, [0x31, 0x32], [CipherSuite(0x0102, 0x0304), CipherSuite(0x0506, 0x090A)], 0x40, [0x61, 0x62, 0x63],
           [Extension(0x0B0C, [0x79])])

  const EXAMPLE_ENTRY: seq<byte> :=
    [0xFE, 0x0D] + [0, 29]
    + [7] + [0x08, 0x20]
    + [0, 2] + [0x31, 0x32]
    + [0, 8] + [0x01, 0x02, 0x03, 0x04, 0x05, 0x06, 0x09, 0x0A]
    + [0x40]
    + [3] + [0x61, 0x62, 0x63]
    + [0, 5] + [0x0B, 0x0C, 0, 1, 0x79]

  const EXAMPLE_WIRE: seq<byte> :=
    [0, 40] + (EXAMPLE_ENTRY + [0xFE, 0x0E, 0, 3, 0x11, 0x12, 0x13])

  const EXAMPLE_UNKNOWN: UnknownEntry := UnknownEntry(0xFE0E, [0x11, 0x12, 0x13])

  lemma ExampleSuites()
    ensures SuitesLayout(EXAMPLE.cipherSuites) == [0x01, 0x02, 0x03, 0x04, 0x05, 0x06, 0x09, 0x0A]
  {
    var a, b := CipherSuite(0x0102, 0x0304), CipherSuite(0x0506, 0x090A);
    assert [a, b][..1] == [a] && [a][..0] == [];
    assert SuitesLayout([a]) == SuitesLayout([]) + BigEndian(0x0102) + BigEndian(0x0304);
  }

  lemma ExampleExtensions()
    ensures ExtensionsSize(EXAMPLE.extensions) == 5 && ExtensionsFit(EXAMPLE.extensions)
    ensures ExtensionsLayout(EXAMPLE.extensions) == [0x0B, 0x0C, 0, 1, 0x79]
  {
    var e := Extension(0x0B0C, [0x79]);
    assert [e][1..] == [];
    assert ExtensionsSize([e]) == 4 + 1 + ExtensionsSize([]);
    assert ExtensionsLayout([e]) == BigEndian(0x0B0C) + BigEndian(1) + [0x79] + ExtensionsLayout([]);
  }

  lemma ExampleConfigBytes()
    ensures Encodable(EXAMPLE) && ConfigLayout(EXAMPLE) == EXAMPLE_ENTRY
  {
    hide SuitesLayout, ExtensionsLayout, ExtensionsSize;
    ExampleSuites();
    ExampleExtensions();
    assert BodySize(EXAMPLE) == 29;
    assert BigEndian(29) == [0, 29] && BigEndian(0x0820) == [8, 0x20] && BigEndian(2) == [0, 2];
    assert BigEndian(8) == [0, 8] && BigEndian(5) == [0, 5];
  }

  lemma ExampleUnknownBytes()
    ensures RawsFit(UnknownRaws([EXAMPLE_UNKNOWN]))
    ensures UnknownLayout([EXAMPLE_UNKNOWN]) == [0xFE, 0x0E, 0, 3, 0x11, 0x12, 0x13]
  {
    var u := [EXAMPLE_UNKNOWN];
    assert UnknownRaws(u)[0] == Raw(0xFE0E, [0x11, 0x12, 0x13]);
    assert u[1..] == [];
    assert UnknownLayout([]) == [];
    assert UnknownLayout(u) == BigEndian(0xFE0E) + BigEndian(3) + [0x11, 0x12, 0x13] + [];
  }

  /** A list in which no two fields are alike, and its bytes. */
  lemma ExampleOnTheWire()
    ensures var l := List([EXAMPLE], [EXAMPLE_UNKNOWN]);
            ListEncodable(l) && ListBytes(l) == EXAMPLE_WIRE && DecodeList(EXAMPLE_WIRE) == Ok(l)
  {
    hide ConfigLayout, UnknownLayout, Encodable, DecodeList, RawBytes, ConfigRaws, UnknownRaws;
    var l := List([EXAMPLE], [EXAMPLE_UNKNOWN]);
    ExampleConfigBytes();
    ExampleUnknownBytes();
    assert [EXAMPLE][1..] == [];
    assert ConfigsLayout([]) == [];
    assert ConfigsLayout([EXAMPLE]) == EXAMPLE_ENTRY + [] == EXAMPLE_ENTRY;
    ConfigsAsLaidOut([EXAMPLE]);
    UnknownAsLaidOut([EXAMPLE_UNKNOWN]);
    RawBytesConcat(ConfigRaws([EXAMPLE]), UnknownRaws([EXAMPLE_UNKNOWN]));
    ListAsLaidOut(l);
    assert BigEndian(40) == [0, 40];
    LayoutIsDecoded(l);
  }
}
