/** The standard base64 encoding (section 4 of RFC 4648), with Go's tolerant decoder. */
module Base64 {
  import opened Prelude

  type sextet = x: int | 0 <= x < 64

  function Digit(v: sextet): char {
    if v < 26 then ('A' as int + v) as char
    else if v < 52 then ('a' as int + (v - 26)) as char
    else if v < 62 then ('0' as int + (v - 52)) as char
    else if v == 62 then '+'
    else '/'
  }

  function Value(c: char): Option<sextet> {
    if 'A' <= c <= 'Z' then Some(c as int - 'A' as int)
    else if 'a' <= c <= 'z' then Some(c as int - 'a' as int + 26)
    else if '0' <= c <= '9' then Some(c as int - '0' as int + 52)
    else if c == '+' then Some(62)
    else if c == '/' then Some(63)
    else None
  }

  predicate IsBase64Char(c: char) {
    Value(c).Some? || c == '='
  }

  function Encode(b: seq<byte>): (s: string)
    ensures forall c | c in s :: IsBase64Char(c)
    ensures s == "" <==> b == []
  {
    if b == [] then ""
    else if |b| == 1 then
      [Digit(b[0] / 4), Digit(b[0] % 4 * 16), '=', '=']
    else if |b| == 2 then
      [Digit(b[0] / 4), Digit(b[0] % 4 * 16 + b[1] / 16), Digit(b[1] % 16 * 4), '=']
    else
      [Digit(b[0] / 4), Digit(b[0] % 4 * 16 + b[1] / 16), Digit(b[1] % 16 * 4 + b[2] / 64), Digit(b[2] % 64)]
      + Encode(b[3..])
  }

  /** The decoder skips line breaks wherever they stand. */
  function WithoutBreaks(s: string): string {
    if s == "" then ""
    else (if s[0] == '\n' || s[0] == '\r' then "" else [s[0]]) + WithoutBreaks(s[1..])
  }

  function First(v0: sextet, v1: sextet): byte { v0 as int * 4 + v1 as int / 16 }

  function Second(v1: sextet, v2: sextet): byte { v1 as int % 16 * 16 + v2 as int / 4 }

  function Third(v2: sextet, v3: sextet): byte { v2 as int % 4 * 64 + v3 as int }

  /** Padding may only close the last group; surplus bits before it are ignored. */
  function DecodeGroups(s: string): Option<seq<byte>> {
    if s == "" then Some([])
    else if |s| < 4 || Value(s[0]).None? || Value(s[1]).None? then None
    else
      var v0, v1 := Value(s[0]).value, Value(s[1]).value;
      if |s| == 4 && s[2] == '=' && s[3] == '=' then Some([First(v0, v1)])
      else if Value(s[2]).None? then None
      else
        var v2 := Value(s[2]).value;
        if |s| == 4 && s[3] == '=' then Some([First(v0, v1), Second(v1, v2)])
        else if Value(s[3]).None? then None
        else
          match DecodeGroups(s[4..])
          case None => None
          case Some(rest) => Some([First(v0, v1), Second(v1, v2), Third(v2, Value(s[3]).value)] + rest)
  }

  function Decode(s: string): Option<seq<byte>> {
    DecodeGroups(WithoutBreaks(s))
  }

  lemma {:induction false} NoBreaks(s: string)
    requires forall c | c in s :: IsBase64Char(c)
    ensures WithoutBreaks(s) == s
  {
    if s != "" {
      assert IsBase64Char(s[0]);
      NoBreaks(s[1..]);
    }
  }

  lemma DigitValue(v: sextet)
    ensures Value(Digit(v)) == Some(v)
  {
  }

  lemma Regroup(a: byte, b: byte, c: byte)
    ensures First(a / 4, a % 4 * 16 + b / 16) == a
    ensures Second(a % 4 * 16 + b / 16, b % 16 * 4 + c / 64) == b
    ensures Third(b % 16 * 4 + c / 64, c % 64) == c
  {
  }

  lemma FullGroup(v0: sextet, v1: sextet, v2: sextet, v3: sextet, rest: string)
    requires DecodeGroups(rest).Some?
    ensures DecodeGroups([Digit(v0), Digit(v1), Digit(v2), Digit(v3)] + rest)
         == Some([First(v0, v1), Second(v1, v2), Third(v2, v3)] + DecodeGroups(rest).value)
  {
    hide First, Second, Third, Value, Digit;
    DigitValue(v0); DigitValue(v1); DigitValue(v2); DigitValue(v3);
    NotPadding(v2); NotPadding(v3);
    assert ([Digit(v0), Digit(v1), Digit(v2), Digit(v3)] + rest)[4..] == rest;
  }

  lemma PaddedGroup(v0: sextet, v1: sextet, v2: sextet)
    ensures DecodeGroups([Digit(v0), Digit(v1), '=', '=']) == Some([First(v0, v1)])
    ensures DecodeGroups([Digit(v0), Digit(v1), Digit(v2), '=']) == Some([First(v0, v1), Second(v1, v2)])
  {
    hide First, Second, Third, Value, Digit;
    DigitValue(v0); DigitValue(v1); DigitValue(v2);
    NotPadding(v2);
  }

  lemma {:induction false} GroupsRoundTrip(b: seq<byte>)
    ensures DecodeGroups(Encode(b)) == Some(b)
  {
    hide First, Second, Third, Value, Digit, DecodeGroups;
    if b == [] {
      assert DecodeGroups("") == Some([]) by { EmptyGroups(); }
    } else if |b| == 1 {
      assert b == [b[0]];
      var zero: byte := 0;
      assert zero / 16 == 0;
      Regroup(b[0], zero, 0);
      PaddedGroup(b[0] / 4, b[0] % 4 * 16, 0);
    } else if |b| == 2 {
      assert b == [b[0], b[1]];
      var zero: byte := 0;
      assert zero / 64 == 0;
      Regroup(b[0], b[1], zero);
      PaddedGroup(b[0] / 4, b[0] % 4 * 16 + b[1] / 16, b[1] % 16 * 4);
    } else {
      Regroup(b[0], b[1], b[2]);
      GroupsRoundTrip(b[3..]);
      FullGroup(b[0] / 4, b[0] % 4 * 16 + b[1] / 16, b[1] % 16 * 4 + b[2] / 64, b[2] % 64, Encode(b[3..]));
      assert b == [b[0], b[1], b[2]] + b[3..];
    }
  }

  lemma EmptyGroups()
    ensures DecodeGroups("") == Some([])
  {
  }

  lemma NotPadding(v: sextet)
    ensures Digit(v) != '=' && Value('=') == None
  {
  }

  /** Decoding an encoding gives the bytes back. */
  lemma RoundTrip(b: seq<byte>)
    ensures Decode(Encode(b)) == Some(b)
  {
    NoBreaks(Encode(b));
    GroupsRoundTrip(b);
  }

  // ---------------------------------------------------------------- section 4 of RFC 4648

  /** Table 1 of the RFC. */
  lemma Alphabet()
    ensures [Digit(0), Digit(1), Digit(2), Digit(3), Digit(4), Digit(5), Digit(6), Digit(7)]
         == "ABCDEFGH"
    ensures [Digit(8), Digit(9), Digit(10), Digit(11), Digit(12), Digit(13), Digit(14), Digit(15)]
         == "IJKLMNOP"
    ensures [Digit(16), Digit(17), Digit(18), Digit(19), Digit(20), Digit(21), Digit(22), Digit(23)]
         == "QRSTUVWX"
    ensures [Digit(24), Digit(25), Digit(26), Digit(27), Digit(28), Digit(29), Digit(30), Digit(31)]
         == "YZabcdef"
    ensures [Digit(32), Digit(33), Digit(34), Digit(35), Digit(36), Digit(37), Digit(38), Digit(39)]
         == "ghijklmn"
    ensures [Digit(40), Digit(41), Digit(42), Digit(43), Digit(44), Digit(45), Digit(46), Digit(47)]
         == "opqrstuv"
    ensures [Digit(48), Digit(49), Digit(50), Digit(51), Digit(52), Digit(53), Digit(54), Digit(55)]
         == "wxyz0123"
    ensures [Digit(56), Digit(57), Digit(58), Digit(59), Digit(60), Digit(61), Digit(62), Digit(63)]
         == "456789+/"
  {
  }

  /** And no other character has a value. */
  lemma NothingElse(c: char)
    ensures Value(c).Some? ==> Digit(Value(c).value) == c
  {
  }

  /** The 24 bits of a group, first byte first, as four digits of six bits. */
  function Digits24(n: nat): (s: string)
    requires n < 0x100_0000
    ensures |s| == 4
  {
    [Digit(n / 0x4_0000), Digit(n / 0x1000 % 64), Digit(n / 64 % 64), Digit(n % 64)]
  }

  /** The RFC's description: groups of 24 bits, the last one filled up with zeros, whose digits are replaced by padding. */
  function Grouped(b: seq<byte>): string {
    if b == [] then ""
    else if |b| == 1 then Digits24(b[0] as int * 0x1_0000)[..2] + "=="
    else if |b| == 2 then Digits24(b[0] as int * 0x1_0000 + b[1] as int * 0x100)[..3] + "="
    else Digits24(b[0] as int * 0x1_0000 + b[1] as int * 0x100 + b[2] as int) + Grouped(b[3..])
  }

  lemma DigitsOfNumber(v0: sextet, v1: sextet, v2: sextet, v3: sextet)
    ensures var n := v0 as int * 0x4_0000 + v1 as int * 0x1000 + v2 as int * 64 + v3 as int;
            && n / 0x4_0000 == v0 && n / 0x1000 % 64 == v1 && n / 64 % 64 == v2 && n % 64 == v3
  {
    var n := v0 as int * 0x4_0000 + v1 as int * 0x1000 + v2 as int * 64 + v3 as int;
    assert n / 0x1000 == v0 as int * 64 + v1 as int;
    assert n / 64 == v0 as int * 0x1000 + v1 as int * 64 + v2 as int;
  }

  lemma DigitsOfBytes(a: byte, b: byte, c: byte)
    ensures a as int * 0x1_0000 + b as int * 0x100 + c as int
         == a as int / 4 * 0x4_0000 + (a as int % 4 * 16 + b as int / 16) * 0x1000
            + (b as int % 16 * 4 + c as int / 64) * 64 + c as int % 64
  {
    var x, y, z := a as int, b as int, c as int;
    assert x == x / 4 * 4 + x % 4 && y == y / 16 * 16 + y % 16 && z == z / 64 * 64 + z % 64;
  }

  lemma GroupDigits(a: byte, b: byte, c: byte)
    ensures Digits24(a as int * 0x1_0000 + b as int * 0x100 + c as int)
         == [Digit(a / 4), Digit(a % 4 * 16 + b / 16), Digit(b % 16 * 4 + c / 64), Digit(c % 64)]
  {
    hide Digit;
    DigitsOfBytes(a, b, c);
    DigitsOfNumber(a / 4, a % 4 * 16 + b / 16, b % 16 * 4 + c / 64, c % 64);
  }

  /** The encoder follows it. */
  lemma {:induction false} EncodeIsGrouped(b: seq<byte>)
    ensures Encode(b) == Grouped(b)
  {
    hide Digit, Digits24;
    if |b| == 1 {
      GroupDigits(b[0], 0, 0);
    } else if |b| == 2 {
      GroupDigits(b[0], b[1], 0);
    } else if |b| > 2 {
      GroupDigits(b[0], b[1], b[2]);
      EncodeIsGrouped(b[3..]);
    }
  }

  // ---------------------------------------------------------------- what is accepted

  /** The digits of the table, then up to two padding characters. */
  predicate Padded(t: string, k: nat) {
    && k <= 2 && k <= |t| && |t| % 4 == 0
    && (forall i | 0 <= i < |t| - k :: Value(t[i]).Some?)
    && (forall i | |t| - k <= i < |t| :: t[i] == '=')
  }

  /** What the decoder accepts. */
  predicate Accepted(t: string) {
    Padded(t, 0) || Padded(t, 1) || Padded(t, 2)
  }

  lemma {:induction false} GroupsAccepted(t: string)
    ensures DecodeGroups(t).Some? <==> Accepted(t)
  {
    hide First, Second, Third, Value;
    NotPadding(0);
    if t != "" && |t| <= 4 {
      LastGroup(t);
    } else if t != "" {
      var rest := t[4..];
      GroupsAccepted(rest);
      hide Padded;
      PaddedRest(t, rest, 0);
      PaddedRest(t, rest, 1);
      PaddedRest(t, rest, 2);
    }
  }

  lemma LastGroup(t: string)
    requires 0 < |t| <= 4
    ensures DecodeGroups(t).Some? <==> Accepted(t)
  {
    hide First, Second, Third, Value;
    NotPadding(0);
    EmptyGroups();
    if |t| == 4 { assert t[4..] == ""; }
  }

  lemma PaddedRest(t: string, rest: string, k: nat)
    requires |t| > 4 && rest == t[4..] && k <= 2
    ensures Padded(t, k) <==> (forall i | 0 <= i < 4 :: Value(t[i]).Some?) && Padded(rest, k)
  {
    hide Value;
    if Padded(rest, k) && forall i | 0 <= i < 4 :: Value(t[i]).Some? {
      forall i | 4 <= i < |t| - k ensures Value(t[i]).Some? { assert t[i] == rest[i - 4]; }
      forall i | |t| - k <= i < |t| ensures t[i] == '=' { assert t[i] == rest[i - 4]; }
    }
  }

  /** Exactly that, once line breaks are taken out. */
  lemma AcceptedExactly(s: string)
    ensures Decode(s).Some? <==> Accepted(WithoutBreaks(s))
  {
    hide DecodeGroups, WithoutBreaks, Accepted;
    GroupsAccepted(WithoutBreaks(s));
  }

  lemma {:induction false} BreaksConcat(a: string, b: string)
    ensures WithoutBreaks(a + b) == WithoutBreaks(a) + WithoutBreaks(b)
  {
    if a == "" {
      assert a + b == b;
    } else {
      hide WithoutBreaks;
      BreaksConcat(a[1..], b);
      HeadAndRest(a, b);
      BreaksCons(a[0], a[1..] + b);
      BreaksCons(a[0], a[1..]);
      Associates(if a[0] == '\n' || a[0] == '\r' then "" else [a[0]], WithoutBreaks(a[1..]), WithoutBreaks(b));
    }
  }

  lemma BreaksCons(c: char, s: string)
    ensures WithoutBreaks([c] + s) == (if c == '\n' || c == '\r' then "" else [c]) + WithoutBreaks(s)
  {
    assert ([c] + s)[1..] == s;
  }

  /** Line breaks, and only they, are ignored wherever they stand. */
  lemma BreaksIgnored(a: string, c: char, b: string)
    requires c == '\n' || c == '\r'
    ensures Decode(a + ([c] + b)) == Decode(a + b)
  {
    hide WithoutBreaks, DecodeGroups;
    BreaksConcat(a, [c] + b);
    BreaksConcat([c], b);
    BreaksConcat(a, b);
    BreakAlone(c);
    assert "" + WithoutBreaks(b) == WithoutBreaks(b);
  }

  lemma BreakAlone(c: char)
    requires c == '\n' || c == '\r'
    ensures WithoutBreaks([c]) == ""
  {
    assert [c][1..] == "";
  }

  lemma {:induction false} NothingElseIgnored(s: string)
    requires '\n' !in s && '\r' !in s
    ensures WithoutBreaks(s) == s
  {
    if s != "" {
      assert s[0] in s && forall c | c in s[1..] :: c in s;
      NothingElseIgnored(s[1..]);
    }
  }

  /** An accepted text of one group, read bit by bit: bits below the last whole byte are ignored. */
  lemma GroupBits(v0: sextet, v1: sextet, v2: sextet, v3: sextet)
    ensures var n := v0 as int * 0x4_0000 + v1 as int * 0x1000 + v2 as int * 64 + v3 as int;
            && DecodeGroups([Digit(v0), Digit(v1), Digit(v2), Digit(v3)])
               == Some([n / 0x1_0000, n / 0x100 % 0x100, n % 0x100])
            && DecodeGroups([Digit(v0), Digit(v1), Digit(v2), '=']) == Some([n / 0x1_0000, n / 0x100 % 0x100])
            && DecodeGroups([Digit(v0), Digit(v1), '=', '=']) == Some([n / 0x1_0000])
  {
    hide DecodeGroups, Digit, Value, First, Second, Third;
    var n := v0 as int * 0x4_0000 + v1 as int * 0x1000 + v2 as int * 64 + v3 as int;
    EmptyGroups();
    FullGroup(v0, v1, v2, v3, "");
    assert [First(v0, v1), Second(v1, v2), Third(v2, v3)] + [] == [First(v0, v1), Second(v1, v2), Third(v2, v3)];
    assert [Digit(v0), Digit(v1), Digit(v2), Digit(v3)] + "" == [Digit(v0), Digit(v1), Digit(v2), Digit(v3)];
    PaddedGroup(v0, v1, v2);
    BytesOfDigits(v0, v1, v2, v3);
    BytesOfNumber(First(v0, v1), Second(v1, v2), Third(v2, v3));
  }

  lemma BytesOfDigits(v0: sextet, v1: sextet, v2: sextet, v3: sextet)
    ensures v0 as int * 0x4_0000 + v1 as int * 0x1000 + v2 as int * 64 + v3 as int
         == First(v0, v1) as int * 0x1_0000 + Second(v1, v2) as int * 0x100 + Third(v2, v3) as int
  {
    var x, y := v1 as int, v2 as int;
    assert x == x / 16 * 16 + x % 16 && y == y / 4 * 4 + y % 4;
  }

  lemma BytesOfNumber(a: byte, b: byte, c: byte)
    ensures var n := a as int * 0x1_0000 + b as int * 0x100 + c as int;
            n / 0x1_0000 == a && n / 0x100 % 0x100 == b && n % 0x100 == c
  {
    var n := a as int * 0x1_0000 + b as int * 0x100 + c as int;
    assert n / 0x100 == a as int * 0x100 + b as int;
  }
}
