/** Owner names: what the rotator and the commands pass to a provider, and how Cloudflare turns it back. ASCII only. */
module Names {

  /** The letters of ASCII. */
  const SMALL: map<char, char> :=
    map['A' := 'a', 'B' := 'b', 'C' := 'c', 'D' := 'd', 'E' := 'e', 'F' := 'f', 'G' := 'g', 'H' := 'h', 'I' := 'i',
        'J' := 'j', 'K' := 'k', 'L' := 'l', 'M' := 'm', 'N' := 'n', 'O' := 'o', 'P' := 'p', 'Q' := 'q', 'R' := 'r',
        'S' := 's', 'T' := 't', 'U' := 'u', 'V' := 'v', 'W' := 'w', 'X' := 'x', 'Y' := 'y', 'Z' := 'z']

  function LowerChar(c: char): char {
    if 'A' <= c <= 'Z' then (c as int + 32) as char else c
  }

  function Lower(s: string): (r: string)
    ensures |r| == |s| && forall i | 0 <= i < |s| :: r[i] == LowerChar(s[i])
  {
    seq(|s|, i requires 0 <= i < |s| => LowerChar(s[i]))
  }

  lemma LoweredLetter(c: char)
    ensures LowerChar(c) == if c in SMALL then SMALL[c] else c
  {
  }

  /** All trailing dots gone. */
  function TrimDots(s: string): (r: string)
    ensures r <= s && (r == "" || r[|r| - 1] != '.') && forall i | |r| <= i < |s| :: s[i] == '.'
  {
    if s != "" && s[|s| - 1] == '.' then TrimDots(s[..|s| - 1]) else s
  }

  /** One trailing dot gone. */
  function TrimDot(s: string): string {
    if s != "" && s[|s| - 1] == '.' then s[..|s| - 1] else s
  }

  predicate HasSuffix(s: string, suffix: string) {
    |s| >= |suffix| && s[|s| - |suffix|..] == suffix
  }

  function Relative(fqdn: string, zone: string): string {
    if fqdn == zone then "@"
    else if HasSuffix(fqdn, "." + zone) then fqdn[..|fqdn| - |zone| - 1]
    else fqdn
  }

  function Normal(s: string): string {
    TrimDots(Lower(s))
  }

  /** internal/rotator relName. */
  function RelName(fqdn: string, zone: string): string {
    Relative(Normal(fqdn), Normal(zone))
  }

  /** cmd/ech-keymgr relName. */
  function RelNameOnce(fqdn: string, zone: string): string {
    Relative(TrimDot(Lower(fqdn)), TrimDot(Lower(zone)))
  }

  /** Cloudflare's fqdn. */
  function Fqdn(name: string, zone: string): string {
    var z, n := TrimDot(Lower(zone)), TrimDot(name);
    if n == "" || n == "@" then z
    else if HasSuffix(Lower(n), "." + z) || Lower(n) == Lower(z) then n
    else n + "." + z
  }

  // ---------------------------------------------------------------- the rotator's loops

  method ToLower(s: string) returns (r: string)
    ensures r == Lower(s)
    ensures |r| == |s| && forall i | 0 <= i < |s| :: r[i] == if s[i] in SMALL then SMALL[s[i]] else s[i]
  {
    var out := new char[|s|](i => '.');
    for i := 0 to |s|
      invariant forall j | 0 <= j < i :: out[j] == LowerChar(s[j])
    {
      var c := s[i];
      if c >= 'A' && c <= 'Z' {
        c := (c as int + ('a' as int - 'A' as int)) as char;
      }
      out[i] := c;
    }
    r := out[..];
    hide LowerChar;
    forall i | 0 <= i < |s| ensures r[i] == if s[i] in SMALL then SMALL[s[i]] else s[i] {
      LoweredLetter(s[i]);
    }
  }

  method TrimTrailingDots(s: string) returns (r: string)
    ensures r == TrimDots(s)
  {
    r := s;
    while |r| > 0 && r[|r| - 1] == '.'
      invariant TrimDots(r) == TrimDots(s)
    {
      r := r[..|r| - 1];
    }
  }

  // ---------------------------------------------------------------- there and back

  predicate AtMostOneDot(s: string) {
    |s| < 2 || s[|s| - 1] != '.' || s[|s| - 2] != '.'
  }

  lemma OneDotIsAllDots(s: string)
    requires AtMostOneDot(s)
    ensures TrimDots(s) == TrimDot(s)
  {
  }

  /** How many trailing dots beyond the first a name has. */
  function Extra(s: string): nat {
    |TrimDot(Lower(s))| - |Normal(s)|
  }

  function Dots(n: nat): (r: string)
    ensures |r| == n && forall i | 0 <= i < n :: r[i] == '.'
  {
    seq(n, i => '.')
  }

  /** What the commands' version keeps is the normal name and its extra dots. */
  lemma OnceIsNormalAndDots(s: string)
    ensures |TrimDot(Lower(s))| >= |Normal(s)| && TrimDot(Lower(s)) == Normal(s) + Dots(Extra(s))
    ensures Extra(s) == 0 <==> AtMostOneDot(s)
    ensures Normal(s) == "" || Normal(s)[|Normal(s)| - 1] != '.'
  {
    var low, once := Lower(s), TrimDot(Lower(s));
    var n := |Normal(s)|;
    assert n == |low| || low[|low| - 1] == '.';
    assert n <= |once|;
    assert forall i | n <= i < |once| :: once[i] == low[i] == '.';
  }

  /** Exactly when the two versions of relName agree. */
  predicate SameRelName(fqdn: string, zone: string) {
    var f, z, i, j := Normal(fqdn), Normal(zone), Extra(fqdn), Extra(zone);
    if f == z then i == j || (f == "@" && i == 0)
    else if HasSuffix(f, "." + z) then i == j
    else i == 0 || (z == "" && i == j + 1)
  }

  lemma RelNamesAgree(fqdn: string, zone: string)
    ensures RelName(fqdn, zone) == RelNameOnce(fqdn, zone) <==> SameRelName(fqdn, zone)
  {
    hide Lower, TrimDots, TrimDot, Normal, Extra, Relative;
    OnceIsNormalAndDots(fqdn);
    OnceIsNormalAndDots(zone);
    RelativeOfDots(Normal(fqdn), Normal(zone), Extra(fqdn), Extra(zone));
  }

  /** For a zone with at most one trailing dot and more than dots, the condition is the same one on the name. */
  lemma OneDotZonesAgree(fqdn: string, zone: string)
    requires AtMostOneDot(zone) && Normal(zone) != ""
    ensures RelName(fqdn, zone) == RelNameOnce(fqdn, zone) <==> AtMostOneDot(fqdn)
  {
    hide Lower, TrimDots, TrimDot, Normal, Extra, RelName, RelNameOnce;
    RelNamesAgree(fqdn, zone);
    OnceIsNormalAndDots(fqdn);
    OnceIsNormalAndDots(zone);
  }

  predicate EndsPlain(s: string) {
    s == "" || s[|s| - 1] != '.'
  }

  /** A suffix that ends in j dots after a plain character fits only a name that ends in as many. */
  lemma SuffixOfDots(f: string, z: string, i: nat, j: nat)
    requires EndsPlain(f) && EndsPlain(z) && z != ""
    ensures HasSuffix(f + Dots(i), "." + (z + Dots(j))) <==> i == j && HasSuffix(f, "." + z)
  {
    var name, suffix := f + Dots(i), "." + (z + Dots(j));
    if i == j {
      var k := |f| - |z| - 1;
      if k >= 0 {
        assert name[k..] == f[k..] + Dots(i) && suffix == ("." + z) + Dots(j);
        assert |f[k..]| == |"." + z|;
        assert name[k..][..|z| + 1] == f[k..] && suffix[..|z| + 1] == "." + z;
      }
    } else if |name| >= |suffix| {
      var k := |name| - |suffix|;
      if i < j {
        if |f| > 0 {
          assert name[|f| - 1] == f[|f| - 1] != '.';
          assert |f| - 1 >= k ==> name[k..][|f| - 1 - k] == f[|f| - 1];
          assert |f| - 1 >= k ==> suffix[|f| - 1 - k] == '.';
        }
      } else {
        assert suffix[|z|] == z[|z| - 1] != '.';
        assert name[k..][|z|] == name[k + |z|] == '.';
      }
    }
  }

  /** After a name of only dots, or before one. */
  lemma SuffixOfOnlyDots(f: string, i: nat, j: nat)
    requires EndsPlain(f)
    ensures HasSuffix(f + Dots(i), "." + ("" + Dots(j))) <==> i >= j + 1
  {
    var name, suffix := f + Dots(i), "." + ("" + Dots(j));
    assert suffix == Dots(j + 1);
    if i >= j + 1 {
      assert name[|name| - |suffix|..] == suffix;
    } else if |name| >= |suffix| {
      var k := |name| - |suffix|;
      assert f != "" && k <= |f| - 1;
      assert name[k..][|f| - 1 - k] == f[|f| - 1] && suffix[|f| - 1 - k] == '.';
    }
  }

  lemma RelativeOfDots(f: string, z: string, i: nat, j: nat)
    requires EndsPlain(f) && EndsPlain(z)
    ensures Relative(f, z) == Relative(f + Dots(i), z + Dots(j)) <==>
              if f == z then i == j || (f == "@" && i == 0)
              else if HasSuffix(f, "." + z) then i == j
              else i == 0 || (z == "" && i == j + 1)
  {
    SameWithDots(f, z, i, j);
    NamesWithDots(f, i);
    if z != "" {
      RelativeInZone(f, z, i, j);
    } else {
      RelativeToDots(f, i, j);
    }
  }

  lemma RelativeInZone(f: string, z: string, i: nat, j: nat)
    requires EndsPlain(f) && EndsPlain(z) && z != ""
    ensures var a, b := f + Dots(i), z + Dots(j);
            Relative(a, b) == if f == z && i == j then "@" else if i == j && HasSuffix(f, "." + z) then Relative(f, z) else a
  {
    hide HasSuffix;
    var a, b := f + Dots(i), z + Dots(j);
    SameWithDots(f, z, i, j);
    SuffixOfDots(f, z, i, j);
    if f != z && HasSuffix(f, "." + z) && i == j {
      SuffixLength(f, "." + z);
      assert a[..|a| - |b| - 1] == f[..|f| - |z| - 1];
    }
  }

  lemma SuffixLength(s: string, suffix: string)
    requires HasSuffix(s, suffix)
    ensures |s| >= |suffix|
  {
  }

  lemma RelativeToDots(f: string, i: nat, j: nat)
    requires EndsPlain(f)
    ensures Relative(f, "") == if f == "" then "@" else f
    ensures var a := f + Dots(i);
            Relative(a, "" + Dots(j))
            == if f == "" && i == j then "@" else if i >= j + 1 then f + Dots(i - j - 1) else a
  {
    hide HasSuffix;
    var a, b := f + Dots(i), "" + Dots(j);
    SameWithDots(f, "", i, j);
    SuffixOfOnlyDots(f, i, j);
    SuffixOfOnlyDots(f, 0, 0);
    assert f + Dots(0) == f && "." + ("" + Dots(0)) == "." + "";
    if i >= j + 1 {
      assert a[..|a| - |b| - 1] == f + Dots(i - j - 1);
    }
  }

  lemma SameWithDots(f: string, z: string, i: nat, j: nat)
    requires EndsPlain(f) && EndsPlain(z)
    ensures f + Dots(i) == z + Dots(j) <==> f == z && i == j
  {
    var a, b := f + Dots(i), z + Dots(j);
    if |f| > |z| {
      assert a[|f| - 1] == f[|f| - 1] && (|b| == |a| ==> b[|f| - 1] == '.');
    } else if |f| < |z| {
      assert b[|z| - 1] == z[|z| - 1] && (|b| == |a| ==> a[|z| - 1] == '.');
    } else {
      assert a[..|f|] == f && b[..|z|] == z;
    }
  }

  lemma NamesWithDots(f: string, i: nat)
    requires EndsPlain(f)
    ensures f + Dots(i) == "@" <==> f == "@" && i == 0
    ensures forall k: nat :: f + Dots(k) == f <==> k == 0
    ensures forall k: nat :: Dots(k) != "@" && ("" + Dots(k)) != "@"
  {
    assert Dots(0) == "" && f + "" == f;
    if i > 0 { assert (f + Dots(i))[|f + Dots(i)| - 1] == '.'; }
    forall k: nat ensures f + Dots(k) == f <==> k == 0 { assert |f + Dots(k)| == |f| + k; }
    forall k: nat ensures Dots(k) != "@" && ("" + Dots(k)) != "@" {
      if k == 1 { assert Dots(k)[0] == '.' && ("" + Dots(k))[0] == '.'; }
    }
  }

  /** So with two trailing dots they differ here, and with the same dots on both sides they do not. */
  lemma RelNamesDiffer()
    ensures RelName("com..", "com") == "@" && RelNameOnce("com..", "com") == "com."
  {
    assert Lower("com..") == "com.." && Lower("com") == "com";
    assert TrimDots("com..") == "com" by {
      assert "com.."[..4] == "com." && "com."[..3] == "com";
    }
    assert "com.."[..4] == "com.";
    assert !HasSuffix("com.", ".com");
  }

  /** What the rotator's version makes of a name: "@" of the zone, the labels of a name below it, any other name as it is. */
  lemma RelNameExactly(fqdn: string, zone: string)
    ensures Normal(fqdn) == Normal(zone) ==> RelName(fqdn, zone) == "@"
    ensures forall labels :: Normal(fqdn) == labels + ("." + Normal(zone)) ==> RelName(fqdn, zone) == labels
    ensures Normal(fqdn) != Normal(zone) && (forall labels :: Normal(fqdn) != labels + ("." + Normal(zone))) ==>
              RelName(fqdn, zone) == Normal(fqdn)
  {
    hide Normal;
    var f, suffix := Normal(fqdn), "." + Normal(zone);
    forall labels | f == labels + suffix ensures RelName(fqdn, zone) == labels {
      assert |f| == |labels| + |suffix| && f[|labels|..] == suffix && f[..|labels|] == labels;
    }
    if HasSuffix(f, suffix) {
      assert f == f[..|f| - |suffix|] + suffix;
    }
  }

  lemma NormalExamples()
    ensures Normal("A.b.C.") == "a.b.c" && Normal("c") == "c" && Normal("C.") == "c"
  {
    assert Lower("A.b.C.") == "a.b.c." && "a.b.c."[..5] == "a.b.c";
    assert Lower("C.") == "c." && "c."[..1] == "c";
  }

  /** The rotator's names for a zone and for a name below it. */
  lemma RelNameExamples()
    ensures RelName("A.b.C.", "c") == "a.b" && RelName("c", "C.") == "@"
  {
    hide Normal, RelName;
    NormalExamples();
    assert "a.b.c" == "a.b" + ("." + "c");
    RelNameExactly("A.b.C.", "c");
    RelNameExactly("c", "C.");
  }

  /** And what Cloudflare makes of such names. */
  lemma FqdnExamples()
    ensures Fqdn("@", "C.") == "c" && Fqdn("", "C.") == "c" && Fqdn("foo", "C.") == "foo.c" && Fqdn("b.C", "C.") == "b.C"
  {
    assert Lower("C.") == "c." && "c."[..1] == "c" && TrimDot("c.") == "c";
    assert Lower("foo") == "foo" && "foo"[1] != '.';
    assert Lower("b.C") == "b.c" && "b.c"[1..] == ".c";
  }

  lemma LowerTwice(s: string)
    ensures Lower(Lower(s)) == Lower(s)
  {
  }

  lemma LowerPart(s: string, k: nat)
    requires k <= |s| && Lower(s) == s
    ensures Lower(s[..k]) == s[..k]
  {
    assert forall i | 0 <= i < k :: s[..k][i] == Lower(s)[i];
  }

  /** The labels in front of the zone, when the name is below it. */
  function Labels(name: string, zone: string): string
    requires HasSuffix(name, "." + zone)
  {
    name[..|name| - |zone| - 1]
  }

  /** Which in-zone names survive the way to a provider and back: the zone itself, and those whose labels in front of the
      zone are not empty, not "@", do not end in a dot, and are not again the zone or a name below it. */
  predicate Survives(name: string, zone: string)
    requires name == zone || HasSuffix(name, "." + zone)
  {
    name == zone
    || (var p := Labels(name, zone);
        p != "" && p != "@" && p[|p| - 1] != '.' && p != zone && !HasSuffix(p, "." + zone))
  }

  lemma FqdnOfRelName(fqdn: string, zone: string)
    requires AtMostOneDot(zone)
    requires Normal(fqdn) == Normal(zone) || HasSuffix(Normal(fqdn), "." + Normal(zone))
    ensures Fqdn(RelName(fqdn, zone), zone) == Normal(fqdn) <==> Survives(Normal(fqdn), Normal(zone))
  {
    hide Fqdn, Lower, TrimDots, TrimDot;
    var f, z := Normal(fqdn), Normal(zone);
    NormalIsLower(fqdn);
    NormalIsLower(zone);
    NormalIsTrimmed(zone);
    if f == z {
      FqdnOfApex(zone);
    } else {
      BelowZone(f, z);
      FqdnOfLabels(Labels(f, z), z, zone);
    }
  }

  lemma NormalIsLower(s: string)
    ensures Lower(Normal(s)) == Normal(s)
  {
    LowerTwice(s);
    LowerPart(Lower(s), |Normal(s)|);
  }

  lemma NormalIsTrimmed(zone: string)
    requires AtMostOneDot(zone)
    ensures Normal(zone) == TrimDot(Lower(zone))
  {
    OneDotIsAllDots(Lower(zone));
  }

  lemma FqdnOfApex(zone: string)
    ensures Fqdn("@", zone) == TrimDot(Lower(zone))
  {
  }

  lemma BelowZone(f: string, z: string)
    requires HasSuffix(f, "." + z) && Lower(f) == f
    ensures f == Labels(f, z) + ("." + z) && Lower(Labels(f, z)) == Labels(f, z)
  {
    LowerPart(f, |f| - |z| - 1);
  }

  lemma FqdnOfLabels(p: string, z: string, zone: string)
    requires z == TrimDot(Lower(zone)) && Lower(z) == z && Lower(p) == p
    ensures Fqdn(p, zone) == p + ("." + z) <==>
              p != "" && p != "@" && p[|p| - 1] != '.' && p != z && !HasSuffix(p, "." + z)
  {
    var n := TrimDot(p);
    var f := p + ("." + z);
    LowerPart(p, |n|);
    assert |f| == |p| + 1 + |z|;
    if n != p {
      assert |n + "." + z| < |f|;
    } else {
      assert n + "." + z == f;
    }
  }
}
