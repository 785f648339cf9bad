/**
 The address codec shared by the three scripts: dotted-decimal text to a
 flat integer (`ip_str_to_int`), back again (`ip_int_to_str`), and the
 regular-expression check `is_valid_ip`, written here as a per-octet
 predicate.
 */
module Codec {
  import opened Options
  import opened Bits

  // ---------------------------------------------------------------------
  // Decimal digits: Python's `int(s)` on digit strings and `str(n)`

  predicate IsDigit(c: char)
  {
    '0' <= c <= '9'
  }

  /** The text `int()` accepts in this model: one or more decimal digits. */
  predicate IsDigits(s: string)
  {
    |s| > 0 && forall i :: 0 <= i < |s| ==> IsDigit(s[i])
  }

  /** Digits with no leading zero, as `str(n)` writes them. */
  predicate Canonical(s: string)
  {
    IsDigits(s) && (|s| > 1 ==> s[0] != '0')
  }

  function DigitValue(c: char): nat
    requires IsDigit(c)
  {
    c as int - '0' as int
  }

  function DigitChar(d: nat): char
    requires d < 10
  {
    ('0' as int + d) as char
  }

  /** Python's `int(s)` for a string of decimal digits. */
  function DecimalValue(s: string): nat
    requires forall i :: 0 <= i < |s| ==> IsDigit(s[i])
  {
    if s == [] then 0 else 10 * DecimalValue(s[..|s| - 1]) + DigitValue(s[|s| - 1])
  }

  /** Python's `str(n)` for a non-negative integer. */
  function DecimalString(n: nat): string
  {
    if n < 10 then [DigitChar(n)] else DecimalString(n / 10) + [DigitChar(n % 10)]
  }

  /** `int(str(n)) == n`, and `str` writes canonical digits. */
  lemma {:induction false} DecimalRoundTrip(n: nat)
    ensures Canonical(DecimalString(n))
    ensures DecimalValue(DecimalString(n)) == n
  {
    if n >= 10 {
      var p := DecimalString(n / 10);
      DecimalRoundTrip(n / 10);
      var s := DecimalString(n);
      assert s[..|s| - 1] == p;
      assert s[0] == p[0];
    }
  }

  lemma {:induction false} LeadingNonZero(s: string)
    requires IsDigits(s) && s[0] != '0'
    ensures DecimalValue(s) >= 1
    decreases |s|
  {
    if |s| > 1 {
      LeadingNonZero(s[..|s| - 1]);
    }
  }

  /** `str(int(s)) == s` for canonical digits. */
  lemma {:induction false} DecimalStringOfValue(s: string)
    requires Canonical(s)
    ensures DecimalString(DecimalValue(s)) == s
    decreases |s|
  {
    if |s| > 1 {
      var p := s[..|s| - 1];
      LeadingNonZero(p);
      DecimalStringOfValue(p);
      assert s == p + [s[|s| - 1]];
    }
  }

  // ---------------------------------------------------------------------
  // Python's `s.split('.')` and its inverse `'.'.join(fields)`

  /** Python's `s.split('.')`: always at least one field, none holding a dot. */
  function Split(s: string): (fields: seq<string>)
    ensures |fields| >= 1
    ensures forall i :: 0 <= i < |fields| ==> '.' !in fields[i]
  {
    if s == [] then [[]]
    else
      var rest := Split(s[1..]);
      if s[0] == '.' then [[]] + rest
      else [[s[0]] + rest[0]] + rest[1..]
  }

  /** Python's `'.'.join(fields)`. */
  function Join(fields: seq<string>): string
    requires |fields| >= 1
  {
    if |fields| == 1 then fields[0] else fields[0] + "." + Join(fields[1..])
  }

  lemma {:induction false} SplitNoDot(t: string)
    requires '.' !in t
    ensures Split(t) == [t]
    decreases |t|
  {
    if t != [] {
      SplitNoDot(t[1..]);
      assert [t[0]] + t[1..] == t;
    }
  }

  lemma {:induction false} SplitPrefix(t: string, u: string)
    requires '.' !in t
    ensures Split(t + "." + u) == [t] + Split(u)
    decreases |t|
  {
    var s := t + "." + u;
    if t == [] {
      assert s[1..] == u;
    } else {
      assert s[1..] == t[1..] + "." + u;
      SplitPrefix(t[1..], u);
      assert [t[0]] + t[1..] == t;
    }
  }

  /** Splitting what was joined gives back the fields. */
  lemma {:induction false} SplitJoin(fields: seq<string>)
    requires |fields| >= 1
    requires forall i :: 0 <= i < |fields| ==> '.' !in fields[i]
    ensures Split(Join(fields)) == fields
    decreases |fields|
  {
    if |fields| == 1 {
      SplitNoDot(fields[0]);
    } else {
      SplitPrefix(fields[0], Join(fields[1..]));
      SplitJoin(fields[1..]);
    }
  }

  /** Joining what was split gives back the text. */
  lemma {:induction false} JoinSplit(s: string)
    ensures Join(Split(s)) == s
    decreases |s|
  {
    if s != [] {
      JoinSplit(s[1..]);
      var rest := Split(s[1..]);
      if s[0] != '.' && |rest| > 1 {
        assert Join(Split(s)) == [s[0]] + (rest[0] + "." + Join(rest[1..]));
      }
    }
  }

  // ---------------------------------------------------------------------
  // ip_str_to_int

  /**
   What `int()` demands of the fields once there are four of them: each is a
   string of decimal digits (anything else raises `ValueError`).
   */
  predicate FieldsAreNumbers(s: string)
  {
    var fields := Split(s);
    |fields| == 4 ==> forall i :: 0 <= i < 4 ==> IsDigits(fields[i])
  }

  /** `o0 << 24 | o1 << 16 | o2 << 8 | o3 << 0` */
  function Pack(o0: nat, o1: nat, o2: nat, o3: nat): nat
  {
    Or(Or(Or(Shl(o0, 24), Shl(o1, 16)), Shl(o2, 8)), Shl(o3, 0))
  }

  /** For octets, the bitwise packing is the big-endian base-256 number. */
  lemma PackIsSum(o0: nat, o1: nat, o2: nat, o3: nat)
    requires o0 < 256 && o1 < 256 && o2 < 256 && o3 < 256
    ensures Pack(o0, o1, o2, o3) == o0 * 16777216 + o1 * 65536 + o2 * 256 + o3
  {
    assert Pow2(8) == 256 by { Pow2Constants(); }
    var a := Shl(o0, 8) + o1;
    var b := Shl(a, 8) + o2;
    assert Or(Shl(o0, 24), Shl(o1, 16)) == Shl(a, 16) by {
      ShlShl(o0, 8, 16);
      OrShl(Shl(o0, 8), o1, 16);
      OrShlDisjoint(o0, o1, 8);
    }
    assert Or(Shl(a, 16), Shl(o2, 8)) == Shl(b, 8) by {
      ShlShl(a, 8, 8);
      OrShl(Shl(a, 8), o2, 8);
      OrShlDisjoint(a, o2, 8);
    }
    assert Pack(o0, o1, o2, o3) == Shl(b, 8) + o3 by {
      assert Shl(o3, 0) == o3;
      OrShlDisjoint(b, o3, 8);
    }
    assert Shl(b, 8) + o3 == o0 * 16777216 + o1 * 65536 + o2 * 256 + o3 by {
      ShlMul(o0, 8);
      ShlMul(a, 8);
      ShlMul(b, 8);
    }
  }

  /** Python's `ip_str_to_int`: `None` unless four fields, each an octet. */
  function IpStrToInt(s: string): (r: Option<nat>)
    requires FieldsAreNumbers(s)
    ensures |Split(s)| != 4 ==> r == None
    ensures |Split(s)| == 4 ==>
              (r.None? <==> exists i :: 0 <= i < 4 && DecimalValue(Split(s)[i]) > 255)
    ensures r.Some? ==>
              var f := Split(s);
              r.value < Two32 &&
              r.value == DecimalValue(f[0]) * 16777216 + DecimalValue(f[1]) * 65536
                         + DecimalValue(f[2]) * 256 + DecimalValue(f[3])
  {
    var fields := Split(s);
    if |fields| != 4 then None
    else if exists i :: 0 <= i < 4 && DecimalValue(fields[i]) > 255 then
      var i :| 0 <= i < 4 && DecimalValue(fields[i]) > 255;
      assert DecimalValue(Split(s)[i]) > 255;
      None
      else
        var o0, o1, o2, o3 := DecimalValue(fields[0]), DecimalValue(fields[1]),
                              DecimalValue(fields[2]), DecimalValue(fields[3]);
        PackIsSum(o0, o1, o2, o3);
        Some(Pack(o0, o1, o2, o3))
  }

  // ---------------------------------------------------------------------
  // ip_int_to_str

  /** `(x >> k) & 0xFF` */
  function OctetAt(x: nat, k: nat): nat
  {
    And(Shr(x, k), 0xFF)
  }

  /** The octet extracted at shift `k` is bits k .. k + 7 of `x`. */
  lemma OctetAtIsDigit256(x: nat, k: nat)
    ensures OctetAt(x, k) == Low(Shr(x, k), 8) && OctetAt(x, k) < 256
  {
    Pow2Constants();
    assert LowMask(8) == 0xFF;
    AndLowMask(Shr(x, k), 8);
    ShrLow(Shr(x, k), 8);
  }

  /** The four octets of a 32-bit value, most significant first, rebuild it. */
  lemma OctetsRecompose(x: nat)
    requires x < Two32
    ensures x == OctetAt(x, 24) * 16777216 + OctetAt(x, 16) * 65536
                 + OctetAt(x, 8) * 256 + OctetAt(x, 0)
  {
    Pow2Constants();
    OctetAtIsDigit256(x, 24);
    OctetAtIsDigit256(x, 16);
    OctetAtIsDigit256(x, 8);
    OctetAtIsDigit256(x, 0);
    LowOfSmall(x, 32);
    LowSplit(x, 24, 8);
    LowSplit(x, 16, 8);
    LowSplit(x, 8, 8);
    ShlMul(OctetAt(x, 24), 24);
    ShlMul(OctetAt(x, 16), 16);
    ShlMul(OctetAt(x, 8), 8);
    assert Shr(x, 0) == x;
  }

  /** `str(a) + '.' + str(b) + '.' + str(c) + '.' + str(d)` */
  function Dotted(a: nat, b: nat, c: nat, d: nat): string
  {
    DecimalString(a) + "." + DecimalString(b) + "." + DecimalString(c) + "." + DecimalString(d)
  }

  lemma JoinOfFour(a: string, b: string, c: string, d: string)
    ensures Join([a, b, c, d]) == a + "." + b + "." + c + "." + d
  {
    var fs := [a, b, c, d];
    assert fs[1..] == [b, c, d] && fs[1..][1..] == [c, d] && fs[1..][1..][1..] == [d];
    assert Join([c, d]) == c + "." + d;
    assert Join([b, c, d]) == b + "." + (c + "." + d);
  }

  lemma DottedFields(a: nat, b: nat, c: nat, d: nat)
    ensures Split(Dotted(a, b, c, d)) == [DecimalString(a), DecimalString(b), DecimalString(c), DecimalString(d)]
    ensures forall i :: 0 <= i < 4 ==> Canonical(Split(Dotted(a, b, c, d))[i])
  {
    var fs := [DecimalString(a), DecimalString(b), DecimalString(c), DecimalString(d)];
    DecimalRoundTrip(a);
    DecimalRoundTrip(b);
    DecimalRoundTrip(c);
    DecimalRoundTrip(d);
    forall i | 0 <= i < 4 ensures '.' !in fs[i] {
      assert IsDigits(fs[i]);
    }
    JoinOfFour(fs[0], fs[1], fs[2], fs[3]);
    SplitJoin(fs);
  }

  /**
   Python's `ip_int_to_str`. `None` stands for the `sys.exit()` taken when
   the value is outside 0 .. 0xFFFFFFFF.
   */
  function IpIntToStr(x: int): (r: Option<string>)
    ensures r.Some? <==> 0 <= x <= AllOnes
    ensures r.Some? ==>
              var f := Split(r.value);
              |f| == 4 && forall i :: 0 <= i < 4 ==> Canonical(f[i]) && DecimalValue(f[i]) <= 255
  {
    if !(0 <= x <= AllOnes) then None
    else
      var a, b, c, d := OctetAt(x, 24), OctetAt(x, 16), OctetAt(x, 8), OctetAt(x, 0);
      OctetAtIsDigit256(x, 24);
      OctetAtIsDigit256(x, 16);
      OctetAtIsDigit256(x, 8);
      OctetAtIsDigit256(x, 0);
      DottedFields(a, b, c, d);
      DecimalRoundTrip(a);
      DecimalRoundTrip(b);
      DecimalRoundTrip(c);
      DecimalRoundTrip(d);
      Some(Dotted(a, b, c, d))
  }

  // ---------------------------------------------------------------------
  // Round trips

  /** `ip_str_to_int(ip_int_to_str(x)) == x` for every 32-bit `x`. */
  lemma ParseRendered(x: nat)
    requires x < Two32
    ensures IpIntToStr(x).Some?
    ensures FieldsAreNumbers(IpIntToStr(x).value)
    ensures IpStrToInt(IpIntToStr(x).value) == Some(x)
  {
    var a, b, c, d := OctetAt(x, 24), OctetAt(x, 16), OctetAt(x, 8), OctetAt(x, 0);
    var s := Dotted(a, b, c, d);
    assert IpIntToStr(x) == Some(s);
    assert a < 256 && b < 256 && c < 256 && d < 256 by {
      OctetAtIsDigit256(x, 24);
      OctetAtIsDigit256(x, 16);
      OctetAtIsDigit256(x, 8);
      OctetAtIsDigit256(x, 0);
    }
    assert x == a * 16777216 + b * 65536 + c * 256 + d by {
      OctetsRecompose(x);
    }
    ParseDotted(a, b, c, d);
  }

  /** Four octets rendered and parsed back pack to their big-endian sum. */
  lemma ParseDotted(a: nat, b: nat, c: nat, d: nat)
    requires a < 256 && b < 256 && c < 256 && d < 256
    ensures FieldsAreNumbers(Dotted(a, b, c, d))
    ensures IpStrToInt(Dotted(a, b, c, d)) == Some(a * 16777216 + b * 65536 + c * 256 + d)
  {
    var f := Split(Dotted(a, b, c, d));
    assert f == [DecimalString(a), DecimalString(b), DecimalString(c), DecimalString(d)] by {
      DottedFields(a, b, c, d);
    }
    DecimalRoundTrip(a);
    DecimalRoundTrip(b);
    DecimalRoundTrip(c);
    DecimalRoundTrip(d);
  }

  /** Dotted text whose four fields are octets written without leading zeros. */
  predicate CanonicalDotted(s: string)
  {
    var f := Split(s);
    |f| == 4 && forall i :: 0 <= i < 4 ==> Canonical(f[i]) && DecimalValue(f[i]) <= 255
  }

  /** `ip_int_to_str(ip_str_to_int(s)) == s` for canonical dotted text. */
  lemma RenderParsed(s: string)
    requires CanonicalDotted(s)
    ensures FieldsAreNumbers(s)
    ensures IpStrToInt(s).Some?
    ensures IpIntToStr(IpStrToInt(s).value) == Some(s)
  {
    var f := Split(s);
    var v0, v1, v2, v3 := DecimalValue(f[0]), DecimalValue(f[1]), DecimalValue(f[2]), DecimalValue(f[3]);
    assert IpStrToInt(s) == Some(v0 * 16777216 + v1 * 65536 + v2 * 256 + v3);
    RenderOctets(v0, v1, v2, v3);
    DottedOfCanonical(s);
  }

  lemma RenderOctets(o0: nat, o1: nat, o2: nat, o3: nat)
    requires o0 < 256 && o1 < 256 && o2 < 256 && o3 < 256
    ensures IpIntToStr(o0 * 16777216 + o1 * 65536 + o2 * 256 + o3) == Some(Dotted(o0, o1, o2, o3))
  {
    OctetsOfSum(o0, o1, o2, o3);
  }

  lemma DottedOfCanonical(s: string)
    requires CanonicalDotted(s)
    ensures var f := Split(s);
            Dotted(DecimalValue(f[0]), DecimalValue(f[1]), DecimalValue(f[2]), DecimalValue(f[3])) == s
  {
    var f := Split(s);
    DecimalStringOfValue(f[0]);
    DecimalStringOfValue(f[1]);
    DecimalStringOfValue(f[2]);
    DecimalStringOfValue(f[3]);
    assert f == [f[0], f[1], f[2], f[3]];
    JoinOfFour(f[0], f[1], f[2], f[3]);
    JoinSplit(s);
  }

  /** Extracting the octets of a packed value gives back the octets. */
  lemma OctetsOfSum(o0: nat, o1: nat, o2: nat, o3: nat)
    requires o0 < 256 && o1 < 256 && o2 < 256 && o3 < 256
    ensures var x := o0 * 16777216 + o1 * 65536 + o2 * 256 + o3;
            OctetAt(x, 24) == o0 && OctetAt(x, 16) == o1 && OctetAt(x, 8) == o2 && OctetAt(x, 0) == o3
  {
    var x := o0 * 16777216 + o1 * 65536 + o2 * 256 + o3;
    var hi, mid := o0 * 256 + o1, o0 * 65536 + o1 * 256 + o2;
    Pow2Constants();
    assert OctetAt(x, 24) == o0 by {
      OctetAtIsDigit256(x, 24);
      ShlMul(o0, 24);
      ShrLowUnique(x, 24, o0, o1 * 65536 + o2 * 256 + o3);
      LowOfSmall(o0, 8);
    }
    assert OctetAt(x, 16) == o1 by {
      OctetAtIsDigit256(x, 16);
      ShlMul(hi, 16);
      ShrLowUnique(x, 16, hi, o2 * 256 + o3);
      ShlMul(o0, 8);
      ShrLowUnique(hi, 8, o0, o1);
    }
    assert OctetAt(x, 8) == o2 by {
      OctetAtIsDigit256(x, 8);
      ShlMul(mid, 8);
      ShrLowUnique(x, 8, mid, o3);
      ShlMul(hi, 8);
      ShrLowUnique(mid, 8, hi, o2);
    }
    assert OctetAt(x, 0) == o3 by {
      OctetAtIsDigit256(x, 0);
      assert Shr(x, 0) == x;
      ShlMul(mid, 8);
      ShrLowUnique(x, 8, mid, o3);
    }
  }

  // ---------------------------------------------------------------------
  // is_valid_ip

  /** One alternative of `25[0-5] | 2[0-4]\d | 1\d{2} | \d{1,2}`. */
  predicate OctetToken(t: string)
  {
    || (|t| == 3 && t[0] == '2' && t[1] == '5' && '0' <= t[2] <= '5')
    || (|t| == 3 && t[0] == '2' && '0' <= t[1] <= '4' && IsDigit(t[2]))
    || (|t| == 3 && t[0] == '1' && IsDigit(t[1]) && IsDigit(t[2]))
    || ((|t| == 1 || |t| == 2) && IsDigits(t))
  }

  /**
   Python's `is_valid_ip`: the whole text is four octet tokens separated by
   dots (the pattern `((octet)\.){3}(octet)` under `re.fullmatch`).
   */
  function IsValidIp(s: string): (accepted: bool)
    ensures accepted ==>
              var f := Split(s);
              |f| == 4 && forall i :: 0 <= i < 4 ==> IsDigits(f[i]) && |f[i]| <= 3
  {
    var f := Split(s);
    if |f| != 4 then false
    else
      OctetTokenDigits(f[0]);
      OctetTokenDigits(f[1]);
      OctetTokenDigits(f[2]);
      OctetTokenDigits(f[3]);
      forall i :: 0 <= i < 4 ==> OctetToken(f[i])
  }

  /** An octet token is one to three decimal digits. */
  lemma OctetTokenDigits(t: string)
    ensures OctetToken(t) ==> IsDigits(t) && |t| <= 3
  {
  }

  /** The regular expression's shape: text is accepted iff it is four tokens joined by dots. */
  lemma IsValidIpIsPattern(s: string)
    ensures IsValidIp(s) <==>
            exists ts: seq<string> :: |ts| == 4 && (forall i :: 0 <= i < 4 ==> OctetToken(ts[i])) && s == Join(ts)
  {
    if IsValidIp(s) {
      JoinSplit(s);
    }
    forall ts: seq<string> | |ts| == 4 && (forall i :: 0 <= i < 4 ==> OctetToken(ts[i])) && s == Join(ts)
      ensures IsValidIp(s)
    {
      forall i | 0 <= i < 4 ensures '.' !in ts[i] {
        assert IsDigits(ts[i]);
      }
      SplitJoin(ts);
    }
  }

  /** An octet token is exactly up to three digits worth at most 255, with no leading zero in three. */
  lemma OctetTokenMeaning(t: string)
    ensures OctetToken(t) <==>
            IsDigits(t) && |t| <= 3 && DecimalValue(t) <= 255 && (|t| == 3 ==> t[0] != '0')
  {
    if IsDigits(t) && |t| == 3 {
      assert t[..2][..1] == t[..1] && t[..1][..0] == [];
      assert DecimalValue(t[..1]) == DigitValue(t[0]);
      assert DecimalValue(t[..2]) == 10 * DigitValue(t[0]) + DigitValue(t[1]);
      assert DecimalValue(t) == 100 * DigitValue(t[0]) + 10 * DigitValue(t[1]) + DigitValue(t[2]);
    } else if IsDigits(t) && |t| == 2 {
      assert t[..1][..0] == [];
      assert DecimalValue(t[..1]) == DigitValue(t[0]);
      assert DecimalValue(t) == 10 * DigitValue(t[0]) + DigitValue(t[1]);
    } else if IsDigits(t) && |t| == 1 {
      assert t[..0] == [];
    }
  }

  /** Text `is_valid_ip` accepts always converts: `ip_str_to_int` returns a value. */
  lemma ValidIpConverts(s: string)
    requires IsValidIp(s)
    ensures FieldsAreNumbers(s)
    ensures IpStrToInt(s).Some?
  {
    var f := Split(s);
    forall i | 0 <= i < 4 ensures IsDigits(f[i]) && DecimalValue(f[i]) <= 255 {
      OctetTokenMeaning(f[i]);
    }
  }

  /** Every rendered address passes `is_valid_ip`. */
  lemma RenderedIsValid(x: nat)
    requires x < Two32
    ensures IpIntToStr(x).Some? && IsValidIp(IpIntToStr(x).value)
  {
    var f := Split(IpIntToStr(x).value);
    forall i | 0 <= i < 4 ensures OctetToken(f[i]) {
      OctetTokenMeaning(f[i]);
      CanonicalLength(f[i]);
    }
  }

  /** A canonical number up to 255 has at most three digits. */
  lemma CanonicalLength(t: string)
    requires Canonical(t) && DecimalValue(t) <= 255
    ensures |t| <= 3
  {
    if |t| > 3 {
      var p := t[..|t| - 1];
      var q := p[..|p| - 1];
      var r := q[..|q| - 1];
      assert DecimalValue(t) >= 10 * DecimalValue(p);
      assert DecimalValue(p) >= 10 * DecimalValue(q);
      assert DecimalValue(q) >= 10 * DecimalValue(r);
      assert r[0] == t[0];
      LeadingNonZero(r);
    }
  }

}
