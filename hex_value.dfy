/**
 * `HexValue<T>`'s `Display` and `FromStr` for the eight integer types of
 * src/lib.rs (`impl_HexValue!`). A value of a fixed-width type is an `int`
 * within the type's range; wrap-around is written out with `Wrap`.
 * Rust's `from_str_radix` is modelled as std implements it: an optional
 * sign, then digits left to right, failing on empty input, a lone sign, an
 * invalid digit or overflow, whichever it meets first.
 */
module HexValue {
  import opened Wrappers

  datatype IntTy = U8 | U16 | U32 | U64 | I8 | I16 | I32 | I64 {

    predicate Signed()
    {
      I8? || I16? || I32? || I64?
    }

    /** 2 to the power of the width in bits. */
    function Modulus(): (m: nat)
      ensures m >= 0x100
    {
      match this
      case U8 | I8 => 0x100
      case U16 | I16 => 0x1_0000
      case U32 | I32 => 0x1_0000_0000
      case U64 | I64 => 0x1_0000_0000_0000_0000
    }

    function Min(): int
    {
      if Signed() then -(Modulus() / 2) else 0
    }

    function Max(): int
    {
      if Signed() then Modulus() / 2 - 1 else Modulus() - 1
    }

    predicate InRange(v: int)
    {
      Min() <= v <= Max()
    }

    /** The unsigned type of the same width. */
    function Unsigned(): (u: IntTy)
      ensures !u.Signed() && u.Modulus() == Modulus()
      ensures !Signed() ==> u == this
    {
      match this
      case U8 | I8 => U8
      case U16 | I16 => U16
      case U32 | I32 => U32
      case U64 | I64 => U64
    }
  }

  /** The kinds of std's `ParseIntError`. */
  datatype IntErrorKind = Empty | InvalidDigit | PosOverflow | NegOverflow

  /**
   * Reduces `x` modulo 2^bits into the type's range (two's complement for
   * signed types). Every use lies within one modulus of the range, so one
   * addition or subtraction of the modulus suffices.
   */
  function Wrap(t: IntTy, x: int): (r: int)
    requires t.Min() - t.Modulus() <= x <= t.Max() + t.Modulus()
    ensures t.InRange(r)
    ensures r == x || r == x + t.Modulus() || r == x - t.Modulus()
    ensures t.InRange(x) ==> r == x
  {
    if x < t.Min() then x + t.Modulus() else if x > t.Max() then x - t.Modulus() else x
  }

  /** `wrapping_neg`. */
  function WrappingNeg(t: IntTy, v: int): (r: int)
    requires t.InRange(v)
    ensures t.InRange(r)
    ensures r == -v || r == -v + t.Modulus() || r == -v - t.Modulus()
  {
    Wrap(t, -v)
  }

  /** Bitwise `!`: in two's complement, `!v == -v - 1`. */
  function BitNot(t: IntTy, v: int): (r: int)
    requires t.InRange(v)
    ensures t.InRange(r)
    ensures r == -v - 1 || r == -v - 1 + t.Modulus()
  {
    Wrap(t, -v - 1)
  }

  /** The bits of an in-range value read as an unsigned number of the same width. */
  function Bits(t: IntTy, v: int): (n: nat)
    requires t.InRange(v)
    ensures n < t.Modulus()
    ensures v >= 0 ==> n == v
  {
    if v < 0 then v + t.Modulus() else v
  }

  /** `char::to_digit(radix)`. */
  function DigitValue(c: char, radix: nat): (d: Option<nat>)
    ensures d.Some? ==> d.value < radix
    ensures radix == 10 ==> (d.Some? <==> '0' <= c <= '9')
    ensures radix == 16 ==> (d.Some? <==> '0' <= c <= '9' || 'a' <= c <= 'f' || 'A' <= c <= 'F')
  {
    var v :=
      if '0' <= c <= '9' then (c as int - '0' as int)
      else if 'a' <= c <= 'z' then (c as int - 'a' as int + 10)
      else if 'A' <= c <= 'Z' then (c as int - 'A' as int + 10)
      else 36;
    if v < radix then Some(v) else None
  }

  /**
   * The digit loop of `from_str_radix`: each digit is checked, then the
   * running value is multiplied by the radix and the digit added (or
   * subtracted, after a `-`), failing on the first invalid digit or
   * overflow met.
   */
  function Accumulate(t: IntTy, ds: string, radix: nat, positive: bool, acc: int): (r: Result<int, IntErrorKind>)
    requires t.InRange(acc)
    ensures r.Ok? ==> t.InRange(r.value)
    ensures r.Err? ==> r.error != Empty
    decreases |ds|
  {
    if ds == [] then Ok(acc)
    else
      match DigitValue(ds[0], radix)
      case None => Err(InvalidDigit)
      case Some(d) =>
        var next := if positive then acc * radix + d else acc * radix - d;
        if next > t.Max() then Err(PosOverflow)
        else if next < t.Min() then Err(NegOverflow)
        else Accumulate(t, ds[1..], radix, positive, next)
  }

  /** `<ty>::from_str_radix(s, radix)`: `+` for every type, `-` for signed types, then digits. */
  function FromStrRadix(t: IntTy, s: string, radix: nat): (r: Result<int, IntErrorKind>)
    ensures r.Ok? ==> t.InRange(r.value)
    ensures r == Err(Empty) <==> s == []
  {
    if s == [] then Err(Empty)
    else if (s[0] == '+' || s[0] == '-') && |s| == 1 then Err(InvalidDigit)
    else if s[0] == '+' then Accumulate(t, s[1..], radix, true, 0)
    else if s[0] == '-' && t.Signed() then Accumulate(t, s[1..], radix, false, 0)
    else Accumulate(t, s, radix, true, 0)
  }

  predicate StartsWith(s: string, p: string)
  {
    |p| <= |s| && s[..|p|] == p
  }

  /** The prefixes `FromStr` recognises, stripped in this order: "!", then "-", then "0x". */
  datatype Prefixes = Prefixes(not: bool, negate: bool, radix: nat, digits: string)

  function StripPrefixes(s: string): (p: Prefixes)
    ensures p.radix == 10 || p.radix == 16
    ensures p.not <==> StartsWith(s, "!")
  {
    var not := StartsWith(s, "!");
    var s1 := if not then s[1..] else s;
    var negate := StartsWith(s1, "-");
    var s2 := if negate then s1[1..] else s1;
    var hex := StartsWith(s2, "0x");
    Prefixes(not, negate, if hex then 16 else 10, if hex then s2[2..] else s2)
  }

  /** The prefixes found and the digits left rebuild the text: nothing is dropped or reordered. */
  lemma StripPrefixesRejoins(s: string)
    ensures var p := StripPrefixes(s);
      s == (if p.not then "!" else "") + (if p.negate then "-" else "") + (if p.radix == 16 then "0x" else "") + p.digits
  {
  }

  /** Text starting with a digit other than 0 has no prefix to strip. */
  lemma NoPrefixes(s: string)
    requires |s| > 0 && '1' <= s[0] <= '9'
    ensures StripPrefixes(s) == Prefixes(false, false, 10, s)
  {
    assert s[..1][0] == s[0];
    assert !StartsWith(s, "!") && !StartsWith(s, "-");
    if |s| >= 2 {
      assert s[..2][0] == s[0];
    }
    assert !StartsWith(s, "0x");
  }

  /**
   * `HexValue::<t>::from_str` as written: strip the prefixes, parse the rest
   * at `t` in radix 10 or 16, then apply `wrapping_neg` if "-" was present
   * and then `!` if "!" was present.
   */
  function FromStr(t: IntTy, s: string): (r: Result<int, IntErrorKind>)
    ensures r.Ok? ==> t.InRange(r.value)
  {
    var p := StripPrefixes(s);
    match FromStrRadix(t, p.digits, p.radix)
    case Err(e) => Err(e)
    case Ok(v) =>
      var v1 := if p.negate then WrappingNeg(t, v) else v;
      Ok(if p.not then BitNot(t, v1) else v1)
  }

  /** The lowercase hex digit of `d < 16`. */
  function HexDigit(d: nat): (c: char)
    requires d < 16
    ensures DigitValue(c, 16) == Some(d)
    ensures c != '+' && c != '-' && c != '!'
  {
    if d < 10 then ('0' as int + d) as char else ('a' as int + d - 10) as char
  }

  /** Lowercase hex digits of `n > 0`, most significant first, without leading zeros. */
  function LowerHex(n: nat): (s: string)
    requires n > 0
    ensures |s| > 0
    ensures forall k :: 0 <= k < |s| ==> DigitValue(s[k], 16).Some?
    ensures s[0] != '0'
    decreases n
  {
    if n < 16 then [HexDigit(n)] else LowerHex(n / 16) + [HexDigit(n % 16)]
  }

  /**
   * `Display` as written: "0" for zero, else `{:#x}`, i.e. "0x" then the
   * lowercase hex of the value's bits (two's complement for a negative).
   */
  function Display(t: IntTy, v: int): (s: string)
    requires t.InRange(v)
    ensures s == "0" <==> v == 0
    ensures v != 0 ==> StartsWith(s, "0x") && s[2..] == LowerHex(Bits(t, v))
  {
    if v == 0 then "0" else "0x" + LowerHex(Bits(t, v))
  }

  /** The value of a digit string read left to right from `acc`, with no range limit. */
  function Fold(ds: string, radix: nat, acc: int): int
    requires forall k :: 0 <= k < |ds| ==> DigitValue(ds[k], radix).Some?
    decreases |ds|
  {
    if ds == [] then acc else Fold(ds[1..], radix, acc * radix + DigitValue(ds[0], radix).value)
  }

  lemma {:induction false} FoldGrows(ds: string, radix: nat, acc: int)
    requires forall k :: 0 <= k < |ds| ==> DigitValue(ds[k], radix).Some?
    requires acc >= 0 && radix >= 1
    ensures Fold(ds, radix, acc) >= acc
    decreases |ds|
  {
    if ds != [] {
      assert acc * radix == acc + acc * (radix - 1);
      assert acc * (radix - 1) >= 0;
      FoldGrows(ds[1..], radix, acc * radix + DigitValue(ds[0], radix).value);
    }
  }

  lemma {:induction false} FoldSnoc(ds: string, c: char, radix: nat, acc: int)
    requires forall k :: 0 <= k < |ds| ==> DigitValue(ds[k], radix).Some?
    requires DigitValue(c, radix).Some?
    ensures forall k :: 0 <= k < |ds + [c]| ==> DigitValue((ds + [c])[k], radix).Some?
    ensures Fold(ds + [c], radix, acc) == Fold(ds, radix, acc) * radix + DigitValue(c, radix).value
    decreases |ds|
  {
    if ds == [] {
      assert ds + [c] == [c];
    } else {
      assert (ds + [c])[1..] == ds[1..] + [c];
      FoldSnoc(ds[1..], c, radix, acc * radix + DigitValue(ds[0], radix).value);
    }
  }

  /** Reading back the hex digits of `n` gives `n`. */
  lemma {:induction false} FoldLowerHex(n: nat)
    requires n > 0
    ensures Fold(LowerHex(n), 16, 0) == n
    decreases n
  {
    if n >= 16 {
      FoldLowerHex(n / 16);
      FoldSnoc(LowerHex(n / 16), HexDigit(n % 16), 16, 0);
    }
  }

  lemma MulNonNegative(a: int, b: int)
    requires a >= 0 && b >= 0
    ensures a * b >= 0
  {
  }

  /** Over valid non-negative digits, the digit loop yields their value, or `PosOverflow` past `Max`. */
  lemma {:induction false} AccumulateIsFold(t: IntTy, ds: string, radix: nat, acc: int)
    requires forall k :: 0 <= k < |ds| ==> DigitValue(ds[k], radix).Some?
    requires t.InRange(acc) && acc >= 0 && radix >= 1
    ensures Accumulate(t, ds, radix, true, acc) ==
      if Fold(ds, radix, acc) <= t.Max() then Ok(Fold(ds, radix, acc)) else Err(PosOverflow)
    decreases |ds|
  {
    if ds != [] {
      var d := DigitValue(ds[0], radix).value;
      var next := acc * radix + d;
      MulNonNegative(acc, radix);
      assert next >= 0 >= t.Min();
      assert Fold(ds, radix, acc) == Fold(ds[1..], radix, next);
      FoldGrows(ds[1..], radix, next);
      if next <= t.Max() {
        assert Accumulate(t, ds, radix, true, acc) == Accumulate(t, ds[1..], radix, true, next);
        AccumulateIsFold(t, ds[1..], radix, next);
      } else {
        assert Accumulate(t, ds, radix, true, acc) == Err(PosOverflow);
      }
    }
  }

  lemma StripHex(h: string)
    requires |h| > 0 && h[0] != '!' && h[0] != '-'
    ensures StripPrefixes("0x" + h) == Prefixes(false, false, 16, h)
  {
    var s := "0x" + h;
    assert s[..1] == "0" && s[..2] == "0x" && s[2..] == h;
  }

  /** "0x" followed by the hex digits of `n` parses, at any type, to `n` or to `PosOverflow`. */
  lemma ParseHexDigits(t: IntTy, n: nat)
    requires n > 0
    ensures FromStr(t, "0x" + LowerHex(n)) == if n <= t.Max() then Ok(n) else Err(PosOverflow)
  {
    var h := LowerHex(n);
    StripHex(h);
    assert DigitValue(h[0], 16).Some?;
    AccumulateIsFold(t, h, 16, 0);
    FoldLowerHex(n);
  }

  /** Zero is shown as "0", which parses back in radix 10. */
  lemma ParseZero(t: IntTy)
    ensures FromStr(t, Display(t, 0)) == Ok(0)
  {
    assert "0"[..1] != "!" && "0"[..1] != "-";
    assert Accumulate(t, "0", 10, true, 0) == Accumulate(t, "", 10, true, 0);
  }

  /** Round trip: every non-negative value, so every value of an unsigned type, parses back from its display. */
  lemma DisplayRoundTrip(t: IntTy, v: int)
    requires t.InRange(v) && v >= 0
    ensures FromStr(t, Display(t, v)) == Ok(v)
  {
    if v == 0 {
      ParseZero(t);
    } else {
      ParseHexDigits(t, v);
    }
  }

  /** A negative value is displayed as the hex of its two's complement bits. */
  lemma NegativeDisplay(t: IntTy, v: int)
    requires t.InRange(v) && v < 0
    ensures Display(t, v) == "0x" + LowerHex(v + t.Modulus())
  {
  }

  /** As written, a negative value of a signed type is displayed as bits that its own parser rejects. */
  lemma NegativeDisplayRejected(t: IntTy, v: int)
    requires t.Signed() && t.InRange(v) && v < 0
    ensures Display(t, v) == "0x" + LowerHex(v + t.Modulus())
    ensures FromStr(t, Display(t, v)) == Err(PosOverflow)
  {
    var n := v + t.Modulus();
    SignedHalves(t);
    assert Bits(t, v) == n > t.Max();
    assert Display(t, v) == "0x" + LowerHex(n);
    ParseHexDigits(t, n);
  }

  /** A signed type's range is split in half: shifting its minimum by the modulus lands just above its maximum. */
  lemma SignedHalves(t: IntTy)
    requires t.Signed()
    ensures t.Min() + t.Modulus() == t.Max() + 1
  {
  }

  /** The value with `k` hex digits all 15 is written as `k` letters 'f'. */
  lemma {:induction false} HexDigitsOfOnes(k: nat)
    requires k > 0
    ensures LowerHex(Pow16(k) - 1) == seq(k, _ => 'f')
  {
    assert HexDigit(15) == 'f';
    if k > 1 {
      HexDigitsOfOnes(k - 1);
      var n := Pow16(k) - 1;
      DivMod16(Pow16(k - 1) - 1, 15);
      assert seq(k, _ => 'f') == seq(k - 1, _ => 'f') + ['f'];
    }
  }

  lemma DivMod16(q: nat, r: nat)
    requires r < 16
    ensures (16 * q + r) / 16 == q && (16 * q + r) % 16 == r
  {
  }

  function Pow16(k: nat): (p: nat)
    ensures p >= 1
  {
    if k == 0 then 1 else 16 * Pow16(k - 1)
  }

  /** The 32 one-bits are written as eight letters 'f'. */
  lemma AllOnes32Hex()
    ensures LowerHex(0xffff_ffff) == "ffffffff"
  {
    assert Pow16(8) == 0x1_0000_0000 by {
      assert Pow16(2) == 0x100;
      assert Pow16(4) == 0x1_0000;
      assert Pow16(6) == 0x100_0000;
    }
    HexDigitsOfOnes(8);
    assert seq(8, _ => 'f') == "ffffffff";
  }

  /** The concrete case: `HexValue(-1i32)` shows as "0xffffffff"... */
  lemma MinusOneI32Display()
    ensures Display(I32, -1) == "0xffffffff"
  {
    NegativeDisplay(I32, -1);
    assert -1 + I32.Modulus() == 0xffff_ffff;
    AllOnes32Hex();
  }

  /** ...which does not parse back as `i32`. */
  lemma MinusOneI32Rejected()
    ensures FromStr(I32, Display(I32, -1)) == Err(PosOverflow)
  {
    NegativeDisplayRejected(I32, -1);
  }

  /**
   * The parse the display evidently calls for: hex digits denote the bits
   * of the value, so they are read at the unsigned type of the same width
   * and reinterpreted; decimal digits, and hex digits carrying a sign of
   * their own after "0x", are read as before.
   */
  function FromStrBits(t: IntTy, s: string): (r: Result<int, IntErrorKind>)
    ensures r.Ok? ==> t.InRange(r.value)
    ensures !t.Signed() ==> r == FromStr(t, s)
  {
    var p := StripPrefixes(s);
    var parsed :=
      if p.radix == 16 && !StartsWith(p.digits, "+") && !StartsWith(p.digits, "-") then
        match FromStrRadix(t.Unsigned(), p.digits, 16)
        case Ok(bits) => Ok(Wrap(t, bits))
        case Err(e) => Err(e)
      else FromStrRadix(t, p.digits, p.radix);
    match parsed
    case Err(e) => Err(e)
    case Ok(v) =>
      var v1 := if p.negate then WrappingNeg(t, v) else v;
      Ok(if p.not then BitNot(t, v1) else v1)
  }

  /**
   * Positive digits that a signed type accepts, or rejects for a reason
   * other than overflow, meet the same fate at the unsigned type of its
   * width.
   */
  lemma {:induction false} AccumulateWider(t: IntTy, ds: string, acc: int)
    requires t.Signed() && 0 <= acc <= t.Max()
    requires Accumulate(t, ds, 16, true, acc) != Err(PosOverflow)
    ensures Accumulate(t.Unsigned(), ds, 16, true, acc) == Accumulate(t, ds, 16, true, acc)
    decreases |ds|
  {
    var u := t.Unsigned();
    if ds != [] && DigitValue(ds[0], 16).Some? {
      var d := DigitValue(ds[0], 16).value;
      var next := acc * 16 + d;
      MulNonNegative(acc, 16);
      assert next >= 0;
      if next <= t.Max() {
        assert Accumulate(t, ds, 16, true, acc) == Accumulate(t, ds[1..], 16, true, next);
        assert Accumulate(u, ds, 16, true, acc) == Accumulate(u, ds[1..], 16, true, next);
        AccumulateWider(t, ds[1..], next);
      }
    }
  }

  /**
   * The corrected parse departs from the parse as written only where that
   * one overflows: every text it accepts, and every other error, is kept.
   */
  lemma FromStrBitsAgrees(t: IntTy, s: string)
    requires FromStr(t, s) != Err(PosOverflow)
    ensures FromStrBits(t, s) == FromStr(t, s)
  {
    var p := StripPrefixes(s);
    if t.Signed() && p.radix == 16 && !StartsWith(p.digits, "+") && !StartsWith(p.digits, "-") {
      var ds := p.digits;
      if ds != [] {
        assert ds[0] != '+' && ds[0] != '-' by {
          assert ds[..1][0] == ds[0];
        }
        assert FromStrRadix(t, ds, 16) == Accumulate(t, ds, 16, true, 0);
        assert FromStrRadix(t.Unsigned(), ds, 16) == Accumulate(t.Unsigned(), ds, 16, true, 0);
        AccumulateWider(t, ds, 0);
      }
    }
  }

  /** A sign after "0x" is read as `from_str_radix` reads it, by both parses. */
  lemma SignAfterHexPrefix()
    ensures FromStr(I32, "0x-1") == Ok(-1)
    ensures FromStrBits(I32, "0x-1") == Ok(-1)
  {
    var s := "0x-1";
    assert s[..1] == "0" && s[..2] == "0x" && s[2..] == "-1";
    assert StripPrefixes(s) == Prefixes(false, false, 16, "-1");
    assert "-1"[..1] == "-" && "-1"[1..] == "1";
    assert Accumulate(I32, "1", 16, false, 0) == Accumulate(I32, "", 16, false, -1);
    assert FromStrRadix(I32, "-1", 16) == Ok(-1);
  }

  /** The hex digits of a value carry no sign. */
  lemma UnsignedHexDigits(n: nat)
    requires n > 0
    ensures !StartsWith(LowerHex(n), "+") && !StartsWith(LowerHex(n), "-")
  {
    var h := LowerHex(n);
    assert DigitValue(h[0], 16).Some?;
    assert h[..1][0] == h[0];
  }

  /** With the bit-reading parse every value of every type parses back from its display. */
  lemma DisplayRoundTripBits(t: IntTy, v: int)
    requires t.InRange(v)
    ensures FromStrBits(t, Display(t, v)) == Ok(v)
  {
    if v == 0 {
      ParseZero(t);
      assert "0"[..1] != "!" && "0"[..1] != "-";
    } else {
      var n := Bits(t, v);
      var u := t.Unsigned();
      ParseHexDigits(u, n);
      StripHex(LowerHex(n));
      UnsignedHexDigits(n);
      assert FromStrRadix(u, LowerHex(n), 16) == Ok(n);
    }
  }

  /** A leading "-" negates with wrap-around whatever the rest parses to. */
  lemma NegatePrefix(t: IntTy, s: string)
    requires !StartsWith(s, "!") && !StartsWith(s, "-")
    ensures FromStr(t, "-" + s) == match FromStr(t, s) case Ok(v) => Ok(WrappingNeg(t, v)) case Err(e) => Err(e)
  {
    assert ("-" + s)[1..] == s;
    assert StripPrefixes("-" + s).digits == StripPrefixes(s).digits;
  }

  /** A leading "!" complements the bits of whatever the rest parses to. */
  lemma NotPrefix(t: IntTy, s: string)
    requires !StartsWith(s, "!")
    ensures FromStr(t, "!" + s) == match FromStr(t, s) case Ok(v) => Ok(BitNot(t, v)) case Err(e) => Err(e)
  {
    assert ("!" + s)[1..] == s;
  }

  /** Both operations undo themselves within the type's range. */
  lemma NegAndNotInvolutive(t: IntTy, v: int)
    requires t.InRange(v)
    ensures WrappingNeg(t, WrappingNeg(t, v)) == v
    ensures BitNot(t, BitNot(t, v)) == v
  {
  }

  /** "-1" is the largest `u8`. */
  lemma MinusOneIsU8Max()
    ensures FromStr(U8, "-1") == Ok(255)
  {
    assert "-1"[..1] == "-" && "-1"[1..] == "1";
    NoPrefixes("1");
    assert Accumulate(U8, "1", 10, true, 0) == Accumulate(U8, "", 10, true, 1);
    NegatePrefix(U8, "1");
  }

  /** "!0" is all ones: -1 for a signed type, the maximum for an unsigned one. */
  lemma NotZeroIsAllOnes()
    ensures FromStr(I8, "!0") == Ok(-1)
    ensures FromStr(U32, "!0") == Ok(0xffff_ffff)
  {
    ParseZero(I8);
    NotPrefix(I8, "0");
    ParseZero(U32);
    NotPrefix(U32, "0");
  }

  /** "-0x10" is 16 negated with wrap-around. */
  lemma MinusHexU16()
    ensures FromStr(U16, "-0x10") == Ok(0xfff0)
  {
    HexTenU16();
    assert "0x10"[..1] == "0";
    NegatePrefix(U16, "0x10");
    assert "-" + "0x10" == "-0x10";
    assert WrappingNeg(U16, 16) == 0xfff0;
  }

  lemma HexTenU16()
    ensures FromStr(U16, "0x10") == Ok(16)
  {
    assert HexDigit(1) == '1' && HexDigit(0) == '0';
    assert LowerHex(16) == LowerHex(1) + [HexDigit(0)] == "10";
    ParseHexDigits(U16, 16);
    assert "0x" + "10" == "0x10";
  }
}
