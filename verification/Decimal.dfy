/** Decimal rendering of byte strings for the proving tool
    (`bytes_to_decimal`, crates/holanc-prover/src/inputs.rs). */
module Decimal {
  import opened Base
  import opened Radix

  /** Value of a string of decimal digits, most significant first. */
  function Value(digits: seq<nat>): nat {
    if digits == [] then 0 else Value(digits[..|digits| - 1]) * 10 + digits[|digits| - 1]
  }

  predicate Digits(s: seq<nat>) {
    forall i :: 0 <= i < |s| ==> s[i] < 10
  }

  /** No leading zero, except for the numeral 0 itself. */
  predicate Canonical(s: seq<nat>) {
    Digits(s) && s != [] && (s[0] == 0 ==> s == [0])
  }

  function ToChar(d: nat): char
    requires d < 10
  {
    '0' + d as char
  }

  function FromChar(c: char): nat
    requires '0' <= c <= '9'
  {
    (c as int) - ('0' as int)
  }

  predicate IsNumeral(s: string) {
    forall i :: 0 <= i < |s| ==> '0' <= s[i] <= '9'
  }

  /** The digits that a numeral spells. */
  function Parse(s: string): seq<nat>
    requires IsNumeral(s)
  {
    seq(|s|, i requires 0 <= i < |s| => FromChar(s[i]))
  }

  // ----- One pass over the digits, from the right, with a carry -----

  /** The conversion makes two kinds of pass: one that multiplies by 256 and one that
      only adds. */
  function Scale(shift: bool, n: nat): nat {
    if shift then 256 * n else n
  }

  function CarryDigits(carry: nat): seq<nat> {
    if carry == 0 then [] else CarryDigits(carry / 10) + [carry % 10]
  }

  function Pass(s: seq<nat>, shift: bool, carry: nat): seq<nat> {
    if s == [] then CarryDigits(carry) else
      var last := |s| - 1;
      var prod := Scale(shift, s[last]) + carry;
      Pass(s[..last], shift, prod / 10) + [prod % 10]
  }

  lemma AppendDigit(s: seq<nat>, d: nat)
    ensures Value(s + [d]) == Value(s) * 10 + d
  {}

  lemma {:induction false} CarryDigitsValue(carry: nat)
    ensures Value(CarryDigits(carry)) == carry && Digits(CarryDigits(carry))
    ensures carry > 0 ==> CarryDigits(carry) != [] && CarryDigits(carry)[0] > 0
  {
    if carry > 0 {
      CarryDigitsValue(carry / 10);
      AppendDigit(CarryDigits(carry / 10), carry % 10);
    }
  }

  /** A pass computes `256 * digits + carry`, or `digits + carry`. */
  lemma {:induction false} PassValue(s: seq<nat>, shift: bool, carry: nat)
    ensures Value(Pass(s, shift, carry)) == Scale(shift, Value(s)) + carry
  {
    if s == [] {
      CarryDigitsValue(carry);
    } else {
      var d, v := s[|s| - 1], Value(s[..|s| - 1]);
      var prod := Scale(shift, d) + carry;
      PassValue(s[..|s| - 1], shift, prod / 10);
      AppendDigit(Pass(s[..|s| - 1], shift, prod / 10), prod % 10);
      PassArithmetic(shift, v, d, carry);
    }
  }

  lemma PassArithmetic(shift: bool, v: nat, d: nat, carry: nat)
    ensures var prod := Scale(shift, d) + carry;
            (Scale(shift, v) + prod / 10) * 10 + prod % 10 == Scale(shift, v * 10 + d) + carry
  {}

  lemma {:induction false} PassDigits(s: seq<nat>, shift: bool, carry: nat)
    ensures Digits(Pass(s, shift, carry))
  {
    if s == [] {
      CarryDigitsValue(carry);
    } else {
      PassDigits(s[..|s| - 1], shift, (Scale(shift, s[|s| - 1]) + carry) / 10);
    }
  }

  lemma PassOfDigit(d: nat, shift: bool, carry: nat)
    ensures var prod := Scale(shift, d) + carry;
            Pass([d], shift, carry) == CarryDigits(prod / 10) + [prod % 10]
  {}

  /** The leading digit stays nonzero. */
  lemma {:induction false} PassLeads(s: seq<nat>, shift: bool, carry: nat)
    requires Digits(s) && s != [] && s[0] > 0
    ensures Pass(s, shift, carry) != [] && Pass(s, shift, carry)[0] > 0
  {
    var last := |s| - 1;
    var prod := Scale(shift, s[last]) + carry;
    if last == 0 {
      assert s == [s[0]];
      PassOfDigit(s[0], shift, carry);
      LeadingCarry(prod);
    } else {
      PassLeads(s[..last], shift, prod / 10);
      var front := Pass(s[..last], shift, prod / 10);
      assert Pass(s, shift, carry) == front + [prod % 10];
      assert (front + [prod % 10])[0] == front[0];
    }
  }

  lemma LeadingCarry(prod: nat)
    requires prod > 0
    ensures (CarryDigits(prod / 10) + [prod % 10])[0] > 0
  {}

  lemma {:induction false} PositiveValue(s: seq<nat>)
    requires s != [] && s[0] > 0
    ensures Value(s) > 0
  {
    if |s| > 1 {
      PositiveValue(s[..|s| - 1]);
    }
  }

  // ----- Canonical numerals are unique -----

  lemma {:induction false} CanonicalUnique(s: seq<nat>, t: seq<nat>)
    requires Canonical(s) && Canonical(t) && Value(s) == Value(t)
    ensures s == t
  {
    var m, n := |s| - 1, |t| - 1;
    var sv, tv := Value(s[..m]), Value(t[..n]);
    assert s[m] == t[n] && sv == tv;
    if m > 0 && n > 0 {
      CanonicalUnique(s[..m], t[..n]);
    } else if m > 0 {
      PositiveValue(s[..m]);
    } else if n > 0 {
      PositiveValue(t[..n]);
    }
    assert s == s[..m] + [s[m]] && t == t[..n] + [t[n]];
  }

  // ----- The conversion -----

  lemma PassStep(digits: seq<nat>, i: nat, shift: bool, carry: nat, right: seq<nat>)
    requires i < |digits|
    ensures var prod := Scale(shift, digits[i]) + carry;
            Pass(digits[..i + 1], shift, carry) + right
            == Pass(digits[..i], shift, prod / 10) + ([prod % 10] + right)
  {
    var s := digits[..i + 1];
    var prod := Scale(shift, digits[i]) + carry;
    assert s[..i] == digits[..i] && s[i] == digits[i];
    assert Pass(s, shift, carry) == Pass(digits[..i], shift, prod / 10) + [prod % 10];
  }

  /** The carry stays at or below 255 throughout, so no product or sum leaves a `u16`. */
  method CarryPass(digits: seq<nat>, shift: bool, carry0: nat) returns (result: seq<nat>)
    requires Digits(digits) && carry0 <= 255
    ensures result == Pass(digits, shift, carry0)
  {
    result := digits;
    var carry: nat := carry0;
    var i := |digits|;
    assert digits[..i] == digits && Pass(digits, shift, carry) + result[i..] == Pass(digits, shift, carry);
    while i > 0
      invariant 0 <= i <= |digits| == |result| && carry <= 255
      invariant result[..i] == digits[..i]
      invariant Pass(digits, shift, carry0) == Pass(digits[..i], shift, carry) + result[i..]
      decreases i
    {
      i := i - 1;
      ghost var right := result[i + 1..];
      PassStep(digits, i, shift, carry, right);
      assert result[i] == result[..i + 1][i] == digits[..i + 1][i] == digits[i];
      var prod := Scale(shift, result[i]) + carry;
      assert prod <= 2559 && prod < 0x1_0000;
      result := result[i := prod % 10];
      carry := prod / 10;
      assert result[i..] == [prod % 10] + right;
    }
    assert result[0..] == result && digits[..0] == [];
    result := PrependCarry(carry, result);
  }

  method PrependCarry(carry0: nat, digits: seq<nat>) returns (result: seq<nat>)
    ensures result == CarryDigits(carry0) + digits
  {
    result := digits;
    var carry := carry0;
    while carry > 0
      invariant CarryDigits(carry0) + digits == CarryDigits(carry) + result
    {
      result := [carry % 10] + result;
      carry := carry / 10;
    }
  }

  lemma PrefixValue(bytes: seq<byte>, i: nat)
    requires i < |bytes|
    ensures BigEndian(bytes[..i + 1]) == BigEndian(bytes[..i]) * 256 + bytes[i] as nat
  {
    assert bytes[..i + 1][..i] == bytes[..i];
  }

  /** For every byte string: the canonical decimal numeral of its big-endian value. */
  method BytesToDecimal(bytes: seq<byte>) returns (r: string)
    ensures IsNumeral(r) && Canonical(Parse(r))
    ensures Value(Parse(r)) == BigEndian(bytes)
  {
    var result: seq<nat> := [0];
    for k := 0 to |bytes|
      invariant Canonical(result)
      invariant Value(result) == BigEndian(bytes[..k])
    {
      ghost var before := result;
      result := CarryPass(result, true, 0);
      PassValue(before, true, 0);
      PassDigits(before, true, 0);
      ghost var shifted := result;
      result := CarryPass(result, false, bytes[k] as nat);
      PassValue(shifted, false, bytes[k] as nat);
      StaysCanonical(before, bytes[k] as nat);
      PrefixValue(bytes, k);
    }
    assert bytes[..|bytes|] == bytes;
    if result == [] || forall i :: 0 <= i < |result| ==> result[i] == 0 {
      assert result == [0];
      r := "0";
      assert Parse(r) == result;
    } else {
      r := Render(result);
    }
  }

  lemma StaysCanonical(s: seq<nat>, b: nat)
    requires Canonical(s) && b < 256
    ensures Canonical(Pass(Pass(s, true, 0), false, b))
  {
    var t := Pass(s, true, 0);
    PassDigits(t, false, b);
    PassDigits(s, true, 0);
    if s[0] > 0 {
      PassLeads(s, true, 0);
      PassLeads(t, false, b);
    } else {
      PassOfDigit(0, true, 0);
      assert t == [0];
      PassOfDigit(0, false, b);
      if b > 0 {
        LeadingCarry(b);
      }
    }
  }

  method Render(digits: seq<nat>) returns (r: string)
    requires Digits(digits)
    ensures IsNumeral(r) && Parse(r) == digits
  {
    r := [];
    for i := 0 to |digits|
      invariant |r| == i && IsNumeral(r)
      invariant forall j :: 0 <= j < i ==> FromChar(r[j]) == digits[j]
    {
      r := r + [ToChar(digits[i])];
    }
  }

  /** The rendering is injective: byte strings of one value, and only those, share
      a numeral. */
  lemma NumeralDeterminesValue(a: seq<byte>, b: seq<byte>, r: string, s: string)
    requires IsNumeral(r) && Canonical(Parse(r)) && Value(Parse(r)) == BigEndian(a)
    requires IsNumeral(s) && Canonical(Parse(s)) && Value(Parse(s)) == BigEndian(b)
    ensures r == s <==> BigEndian(a) == BigEndian(b)
  {
    if BigEndian(a) == BigEndian(b) {
      CanonicalUnique(Parse(r), Parse(s));
      assert |Parse(r)| == |r| && |Parse(s)| == |s|;
      forall i | 0 <= i < |r| ensures r[i] == s[i] {
        assert FromChar(r[i]) == Parse(r)[i] == Parse(s)[i] == FromChar(s[i]);
      }
    }
  }
}
