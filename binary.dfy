/**
 * Binary rendering of addresses: Java's Integer.toBinaryString and the
 * assembler's zero-padding helper hexToBinary (which, despite its name,
 * turns a decimal value into a fixed-width binary string).
 */
module Binary {
  import opened Results

  function Pow2(k: nat): (p: nat)
    ensures p >= 1
  {
    if k == 0 then 1 else 2 * Pow2(k - 1)
  }

  predicate IsBinary(s: string) {
    forall i :: 0 <= i < |s| ==> s[i] == '0' || s[i] == '1'
  }

  /** A Hack machine word: sixteen bits. */
  predicate IsWord(w: string) {
    |w| == 16 && IsBinary(w)
  }

  /** The number a string of bits denotes, most significant bit first. */
  function Value(s: string): nat
    requires IsBinary(s)
  {
    if s == [] then 0 else 2 * Value(s[..|s| - 1]) + (if s[|s| - 1] == '1' then 1 else 0)
  }

  function Bit(b: nat): char
    requires b < 2
  {
    if b == 0 then '0' else '1'
  }

  /** Integer.toBinaryString of a non-negative int: no leading zeros, and "0" for zero. */
  function Digits(n: nat): (s: string)
    ensures 1 <= |s| && IsBinary(s) && Value(s) == n
    ensures 1 < |s| ==> s[0] == '1'
  {
    if n < 2 then [Bit(n)]
    else
      var high := Digits(n / 2);
      assert (high + [Bit(n % 2)])[..|high|] == high;
      high + [Bit(n % 2)]
  }

  /** The smallest number of bits that holds n is the length of its rendering. */
  lemma {:induction false} DigitsLength(n: nat, k: nat)
    requires 1 <= k
    ensures |Digits(n)| <= k <==> n < Pow2(k)
  {
    if 2 <= n && 2 <= k {
      DigitsLength(n / 2, k - 1);
    }
  }

  /** The range of a Java int. */
  const IntMin: int := -0x8000_0000
  const IntMax: int := 0x7fff_ffff

  lemma Pow2Of31And32()
    ensures Pow2(31) == 0x8000_0000 && Pow2(32) == 0x1_0000_0000
  {
    assert Pow2(8) == 0x100;
    assert Pow2(16) == 0x1_0000;
    assert Pow2(24) == 0x100_0000;
  }

  /**
   * Integer.toBinaryString of any int: a negative value is rendered as its
   * 32-bit two's complement, that is as the unsigned value v + 2^32.
   */
  function ToBinaryString(v: int): string
    requires IntMin <= v
  {
    if 0 <= v then Digits(v) else Digits(v + 0x1_0000_0000)
  }

  /** Every negative int renders as exactly 32 bits. */
  lemma NegativeIs32Bits(v: int)
    requires IntMin <= v < 0
    ensures |ToBinaryString(v)| == 32
  {
    Pow2Of31And32();
    DigitsLength(v + 0x1_0000_0000, 32);
    DigitsLength(v + 0x1_0000_0000, 31);
  }

  function Zeros(k: nat): (z: string)
    ensures |z| == k && IsBinary(z)
  {
    seq(k, _ => '0')
  }

  lemma {:induction false} LeadingZeroKeepsValue(s: string)
    requires IsBinary(s)
    ensures IsBinary(['0'] + s) && Value(['0'] + s) == Value(s)
  {
    if s != [] {
      var init := s[..|s| - 1];
      LeadingZeroKeepsValue(init);
      assert (['0'] + s)[..|s|] == ['0'] + init;
    }
  }

  lemma {:induction false} ZerosKeepValue(k: nat, s: string)
    requires IsBinary(s)
    ensures IsBinary(Zeros(k) + s) && Value(Zeros(k) + s) == Value(s)
  {
    if 0 < k {
      var rest := Zeros(k - 1) + s;
      ZerosKeepValue(k - 1, s);
      assert Zeros(k) + s == ['0'] + rest;
      LeadingZeroKeepsValue(rest);
    } else {
      assert Zeros(k) + s == s;
    }
  }

  /** Bit strings of one length with one value are equal: an address has one word. */
  lemma {:induction false} ValueInjective(a: string, b: string)
    requires IsBinary(a) && IsBinary(b) && |a| == |b| && Value(a) == Value(b)
    ensures a == b
  {
    if a != [] {
      var a', b' := a[..|a| - 1], b[..|b| - 1];
      ValueInjective(a', b');
      assert a == a' + [a[|a| - 1]] && b == b' + [b[|b| - 1]];
    }
  }

  /** Each zero appended doubles the value. */
  lemma {:induction false} TrailingZeros(s: string, k: nat)
    requires IsBinary(s)
    ensures IsBinary(s + Zeros(k)) && Value(s + Zeros(k)) == Value(s) * Pow2(k)
  {
    if k == 0 {
      assert s + Zeros(k) == s;
    } else {
      TrailingZeros(s, k - 1);
      var w := s + Zeros(k);
      assert w[..|w| - 1] == s + Zeros(k - 1);
    }
  }

  /**
   * What hexToBinary(value, length) returns: the binary rendering of value
   * left-padded with zeros to length characters, or a range error when the
   * rendering is already longer than length.
   */
  function Padded(value: int, length: nat): Result<string>
    requires IntMin <= value
  {
    var b := ToBinaryString(value);
    if |b| > length then Err(Range(value)) else Ok(Zeros(length - |b|) + b)
  }

  /**
   * hexToBinary succeeds exactly for the values that fit the field (a
   * negative value needs all 32 bits), and then gives length bits that read
   * back as the value (as an unsigned 32-bit number when it is negative).
   */
  lemma PaddedCorrect(value: int, length: nat)
    requires 1 <= length && IntMin <= value
    ensures Padded(value, length).Ok? <==> (0 <= value < Pow2(length) || (value < 0 && 32 <= length))
    ensures Padded(value, length).Ok? ==>
      var w := Padded(value, length).value;
      |w| == length && IsBinary(w) &&
      Value(w) == if 0 <= value then value else value + 0x1_0000_0000
  {
    var b := ToBinaryString(value);
    if 0 <= value {
      DigitsLength(value, length);
    } else {
      NegativeIs32Bits(value);
    }
    if |b| <= length {
      ZerosKeepValue(length - |b|, b);
    }
  }

  /** A value at or above 2^length, such as 32768 for 15 bits, is refused. */
  lemma PaddedOverflow(value: int, length: nat)
    requires 1 <= length < 32 && IntMin <= value
    requires value < 0 || Pow2(length) <= value
    ensures Padded(value, length) == Err(Range(value))
  {
    PaddedCorrect(value, length);
  }

  /** One more zero in front of k zeros. */
  lemma OneMoreZero(k: nat, s: string)
    ensures "0" + (Zeros(k) + s) == Zeros(k + 1) + s
  {
    assert "0" + Zeros(k) == Zeros(k + 1);
  }

  /** hexToBinary: render value in binary and insert zeros in front until it is length long. */
  method HexToBinary(value: int, length: nat) returns (r: Result<string>)
    requires IntMin <= value
    ensures r == Padded(value, length)
  {
    var b := ToBinaryString(value);
    var code := b;
    if |code| > length {
      return Err(Range(value));
    }
    var len := |code|;
    if len < length {
      var i := 0;
      while i < length - len
        invariant 0 <= i <= length - len
        invariant code == Zeros(i) + b
      {
        OneMoreZero(i, b);
        code := "0" + code;
        i := i + 1;
      }
    }
    assert code == Zeros(length - len) + b;
    return Ok(code);
  }
}
