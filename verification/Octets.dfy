// Octets and big-endian integers: encoding/binary.BigEndian, big.Int.Bytes and SetBytes
// (OS2IP and I2OSP, sections 4.1 and 4.2 of RFC 8017).
module Octets {

  type Byte = b: int | 0 <= b < 256

  function Power2(k: nat): (r: nat)
    ensures r > 0
  {
    if k == 0 then 1 else 2 * Power2(k - 1)
  }

  // Exclusive or of the lowest width bits.
  function XorBits(width: nat, a: nat, b: nat): (r: nat)
    ensures r < Power2(width)
  {
    if width == 0 then 0 else 2 * XorBits(width - 1, a / 2, b / 2) + (a % 2 + b % 2) % 2
  }

  lemma {:induction false} XorBitsCancel(width: nat, a: nat, b: nat)
    requires a < Power2(width)
    ensures XorBits(width, XorBits(width, a, b), b) == a
  {
    hide Power2;
    HalfBelow(width, a);
    if width > 0 {
      var high, low := XorBits(width - 1, a / 2, b / 2), (a % 2 + b % 2) % 2;
      XorBitsCancel(width - 1, a / 2, b / 2);
      Halves(high, low);
      BitCancels(a % 2, b % 2);
      Rejoined(a);
    }
  }

  lemma HalfBelow(width: nat, a: nat)
    requires a < Power2(width)
    ensures if width == 0 then a == 0 else a / 2 < Power2(width - 1)
  {
  }

  lemma Halves(high: nat, low: nat)
    requires low < 2
    ensures (2 * high + low) / 2 == high && (2 * high + low) % 2 == low
  {
  }

  lemma BitCancels(x: nat, y: nat)
    requires x < 2 && y < 2
    ensures ((x + y) % 2 + y) % 2 == x
  {
  }

  lemma ByteWidth()
    ensures Power2(8) == 256
  {
    assert Power2(2) == 4 && Power2(4) == 16 && Power2(6) == 64;
  }

  function Xor(a: Byte, b: Byte): Byte {
    ByteWidth();
    XorBits(8, a, b)
  }

  lemma XorCancels(a: Byte, b: Byte)
    ensures Xor(Xor(a, b), b) == a
  {
    ByteWidth();
    XorBitsCancel(8, a, b);
  }

  // Binary digit k of n, counted from the lowest.
  function Bit(n: nat, k: nat): nat {
    if k == 0 then n % 2 else Bit(n / 2, k - 1)
  }

  lemma {:induction false} XorBitsBitwise(width: nat, a: nat, b: nat, k: nat)
    requires k < width
    ensures Bit(XorBits(width, a, b), k) == if Bit(a, k) != Bit(b, k) then 1 else 0
    decreases width
  {
    Halves(XorBits(width - 1, a / 2, b / 2), (a % 2 + b % 2) % 2);
    if k > 0 {
      XorBitsBitwise(width - 1, a / 2, b / 2, k - 1);
    }
  }

  lemma {:induction false} BitsDetermineBelow(width: nat, a: nat, b: nat)
    requires a < Power2(width) && b < Power2(width)
    requires forall k: nat :: k < width ==> Bit(a, k) == Bit(b, k)
    ensures a == b
  {
    hide Power2;
    HalfBelow(width, a);
    HalfBelow(width, b);
    if width > 0 {
      assert Bit(a, 0) == Bit(b, 0);
      forall k: nat | k < width - 1 ensures Bit(a / 2, k) == Bit(b / 2, k) {
        assert Bit(a, k + 1) == Bit(b, k + 1);
      }
      BitsDetermineBelow(width - 1, a / 2, b / 2);
      Rejoined(a);
      Rejoined(b);
    }
  }

  // An octet is its eight bits.
  lemma BitsDetermine(a: Byte, b: Byte)
    requires forall k: nat :: k < 8 ==> Bit(a, k) == Bit(b, k)
    ensures a == b
  {
    ByteWidth();
    BitsDetermineBelow(8, a, b);
  }

  // A bit of the result is set exactly where the bits of the operands differ.
  lemma XorBitwise(a: Byte, b: Byte, k: nat)
    requires k < 8
    ensures Bit(Xor(a, b), k) == if Bit(a, k) != Bit(b, k) then 1 else 0
  {
    ByteWidth();
    XorBitsBitwise(8, a, b, k);
  }

  lemma {:induction false} XorBitsNeutral(width: nat, a: nat, b: nat, k: nat)
    requires a < Power2(width) && b < Power2(width) && XorBits(width, a, k) == a
    ensures XorBits(width, b, k) == b
  {
    hide Power2;
    HalfBelow(width, a);
    HalfBelow(width, b);
    if width > 0 {
      Halves(XorBits(width - 1, a / 2, k / 2), (a % 2 + k % 2) % 2);
      BitNeutral(a % 2, b % 2, k % 2);
      XorBitsNeutral(width - 1, a / 2, b / 2, k / 2);
      Rejoined(b);
    }
  }

  lemma BitNeutral(x: nat, y: nat, k: nat)
    requires x < 2 && y < 2 && k < 2 && (x + k) % 2 == x
    ensures (y + k) % 2 == y
  {
  }

  lemma Rejoined(n: nat)
    ensures 2 * (n / 2) + n % 2 == n
  {
  }

  // A key octet that leaves one octet alone leaves every octet alone.
  lemma XorNeutral(a: Byte, b: Byte, k: Byte)
    requires Xor(a, k) == a
    ensures Xor(b, k) == b
  {
    ByteWidth();
    XorBitsNeutral(8, a, b, k);
  }

  function Power256(k: nat): (r: nat)
    ensures r > 0
  {
    if k == 0 then 1 else 256 * Power256(k - 1)
  }

  // The value of a big-endian octet string.
  function Value(octets: seq<Byte>): nat {
    if octets == [] then 0 else Value(octets[..|octets| - 1]) * 256 + octets[|octets| - 1]
  }

  // n on exactly width octets, dropping what does not fit.
  function Fixed(width: nat, n: nat): (r: seq<Byte>)
    ensures |r| == width
  {
    if width == 0 then [] else Fixed(width - 1, n / 256) + [n % 256]
  }

  // n on as few octets as possible; none at all for zero.
  function Minimal(n: nat): (r: seq<Byte>)
  {
    if n == 0 then [] else Minimal(n / 256) + [n % 256]
  }

  lemma {:induction false} ValueBelow(octets: seq<Byte>)
    ensures Value(octets) < Power256(|octets|)
  {
    if octets != [] {
      ValueBelow(octets[..|octets| - 1]);
    }
  }

  // The first octet is the most significant one.
  lemma {:induction false} ValueBigEndian(first: Byte, rest: seq<Byte>)
    ensures Value([first] + rest) == first * Power256(|rest|) + Value(rest)
  {
    var all := [first] + rest;
    if rest == [] {
      assert all[..0] == [];
    } else {
      var init, last := rest[..|rest| - 1], rest[|rest| - 1];
      assert all[..|all| - 1] == [first] + init;
      ValueBigEndian(first, init);
    }
  }

  lemma {:induction false} ValueOfFixed(width: nat, n: nat)
    requires n < Power256(width)
    ensures Value(Fixed(width, n)) == n
  {
    if width > 0 {
      var r := Fixed(width, n);
      assert r[..width - 1] == Fixed(width - 1, n / 256);
      ValueOfFixed(width - 1, n / 256);
    }
  }

  lemma {:induction false} FixedOfValue(octets: seq<Byte>)
    ensures Fixed(|octets|, Value(octets)) == octets
  {
    if octets != [] {
      var init := octets[..|octets| - 1];
      FixedOfValue(init);
      assert Value(octets) / 256 == Value(init) && Value(octets) % 256 == octets[|octets| - 1];
      assert octets == init + [octets[|octets| - 1]];
    }
  }

  lemma {:induction false} ValueOfMinimal(n: nat)
    ensures Value(Minimal(n)) == n
  {
    if n > 0 {
      ValueOfMinimal(n / 256);
      assert Minimal(n)[..|Minimal(n)| - 1] == Minimal(n / 256);
    }
  }

  // The shortest form starts with no zero.
  lemma {:induction false} MinimalLeads(n: nat)
    ensures Minimal(n) != [] ==> Minimal(n)[0] != 0
    ensures Minimal(n) == [] <==> n == 0
  {
    if n > 0 {
      MinimalLeads(n / 256);
    }
  }

  // Octets without a leading zero are the shortest form of their value.
  lemma {:induction false} MinimalOfValue(octets: seq<Byte>)
    requires octets != [] ==> octets[0] != 0
    ensures Minimal(Value(octets)) == octets
  {
    if octets != [] {
      var init, last := octets[..|octets| - 1], octets[|octets| - 1];
      MinimalOfValue(init);
      assert octets == init + [last];
      assert Value(octets) / 256 == Value(init) && Value(octets) % 256 == last;
      if Value(octets) == 0 {
        MinimalLeads(Value(init));
      }
    }
  }

  // Left-padding the shortest form with zeros gives the fixed-width form.
  lemma {:induction false} MinimalFits(width: nat, n: nat)
    requires n < Power256(width)
    ensures |Minimal(n)| <= width
    ensures Zeros(width - |Minimal(n)|) + Minimal(n) == Fixed(width, n)
  {
    if n > 0 {
      MinimalFits(width - 1, n / 256);
    } else {
      FixedZero(width);
    }
  }

  function Zeros(k: nat): seq<Byte> {
    seq(k, _ => 0)
  }

  lemma {:induction false} FixedZero(width: nat)
    ensures Fixed(width, 0) == Zeros(width)
  {
    if width > 0 {
      FixedZero(width - 1);
    }
  }

  lemma {:induction false} ValueSkipsZero(octets: seq<Byte>)
    ensures Value([0] + octets) == Value(octets)
  {
    if octets != [] {
      ValueSkipsZero(octets[..|octets| - 1]);
      assert ([0] + octets)[..|octets|] == [0] + octets[..|octets| - 1];
    }
  }
}
