// Why the two exponents of an RSA key undo each other: with distinct primes p and q, and
// e * d one more than a multiple of p - 1 and of q - 1, every m below p * q satisfies
// (m^e)^d = m modulo p * q (section 3.2 of RFC 8017).
module RsaInverse {
  import opened Wrappers
  import opened Octets
  import opened ModularPower
  import opened Rsa

  ghost predicate Divides(n: int, x: int) {
    exists k: int :: x == n * k
  }

  ghost predicate Congruent(x: int, y: int, n: int) {
    Divides(n, x - y)
  }

  ghost predicate Prime(p: nat) {
    p >= 2 && forall k: nat :: 1 < k < p ==> !Divides(k, p)
  }

  // A prime is a number above one that is no product of two others.
  lemma PrimeExactly(p: nat)
    ensures Prime(p) <==> p > 1 && forall a: nat, b: nat :: a * b == p ==> a == 1 || b == 1
  {
    if Prime(p) {
      forall a: nat, b: nat | a * b == p ensures a == 1 || b == 1 {
        FactorsBelow(a, b, p);
        assert Divides(a, p);
      }
    }
    if p > 1 && !Prime(p) {
      var k: nat :| 1 < k < p && Divides(k, p);
      var b: int :| p == k * b;
      FactorAbove(k, b, p);
      assert k * b == p && k != 1 && b != 1;
    }
  }

  lemma FactorsBelow(a: nat, b: nat, p: nat)
    requires a * b == p && p > 1
    ensures 1 <= a <= p && (a == p ==> b == 1)
  {
    if a > p {
      NoSmallMultiple(a, b);
    }
    if a == p && b != 1 {
      NoSmallMultiple(p, b - 1);
    }
  }

  lemma FactorAbove(k: nat, b: int, p: nat)
    requires p == k * b && 1 < k < p
    ensures b > 1
  {
    NoSmallMultiple(k, b);
  }

  // ---------------------------------------------------------------- divisibility

  lemma DividesSum(n: int, x: int, y: int)
    requires Divides(n, x) && Divides(n, y)
    ensures Divides(n, x + y) && Divides(n, x - y)
  {
    var j: int :| x == n * j;
    var k: int :| y == n * k;
    assert x + y == n * (j + k) && x - y == n * (j - k);
  }

  lemma DividesTimes(n: int, x: int, c: int)
    requires Divides(n, x)
    ensures Divides(n, x * c) && Divides(n, c * x)
  {
    var k: int :| x == n * k;
    assert x * c == n * (k * c);
  }

  lemma DividesItself(n: int)
    ensures Divides(n, n) && Divides(n, 0)
  {
    assert n == n * 1 && 0 == n * 0;
  }

  lemma CongruentTrans(x: int, y: int, z: int, n: int)
    requires Congruent(x, y, n) && Congruent(y, z, n)
    ensures Congruent(x, z, n)
  {
    DividesSum(n, x - y, y - z);
    assert (x - y) + (y - z) == x - z;
  }

  lemma CongruentTimes(x: int, y: int, c: int, n: int)
    requires Congruent(x, y, n)
    ensures Congruent(x * c, y * c, n)
  {
    DividesTimes(n, x - y, c);
    assert (x - y) * c == x * c - y * c;
  }

  lemma Expanded(p: int, q: int, j: int, k: int, y: int)
    requires p == q * j + k
    ensures p * y - q * (j * y) == k * y
  {
    assert (q * j + k) * y == (q * j) * y + k * y;
    assert (q * j) * y == q * (j * y);
  }

  // Euclid's lemma, by descent on the factor below the prime.
  lemma {:induction false} Euclid(p: nat, k: nat, c: int)
    requires Prime(p) && 0 < k < p && Divides(p, k * c)
    ensures Divides(p, c)
    decreases k
  {
    if k > 1 {
      var q, r := p / k, p % k;
      assert p == k * q + r;
      DividesItself(k);
      DividesTimes(k, k, q);
      Remainder(p, k, q, r, c);
      Euclid(p, r, c);
    }
  }

  lemma Remainder(p: nat, k: nat, q: nat, r: nat, c: int)
    requires p == k * q + r && Divides(p, k * c)
    ensures Divides(p, r * c)
  {
    DividesItself(p);
    DividesTimes(p, p, c);
    DividesTimes(p, k * c, q);
    DividesSum(p, p * c, q * (k * c));
    Expanded(p, q, k, r, c);
  }

  lemma NotDivisible(p: nat, q: nat)
    requires Prime(p) && Prime(q) && p != q
    ensures p % q != 0
  {
    var j := p / q;
    assert p == q * j + p % q;
    DividesItself(q);
    DividesTimes(q, q, j);
    NoSmallMultiple(q, j);
  }

  // Two distinct primes that divide a number both divide it together.
  lemma BothDivide(p: nat, q: nat, x: int)
    requires Prime(p) && Prime(q) && p != q && Divides(p, x) && Divides(q, x)
    ensures Divides(p * q, x)
  {
    var y: int :| x == p * y;
    NotDivisible(p, q);
    Cofactor(p, q, y);
    var z: int :| y == q * z;
    assert p * (q * z) == (p * q) * z;
  }

  lemma Cofactor(p: nat, q: nat, y: int)
    requires Prime(q) && p % q != 0 && Divides(q, p * y)
    ensures Divides(q, y)
  {
    var j, k := p / q, p % q;
    DividesItself(q);
    DividesTimes(q, q, j * y);
    DividesSum(q, p * y, q * (j * y));
    Expanded(p, q, j, k, y);
    Euclid(q, k, y);
  }

  // ---------------------------------------------------------------- Fermat's little theorem

  function Choose(n: nat, k: nat): nat {
    if k == 0 then 1 else if n == 0 then 0 else Choose(n - 1, k - 1) + Choose(n - 1, k)
  }

  lemma {:induction false} ChooseBeyond(n: nat, k: nat)
    requires k > n
    ensures Choose(n, k) == 0
  {
    if n > 0 {
      ChooseBeyond(n - 1, k - 1);
      ChooseBeyond(n - 1, k);
    }
  }

  lemma {:induction false} Absorption(n: nat, k: nat)
    requires 0 < k && 0 < n
    ensures k * Choose(n, k) == n * Choose(n - 1, k - 1)
    decreases n
  {
    if n == 1 {
      if k > 1 {
        ChooseBeyond(1, k);
        ChooseBeyond(0, k - 1);
      }
    } else {
      var a, b := Choose(n - 1, k - 1), Choose(n - 1, k);
      Absorption(n - 1, k);
      if k > 1 {
        Absorption(n - 1, k - 1);
        var c, d := Choose(n - 2, k - 2), Choose(n - 2, k - 1);
        assert a == c + d;
        assert (k - 1) * a == (n - 1) * c && k * b == (n - 1) * d;
        AbsorptionStep(n, k, a, b, c, d);
      } else {
        assert a == 1;
      }
    }
  }

  lemma AbsorptionStep(n: int, k: int, a: int, b: int, c: int, d: int)
    requires a == c + d && (k - 1) * a == (n - 1) * c && k * b == (n - 1) * d
    ensures k * (a + b) == n * a
  {
    assert k * (a + b) == (k - 1) * a + a + k * b;
    assert (n - 1) * c + (n - 1) * d == (n - 1) * (c + d);
  }

  lemma PrimeDividesChoose(p: nat, k: nat)
    requires Prime(p) && 0 < k < p
    ensures Divides(p, Choose(p, k))
  {
    Absorption(p, k);
    Euclid(p, k, Choose(p, k));
  }

  // The sum of Choose(n, k) * a^k for k up to m.
  function Expansion(a: nat, n: nat, m: nat): nat {
    Choose(n, m) * Power(a, m) + (if m == 0 then 0 else Expansion(a, n, m - 1))
  }

  lemma {:induction false} ExpansionStep(a: nat, n: nat, m: nat)
    requires n > 0
    ensures Expansion(a, n, m)
            == Expansion(a, n - 1, m) + (if m == 0 then 0 else a * Expansion(a, n - 1, m - 1))
  {
    if m > 0 {
      ExpansionStep(a, n, m - 1);
      var x, y, w := Choose(n - 1, m - 1), Choose(n - 1, m), Power(a, m - 1);
      var rest := if m == 1 then 0 else Expansion(a, n - 1, m - 2);
      TermStep(a, x, y, w, rest);
    }
  }

  lemma TermStep(a: int, x: int, y: int, w: int, rest: int)
    ensures (x + y) * (a * w) == y * (a * w) + a * (x * w)
    ensures a * (x * w + rest) == a * (x * w) + a * rest
  {
    assert (x + y) * (a * w) == x * (a * w) + y * (a * w);
    assert x * (a * w) == a * (x * w);
  }

  lemma {:induction false} Binomial(a: nat, n: nat)
    ensures Power(a + 1, n) == Expansion(a, n, n)
  {
    if n > 0 {
      Binomial(a, n - 1);
      ExpansionStep(a, n, n);
      ChooseBeyond(n - 1, n);
      var s := Expansion(a, n - 1, n - 1);
      assert Expansion(a, n - 1, n) == s;
      assert s + a * s == (a + 1) * s;
    } else {
      assert Choose(0, 0) == 1 && Power(a, 0) == 1;
    }
  }

  lemma {:induction false} MiddleVanishes(p: nat, a: nat, m: nat)
    requires Prime(p) && m < p
    ensures Congruent(Expansion(a, p, m), 1, p)
  {
    if m == 0 {
      DividesItself(p);
      assert Power(a, 0) == 1;
    } else {
      MiddleVanishes(p, a, m - 1);
      PrimeDividesChoose(p, m);
      DividesTimes(p, Choose(p, m), Power(a, m));
      DividesSum(p, Expansion(a, p, m - 1) - 1, Choose(p, m) * Power(a, m));
    }
  }

  lemma {:induction false} ChooseAll(n: nat)
    ensures Choose(n, n) == 1
  {
    if n > 0 {
      ChooseAll(n - 1);
      ChooseBeyond(n - 1, n);
    }
  }

  // a^p is a modulo p.
  lemma {:induction false} Fermat(p: nat, a: nat)
    requires Prime(p)
    ensures Congruent(Power(a, p), a, p)
  {
    if a == 0 {
      DividesItself(p);
    } else {
      var b := a - 1;
      Fermat(p, b);
      Binomial(b, p);
      ChooseAll(p);
      MiddleVanishes(p, b, p - 1);
      DividesSum(p, Expansion(b, p, p - 1) - 1, Power(b, p) - b);
      assert Power(a, p) == Power(b, p) + Expansion(b, p, p - 1);
    }
  }

  lemma {:induction false} FermatRepeated(p: nat, a: nat, k: nat)
    requires Prime(p)
    ensures Congruent(Power(a, 1 + k * (p - 1)), a, p)
  {
    if k == 0 {
      DividesItself(p);
      assert Power(a, 1) == a * Power(a, 0) == a;
    } else {
      var before := 1 + (k - 1) * (p - 1);
      FermatRepeated(p, a, k - 1);
      assert 1 + k * (p - 1) == before + (p - 1);
      PowerAdd(a, before, p - 1);
      CongruentTimes(Power(a, before), a, Power(a, p - 1), p);
      Fermat(p, a);
      CongruentTrans(Power(a, 1 + k * (p - 1)), Power(a, p), a, p);
    }
  }

  // ---------------------------------------------------------------- what the operations compute

  lemma ExpIsPower(b: nat, e: nat, n: nat)
    requires n > 0
    ensures Congruent(Power(b, e), Exp(b, e, n), n)
  {
    var x := Power(b, e);
    assert x - x % n == n * (x / n);
  }

  // A transform is the power of the block's value, modulo the modulus, on exactly as many
  // octets as the modulus.
  lemma TransformIsPower(key: Key, block: seq<Byte>, e: nat)
    requires key.modulus > 0
    ensures |Transform(key, block, e)| == BlockSize(key)
    ensures Value(Transform(key, block, e)) < key.modulus
    ensures Congruent(Power(Value(block), e), Value(Transform(key, block, e)), key.modulus)
  {
    TransformFixed(key, block, e);
    ExpIsPower(Value(block), e, key.modulus);
  }

  // And no other block of that length below the modulus has that value.
  lemma TransformDetermined(key: Key, block: seq<Byte>, e: nat, result: seq<Byte>)
    requires key.modulus > 0 && |result| == BlockSize(key) && Value(result) < key.modulus
    requires Congruent(Power(Value(block), e), Value(result), key.modulus)
    ensures Transform(key, block, e) == result
  {
    TransformFixed(key, block, e);
    CongruentBelow(Power(Value(block), e), Value(result), key.modulus);
    FixedOfValue(result);
  }

  // A signature is the padded data to the power of the private exponent.
  lemma SignIsPower(key: Key, data: seq<Byte>)
    requires key.modulus > 0
    ensures Sign(key, data).Some? <==> |data| + 11 <= BlockSize(key)
    ensures Sign(key, data).Some? ==>
      exists block :: Padded(block, 1, data) && IsPower(key, block, key.privateExponent, Sign(key, data).value)
  {
    if Fits(key, data) {
      var block := SignBlock(key, data);
      assert PaddedWith(block, 1, seq(BlockSize(key) - |data| - 3, _ => 0xff), data);
      TransformIsPower(key, block, key.privateExponent);
      assert Padded(block, 1, data) && IsPower(key, block, key.privateExponent, Sign(key, data).value);
    }
  }

  // result is a block congruent to block to the power of e.
  ghost predicate IsPower(key: Key, block: seq<Byte>, e: nat, result: seq<Byte>) {
    && |block| == BlockSize(key) == |result| && Value(result) < key.modulus
    && Congruent(Power(Value(block), e), Value(result), key.modulus)
  }

  // Verifying accepts exactly the blocks whose power to the public exponent is padded data.
  lemma VerifyIsPower(key: Key, signature: seq<Byte>, data: seq<Byte>)
    requires key.modulus > 0
    ensures Verify(key, signature) == Some(data) <==>
      exists block :: Padded(block, 1, data) && IsPower(key, signature, key.exponent, block)
  {
    UnpadsPower(key, signature, key.exponent, 1, data);
  }

  // Decrypting likewise, with the private exponent.
  lemma DecryptIsPower(key: Key, encrypted: seq<Byte>, data: seq<Byte>)
    requires key.modulus > 0
    ensures Decrypt(key, encrypted) == Some(data) <==>
      exists block :: Padded(block, 2, data) && IsPower(key, encrypted, key.privateExponent, block)
  {
    UnpadsPower(key, encrypted, key.privateExponent, 2, data);
  }

  lemma UnpadsPower(key: Key, source: seq<Byte>, e: nat, blockType: Byte, data: seq<Byte>)
    requires key.modulus > 0
    ensures |source| == BlockSize(key) && Unpadded(key, Transform(key, source, e), blockType) == Some(data) <==>
      exists block :: Padded(block, blockType, data) && IsPower(key, source, e, block)
  {
    hide Unpadded, Transform, Padded;
    TransformIsPower(key, source, e);
    var result := Transform(key, source, e);
    UnpadExact(key, result, blockType, data);
    if |source| == BlockSize(key) && Padded(result, blockType, data) {
      assert IsPower(key, source, e, result);
    }
    if block :| Padded(block, blockType, data) && IsPower(key, source, e, block) {
      TransformDetermined(key, source, e, block);
    }
  }

  lemma {:induction false} Power256Grows(j: nat, k: nat)
    requires j <= k
    ensures Power256(j) <= Power256(k)
    decreases k
  {
    if j < k {
      Power256Grows(j, k - 1);
    }
  }

  // A modulus has k octets exactly when it lies between these powers.
  lemma BlockSizeBetween(key: Key, k: nat)
    requires key.modulus > 0 && k > 0
    ensures BlockSize(key) >= k <==> Power256(k - 1) <= key.modulus
  {
    hide Power256;
    MinimalBounds(key.modulus);
    if BlockSize(key) >= k {
      Power256Grows(k - 1, BlockSize(key) - 1);
    } else {
      Power256Grows(BlockSize(key), k - 1);
    }
  }

  // newRSAKey accepts a triple exactly when its numbers are positive, the modulus has at
  // least 64 octets, and the padded probe raised to both exponents comes back.
  lemma NewKeyExactly(exponent: nat, modulus: nat, privateExponent: nat)
    ensures NewKey(exponent, modulus, privateExponent).Some? <==>
      && exponent > 0 && privateExponent > 0 && Power256(63) <= modulus
      && exists block :: ProbeComesBack(Key(exponent, modulus, privateExponent), block)
  {
    hide Power256, Sign, Verify, PROBE, Padded;
    var key := Key(exponent, modulus, privateExponent);
    if exponent > 0 && privateExponent > 0 && modulus > 0 {
      BlockSizeBetween(key, 64);
      ProbeLength();
      if BlockSize(key) >= MIN_BLOCK {
        ProbePasses(key);
      }
    } else {
      PowerPositive(63);
    }
  }

  lemma PowerPositive(k: nat)
    ensures Power256(k) > 0
  {
  }

  lemma ProbeLength()
    ensures |PROBE| == 6
  {
  }

  ghost predicate ProbeComesBack(key: Key, block: seq<Byte>) {
    && |block| == BlockSize(key) && Padded(block, 1, PROBE)
    && Congruent(Power(Value(block), key.privateExponent * key.exponent), Value(block), key.modulus)
  }

  lemma ProbePasses(key: Key)
    requires key.modulus > 0 && BlockSize(key) >= MIN_BLOCK
    ensures Sign(key, PROBE).Some?
    ensures Verify(key, Sign(key, PROBE).value) == Some(PROBE) <==> exists block :: ProbeComesBack(key, block)
  {
    hide Unpadded, Transform, Minimal, Power256;
    var block := SignBlock(key, PROBE);
    assert PaddedWith(block, 1, seq(BlockSize(key) - |PROBE| - 3, _ => 0xff), PROBE);
    var signature := Transform(key, block, key.privateExponent);
    TransformIsPower(key, block, key.privateExponent);
    var again := Transform(key, signature, key.exponent);
    UnpadExact(key, again, 1, PROBE);
    TransformIsPower(key, signature, key.exponent);
    TwicePower(key, block);
    OnlySignBlock(key, PROBE);
    if ProbeComesBack(key, block) {
      PaddedBelowModulus(key, block);
      CongruentBelow(Power(Value(block), key.privateExponent * key.exponent), Value(block), key.modulus);
      FixedOfValue(block);
      FixedOfValue(again);
    }
    if again == block {
      ExpIsPower(Value(block), key.privateExponent * key.exponent, key.modulus);
    }
  }

  // Two transforms raise to the product of their exponents.
  lemma TwicePower(key: Key, block: seq<Byte>)
    requires key.modulus > 0
    ensures Value(Transform(key, Transform(key, block, key.privateExponent), key.exponent))
            == Exp(Value(block), key.privateExponent * key.exponent, key.modulus)
  {
    TransformFixed(key, block, key.privateExponent);
    TransformFixed(key, Transform(key, block, key.privateExponent), key.exponent);
    ExpReduced(Power(Value(block), key.privateExponent), key.exponent, key.modulus);
    PowerMul(Value(block), key.privateExponent, key.exponent);
  }

  // Padding for a signature leaves no choice.
  lemma OnlySignBlock(key: Key, data: seq<Byte>)
    ensures forall block :: |block| == BlockSize(key) && Padded(block, 1, data) ==>
              Fits(key, data) && block == SignBlock(key, data)
  {
    forall block | |block| == BlockSize(key) && Padded(block, 1, data)
      ensures Fits(key, data) && block == SignBlock(key, data)
    {
      var padding :| PaddedWith(block, 1, padding, data);
      OneSignBlock(key, block, padding, data);
    }
  }

  // ---------------------------------------------------------------- the key pair

  // x is one more than a multiple of p - 1.
  predicate OneMore(x: nat, p: nat)
    requires p >= 2
  {
    x > 0 && (x - 1) % (p - 1) == 0
  }

  lemma OneMoreMeans(x: nat, p: nat)
    requires p >= 2
    ensures OneMore(x, p) <==> x >= 1 && Divides(p - 1, x - 1)
  {
    if OneMore(x, p) {
      assert x - 1 == (p - 1) * ((x - 1) / (p - 1));
    }
    if x >= 1 && Divides(p - 1, x - 1) {
      CongruentBelow(x - 1, 0, p - 1);
    }
  }

  lemma PowerIsIdentity(p: nat, m: nat, x: nat)
    requires Prime(p) && OneMore(x, p)
    ensures Congruent(Power(m, x), m, p)
  {
    var k := (x - 1) / (p - 1);
    assert x == 1 + k * (p - 1);
    FermatRepeated(p, m, k);
  }

  lemma CongruentBelow(x: nat, m: nat, n: nat)
    requires m < n && Congruent(x, m, n)
    ensures x % n == m
  {
    var k: int :| x - m == n * k;
    if k < 0 {
      NoSmallMultiple(n, k);
    }
    ModUnique(n, x, k, m);
  }

  // What key generation promises of the triple.
  ghost predicate Generated(key: Key, p: nat, q: nat) {
    && Prime(p) && Prime(q) && p != q
    && key.modulus == p * q
    && OneMore(key.exponent * key.privateExponent, p)
    && OneMore(key.exponent * key.privateExponent, q)
  }

  lemma GeneratedInverts(key: Key, p: nat, q: nat, a: nat, b: nat)
    requires Generated(key, p, q) && a * b == key.exponent * key.privateExponent
    ensures Inverse(key, a, b)
  {
    var n := key.modulus;
    assert n > 0;
    forall m: nat | m < n ensures Exp(Exp(m, a, n), b, n) == m {
      PowerIsIdentity(p, m, a * b);
      PowerIsIdentity(q, m, a * b);
      BothDivide(p, q, Power(m, a * b) - m);
      CongruentBelow(Power(m, a * b), m, n);
      ExpReduced(Power(m, a), b, n);
      PowerMul(m, a, b);
    }
  }

  // So with such a key every payload of at most blockSize - 11 octets survives signing and
  // verifying, and every padded block survives encrypting and decrypting.
  lemma GeneratedKeyRoundTrips(key: Key, p: nat, q: nat)
    requires Generated(key, p, q)
    ensures Inverse(key, key.privateExponent, key.exponent) && Inverse(key, key.exponent, key.privateExponent)
    ensures forall data: seq<Byte> :: |data| <= BlockSize(key) - 11 ==>
              Sign(key, data).Some? && Verify(key, Sign(key, data).value) == Some(data)
    ensures forall block: seq<Byte>, data: seq<Byte> :: |block| == BlockSize(key) && Padded(block, 2, data) ==>
              Decrypt(key, Transform(key, block, key.exponent)) == Some(data)
  {
    GeneratedInverts(key, p, q, key.privateExponent, key.exponent);
    GeneratedInverts(key, p, q, key.exponent, key.privateExponent);
    forall data: seq<Byte> | |data| <= BlockSize(key) - 11
      ensures Sign(key, data).Some? && Verify(key, Sign(key, data).value) == Some(data)
    {
      VerifySign(key, data);
    }
    forall block: seq<Byte>, data: seq<Byte> | |block| == BlockSize(key) && Padded(block, 2, data)
      ensures Decrypt(key, Transform(key, block, key.exponent)) == Some(data)
    {
      DecryptEncrypt(key, block, data);
    }
  }
}
