// networking/crypto/diffie/rsa.go: raw RSA with PKCS#1 v1.5 blocks (section 8.1 of
// RFC 2313, section 7.2 of RFC 8017).
module Rsa {
  import opened Wrappers
  import opened Octets
  import opened ModularPower

  datatype Key = Key(exponent: nat, modulus: nat, privateExponent: nat)

  const MIN_BLOCK: nat := 64
  const MIN_PADDING: nat := 8

  // The modulus size in octets.
  function BlockSize(key: Key): nat {
    |Minimal(key.modulus)|
  }

  lemma {:induction false} MinimalBounds(n: nat)
    requires n > 0
    ensures |Minimal(n)| > 0
    ensures Power256(|Minimal(n)| - 1) <= n < Power256(|Minimal(n)|)
  {
    if n / 256 > 0 {
      MinimalBounds(n / 256);
    } else {
      assert Minimal(n / 256) == [];
    }
  }

  // ---------------------------------------------------------------- padding

  // block is 0, the type, at least eight non-zero padding octets (all 0xff for type 1),
  // 0, and then the data.
  ghost predicate PaddedWith(block: seq<Byte>, blockType: Byte, padding: seq<Byte>, data: seq<Byte>) {
    && block == [0, blockType] + padding + [0] + data
    && |padding| >= MIN_PADDING
    && (forall i :: 0 <= i < |padding| ==> padding[i] != 0 && (blockType == 1 ==> padding[i] == 0xff))
  }

  ghost predicate Padded(block: seq<Byte>, blockType: Byte, data: seq<Byte>) {
    exists padding :: PaddedWith(block, blockType, padding, data)
  }

  // The non-zero octets of the random source, in order.
  function NonZero(source: seq<Byte>): (r: seq<Byte>)
    ensures forall i :: 0 <= i < |r| ==> r[i] != 0
  {
    if source == [] then []
    else NonZero(source[..|source| - 1])
         + (if source[|source| - 1] != 0 then [source[|source| - 1]] else [])
  }

  lemma {:induction false} NonZeroConcat(a: seq<Byte>, b: seq<Byte>)
    ensures NonZero(a + b) == NonZero(a) + NonZero(b)
  {
    if b == [] {
      assert a + b == a;
    } else {
      NonZeroConcat(a, b[..|b| - 1]);
      assert (a + b)[..|a + b| - 1] == a + b[..|b| - 1];
    }
  }

  lemma NonZeroOne(x: Byte)
    ensures NonZero([x]) == if x == 0 then [] else [x]
  {
    assert [x][..0] == [];
  }

  // Rereads one octet until it is not zero.
  method ReadNonZero(source: seq<Byte>, start: nat, target: array<Byte>, index: nat) returns (used: nat, ok: bool)
    requires start <= |source| && index < target.Length && target[index] == 0
    modifies target
    ensures start <= used <= |source| && (ok <==> target[index] != 0)
    ensures target[..] == old(target[..])[index := target[index]]
    ensures NonZero(source[..used]) == NonZero(source[..start]) + (if ok then [target[index]] else [])
    ensures !ok ==> used == |source|
  {
    used := start;
    while target[index] == 0
      invariant start <= used <= |source|
      invariant target[..] == old(target[..])[index := target[index]]
      invariant NonZero(source[..used])
             == NonZero(source[..start]) + (if target[index] != 0 then [target[index]] else [])
      decreases |source| - used, target[index] == 0
    {
      if used == |source| {
        return used, false;
      }
      assert source[..used + 1][..used] == source[..used];
      target[index] := source[used];
      used := used + 1;
    }
    ok := true;
  }

  // fillNonZero fails exactly when the source runs dry first.
  method FillNonZero(source: seq<Byte>, target: array<Byte>, start: nat, count: nat) returns (ok: bool)
    requires start + count <= target.Length
    requires forall i :: start <= i < start + count ==> target[i] == 0
    modifies target
    ensures ok <==> |NonZero(source)| >= count
    ensures ok ==> target[..] == old(target[..start]) + NonZero(source)[..count] + old(target[start + count..])
  {
    hide NonZero;
    assert NonZero(source[..0]) == [] by { NonZeroNone(source); }
    var used: nat := 0;
    for index := 0 to count
      invariant used <= |source| && |NonZero(source[..used])| == index
      invariant target[..] == old(target[..start]) + NonZero(source[..used]) + old(target[start + index..])
    {
      assert target[start + index] == 0;
      used, ok := ReadNonZero(source, used, target, start + index);
      if !ok {
        assert source[..used] == source;
        return;
      }
    }
    NonZeroConcat(source[..used], source[used..]);
    assert source == source[..used] + source[used..];
    ok := true;
  }

  lemma NonZeroNone(source: seq<Byte>)
    ensures NonZero(source[..0]) == []
  {
  }

  method FillOnes(target: array<Byte>, start: nat, count: nat)
    requires start + count <= target.Length
    modifies target
    ensures target[..] == old(target[..start]) + seq(count, _ => 0xff) + old(target[start + count..])
  {
    for index := 0 to count
      invariant target[..] == old(target[..start]) + seq(index, _ => 0xff) + old(target[start + index..])
    {
      target[start + index] := 0xff;
    }
  }

  method CopyTo(target: array<Byte>, start: nat, data: seq<Byte>)
    requires start + |data| <= target.Length
    modifies target
    ensures target[..] == old(target[..start]) + data + old(target[start + |data|..])
  {
    for index := 0 to |data|
      invariant target[..] == old(target[..start]) + data[..index] + old(target[start + index..])
    {
      target[start + index] := data[index];
    }
    assert data[..|data|] == data;
  }

  // Room for the data, the separators and at least eight octets of padding.
  predicate Fits(key: Key, data: seq<Byte>) {
    BlockSize(key) - |data| - 3 >= MIN_PADDING
  }

  // pad builds a block of the right form exactly when the data leaves room for it and,
  // for type 2, the random source yields enough non-zero octets.
  method Pad(key: Key, data: seq<Byte>, blockType: Byte, source: seq<Byte>) returns (block: Option<seq<Byte>>)
    requires blockType == 1 || blockType == 2
    ensures block.Some? <==>
      (Fits(key, data) && (blockType == 2 ==> |NonZero(source)| >= BlockSize(key) - |data| - 3))
    ensures block.Some? ==> |block.value| == BlockSize(key) && Padded(block.value, blockType, data)
    ensures block.Some? && blockType == 1 ==> block.value == SignBlock(key, data)
  {
    hide NonZero, Minimal, SignBlock, Zeros, PaddedWith;
    var paddingLength := BlockSize(key) - |data| - 3;
    if paddingLength < MIN_PADDING {
      return None;
    }
    var result := new Byte[BlockSize(key)](_ => 0);
    AllZero(result[..]);
    result[1] := blockType;
    ghost var head := result[..];
    var ok, padding := FillPadding(result, paddingLength, blockType, source);
    if !ok {
      return None;
    }
    PaddingIn(head, blockType, padding, |data|);
    CopyTo(result, 3 + paddingLength, data);
    DataIn(blockType, padding, data);
    IsPadded(result[..], blockType, padding, data);
    if blockType == 1 {
      OneSignBlock(key, result[..], padding, data);
    }
    block := Some(result[..]);
  }

  // The padding: all ones, or non-zero octets of the random source.
  method FillPadding(target: array<Byte>, count: nat, blockType: Byte, source: seq<Byte>)
    returns (ok: bool, ghost padding: seq<Byte>)
    requires 2 + count <= target.Length
    requires forall i :: 2 <= i < 2 + count ==> target[i] == 0
    modifies target
    ensures ok <==> blockType == 1 || |NonZero(source)| >= count
    ensures ok ==> |padding| == count && target[..] == old(target[..2]) + padding + old(target[2 + count..])
    ensures ok ==> forall i :: 0 <= i < count ==> padding[i] != 0 && (blockType == 1 ==> padding[i] == 0xff)
  {
    hide NonZero;
    if blockType == 1 {
      FillOnes(target, 2, count);
      return true, seq(count, _ => 0xff);
    }
    ok := FillNonZero(source, target, 2, count);
    padding := if ok then NonZero(source)[..count] else [];
    if ok {
      NonZeroOctets(source);
    }
  }

  lemma NonZeroOctets(source: seq<Byte>)
    ensures forall i :: 0 <= i < |NonZero(source)| ==> NonZero(source)[i] != 0
  {
  }

  lemma AllZero(octets: seq<Byte>)
    requires forall i :: 0 <= i < |octets| ==> octets[i] == 0
    ensures octets == Zeros(|octets|)
  {
  }

  lemma IsPadded(block: seq<Byte>, blockType: Byte, padding: seq<Byte>, data: seq<Byte>)
    requires block == [0, blockType] + padding + [0] + data && |padding| >= MIN_PADDING
    requires forall i :: 0 <= i < |padding| ==> padding[i] != 0 && (blockType == 1 ==> padding[i] == 0xff)
    ensures PaddedWith(block, blockType, padding, data) && Padded(block, blockType, data)
  {
  }

  lemma PaddingIn(head: seq<Byte>, blockType: Byte, padding: seq<Byte>, room: nat)
    requires |head| == 3 + |padding| + room && head == Zeros(|head|)[1 := blockType]
    ensures head[..2] + padding + head[2 + |padding|..] == [0, blockType] + padding + [0] + Zeros(room)
  {
    assert head[2 + |padding|..] == [0] + Zeros(room);
    assert head[..2] == [0, blockType];
  }

  lemma DataIn(blockType: Byte, padding: seq<Byte>, data: seq<Byte>)
    ensures var block := [0, blockType] + padding + [0] + Zeros(|data|);
      block[..3 + |padding|] + data + block[3 + |padding| + |data|..] == [0, blockType] + padding + [0] + data
  {
    var front := [0, blockType] + padding + [0];
    assert (front + Zeros(|data|))[..|front|] == front;
  }

  lemma OneSignBlock(key: Key, block: seq<Byte>, padding: seq<Byte>, data: seq<Byte>)
    requires |block| == BlockSize(key) && PaddedWith(block, 1, padding, data)
    ensures Fits(key, data) && block == SignBlock(key, data)
  {
    assert padding == seq(|padding|, _ => 0xff);
  }

  // The only block pad can build for a signature.
  function SignBlock(key: Key, data: seq<Byte>): seq<Byte>
    requires Fits(key, data)
  {
    [0, 1] + seq(BlockSize(key) - |data| - 3, _ => 0xff) + [0] + data
  }

  // ---------------------------------------------------------------- unpadding

  // Where the padding scan stops: at the first zero octet from position k on.
  function Separator(block: seq<Byte>, k: nat): (r: nat)
    requires k <= |block|
    ensures k <= r <= |block|
    ensures forall i :: k <= i < r ==> block[i] != 0
    ensures r < |block| ==> block[r] == 0
    decreases |block| - k
  {
    if k == |block| || block[k] == 0 then k else Separator(block, k + 1)
  }

  // What unpad accepts.
  function Unpadded(key: Key, block: seq<Byte>, blockType: Byte): Option<seq<Byte>> {
    if |block| != BlockSize(key) || |block| < 2 || block[0] != 0 || block[1] != blockType then None
    else
      var separator := Separator(block, 2);
      if separator < 10 || separator >= |block|
         || (blockType == 1 && exists i :: 2 <= i < separator && block[i] != 0xff)
      then None
      else Some(block[separator + 1..])
  }

  method Unpad(key: Key, block: seq<Byte>, blockType: Byte) returns (data: Option<seq<Byte>>)
    requires BlockSize(key) >= MIN_BLOCK
    ensures data == Unpadded(key, block, blockType)
  {
    if |block| != BlockSize(key) || block[0] != 0 || block[1] != blockType {
      return None;
    }
    var separator := 2;
    while separator < |block| && block[separator] != 0
      invariant 2 <= separator <= |block| && Separator(block, separator) == Separator(block, 2)
      invariant blockType == 1 ==> forall i :: 2 <= i < separator ==> block[i] == 0xff
      decreases |block| - separator
    {
      if blockType == 1 && block[separator] != 0xff {
        return None;
      }
      separator := separator + 1;
    }
    if separator < 10 || separator >= |block| {
      return None;
    }
    data := Some(block[separator + 1..]);
  }

  // unpad accepts exactly the padded blocks and returns exactly their data.
  lemma UnpadExact(key: Key, block: seq<Byte>, blockType: Byte, data: seq<Byte>)
    ensures Unpadded(key, block, blockType) == Some(data)
      <==> |block| == BlockSize(key) && Padded(block, blockType, data)
  {
    if Unpadded(key, block, blockType) == Some(data) {
      var separator := Separator(block, 2);
      var padding := block[2..separator];
      assert block == [0, blockType] + padding + [0] + data;
      assert PaddedWith(block, blockType, padding, data);
    }
    if |block| == BlockSize(key) && Padded(block, blockType, data) {
      var padding :| PaddedWith(block, blockType, padding, data);
      var end := 2 + |padding|;
      assert forall i :: 2 <= i < end ==> block[i] == padding[i - 2];
      assert block[end] == 0;
      assert Separator(block, 2) == end;
      assert block[end + 1..] == data;
    }
  }

  // ---------------------------------------------------------------- the RSA operations

  // transform: one modular exponentiation on a whole block, result left-padded to the
  // block size.
  function Transform(key: Key, block: seq<Byte>, exponent: nat): seq<Byte>
    requires key.modulus > 0
  {
    var transformed := Minimal(Exp(Value(block), exponent, key.modulus));
    if |transformed| <= BlockSize(key) then Zeros(BlockSize(key) - |transformed|) + transformed else transformed
  }

  lemma TransformFixed(key: Key, block: seq<Byte>, exponent: nat)
    requires key.modulus > 0
    ensures Transform(key, block, exponent) == Fixed(BlockSize(key), Exp(Value(block), exponent, key.modulus))
    ensures Value(Transform(key, block, exponent)) == Exp(Value(block), exponent, key.modulus)
  {
    var x := Exp(Value(block), exponent, key.modulus);
    MinimalBounds(key.modulus);
    MinimalFits(BlockSize(key), x);
    ValueOfFixed(BlockSize(key), x);
  }

  // Raising to a and then to b is the identity below the modulus.
  ghost predicate Inverse(key: Key, a: nat, b: nat) {
    key.modulus > 0 && forall m: nat :: m < key.modulus ==> Exp(Exp(m, a, key.modulus), b, key.modulus) == m
  }

  // A block that starts with a zero octet is below the modulus.
  lemma PaddedBelowModulus(key: Key, block: seq<Byte>)
    requires key.modulus > 0 && |block| == BlockSize(key) && |block| > 0 && block[0] == 0
    ensures Value(block) < key.modulus
  {
    assert block == [0] + block[1..];
    ValueSkipsZero(block[1..]);
    ValueBelow(block[1..]);
    MinimalBounds(key.modulus);
  }

  // Undoing a transform gives the very same octets back, leading zeros included.
  lemma TransformInverts(key: Key, block: seq<Byte>, a: nat, b: nat)
    requires Inverse(key, a, b) && |block| == BlockSize(key) && |block| > 0 && block[0] == 0
    ensures Transform(key, Transform(key, block, a), b) == block
  {
    PaddedBelowModulus(key, block);
    TransformFixed(key, block, a);
    TransformFixed(key, Transform(key, block, a), b);
    FixedOfValue(block);
  }

  function Sign(key: Key, data: seq<Byte>): Option<seq<Byte>>
    requires key.modulus > 0
  {
    if Fits(key, data) then Some(Transform(key, SignBlock(key, data), key.privateExponent)) else None
  }

  function Verify(key: Key, signature: seq<Byte>): Option<seq<Byte>>
    requires key.modulus > 0
  {
    if |signature| != BlockSize(key) then None
    else Unpadded(key, Transform(key, signature, key.exponent), 1)
  }

  function Decrypt(key: Key, block: seq<Byte>): Option<seq<Byte>>
    requires key.modulus > 0
  {
    if |block| != BlockSize(key) then None
    else Unpadded(key, Transform(key, block, key.privateExponent), 2)
  }

  method SignData(key: Key, data: seq<Byte>) returns (signature: Option<seq<Byte>>)
    requires key.modulus > 0
    ensures signature == Sign(key, data)
  {
    var padded := Pad(key, data, 1, []);
    if padded.None? {
      return None;
    }
    signature := Some(Transform(key, padded.value, key.privateExponent));
  }

  // Every payload with room for its padding can be signed, and verifying returns it.
  lemma VerifySign(key: Key, data: seq<Byte>)
    requires Inverse(key, key.privateExponent, key.exponent)
    ensures Sign(key, data).Some? <==> |data| <= BlockSize(key) - 11
    ensures Sign(key, data).Some? ==> Verify(key, Sign(key, data).value) == Some(data)
  {
    if Fits(key, data) {
      var block := SignBlock(key, data);
      var padding := seq(BlockSize(key) - |data| - 3, _ => 0xff);
      assert PaddedWith(block, 1, padding, data);
      UnpadExact(key, block, 1, data);
      TransformFixed(key, block, key.privateExponent);
      TransformInverts(key, block, key.privateExponent, key.exponent);
    }
  }

  // What a client pads with any non-zero octets and encrypts, the server decrypts.
  lemma DecryptEncrypt(key: Key, block: seq<Byte>, data: seq<Byte>)
    requires Inverse(key, key.exponent, key.privateExponent)
    requires |block| == BlockSize(key) && Padded(block, 2, data)
    ensures Decrypt(key, Transform(key, block, key.exponent)) == Some(data)
  {
    UnpadExact(key, block, 2, data);
    TransformFixed(key, block, key.exponent);
    TransformInverts(key, block, key.exponent, key.privateExponent);
  }

  // A verified payload was signed as exactly one block: nothing else verifies to it.
  lemma VerifyOnlySigned(key: Key, signature: seq<Byte>, data: seq<Byte>)
    requires Inverse(key, key.exponent, key.privateExponent)
    requires Verify(key, signature) == Some(data) && Value(signature) < key.modulus
    ensures Sign(key, data) == Some(signature)
  {
    var block := Transform(key, signature, key.exponent);
    UnpadExact(key, block, 1, data);
    var padding :| PaddedWith(block, 1, padding, data);
    assert padding == seq(|padding|, _ => 0xff);
    assert block == SignBlock(key, data);
    TransformFixed(key, signature, key.exponent);
    TransformFixed(key, block, key.privateExponent);
    FixedOfValue(signature);
  }

  // newRSAKey: the triple is accepted when a probe signs and verifies; matching exponents
  // always pass.
  const PROBE: seq<Byte> := [112, 105, 120, 101, 108, 115]

  lemma ProbeSpells()
    ensures |PROBE| == |"pixels"| && forall i :: 0 <= i < |PROBE| ==> PROBE[i] == "pixels"[i] as int
  {
  }

  function NewKey(exponent: nat, modulus: nat, privateExponent: nat): Option<Key> {
    var key := Key(exponent, modulus, privateExponent);
    if exponent == 0 || modulus == 0 || privateExponent == 0 || BlockSize(key) < MIN_BLOCK then None
    else
      var signature := Sign(key, PROBE);
      if signature.Some? && Verify(key, signature.value) == Some(PROBE) then Some(key) else None
  }

  lemma MatchingKeyAccepted(exponent: nat, modulus: nat, privateExponent: nat)
    requires exponent > 0 && privateExponent > 0
    requires var key := Key(exponent, modulus, privateExponent);
      Inverse(key, privateExponent, exponent) && BlockSize(key) >= MIN_BLOCK
    ensures NewKey(exponent, modulus, privateExponent).Some?
  {
    VerifySign(Key(exponent, modulus, privateExponent), PROBE);
  }
}
