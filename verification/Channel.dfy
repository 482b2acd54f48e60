// networking/crypto/diffie/channel.go: key agreement and the life of a secure channel.
module Channel {
  import opened Wrappers
  import opened Octets
  import opened ModularPower
  import opened Rsa
  import opened RsaInverse
  import Decimal
  import Rc4

  datatype Phase = Plain | Negotiating | Ready | Failed

  datatype Error = InvalidState | Cancelled | NoRandomness | InvalidParameters | InvalidPublicKey | InvalidSharedKey

  // What generateValues draws, and the values it makes of it.
  datatype Draw = Draw(first: nat, second: nat, privateKey: nat)

  datatype Values = Values(prime: nat, generator: nat, privateKey: nat)

  datatype Parameters = Parameters(prime: seq<Byte>, generator: seq<Byte>)

  // ---------------------------------------------------------------- numbers on the wire

  function DecimalOctets(n: nat): seq<Byte> {
    var text := Decimal.Text(n);
    seq(|text|, i requires 0 <= i < |text| => assert text[i] in text; Code(text[i]))
  }

  function Code(c: char): Byte
    requires Decimal.IsDigit(c)
  {
    c as int
  }

  function ParseOctets(octets: seq<Byte>): Decimal.Parsed {
    Decimal.Parse(seq(|octets|, i requires 0 <= i < |octets| => octets[i] as char))
  }

  lemma ParseDecimal(n: nat)
    ensures ParseOctets(DecimalOctets(n)) == Decimal.Number(n)
  {
    var text, octets := Decimal.Text(n), DecimalOctets(n);
    assert seq(|octets|, i requires 0 <= i < |octets| => octets[i] as char) == text;
    Decimal.ParseOfText(n);
  }

  // The larger of the two primes becomes the modulus.
  function Ordered(d: Draw): (v: Values)
    ensures v.generator <= v.prime && multiset{v.generator, v.prime} == multiset{d.first, d.second}
    ensures v.privateKey == d.privateKey
  {
    if d.second >= d.first then Values(d.second, d.first, d.privateKey)
    else Values(d.first, d.second, d.privateKey)
  }

  // Room for a number is room for every smaller one.
  lemma SmallerFits(key: Key, n: nat, m: nat)
    requires n <= m && Fits(key, DecimalOctets(m))
    ensures Fits(key, DecimalOctets(n))
  {
    Decimal.TextGrows(n, m);
  }

  predicate ValidPublicKey(value: int, prime: nat) {
    2 <= value <= prime - 2
  }

  function SharedKey(public: nat, private: nat, prime: nat): seq<Byte>
    requires prime > 0
  {
    Minimal(Exp(public, private, prime))
  }

  // ---------------------------------------------------------------- agreement

  function Public(v: Values): nat
    requires v.prime > 0
  {
    Exp(v.generator, v.privateKey, v.prime)
  }

  // What Complete makes of the client's message: the shared key, or why there is none.
  function Outcome(key: Key, v: Values, encrypted: seq<Byte>): Result<seq<Byte>, Error>
    requires key.modulus > 0 && v.prime > 0
  {
    var client := ReadEncrypted(key, encrypted);
    if client.NotANumber? || !ValidPublicKey(client.value, v.prime) then Err(InvalidPublicKey)
    else
      var shared := SharedKey(client.value, v.privateKey, v.prime);
      if shared == [] then Err(InvalidSharedKey) else Ok(shared)
  }

  // The public value is the generator to the power of the private number, modulo the prime.
  lemma PublicIsPower(v: Values)
    requires v.prime > 0
    ensures Public(v) < v.prime && Congruent(Power(v.generator, v.privateKey), Public(v), v.prime)
  {
    ExpIsPower(v.generator, v.privateKey, v.prime);
  }

  // key is the client's number to the power of the private number, modulo the prime, as
  // octets without a leading zero, and the client's number is not a trivial one.
  ghost predicate SharedWith(v: Values, client: int, key: seq<Byte>) {
    && 1 < client && client + 1 < v.prime
    && key != [] && key[0] != 0 && Value(key) < v.prime
    && Congruent(Power(client, v.privateKey), Value(key), v.prime)
  }

  // Complete arrives at a key exactly when the client's message holds such a number.
  lemma OutcomeExactly(key: Key, v: Values, encrypted: seq<Byte>, shared: seq<Byte>)
    requires key.modulus > 0 && v.prime > 0
    ensures Outcome(key, v, encrypted) == Ok(shared) <==>
      var client := ReadEncrypted(key, encrypted);
      client.Number? && SharedWith(v, client.value, shared)
  {
    hide ReadEncrypted, Power;
    var client := ReadEncrypted(key, encrypted);
    if client.Number? && ValidPublicKey(client.value, v.prime) {
      var x := Exp(client.value, v.privateKey, v.prime);
      ExpIsPower(client.value, v.privateKey, v.prime);
      ValueOfMinimal(x);
      MinimalLeads(x);
      if SharedWith(v, client.value, shared) {
        CongruentBelow(Power(client.value, v.privateKey), Value(shared), v.prime);
        MinimalOfValue(shared);
      }
    }
  }

  // An honest client with private exponent b: it pads and encrypts its public number.
  ghost predicate Honest(key: Key, v: Values, b: nat, block: seq<Byte>)
    requires v.prime > 0
  {
    |block| == BlockSize(key) && Padded(block, 2, DecimalOctets(Exp(v.generator, b, v.prime)))
  }

  // It reads the server's three signed numbers, and derives the key the server derives.
  lemma NegotiationAgrees(key: Key, v: Values, b: nat, block: seq<Byte>)
    requires Inverse(key, key.privateExponent, key.exponent) && Inverse(key, key.exponent, key.privateExponent)
    requires 0 < v.prime && v.generator <= v.prime && Fits(key, DecimalOctets(v.prime)) && Honest(key, v, b, block)
    ensures ReadSigned(key, Sign(key, DecimalOctets(v.prime))) == Decimal.Number(v.prime)
    ensures ReadSigned(key, Sign(key, DecimalOctets(v.generator))) == Decimal.Number(v.generator)
    ensures ReadSigned(key, Sign(key, DecimalOctets(Public(v)))) == Decimal.Number(Public(v))
    ensures ReadEncrypted(key, Transform(key, block, key.exponent)) == Decimal.Number(Exp(v.generator, b, v.prime))
    ensures SharedKey(Exp(v.generator, b, v.prime), v.privateKey, v.prime) == SharedKey(Public(v), b, v.prime)
  {
    hide Transform, Decimal.Parse, Verify, Sign, Exp, Decrypt, Fits;
    SmallerFits(key, v.generator, v.prime);
    SmallerFits(key, Public(v), v.prime);
    SignedNumber(key, v.prime);
    SignedNumber(key, v.generator);
    SignedNumber(key, Public(v));
    DecryptEncrypt(key, block, DecimalOctets(Exp(v.generator, b, v.prime)));
    ParseDecimal(Exp(v.generator, b, v.prime));
    SharedValueAgrees(v.generator, v.privateKey, b, v.prime);
  }

  // The server accepts it exactly when its public number is in range and the shared key is
  // not empty, and then both hold the same key.
  lemma HonestOutcome(key: Key, v: Values, b: nat, block: seq<Byte>)
    requires Inverse(key, key.privateExponent, key.exponent) && Inverse(key, key.exponent, key.privateExponent)
    requires 0 < v.prime && v.generator <= v.prime && Fits(key, DecimalOctets(v.prime)) && Honest(key, v, b, block)
    ensures Outcome(key, v, Transform(key, block, key.exponent))
            == if !ValidPublicKey(Exp(v.generator, b, v.prime), v.prime) then Err(InvalidPublicKey)
               else if SharedKey(Public(v), b, v.prime) == [] then Err(InvalidSharedKey)
               else Ok(SharedKey(Public(v), b, v.prime))
  {
    hide Transform, ReadEncrypted, ReadSigned, Sign, Exp, Fits, SharedKey;
    NegotiationAgrees(key, v, b, block);
  }

  // In particular with every key generated from two primes.
  lemma GeneratedKeysNegotiate(key: Key, p: nat, q: nat, v: Values, b: nat, block: seq<Byte>)
    requires Generated(key, p, q)
    requires 0 < v.prime && v.generator <= v.prime && Fits(key, DecimalOctets(v.prime)) && Honest(key, v, b, block)
    ensures key.modulus > 0
    ensures Outcome(key, v, Transform(key, block, key.exponent)).Ok?
            <==> ValidPublicKey(Exp(v.generator, b, v.prime), v.prime) && SharedKey(Public(v), b, v.prime) != []
    ensures Outcome(key, v, Transform(key, block, key.exponent)).Ok? ==>
              Outcome(key, v, Transform(key, block, key.exponent)).value == SharedKey(Public(v), b, v.prime)
  {
    hide Transform, Outcome, Exp, Fits, SharedKey;
    GeneratedInverts(key, p, q, key.privateExponent, key.exponent);
    GeneratedInverts(key, p, q, key.exponent, key.privateExponent);
    HonestOutcome(key, v, b, block);
  }

  // A peer reading a signed, or an encrypted, decimal number.
  function ReadSigned(key: Key, signature: Option<seq<Byte>>): Decimal.Parsed
    requires key.modulus > 0
  {
    if signature.None? then Decimal.NotANumber
    else
      var data := Verify(key, signature.value);
      if data.None? then Decimal.NotANumber else ParseOctets(data.value)
  }

  function ReadEncrypted(key: Key, block: seq<Byte>): Decimal.Parsed
    requires key.modulus > 0
  {
    var data := Decrypt(key, block);
    if data.None? then Decimal.NotANumber else ParseOctets(data.value)
  }

  lemma SignedNumber(key: Key, n: nat)
    requires Inverse(key, key.privateExponent, key.exponent) && Fits(key, DecimalOctets(n))
    ensures ReadSigned(key, Sign(key, DecimalOctets(n))) == Decimal.Number(n)
  {
    hide Transform, Decimal.Parse, Verify, Sign;
    VerifySign(key, DecimalOctets(n));
    ParseDecimal(n);
  }

  // ---------------------------------------------------------------- the channel object

  class SecureChannel {
    const encryptOutbound: bool
    const rsa: Key
    var phase: Phase
    var values: Values
    var publicKey: nat
    var parameters: Parameters
    var inbound: Rc4.Cipher?
    var outbound: Rc4.Cipher?
    ghost var Repr: set<object>

    // The values in use are usable, and the public number is theirs.
    ghost predicate Drawn()
      reads this
    {
      0 < values.prime && values.generator <= values.prime && Fits(rsa, DecimalOctets(values.prime))
      && publicKey == Public(values)
    }

    // Ciphers exist from completion on and go away on close; only negotiation leads to
    // Ready, and nothing leads out of Failed.
    ghost predicate Valid()
      reads this, Repr
    {
      && this in Repr && rsa.modulus > 0
      && (inbound != null ==> inbound in Repr && inbound.table in Repr && inbound.Valid())
      && (outbound != null ==> outbound in Repr && outbound.table in Repr && outbound.Valid())
      && (inbound != null && outbound != null ==> inbound != outbound && inbound.table != outbound.table)
      && (phase == Plain || phase == Failed ==> inbound == null)
      && (phase == Ready ==> inbound != null)
      && (outbound != null <==> inbound != null && encryptOutbound)
      && (phase == Negotiating || phase == Ready ==> Drawn())
    }

    ghost function Inbound(): Rc4.State
      requires Valid() && inbound != null
      reads this, Repr
    {
      inbound.Abstract()
    }

    ghost function Outbound(): Rc4.State
      requires Valid() && outbound != null
      reads this, Repr
    {
      outbound.Abstract()
    }

    constructor (encryptOutbound: bool, rsa: Key)
      requires rsa.modulus > 0
      ensures Valid() && fresh(Repr) && phase == Plain && this.rsa == rsa
      ensures this.encryptOutbound == encryptOutbound
    {
      this.encryptOutbound, this.rsa := encryptOutbound, rsa;
      phase, values, publicKey := Plain, Values(0, 0, 0), 0;
      parameters := Parameters([], []);
      inbound, outbound := null, null;
      Repr := {this};
    }

    // Begin succeeds exactly on a plain channel whose prime fits into one signed block; any
    // failure after drawing is final.
    method Begin(drawn: Option<Draw>, cancelled: bool) returns (err: Option<Error>)
      requires Valid() && (drawn.Some? ==> drawn.value.first > 0)
      modifies this
      ensures Valid() && Repr == old(Repr) && inbound == old(inbound) && outbound == old(outbound)
      ensures err == (if old(phase) != Plain then Some(InvalidState)
                      else if cancelled then Some(Cancelled)
                      else if drawn.None? then Some(NoRandomness)
                      else if !Fits(rsa, DecimalOctets(Ordered(drawn.value).prime)) then Some(InvalidParameters)
                      else None)
      ensures phase == (if err == None then Negotiating
                        else if err == Some(InvalidState) || err == Some(Cancelled) then old(phase)
                        else Failed)
      ensures err == None ==> (
        && values == Ordered(drawn.value)
        && publicKey < values.prime && Congruent(Power(values.generator, values.privateKey), publicKey, values.prime)
        && Sign(rsa, DecimalOctets(values.prime)) == Some(parameters.prime)
        && Sign(rsa, DecimalOctets(values.generator)) == Some(parameters.generator))
    {
      hide Fits, DecimalOctets, Transform, Exp, Power, Congruent;
      if phase != Plain {
        return Some(InvalidState);
      }
      if cancelled {
        return Some(Cancelled);
      }
      if drawn.None? {
        phase := Failed;
        return Some(NoRandomness);
      }
      var fresh' := Ordered(drawn.value);
      var prime := SignData(rsa, DecimalOctets(fresh'.prime));
      if prime.None? {
        phase := Failed;
        return Some(InvalidParameters);
      }
      SmallerFits(rsa, fresh'.generator, fresh'.prime);
      var generator := SignData(rsa, DecimalOctets(fresh'.generator));
      if generator.None? {
        assert false;  // the smaller number fits as well
      }
      values := fresh';
      publicKey := Exp(values.generator, values.privateKey, values.prime);
      PublicIsPower(values);
      parameters := Parameters(prime.value, generator.value);
      phase := Negotiating;
      return None;
    }

    // Complete: reads the client's number, derives the key and prepares both streams. It
    // succeeds exactly when there is a key to derive; the answer always fits.
    method Complete(encrypted: seq<Byte>, cancelled: bool) returns (r: Result<seq<Byte>, Error>)
      requires Valid() && BlockSize(rsa) >= MIN_BLOCK
      modifies this
      ensures Valid() && fresh(Repr - old(Repr)) && values == old(values) && publicKey == old(publicKey)
      ensures old(phase != Negotiating || inbound != null) ==> (
        r == Err(InvalidState) && phase == old(phase) && inbound == old(inbound) && outbound == old(outbound))
      ensures old(phase == Negotiating && inbound == null) && cancelled ==>
                r == Err(Cancelled) && phase == Negotiating && inbound == null
      ensures old(phase == Negotiating && inbound == null) && !cancelled ==> (
        match Outcome(rsa, values, encrypted)
        case Err(e) => r == Err(e) && phase == Failed
        case Ok(key) =>
          && ReadEncrypted(rsa, encrypted).Number?
          && Sign(rsa, DecimalOctets(Public(values))).Some?
          && r == Ok(Sign(rsa, DecimalOctets(Public(values))).value)
          && phase == Negotiating && inbound != null
          && SharedWith(values, ReadEncrypted(rsa, encrypted).value, key)
          && Inbound() == Rc4.Initial(key) && (outbound != null ==> Outbound() == Rc4.Initial(key)))
    {
      hide Decrypt, ParseOctets, DecimalOctets, Transform, Fits, Rc4.Rounds, Exp, Minimal, Decimal.Parse, SharedWith;
      if phase != Negotiating || inbound != null {
        return Err(InvalidState);
      }
      if cancelled {
        return Err(Cancelled);
      }
      var decrypted := Decrypt(rsa, encrypted);
      if decrypted.None? {
        phase := Failed;
        return Err(InvalidPublicKey);
      }
      var client := ParseOctets(decrypted.value);
      if client.NotANumber? || !ValidPublicKey(client.value, values.prime) {
        phase := Failed;
        return Err(InvalidPublicKey);
      }
      var key := SharedKey(client.value, values.privateKey, values.prime);
      OutcomeExactly(rsa, values, encrypted, key);
      var first, second := Streams(key);
      if first == null {
        phase := Failed;
        return Err(InvalidSharedKey);
      }
      SmallerFits(rsa, publicKey, values.prime);
      var signed := SignData(rsa, DecimalOctets(publicKey));
      inbound, outbound := first, second;
      Repr := Repr + {first, first.table} + (if second == null then {} else {second, second.table});
      return Ok(signed.value);
    }

    // One stream a direction, both from the shared key; none from an empty key.
    method Streams(key: seq<Byte>) returns (first: Rc4.Cipher?, second: Rc4.Cipher?)
      ensures first == null <==> key == []
      ensures second != null <==> first != null && encryptOutbound
      ensures first != null ==>
                first.Valid() && fresh(first) && fresh(first.table) && first.Abstract() == Rc4.Initial(key)
      ensures second != null ==>
                second.Valid() && fresh(second) && fresh(second.table) && second.Abstract() == Rc4.Initial(key)
                && second != first && second.table != first.table
    {
      hide Rc4.Rounds;
      first := Rc4.NewCipher(key);
      second := null;
      if first != null && encryptOutbound {
        second := Rc4.NewCipher(key);
      }
    }

    method Activate() returns (err: Option<Error>)
      requires Valid()
      modifies this`phase
      ensures Valid()
      ensures err == None <==> old(phase == Negotiating && inbound != null)
      ensures phase == if err == None then Ready else old(phase)
    {
      if phase != Negotiating || inbound == null {
        return Some(InvalidState);
      }
      phase := Ready;
      return None;
    }

    method Open(source: seq<Byte>) returns (r: Result<seq<Byte>, Error>)
      requires Valid()
      modifies Repr
      ensures Valid() && Repr == old(Repr) && phase == old(phase)
      ensures r.Ok? <==> phase == Ready
      ensures r.Ok? ==> (Inbound(), r.value) == Rc4.Apply(old(Inbound()), source)
      ensures r.Ok? && outbound != null ==> old(outbound) == outbound && Outbound() == old(Outbound())
    {
      if phase != Ready || inbound == null {
        return Err(InvalidState);
      }
      var plain := inbound.Transform(source);
      return Ok(plain);
    }

    method Seal(source: seq<Byte>) returns (r: Result<seq<Byte>, Error>)
      requires Valid()
      modifies Repr
      ensures Valid() && Repr == old(Repr) && phase == old(phase) && outbound == old(outbound)
      ensures r.Ok? <==> phase == Ready
      ensures r.Ok? && outbound == null ==> r.value == source
      ensures r.Ok? && outbound != null ==> (Outbound(), r.value) == Rc4.Apply(old(Outbound()), source)
      ensures r.Ok? ==> inbound == old(inbound) && Inbound() == old(Inbound())
    {
      if phase != Ready {
        return Err(InvalidState);
      }
      if outbound == null {
        return Ok(source);
      }
      var sealed := outbound.Transform(source);
      return Ok(sealed);
    }

    method Close()
      requires Valid()
      modifies this
      ensures Valid() && Repr == old(Repr) && phase == Failed && inbound == null && outbound == null
    {
      values := values.(privateKey := 0);
      inbound, outbound := null, null;
      phase := Failed;
    }
  }

  // A whole negotiation between a fresh channel and a client that follows the protocol with
  // private exponent b: it is refused exactly when the client's public number is out of
  // range or the shared key is empty; otherwise the client, from what it read alone, holds
  // the key that both of the server's streams start from.
  method Negotiate(channel: SecureChannel, draw: Draw, b: nat, pad: seq<Byte> -> seq<Byte>)
    returns (clientKey: seq<Byte>, completed: bool)
    requires channel.Valid() && channel.phase == Plain && BlockSize(channel.rsa) >= MIN_BLOCK
    requires Inverse(channel.rsa, channel.rsa.privateExponent, channel.rsa.exponent)
    requires Inverse(channel.rsa, channel.rsa.exponent, channel.rsa.privateExponent)
    requires draw.first > 0 && Fits(channel.rsa, DecimalOctets(Ordered(draw).prime))
    requires forall data :: Fits(channel.rsa, data) ==>
               |pad(data)| == BlockSize(channel.rsa) && Padded(pad(data), 2, data)
    modifies channel
    ensures channel.Valid()
    ensures var v := Ordered(draw);
            completed
            <==> ValidPublicKey(Exp(v.generator, b, v.prime), v.prime) && SharedKey(Public(v), b, v.prime) != []
    ensures completed ==>
              clientKey != [] && channel.phase == Negotiating
              && channel.inbound != null && channel.Inbound() == Rc4.Initial(clientKey)
              && (channel.outbound != null ==> channel.Outbound() == Rc4.Initial(clientKey))
    ensures !completed ==> channel.phase == Failed
  {
    hide Fits, DecimalOctets, Transform, Exp, Sign, ReadSigned, ReadEncrypted, SharedKey, Padded, Rc4.Initial, Outcome;
    var rsa := channel.rsa;
    var _ := channel.Begin(Some(draw), false);
    ghost var v := Ordered(draw);
    SmallerFits(rsa, Exp(v.generator, b, v.prime), v.prime);
    ghost var honest := pad(DecimalOctets(Exp(v.generator, b, v.prime)));
    NegotiationAgrees(rsa, v, b, honest);
    HonestOutcome(rsa, v, b, honest);
    var prime := ReadSigned(rsa, Some(channel.parameters.prime));
    var generator := ReadSigned(rsa, Some(channel.parameters.generator));
    var block := pad(DecimalOctets(Exp(generator.value, b, prime.value)));
    var answer := channel.Complete(Transform(rsa, block, rsa.exponent), false);
    if answer.Err? {
      return [], false;
    }
    var server := ReadSigned(rsa, Some(answer.value));
    clientKey := SharedKey(server.value, b, prime.value);
    completed := true;
  }
}
