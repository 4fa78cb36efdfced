/** Groups of prime order: scalar multiplication by repeated addition, and its laws. */
module Groups {
  import opened Arithmetic
  import opened Results
  import opened ByteStrings
  import opened Digits
  import opened ModArith

  /** A curve as the program uses it: a generator of order n, and a compressed encoding of points. */
  datatype Curve<!P> = Curve(n: nat, zero: P, g: P, add: (P, P) -> P, enc: P -> Bytes, dec: Bytes -> Option<P>)

  ghost predicate Associates<P>(c: Curve<P>, x: P, y: P, z: P) {
    c.add(c.add(x, y), z) == c.add(x, c.add(y, z))
  }

  ghost predicate Commutes<P>(c: Curve<P>, x: P, y: P) {
    c.add(x, y) == c.add(y, x)
  }

  ghost predicate IsGroup<P(!new)>(c: Curve<P>) {
    && (forall x, y, z :: Associates(c, x, y, z))
    && (forall x, y :: Commutes(c, x, y))
    && (forall x :: c.add(x, c.zero) == x)
  }

  /** k * x */
  function Mul<P>(c: Curve<P>, k: nat, x: P): P {
    if k == 0 then c.zero else c.add(Mul(c, k - 1, x), x)
  }

  /** k * g is not the identity. */
  ghost predicate IsPoint<P>(c: Curve<P>, k: nat) {
    Mul(c, k, c.g) != c.zero
  }

  ghost predicate IsCurve<P(!new)>(c: Curve<P>) {
    && IsGroup(c)
    && IsPrime(c.n) && 2 < c.n < Pow256(32)
    && Mul(c, c.n, c.g) == c.zero
    && (forall k: nat :: 0 < k < c.n ==> IsPoint(c, k))
    && (forall x :: x != c.zero ==> |c.enc(x)| == 33 && c.dec(c.enc(x)) == Some(x))
  }

  lemma {:induction false} MulAdd<P(!new)>(c: Curve<P>, j: nat, k: nat, x: P)
    requires IsGroup(c)
    ensures Mul(c, j + k, x) == c.add(Mul(c, j, x), Mul(c, k, x))
  {
    if k > 0 {
      MulAdd(c, j, k - 1, x);
      assert Associates(c, Mul(c, j, x), Mul(c, k - 1, x), x);
    }
  }

  lemma {:induction false} MulMul<P(!new)>(c: Curve<P>, j: nat, k: nat, x: P)
    requires IsGroup(c)
    ensures Mul(c, j * k, x) == Mul(c, j, Mul(c, k, x))
  {
    if j > 0 {
      MulMul(c, j - 1, k, x);
      assert j * k == (j - 1) * k + k;
      MulAdd(c, (j - 1) * k, k, x);
    }
  }

  /** Diffie and Hellman: the two scalars can be applied in either order. */
  lemma MulCommutes<P(!new)>(c: Curve<P>, j: nat, k: nat, x: P)
    requires IsGroup(c)
    ensures Mul(c, j, Mul(c, k, x)) == Mul(c, k, Mul(c, j, x))
  {
    MulMul(c, j, k, x);
    MulMul(c, k, j, x);
    assert j * k == k * j;
  }

  lemma {:induction false} MulOfZero<P(!new)>(c: Curve<P>, k: nat)
    requires IsGroup(c)
    ensures Mul(c, k, c.zero) == c.zero
  {
    if k > 0 { MulOfZero(c, k - 1); }
  }

  lemma MulDropsOrders<P(!new)>(c: Curve<P>, q: nat, r: nat)
    requires IsCurve(c)
    ensures Mul(c, q * c.n + r, c.g) == Mul(c, r, c.g)
  {
    MulMul(c, q, c.n, c.g);
    MulOfZero(c, q);
    MulAdd(c, q * c.n, r, c.g);
    assert Commutes(c, c.zero, Mul(c, r, c.g));
  }

  lemma DivMod(k: nat, n: nat) returns (q: nat, r: nat)
    requires n > 0
    ensures k == q * n + r && r == k % n
  {
    q, r := k / n, k % n;
    DivSplit(k, n);
  }

  /** Scalars of the generator may be reduced modulo the group order. */
  lemma MulReduces<P(!new)>(c: Curve<P>, k: nat)
    requires IsCurve(c)
    ensures Mul(c, k % c.n, c.g) == Mul(c, k, c.g)
  {
    var q, r := DivMod(k, c.n);
    hide IsCurve, Mul;
    MulDropsOrders(c, q, r);
  }

  /** A multiple of the generator is the identity exactly when the order divides its scalar. */
  lemma MulIsZeroIff<P(!new)>(c: Curve<P>, k: nat)
    requires IsCurve(c)
    ensures Mul(c, k, c.g) == c.zero <==> k % c.n == 0
  {
    MulReduces(c, k);
    if k % c.n != 0 {
      assert IsPoint(c, k % c.n);
    }
  }

  /** The order is prime, so the product of two scalars that are not 0 does not reach the identity. */
  lemma ProductIsPoint<P(!new)>(c: Curve<P>, j: nat, k: nat)
    requires IsCurve(c) && 0 < j < c.n && 0 < k < c.n
    ensures Mul(c, j, Mul(c, k, c.g)) != c.zero
  {
    NoZeroDivisors(c.n, j, k);
    MulMul(c, j, k, c.g);
    MulIsZeroIff(c, j * k);
  }

  lemma SmallerDiffers<P(!new)>(c: Curve<P>, j: nat, k: nat)
    requires IsCurve(c) && j < k < c.n
    ensures Mul(c, j, c.g) != Mul(c, k, c.g)
  {
    var rest := c.n - k;
    MulAdd(c, j, rest, c.g);
    MulAdd(c, k, rest, c.g);
    assert IsPoint(c, j + rest);
  }

  /** Multiples of the generator agree exactly when their scalars do modulo the order. */
  lemma MulAgreesIff<P(!new)>(c: Curve<P>, j: nat, k: nat)
    requires IsCurve(c)
    ensures Mul(c, j, c.g) == Mul(c, k, c.g) <==> j % c.n == k % c.n
  {
    MulReduces(c, j);
    MulReduces(c, k);
    if j % c.n < k % c.n {
      SmallerDiffers(c, j % c.n, k % c.n);
    } else if k % c.n < j % c.n {
      SmallerDiffers(c, k % c.n, j % c.n);
    }
  }
}

/** One-time addresses: the sender's derivation, the recipient's check, the scanner's trial decryption. */
module Stealth {
  import opened Results
  import opened ByteStrings
  import opened Digits
  import opened Arithmetic
  import opened Groups
  import opened C32
  import opened ModArith

  datatype Primitives<!P> = Primitives(curve: Curve<P>, sha: Bytes -> Bytes, ripemd: Bytes -> Bytes)

  ghost predicate Lawful<P(!new)>(x: Primitives<P>) {
    IsCurve(x.curve) && forall b :: |x.sha(b)| == 32
  }

  datatype Network = Mainnet | Testnet | Devnet

  datatype StealthError = BadScalar | BadPoint

  datatype MetaAddress = MetaAddress(spendPubKey: Bytes, viewPubKey: Bytes)

  datatype StealthAddress = StealthAddress(address: string, pubKey: Bytes, privKey: Option<Bytes>,
                                           ephemeralPubKey: Bytes)

  datatype PaymentCheck = NoMatch | Match(address: string, pubKey: Bytes, privKey: Option<Bytes>)

  // ------------------------------------------------------------------
  // Library calls
  // ------------------------------------------------------------------

  predicate ValidScalar<P>(c: Curve<P>, key: Bytes) {
    |key| == 32 && 0 < FromBE(key) < c.n
  }

  /** The identity has no encoding. */
  function Encode<P(==)>(c: Curve<P>, x: P): Result<Bytes, StealthError> {
    if x == c.zero then Err(BadPoint) else Ok(c.enc(x))
  }

  function GetPublicKey<P(==)>(c: Curve<P>, key: Bytes): Result<Bytes, StealthError> {
    if !ValidScalar(c, key) then Err(BadScalar) else Encode(c, Mul(c, FromBE(key), c.g))
  }

  /** The ECDH shared secret: the encoding of key * point. */
  function GetSharedSecret<P(==)>(c: Curve<P>, key: Bytes, pub: Bytes): Result<Bytes, StealthError> {
    if !ValidScalar(c, key) then Err(BadScalar)
    else match c.dec(pub)
      case None => Err(BadPoint)
      case Some(x) => Encode(c, Mul(c, FromBE(key), x))
  }

  // ------------------------------------------------------------------
  // Shared steps
  // ------------------------------------------------------------------

  /** A hash as a scalar in [1, n-1]: its big-endian value modulo n, with 1 in place of 0. */
  function BytesToScalar<P>(c: Curve<P>, b: Bytes): nat
    requires c.n > 0
  {
    var scalar := FromBE(b) % c.n;
    if scalar == 0 then 1 else scalar
  }

  function Version(network: Network): nat {
    if network == Mainnet then 22 else 26
  }

  function AddressOf<P>(x: Primitives<P>, pubKey: Bytes, network: Network): string
    requires forall b :: |x.sha(b)| == 32
  {
    C32Check(x.sha, Version(network), x.ripemd(x.sha(pubKey)))
  }

  /** spendPubKey + scalar * G, encoded */
  function StealthPubKey<P(==)>(c: Curve<P>, spendPubKey: Bytes, scalar: nat): Result<Bytes, StealthError> {
    match c.dec(spendPubKey)
    case None => Err(BadPoint)
    case Some(spend) => Encode(c, c.add(spend, Mul(c, scalar, c.g)))
  }

  /** (spendPrivKey + scalar) mod n as 32 bytes */
  function StealthPrivKey<P>(c: Curve<P>, spendPrivKey: Bytes, scalar: nat): Bytes
    requires c.n > 0
  {
    ToBE((FromBE(spendPrivKey) + scalar) % c.n, 32)
  }

  // ------------------------------------------------------------------
  // The three roles
  // ------------------------------------------------------------------

  /** The sender. r is the ephemeral private key. */
  function DeriveStealthAddress<P(==, !new)>(x: Primitives<P>, meta: MetaAddress, r: Bytes, network: Network)
    : Result<StealthAddress, StealthError>
    requires Lawful(x)
  {
    match GetPublicKey(x.curve, r)
    case Err(e) => Err(e)
    case Ok(ephemeral) =>
      match GetSharedSecret(x.curve, r, meta.viewPubKey)
      case Err(e) => Err(e)
      case Ok(secret) =>
        match StealthPubKey(x.curve, meta.spendPubKey, BytesToScalar(x.curve, x.sha(secret)))
        case Err(e) => Err(e)
        case Ok(pub) => Ok(StealthAddress(AddressOf(x, pub, network), pub, None, ephemeral))
  }

  /** The owner depositing to itself: the same derivation, with the spending key. */
  function DeriveSelfStealth<P(==, !new)>(x: Primitives<P>, spendPrivKey: Bytes, viewPrivKey: Bytes, r: Bytes,
                                      network: Network)
    : Result<StealthAddress, StealthError>
    requires Lawful(x)
  {
    match GetPublicKey(x.curve, r)
    case Err(e) => Err(e)
    case Ok(ephemeral) =>
      match GetPublicKey(x.curve, viewPrivKey)
      case Err(e) => Err(e)
      case Ok(viewPubKey) =>
        match GetSharedSecret(x.curve, r, viewPubKey)
        case Err(e) => Err(e)
        case Ok(secret) =>
          var scalar := BytesToScalar(x.curve, x.sha(secret));
          match GetPublicKey(x.curve, spendPrivKey)
          case Err(e) => Err(e)
          case Ok(spendPubKey) =>
            match StealthPubKey(x.curve, spendPubKey, scalar)
            case Err(e) => Err(e)
            case Ok(pub) =>
              var priv := StealthPrivKey(x.curve, spendPrivKey, scalar);
              Ok(StealthAddress(AddressOf(x, pub, network), pub, Some(priv), ephemeral))
  }

  /** The recipient. */
  function CheckStealthPayment<P(==, !new)>(x: Primitives<P>, ephemeral: Bytes, viewPrivKey: Bytes, spendPubKey: Bytes,
                                        target: string, spendPrivKey: Option<Bytes>, network: Network)
    : Result<PaymentCheck, StealthError>
    requires Lawful(x)
  {
    match GetSharedSecret(x.curve, viewPrivKey, ephemeral)
    case Err(e) => Err(e)
    case Ok(secret) =>
      var scalar := BytesToScalar(x.curve, x.sha(secret));
      match StealthPubKey(x.curve, spendPubKey, scalar)
      case Err(e) => Err(e)
      case Ok(pub) =>
        var address := AddressOf(x, pub, network);
        if address != target then Ok(NoMatch)
        else
          var priv := if spendPrivKey.Some? then Some(StealthPrivKey(x.curve, spendPrivKey.value, scalar)) else None;
          Ok(Match(address, pub, priv))
  }

  datatype WithdrawalEvent = WithdrawalEvent(txId: string, recipient: string, ephemeralPubKey: Bytes,
                                             relayerFee: int, blockHeight: nat)

  datatype ScannerKeys = ScannerKeys(viewPrivKey: Bytes, spendPubKey: Bytes)

  datatype DetectedPayment = DetectedPayment(txId: string, address: string, pubKey: Bytes, sharedSecretHash: Bytes,
                                             ephemeralPubKey: Bytes, amount: int, blockHeight: nat)

  const POOL_DENOMINATION := 10000000

  /** The scanner. Whatever would throw is simply not our payment. */
  function TryDecryptPayment<P(==, !new)>(x: Primitives<P>, event: WithdrawalEvent, keys: ScannerKeys, network: Network)
    : Option<DetectedPayment>
    requires Lawful(x)
  {
    var ephemeral := event.ephemeralPubKey;
    if |ephemeral| != 33 then None
    else
      match GetSharedSecret(x.curve, keys.viewPrivKey, ephemeral)
      case Err(_) => None
      case Ok(secret) =>
        var hash := x.sha(secret);
        match StealthPubKey(x.curve, keys.spendPubKey, BytesToScalar(x.curve, hash))
        case Err(_) => None
        case Ok(pub) =>
          var expected := AddressOf(x, pub, network);
          if expected != event.recipient then None
          else Some(DetectedPayment(event.txId, expected, pub, hash, ephemeral, POOL_DENOMINATION - event.relayerFee,
                                    event.blockHeight))
  }

  // ------------------------------------------------------------------
  // Agreement
  // ------------------------------------------------------------------

  /** A valid key's public key, which always exists. */
  function PublicKey<P(==, !new)>(c: Curve<P>, key: Bytes): (pub: Bytes)
    requires IsCurve(c) && ValidScalar(c, key)
    ensures GetPublicKey(c, key) == Ok(pub) && |pub| == 33
  {
    assert IsPoint(c, FromBE(key));
    GetPublicKey(c, key).value
  }

  lemma PublicKeyDecodes<P(!new)>(c: Curve<P>, key: Bytes)
    requires IsCurve(c) && ValidScalar(c, key)
    ensures c.dec(PublicKey(c, key)) == Some(Mul(c, FromBE(key), c.g))
  {
    assert IsPoint(c, FromBE(key));
  }

  lemma ScalarFits<P(!new)>(c: Curve<P>, k: nat)
    requires IsCurve(c)
    ensures FromBE(ToBE(k % c.n, 32)) == k % c.n
  {
    FromToBE(k % c.n, 32);
  }

  /** The stealth point is (spend + scalar) * G, and it is a point unless that sum is 0 modulo n. */
  lemma StealthPoint<P(!new)>(c: Curve<P>, spendPrivKey: Bytes, scalar: nat)
    requires IsCurve(c) && ValidScalar(c, spendPrivKey)
    ensures var sum := FromBE(spendPrivKey) + scalar;
            StealthPubKey(c, PublicKey(c, spendPrivKey), scalar)
            == if sum % c.n == 0 then Err(BadPoint) else Ok(c.enc(Mul(c, sum % c.n, c.g)))
  {
    var a := FromBE(spendPrivKey);
    PublicKeyDecodes(c, spendPrivKey);
    MulAdd(c, a, scalar, c.g);
    MulIsZeroIff(c, a + scalar);
    MulReduces(c, a + scalar);
    hide IsCurve, Mul, PublicKey, ValidScalar;
  }

  /** The private key (spend + scalar) mod n opens the stealth public key, unless it is 0: then neither exists. */
  lemma PrivKeyOpens<P(!new)>(c: Curve<P>, spendPrivKey: Bytes, scalar: nat)
    requires IsCurve(c) && ValidScalar(c, spendPrivKey)
    ensures var pub := StealthPubKey(c, PublicKey(c, spendPrivKey), scalar);
            var priv := StealthPrivKey(c, spendPrivKey, scalar);
            if (FromBE(spendPrivKey) + scalar) % c.n != 0
            then pub.Ok? && ValidScalar(c, priv) && GetPublicKey(c, priv) == pub
            else pub == Err(BadPoint) && GetPublicKey(c, priv) == Err(BadScalar)
  {
    hide Mul, StealthPubKey, ToBE, FromBE;
    var sum := FromBE(spendPrivKey) + scalar;
    StealthPoint(c, spendPrivKey, scalar);
    ScalarFits(c, sum);
    if sum % c.n != 0 {
      PublicKeyDecodes(c, StealthPrivKey(c, spendPrivKey, scalar));
    }
  }

  /** Sender and recipient compute the same shared secret. */
  lemma SecretsAgree<P(!new)>(c: Curve<P>, r: Bytes, v: Bytes)
    requires IsCurve(c) && ValidScalar(c, r) && ValidScalar(c, v)
    ensures GetSharedSecret(c, r, PublicKey(c, v)) == GetSharedSecret(c, v, PublicKey(c, r))
    ensures GetSharedSecret(c, r, PublicKey(c, v)).Ok?
  {
    PublicKeyDecodes(c, r);
    PublicKeyDecodes(c, v);
    MulCommutes(c, FromBE(r), FromBE(v), c.g);
    ProductIsPoint(c, FromBE(r), FromBE(v));
  }

  /** The scalar that the ephemeral key r and the view key v share. */
  function SharedScalar<P(==, !new)>(x: Primitives<P>, r: Bytes, v: Bytes): (scalar: nat)
    requires Lawful(x) && ValidScalar(x.curve, r) && ValidScalar(x.curve, v)
    ensures 0 < scalar < x.curve.n
  {
    SecretsAgree(x.curve, r, v);
    BytesToScalar(x.curve, x.sha(GetSharedSecret(x.curve, r, PublicKey(x.curve, v)).value))
  }

  ghost predicate KeysValid<P(!new)>(x: Primitives<P>, s: Bytes, v: Bytes, r: Bytes) {
    Lawful(x) && ValidScalar(x.curve, s) && ValidScalar(x.curve, v) && ValidScalar(x.curve, r)
  }

  /** The stealth point is not the identity. */
  predicate Payable<P(==, !new)>(x: Primitives<P>, s: Bytes, v: Bytes, r: Bytes)
    requires KeysValid(x, s, v, r)
  {
    (FromBE(s) + SharedScalar(x, r, v)) % x.curve.n != 0
  }

  /**
   * The sender's derivation succeeds exactly when the stealth point is not the identity. Then the recipient's check
   * matches on the same network, with the same public key, and recovers the private key of that public key.
   * Otherwise the check fails as the derivation does.
   */
  lemma SenderRecipientAgree<P(!new)>(x: Primitives<P>, s: Bytes, v: Bytes, r: Bytes, network: Network)
    requires KeysValid(x, s, v, r)
    ensures var c := x.curve;
            var spendPub, viewPub := PublicKey(c, s), PublicKey(c, v);
            var sent := DeriveStealthAddress(x, MetaAddress(spendPub, viewPub), r, network);
            && (sent.Ok? <==> Payable(x, s, v, r))
            && (sent.Ok? ==>
                  && sent.value.ephemeralPubKey == PublicKey(c, r)
                  && var check := CheckStealthPayment(x, sent.value.ephemeralPubKey, v, spendPub, sent.value.address,
                                                      Some(s), network);
                  && check.Ok? && check.value.Match?
                  && check.value.address == sent.value.address
                  && check.value.pubKey == sent.value.pubKey
                  && check.value.privKey.Some?
                  && GetPublicKey(c, check.value.privKey.value) == Ok(sent.value.pubKey))
            && (sent.Err? ==>
                  && sent == Err(BadPoint)
                  && forall target ::
                    CheckStealthPayment(x, PublicKey(c, r), v, spendPub, target, Some(s), network)
                    == Err(BadPoint))
  {
    hide GetPublicKey, GetSharedSecret, StealthPubKey, StealthPrivKey, BytesToScalar, AddressOf, IsCurve, PublicKey;
    SecretsAgree(x.curve, r, v);
    PrivKeyOpens(x.curve, s, SharedScalar(x, r, v));
  }

  /** Self-deposit is the sender's derivation on one's own meta-address, with the key the recipient would recover. */
  lemma SelfStealthAgrees<P(!new)>(x: Primitives<P>, s: Bytes, v: Bytes, r: Bytes, network: Network)
    requires KeysValid(x, s, v, r)
    ensures var c := x.curve;
            var spendPub, viewPub := PublicKey(c, s), PublicKey(c, v);
            var self := DeriveSelfStealth(x, s, v, r, network);
            var sent := DeriveStealthAddress(x, MetaAddress(spendPub, viewPub), r, network);
            && (self.Ok? <==> Payable(x, s, v, r))
            && (self.Err? ==> self == Err(BadPoint) == sent)
            && (self.Ok? ==>
                  && sent == Ok(self.value.(privKey := None))
                  && self.value.privKey.Some?
                  && GetPublicKey(c, self.value.privKey.value) == Ok(self.value.pubKey)
                  && CheckStealthPayment(x, self.value.ephemeralPubKey, v, spendPub, self.value.address, Some(s),
                                         network)
                     == Ok(Match(self.value.address, self.value.pubKey, self.value.privKey)))
  {
    hide GetPublicKey, GetSharedSecret, StealthPubKey, StealthPrivKey, BytesToScalar, AddressOf, IsCurve, PublicKey;
    SecretsAgree(x.curve, r, v);
    PrivKeyOpens(x.curve, s, SharedScalar(x, r, v));
  }

  /** No false match: for any ephemeral key and target, a matching check yields the private key of the public key
      that the target address was made from. */
  lemma MatchIsSpendable<P(!new)>(x: Primitives<P>, ephemeral: Bytes, s: Bytes, v: Bytes, target: string,
                                  network: Network)
    requires Lawful(x) && ValidScalar(x.curve, s)
    ensures var c := x.curve;
            var check := CheckStealthPayment(x, ephemeral, v, PublicKey(c, s), target, Some(s), network);
            check.Ok? && check.value.Match? ==>
              && check.value.privKey.Some?
              && ValidScalar(c, check.value.privKey.value)
              && GetPublicKey(c, check.value.privKey.value) == Ok(check.value.pubKey)
              && target == AddressOf(x, check.value.pubKey, network)
  {
    match GetSharedSecret(x.curve, v, ephemeral)
    case Err(_) =>
    case Ok(secret) =>
      PrivKeyOpens(x.curve, s, BytesToScalar(x.curve, x.sha(secret)));
  }

  /** The digest of the shared secret, as a number. */
  function SecretDigest<P(==, !new)>(x: Primitives<P>, r: Bytes, v: Bytes): nat
    requires Lawful(x) && ValidScalar(x.curve, r) && ValidScalar(x.curve, v)
  {
    SecretsAgree(x.curve, r, v);
    FromBE(x.sha(GetSharedSecret(x.curve, r, PublicKey(x.curve, v)).value))
  }

  lemma SumReduces(n: nat, a: nat, scalar: nat, digest: nat)
    requires n > 2 && scalar == (if digest % n == 0 then 1 else digest % n)
    ensures (a + scalar) % n == (a + if digest % n == 0 then 1 else digest) % n
  {
    if digest % n != 0 {
      DivSplit(digest, n);
      ModShift(n, a + digest % n, digest / n);
    }
  }

  /** The scalar that the digest stands for: a digest that is 0 modulo n counts as 1. */
  function Tweak(n: nat, digest: nat): nat
    requires n > 0
  {
    if digest % n == 0 then 1 else digest
  }

  lemma KeyFacts<P(!new)>(x: Primitives<P>, s: Bytes, v: Bytes, r: Bytes)
    requires KeysValid(x, s, v, r)
    ensures Lawful(x) && IsCurve(x.curve) && x.curve.n > 2
    ensures ValidScalar(x.curve, s) && ValidScalar(x.curve, v) && ValidScalar(x.curve, r)
  {
  }

  lemma TweakIs(n: nat, digest: nat)
    requires n > 0 && digest % n != 0
    ensures Tweak(n, digest) == digest
  {
  }

  lemma ScalarIsTweak<P(!new)>(x: Primitives<P>, r: Bytes, v: Bytes, a: nat)
    requires Lawful(x) && ValidScalar(x.curve, r) && ValidScalar(x.curve, v)
    ensures (a + SharedScalar(x, r, v)) % x.curve.n == (a + Tweak(x.curve.n, SecretDigest(x, r, v))) % x.curve.n
  {
    assert x.curve.n > 2;
    hide GetSharedSecret, PublicKey, IsCurve, ValidScalar, FromBE;
    SumReduces(x.curve.n, a, SharedScalar(x, r, v), SecretDigest(x, r, v));
  }

  /** What both sides compute from the shared scalar. */
  lemma BothSides<P(!new)>(x: Primitives<P>, s: Bytes, v: Bytes, r: Bytes, network: Network)
    requires KeysValid(x, s, v, r)
    ensures var c, scalar := x.curve, SharedScalar(x, r, v);
            var sent := DeriveStealthAddress(x, MetaAddress(PublicKey(c, s), PublicKey(c, v)), r, network);
            sent.Ok? ==>
              && Ok(sent.value.pubKey) == StealthPubKey(c, PublicKey(c, s), scalar)
              && CheckStealthPayment(x, PublicKey(c, r), v, PublicKey(c, s), sent.value.address, Some(s), network)
                 == Ok(Match(sent.value.address, sent.value.pubKey, Some(StealthPrivKey(c, s, scalar))))
  {
    hide GetPublicKey, GetSharedSecret, StealthPubKey, StealthPrivKey, BytesToScalar, AddressOf, IsCurve, PublicKey;
    SecretsAgree(x.curve, r, v);
  }

  /**
   * The one-time key: the spending key moved by the digest of the shared secret. The private key that the recipient
   * recovers is moved by the same digest.
   */
  lemma StealthKeyIsTweaked<P(!new)>(x: Primitives<P>, s: Bytes, v: Bytes, r: Bytes, network: Network)
    requires KeysValid(x, s, v, r)
    ensures var c := x.curve;
            var sum := FromBE(s) + Tweak(c.n, SecretDigest(x, r, v));
            var sent := DeriveStealthAddress(x, MetaAddress(PublicKey(c, s), PublicKey(c, v)), r, network);
            && (sent.Ok? <==> sum % c.n != 0)
            && (sent.Ok? ==>
                  && sent.value.pubKey == c.enc(Mul(c, sum, c.g))
                  && var check := CheckStealthPayment(x, PublicKey(c, r), v, PublicKey(c, s), sent.value.address,
                                                      Some(s), network);
                  && check.Ok? && check.value.Match? && check.value.privKey.Some?
                  && FromBE(check.value.privKey.value) == sum % c.n)
  {
    hide Mul, IsCurve, PublicKey, FromBE, ToBE, StealthPubKey, DeriveStealthAddress, CheckStealthPayment, Tweak,
         SecretDigest, SharedScalar, ValidScalar, GetPublicKey;
    var c, scalar, a := x.curve, SharedScalar(x, r, v), FromBE(s);
    var sum := a + Tweak(c.n, SecretDigest(x, r, v));
    ScalarIsTweak(x, r, v, a);
    SenderRecipientAgree(x, s, v, r, network);
    BothSides(x, s, v, r, network);
    StealthPoint(c, s, scalar);
    MulReduces(c, sum);
    ScalarFits(c, a + scalar);
  }

  lemma EncodingsDiffer<P(!new)>(c: Curve<P>, p: P, q: P)
    requires IsCurve(c)
    ensures p != c.zero && q != c.zero && c.enc(p) == c.enc(q) ==> p == q
  {
    if p != c.zero && q != c.zero {
      assert c.dec(c.enc(p)) == Some(p) && c.dec(c.enc(q)) == Some(q);
    }
  }

  lemma ShiftedAgree(n: nat, a: nat, d: nat, d': nat)
    requires n > 0
    ensures (a + d) % n == (a + d') % n <==> d % n == d' % n
  {
    DivSplit(d, n);
    DivSplit(d', n);
    DivSplit(a + d, n);
    DivSplit(a + d', n);
    if d % n == d' % n {
      ModShift(n, a + d % n, d / n);
      ModShift(n, a + d' % n, d' / n);
    }
    if (a + d) % n == (a + d') % n {
      var q := (a + d) / n - (a + d') / n;
      MulDistributes((a + d) / n, (a + d') / n, n);
      assert d == d' + q * n;
      ModShift(n, d', q);
    }
  }

  lemma TweakedPoints<P(!new)>(c: Curve<P>, a: nat, d: nat, d': nat)
    requires IsCurve(c)
    ensures (a + d) % c.n != 0 && (a + d') % c.n != 0 ==>
              (c.enc(Mul(c, a + d, c.g)) == c.enc(Mul(c, a + d', c.g)) <==> d % c.n == d' % c.n)
  {
    hide Mul;
    MulIsZeroIff(c, a + d);
    MulIsZeroIff(c, a + d');
    EncodingsDiffer(c, Mul(c, a + d, c.g), Mul(c, a + d', c.g));
    MulAgreesIff(c, a + d, a + d');
    ShiftedAgree(c.n, a, d, d');
    hide IsCurve;
  }

  /**
   * Payments are told apart: two ephemeral keys lead to the same stealth key exactly when the digests of their
   * secrets agree modulo n. (Digests that are 0 modulo n are left aside.)
   */
  lemma StealthKeysAgreeIff<P(!new)>(x: Primitives<P>, s: Bytes, v: Bytes, r: Bytes, r': Bytes, network: Network)
    requires KeysValid(x, s, v, r) && KeysValid(x, s, v, r')
    requires SecretDigest(x, r, v) % x.curve.n != 0 && SecretDigest(x, r', v) % x.curve.n != 0
    ensures var c := x.curve;
            var meta := MetaAddress(PublicKey(c, s), PublicKey(c, v));
            var sent, sent' := DeriveStealthAddress(x, meta, r, network), DeriveStealthAddress(x, meta, r', network);
            sent.Ok? && sent'.Ok? ==>
              (sent.value.pubKey == sent'.value.pubKey
               <==> SecretDigest(x, r, v) % c.n == SecretDigest(x, r', v) % c.n)
  {
    hide *;
    var c := x.curve;
    KeyFacts(x, s, v, r);
    KeyFacts(x, s, v, r');
    var a, d, d' := FromBE(s), SecretDigest(x, r, v), SecretDigest(x, r', v);
    StealthKeyIsTweaked(x, s, v, r, network);
    StealthKeyIsTweaked(x, s, v, r', network);
    TweakIs(c.n, d);
    TweakIs(c.n, d');
    TweakedPoints(c, a, d, d');
  }

  lemma ComplementIsValid<P(!new)>(c: Curve<P>, scalar: nat)
    requires IsCurve(c) && 0 < scalar < c.n
    ensures var s := ToBE(c.n - scalar, 32); ValidScalar(c, s) && (FromBE(s) + scalar) % c.n == 0
  {
    hide ToBE, FromBE, Mul;
    FromToBE(c.n - scalar, 32);
    ModUnique(c.n, 1, 0, c.n);
  }

  /**
   * The exception can happen: whatever the view key and the ephemeral key, one spending key lands on the identity,
   * and with it the derivation, the check and the scanner all find nothing.
   */
  lemma IdentityIsReachable<P(!new)>(x: Primitives<P>, v: Bytes, r: Bytes, network: Network) returns (s: Bytes)
    requires Lawful(x) && ValidScalar(x.curve, v) && ValidScalar(x.curve, r)
    ensures KeysValid(x, s, v, r) && !Payable(x, s, v, r)
    ensures var meta := MetaAddress(PublicKey(x.curve, s), PublicKey(x.curve, v));
            DeriveStealthAddress(x, meta, r, network) == Err(BadPoint)
  {
    hide SharedScalar, DeriveStealthAddress, CheckStealthPayment, PublicKey, IsCurve, ToBE, ValidScalar;
    var scalar := SharedScalar(x, r, v);
    s := ToBE(x.curve.n - scalar, 32);
    ComplementIsValid(x.curve, scalar);
    SenderRecipientAgree(x, s, v, r, network);
  }

  /** The scanner detects exactly the 33-byte events the recipient's check would match, with the same keys. */
  lemma ScannerAgreesWithCheck<P(!new)>(x: Primitives<P>, event: WithdrawalEvent, keys: ScannerKeys, s: Bytes,
                                        network: Network)
    requires Lawful(x)
    ensures var check := CheckStealthPayment(x, event.ephemeralPubKey, keys.viewPrivKey, keys.spendPubKey,
                                             event.recipient, Some(s), network);
            match TryDecryptPayment(x, event, keys, network)
            case None => !(|event.ephemeralPubKey| == 33 && check.Ok? && check.value.Match?)
            case Some(d) =>
              && |event.ephemeralPubKey| == 33
              && check == Ok(Match(d.address, d.pubKey,
                                   Some(StealthPrivKey(x.curve, s, BytesToScalar(x.curve, d.sharedSecretHash)))))
              && d.txId == event.txId && d.address == event.recipient && d.ephemeralPubKey == event.ephemeralPubKey
              && d.amount + event.relayerFee == 10_000_000 && d.blockHeight == event.blockHeight
  {
  }

  /** The check depends on the network only through its version byte. */
  lemma CheckAcross<P(!new)>(x: Primitives<P>, ephemeral: Bytes, v: Bytes, spendPub: Bytes, target: string,
                             s: Option<Bytes>, network: Network, scanned: Network)
    requires Lawful(x)
    requires network == Mainnet <==> scanned == Mainnet
    ensures CheckStealthPayment(x, ephemeral, v, spendPub, target, s, network)
            == CheckStealthPayment(x, ephemeral, v, spendPub, target, s, scanned)
  {
    hide C32Check, GetSharedSecret, StealthPubKey, StealthPrivKey, BytesToScalar;
  }

  /** A payment made to one's meta-address is found by one's scanner, on the same network or across devnet and
      testnet, whenever it can be made at all. */
  lemma ScannerFindsPayment<P(!new)>(x: Primitives<P>, s: Bytes, v: Bytes, r: Bytes, event: WithdrawalEvent,
                                     network: Network, scanned: Network)
    requires KeysValid(x, s, v, r)
    requires network == Mainnet <==> scanned == Mainnet
    requires event.ephemeralPubKey == PublicKey(x.curve, r)
    requires var meta := MetaAddress(PublicKey(x.curve, s), PublicKey(x.curve, v));
             var sent := DeriveStealthAddress(x, meta, r, network);
             sent.Ok? ==> event.recipient == sent.value.address
    ensures TryDecryptPayment(x, event, ScannerKeys(v, PublicKey(x.curve, s)), scanned).Some?
            <==> Payable(x, s, v, r)
  {
    hide DeriveStealthAddress, CheckStealthPayment, TryDecryptPayment, PublicKey, IsCurve;
    SenderRecipientAgree(x, s, v, r, network);
    var spendPub := PublicKey(x.curve, s);
    CheckAcross(x, event.ephemeralPubKey, v, spendPub, event.recipient, Some(s), network, scanned);
    ScannerAgreesWithCheck(x, event, ScannerKeys(v, spendPub), s, scanned);
  }

  // ------------------------------------------------------------------
  // Batches
  // ------------------------------------------------------------------

  function Detected<P(==, !new)>(x: Primitives<P>, events: seq<WithdrawalEvent>, keys: ScannerKeys, network: Network)
    : seq<DetectedPayment>
    requires Lawful(x)
  {
    if events == [] then []
    else
      var n := |events| - 1;
      match TryDecryptPayment(x, events[n], keys, network)
      case None => Detected(x, events[..n], keys, network)
      case Some(d) => Detected(x, events[..n], keys, network) + [d]
  }

  method ScanEvents<P(==, !new)>(x: Primitives<P>, events: seq<WithdrawalEvent>, keys: ScannerKeys, network: Network)
    returns (detected: seq<DetectedPayment>)
    requires Lawful(x)
    ensures detected == Detected(x, events, keys, network)
  {
    detected := [];
    for i := 0 to |events|
      invariant detected == Detected(x, events[..i], keys, network)
    {
      assert events[..i + 1][..i] == events[..i];
      var payment := TryDecryptPayment(x, events[i], keys, network);
      if payment.Some? {
        detected := detected + [payment.value];
      }
    }
    assert events[..|events|] == events;
  }

  lemma DetectedPush<P(!new)>(x: Primitives<P>, a: seq<WithdrawalEvent>, e: WithdrawalEvent, keys: ScannerKeys,
                              network: Network)
    requires Lawful(x)
    ensures var payment := TryDecryptPayment(x, e, keys, network);
            Detected(x, a + [e], keys, network)
            == Detected(x, a, keys, network) + if payment.Some? then [payment.value] else []
  {
    hide TryDecryptPayment, Lawful;
    assert (a + [e])[..|a|] == a;
  }

  /** Scanning a batch is scanning its parts: nothing is lost or found by where a batch is cut. */
  lemma {:induction false} DetectedConcat<P(!new)>(x: Primitives<P>, a: seq<WithdrawalEvent>, b: seq<WithdrawalEvent>,
                                                   keys: ScannerKeys, network: Network)
    requires Lawful(x)
    ensures Detected(x, a + b, keys, network) == Detected(x, a, keys, network) + Detected(x, b, keys, network)
    decreases |b|
  {
    if b == [] {
      assert a + b == a && Detected(x, b, keys, network) == [];
      hide *;
    } else {
      hide *;
      var front, e := b[..|b| - 1], b[|b| - 1];
      assert a + b == (a + front) + [e] && b == front + [e];
      DetectedConcat(x, a, front, keys, network);
      DetectedPush(x, a + front, e, keys, network);
      DetectedPush(x, front, e, keys, network);
    }
  }

  // ------------------------------------------------------------------
  // Addresses
  // ------------------------------------------------------------------

  /** Mainnet addresses start with SP, the others with ST; the rest spells the hash of the key and its checksum. */
  lemma AddressSpells<P>(x: Primitives<P>, pubKey: Bytes, network: Network)
    requires forall b :: |x.sha(b)| == 32
    ensures var address, hash := AddressOf(x, pubKey, network), x.ripemd(x.sha(pubKey));
            && |address| >= 2
            && address[..2] == (if network == Mainnet then "SP" else "ST")
            && Decode(address[2..])
               == hash + x.sha(x.sha([if network == Mainnet then 22 else 26] + hash))[..4]
  {
    hide C32Check, Decode;
    C32CheckDecodes(x.sha, Version(network), x.ripemd(x.sha(pubKey)));
    assert C32_ALPHABET[22] == 'P' && C32_ALPHABET[26] == 'T';
  }
}

/** The laws assumed of curves can be met, and payments exist where they are: the group of three elements. */
module ThreePoints {
  import opened Results
  import opened ByteStrings
  import opened Digits
  import opened ModArith
  import opened Groups
  import opened Stealth

  datatype Point = Zero | One | Two

  function Number(p: Point): nat {
    match p
    case Zero => 0
    case One => 1
    case Two => 2
  }

  function Add(a: Point, b: Point): Point {
    match (a, b)
    case (Zero, _) => b
    case (_, Zero) => a
    case (One, One) => Two
    case (Two, Two) => One
    case _ => Zero
  }

  function EncodePoint(p: Point): Bytes {
    [Number(p)] + Zeros(32)
  }

  function DecodePoint(b: Bytes): Option<Point> {
    if b == [] then None else if b[0] == 1 then Some(One) else if b[0] == 2 then Some(Two) else None
  }

  const CURVE := Curve(3, Zero, One, Add, EncodePoint, DecodePoint)

  lemma {:induction false} Pow256Positive(k: nat)
    ensures Pow256(k) >= 1
  {
    if k > 0 { Pow256Positive(k - 1); }
  }

  lemma Multiples()
    ensures Groups.Mul(CURVE, 1, One) == One && Groups.Mul(CURVE, 2, One) == Two && Groups.Mul(CURVE, 3, One) == Zero
  {
    assert Groups.Mul(CURVE, 0, One) == Zero;
  }

  lemma AddAssociates(a: Point, b: Point, d: Point)
    ensures Add(Add(a, b), d) == Add(a, Add(b, d))
  {
  }

  lemma AddCommutes(a: Point, b: Point)
    ensures Add(a, b) == Add(b, a) && Add(a, Zero) == a
  {
  }

  lemma PointsAreAGroup()
    ensures IsGroup(CURVE)
  {
    hide Add, Number, EncodePoint, DecodePoint;
    forall a, b, d ensures Associates(CURVE, a, b, d) {
      AddAssociates(a, b, d);
    }
    forall a, b ensures Commutes(CURVE, a, b) {
      AddCommutes(a, b);
    }
    forall a ensures CURVE.add(a, CURVE.zero) == a {
      AddCommutes(a, Zero);
    }
  }

  lemma PointsDecode(p: Point)
    ensures p != Zero ==> |EncodePoint(p)| == 33 && DecodePoint(EncodePoint(p)) == Some(p)
  {
  }

  lemma ThreeIsPrime()
    ensures IsPrime(3)
  {
    assert 3 % 2 == 1;
  }

  lemma LawsAreConsistent()
    ensures IsCurve(CURVE)
  {
    Multiples();
    Pow256Positive(31);
    assert 3 < Pow256(32) by {
      assert Pow256(32) == 256 * Pow256(31);
    }
    ThreeIsPrime();
    PointsAreAGroup();
    hide Groups.Mul, Pow256, IsGroup, IsPrime, EncodePoint, DecodePoint;
    forall p: Point | p != Zero ensures |EncodePoint(p)| == 33 && DecodePoint(EncodePoint(p)) == Some(p) {
      PointsDecode(p);
    }
    forall k: nat | 0 < k < 3 ensures IsPoint(CURVE, k) {}
  }

  lemma {:induction false} ZerosAreZero(n: nat)
    ensures FromBE(Zeros(n)) == 0
  {
    if n > 0 {
      ZerosAreZero(n - 1);
      assert Zeros(n)[..n - 1] == Zeros(n - 1);
    }
  }

  /** A payment that goes through, with a digest whose scalar is 1 and every key equal to 1. */
  lemma PaymentsExist()
    ensures var x, one := Primitives(CURVE, _ => Zeros(32), b => b), ToBE(1, 32);
            KeysValid(x, one, one, one) && Payable(x, one, one, one)
  {
    var x, one := Primitives(CURVE, _ => Zeros(32), b => b), ToBE(1, 32);
    LawsAreConsistent();
    ScalarFits(CURVE, 1);
    assert 1 % 3 == 1 && 2 % 3 == 2;
    ZerosAreZero(32);
    assert SharedScalar(x, one, one) == 1;
  }
}
