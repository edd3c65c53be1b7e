/** RSA on numbers: what the public and the private operation compute, and that they undo each
    other. */
module RsaKey {
  import opened Bytes
  import opened Radix
  import opened Modular
  import opened Exponent
  import opened Fermat
  import opened Octets
  import opened Pkcs1
  import opened BarrettTheory
  import opened CrtTheory
  import opened Crt

  /** The private half: one exponent, or the two primes with their exponents. */
  datatype PrivateNumbers = Exponent(d: nat) | Primes(p: nat, q: nat, dP: nat, dQ: nat, qInv: nat)

  /** A key; barrett tells that residues are taken by Barrett reduction. */
  datatype KeyNumbers = KeyNumbers(n: nat, e: nat, priv: PrivateNumbers, barrett: bool)

  /** r stands for v^x mod n, with the exponent that `bi_mod_power` raises to. It is that remainder, except
      that Barrett reduction may leave up to two moduli too many where neither `BarrettFull` covers the modulus
      nor `BarrettExact` the modulus and a v below it. */
  ghost predicate PowerResult(key: KeyNumbers, v: nat, x: nat, r: nat)
  {
    && key.n > 0 && Congruent(r, Exp(v, PowerExponent(x)), key.n)
    && r < if key.barrett && !ExactBase(key.n, v) then 3 * key.n else key.n
  }

  ghost predicate PublicResult(key: KeyNumbers, v: nat, r: nat)
  {
    PowerResult(key, v, key.e, r)
  }

  /** r = v^d mod n, or the recombination of v^dP mod p and v^dQ mod q. */
  ghost predicate PrivateResult(key: KeyNumbers, v: nat, r: nat)
  {
    match key.priv
    case Exponent(d) => PowerResult(key, v, d, r)
    case Primes(p, q, dP, dQ, qInv) => p > 0 && q > 0 && r == CrtPower(v, dP, dQ, p, q, qInv)
  }

  /** Barrett reduction is exact for the primes, if there are any. */
  predicate ExactPrimes(key: KeyNumbers)
  {
    key.barrett && key.priv.Primes? ==> FullModulus(key.priv.p) && FullModulus(key.priv.q)
  }

  /** The key's exponents are odd, and Barrett reduction is exact for its modulus. For primes also that they
      multiply to n, that q has its inverse, and that p is not the smaller one by more than one. */
  ghost predicate WellFormed(key: KeyNumbers)
  {
    && key.n > 0 && key.e % 2 == 1 && (key.barrett ==> ExactModulus(key.n) || FullModulus(key.n))
    && match key.priv
       case Exponent(d) => d % 2 == 1
       case Primes(p, q, dP, dQ, qInv) =>
         p > 0 && 0 < q <= p + 1 && p * q == key.n && dP % 2 == 1 && dQ % 2 == 1 && Inverse(q, qInv, p)
  }

  /** For a reduced v and such a key a result is the remainder. */
  lemma ResultIsRemainder(key: KeyNumbers, v: nat, x: nat, r: nat)
    requires WellFormed(key) && v < key.n && x % 2 == 1 && PowerResult(key, v, x, r)
    ensures r == Exp(v, x) % key.n < key.n
  {
    hide Exp, PowerExponent, ExactModulus, FullModulus;
    PowerExponentExact(x);
    DivModUnique(r, key.n, 0, r);
  }

  /** With the primes the result is below n and has both remainders. */
  lemma ResultRecombines(key: KeyNumbers, v: nat, r: nat)
    requires WellFormed(key) && key.priv.Primes? && PrivateResult(key, v, r)
    ensures r < key.n && Congruent(r, Exp(v, key.priv.dP), key.priv.p) && Congruent(r, Exp(v, key.priv.dQ), key.priv.q)
  {
    hide Exp, PowerExponent, ExactModulus, FullModulus, Inverse, CrtPower;
    var Primes(p, q, dP, dQ, qInv) := key.priv;
    PowerExponentExact(dP);
    PowerExponentExact(dQ);
    CongruentMod(Exp(v, dP), p);
    CongruentMod(Exp(v, dQ), q);
    CrtPowerRight(v, dP, dQ, p, q, qInv);
  }

  /** The exponents are inverse to each other on the residue x: a condition on numbers only, the same for
      encryption and for signatures. */
  ghost predicate Undone(key: KeyNumbers, x: nat)
  {
    match key.priv
    case Exponent(d) => key.n > 0 && PowerIsBase(x, key.e, d, key.n)
    case Primes(p, q, dP, dQ, _) => p > 0 && q > 0 && PowerIsBase(x, key.e, dP, p) && PowerIsBase(x, key.e, dQ, q)
  }

  /** x^(e d) leaves the remainder of x. */
  ghost predicate PowerIsBase(x: nat, e: nat, d: nat, m: nat)
    requires m > 0
  {
    MulNonNegative(e, d);
    Congruent(Exp(x, e * d), x, m)
  }

  /** A well-formed key whose exponents are inverse on all residues. */
  ghost predicate InverseKey(key: KeyNumbers)
  {
    WellFormed(key) && forall x: nat :: x < key.n ==> Undone(key, x)
  }

  /** A number congruent to x^e, raised to d, or to x^d, raised to e, is congruent to x. */
  lemma RaisedTwice(x: nat, e: nat, d: nat, m: nat, y: int)
    requires m > 0 && PowerIsBase(x, e, d, m)
    ensures Congruent(y, Exp(x, e), m) ==> Congruent(Exp(y, d), x, m)
    ensures Congruent(y, Exp(x, d), m) ==> Congruent(Exp(y, e), x, m)
  {
    hide Exp;
    ExpOfExp(x, e, d);
    ExpOfExp(x, d, e);
    assert e * d == d * e;
    if Congruent(y, Exp(x, e), m) { ExpCongruent(y, Exp(x, e), d, m); }
    if Congruent(y, Exp(x, d), m) { ExpCongruent(y, Exp(x, d), e, m); }
  }

  /** A remainder by p q has the remainders of the number. */
  lemma RemainderOfProduct(v: int, p: nat, q: nat)
    requires p > 0 && q > 0
    ensures p * q > 0 && Congruent(v % (p * q), v, p) && Congruent(v % (p * q), v, q)
  {
    MulStrict(0, p, q);
    CongruentMod(v, p * q);
    var k := ToMultiple(v % (p * q), v, p * q);
    assert k * (p * q) == k * q * p == k * p * q;
    FromMultiple(v % (p * q), v, k * q, p);
    FromMultiple(v % (p * q), v, k * p, q);
  }

  /** Decryption gives back every residue that was encrypted. */
  lemma PrivateUndoesPublic(key: KeyNumbers, x: nat, c: nat, r: nat)
    requires InverseKey(key) && x < key.n && PublicResult(key, x, c) && PrivateResult(key, c, r)
    ensures r == x
  {
    hide Exp, PowerExponent, PowerResult, ExactModulus, FullModulus, CrtPower, PowerIsBase;
    ResultIsRemainder(key, x, key.e, c);
    assert Undone(key, x);
    match key.priv
    case Exponent(d) =>
      ResultIsRemainder(key, c, d, r);
      CongruentMod(Exp(x, key.e), key.n);
      RaisedTwice(x, key.e, d, key.n, c);
      CongruentMod(Exp(c, d), key.n);
      CongruentUnique(r, x, key.n);
    case Primes(p, q, dP, dQ, qInv) =>
      ResultRecombines(key, c, r);
      RemainderOfProduct(Exp(x, key.e), p, q);
      RaisedTwice(x, key.e, dP, p, c);
      RaisedTwice(x, key.e, dQ, q, c);
      CrtUnique(r, x, p, q, qInv);
  }

  /** Verification gives back every residue that was signed. */
  lemma PublicUndoesPrivate(key: KeyNumbers, x: nat, s: nat, r: nat)
    requires InverseKey(key) && x < key.n && PrivateResult(key, x, s) && PublicResult(key, s, r)
    ensures r == x
  {
    hide Exp, PowerExponent, PowerResult, ExactModulus, FullModulus, CrtPower, PowerIsBase;
    ResultBelow(key, Signature, x, s);
    ResultIsRemainder(key, s, key.e, r);
    assert Undone(key, x);
    match key.priv
    case Exponent(d) =>
      ResultIsRemainder(key, x, d, s);
      CongruentMod(Exp(x, d), key.n);
      RaisedTwice(x, key.e, d, key.n, s);
      CongruentMod(Exp(s, key.e), key.n);
      CongruentUnique(r, x, key.n);
    case Primes(p, q, dP, dQ, qInv) =>
      ResultRecombines(key, x, s);
      RaisedTwice(x, key.e, dP, p, s);
      RaisedTwice(x, key.e, dQ, q, s);
      RemainderOfProduct(Exp(s, key.e), p, q);
      CrtUnique(r, x, p, q, qInv);
  }

  // ---- keys from primes ----

  /** The numbers of an RSA key (section 3 of RFC 8017): n is the product of two different primes, and the
      exponents are inverse modulo each prime less one. */
  ghost predicate FromPrimes(key: KeyNumbers, p: nat, q: nat)
  {
    && Prime(p) && Prime(q) && p != q && key.n == p * q
    && match key.priv
       case Exponent(d) => Congruent(key.e * d, 1, p - 1) && Congruent(key.e * d, 1, q - 1)
       case Primes(p', q', dP, dQ, _) =>
         p' == p && q' == q && Congruent(key.e * dP, 1, p - 1) && Congruent(key.e * dQ, 1, q - 1)
  }

  /** Such exponents are inverse on residues, so that both round trips hold for every key made this way. */
  lemma PrimesInvert(key: KeyNumbers, p: nat, q: nat)
    requires WellFormed(key) && FromPrimes(key, p, q)
    ensures InverseKey(key)
  {
    hide Exp, Prime, PowerIsBase, ExactModulus, FullModulus;
    forall x: nat | x < key.n
      ensures Undone(key, x)
    {
      match key.priv
      case Exponent(d) =>
        InverseModuloPrime(x, key.e, d, p);
        InverseModuloPrime(x, key.e, d, q);
        InverseModuloBoth(x, key.e, d, p, q);
      case Primes(_, _, dP, dQ, _) =>
        InverseModuloPrime(x, key.e, dP, p);
        InverseModuloPrime(x, key.e, dQ, q);
    }
  }

  lemma InverseModuloPrime(x: nat, e: nat, d: nat, p: nat)
    requires Prime(p) && e >= 1 && d >= 1 && Congruent(e * d, 1, p - 1)
    ensures PowerIsBase(x, e, d, p)
  {
    hide Exp, Prime;
    PrimeAboveOne(p);
    var t := ToMultiple(e * d, 1, p - 1);
    MulMonotone(1, e, d);
    if t < 0 { MulMonotone(t, -1, p - 1); }
    PowerOfResidue(x, p, t);
  }

  lemma PrimeAboveOne(p: nat)
    requires Prime(p)
    ensures p > 1
  {
  }

  lemma InverseModuloBoth(x: nat, e: nat, d: nat, p: nat, q: nat)
    requires Prime(p) && Prime(q) && p != q && PowerIsBase(x, e, d, p) && PowerIsBase(x, e, d, q)
    ensures p * q > 0 && PowerIsBase(x, e, d, p * q)
  {
    hide Exp, Prime;
    MulNonNegative(e, d);
    ProductOfPrimes(Exp(x, e * d), x, p, q);
  }

  /** out is what `RSA_encrypt` writes for the padded data. */
  ghost predicate Encrypted(key: KeyNumbers, k: nat, t: BlockType, pads: seq<Byte>, data: seq<Byte>, out: seq<Byte>)
  {
    var v := Os2ip(Block(t, pads, data));
    exists r: nat :: out == I2osp(r, k) && if t == Encryption then PublicResult(key, v, r) else PrivateResult(key, v, r)
  }

  /** block is what `RSA_decrypt` unpads. */
  ghost predicate Recovered(key: KeyNumbers, k: nat, t: BlockType, input: seq<Byte>, block: seq<Byte>)
  {
    var v := Os2ip(input);
    exists r: nat ::
      block == I2osp(r, k) && if t == Encryption then PrivateResult(key, v, r) else PublicResult(key, v, r)
  }

  /** The modulus fills k bytes. */
  ghost predicate FillsBytes(n: nat, k: nat)
  {
    k >= 1 && Pow2(8 * (k - 1)) <= n < Pow2(8 * k)
  }

  /** A block starts with a zero byte, so it is a residue. */
  lemma BlockIsResidue(t: BlockType, pads: seq<Byte>, data: seq<Byte>, n: nat, k: nat)
    requires FillsBytes(n, k) && |Block(t, pads, data)| == k
    ensures Os2ip(Block(t, pads, data)) < n
  {
    hide Pow2, Os2ip;
    var b := Block(t, pads, data);
    assert b == [0] + b[1..];
    Os2ipFront(0, b[1..]);
    Os2ipBound(b[1..]);
  }

  /** The recovered block is the padded block, so the message comes back: for every message of 1
      to k - 11 bytes and all non-zero padding, whichever way the key is stored. */
  lemma RoundTrip(key: KeyNumbers, k: nat, t: BlockType, pads: seq<Byte>, data: seq<Byte>, out: seq<Byte>,
                  block: seq<Byte>)
    requires FillsBytes(key.n, k) && InverseKey(key)
    requires AllPad(t, pads) && 1 <= |data| <= k - 11 && |pads| == k - |data| - 3
    requires Encrypted(key, k, t, pads, data, out) && Recovered(key, k, t, out, block)
    ensures block == Block(t, pads, data) && Framed(t, block, data, |pads|)
  {
    hide Pow2, Os2ip, I2osp, PublicResult, PrivateResult, InverseKey, WellFormed;
    var v := Os2ip(Block(t, pads, data));
    BlockIsResidue(t, pads, data, key.n, k);
    var c: nat :| out == I2osp(c, k) && if t == Encryption then PublicResult(key, v, c) else PrivateResult(key, v, c);
    KeyIsWellFormed(key);
    ResultBelow(key, t, v, c);
    ImportExported(c, k);
    DivModUnique(c, Pow2(8 * k), 0, c);
    var r: nat :| block == I2osp(r, k) && if t == Encryption then PrivateResult(key, c, r) else PublicResult(key, c, r);
    if t == Encryption { PrivateUndoesPublic(key, v, c, r); } else { PublicUndoesPrivate(key, v, c, r); }
    ExportImported(Block(t, pads, data));
    BlockFramed(t, pads, data);
  }

  lemma ResultBelow(key: KeyNumbers, t: BlockType, v: nat, c: nat)
    requires WellFormed(key) && v < key.n
    requires if t == Encryption then PublicResult(key, v, c) else PrivateResult(key, v, c)
    ensures c < key.n
  {
    hide Exp, PowerExponent, PowerResult, ExactModulus, FullModulus, CrtPower;
    if t == Encryption {
      ResultIsRemainder(key, v, key.e, c);
    } else if key.priv.Exponent? {
      ResultIsRemainder(key, v, key.priv.d, c);
    } else {
      ResultRecombines(key, v, c);
    }
  }

  lemma KeyIsWellFormed(key: KeyNumbers)
    requires InverseKey(key)
    ensures WellFormed(key)
  {
  }
}
