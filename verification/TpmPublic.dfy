/** RSA public areas: writing one from a key and reading the key back. */
module TpmPublic {
  import opened Bytes
  import opened TpmObjects

  datatype RsaKey = RsaKey(n: nat, e: nat)

  /** The parameters common to all algorithms; `to_bytes` writes four of them. */
  datatype NonAsymParms = NonAsymParms(
    symAlgorithm: nat, symKeybits: nat, symMode: nat, symDetails: nat, schemeScheme: nat, schemeDetails: nat)

  /** AES-128 in CFB mode, no signing scheme. */
  const EK_PARMS := NonAsymParms(0x0006, 128, 0x0043, 0, ALG_NULL, 0)

  /** `Ecc`: an elliptic-curve key, whose parsing is not part of this model. */
  datatype Parsed = Rsa(key: RsaKey, nameAlg: nat) | Ecc | Malformed

  // Writing

  predicate ParmsFit(p: NonAsymParms) {
    p.symAlgorithm < 0x1_0000 && p.symKeybits < 0x1_0000 && p.symMode < 0x1_0000 && p.schemeScheme < 0x1_0000
  }

  function ParmsBytes(p: NonAsymParms): (r: Bytes)
    requires ParmsFit(p)
    ensures |r| == 8
  {
    BE2(p.symAlgorithm) + (BE2(p.symKeybits) + (BE2(p.symMode) + BE2(p.schemeScheme)))
  }

  /** The modulus in as many bytes as its bit length takes. */
  function ModulusBytes(n: nat): (r: Bytes)
    ensures |r| == (BitLength(n) + 7) / 8
    ensures FromBE(r) == n
  {
    BytesOfBits(n);
    BERoundTrip(n, ByteLength(n));
    ToBE(n, ByteLength(n))
  }

  function StoredExponent(e: nat): nat {
    if e == 65537 then 0 else e
  }

  function AsymBytes(key: RsaKey): Bytes
    requires BitLength(key.n) < 0x1_0000 && StoredExponent(key.e) < 0x1_0000_0000
  {
    BE2(BitLength(key.n)) + (BE4(StoredExponent(key.e)) + Sized(ModulusBytes(key.n)))
  }

  function TpmtPublic(key: RsaKey, nameAlg: nat, attributes: nat, authPolicy: Bytes, p: NonAsymParms): (r: Option<Bytes>)
    ensures r.Some? <==>
              && BitLength(key.n) < 0x1_0000 && StoredExponent(key.e) < 0x1_0000_0000 && ParmsFit(p)
              && nameAlg < 0x1_0000 && attributes < 0x1_0000_0000 && |authPolicy| < 0x1_0000
  {
    if BitLength(key.n) >= 0x1_0000 || StoredExponent(key.e) >= 0x1_0000_0000 || !ParmsFit(p)
       || nameAlg >= 0x1_0000 || attributes >= 0x1_0000_0000 || |authPolicy| >= 0x1_0000 then None
    else Some(BE2(ALG_RSA) + (BE2(nameAlg) + (BE4(attributes) + (Sized(authPolicy) + (ParmsBytes(p) + AsymBytes(key))))))
  }

  /** None: a value does not fit its field (`struct.error`). */
  function PublicFromKey(key: RsaKey, nameAlg: nat, attributes: nat, authPolicy: Bytes, p: NonAsymParms): Option<Bytes> {
    var tpmt := TpmtPublic(key, nameAlg, attributes, authPolicy, p);
    if tpmt.None? || |tpmt.value| >= 0x1_0000 then None else Some(Sized(tpmt.value))
  }

  // Reading

  /** The contents by their length, cut short where the bytes end, and the rest. */
  function ExtractTpm2b(vals: Bytes): Option<(Bytes, Bytes)> {
    var length := ReadBE(vals, 0, 2);
    if length.None? then None else Some((KeepTo(DropAt(vals, 2), length.value), DropAt(DropAt(vals, 2), length.value)))
  }

  /** How many bytes of symmetric and scheme parameters are stepped over; the second field is taken for the scheme. */
  function ToSkip(symAlg: nat, second: nat): nat {
    4 + (if symAlg != ALG_NULL then 2 else 0) + (if second != ALG_NULL then 2 else 0)
  }

  function KeyFromAsym(asym: Bytes, nameAlg: nat): Parsed {
    var keybits, exponent := ReadBE(asym, 0, 2), ReadBE(asym, 2, 4);
    var modulus := ExtractTpm2b(DropAt(asym, 6));
    if exponent.None? || modulus.None? then Malformed
    else if |modulus.value.0| * 8 != keybits.value then Malformed
    else Rsa(RsaKey(FromBE(modulus.value.0), if exponent.value == 0 then 65537 else exponent.value), nameAlg)
  }

  function KeyFromTpmt(public: Bytes): Parsed {
    var algType, nameAlg := ReadBE(public, 0, 2), ReadBE(public, 2, 2);
    var auth := ExtractTpm2b(DropAt(public, 8));
    if |public| < 8 || auth.None? then Malformed
    else
      var symParms := auth.value.1;
      var symAlg, second := ReadBE(symParms, 0, 2), ReadBE(symParms, 2, 2);
      if second.None? then Malformed
      else if algType.value == ALG_RSA then KeyFromAsym(DropAt(symParms, ToSkip(symAlg.value, second.value)), nameAlg.value)
      else if algType.value == ALG_ECC then Ecc
      else Malformed
  }

  function KeyFromPublic(public: Bytes): Parsed {
    var tpmt := ExtractTpm2b(public);
    if tpmt.None? || tpmt.value.1 != [] then Malformed else KeyFromTpmt(tpmt.value.0)
  }

  // The round trip

  lemma ReadFront(n: nat, k: nat, rest: Bytes)
    requires n < Pow256(k)
    ensures ReadBE(ToBE(n, k) + rest, 0, k) == Some(n) && DropAt(ToBE(n, k) + rest, k) == rest
  {
    assert (ToBE(n, k) + rest)[0..k] == ToBE(n, k);
    BERoundTrip(n, k);
  }

  lemma ReadBehind(front: Bytes, b: Bytes, k: nat)
    ensures ReadBE(front + b, |front|, k) == ReadBE(b, 0, k) && DropAt(front + b, |front|) == b
  {
    if k <= |b| {
      assert (front + b)[|front|..|front| + k] == b[0..k];
    }
  }

  lemma ExtractSized(s: Bytes, rest: Bytes)
    requires |s| < 0x1_0000
    ensures ExtractTpm2b(Sized(s) + rest) == Some((s, rest))
  {
    Pow256Values();
    assert Sized(s) + rest == BE2(|s|) + (s + rest);
    ReadFront(|s|, 2, s + rest);
    assert (s + rest)[..|s|] == s && (s + rest)[|s|..] == rest;
  }

  /** Two halves of a 32-bit field. */
  lemma Halves(high: nat, low: nat)
    requires high < 0x1_0000 && low < 0x1_0000
    ensures BE4(high * 0x1_0000 + low) == BE2(high) + BE2(low)
  {
    Pow256Values();
    var n := high * 0x1_0000 + low;
    assert n / 256 == high * 256 + low / 256 && n / 256 / 256 == high;
    assert ToBE(n, 4) == ToBE(n / 256 / 256, 2) + [n / 256 % 256] + [n % 256];
    assert ToBE(low, 2) == ToBE(low / 256 / 256, 0) + [low / 256 % 256] + [low % 256];
  }

  /** What the reader makes of any bytes in the layout of a key: size, exponent, length of the modulus, and the rest. */
  function KeyFromFields(bits: nat, exponent: nat, length: nat, rest: Bytes, nameAlg: nat): Parsed {
    if |KeepTo(rest, length)| * 8 != bits then Malformed
    else Rsa(RsaKey(FromBE(KeepTo(rest, length)), if exponent == 0 then 65537 else exponent), nameAlg)
  }

  lemma AsymFields(bits: nat, exponent: nat, length: nat, rest: Bytes, b: Bytes, nameAlg: nat)
    requires bits < 0x1_0000 && exponent < 0x1_0000_0000 && length < 0x1_0000
    requires b == BE2(bits) + (BE4(exponent) + (BE2(length) + rest))
    ensures KeyFromAsym(b, nameAlg) == KeyFromFields(bits, exponent, length, rest, nameAlg)
  {
    Pow256Values();
    var tail := BE4(exponent) + (BE2(length) + rest);
    ReadFront(bits, 2, tail);
    ReadBehind(BE2(bits), tail, 4);
    ReadFront(exponent, 4, BE2(length) + rest);
    assert b[6..] == BE2(length) + rest;
    ReadFront(length, 2, rest);
  }

  lemma WholeBytes(bits: nat, k: nat)
    requires k == (bits + 7) / 8
    ensures k * 8 == bits <==> bits % 8 == 0
  {
  }

  /** The reader at the first byte of the key. */
  lemma AsymRoundTrip(key: RsaKey, nameAlg: nat)
    requires BitLength(key.n) < 0x1_0000 && StoredExponent(key.e) < 0x1_0000_0000 && key.e > 0
    ensures KeyFromAsym(AsymBytes(key), nameAlg) == if BitLength(key.n) % 8 == 0 then Rsa(key, nameAlg) else Malformed
  {
    var bits, exponent, n := BitLength(key.n), StoredExponent(key.e), ModulusBytes(key.n);
    AsymFields(bits, exponent, |n|, n, AsymBytes(key), nameAlg);
    WholeBytes(bits, |n|);
    assert n[..|n|] == n && FromBE(n) == key.n;
  }

  /** The reader one field of two bytes in front of the key: all that follows is taken for something else. */
  lemma OneFieldEarly(second: nat, bits: nat, high: nat, low: nat, m: Bytes, asym: Bytes, nameAlg: nat)
    requires second < 0x1_0000 && bits < 0x1_0000 && high < 0x1_0000 && low < 0x1_0000 && |m| < 0x1_0000
    requires asym == BE2(bits) + (BE2(high) + BE2(low) + Sized(m))
    ensures KeyFromAsym(BE2(second) + asym, nameAlg) == KeyFromFields(second, bits * 0x1_0000 + high, low, Sized(m), nameAlg)
  {
    Halves(bits, high);
    var exponent, b := bits * 0x1_0000 + high, BE2(second) + asym;
    assert b == BE2(second) + (BE4(exponent) + (BE2(low) + Sized(m)));
    AsymFields(second, exponent, low, Sized(m), b, nameAlg);
  }

  lemma TwoFieldsEarly(first: nat, second: nat, bits: nat, high: nat, low: nat, m: Bytes, asym: Bytes, nameAlg: nat)
    requires first < 0x1_0000 && second < 0x1_0000 && bits < 0x1_0000 && high < 0x1_0000 && low < 0x1_0000 && |m| < 0x1_0000
    requires asym == BE2(bits) + (BE2(high) + BE2(low) + Sized(m))
    ensures KeyFromAsym(BE2(first) + (BE2(second) + asym), nameAlg) ==
            KeyFromFields(first, second * 0x1_0000 + bits, high, BE2(low) + Sized(m), nameAlg)
  {
    Halves(second, bits);
    var exponent, b := second * 0x1_0000 + bits, BE2(first) + (BE2(second) + asym);
    assert b == BE2(first) + (BE4(exponent) + (BE2(high) + (BE2(low) + Sized(m))));
    AsymFields(first, exponent, high, BE2(low) + Sized(m), b, nameAlg);
  }

  /** The exponent as it is stored, in two halves. */
  lemma AsymHalves(key: RsaKey) returns (high: nat, low: nat)
    requires BitLength(key.n) < 0x1_0000 && StoredExponent(key.e) < 0x1_0000_0000
    ensures high < 0x1_0000 && low < 0x1_0000 && high * 0x1_0000 + low == StoredExponent(key.e)
    ensures AsymBytes(key) == BE2(BitLength(key.n)) + (BE2(high) + BE2(low) + Sized(ModulusBytes(key.n)))
  {
    high, low := StoredExponent(key.e) / 0x1_0000, StoredExponent(key.e) % 0x1_0000;
    Halves(high, low);
  }

  lemma {:induction false} FromBEJoined(a: Bytes, b: Bytes)
    ensures FromBE(a + b) == FromBE(a) * Pow256(|b|) + FromBE(b)
  {
    if b == [] {
      assert a + b == a;
    } else {
      var init, k := b[..|b| - 1], |b| - 1;
      FromBEJoined(a, init);
      assert (a + b)[..|a + b| - 1] == a + init;
      assert FromBE(a) * Pow256(k) * 256 == FromBE(a) * Pow256(|b|);
    }
  }

  lemma LongerIsAnother(size: nat, m: Bytes)
    requires 0 < size < 0x1_0000
    ensures FromBE(BE2(size) + m) != FromBE(m)
  {
    Pow256Values();
    BERoundTrip(size, 2);
    FromBEJoined(BE2(size), m);
    FromBEBound(m);
    var p := Pow256(|m|);
    assert size * p >= p;
  }

  /** The first byte or two of the two bytes that hold 1. */
  lemma FrontOfOne(k: nat)
    requires 1 <= k <= 2
    ensures FromBE(BE2(1)[..k]) == k - 1
  {
    Pow256Values();
    var b := BE2(1);
    assert b == ToBE(0, 1) + [1] && ToBE(0, 1) == ToBE(0, 0) + [0];
    assert b == [0, 1];
    assert b[..1] == [0] && b[..2] == b && b[..2][..1] == [0];
    assert FromBE([0]) == FromBE([0][..0]) * 256 + 0 && FromBE(b) == FromBE([0]) * 256 + 1;
  }

  lemma ShortIsAnother(n: nat, bits: nat, m: Bytes)
    requires n > 0 && bits == BitLength(n) <= 2 && |m| == 1
    ensures FromBE(KeepTo(Sized(m), bits)) != n
  {
    assert BitLength(1) == 1 + BitLength(0);
    assert KeepTo(Sized(m), bits) == BE2(1)[..bits];
    FrontOfOne(bits);
  }

  /** A modulus with its length in front, cut to as many bytes as the modulus has bits, is another number. */
  lemma SizedIsAnother(n: nat, bits: nat, m: Bytes)
    requires n > 0 && bits == BitLength(n) < 0x1_0000 && m == ModulusBytes(n)
    ensures FromBE(KeepTo(Sized(m), bits)) != n
  {
    if bits >= |m| + 2 {
      LongerIsAnother(|m|, m);
      assert KeepTo(Sized(m), bits) == Sized(m);
    } else {
      ShortIsAnother(n, bits, m);
    }
  }

  /** One field early the reader never finds the key. */
  lemma OneFieldEarlyFails(second: nat, key: RsaKey, nameAlg: nat)
    requires second < 0x1_0000 && BitLength(key.n) < 0x1_0000 && StoredExponent(key.e) < 0x1_0000_0000 && key.n > 0
    ensures KeyFromAsym(BE2(second) + AsymBytes(key), nameAlg) != Rsa(key, nameAlg)
  {
    var bits, m := BitLength(key.n), ModulusBytes(key.n);
    var high, low := AsymHalves(key);
    OneFieldEarly(second, bits, high, low, m, AsymBytes(key), nameAlg);
    SizedIsAnother(key.n, bits, m);
    SpelledExponent(key, bits, high, high, low);
  }

  /** An exponent made of two fields is the one that was stored only if its halves are. */
  lemma SpelledExponent(key: RsaKey, first: nat, second: nat, high: nat, low: nat)
    requires 0 < first || 0 < second
    requires first < 0x1_0000 && second < 0x1_0000 && high < 0x1_0000 && low < 0x1_0000
    requires high * 0x1_0000 + low == StoredExponent(key.e)
    ensures key.e == first * 0x1_0000 + second && key.e != 65537 ==> high == first && low == second
    ensures key.e == 65537 ==> high == 0 && low == 0
  {
  }

  /** Two fields of the common parameters, and what is behind all four. */
  lemma ParmsFields(p: NonAsymParms, asym: Bytes)
    requires ParmsFit(p)
    ensures var b := ParmsBytes(p) + asym;
            && ReadBE(b, 0, 2) == Some(p.symAlgorithm) && ReadBE(b, 2, 2) == Some(p.symKeybits) && DropAt(b, 8) == asym
  {
    Pow256Values();
    var tail := BE2(p.symMode) + BE2(p.schemeScheme) + asym;
    assert ParmsBytes(p) + asym == BE2(p.symAlgorithm) + (BE2(p.symKeybits) + tail);
    ReadFront(p.symAlgorithm, 2, BE2(p.symKeybits) + tail);
    ReadBehind(BE2(p.symAlgorithm), BE2(p.symKeybits) + tail, 2);
    ReadFront(p.symKeybits, 2, tail);
    assert (ParmsBytes(p) + asym)[8..] == asym;
  }

  lemma TpmtFields(nameAlg: nat, attributes: nat, tail: Bytes)
    requires nameAlg < 0x1_0000 && attributes < 0x1_0000_0000
    ensures var b := BE2(ALG_RSA) + (BE2(nameAlg) + (BE4(attributes) + tail));
            ReadBE(b, 0, 2) == Some(ALG_RSA) && ReadBE(b, 2, 2) == Some(nameAlg) && DropAt(b, 8) == tail
  {
    Pow256Values();
    ReadFront(ALG_RSA, 2, BE2(nameAlg) + (BE4(attributes) + tail));
    ReadBehind(BE2(ALG_RSA), BE2(nameAlg) + (BE4(attributes) + tail), 2);
    ReadFront(nameAlg, 2, BE4(attributes) + tail);
    assert (BE2(ALG_RSA) + (BE2(nameAlg) + (BE4(attributes) + tail)))[8..] == tail;
  }

  /** Two fields early the key is found only by a modulus and an exponent that spell out their own bytes. */
  ghost predicate SpellsItself(key: RsaKey, p: NonAsymParms)
    requires BitLength(key.n) < 0x1_0000
  {
    var bits, modulus := BitLength(key.n), KeepTo(BE2(BitLength(key.n)) + Sized(ModulusBytes(key.n)), p.schemeScheme);
    && key.e != 65537 && key.e == p.schemeScheme * 0x1_0000 + bits
    && p.symMode == |modulus| * 8 && key.n == FromBE(modulus)
  }

  /** What the reader finds two fields early, by the halves of the stored exponent. */
  lemma FoundTwoEarly(nameAlg: nat, p: NonAsymParms, bits: nat, high: nat, low: nat, m: Bytes, asym: Bytes, r: Parsed)
    requires ParmsFit(p) && bits < 0x1_0000 && high < 0x1_0000 && low < 0x1_0000 && |m| < 0x1_0000
    requires asym == BE2(bits) + (BE2(high) + BE2(low) + Sized(m))
    requires r == KeyFromAsym(BE2(p.symMode) + (BE2(p.schemeScheme) + asym), nameAlg)
    ensures r == KeyFromFields(p.symMode, p.schemeScheme * 0x1_0000 + bits, high, BE2(low) + Sized(m), nameAlg)
  {
    TwoFieldsEarly(p.symMode, p.schemeScheme, bits, high, low, m, asym, nameAlg);
  }

  lemma TwoFieldsEarlyExactly(key: RsaKey, nameAlg: nat, p: NonAsymParms, asym: Bytes, r: Parsed)
    requires ParmsFit(p) && BitLength(key.n) < 0x1_0000 && StoredExponent(key.e) < 0x1_0000_0000 && key.n > 0
    requires asym == AsymBytes(key) && r == KeyFromAsym(BE2(p.symMode) + (BE2(p.schemeScheme) + asym), nameAlg)
    ensures r == Rsa(key, nameAlg) <==> SpellsItself(key, p)
  {
    var high, low := AsymHalves(key);
    var bits, m := BitLength(key.n), ModulusBytes(key.n);
    var rest := BE2(low) + Sized(m);
    FoundTwoEarly(nameAlg, p, bits, high, low, m, asym, r);
    FieldsSpell(key, nameAlg, p, bits, high, low, rest, r);
  }

  lemma FieldsSpell(key: RsaKey, nameAlg: nat, p: NonAsymParms, bits: nat, high: nat, low: nat, rest: Bytes, r: Parsed)
    requires ParmsFit(p) && 0 < key.n && 0 < bits < 0x1_0000 && bits == BitLength(key.n) && high < 0x1_0000 && low < 0x1_0000
    requires high * 0x1_0000 + low == StoredExponent(key.e) && rest == BE2(low) + Sized(ModulusBytes(key.n))
    requires r == KeyFromFields(p.symMode, p.schemeScheme * 0x1_0000 + bits, high, rest, nameAlg)
    ensures r == Rsa(key, nameAlg) <==> SpellsItself(key, p)
  {
    SpelledExponent(key, p.schemeScheme, bits, high, low);
    assert rest[..0] == [];
  }

  /** What stands in front of the key, from where the reader starts on it. */
  lemma Skipped(p: NonAsymParms, asym: Bytes)
    requires ParmsFit(p)
    ensures var b := ParmsBytes(p) + asym;
            && DropAt(b, 8) == asym && DropAt(b, 6) == BE2(p.schemeScheme) + asym
            && DropAt(b, 4) == BE2(p.symMode) + (BE2(p.schemeScheme) + asym)
  {
    var b := ParmsBytes(p) + asym;
    assert b[8..] == asym && b[6..] == BE2(p.schemeScheme) + asym;
    assert b[4..] == BE2(p.symMode) + (BE2(p.schemeScheme) + asym);
  }

  /** Where the reader looks for the key is decided by the two fields it takes for algorithm and scheme. */
  lemma PublicReading(key: RsaKey, nameAlg: nat, attributes: nat, authPolicy: Bytes, p: NonAsymParms)
    ensures var b := PublicFromKey(key, nameAlg, attributes, authPolicy, p);
            b.Some? ==> KeyFromPublic(b.value) ==
                        KeyFromAsym(DropAt(ParmsBytes(p) + AsymBytes(key), ToSkip(p.symAlgorithm, p.symKeybits)), nameAlg)
  {
    var tpmt := TpmtPublic(key, nameAlg, attributes, authPolicy, p);
    if tpmt.Some? && |tpmt.value| < 0x1_0000 {
      assert Sized(tpmt.value) + [] == Sized(tpmt.value);
      ExtractSized(tpmt.value, []);
      var parms := ParmsBytes(p) + AsymBytes(key);
      TpmtFields(nameAlg, attributes, Sized(authPolicy) + parms);
      ExtractSized(authPolicy, parms);
      ParmsFields(p, AsymBytes(key));
    }
  }

  /**
   * Whatever the parameters, a written key is read back exactly when they name a symmetric algorithm and a key size
   * other than the number that stands for none, and its bit length is a multiple of 8; without both, only a key
   * whose modulus and exponent spell out their own bytes is.
   */
  lemma PublicRoundTrip(key: RsaKey, nameAlg: nat, attributes: nat, authPolicy: Bytes, p: NonAsymParms)
    requires key.e > 0 && key.n > 0
    ensures var b := PublicFromKey(key, nameAlg, attributes, authPolicy, p);
            b.Some? ==>
              (KeyFromPublic(b.value) == Rsa(key, nameAlg) <==>
                 if p.symAlgorithm != ALG_NULL && p.symKeybits != ALG_NULL then BitLength(key.n) % 8 == 0
                 else p.symAlgorithm == ALG_NULL && p.symKeybits == ALG_NULL && SpellsItself(key, p))
  {
    if PublicFromKey(key, nameAlg, attributes, authPolicy, p).Some? {
      PublicReading(key, nameAlg, attributes, authPolicy, p);
      Skipped(p, AsymBytes(key));
      AsymRoundTrip(key, nameAlg);
      OneFieldEarlyFails(p.schemeScheme, key, nameAlg);
      var asym := AsymBytes(key);
      TwoFieldsEarlyExactly(key, nameAlg, p, asym, KeyFromAsym(BE2(p.symMode) + (BE2(p.schemeScheme) + asym), nameAlg));
    }
  }

  /** For the template of an endorsement key there is no other condition, and any other key is refused. */
  lemma EkPublicRoundTrip(key: RsaKey, nameAlg: nat, attributes: nat, authPolicy: Bytes)
    requires key.e > 0
    ensures var b := PublicFromKey(key, nameAlg, attributes, authPolicy, EK_PARMS);
            b.Some? ==> KeyFromPublic(b.value) == if BitLength(key.n) % 8 == 0 then Rsa(key, nameAlg) else Malformed
  {
    if PublicFromKey(key, nameAlg, attributes, authPolicy, EK_PARMS).Some? {
      PublicReading(key, nameAlg, attributes, authPolicy, EK_PARMS);
      Skipped(EK_PARMS, AsymBytes(key));
      AsymRoundTrip(key, nameAlg);
    }
  }

  // The parameters of the standard: TPM 2.0 Library, Part 2, sections 11.1.6, 11.2.4 and 12.2.3.5

  datatype Symmetric = NoSymmetric | Symmetric(alg: nat, keybits: nat, mode: nat)

  datatype Scheme = NoScheme | Scheme(alg: nat, hash: nat)

  predicate StandardFits(sym: Symmetric, scheme: Scheme) {
    && (sym.Symmetric? ==> sym.alg < 0x1_0000 && sym.alg != ALG_NULL && sym.keybits < 0x1_0000 && sym.mode < 0x1_0000)
    && (scheme.Scheme? ==> scheme.alg < 0x1_0000 && scheme.alg != ALG_NULL && scheme.hash < 0x1_0000)
  }

  function StandardParms(sym: Symmetric, scheme: Scheme): Bytes
    requires StandardFits(sym, scheme)
  {
    (match sym
     case NoSymmetric => BE2(ALG_NULL)
     case Symmetric(alg, keybits, mode) => BE2(alg) + (BE2(keybits) + BE2(mode)))
    + StandardScheme(scheme)
  }

  function StandardScheme(scheme: Scheme): Bytes
    requires StandardFits(NoSymmetric, scheme)
  {
    match scheme
    case NoScheme => BE2(ALG_NULL)
    case Scheme(alg, hash) => BE2(alg) + BE2(hash)
  }

  /** The second field, which is the key size when there is a symmetric algorithm and else the scheme. */
  function SecondField(sym: Symmetric, scheme: Scheme): nat {
    if sym.Symmetric? then sym.keybits else if scheme.Scheme? then scheme.alg else ALG_NULL
  }

  lemma FrontFields(first: nat, second: nat, tail: Bytes, b: Bytes)
    requires first < 0x1_0000 && second < 0x1_0000 && b == BE2(first) + (BE2(second) + tail)
    ensures ReadBE(b, 0, 2) == Some(first) && ReadBE(b, 2, 2) == Some(second)
  {
    Pow256Values();
    ReadFront(first, 2, BE2(second) + tail);
    ReadBehind(BE2(first), BE2(second) + tail, 2);
    ReadFront(second, 2, tail);
  }

  lemma Regrouped(a: Bytes, b: Bytes, c: Bytes, d: Bytes, r: Bytes)
    ensures a + (b + c) + d + r == a + (b + (c + d + r))
    ensures a + (b + c) + r == a + (b + (c + r))
    ensures a + b + r == a + (b + r)
  {
    assert a + (b + c) + d + r == a + (b + (c + d + r));
    assert a + (b + c) + r == a + (b + (c + r));
  }

  lemma FirstFields(sym: Symmetric, scheme: Scheme, rest: Bytes)
    requires StandardFits(sym, scheme)
    ensures var b := StandardParms(sym, scheme) + rest;
            && ReadBE(b, 0, 2) == Some(if sym.Symmetric? then sym.alg else ALG_NULL)
            && ReadBE(b, 2, 2) == Some(SecondField(sym, scheme))
  {
    var b := StandardParms(sym, scheme) + rest;
    if sym.Symmetric? {
      Regrouped(BE2(sym.alg), BE2(sym.keybits), BE2(sym.mode), StandardScheme(scheme), rest);
      FrontFields(sym.alg, sym.keybits, BE2(sym.mode) + StandardScheme(scheme) + rest, b);
    } else if scheme.Scheme? {
      Regrouped(BE2(ALG_NULL), BE2(scheme.alg), BE2(scheme.hash), [], rest);
      FrontFields(ALG_NULL, scheme.alg, BE2(scheme.hash) + rest, b);
    } else {
      Regrouped(BE2(ALG_NULL), BE2(ALG_NULL), [], [], rest);
      FrontFields(ALG_NULL, ALG_NULL, rest, b);
    }
  }

  /**
   * On the parameters of the standard the reader finds the key exactly when there is no symmetric algorithm, or when
   * there is no scheme and the key size is not the number that stands for none.
   */
  lemma SkipIsRight(sym: Symmetric, scheme: Scheme, rest: Bytes)
    requires StandardFits(sym, scheme)
    ensures var b := StandardParms(sym, scheme) + rest;
            ToSkip(ReadBE(b, 0, 2).value, ReadBE(b, 2, 2).value) == |StandardParms(sym, scheme)|
            <==> sym.NoSymmetric? || (scheme.NoScheme? && sym.keybits != ALG_NULL)
  {
    FirstFields(sym, scheme, rest);
  }
}
