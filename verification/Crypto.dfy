/** Hashes, keys and signatures as uninterpreted functions; what a proof needs of them is stated where it is used. */
module Crypto {
  import opened Bytes

  datatype HashAlg = Sha1 | Sha256 | Sha384 | Sha512 | Sm3_256

  /** Digest length in bytes. */
  function Size(alg: HashAlg): nat {
    match alg
    case Sha1 => 20
    case Sha256 => 32
    case Sha384 => 48
    case Sha512 => 64
    case Sm3_256 => 32
  }

  function StartHash(alg: HashAlg): Bytes {
    Zeros(Size(alg))
  }

  function FfHash(alg: HashAlg): Bytes {
    seq(Size(alg), _ => 0xFF)
  }

  /** A digest with the same byte throughout: all zeros or all ones stand for a violation. */
  ghost predicate Filled(alg: HashAlg, digest: Bytes, x: byte) {
    |digest| == Size(alg) && forall i | 0 <= i < |digest| :: digest[i] == x
  }

  lemma FilledIs(alg: HashAlg, digest: Bytes)
    ensures Filled(alg, digest, 0) <==> digest == StartHash(alg)
    ensures Filled(alg, digest, 0xFF) <==> digest == FfHash(alg)
  {
    if Filled(alg, digest, 0) {
      assert digest == StartHash(alg);
    }
    if Filled(alg, digest, 0xFF) {
      assert digest == FfHash(alg);
    }
  }

  datatype PubKey = RsaKey(modulus: nat, exponent: nat) | EcKey(curve: string, x: nat, y: nat)

  /** `CheckRaises`: any exception but that of a signature that does not match, as for a digest of the wrong length. */
  datatype SigCheck = Genuine | Forged | CheckRaises

  datatype Crypto = Crypto(
    hash: (HashAlg, Bytes) -> Bytes,
    keyId: PubKey -> nat,                          // lowest four bytes of the key's SHA-1 digest
    toDer: PubKey -> Option<Bytes>,                // None: the key cannot be serialized
    fromDer: Bytes -> Option<PubKey>,              // None: not a supported key
    keyFromData: Bytes -> KeyData,                 // the six readings of a key blob
    sigVerify: (PubKey, Bytes, Bytes, string) -> SigCheck
  )

  /** What a buffer holds: nothing readable as a key, a key of an unsupported kind, or a key with its certificate's id. */
  datatype KeyData = NotAKey | UnsupportedKey | Key(pubkey: PubKey, keyid: Option<nat>)

  ghost predicate HashHasSize(c: Crypto, alg: HashAlg) {
    forall b: Bytes :: |c.hash(alg, b)| == Size(alg)
  }

  /** Reading a serialized key gives the key back. */
  ghost predicate DerLaw(c: Crypto) {
    forall k: PubKey :: c.toDer(k).Some? ==> c.fromDer(c.toDer(k).value) == Some(k)
  }
}
