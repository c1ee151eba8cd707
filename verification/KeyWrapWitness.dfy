/** The laws that key wrapping assumes can all be met at once: a library over a small group in which a wrap succeeds. */
module KeyWrapWitness {
  import opened Spi
  import opened BigEndian
  import opened Group
  import opened KeyWrap

  /** The powers of 5 modulo 23; 14 undoes 5. */
  const SMALL := Curve("small", 23, 5, 14)

  function SmallLibrary(): Library {
    Library(
      (name: string) => if name == "small" then Some(SMALL) else None,
      SMALL,
      (b: Bytes) => b,
      (z: Bytes, info: Bytes, n: nat) => Zeros(n),
      (alg: string, apu: Bytes, apv: Bytes, z: Bytes, n: nat) => Zeros(n),
      (kek: Bytes, cek: Bytes) => Some(cek),
      (kek: Bytes, wrapped: Bytes) => Some(wrapped),
      (kek: Bytes, nonce: Bytes, cek: Bytes) => cek,
      (kek: Bytes, nonce: Bytes, sealed: Bytes) => Some(sealed))
  }

  lemma FivePublic()
    ensures Exp(5, 1, 23) == 5 && FromBytes([5]) == 5 && ToBytes(5) == [5] && DSize(23) == 1
  {
    assert Pow(5, 1) == 5 * Pow(5, 0);
    assert [5 as byte][..0] == [];
    assert ToBytes(0) == [];
    assert BitLen(23) == 1 + BitLen(11) && BitLen(11) == 1 + BitLen(5);
    assert BitLen(5) == 1 + BitLen(2) && BitLen(2) == 1 + BitLen(1);
  }

  /** With every key the pair of 1 and 5, all that WrapThenUnwrap asks for holds, and the wrap succeeds. */
  lemma WrapAttainable(nonce: Bytes)
    requires |nonce| == NONCE_SIZE
    ensures var lib, key, pub := SmallLibrary(), ECPrivate(ECPublic(SMALL, 5), 1), PublicKey("", [5], "small", EC);
            && lib.Valid() && EphemeralFits(lib, pub, Generate) && Matching(lib, pub, ECHandle(key))
            && SenderKnown(lib, Some(ECHandle(key)), Some(PublicHandle(pub)))
            && DeriveKEKAndWrap(lib, Zeros(64), [], [], [], Some(ECHandle(key)), pub, Generate, true,
                                Entropy(1, [], nonce)).Some?
  {
    FivePublic();
    var lib, key, pub := SmallLibrary(), ECPrivate(ECPublic(SMALL, 5), 1), PublicKey("", [5], "small", EC);
    assert lib.CurvesValid();
    assert DeriveECDH(key, ECPublic(SMALL, 5)).Some?;
    assert ConvertRecKeyAndGenOrGetEPKEC(lib, pub, Generate, Entropy(1, [], nonce)) == Some((ECPublic(SMALL, 5), key));
  }

  /** The same over an X25519 key, with AES and a content key of 32 bytes. */
  lemma WrapAttainableOKP(nonce: Bytes)
    requires |nonce| == NONCE_SIZE
    ensures var lib, secret := SmallLibrary(), PadTo([1], 32);
            var pub := PublicKey("", PadTo([5], 32), "X25519", OKP);
            && lib.Valid() && EphemeralFits(lib, pub, Generate) && Matching(lib, pub, OKPHandle(secret))
            && SenderKnown(lib, Some(OKPHandle(secret)), Some(PublicHandle(pub)))
            && DeriveKEKAndWrap(lib, Zeros(32), [], [], [], Some(OKPHandle(secret)), pub, Generate, false,
                                Entropy(0, secret, nonce)).Some?
  {
    FivePublic();
    var lib, secret := SmallLibrary(), PadTo([1], 32);
    var pub := PublicKey("", PadTo([5], 32), "X25519", OKP);
    assert lib.CurvesValid();
    OneSecret();
    PadKeepsValue([5], 32);
    assert X25519(lib, secret, PadTo([5], 32)) == Some(PadTo([5], 32));
    assert PublicX25519(lib, secret) == Some(pub.x);
  }

  lemma OneSecret()
    ensures FromBytes(PadTo([1], 32)) == 1 && |PadTo([1], 32)| == 32
  {
    PadKeepsValue([1], 32);
    assert [1 as byte][..0] == [];
  }
}
