/** The byte buffers of key wrapping, filled in place. */
module KeyBuffers {
  import opened Spi
  import opened BigEndian
  import opened Group
  import opened KeyWrap

  /** Writes four octets at the front and leaves the rest alone. */
  method PutUint32(buffer: array<byte>, n: nat)
    requires buffer.Length >= 4
    modifies buffer
    ensures buffer[..4] == Uint32(n) && buffer[4..] == old(buffer[4..])
  {
    var m := n % 0x1_0000_0000;
    buffer[0] := (m / 0x100_0000) as byte;
    buffer[1] := (m / 0x1_0000 % 256) as byte;
    buffer[2] := (m / 256 % 256) as byte;
    buffer[3] := (m % 256) as byte;
  }

  /** Copies as many bytes as both sides have room for. */
  method Copy(buffer: array<byte>, at: nat, source: Bytes)
    requires at <= buffer.Length
    modifies buffer
    ensures var n := if |source| < buffer.Length - at then |source| else buffer.Length - at;
            buffer[..] == old(buffer[..at]) + source[..n] + old(buffer[at + n..])
  {
    var i := 0;
    while i < |source| && at + i < buffer.Length
      invariant i <= |source| && at + i <= buffer.Length
      invariant buffer[..at] == old(buffer[..at])
      invariant buffer[at..at + i] == source[..i]
      invariant buffer[at + i..] == old(buffer[at + i..])
    {
      buffer[at + i] := source[i];
      assert buffer[at..at + i + 1] == buffer[at..at + i] + [source[i]];
      i := i + 1;
    }
    assert buffer[..] == buffer[..at] + buffer[at..at + i] + buffer[at + i..];
  }

  method LengthPrefixed(source: Bytes) returns (info: array<byte>)
    ensures fresh(info) && info[..] == LengthPrefix(source)
  {
    info := new byte[4 + |source|](_ => 0);
    PutUint32(info, |source|);
    Copy(info, 4, source);
  }

  /** The key that is passed on as a fixed buffer is the given one, cut or filled up with zeros. */
  method FixedKey(key: Bytes) returns (buffer: array<byte>)
    ensures fresh(buffer) && buffer[..] == Copy32(key)
    ensures forall i | 0 <= i < 32 :: buffer[i] == if i < |key| then key[i] else 0
  {
    buffer := new byte[32](_ => 0);
    Copy(buffer, 0, key);
  }

  method Filled(source: Bytes) returns (buffer: array<byte>)
    ensures fresh(buffer) && buffer[..] == source
  {
    buffer := new byte[|source|](_ => 0);
    Copy(buffer, 0, source);
    assert source[..|source|] == source;
  }

  method KdfBuffer(lib: Library, kwAlg: string, z: Bytes, apu: Bytes, apv: Bytes, tag: Bytes, keySize: nat, useTag: bool)
    returns (kek: array<byte>)
    requires lib.LengthsValid()
    ensures fresh(kek) && kek[..] == KdfWithTag(lib, kwAlg, z, apu, apv, tag, keySize, useTag)
  {
    hide LengthPrefix, Uint32;
    var algID := LengthPrefixed(TextBytes(kwAlg));
    var ptyUInfo := LengthPrefixed(apu);
    var ptyVInfo := LengthPrefixed(apv);
    var front := new byte[4](_ => 0);
    var kdfKeySize := keySize;
    if kwAlg == ECDH1PU_A128KW {
      kdfKeySize := AES128_SIZE;
    } else if kwAlg == ECDH1PU_A192KW {
      kdfKeySize := AES192_SIZE;
    } else if kwAlg == ECDH1PU_A256KW {
      kdfKeySize := AES256_SIZE;
    }
    PutUint32(front, kdfKeySize * 8);
    var supPubInfo := front[..4];
    if useTag {
      var tagInfo := LengthPrefixed(tag);
      supPubInfo := supPubInfo + tagInfo[..];
    } else {
      assert supPubInfo + [] == supPubInfo;
    }
    var context := algID[..] + (ptyUInfo[..] + (ptyVInfo[..] + supPubInfo));
    assert context == KdfContext(TextBytes(kwAlg), apu, apv, kdfKeySize, tag, useTag);
    kek := Filled(lib.concatKDF(z, context, kdfKeySize));
  }

  method Padded(b: Bytes, size: nat) returns (r: Bytes)
    requires |b| <= size
    ensures r == PadTo(b, size)
  {
    r := b;
    if |b| != size {
      var zeros := new byte[size - |b|](_ => 0);
      assert zeros[..] == Zeros(size - |b|);
      r := zeros[..] + b;
    }
  }

  /** A shared coordinate comes out in exactly the octets that the curve's prime takes, whatever zeros led it. */
  method PaddedECDH(priv: ECPrivate, pub: ECPublic) returns (zBytes: Bytes)
    requires 0 < pub.x < priv.pub.curve.p
    ensures DeriveECDH(priv, pub) == Some(zBytes)
    ensures |zBytes| == DSize(priv.pub.curve.p)
    ensures FromBytes(zBytes) == Exp(pub.x, priv.d, priv.pub.curve.p)
  {
    hide ToBytes, FromBytes, Exp, DSize, PadTo;
    var p := priv.pub.curve.p;
    var z := Exp(pub.x, priv.d, p);
    zBytes := ToBytes(z);
    var octSize := DSize(p);
    PaddedCoordinate(z, p);
    CoordinateFits(z, p);
    zBytes := Padded(zBytes, octSize);
  }

  lemma CoordinateFits(z: nat, p: nat)
    requires z < p
    ensures |ToBytes(z)| <= DSize(p)
  {
    ToBytesWidth(z);
    BitLenMonotone(z, p);
  }

  /** The nonce travels in front of the ciphertext. */
  method WrapWithNonce(lib: Library, kek: Bytes, cek: Bytes, entropy: Bytes) returns (wrapped: Bytes)
    requires |entropy| == NONCE_SIZE && LegalKEK(kek, true)
    ensures WrapRaw(lib, kek, cek, true, entropy) == Some(wrapped)
    ensures wrapped[..NONCE_SIZE] == entropy && wrapped[NONCE_SIZE..] == lib.seal(kek, entropy, cek)
  {
    var nonce := Filled(entropy);
    wrapped := nonce[..] + lib.seal(kek, nonce[..], cek);
  }

  /** Unwrapping cuts where wrapping joined. */
  method UnwrapWithNonce(lib: Library, alg: string, kek: Bytes, encryptedKey: Bytes) returns (cek: Option<Bytes>)
    requires AlgUsesXC20P(alg) && LegalKEK(kek, true)
    ensures cek == UnwrapRaw(lib, alg, kek, encryptedKey)
    ensures |encryptedKey| < NONCE_SIZE ==> cek.None?
    ensures lib.CiphersValid() ==>
              forall nonce, key | |nonce| == NONCE_SIZE && encryptedKey == nonce + lib.seal(kek, nonce, key) ::
                cek == Some(key)
  {
    if |encryptedKey| < NONCE_SIZE {
      return None;
    }
    var nonce := encryptedKey[..NONCE_SIZE];
    return lib.open(kek, nonce, encryptedKey[NONCE_SIZE..]);
  }
}
