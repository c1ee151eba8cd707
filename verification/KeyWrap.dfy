/** Wrapping a content key by ECDH-ES or ECDH-1PU.

    The sender chooses by a flag, the length of the key to wrap and the type of the recipient's key; the recipient
    chooses by the algorithm name and the type of the ephemeral key that came along. */
module KeyWrap {
  import opened Spi
  import opened BigEndian
  import opened Group

  const ECDHES_A256KW := "ECDH-ES+A256KW"
  const ECDH1PU_A128KW := "ECDH-1PU+A128KW"
  const ECDH1PU_A192KW := "ECDH-1PU+A192KW"
  const ECDH1PU_A256KW := "ECDH-1PU+A256KW"
  const ECDHES_XC20PKW := "ECDH-ES+XC20PKW"
  const ECDH1PU_XC20PKW := "ECDH-1PU+XC20PKW"

  const AES128_SIZE := 16
  const AES192_SIZE := 24
  const AES256_SIZE := 32
  const DEF_KEY_SIZE := 32
  const NONCE_SIZE := 24
  const EC := "EC"
  const OKP := "OKP"

  // ----- keys ---------------------------------------------------------------------------------------------

  /** A group: the prime, the generator and the generator's inverse.  A public element is one residue. */
  datatype Curve = Curve(name: string, p: nat, g: nat, inverse: nat) {
    predicate Valid() { p > 1 && (g * inverse) % p == 1 }
  }

  /** A public key as it travels. */
  datatype PublicKey = PublicKey(kid: string, x: Bytes, curve: string, typ: string)

  datatype ECPublic = ECPublic(curve: Curve, x: nat)
  datatype ECPrivate = ECPrivate(pub: ECPublic, d: nat)

  /** What a key handle gives: an EC key, the bytes of an X25519 key, or nothing usable. */
  datatype PrivateHandle = ECHandle(key: ECPrivate) | OKPHandle(bytes: Bytes) | UnusableHandle
  datatype PublicHandle = PublicHandle(key: PublicKey) | UnusablePublic

  /** A caller-supplied ephemeral key. */
  datatype EphemeralOption = Generate | Use(pub: PublicKey, d: Bytes)

  /** The random choices of one call. */
  datatype Entropy = Entropy(scalar: nat, okpKey: Bytes, nonce: Bytes)

  datatype Wrapped = Wrapped(kid: string, encryptedCEK: Bytes, epk: PublicKey, apu: Bytes, apv: Bytes, alg: string)

  /** What other libraries provide. */
  datatype Library = Library(
    getCurve: string -> Option<Curve>,
    x25519: Curve,
    base64: Bytes -> Bytes,
    concatKDF: (Bytes, Bytes, nat) -> Bytes,
    deriveECDHES: (string, Bytes, Bytes, Bytes, nat) -> Bytes,
    aesWrap: (Bytes, Bytes) -> Option<Bytes>,
    aesUnwrap: (Bytes, Bytes) -> Option<Bytes>,
    seal: (Bytes, Bytes, Bytes) -> Bytes,
    open: (Bytes, Bytes, Bytes) -> Option<Bytes>)
  {
    ghost predicate CurvesValid() {
      && (forall n :: getCurve(n).Some? ==>
            getCurve(n).value.Valid() && getCurve(getCurve(n).value.name) == getCurve(n))
      && x25519.Valid() && DSize(x25519.p) <= 32 && 0 < x25519.g < x25519.p
    }

    ghost predicate LengthsValid() {
      && (forall z, info, n :: |concatKDF(z, info, n)| == n)
      && (forall alg, apu, apv, z, n :: |deriveECDHES(alg, apu, apv, z, n)| == n)
    }

    ghost predicate CiphersValid() {
      && (forall kek, cek :: aesWrap(kek, cek).Some? ==> aesUnwrap(kek, aesWrap(kek, cek).value) == Some(cek))
      && (forall kek, nonce, cek :: open(kek, nonce, seal(kek, nonce, cek)) == Some(cek))
    }

    ghost predicate Valid() { CurvesValid() && LengthsValid() && CiphersValid() }
  }

  // ----- key derivation -----------------------------------------------------------------------------------

  /** The key encryption key's length for an algorithm, whatever size the caller asked for. */
  function KdfKeySize(alg: string, keySize: nat): nat {
    if alg == ECDH1PU_A128KW then AES128_SIZE
    else if alg == ECDH1PU_A192KW then AES192_SIZE
    else if alg == ECDH1PU_A256KW then AES256_SIZE
    else keySize
  }

  /** The context that is hashed with the shared secret. */
  function KdfContext(alg: Bytes, apu: Bytes, apv: Bytes, size: nat, tag: Bytes, useTag: bool): Bytes {
    LengthPrefix(alg) + (LengthPrefix(apu) + (LengthPrefix(apv) + (Uint32(size * 8)
      + if useTag then LengthPrefix(tag) else [])))
  }

  function KdfWithTag(lib: Library, alg: string, z: Bytes, apu: Bytes, apv: Bytes, tag: Bytes, keySize: nat,
                      useTag: bool): Bytes {
    var size := KdfKeySize(alg, keySize);
    lib.concatKDF(z, KdfContext(TextBytes(alg), apu, apv, size, tag, useTag), size)
  }

  function Derive1Pu(lib: Library, alg: string, ze: Bytes, zs: Bytes, apu: Bytes, apv: Bytes, tag: Bytes,
                     keySize: nat): Bytes {
    KdfWithTag(lib, alg, ze + zs, apu, apv, tag, keySize, true)
  }

  /** What a reader gets out of a context: its fields, the key length in bits, and the tag if one is there. */
  datatype Context = Context(alg: Bytes, apu: Bytes, apv: Bytes, bits: nat, tag: Option<Bytes>)

  /** Takes a context apart from the left. */
  function ReadContext(b: Bytes): Option<Context> {
    var alg := ReadField(b);
    if alg.None? then None
    else
      var apu := ReadField(alg.value.1);
      if apu.None? then None
      else
        var apv := ReadField(apu.value.1);
        if apv.None? then None
        else
          var bits := ReadUint32(apv.value.1);
          if bits.None? then None
          else if bits.value.1 == [] then Some(Context(alg.value.0, apu.value.0, apv.value.0, bits.value.0, None))
          else
            var tag := ReadField(bits.value.1);
            if tag.None? || tag.value.1 != [] then None
            else Some(Context(alg.value.0, apu.value.0, apv.value.0, bits.value.0, Some(tag.value.0)))
  }

  predicate Prefixable(alg: Bytes, apu: Bytes, apv: Bytes, tag: Bytes) {
    |alg| < 0x1_0000_0000 && |apu| < 0x1_0000_0000 && |apv| < 0x1_0000_0000 && |tag| < 0x1_0000_0000
  }

  /** A reader gets every field back: the algorithm first, the sender's info, the recipient's, the bits, the tag. */
  lemma ContextReads(alg: Bytes, apu: Bytes, apv: Bytes, size: nat, tag: Bytes, useTag: bool)
    requires Prefixable(alg, apu, apv, tag) && size < 0x2000_0000
    ensures ReadContext(KdfContext(alg, apu, apv, size, tag, useTag)) ==
            Some(Context(alg, apu, apv, 8 * size, if useTag then Some(tag) else None))
  {
    hide LengthPrefix, Uint32, ReadField, ReadUint32;
    var info := if useTag then LengthPrefix(tag) else [];
    var end := Uint32(size * 8) + info;
    FieldReads(alg, LengthPrefix(apu) + (LengthPrefix(apv) + end));
    FieldReads(apu, LengthPrefix(apv) + end);
    FieldReads(apv, end);
    Uint32Reads(size * 8, info);
    PrefixNonempty(tag);
    FieldReads(tag, []);
    assert LengthPrefix(tag) + [] == LengthPrefix(tag);
  }

  /** Different inputs never share a context: nothing can be moved from one field to the next. */
  lemma ContextInjective(alg1: Bytes, apu1: Bytes, apv1: Bytes, size1: nat, tag1: Bytes, useTag1: bool,
                         alg2: Bytes, apu2: Bytes, apv2: Bytes, size2: nat, tag2: Bytes, useTag2: bool)
    requires Prefixable(alg1, apu1, apv1, tag1) && Prefixable(alg2, apu2, apv2, tag2)
    requires size1 < 0x2000_0000 && size2 < 0x2000_0000
    requires KdfContext(alg1, apu1, apv1, size1, tag1, useTag1) == KdfContext(alg2, apu2, apv2, size2, tag2, useTag2)
    ensures alg1 == alg2 && apu1 == apu2 && apv1 == apv2 && size1 == size2
    ensures useTag1 == useTag2 && (useTag1 ==> tag1 == tag2)
  {
    hide KdfContext, ReadContext;
    ContextReads(alg1, apu1, apv1, size1, tag1, useTag1);
    ContextReads(alg2, apu2, apv2, size2, tag2, useTag2);
  }

  lemma PrefixNonempty(b: Bytes)
    ensures LengthPrefix(b) != []
  {
  }

  // ----- agreement ----------------------------------------------------------------------------------------------

  /** None where the code panics because the element is not in the group. */
  function DeriveECDH(priv: ECPrivate, pub: ECPublic): Option<Bytes> {
    var p := priv.pub.curve.p;
    if 0 < pub.x < p then Some(PadTo(ToBytes(Exp(pub.x, priv.d, p)), DSize(p))) else None
  }

  function Copy32(b: Bytes): (r: Bytes)
    ensures |r| == 32
    ensures |b| == 32 ==> r == b
  {
    if |b| < 32 then b + Zeros(32 - |b|) else b[..32]
  }

  /** Fails when the result would be all zeros. */
  function X25519(lib: Library, scalar: Bytes, point: Bytes): (r: Option<Bytes>)
    requires lib.x25519.Valid()
  {
    var u := Exp(FromBytes(point), FromBytes(scalar), lib.x25519.p);
    if u == 0 then None else Some(PadTo(ToBytes(u), 32))
  }

  function BasePoint(lib: Library): Bytes {
    PadTo(ToBytes(lib.x25519.g), 32)
  }

  function PublicX25519(lib: Library, secret: Bytes): Option<Bytes>
    requires lib.x25519.Valid()
  {
    X25519(lib, Copy32(secret), BasePoint(lib))
  }

  // ----- the sender ---------------------------------------------------------------------------------------------

  function AesCEKSize1PU(alg: string): nat {
    if alg == ECDH1PU_A128KW then AES128_SIZE * 2
    else if alg == ECDH1PU_A192KW then AES192_SIZE * 2
    else if alg == ECDH1PU_A256KW then AES256_SIZE * 2
    else DEF_KEY_SIZE
  }

  /** A derived key with what the recipient will need besides. */
  datatype Derived = Derived(alg: string, kek: Bytes, epk: PublicKey, apu: Bytes)

  function DefaultApu(lib: Library, apu: Bytes, ephemeralX: Bytes): Bytes {
    if |apu| == 0 then lib.base64(ephemeralX) else apu
  }

  /** The recipient's key on its curve, and an ephemeral key on the same curve. */
  function ConvertRecKeyAndGenOrGetEPKEC(lib: Library, rec: PublicKey, epk: EphemeralOption, e: Entropy)
    : Option<(ECPublic, ECPrivate)>
    requires lib.CurvesValid()
  {
    var c := lib.getCurve(rec.curve);
    if c.None? then None
    else
      var ephemeral := match epk
        case Generate => ECPrivate(ECPublic(c.value, Exp(c.value.g, e.scalar, c.value.p)), e.scalar)
        case Use(pub, d) => ECPrivate(ECPublic(c.value, FromBytes(pub.x)), FromBytes(d));
      Some((ECPublic(c.value, FromBytes(rec.x)), ephemeral))
  }

  function GenerateOrGetEphemeralOKPKey(lib: Library, epk: EphemeralOption, e: Entropy): Option<(Bytes, Bytes)>
    requires lib.x25519.Valid()
  {
    match epk
    case Generate =>
      var pub := PublicX25519(lib, e.okpKey);
      if pub.None? then None else Some((pub.value, Copy32(e.okpKey)))
    case Use(pub, d) => Some((pub.x, d))
  }

  function ECDeriveSender1Pu(lib: Library, alg: string, apu: Bytes, apv: Bytes, tag: Bytes, ephemeral: ECPrivate,
                             sender: ECPrivate, rec: ECPublic, keySize: nat): Option<Bytes> {
    if rec.curve != ephemeral.pub.curve || rec.curve != sender.pub.curve then None
    else
      var ze, zs := DeriveECDH(ephemeral, rec), DeriveECDH(sender, rec);
      if ze.None? || zs.None? then None else Some(Derive1Pu(lib, alg, ze.value, zs.value, apu, apv, tag, keySize))
  }

  function OKPDeriveSender1Pu(lib: Library, alg: string, apu: Bytes, apv: Bytes, tag: Bytes, ephemeral: Bytes,
                              sender: Bytes, rec: Bytes): Option<Bytes>
    requires lib.x25519.Valid()
  {
    var ze, zs := X25519(lib, Copy32(ephemeral), Copy32(rec)), X25519(lib, Copy32(sender), Copy32(rec));
    if ze.None? || zs.None? then None else Some(Derive1Pu(lib, alg, ze.value, zs.value, apu, apv, tag, DEF_KEY_SIZE))
  }

  function Derive1PUWithECKey(lib: Library, alg: string, apu: Bytes, apv: Bytes, tag: Bytes, sender: PrivateHandle,
                              rec: PublicKey, epk: EphemeralOption, e: Entropy): Option<Derived>
    requires lib.CurvesValid()
  {
    var keys := ConvertRecKeyAndGenOrGetEPKEC(lib, rec, epk, e);
    if !sender.ECHandle? || keys.None? then None
    else
      var (pub, ephemeral) := keys.value;
      var x := ToBytes(ephemeral.pub.x);
      var apu' := DefaultApu(lib, apu, x);
      var kek := ECDeriveSender1Pu(lib, alg, apu', apv, tag, ephemeral, sender.key, pub, AesCEKSize1PU(alg));
      if kek.None? then None else Some(Derived(alg, kek.value, PublicKey("", x, pub.curve.name, rec.typ), apu'))
  }

  function Derive1PUWithOKPKey(lib: Library, alg: string, apu: Bytes, apv: Bytes, tag: Bytes, sender: PrivateHandle,
                               rec: PublicKey, epk: EphemeralOption, e: Entropy): Option<Derived>
    requires lib.CurvesValid()
  {
    var ephemeral := GenerateOrGetEphemeralOKPKey(lib, epk, e);
    if !sender.OKPHandle? || ephemeral.None? then None
    else
      var (pub, secret) := ephemeral.value;
      var apu' := DefaultApu(lib, apu, pub);
      var kek := OKPDeriveSender1Pu(lib, alg, apu', apv, tag, secret, sender.bytes, rec.x);
      if kek.None? then None else Some(Derived(alg, kek.value, PublicKey("", pub, "X25519", rec.typ), apu'))
  }

  function DeriveESWithECKey(lib: Library, apu: Bytes, apv: Bytes, rec: PublicKey, useXC20PKW: bool, e: Entropy)
    : Option<Derived>
    requires lib.CurvesValid()
  {
    var alg := if useXC20PKW then ECDHES_XC20PKW else ECDHES_A256KW;
    var keys := ConvertRecKeyAndGenOrGetEPKEC(lib, rec, Generate, e);
    if keys.None? then None
    else
      var (pub, ephemeral) := keys.value;
      var x := ToBytes(ephemeral.pub.x);
      var apu' := DefaultApu(lib, apu, x);
      var z := DeriveECDH(ephemeral, pub);
      if z.None? then None
      else Some(Derived(alg, lib.deriveECDHES(alg, apu', apv, z.value, DEF_KEY_SIZE),
                        PublicKey("", x, pub.curve.name, rec.typ), apu'))
  }

  function DeriveESWithOKPKey(lib: Library, apu: Bytes, apv: Bytes, rec: PublicKey, useXC20PKW: bool, e: Entropy)
    : Option<Derived>
    requires lib.CurvesValid()
  {
    var alg := if useXC20PKW then ECDHES_XC20PKW else ECDHES_A256KW;
    var ephemeral := GenerateOrGetEphemeralOKPKey(lib, Generate, e);
    if ephemeral.None? then None
    else
      var (pub, secret) := ephemeral.value;
      var apu' := DefaultApu(lib, apu, pub);
      var z := X25519(lib, Copy32(secret), Copy32(rec.x));
      if z.None? then None
      else Some(Derived(alg, KdfWithTag(lib, alg, z.value, apu', apv, [], DEF_KEY_SIZE, false),
                        PublicKey("", pub, "X25519", rec.typ), apu'))
  }

  /** The wrapping algorithm of an authenticated wrap: by the flag, else by the length of the key to wrap. */
  function Alg1PU(cekSize: nat, useXC20PKW: bool): Option<string> {
    if useXC20PKW then Some(ECDH1PU_XC20PKW)
    else if cekSize == AES128_SIZE * 2 then Some(ECDH1PU_A128KW)
    else if cekSize == AES192_SIZE * 2 then Some(ECDH1PU_A192KW)
    else if cekSize == AES256_SIZE * 2 then Some(ECDH1PU_A256KW)
    else None
  }

  function Derive1PUKEK(lib: Library, cekSize: nat, apu: Bytes, apv: Bytes, tag: Bytes, sender: PrivateHandle,
                        rec: PublicKey, epk: EphemeralOption, useXC20PKW: bool, e: Entropy): Option<Derived>
    requires lib.CurvesValid()
  {
    var alg := Alg1PU(cekSize, useXC20PKW);
    if alg.None? then None
    else if rec.typ == EC then Derive1PUWithECKey(lib, alg.value, apu, apv, tag, sender, rec, epk, e)
    else if rec.typ == OKP then Derive1PUWithOKPKey(lib, alg.value, apu, apv, tag, sender, rec, epk, e)
    else None
  }

  function DeriveESKEK(lib: Library, apu: Bytes, apv: Bytes, rec: PublicKey, useXC20PKW: bool, e: Entropy): Option<Derived>
    requires lib.CurvesValid()
  {
    if rec.typ == EC then DeriveESWithECKey(lib, apu, apv, rec, useXC20PKW, e)
    else if rec.typ == OKP then DeriveESWithOKPKey(lib, apu, apv, rec, useXC20PKW, e)
    else None
  }

  function DeriveKEK(lib: Library, cekSize: nat, apu: Bytes, apv: Bytes, tag: Bytes, sender: Option<PrivateHandle>,
                     rec: PublicKey, epk: EphemeralOption, useXC20PKW: bool, e: Entropy): Option<Derived>
    requires lib.CurvesValid()
  {
    if sender.Some? then Derive1PUKEK(lib, cekSize, apu, apv, tag, sender.value, rec, epk, useXC20PKW, e)
    else DeriveESKEK(lib, apu, apv, rec, useXC20PKW, e)
  }

  /** XChaCha20-Poly1305 takes keys of 32 bytes, AES keys of 16, 24 or 32. */
  predicate LegalKEK(kek: Bytes, xc20p: bool) {
    if xc20p then |kek| == 32 else |kek| in {AES128_SIZE, AES192_SIZE, AES256_SIZE}
  }

  function WrapRaw(lib: Library, kek: Bytes, cek: Bytes, useXC20PKW: bool, nonce: Bytes): Option<Bytes> {
    if !LegalKEK(kek, useXC20PKW) then None
    else if useXC20PKW then Some(nonce + lib.seal(kek, nonce, cek))
    else lib.aesWrap(kek, cek)
  }

  function DeriveKEKAndWrap(lib: Library, cek: Bytes, apu: Bytes, apv: Bytes, tag: Bytes, sender: Option<PrivateHandle>,
                            rec: PublicKey, epk: EphemeralOption, useXC20PKW: bool, e: Entropy): Option<Wrapped>
    requires lib.CurvesValid()
  {
    var d := DeriveKEK(lib, |cek|, apu, apv, tag, sender, rec, epk, useXC20PKW, e);
    if d.None? then None
    else
      var wk := WrapRaw(lib, d.value.kek, cek, useXC20PKW, e.nonce);
      if wk.None? then None else Some(Wrapped(rec.kid, wk.value, d.value.epk, d.value.apu, apv, d.value.alg))
  }

  // ----- the recipient ------------------------------------------------------------------------------------------

  function ECDeriveRecipient1Pu(lib: Library, alg: string, apu: Bytes, apv: Bytes, tag: Bytes, ephemeral: ECPublic,
                                sender: ECPublic, rec: ECPrivate, keySize: nat): Option<Bytes> {
    if rec.pub.curve != ephemeral.curve || rec.pub.curve != sender.curve then None
    else
      var ze, zs := DeriveECDH(rec, ephemeral), DeriveECDH(rec, sender);
      if ze.None? || zs.None? then None else Some(Derive1Pu(lib, alg, ze.value, zs.value, apu, apv, tag, keySize))
  }

  function OKPDeriveRecipient1Pu(lib: Library, alg: string, apu: Bytes, apv: Bytes, tag: Bytes, ephemeral: Bytes,
                                 sender: Bytes, rec: Bytes): Option<Bytes>
    requires lib.x25519.Valid()
  {
    var ze, zs := X25519(lib, Copy32(rec), Copy32(ephemeral)), X25519(lib, Copy32(rec), Copy32(sender));
    if ze.None? || zs.None? then None else Some(Derive1Pu(lib, alg, ze.value, zs.value, apu, apv, tag, DEF_KEY_SIZE))
  }

  function ToECPublic(lib: Library, key: PublicKey): Option<ECPublic> {
    var c := lib.getCurve(key.curve);
    if c.None? then None else Some(ECPublic(c.value, FromBytes(key.x)))
  }

  function Derive1PUKEKForUnwrap(lib: Library, alg: string, apu: Bytes, apv: Bytes, tag: Bytes, epk: PublicKey,
                                 sender: Option<PublicHandle>, rec: PrivateHandle): Option<Bytes>
    requires lib.CurvesValid()
  {
    if sender.None? || !sender.value.PublicHandle? then None
    else if epk.typ == EC then
      var senderKey, ephemeral := ToECPublic(lib, sender.value.key), ToECPublic(lib, epk);
      if senderKey.None? || ephemeral.None? || !rec.ECHandle? then None
      else ECDeriveRecipient1Pu(lib, alg, apu, apv, tag, ephemeral.value, senderKey.value, rec.key, AesCEKSize1PU(alg))
    else if epk.typ == OKP then
      if !rec.OKPHandle? then None
      else OKPDeriveRecipient1Pu(lib, alg, apu, apv, tag, epk.x, sender.value.key.x, rec.bytes)
    else None
  }

  function DeriveESKEKForUnwrap(lib: Library, alg: string, apu: Bytes, apv: Bytes, epk: PublicKey, rec: PrivateHandle)
    : Option<Bytes>
    requires lib.CurvesValid()
  {
    if epk.typ == EC then
      var ephemeral := ToECPublic(lib, epk);
      if ephemeral.None? || !rec.ECHandle? || rec.key.pub.curve != ephemeral.value.curve then None
      else
        var z := DeriveECDH(rec.key, ephemeral.value);
        if z.None? then None else Some(lib.deriveECDHES(alg, apu, apv, z.value, DEF_KEY_SIZE))
    else if epk.typ == OKP then
      if !rec.OKPHandle? then None
      else
        var z := X25519(lib, Copy32(rec.bytes), Copy32(epk.x));
        if z.None? then None else Some(KdfWithTag(lib, alg, z.value, apu, apv, [], DEF_KEY_SIZE, false))
    else None
  }

  function DeriveKEKForUnwrap(lib: Library, alg: string, apu: Bytes, apv: Bytes, tag: Bytes, epk: PublicKey,
                              sender: Option<PublicHandle>, rec: PrivateHandle): Option<Bytes>
    requires lib.CurvesValid()
  {
    if rec.UnusableHandle? then None
    else if alg in {ECDH1PU_A128KW, ECDH1PU_A192KW, ECDH1PU_A256KW, ECDH1PU_XC20PKW} then
      Derive1PUKEKForUnwrap(lib, alg, apu, apv, tag, epk, sender, rec)
    else if alg in {ECDHES_A256KW, ECDHES_XC20PKW} then DeriveESKEKForUnwrap(lib, alg, apu, apv, epk, rec)
    else None
  }

  predicate AlgUsesXC20P(alg: string) {
    alg in {ECDHES_XC20PKW, ECDH1PU_XC20PKW}
  }

  function UnwrapRaw(lib: Library, alg: string, kek: Bytes, encCEK: Bytes): Option<Bytes> {
    if AlgUsesXC20P(alg) then
      if !LegalKEK(kek, true) || |encCEK| < NONCE_SIZE then None
      else lib.open(kek, encCEK[..NONCE_SIZE], encCEK[NONCE_SIZE..])
    else if alg in {ECDHES_A256KW, ECDH1PU_A128KW, ECDH1PU_A192KW, ECDH1PU_A256KW} then
      if !LegalKEK(kek, false) then None else lib.aesUnwrap(kek, encCEK)
    else None
  }

  function DeriveKEKAndUnwrap(lib: Library, w: Wrapped, tag: Bytes, sender: Option<PublicHandle>, rec: PrivateHandle)
    : Option<Bytes>
    requires lib.CurvesValid()
  {
    var kek := DeriveKEKForUnwrap(lib, w.alg, w.apu, w.apv, tag, w.epk, sender, rec);
    if kek.None? then None else UnwrapRaw(lib, w.alg, kek.value, w.encryptedCEK)
  }

  // ----- matching keys --------------------------------------------------------------------------------------------

  ghost predicate ECPair(secret: ECPrivate) {
    secret.pub.curve.Valid() && secret.pub.x == Exp(secret.pub.curve.g, secret.d, secret.pub.curve.p)
  }

  /** `pub` is the public key of the private key behind `secret`, which is of the type that `pub` says. */
  ghost predicate Matching(lib: Library, pub: PublicKey, secret: PrivateHandle)
    requires lib.CurvesValid()
  {
    match secret
    case ECHandle(key) => pub.typ == EC && ECPair(key) && ToECPublic(lib, pub) == Some(key.pub)
    case OKPHandle(bytes) => pub.typ == OKP && PublicX25519(lib, bytes) == Some(pub.x)
    case UnusableHandle => false
  }

  /** A supplied ephemeral key is a pair for the recipient's curve. */
  ghost predicate EphemeralFits(lib: Library, rec: PublicKey, epk: EphemeralOption)
    requires lib.CurvesValid()
  {
    match epk
    case Generate => true
    case Use(pub, d) =>
      && (rec.typ == EC && lib.getCurve(rec.curve).Some? ==>
            var c := lib.getCurve(rec.curve).value; FromBytes(pub.x) == Exp(c.g, FromBytes(d), c.p))
      && (rec.typ == OKP ==> PublicX25519(lib, d) == Some(pub.x))
  }

  /** Each side, from its own secret and the other's public element, reaches the same shared secret. */
  lemma ECAgreement(a: ECPrivate, b: ECPrivate)
    requires ECPair(a) && ECPair(b) && a.pub.curve == b.pub.curve && DeriveECDH(a, b.pub).Some?
    ensures DeriveECDH(b, a.pub) == DeriveECDH(a, b.pub)
  {
    var c := a.pub.curve;
    ExchangeCommutes(c.g, a.d, b.d, c.p);
    PowersNonzero(c.g, c.inverse, a.d, c.p);
  }

  lemma X25519Value(lib: Library, scalar: Bytes, point: Bytes)
    requires lib.CurvesValid() && X25519(lib, scalar, point).Some?
    ensures var r := X25519(lib, scalar, point).value;
            |r| == 32 && FromBytes(r) == Exp(FromBytes(point), FromBytes(scalar), lib.x25519.p)
  {
    var u := Exp(FromBytes(point), FromBytes(scalar), lib.x25519.p);
    ToBytesWidth(u);
    BitLenMonotone(u, lib.x25519.p);
    PadKeepsValue(ToBytes(u), 32);
    RoundTrip(u);
  }

  lemma BaseValue(lib: Library)
    requires lib.CurvesValid()
    ensures FromBytes(BasePoint(lib)) == lib.x25519.g
  {
    PadKeepsValue(ToBytes(lib.x25519.g), 32);
    RoundTrip(lib.x25519.g);
  }

  lemma OKPAgreement(lib: Library, a: Bytes, b: Bytes, pubA: Bytes, pubB: Bytes)
    requires lib.CurvesValid() && PublicX25519(lib, a) == Some(pubA) && PublicX25519(lib, b) == Some(pubB)
    ensures X25519(lib, Copy32(b), Copy32(pubA)) == X25519(lib, Copy32(a), Copy32(pubB))
    ensures Copy32(pubA) == pubA && Copy32(pubB) == pubB
  {
    var p := lib.x25519.p;
    BaseValue(lib);
    X25519Value(lib, Copy32(a), BasePoint(lib));
    X25519Value(lib, Copy32(b), BasePoint(lib));
    ExchangeCommutes(lib.x25519.g, FromBytes(Copy32(a)), FromBytes(Copy32(b)), p);
  }

  // ----- both sides derive the same key -----------------------------------------------------------------------------

  /** The recipient recovers the sender's ephemeral public key from what travels. */
  lemma EphemeralTravels(lib: Library, rec: PublicKey, epk: EphemeralOption, e: Entropy)
    requires lib.CurvesValid() && rec.typ == EC && EphemeralFits(lib, rec, epk)
    requires ConvertRecKeyAndGenOrGetEPKEC(lib, rec, epk, e).Some?
    ensures var (pub, ephemeral) := ConvertRecKeyAndGenOrGetEPKEC(lib, rec, epk, e).value;
            && ECPair(ephemeral) && ephemeral.pub.curve == pub.curve && ToECPublic(lib, rec) == Some(pub)
            && ToECPublic(lib, PublicKey("", ToBytes(ephemeral.pub.x), pub.curve.name, EC)) == Some(ephemeral.pub)
  {
    var (pub, ephemeral) := ConvertRecKeyAndGenOrGetEPKEC(lib, rec, epk, e).value;
    RoundTrip(ephemeral.pub.x);
  }

  lemma SameKEK1PUWithECKey(lib: Library, alg: string, apu: Bytes, apv: Bytes, tag: Bytes, sender: PrivateHandle,
                            rec: PublicKey, epk: EphemeralOption, e: Entropy, senderPub: PublicKey, recSecret: PrivateHandle)
    requires lib.CurvesValid() && rec.typ == EC && EphemeralFits(lib, rec, epk)
    requires Matching(lib, senderPub, sender) && Matching(lib, rec, recSecret)
    requires Derive1PUWithECKey(lib, alg, apu, apv, tag, sender, rec, epk, e).Some?
    ensures var d := Derive1PUWithECKey(lib, alg, apu, apv, tag, sender, rec, epk, e).value;
            Derive1PUKEKForUnwrap(lib, alg, d.apu, apv, tag, d.epk, Some(PublicHandle(senderPub)), recSecret) == Some(d.kek)
  {
    hide DeriveECDH, ECPair, ToBytes, FromBytes, Exp;
    EphemeralTravels(lib, rec, epk, e);
    var (pub, ephemeral) := ConvertRecKeyAndGenOrGetEPKEC(lib, rec, epk, e).value;
    ECAgreement(ephemeral, recSecret.key);
    ECAgreement(sender.key, recSecret.key);
  }

  lemma SameKEK1PUWithOKPKey(lib: Library, alg: string, apu: Bytes, apv: Bytes, tag: Bytes, sender: PrivateHandle,
                             rec: PublicKey, epk: EphemeralOption, e: Entropy, senderPub: PublicKey, recSecret: PrivateHandle)
    requires lib.CurvesValid() && rec.typ == OKP && EphemeralFits(lib, rec, epk)
    requires Matching(lib, senderPub, sender) && Matching(lib, rec, recSecret)
    requires Derive1PUWithOKPKey(lib, alg, apu, apv, tag, sender, rec, epk, e).Some?
    ensures var d := Derive1PUWithOKPKey(lib, alg, apu, apv, tag, sender, rec, epk, e).value;
            Derive1PUKEKForUnwrap(lib, alg, d.apu, apv, tag, d.epk, Some(PublicHandle(senderPub)), recSecret) == Some(d.kek)
  {
    var (pub, secret) := GenerateOrGetEphemeralOKPKey(lib, epk, e).value;
    EphemeralOKPPair(lib, rec, epk, e);
    hide X25519, PublicX25519, Copy32;
    OKPAgreement(lib, secret, recSecret.bytes, pub, rec.x);
    OKPAgreement(lib, sender.bytes, recSecret.bytes, senderPub.x, rec.x);
  }

  lemma EphemeralOKPPair(lib: Library, rec: PublicKey, epk: EphemeralOption, e: Entropy)
    requires lib.CurvesValid() && rec.typ == OKP && EphemeralFits(lib, rec, epk)
    requires GenerateOrGetEphemeralOKPKey(lib, epk, e).Some?
    ensures var (pub, secret) := GenerateOrGetEphemeralOKPKey(lib, epk, e).value;
            PublicX25519(lib, secret) == Some(pub)
  {
  }

  lemma SameKEKES(lib: Library, apu: Bytes, apv: Bytes, rec: PublicKey, useXC20PKW: bool, e: Entropy, recSecret: PrivateHandle)
    requires lib.CurvesValid() && Matching(lib, rec, recSecret) && DeriveESKEK(lib, apu, apv, rec, useXC20PKW, e).Some?
    ensures var d := DeriveESKEK(lib, apu, apv, rec, useXC20PKW, e).value;
            DeriveESKEKForUnwrap(lib, d.alg, d.apu, apv, d.epk, recSecret) == Some(d.kek)
  {
    hide DeriveECDH, ECPair, ToBytes, FromBytes, Exp, X25519;
    if rec.typ == EC {
      EphemeralTravels(lib, rec, Generate, e);
      var (pub, ephemeral) := ConvertRecKeyAndGenOrGetEPKEC(lib, rec, Generate, e).value;
      ECAgreement(ephemeral, recSecret.key);
    } else {
      var (pub, secret) := GenerateOrGetEphemeralOKPKey(lib, Generate, e).value;
      EphemeralOKPPair(lib, rec, Generate, e);
      OKPAgreement(lib, secret, recSecret.bytes, pub, rec.x);
    }
  }

  /** The recipient's view of the sender: the public key of the sender's private key in an authenticated wrap, and
      anything at all otherwise. */
  ghost predicate SenderKnown(lib: Library, sender: Option<PrivateHandle>, senderPub: Option<PublicHandle>)
    requires lib.CurvesValid()
  {
    sender.Some? ==> senderPub.Some? && senderPub.value.PublicHandle? && Matching(lib, senderPub.value.key, sender.value)
  }

  /** For both key families and both modes, the recipient derives the sender's key encryption key. */
  lemma SameKEK(lib: Library, cekSize: nat, apu: Bytes, apv: Bytes, tag: Bytes, sender: Option<PrivateHandle>,
                rec: PublicKey, epk: EphemeralOption, useXC20PKW: bool, e: Entropy,
                senderPub: Option<PublicHandle>, recSecret: PrivateHandle)
    requires lib.CurvesValid() && EphemeralFits(lib, rec, epk)
    requires Matching(lib, rec, recSecret) && SenderKnown(lib, sender, senderPub)
    requires DeriveKEK(lib, cekSize, apu, apv, tag, sender, rec, epk, useXC20PKW, e).Some?
    ensures var d := DeriveKEK(lib, cekSize, apu, apv, tag, sender, rec, epk, useXC20PKW, e).value;
            DeriveKEKForUnwrap(lib, d.alg, d.apu, apv, tag, d.epk, senderPub, recSecret) == Some(d.kek)
  {
    hide Derive1PUWithECKey, Derive1PUWithOKPKey, DeriveESWithECKey, DeriveESWithOKPKey, DeriveESKEKForUnwrap,
      Derive1PUKEKForUnwrap;
    Dispatch(lib, cekSize, apu, apv, tag, sender, rec, epk, useXC20PKW, e);
    if sender.Some? {
      var alg := Alg1PU(cekSize, useXC20PKW).value;
      if rec.typ == EC {
        SameKEK1PUWithECKey(lib, alg, apu, apv, tag, sender.value, rec, epk, e, senderPub.value.key, recSecret);
      } else {
        SameKEK1PUWithOKPKey(lib, alg, apu, apv, tag, sender.value, rec, epk, e, senderPub.value.key, recSecret);
      }
    } else {
      SameKEKES(lib, apu, apv, rec, useXC20PKW, e, recSecret);
    }
  }

  /** The algorithm name that the sender settles on tells the recipient the mode, the primitive and the key length. */
  lemma Dispatch(lib: Library, cekSize: nat, apu: Bytes, apv: Bytes, tag: Bytes, sender: Option<PrivateHandle>,
                 rec: PublicKey, epk: EphemeralOption, useXC20PKW: bool, e: Entropy)
    requires lib.CurvesValid()
    requires DeriveKEK(lib, cekSize, apu, apv, tag, sender, rec, epk, useXC20PKW, e).Some?
    ensures var d := DeriveKEK(lib, cekSize, apu, apv, tag, sender, rec, epk, useXC20PKW, e).value;
            && d.epk.typ == rec.typ
            && AlgUsesXC20P(d.alg) == useXC20PKW
            && (sender.Some? <==> d.alg in {ECDH1PU_A128KW, ECDH1PU_A192KW, ECDH1PU_A256KW, ECDH1PU_XC20PKW})
            && (sender.None? <==> d.alg in {ECDHES_A256KW, ECDHES_XC20PKW})
            && (sender.Some? ==> Alg1PU(cekSize, useXC20PKW) == Some(d.alg))
            && (lib.LengthsValid() ==> |d.kek| == KdfKeySize(d.alg, 32))
  {
    hide Derive1PUWithECKey, Derive1PUWithOKPKey, DeriveESWithECKey, DeriveESWithOKPKey;
    if sender.Some? {
      Dispatch1PU(lib, Alg1PU(cekSize, useXC20PKW).value, apu, apv, tag, sender.value, rec, epk, e);
    } else {
      DispatchES(lib, apu, apv, rec, useXC20PKW, e);
    }
  }

  lemma Dispatch1PU(lib: Library, alg: string, apu: Bytes, apv: Bytes, tag: Bytes, sender: PrivateHandle,
                    rec: PublicKey, epk: EphemeralOption, e: Entropy)
    requires lib.CurvesValid()
    ensures forall d | d in {Derive1PUWithECKey(lib, alg, apu, apv, tag, sender, rec, epk, e),
                             Derive1PUWithOKPKey(lib, alg, apu, apv, tag, sender, rec, epk, e)} && d.Some? ::
              && d.value.epk.typ == rec.typ && d.value.alg == alg
              && (lib.LengthsValid() ==> |d.value.kek| == KdfKeySize(alg, 32))
  {
    hide DeriveECDH, X25519, ToBytes, FromBytes, KdfContext;
  }

  lemma DispatchES(lib: Library, apu: Bytes, apv: Bytes, rec: PublicKey, useXC20PKW: bool, e: Entropy)
    requires lib.CurvesValid()
    ensures forall d | d in {DeriveESWithECKey(lib, apu, apv, rec, useXC20PKW, e),
                             DeriveESWithOKPKey(lib, apu, apv, rec, useXC20PKW, e)} && d.Some? ::
              && d.value.epk.typ == rec.typ
              && d.value.alg == (if useXC20PKW then ECDHES_XC20PKW else ECDHES_A256KW)
              && (lib.LengthsValid() ==> |d.value.kek| == 32)
  {
    hide DeriveECDH, X25519, ToBytes, FromBytes, KdfContext;
  }

  /** On every path the key fits the primitive that the sender picked, which is the one the recipient picks. */
  lemma KEKFitsPrimitive(lib: Library, cekSize: nat, apu: Bytes, apv: Bytes, tag: Bytes, sender: Option<PrivateHandle>,
                         rec: PublicKey, epk: EphemeralOption, useXC20PKW: bool, e: Entropy)
    requires lib.CurvesValid() && lib.LengthsValid()
    requires DeriveKEK(lib, cekSize, apu, apv, tag, sender, rec, epk, useXC20PKW, e).Some?
    ensures var d := DeriveKEK(lib, cekSize, apu, apv, tag, sender, rec, epk, useXC20PKW, e).value;
            AlgUsesXC20P(d.alg) == useXC20PKW && LegalKEK(d.kek, useXC20PKW)
  {
    hide DeriveKEK;
    Dispatch(lib, cekSize, apu, apv, tag, sender, rec, epk, useXC20PKW, e);
  }

  /** Whatever a wrap produces, the matching keys and the same tag unwrap to the original key. */
  lemma WrapThenUnwrap(lib: Library, cek: Bytes, apu: Bytes, apv: Bytes, tag: Bytes, sender: Option<PrivateHandle>,
                       rec: PublicKey, epk: EphemeralOption, useXC20PKW: bool, e: Entropy,
                       senderPub: Option<PublicHandle>, recSecret: PrivateHandle)
    requires lib.Valid() && |e.nonce| == NONCE_SIZE && EphemeralFits(lib, rec, epk)
    requires Matching(lib, rec, recSecret) && SenderKnown(lib, sender, senderPub)
    requires DeriveKEKAndWrap(lib, cek, apu, apv, tag, sender, rec, epk, useXC20PKW, e).Some?
    ensures var w := DeriveKEKAndWrap(lib, cek, apu, apv, tag, sender, rec, epk, useXC20PKW, e).value;
            DeriveKEKAndUnwrap(lib, w, tag, senderPub, recSecret) == Some(cek)
  {
    hide DeriveKEK, DeriveKEKForUnwrap, Matching, SenderKnown, EphemeralFits, Library.CurvesValid;
    var d := DeriveKEK(lib, |cek|, apu, apv, tag, sender, rec, epk, useXC20PKW, e).value;
    SameKEK(lib, |cek|, apu, apv, tag, sender, rec, epk, useXC20PKW, e, senderPub, recSecret);
    Dispatch(lib, |cek|, apu, apv, tag, sender, rec, epk, useXC20PKW, e);
    var sealed := e.nonce + lib.seal(d.kek, e.nonce, cek);
    assert sealed[..NONCE_SIZE] == e.nonce && sealed[NONCE_SIZE..] == lib.seal(d.kek, e.nonce, cek);
  }
}
