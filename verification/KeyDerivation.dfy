/** What a derived key encryption key is made of and when there is one, told without the functions that derive it. */
module KeyDerivation {
  import opened Spi
  import opened BigEndian
  import opened Group
  import opened KeyWrap

  // ----- which algorithm, and how long a key ----------------------------------------------------------------

  /** The algorithm name by mode and flag; an authenticated AES wrap takes it from the length of the key to wrap,
      which is twice the length of the derived key. */
  lemma NameAndLength(lib: Library, cekSize: nat, apu: Bytes, apv: Bytes, tag: Bytes, sender: Option<PrivateHandle>,
                      rec: PublicKey, epk: EphemeralOption, useXC20PKW: bool, e: Entropy)
    requires lib.CurvesValid() && lib.LengthsValid()
    requires DeriveKEK(lib, cekSize, apu, apv, tag, sender, rec, epk, useXC20PKW, e).Some?
    ensures var d := DeriveKEK(lib, cekSize, apu, apv, tag, sender, rec, epk, useXC20PKW, e).value;
            if sender.None? then |d.kek| == 32 && d.alg == if useXC20PKW then "ECDH-ES+XC20PKW" else "ECDH-ES+A256KW"
            else if useXC20PKW then |d.kek| == 32 && d.alg == "ECDH-1PU+XC20PKW"
            else
              && cekSize == 2 * |d.kek| && |d.kek| in {16, 24, 32}
              && (|d.kek| == 16 <==> d.alg == "ECDH-1PU+A128KW")
              && (|d.kek| == 24 <==> d.alg == "ECDH-1PU+A192KW")
              && (|d.kek| == 32 <==> d.alg == "ECDH-1PU+A256KW")
  {
    Dispatch(lib, cekSize, apu, apv, tag, sender, rec, epk, useXC20PKW, e);
    hide DeriveKEK;
  }

  // ----- what is hashed -----------------------------------------------------------------------------------------

  /** The secret number behind a private key. */
  function SecretOf(h: PrivateHandle): nat {
    match h
    case ECHandle(key) => key.d
    case OKPHandle(bytes) => FromBytes(Copy32(bytes))
    case UnusableHandle => 0
  }

  /** The secret number behind the ephemeral key: the supplied one's, else the generated one's. */
  function EphemeralSecret(typ: string, epk: EphemeralOption, e: Entropy): nat {
    match epk
    case Generate => if typ == EC then e.scalar else FromBytes(Copy32(e.okpKey))
    case Use(_, d) => if typ == EC then FromBytes(d) else FromBytes(Copy32(d))
  }

  /** The group element of a key of the recipient's type, with the prime and the octets of its group. */
  function PrimeFor(lib: Library, rec: PublicKey): nat {
    if rec.typ != EC then lib.x25519.p
    else var c := lib.getCurve(rec.curve); if c.Some? then c.value.p else 0
  }

  function OctetsFor(lib: Library, rec: PublicKey): nat {
    if rec.typ == EC then DSize(PrimeFor(lib, rec)) else 32
  }

  function ElementOf(key: PublicKey): nat {
    if key.typ == EC then FromBytes(key.x) else FromBytes(Copy32(key.x))
  }

  /** `z` is the recipient's element to the power of `secret`, in exactly the octets that its group takes. */
  ghost predicate Shared(lib: Library, rec: PublicKey, secret: nat, z: Bytes) {
    && PrimeFor(lib, rec) > 0 && |z| == OctetsFor(lib, rec)
    && FromBytes(z) == Exp(ElementOf(rec), secret, PrimeFor(lib, rec))
  }

  lemma SharedEC(lib: Library, rec: PublicKey, priv: ECPrivate, pub: ECPublic, z: Bytes)
    requires rec.typ == EC && lib.getCurve(rec.curve) == Some(priv.pub.curve) && pub.x == FromBytes(rec.x)
    requires DeriveECDH(priv, pub) == Some(z)
    ensures Shared(lib, rec, priv.d, z)
  {
    hide ToBytes, FromBytes, Exp, DSize, PadTo;
    var p := priv.pub.curve.p;
    PaddedCoordinate(Exp(pub.x, priv.d, p), p);
  }

  lemma SharedOKP(lib: Library, rec: PublicKey, secret: Bytes, z: Bytes)
    requires lib.CurvesValid() && rec.typ == OKP && X25519(lib, Copy32(secret), Copy32(rec.x)) == Some(z)
    ensures Shared(lib, rec, FromBytes(Copy32(secret)), z)
  {
    hide X25519, FromBytes, Exp, DSize;
    X25519Value(lib, Copy32(secret), Copy32(rec.x));
  }

  lemma SecretsEC(lib: Library, alg: string, apu: Bytes, apv: Bytes, tag: Bytes, sender: PrivateHandle, rec: PublicKey,
                  epk: EphemeralOption, e: Entropy)
    returns (ze: Bytes, zs: Bytes)
    requires lib.CurvesValid() && rec.typ == EC
    requires Derive1PUWithECKey(lib, alg, apu, apv, tag, sender, rec, epk, e).Some?
    ensures var d := Derive1PUWithECKey(lib, alg, apu, apv, tag, sender, rec, epk, e).value;
            && Shared(lib, rec, EphemeralSecret(rec.typ, epk, e), ze) && Shared(lib, rec, SecretOf(sender), zs)
            && d.kek == Derive1Pu(lib, alg, ze, zs, d.apu, apv, tag, AesCEKSize1PU(alg))
  {
    hide DeriveECDH, Derive1Pu, ToBytes, FromBytes, Exp, DSize, Shared;
    var (pub, ephemeral) := ConvertRecKeyAndGenOrGetEPKEC(lib, rec, epk, e).value;
    ze, zs := DeriveECDH(ephemeral, pub).value, DeriveECDH(sender.key, pub).value;
    SharedEC(lib, rec, ephemeral, pub, ze);
    SharedEC(lib, rec, sender.key, pub, zs);
  }

  lemma SecretsOKP(lib: Library, alg: string, apu: Bytes, apv: Bytes, tag: Bytes, sender: PrivateHandle, rec: PublicKey,
                   epk: EphemeralOption, e: Entropy)
    returns (ze: Bytes, zs: Bytes)
    requires lib.CurvesValid() && rec.typ == OKP
    requires Derive1PUWithOKPKey(lib, alg, apu, apv, tag, sender, rec, epk, e).Some?
    ensures var d := Derive1PUWithOKPKey(lib, alg, apu, apv, tag, sender, rec, epk, e).value;
            && Shared(lib, rec, EphemeralSecret(rec.typ, epk, e), ze) && Shared(lib, rec, SecretOf(sender), zs)
            && d.kek == Derive1Pu(lib, alg, ze, zs, d.apu, apv, tag, DEF_KEY_SIZE)
  {
    hide X25519, PublicX25519, Derive1Pu, FromBytes, Exp, Shared;
    var (pub, secret) := GenerateOrGetEphemeralOKPKey(lib, epk, e).value;
    ze, zs := X25519(lib, Copy32(secret), Copy32(rec.x)).value, X25519(lib, Copy32(sender.bytes), Copy32(rec.x)).value;
    SharedOKP(lib, rec, secret, ze);
    SharedOKP(lib, rec, sender.bytes, zs);
  }

  /** A context is told by what a reader gets out of it. */
  ghost predicate Tells(context: Bytes, alg: string, apu: Bytes, apv: Bytes, bits: nat, tag: Option<Bytes>) {
    Prefixable(TextBytes(alg), apu, apv, if tag.Some? then tag.value else []) ==>
      ReadContext(context) == Some(Context(TextBytes(alg), apu, apv, bits, tag))
  }

  /** An authenticated key is the hash of the ephemeral secret, the sender's secret behind it, and a context from which
      a reader gets the algorithm, both infos, the key's length in bits and the tag. */
  lemma AuthenticatedKey(lib: Library, cekSize: nat, apu: Bytes, apv: Bytes, tag: Bytes, sender: PrivateHandle,
                         rec: PublicKey, epk: EphemeralOption, useXC20PKW: bool, e: Entropy)
    returns (ze: Bytes, zs: Bytes, context: Bytes)
    requires lib.CurvesValid() && lib.LengthsValid()
    requires DeriveKEK(lib, cekSize, apu, apv, tag, Some(sender), rec, epk, useXC20PKW, e).Some?
    ensures var d := DeriveKEK(lib, cekSize, apu, apv, tag, Some(sender), rec, epk, useXC20PKW, e).value;
            && Shared(lib, rec, EphemeralSecret(rec.typ, epk, e), ze) && Shared(lib, rec, SecretOf(sender), zs)
            && d.kek == lib.concatKDF(ze + zs, context, |d.kek|)
            && Tells(context, d.alg, d.apu, apv, 8 * |d.kek|, Some(tag))
  {
    hide Derive1PUWithECKey, Derive1PUWithOKPKey;
    var d := DeriveKEK(lib, cekSize, apu, apv, tag, Some(sender), rec, epk, useXC20PKW, e).value;
    Dispatch(lib, cekSize, apu, apv, tag, Some(sender), rec, epk, useXC20PKW, e);
    if rec.typ == EC {
      ze, zs := SecretsEC(lib, d.alg, apu, apv, tag, sender, rec, epk, e);
    } else {
      ze, zs := SecretsOKP(lib, d.alg, apu, apv, tag, sender, rec, epk, e);
    }
    hide DeriveKEK, Shared, ReadContext, KdfContext;
    context := KdfContext(TextBytes(d.alg), d.apu, apv, |d.kek|, tag, true);
    NameAndLength(lib, cekSize, apu, apv, tag, Some(sender), rec, epk, useXC20PKW, e);
    if Prefixable(TextBytes(d.alg), d.apu, apv, tag) {
      ContextReads(TextBytes(d.alg), d.apu, apv, |d.kek|, tag, true);
    }
  }

  /** An anonymous key is derived from the ephemeral secret alone, over an OKP key with a context without a tag. */
  lemma AnonymousKey(lib: Library, cekSize: nat, apu: Bytes, apv: Bytes, tag: Bytes, rec: PublicKey,
                     epk: EphemeralOption, useXC20PKW: bool, e: Entropy)
    returns (z: Bytes, context: Bytes)
    requires lib.CurvesValid() && lib.LengthsValid()
    requires DeriveKEK(lib, cekSize, apu, apv, tag, None, rec, epk, useXC20PKW, e).Some?
    ensures var d := DeriveKEK(lib, cekSize, apu, apv, tag, None, rec, epk, useXC20PKW, e).value;
            && Shared(lib, rec, EphemeralSecret(rec.typ, Generate, e), z)
            && (rec.typ == EC ==> d.kek == lib.deriveECDHES(d.alg, d.apu, apv, z, 32))
            && (rec.typ != EC ==> d.kek == lib.concatKDF(z, context, 32) && Tells(context, d.alg, d.apu, apv, 256, None))
  {
    hide DeriveECDH, X25519, PublicX25519, ToBytes, FromBytes, Exp, DSize, Shared, ReadContext, KdfContext;
    var d := DeriveKEK(lib, cekSize, apu, apv, tag, None, rec, epk, useXC20PKW, e).value;
    context := KdfContext(TextBytes(d.alg), d.apu, apv, 32, [], false);
    if rec.typ == EC {
      var (pub, ephemeral) := ConvertRecKeyAndGenOrGetEPKEC(lib, rec, Generate, e).value;
      z := DeriveECDH(ephemeral, pub).value;
      SharedEC(lib, rec, ephemeral, pub, z);
    } else {
      var (pub, secret) := GenerateOrGetEphemeralOKPKey(lib, Generate, e).value;
      z := X25519(lib, Copy32(secret), Copy32(rec.x)).value;
      SharedOKP(lib, rec, secret, z);
      if Prefixable(TextBytes(d.alg), d.apu, apv, []) {
        ContextReads(TextBytes(d.alg), d.apu, apv, 32, [], false);
      }
    }
  }

  // ----- what travels -------------------------------------------------------------------------------------------

  function GeneratorFor(lib: Library, rec: PublicKey): nat {
    if rec.typ != EC then lib.x25519.g
    else var c := lib.getCurve(rec.curve); if c.Some? then c.value.g else 0
  }

  /** The caller's supplied ephemeral key is looked at in an authenticated wrap only. */
  function EphemeralUsed(sender: Option<PrivateHandle>, epk: EphemeralOption): EphemeralOption {
    if sender.Some? then epk else Generate
  }

  /** The ephemeral key that travels is on the recipient's curve: the generator to the power of the generated secret, or
      the caller's key.  A caller's own sender info travels as it is; a blank one is filled from the ephemeral key. */
  lemma EphemeralSent(lib: Library, cekSize: nat, apu: Bytes, apv: Bytes, tag: Bytes, sender: Option<PrivateHandle>,
                      rec: PublicKey, epk: EphemeralOption, useXC20PKW: bool, e: Entropy)
    requires lib.CurvesValid()
    requires DeriveKEK(lib, cekSize, apu, apv, tag, sender, rec, epk, useXC20PKW, e).Some?
    ensures var d, used := DeriveKEK(lib, cekSize, apu, apv, tag, sender, rec, epk, useXC20PKW, e).value,
                           EphemeralUsed(sender, epk);
            && d.apu == (if apu == [] then lib.base64(d.epk.x) else apu)
            && d.epk.typ == rec.typ && PrimeFor(lib, rec) > 0
            && (rec.typ == EC ==> lib.getCurve(d.epk.curve) == lib.getCurve(rec.curve))
            && (rec.typ != EC ==> d.epk.curve == "X25519")
            && FromBytes(d.epk.x) ==
               if used.Generate? then Exp(GeneratorFor(lib, rec), EphemeralSecret(rec.typ, used, e), PrimeFor(lib, rec))
               else FromBytes(used.pub.x)
  {
    if rec.typ == EC {
      if sender.Some? {
        SentEC(lib, rec, epk, e);
      } else {
        SentEC(lib, rec, Generate, e);
      }
      hide ConvertRecKeyAndGenOrGetEPKEC, ECDeriveSender1Pu, DeriveECDH, FromBytes, ToBytes, Exp;
    } else {
      if sender.Some? {
        SentOKP(lib, epk, e);
      } else {
        SentOKP(lib, Generate, e);
      }
      hide GenerateOrGetEphemeralOKPKey, OKPDeriveSender1Pu, X25519, KdfWithTag, FromBytes, Exp;
    }
  }

  lemma SentEC(lib: Library, rec: PublicKey, epk: EphemeralOption, e: Entropy)
    requires lib.CurvesValid() && ConvertRecKeyAndGenOrGetEPKEC(lib, rec, epk, e).Some?
    ensures var (pub, ephemeral) := ConvertRecKeyAndGenOrGetEPKEC(lib, rec, epk, e).value;
            && lib.getCurve(rec.curve) == Some(pub.curve) && pub.curve.p > 0
            && lib.getCurve(pub.curve.name) == lib.getCurve(rec.curve)
            && FromBytes(ToBytes(ephemeral.pub.x)) ==
               if epk.Generate? then Exp(pub.curve.g, e.scalar, pub.curve.p) else FromBytes(epk.pub.x)
  {
    var (pub, ephemeral) := ConvertRecKeyAndGenOrGetEPKEC(lib, rec, epk, e).value;
    RoundTrip(ephemeral.pub.x);
  }

  lemma SentOKP(lib: Library, epk: EphemeralOption, e: Entropy)
    requires lib.CurvesValid() && GenerateOrGetEphemeralOKPKey(lib, epk, e).Some?
    ensures var (pub, _) := GenerateOrGetEphemeralOKPKey(lib, epk, e).value;
            FromBytes(pub) == if epk.Generate? then Exp(lib.x25519.g, FromBytes(Copy32(e.okpKey)), lib.x25519.p)
                              else FromBytes(epk.pub.x)
  {
    hide X25519, FromBytes, Exp, Copy32;
    if epk.Generate? {
      BaseValue(lib);
      X25519Value(lib, Copy32(e.okpKey), BasePoint(lib));
    }
  }

  /** The wrapped key says whose it is and carries both infos, the ephemeral key and the algorithm's name.  The
      content key is sealed behind its nonce of 24 bytes, or wrapped by AES, under the derived key. */
  lemma WrappedIs(lib: Library, cek: Bytes, apu: Bytes, apv: Bytes, tag: Bytes, sender: Option<PrivateHandle>,
                  rec: PublicKey, epk: EphemeralOption, useXC20PKW: bool, e: Entropy)
    requires lib.CurvesValid() && lib.LengthsValid() && |e.nonce| == 24
    requires DeriveKEKAndWrap(lib, cek, apu, apv, tag, sender, rec, epk, useXC20PKW, e).Some?
    ensures DeriveKEK(lib, |cek|, apu, apv, tag, sender, rec, epk, useXC20PKW, e).Some?
    ensures var w := DeriveKEKAndWrap(lib, cek, apu, apv, tag, sender, rec, epk, useXC20PKW, e).value;
            var d := DeriveKEK(lib, |cek|, apu, apv, tag, sender, rec, epk, useXC20PKW, e).value;
            && w.kid == rec.kid && w.apv == apv && w.apu == (if apu == [] then lib.base64(w.epk.x) else apu)
            && w.epk == d.epk && w.alg == d.alg
            && if useXC20PKW then w.encryptedCEK[..24] == e.nonce && w.encryptedCEK[24..] == lib.seal(d.kek, e.nonce, cek)
               else Some(w.encryptedCEK) == lib.aesWrap(d.kek, cek)
  {
    EphemeralSent(lib, |cek|, apu, apv, tag, sender, rec, epk, useXC20PKW, e);
    hide DeriveKEK;
  }

  // ----- when there is a key ------------------------------------------------------------------------------------

  /** The element is in the group, where an exchange that gives zero is refused. */
  predicate InGroup(x: nat, p: nat) { 0 < x < p }

  predicate NonZeroExchange(lib: Library, scalar: Bytes, point: Bytes)
    requires lib.x25519.Valid()
  {
    Exp(FromBytes(Copy32(point)), FromBytes(Copy32(scalar)), lib.x25519.p) != 0
  }

  predicate RecipientOnCurve(lib: Library, rec: PublicKey) {
    var c := lib.getCurve(rec.curve);
    rec.typ == "EC" && c.Some? && InGroup(FromBytes(rec.x), c.value.p)
  }

  /** A key is derived for an EC recipient exactly when its curve is known, its element in the group and the sender's
      key, if there is one, on the same curve; ... */
  lemma DerivesEC(lib: Library, cekSize: nat, apu: Bytes, apv: Bytes, tag: Bytes, sender: Option<PrivateHandle>,
                  rec: PublicKey, epk: EphemeralOption, useXC20PKW: bool, e: Entropy)
    requires lib.CurvesValid() && rec.typ != "OKP"
    ensures DeriveKEK(lib, cekSize, apu, apv, tag, sender, rec, epk, useXC20PKW, e).Some? <==>
            && RecipientOnCurve(lib, rec)
            && (sender.Some? ==>
                  && (useXC20PKW || cekSize in {32, 48, 64}) && sender.value.ECHandle?
                  && lib.getCurve(rec.curve) == Some(sender.value.key.pub.curve))
  {
    hide Derive1PUWithOKPKey, DeriveESWithOKPKey, FromBytes, ToBytes, Exp, Derive1Pu, DefaultApu, AesCEKSize1PU;
  }

  /** ... and for an OKP recipient exactly when no exchange gives zero. */
  lemma DerivesOKP(lib: Library, cekSize: nat, apu: Bytes, apv: Bytes, tag: Bytes, sender: Option<PrivateHandle>,
                   rec: PublicKey, epk: EphemeralOption, useXC20PKW: bool, e: Entropy)
    requires lib.CurvesValid() && rec.typ == "OKP"
    ensures DeriveKEK(lib, cekSize, apu, apv, tag, sender, rec, epk, useXC20PKW, e).Some? <==>
            && NonZeroExchange(lib, if EphemeralUsed(sender, epk).Use? then epk.d else e.okpKey, rec.x)
            && (sender.Some? ==>
                  && (useXC20PKW || cekSize in {32, 48, 64}) && sender.value.OKPHandle?
                  && NonZeroExchange(lib, sender.value.bytes, rec.x))
  {
    GeneratedOKP(lib, e);
    hide Derive1PUWithECKey, DeriveESWithECKey, FromBytes, ToBytes, Exp, PublicX25519, Copy32, Derive1Pu, KdfWithTag,
      DefaultApu, AesCEKSize1PU;
  }

  lemma GeneratedOKP(lib: Library, e: Entropy)
    requires lib.CurvesValid()
    ensures PublicX25519(lib, e.okpKey).Some?
  {
    hide Exp, FromBytes;
    BaseValue(lib);
    PowersNonzero(lib.x25519.g, lib.x25519.inverse, FromBytes(Copy32(e.okpKey)), lib.x25519.p);
  }

  predicate Authenticated(alg: string) {
    alg in {"ECDH-1PU+A128KW", "ECDH-1PU+A192KW", "ECDH-1PU+A256KW", "ECDH-1PU+XC20PKW"}
  }

  predicate Anonymous(alg: string) {
    alg in {"ECDH-ES+A256KW", "ECDH-ES+XC20PKW"}
  }

  predicate OnCurveOf(lib: Library, pub: PublicKey, c: Curve) {
    lib.getCurve(pub.curve) == Some(c) && InGroup(FromBytes(pub.x), c.p)
  }

  /** The recipient derives a key exactly when the name is one of the six, its own key of the ephemeral key's type, and
      the ephemeral key, with the sender's in the four authenticated modes, usable with it. */
  lemma UnwrapsExactly(lib: Library, alg: string, apu: Bytes, apv: Bytes, tag: Bytes, epk: PublicKey,
                       sender: Option<PublicHandle>, rec: PrivateHandle)
    requires lib.CurvesValid()
    ensures DeriveKEKForUnwrap(lib, alg, apu, apv, tag, epk, sender, rec).Some? <==>
            && (Authenticated(alg) || Anonymous(alg))
            && (Authenticated(alg) ==> sender.Some? && sender.value.PublicHandle?)
            && ((epk.typ == "EC" && rec.ECHandle? && OnCurveOf(lib, epk, rec.key.pub.curve)
                 && (Authenticated(alg) ==> OnCurveOf(lib, sender.value.key, rec.key.pub.curve)))
                || (epk.typ == "OKP" && rec.OKPHandle? && NonZeroExchange(lib, rec.bytes, epk.x)
                    && (Authenticated(alg) ==> NonZeroExchange(lib, rec.bytes, sender.value.key.x))))
  {
    hide FromBytes, ToBytes, Exp, Derive1Pu, KdfWithTag, AesCEKSize1PU;
  }

  // ----- when a key is wrapped or unwrapped ---------------------------------------------------------------------

  /** With a derived key, only the AES primitive can still refuse a wrap, for the content key's sake. */
  lemma WrapsExactly(lib: Library, cek: Bytes, apu: Bytes, apv: Bytes, tag: Bytes, sender: Option<PrivateHandle>,
                     rec: PublicKey, epk: EphemeralOption, useXC20PKW: bool, e: Entropy)
    requires lib.CurvesValid() && lib.LengthsValid()
    ensures var d := DeriveKEK(lib, |cek|, apu, apv, tag, sender, rec, epk, useXC20PKW, e);
            DeriveKEKAndWrap(lib, cek, apu, apv, tag, sender, rec, epk, useXC20PKW, e).Some? <==>
            d.Some? && (useXC20PKW || lib.aesWrap(d.value.kek, cek).Some?)
  {
    if DeriveKEK(lib, |cek|, apu, apv, tag, sender, rec, epk, useXC20PKW, e).Some? {
      KEKFitsPrimitive(lib, |cek|, apu, apv, tag, sender, rec, epk, useXC20PKW, e);
    }
    hide DeriveKEK;
  }

  lemma UnwrapKEKLength(lib: Library, alg: string, apu: Bytes, apv: Bytes, tag: Bytes, epk: PublicKey,
                        sender: Option<PublicHandle>, rec: PrivateHandle)
    requires lib.CurvesValid() && lib.LengthsValid()
    requires DeriveKEKForUnwrap(lib, alg, apu, apv, tag, epk, sender, rec).Some?
    ensures LegalKEK(DeriveKEKForUnwrap(lib, alg, apu, apv, tag, epk, sender, rec).value, AlgUsesXC20P(alg))
  {
    hide DeriveECDH, X25519, FromBytes, KdfContext, ToECPublic, Copy32;
  }

  /** With a derived key, what travelled is opened behind its nonce of 24 bytes, or unwrapped by AES; that one primitive,
      and too short an input, are all that can still refuse it. */
  lemma UnwrappedIs(lib: Library, w: Wrapped, tag: Bytes, sender: Option<PublicHandle>, rec: PrivateHandle)
    requires lib.CurvesValid() && lib.LengthsValid()
    ensures var kek := DeriveKEKForUnwrap(lib, w.alg, w.apu, w.apv, tag, w.epk, sender, rec);
            DeriveKEKAndUnwrap(lib, w, tag, sender, rec) ==
            if kek.None? then None
            else if w.alg !in {"ECDH-ES+XC20PKW", "ECDH-1PU+XC20PKW"} then lib.aesUnwrap(kek.value, w.encryptedCEK)
            else if |w.encryptedCEK| < 24 then None
            else lib.open(kek.value, w.encryptedCEK[..24], w.encryptedCEK[24..])
  {
    if DeriveKEKForUnwrap(lib, w.alg, w.apu, w.apv, tag, w.epk, sender, rec).Some? {
      UnwrapKEKLength(lib, w.alg, w.apu, w.apv, tag, w.epk, sender, rec);
      UnwrapsExactly(lib, w.alg, w.apu, w.apv, tag, w.epk, sender, rec);
    }
    hide DeriveKEKForUnwrap;
  }
}
