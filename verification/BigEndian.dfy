/** Big-endian numbers: minimal byte strings, padding to a fixed width, and the widths of primes. */
module BigEndian {
  import opened Spi

  function FromBytes(b: Bytes): nat {
    if b == [] then 0 else 256 * FromBytes(b[..|b| - 1]) + b[|b| - 1] as nat
  }

  /** The shortest byte string with the value: no leading zero bytes, and nothing at all for zero. */
  function ToBytes(n: nat): Bytes {
    if n == 0 then [] else ToBytes(n / 256) + [(n % 256) as byte]
  }

  lemma {:induction false} RoundTrip(n: nat)
    ensures FromBytes(ToBytes(n)) == n
  {
    if n != 0 {
      RoundTrip(n / 256);
      var b := ToBytes(n);
      assert b[..|b| - 1] == ToBytes(n / 256);
    }
  }

  function Zeros(k: nat): (z: Bytes)
    ensures |z| == k && forall i | 0 <= i < k :: z[i] == 0
  {
    seq(k, _ => 0)
  }

  lemma {:induction false} LeadingZeros(k: nat, b: Bytes)
    ensures FromBytes(Zeros(k) + b) == FromBytes(b)
    decreases k + |b|
  {
    var all := Zeros(k) + b;
    if b != [] {
      assert all[..|all| - 1] == Zeros(k) + b[..|b| - 1];
      LeadingZeros(k, b[..|b| - 1]);
    } else if k != 0 {
      assert all[..|all| - 1] == Zeros(k - 1) + b;
      LeadingZeros(k - 1, b);
    }
  }

  function BitLen(n: nat): nat {
    if n == 0 then 0 else 1 + BitLen(n / 2)
  }

  /** The octets that a coordinate below `p` takes: the bit length of `p`, rounded up to whole bytes. */
  function DSize(p: nat): nat {
    var bits := BitLen(p);
    if bits % 8 != 0 then bits / 8 + 1 else bits / 8
  }

  lemma {:induction false} BitLenMonotone(a: nat, b: nat)
    requires a <= b
    ensures BitLen(a) <= BitLen(b)
  {
    if a != 0 {
      BitLenMonotone(a / 2, b / 2);
    }
  }

  lemma BitLenShift(n: nat)
    requires n >= 256
    ensures BitLen(n) == 8 + BitLen(n / 256)
  {
    var a := n / 2;
    var b := a / 2;
    var c := b / 2;
    var d := c / 2;
    var e := d / 2;
    var f := e / 2;
    var g := f / 2;
    assert BitLen(n) == 1 + BitLen(a) && BitLen(a) == 1 + BitLen(b) && BitLen(b) == 1 + BitLen(c);
    assert BitLen(c) == 1 + BitLen(d) && BitLen(d) == 1 + BitLen(e) && BitLen(e) == 1 + BitLen(f);
    assert BitLen(f) == 1 + BitLen(g) && BitLen(g) == 1 + BitLen(g / 2);
    assert g / 2 == n / 256;
  }

  lemma SmallBitLen(n: nat)
    requires 0 < n < 256
    ensures 1 <= BitLen(n) <= 8
  {
    BitLenMonotone(1, n);
    BitLenMonotone(n, 255);
    assert BitLen(1) == 1;
    assert BitLen(255) == 1 + BitLen(127) && BitLen(127) == 1 + BitLen(63) && BitLen(63) == 1 + BitLen(31);
    assert BitLen(31) == 1 + BitLen(15) && BitLen(15) == 1 + BitLen(7) && BitLen(7) == 1 + BitLen(3);
    assert BitLen(3) == 1 + BitLen(1);
  }

  lemma {:induction false} ToBytesWidth(n: nat)
    ensures |ToBytes(n)| == DSize(n)
  {
    if 0 < n < 256 {
      SmallBitLen(n);
      assert ToBytes(n) == ToBytes(0) + [(n % 256) as byte];
    } else if n != 0 {
      ToBytesWidth(n / 256);
      BitLenShift(n);
    }
  }

  /** What deriveECDH does to a coordinate: the stripped bytes get their leading zeros back. */
  function PadTo(b: Bytes, size: nat): Bytes {
    if |b| < size then Zeros(size - |b|) + b else b
  }

  lemma PadKeepsValue(b: Bytes, size: nat)
    ensures FromBytes(PadTo(b, size)) == FromBytes(b)
    ensures |b| <= size ==> |PadTo(b, size)| == size
  {
    if |b| < size {
      LeadingZeros(size - |b|, b);
    }
  }

  /** Padding a coordinate below `p` gives exactly `DSize(p)` bytes with the same value. */
  lemma PaddedCoordinate(z: nat, p: nat)
    requires z < p
    ensures |PadTo(ToBytes(z), DSize(p))| == DSize(p)
    ensures FromBytes(PadTo(ToBytes(z), DSize(p))) == z
  {
    ToBytesWidth(z);
    BitLenMonotone(z, p);
    PadKeepsValue(ToBytes(z), DSize(p));
    RoundTrip(z);
  }

  // ----- four-byte lengths --------------------------------------------------------------------------

  /** binary.BigEndian.PutUint32 of a truncated value. */
  function Uint32(n: nat): Bytes {
    var m := n % 0x1_0000_0000;
    [(m / 0x100_0000) as byte, (m / 0x1_0000 % 256) as byte, (m / 256 % 256) as byte, (m % 256) as byte]
  }

  lemma FourBytes(w: byte, x: byte, y: byte, z: byte)
    ensures FromBytes([w, x, y, z]) == ((w as nat * 256 + x as nat) * 256 + y as nat) * 256 + z as nat
  {
    assert [w, x, y, z][..3] == [w, x, y] && [w, x, y][..2] == [w, x] && [w, x][..1] == [w] && [w][..0] == [];
    assert FromBytes([w]) == w as nat;
    assert FromBytes([w, x]) == 256 * w as nat + x as nat;
    assert FromBytes([w, x, y]) == 256 * FromBytes([w, x]) + y as nat;
  }

  lemma Quarters(n: nat)
    requires n < 0x1_0000_0000
    ensures n / 0x100_0000 < 256
    ensures ((n / 0x100_0000 * 256 + n / 0x1_0000 % 256) * 256 + n / 256 % 256) * 256 + n % 256 == n
  {
    assert n / 0x1_0000 == 256 * (n / 0x100_0000) + n / 0x1_0000 % 256;
    assert n / 256 == 256 * (n / 0x1_0000) + n / 256 % 256;
  }

  lemma Uint32Digits(n: nat)
    requires n < 0x1_0000_0000
    ensures Uint32(n)[0] as nat == n / 0x100_0000 && Uint32(n)[1] as nat == n / 0x1_0000 % 256
    ensures Uint32(n)[2] as nat == n / 256 % 256 && Uint32(n)[3] as nat == n % 256
  {
  }

  lemma Uint32Value(n: nat)
    requires n < 0x1_0000_0000
    ensures |Uint32(n)| == 4 && FromBytes(Uint32(n)) == n
  {
    var u := Uint32(n);
    assert |u| == 4;
    hide FromBytes, Uint32;
    Uint32Digits(n);
    Quarters(n);
    FourBytes(u[0], u[1], u[2], u[3]);
    assert u == [u[0], u[1], u[2], u[3]];
  }

  function LengthPrefix(b: Bytes): Bytes {
    Uint32(|b|) + b
  }

  /** Reads a number of four octets, the first of them the highest, and says what is left. */
  function ReadUint32(b: Bytes): Option<(nat, Bytes)> {
    if |b| < 4 then None
    else Some((((b[0] as nat * 256 + b[1] as nat) * 256 + b[2] as nat) * 256 + b[3] as nat, b[4..]))
  }

  /** Reads an array behind its length, and says what is left. */
  function ReadField(b: Bytes): Option<(Bytes, Bytes)> {
    var length := ReadUint32(b);
    if length.None? || |length.value.1| < length.value.0 then None
    else Some((length.value.1[..length.value.0], length.value.1[length.value.0..]))
  }

  lemma Uint32Reads(n: nat, rest: Bytes)
    requires n < 0x1_0000_0000
    ensures ReadUint32(Uint32(n) + rest) == Some((n, rest))
  {
    var u := Uint32(n);
    Uint32Value(n);
    FourBytes(u[0], u[1], u[2], u[3]);
    assert u == [u[0], u[1], u[2], u[3]];
    assert (u + rest)[4..] == rest;
  }

  /** A length prefix tells a reader where the array ends, whatever follows. */
  lemma FieldReads(b: Bytes, rest: Bytes)
    requires |b| < 0x1_0000_0000
    ensures ReadField(LengthPrefix(b) + rest) == Some((b, rest))
  {
    Uint32Reads(|b|, b + rest);
    hide Uint32, ReadUint32;
    assert LengthPrefix(b) + rest == Uint32(|b|) + (b + rest);
    assert (b + rest)[..|b|] == b && (b + rest)[|b|..] == rest;
  }
}
