/**
 * CRC-8 with polynomial x^8 + x^2 + x + 1 (0x07), initial register 0x00, bits taken
 * most significant first, no reflection and no final XOR: the Packet Error Checking
 * code of the System Management Bus (catalogue name CRC-8/SMBUS, check value 0xF4).
 */
module Crc8Calc {
  import opened Bytes

  /** Initial register value. */
  const Init: byte := 0x00

  /** Generator polynomial without its x^8 term. */
  const Poly: byte := 0x07

  // ---------------------------------------------------------------------------
  // Specification
  // ---------------------------------------------------------------------------

  /**
   * One bit of polynomial division: shift left, and subtract the polynomial if bit 7
   * fell out. Bit 0 of the result records whether the polynomial was subtracted.
   */
  function Shift(crc: byte): (r: byte)
    ensures r & 1 == 1 <==> crc & 0x80 != 0
  {
    if crc & 0x80 != 0 then (crc << 1) ^ Poly else crc << 1
  }

  /** `n` bit steps of the register. */
  function Shifts(crc: byte, n: nat): byte
  {
    if n == 0 then crc else Shift(Shifts(crc, n - 1))
  }

  /**
   * One byte: XOR it into the register, then eight bit steps. The register is cleared
   * exactly when the byte equals it.
   */
  function Step(crc: byte, b: byte): (r: byte)
    ensures r == 0 <==> crc == b
  {
    ShiftsZero(8);
    ShiftsInjective(crc ^ b, 0, 8);
    XorSelf(b);
    XorRightInjective(crc, b, b);
    Shifts(crc ^ b, 8)
  }

  /** The register after feeding `data`, one byte after another, into a register holding `crc`. */
  function CrcFrom(crc: byte, data: seq<byte>): byte
  {
    if data == [] then crc else Step(CrcFrom(crc, data[..|data| - 1]), data[|data| - 1])
  }

  /**
   * The CRC-8/SMBUS checksum of `data`: the byte that, appended to `data`, brings the
   * register back to zero.
   */
  function Crc8(data: seq<byte>): (r: byte)
    ensures CrcFrom(Init, data + [r]) == 0
  {
    var r := CrcFrom(Init, data);
    assert (data + [r])[..|data|] == data;
    r
  }

  // ---------------------------------------------------------------------------
  // The firmware's loops
  // ---------------------------------------------------------------------------

  /** The checksum as the firmware computes it: a byte loop around a bit loop. */
  method ComputeCrc8(data: seq<byte>) returns (crc: byte)
    ensures crc == Crc8(data)
  {
    crc := Init;
    var i := 0;
    while i < |data|
      invariant 0 <= i <= |data|
      invariant crc == CrcFrom(Init, data[..i])
    {
      crc := crc ^ data[i];
      ghost var start := crc;
      var bit := 0;
      while bit < 8
        invariant 0 <= bit <= 8
        invariant crc == Shifts(start, bit)
      {
        if crc & 0x80 != 0 {
          crc := (crc << 1) ^ Poly;
        } else {
          crc := crc << 1;
        }
        bit := bit + 1;
      }
      assert data[..i + 1][..i] == data[..i];
      i := i + 1;
    }
    assert data[..i] == data;
  }

  // ---------------------------------------------------------------------------
  // Bit-level facts about bytes
  // ---------------------------------------------------------------------------

  lemma XorSelf(x: byte)
    ensures x ^ x == 0
  {
  }

  lemma XorShl(a: byte, b: byte)
    ensures (a ^ b) << 1 == (a << 1) ^ (b << 1)
  {
  }

  lemma XorTop(a: byte, b: byte)
    ensures (a ^ b) & 0x80 == (a & 0x80) ^ (b & 0x80)
  {
  }

  lemma TopBit(a: byte)
    ensures a & 0x80 == 0 || a & 0x80 == 0x80
  {
  }

  lemma XorCancel(x: byte, y: byte, p: byte)
    ensures (x ^ p) ^ (y ^ p) == x ^ y
  {
  }

  lemma XorMix(x: byte, y: byte, p: byte)
    ensures (x ^ y) ^ p == (x ^ p) ^ y
    ensures (x ^ y) ^ p == x ^ (y ^ p)
  {
  }

  lemma XorSwap(c: byte, d: byte, x: byte, y: byte)
    ensures (c ^ d) ^ (x ^ y) == (c ^ x) ^ (d ^ y)
  {
  }

  lemma XorRightInjective(x: byte, y: byte, p: byte)
    ensures x ^ p == y ^ p ==> x == y
  {
  }

  lemma XorErrorDiffers(c: byte, x: byte, e: byte)
    requires e != 0
    ensures c ^ x != c ^ (x ^ e)
  {
  }

  /** Shifting left loses only bit 7. */
  lemma ShlInjective(a: byte, b: byte)
    ensures a & 0x80 == b & 0x80 && a << 1 == b << 1 ==> a == b
  {
  }

  /** After XOR-ing the polynomial bit 0 is set; after a plain shift it is clear. */
  lemma LowBitDiffers(a: byte, b: byte)
    ensures (a << 1) ^ Poly != b << 1
  {
  }

  // ---------------------------------------------------------------------------
  // Properties
  // ---------------------------------------------------------------------------

  /** The checksum of no bytes is the initial value 0x00. */
  lemma EmptyCrc()
    ensures Crc8([]) == 0x00
  {
  }

  /** Feeding `a` and then `b` is feeding `a + b`: the checksum is a fold over the bytes. */
  lemma {:induction false} CrcAppend(crc: byte, a: seq<byte>, b: seq<byte>)
    ensures CrcFrom(crc, a + b) == CrcFrom(CrcFrom(crc, a), b)
    decreases |b|
  {
    if b == [] {
      assert a + b == a;
    } else {
      var b' := b[..|b| - 1];
      assert (a + b)[..|a + b| - 1] == a + b';
      CrcAppend(crc, a, b');
    }
  }

  /** The checksum of `m` extended by one byte is one more step from the checksum of `m`. */
  lemma CrcSnoc(m: seq<byte>, b: byte)
    ensures Crc8(m + [b]) == Step(Crc8(m), b)
  {
    assert (m + [b])[..|m|] == m;
  }

  lemma {:induction false} ShiftsZero(n: nat)
    ensures Shifts(0, n) == 0
  {
    if n > 0 {
      ShiftsZero(n - 1);
    }
  }

  /** A bit step is linear over XOR. */
  lemma ShiftXor(a: byte, b: byte)
    ensures Shift(a ^ b) == Shift(a) ^ Shift(b)
  {
    XorShl(a, b);
    XorTop(a, b);
    TopBit(a);
    TopBit(b);
    if a & 0x80 != 0 && b & 0x80 != 0 {
      XorCancel(a << 1, b << 1, Poly);
    } else if a & 0x80 != 0 || b & 0x80 != 0 {
      XorMix(a << 1, b << 1, Poly);
    }
  }

  lemma {:induction false} ShiftsXor(a: byte, b: byte, n: nat)
    ensures Shifts(a ^ b, n) == Shifts(a, n) ^ Shifts(b, n)
  {
    if n > 0 {
      ShiftsXor(a, b, n - 1);
      ShiftXor(Shifts(a, n - 1), Shifts(b, n - 1));
    }
  }

  /** A byte step is linear over XOR, in the register and the byte together. */
  lemma StepXor(c: byte, d: byte, x: byte, y: byte)
    ensures Step(c ^ d, x ^ y) == Step(c, x) ^ Step(d, y)
  {
    var u, v := c ^ x, d ^ y;
    XorSwap(c, d, x, y);
    assert (c ^ d) ^ (x ^ y) == u ^ v;
    ShiftsXor(u, v, 8);
  }

  /** `x` is the bytewise XOR of the equally long `a` and `b`. */
  predicate IsXor(a: seq<byte>, b: seq<byte>, x: seq<byte>)
  {
    |a| == |b| == |x| && forall i :: 0 <= i < |x| ==> x[i] == a[i] ^ b[i]
  }

  /** A left fold of an arbitrary register update `f`; `CrcFrom` is the fold of `Step`. */
  function FoldWith(f: (byte, byte) -> byte, crc: byte, data: seq<byte>): byte
  {
    if data == [] then crc else f(FoldWith(f, crc, data[..|data| - 1]), data[|data| - 1])
  }

  /** `f` is XOR-linear at one point. */
  predicate LinearAt(f: (byte, byte) -> byte, c: byte, d: byte, x: byte, y: byte)
  {
    f(c ^ d, x ^ y) == f(c, x) ^ f(d, y)
  }

  /** `f` is XOR-linear in the register and the byte together. */
  ghost predicate Linear(f: (byte, byte) -> byte)
  {
    forall c: byte, d: byte, x: byte, y: byte :: LinearAt(f, c, d, x, y)
  }

  lemma ApplyLinear(f: (byte, byte) -> byte, p: byte, q: byte, u: byte, v: byte)
    requires Linear(f)
    ensures f(p ^ q, u ^ v) == f(p, u) ^ f(q, v)
  {
    assert LinearAt(f, p, q, u, v);
  }

  lemma PrefixXor(a: seq<byte>, b: seq<byte>, x: seq<byte>, n: nat)
    requires IsXor(a, b, x) && n < |x|
    ensures IsXor(a[..n], b[..n], x[..n]) && x[n] == a[n] ^ b[n]
  {
  }

  /** The inductive step of `FoldXor`, with every fact it combines named. */
  lemma FoldXorStep(f: (byte, byte) -> byte, c: byte, d: byte, a: seq<byte>, b: seq<byte>, x: seq<byte>,
                    n: nat, p: byte, q: byte, u: byte, v: byte)
    requires |a| == |b| == |x| == n + 1
    requires a[n] == u && b[n] == v && x[n] == u ^ v
    requires p == FoldWith(f, c, a[..n]) && q == FoldWith(f, d, b[..n])
    requires FoldWith(f, c ^ d, x[..n]) == p ^ q
    requires f(p ^ q, u ^ v) == f(p, u) ^ f(q, v)
    ensures FoldWith(f, c ^ d, x) == FoldWith(f, c, a) ^ FoldWith(f, d, b)
  {
  }

  /** Folding a linear update over the XOR of two inputs XORs the two folds. */
  lemma {:induction false} FoldXor(f: (byte, byte) -> byte, c: byte, d: byte, a: seq<byte>, b: seq<byte>, x: seq<byte>)
    requires Linear(f)
    requires IsXor(a, b, x)
    ensures FoldWith(f, c ^ d, x) == FoldWith(f, c, a) ^ FoldWith(f, d, b)
    decreases |x|
  {
    if x != [] {
      var n := |x| - 1;
      PrefixXor(a, b, x, n);
      FoldXor(f, c, d, a[..n], b[..n], x[..n]);
      var p, q, u, v := FoldWith(f, c, a[..n]), FoldWith(f, d, b[..n]), a[n], b[n];
      ApplyLinear(f, p, q, u, v);
      FoldXorStep(f, c, d, a, b, x, n, p, q, u, v);
    }
  }

  lemma StepLinear()
    ensures Linear(Step)
  {
    forall c: byte, d: byte, x: byte, y: byte ensures LinearAt(Step, c, d, x, y) {
      StepXor(c, d, x, y);
    }
  }

  lemma {:induction false} CrcFromIsFold(c: byte, data: seq<byte>)
    ensures CrcFrom(c, data) == FoldWith(Step, c, data)
    decreases |data|
  {
    if data != [] {
      CrcFromIsFold(c, data[..|data| - 1]);
    }
  }

  /** The register update is linear: XOR-ing two inputs and two start registers XORs the results. */
  lemma CrcFromXor(c: byte, d: byte, a: seq<byte>, b: seq<byte>, x: seq<byte>)
    requires IsXor(a, b, x)
    ensures CrcFrom(c ^ d, x) == CrcFrom(c, a) ^ CrcFrom(d, b)
  {
    StepLinear();
    FoldXor(Step, c, d, a, b, x);
    CrcFromIsFold(c ^ d, x);
    CrcFromIsFold(c, a);
    CrcFromIsFold(d, b);
  }

  /** For inputs of equal length the checksum is XOR-linear, since init is 0 and there is no final XOR. */
  lemma Crc8Xor(a: seq<byte>, b: seq<byte>, x: seq<byte>)
    requires IsXor(a, b, x)
    ensures Crc8(x) == Crc8(a) ^ Crc8(b)
  {
    CrcFromXor(Init, Init, a, b, x);
  }

  /** A bit step loses no information. */
  lemma ShiftInjective(a: byte, b: byte)
    ensures Shift(a) == Shift(b) ==> a == b
  {
    TopBit(a);
    TopBit(b);
    if a & 0x80 != 0 && b & 0x80 != 0 {
      XorRightInjective(a << 1, b << 1, Poly);
      ShlInjective(a, b);
    } else if a & 0x80 != 0 {
      LowBitDiffers(a, b);
    } else if b & 0x80 != 0 {
      LowBitDiffers(b, a);
    } else {
      ShlInjective(a, b);
    }
  }

  lemma {:induction false} ShiftsInjective(a: byte, b: byte, n: nat)
    ensures Shifts(a, n) == Shifts(b, n) ==> a == b
  {
    if n > 0 {
      ShiftInjective(Shifts(a, n - 1), Shifts(b, n - 1));
      ShiftsInjective(a, b, n - 1);
    }
  }

  /** A byte step loses no information about the register. */
  lemma StepInjective(c: byte, d: byte, x: byte)
    ensures Step(c, x) == Step(d, x) ==> c == d
  {
    ShiftsInjective(c ^ x, d ^ x, 8);
    XorRightInjective(c, d, x);
  }

  /** Two different registers stay different whatever bytes are fed to both. */
  lemma {:induction false} CrcFromInjective(c: byte, d: byte, q: seq<byte>)
    ensures CrcFrom(c, q) == CrcFrom(d, q) ==> c == d
    decreases |q|
  {
    if q != [] {
      var n := |q| - 1;
      StepInjective(CrcFrom(c, q[..n]), CrcFrom(d, q[..n]), q[n]);
      CrcFromInjective(c, d, q[..n]);
    }
  }

  /** Any error pattern confined to one byte changes the checksum, so the receiver detects it. */
  lemma SingleByteError(m: seq<byte>, i: nat, e: byte)
    requires i < |m| && e != 0
    ensures Crc8(m[i := m[i] ^ e]) != Crc8(m)
  {
    var m' := m[i := m[i] ^ e];
    var p, q := m[..i], m[i + 1..];
    assert m == p + [m[i]] + q;
    assert m' == p + [m'[i]] + q;
    CrcAppend(Init, p + [m[i]], q);
    CrcAppend(Init, p + [m'[i]], q);
    CrcSnoc(p, m[i]);
    CrcSnoc(p, m'[i]);
    ByteErrorStep(Crc8(p), m[i], e);
    CrcFromInjective(Step(Crc8(p), m[i]), Step(Crc8(p), m'[i]), q);
  }

  /** One step from the same register tells a byte from the same byte with an error. */
  lemma ByteErrorStep(c: byte, x: byte, e: byte)
    requires e != 0
    ensures Step(c, x) != Step(c, x ^ e)
  {
    ShiftsInjective(c ^ x, c ^ (x ^ e), 8);
    XorErrorDiffers(c, x, e);
  }

  /** The one-bit masks 1 << j for j in 0..7. */
  const BitMask: seq<byte> := [0x01, 0x02, 0x04, 0x08, 0x10, 0x20, 0x40, 0x80]

  /** Flipping any single bit of a message changes its checksum. */
  lemma SingleBitError(m: seq<byte>, i: nat, j: nat)
    requires i < |m| && j < 8
    ensures Crc8(m[i := m[i] ^ BitMask[j]]) != Crc8(m)
  {
    SingleByteError(m, i, BitMask[j]);
  }

  /** The checksum of a prefix one byte longer is one more step. */
  lemma CrcPrefix(s: seq<byte>, k: nat)
    requires k < |s|
    ensures Crc8(s[..k + 1]) == Step(Crc8(s[..k]), s[k])
  {
    assert s[..k + 1] == s[..k] + [s[k]];
    CrcSnoc(s[..k], s[k]);
  }

  /** The catalogue's check input, ASCII "123456789". */
  const CheckInput: seq<byte> := [0x31, 0x32, 0x33, 0x34, 0x35, 0x36, 0x37, 0x38, 0x39]

  /** Three register steps over bytes `k`, `k + 1` and `k + 2` of `s`, given their values. */
  lemma CrcThree(s: seq<byte>, k: nat, r0: byte, r1: byte, r2: byte, r3: byte)
    requires k + 3 <= |s| && Crc8(s[..k]) == r0
    requires Step(r0, s[k]) == r1 && Step(r1, s[k + 1]) == r2 && Step(r2, s[k + 2]) == r3
    ensures Crc8(s[..k + 3]) == r3
  {
    CrcPrefix(s, k);
    CrcPrefix(s, k + 1);
    CrcPrefix(s, k + 2);
  }

  /** The register steps over the first three bytes of the check input. */
  lemma CheckSteps1()
    ensures Step(0x00, 0x31) == 0x97 && Step(0x97, 0x32) == 0x72 && Step(0x72, 0x33) == 0xC0
  {
  }

  /** The register steps over the next three bytes. */
  lemma CheckSteps2()
    ensures Step(0xC0, 0x34) == 0xC2 && Step(0xC2, 0x35) == 0xCB && Step(0xCB, 0x36) == 0xFD
  {
  }

  /** The register steps over the last three bytes. */
  lemma CheckSteps3()
    ensures Step(0xFD, 0x37) == 0x78 && Step(0x78, 0x38) == 0xC7 && Step(0xC7, 0x39) == 0xF4
  {
  }

  /** The catalogue check value: the checksum of ASCII "123456789" is 0xF4. */
  lemma CheckValue()
    ensures Crc8(CheckInput) == 0xF4
  {
    var s := CheckInput;
    assert s[..0] == [];
    CheckSteps1();
    CrcThree(s, 0, 0x00, 0x97, 0x72, 0xC0);
    CheckSteps2();
    CrcThree(s, 3, 0xC0, 0xC2, 0xCB, 0xFD);
    CheckSteps3();
    CrcThree(s, 6, 0xFD, 0x78, 0xC7, 0xF4);
    assert s[..9] == s;
  }
}
