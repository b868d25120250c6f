/** The SHT4x CRC-8 (section 4.4 of the SHT4x datasheet): polynomial 0x31,
    initial register 0xFF, no reflection and no final XOR, the parameter set
    also catalogued as CRC-8/NRSC-5.

    `Crc` is the functional definition; `Crc8` is the source's nested loop
    over a three-byte array, proved equal to it. */
module Crc {
  import opened Bytes
  import opened Wrappers

  const Polynomial: Byte := 0x31
  const Initial: Byte := 0xFF

  /** Two data bytes followed by the CRC byte the sensor sent for them. */
  type Triple = s: seq<Byte> | |s| == 3 witness [0, 0, 0]

  predicate TopBitSet(b: Byte) {
    b & 0x80 == 0x80
  }

  /** One step of the shift register: shift left, and XOR in the polynomial
      when the bit shifted out (the implicit x^8 term) was set. */
  function ShiftStep(reg: Byte): Byte {
    if TopBitSet(reg) then (reg << 1) ^ Polynomial else reg << 1
  }

  /** `n` shift steps. */
  function Shifts(reg: Byte, n: nat): Byte
    decreases n
  {
    if n == 0 then reg else Shifts(ShiftStep(reg), n - 1)
  }

  /** XOR one byte into the register, then run the eight shift steps. */
  function Absorb(reg: Byte, b: Byte): Byte {
    Shifts(reg ^ b, 8)
  }

  /** The register after absorbing `bytes` from left to right. */
  function Register(reg: Byte, bytes: seq<Byte>): Byte
    decreases |bytes|
  {
    if bytes == [] then reg else Register(Absorb(reg, bytes[0]), bytes[1..])
  }

  /** The CRC of a byte sequence: the register started at `Initial`. */
  function Crc(bytes: seq<Byte>): Byte {
    Register(Initial, bytes)
  }

  /** `crc8` over `[u8; 3]`: the register is XORed with each byte in turn,
      then shifted eight times. */
  method Crc8(bytes: Triple) returns (crc: Byte)
    ensures crc == Crc(bytes)
  {
    crc := Initial;
    for i := 0 to 3
      invariant Register(crc, bytes[i..]) == Crc(bytes)
    {
      ghost var absorbed := Absorb(crc, bytes[i]);
      assert bytes[i..][1..] == bytes[i + 1..];
      crc := crc ^ bytes[i];
      for j := 0 to 8
        invariant Shifts(crc, 8 - j) == absorbed
      {
        if TopBitSet(crc) {
          crc := crc << 1;
          crc := crc ^ Polynomial;
        } else {
          crc := crc << 1;
        }
      }
    }
    assert bytes[3..] == [];
  }

  /** `validate_crc`: success exactly when the CRC byte is the checksum of
      the two data bytes; otherwise the error carries the non-zero CRC
      computed over all three bytes. */
  function ValidateCrc(bytes: Triple): (r: Result<(), Byte>)
    ensures r.Ok? <==> bytes[2] == Crc(bytes[..2])
    ensures r.Ok? <==> Crc(bytes) == 0
    ensures r.Err? ==> r.error == Crc(bytes) && r.error != 0
  {
    assert bytes == bytes[..2] + [bytes[2]];
    ZeroIffCheckByte(bytes[..2], bytes[2]);
    var c := Crc(bytes);
    if c == 0 then Ok(()) else Err(c)
  }

  // ---------------------------------------------------------------------
  // Properties of the shift register

  /** A shift step sends only 0 to 0. */
  lemma ShiftStepZero(reg: Byte)
    ensures ShiftStep(reg) == 0 <==> reg == 0
  {
  }

  /** A shift step is a bijection on bytes: the low bit of the result tells
      whether the polynomial was applied, and then the step can be undone. */
  lemma ShiftStepInjective(a: Byte, b: Byte)
    requires ShiftStep(a) == ShiftStep(b)
    ensures a == b
  {
  }

  /** Any number of shift steps sends only 0 to 0. */
  lemma {:induction false} ShiftsZero(reg: Byte, n: nat)
    ensures Shifts(reg, n) == 0 <==> reg == 0
    decreases n
  {
    if n > 0 {
      ShiftStepZero(reg);
      ShiftsZero(ShiftStep(reg), n - 1);
    }
  }

  lemma {:induction false} ShiftsInjective(a: Byte, b: Byte, n: nat)
    requires Shifts(a, n) == Shifts(b, n)
    ensures a == b
    decreases n
  {
    if n > 0 {
      ShiftsInjective(ShiftStep(a), ShiftStep(b), n - 1);
      ShiftStepInjective(a, b);
    }
  }

  /** Absorbing a byte is injective in the register and in the byte. */
  lemma AbsorbInjective(r1: Byte, b1: Byte, r2: Byte, b2: Byte)
    requires Absorb(r1, b1) == Absorb(r2, b2)
    ensures r1 == r2 ==> b1 == b2
    ensures b1 == b2 ==> r1 == r2
  {
    ShiftsInjective(r1 ^ b1, r2 ^ b2, 8);
    XorCancel(r1, b1, r2, b2);
  }

  lemma XorCancel(r1: Byte, b1: Byte, r2: Byte, b2: Byte)
    requires r1 ^ b1 == r2 ^ b2
    ensures r1 == r2 ==> b1 == b2
    ensures b1 == b2 ==> r1 == r2
  {
    assert r1 ^ b1 ^ r1 == b1;
    assert r2 ^ b2 ^ r2 == b2;
    assert r1 ^ b1 ^ b1 == r1;
    assert r2 ^ b2 ^ b2 == r2;
  }

  /** The eight shift steps of `Absorb`, written out. */
  lemma ShiftsEight(x: Byte)
    ensures Shifts(x, 8)
         == ShiftStep(ShiftStep(ShiftStep(ShiftStep(ShiftStep(ShiftStep(ShiftStep(ShiftStep(x))))))))
  {
  }

  // ---------------------------------------------------------------------
  // Properties of the fold

  /** The fold runs left to right: absorbing `xs + [b]` is absorbing `b`
      into the register left by `xs`. */
  lemma {:induction false} RegisterSnoc(reg: Byte, xs: seq<Byte>, b: Byte)
    ensures Register(reg, xs + [b]) == Absorb(Register(reg, xs), b)
    decreases |xs|
  {
    if xs == [] {
      assert ([] + [b])[1..] == [];
    } else {
      assert (xs + [b])[1..] == xs[1..] + [b];
      RegisterSnoc(Absorb(reg, xs[0]), xs[1..], b);
    }
  }

  /** Absorbing a concatenation is absorbing one part after the other. */
  lemma {:induction false} RegisterAppend(reg: Byte, xs: seq<Byte>, ys: seq<Byte>)
    ensures Register(reg, xs + ys) == Register(Register(reg, xs), ys)
    decreases |xs|
  {
    if xs == [] {
      assert [] + ys == ys;
    } else {
      assert (xs + ys)[1..] == xs[1..] + ys;
      RegisterAppend(Absorb(reg, xs[0]), xs[1..], ys);
    }
  }

  /** Whatever bytes follow, different registers stay different. */
  lemma {:induction false} RegisterInjective(r1: Byte, r2: Byte, bytes: seq<Byte>)
    requires Register(r1, bytes) == Register(r2, bytes)
    ensures r1 == r2
    decreases |bytes|
  {
    if bytes != [] {
      RegisterInjective(Absorb(r1, bytes[0]), Absorb(r2, bytes[0]), bytes[1..]);
      AbsorbInjective(r1, bytes[0], r2, bytes[0]);
    }
  }

  /** The CRC of the empty sequence is the initial value. */
  lemma CrcEmpty()
    ensures Crc([]) == Initial && Crc([]) == 0xFF
  {
  }

  /** Appending a sequence's own CRC zeroes the register. */
  lemma AppendOwnCrc(xs: seq<Byte>)
    ensures Crc(xs + [Crc(xs)]) == 0
  {
    RegisterSnoc(Initial, xs, Crc(xs));
    ShiftsZero(Crc(xs) ^ Crc(xs), 8);
  }

  /** The running CRC over `xs + [c]` is 0 exactly when `c` is the CRC of
      `xs`; this is why the sensor's check byte validates its data. */
  lemma ZeroIffCheckByte(xs: seq<Byte>, c: Byte)
    ensures Crc(xs + [c]) == 0 <==> c == Crc(xs)
  {
    RegisterSnoc(Initial, xs, c);
    ShiftsZero(Crc(xs) ^ c, 8);
  }

  /** Changing any single byte, anywhere in a sequence, changes its CRC. */
  lemma SingleByteChangeDetected(prefix: seq<Byte>, x: Byte, y: Byte, suffix: seq<Byte>)
    requires x != y
    ensures Crc(prefix + [x] + suffix) != Crc(prefix + [y] + suffix)
  {
    RegisterAppend(Initial, prefix + [x], suffix);
    RegisterAppend(Initial, prefix + [y], suffix);
    RegisterSnoc(Initial, prefix, x);
    RegisterSnoc(Initial, prefix, y);
    if Crc(prefix + [x] + suffix) == Crc(prefix + [y] + suffix) {
      RegisterInjective(Crc(prefix + [x]), Crc(prefix + [y]), suffix);
      AbsorbInjective(Crc(prefix), x, Crc(prefix), y);
    }
  }

  // ---------------------------------------------------------------------
  // The test vectors of crc.rs

  /** Two zero bytes followed by their CRC, 0x81, validate. */
  lemma ZeroPairVector()
    ensures Crc([0x00, 0x00, 0x81]) == 0
  {
    ShiftsEight(0xFF);
    ShiftsEight(0xAC);
    ShiftsEight(0x00);
    assert Absorb(0xFF, 0x00) == 0xAC;
    assert Absorb(0xAC, 0x00) == 0x81;
    assert Absorb(0x81, 0x81) == 0x00;
  }

  /** The datasheet example: 0xBEEF has CRC 0x92. */
  lemma DatasheetVector()
    ensures Crc([0xBE, 0xEF, 0x92]) == 0
  {
    ShiftsEight(0x41);
    ShiftsEight(0xE3);
    ShiftsEight(0x00);
    assert Absorb(0xFF, 0xBE) == 0x0C;
    assert Absorb(0x0C, 0xEF) == 0x92;
    assert Absorb(0x92, 0x92) == 0x00;
  }
}
