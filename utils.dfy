/** utils.rs: the same CRC-8 as crc.rs, over a byte slice of any length. */
module Utils {
  import opened Bytes
  import Crc

  /** `crc8(&[u8])`: XOR each byte into the register, then shift eight
      times, applying the polynomial when the top bit was set. */
  method Crc8(bytes: seq<Byte>) returns (crc: Byte)
    ensures crc == Crc.Crc(bytes)
  {
    crc := Crc.Initial;
    for i := 0 to |bytes|
      invariant Crc.Register(crc, bytes[i..]) == Crc.Crc(bytes)
    {
      ghost var absorbed := Crc.Absorb(crc, bytes[i]);
      assert bytes[i..][1..] == bytes[i + 1..];
      crc := crc ^ bytes[i];
      for j := 0 to 8
        invariant Crc.Shifts(crc, 8 - j) == absorbed
      {
        if Crc.TopBitSet(crc) {
          crc := crc << 1;
          crc := crc ^ Crc.Polynomial;
        } else {
          crc := crc << 1;
        }
      }
    }
    assert bytes[|bytes|..] == [];
  }

  /** On three bytes, the slice version and the `[u8; 3]` version of
      crc.rs compute the same CRC. */
  method AgreesWithTripleCrc(bytes: Crc.Triple) returns (fromSlice: Byte, fromTriple: Byte)
    ensures fromSlice == fromTriple
  {
    fromSlice := Crc8(bytes);
    fromTriple := Crc.Crc8(bytes);
  }

  /** With no bytes the loop never runs and the result is the initial
      value; on the test vectors, each pair's CRC appended to it gives 0. */
  lemma TestVectors()
    ensures Crc.Crc([]) == 0xFF
    ensures Crc.Crc([0x00, 0x00]) == 0x81 && Crc.Crc([0x00, 0x00, 0x81]) == 0x00
    ensures Crc.Crc([0xBE, 0xEF]) == 0x92 && Crc.Crc([0xBE, 0xEF, 0x92]) == 0x00
  {
    Crc.ZeroPairVector();
    Crc.DatasheetVector();
    assert Crc.Absorb(0xFF, 0x00) == 0xAC;
    assert Crc.Absorb(0xFF, 0xBE) == 0x0C;
  }
}
