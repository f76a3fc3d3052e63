/** The Sensirion word checksum: CRC-8 with polynomial 0x31 (x^8 + x^5 + x^4 + 1),
    initial value 0xFF, bits processed most significant first, no reflection and
    no final XOR (the CRC-8/NRSC-5 parameter set). */
module Checksum {

  const Polynomial: bv8 := 0x31
  const Init: bv8 := 0xFF

  /** One bit step of the register: shift left, and XOR in the polynomial when the
      bit shifted out was set. */
  function Shift(c: bv8): bv8 {
    if c & 0x80 != 0 then (c << 1) ^ Polynomial else c << 1
  }

  /** `n` bit steps. */
  function ShiftN(c: bv8, n: nat): bv8 {
    if n == 0 then c else Shift(ShiftN(c, n - 1))
  }

  /** The register after XOR-ing in one data byte and running its eight bit steps. */
  function CrcByte(c: bv8, b: bv8): bv8 {
    ShiftN(c ^ b, 8)
  }

  /** The checksum of a byte sequence: the register after every byte, in order. */
  function Crc8(s: seq<bv8>): bv8 {
    if |s| == 0 then Init else CrcByte(Crc8(s[..|s| - 1]), s[|s| - 1])
  }

  /** The driver's bit-at-a-time routine, with its two nested loops. */
  method ComputeCrc8(data: seq<bv8>) returns (crc: bv8)
    ensures crc == Crc8(data)
  {
    crc := Init;
    for x := 0 to |data|
      invariant crc == Crc8(data[..x])
    {
      crc := crc ^ data[x];
      ghost var start := crc;
      for i := 0 to 8
        invariant crc == ShiftN(start, i)
      {
        if crc & 0x80 != 0 {
          crc := (crc << 1) ^ Polynomial;
        } else {
          crc := crc << 1;
        }
      }
      assert data[..x + 1][..x] == data[..x];
    }
    assert data[..|data|] == data;
  }

  /** Feeding one more byte is one more `CrcByte` step. */
  lemma Crc8Append(s: seq<bv8>, b: bv8)
    ensures Crc8(s + [b]) == CrcByte(Crc8(s), b)
  {
    assert (s + [b])[..|s|] == s;
  }

  /** The checksum of no data is the initial value. */
  lemma Crc8Empty()
    ensures Crc8([]) == 0xFF
  {
  }

  /** Since there is no final XOR, a receiver that runs the checksum over the data
      followed by its checksum byte gets 0. */
  lemma {:induction false} Crc8OfChecked(s: seq<bv8>)
    ensures Crc8(s + [Crc8(s)]) == 0
  {
    Crc8Append(s, Crc8(s));
    assert Crc8(s) ^ Crc8(s) == 0;
  }

  /** Checksums Sensirion documents: 0xBEEF gives 0x92; the arguments 0 and 2 that
      the driver sends on start-up give 0x81 and 0xE3. */
  lemma KnownVectors()
    ensures Crc8([0xBE, 0xEF]) == 0x92
    ensures Crc8([0x00, 0x00]) == 0x81
    ensures Crc8([0x00, 0x02]) == 0xE3
  {
  }

  lemma ShiftInjective(a: bv8, b: bv8)
    requires Shift(a) == Shift(b)
    ensures a == b
  {
  }

  lemma {:induction false} ShiftNInjective(a: bv8, b: bv8, n: nat)
    requires ShiftN(a, n) == ShiftN(b, n)
    ensures a == b
  {
    if n > 0 {
      ShiftInjective(ShiftN(a, n - 1), ShiftN(b, n - 1));
      ShiftNInjective(a, b, n - 1);
    }
  }

  /** For a fixed data byte, distinct registers stay distinct. */
  lemma CrcByteInjectiveInRegister(c: bv8, d: bv8, b: bv8)
    requires c != d
    ensures CrcByte(c, b) != CrcByte(d, b)
  {
    if CrcByte(c, b) == CrcByte(d, b) {
      ShiftNInjective(c ^ b, d ^ b, 8);
    }
  }

  /** For a fixed register, distinct data bytes give distinct registers. */
  lemma CrcByteInjectiveInData(c: bv8, x: bv8, y: bv8)
    requires x != y
    ensures CrcByte(c, x) != CrcByte(c, y)
  {
    if CrcByte(c, x) == CrcByte(c, y) {
      ShiftNInjective(c ^ x, c ^ y, 8);
    }
  }

  /** The checksum detects every error confined to one byte: two sequences of the
      same length that differ in exactly one position have different checksums. */
  lemma {:induction false} DetectsSingleByteError(s: seq<bv8>, t: seq<bv8>, i: nat)
    requires |s| == |t| && i < |s|
    requires s[i] != t[i]
    requires forall j :: 0 <= j < |s| && j != i ==> s[j] == t[j]
    ensures Crc8(s) != Crc8(t)
  {
    var n := |s| - 1;
    if i == n {
      assert s[..n] == t[..n];
      CrcByteInjectiveInData(Crc8(s[..n]), s[n], t[n]);
    } else {
      DetectsSingleByteError(s[..n], t[..n], i);
      assert s[n] == t[n];
      CrcByteInjectiveInRegister(Crc8(s[..n]), Crc8(t[..n]), s[n]);
    }
  }
}
