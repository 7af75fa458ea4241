/**
 * The CRC-32 of section 5.5 of the PNG specification (ISO/IEC 15948): the
 * reflected polynomial 0xEDB88320, register preset to all ones, result
 * complemented. The register and the table entries are 32-bit patterns
 * (`bv32`), which is what the JavaScript `^`, `>>>` and `-1` operate on.
 */
module Crc {

  /** The CRC-32 generator polynomial with its bits reversed. */
  const Polynomial: bv32 := 0xEDB8_8320

  /** `0 ^ (-1)` and the final `^ (-1)`: every bit set. */
  const AllOnes: bv32 := 0xFFFF_FFFF

  /** One round of the table-building inner loop: shift right, folding in the polynomial when the bit shifted out was set. */
  function Shift(c: bv32): bv32 {
    if c & 1 == 1 then Polynomial ^ (c >> 1) else c >> 1
  }

  /** `k` rounds of `Shift`. */
  function Shifts(c: bv32, k: nat): bv32 {
    if k == 0 then c else Shift(Shifts(c, k - 1))
  }

  /** Entry `n` of the lookup table: eight rounds applied to `n`. */
  function TableEntry(n: bv32): bv32 {
    Shifts(n, 8)
  }

  /** `table` holds the 256 entries the initialisation loop computes. */
  ghost predicate IsCrcTable(table: array<bv32>)
    reads table
  {
    table.Length == 256 &&
    forall n :: 0 <= n < 256 ==> table[n] == TableEntry(n as bv32)
  }

  /**
   * Builds the lookup table, entry by entry, as the module-level
   * initialisation loop does: entry `n` is `n` after eight rounds.
   */
  method BuildTable() returns (table: array<bv32>)
    ensures table.Length == 256
    ensures forall n :: 0 <= n < 256 ==> table[n] == Shifts(n as bv32, 8)
  {
    table := new bv32[256];
    for n := 0 to 256
      invariant forall m :: 0 <= m < n ==> table[m] == Shifts(m as bv32, 8)
    {
      var c: bv32 := n as bv32;
      for k := 0 to 8
        invariant c == Shifts(n as bv32, k)
      {
        c := if c & 1 == 1 then Polynomial ^ (c >> 1) else c >> 1;
      }
      table[n] := c;
    }
  }

  /** One iteration of the checksum loop: the register shifted by a byte, XORed with the table entry picked by the low byte of `register ^ code`. */
  function Step(register: bv32, code: bv16): bv32 {
    (register >> 8) ^ TableEntry(Index(register, code))
  }

  /** The table index of the checksum loop, `(crc ^ code) & 0xFF`. */
  function Index(register: bv32, code: bv16): bv32 {
    (register ^ (code as bv32)) & 0xFF
  }

  /** The register after folding every code unit of `s` into the all-ones preset. */
  function Register(s: seq<bv16>): bv32 {
    if s == [] then AllOnes else Step(Register(s[..|s| - 1]), s[|s| - 1])
  }

  /** The CRC-32 of `s`: the final register complemented and read as an unsigned number (`>>> 0`). */
  function Crc32(s: seq<bv16>): (r: nat)
    ensures r < 0x1_0000_0000
  {
    (Register(s) ^ AllOnes) as nat
  }

  /** The checksum loop over a string's code units, reading the precomputed table. */
  method ComputeCrc32(table: array<bv32>, str: seq<bv16>) returns (crc: nat)
    requires IsCrcTable(table)
    ensures crc == Crc32(str)
    ensures crc < 0x1_0000_0000
  {
    var register: bv32 := 0 ^ AllOnes;
    for i := 0 to |str|
      invariant register == Register(str[..i])
    {
      RegisterSnoc(str, i);
      TableLookup(table, register, str[i]);
      register := (register >> 8) ^ table[Index(register, str[i]) as int];
    }
    assert str[..|str|] == str;
    crc := (register ^ AllOnes) as nat;
  }

  lemma RegisterSnoc(s: seq<bv16>, i: nat)
    requires i < |s|
    ensures Register(s[..i + 1]) == Step(Register(s[..i]), s[i])
  {
    assert s[..i + 1][..i] == s[..i];
  }

  /** The register after folding every code unit of `s` into `register`. */
  function Continue(register: bv32, s: seq<bv16>): bv32 {
    if s == [] then register else Step(Continue(register, s[..|s| - 1]), s[|s| - 1])
  }

  lemma ContinueSnoc(register: bv32, s: seq<bv16>, i: nat)
    requires i < |s|
    ensures Continue(register, s[..i + 1]) == Step(Continue(register, s[..i]), s[i])
  {
    assert s[..i + 1][..i] == s[..i];
  }

  /** Two code units folded into `register`. */
  lemma ContinueTwo(register: bv32, a: bv16, b: bv16)
    ensures Continue(register, [a, b]) == Step(Step(register, a), b)
  {
    var s := [a, b];
    assert s[..1] == [a] && [a][..0] == [];
    assert Continue(register, [a]) == Step(register, a);
  }

  /** Three code units folded into `register`. */
  lemma ContinueThree(register: bv32, a: bv16, b: bv16, c: bv16)
    ensures Continue(register, [a, b, c]) == Step(Step(Step(register, a), b), c)
  {
    var s := [a, b, c];
    ContinueTwo(register, a, b);
    assert s[..2] == [a, b];
  }

  /** The register can be computed piecewise: the register after `a` is carried into `b`. */
  lemma {:induction false} RegisterAppend(a: seq<bv16>, b: seq<bv16>)
    ensures Register(a + b) == Continue(Register(a), b)
  {
    if b == [] {
      assert a + b == a;
    } else {
      var n := |b| - 1;
      assert (a + b)[..|a + b| - 1] == a + b[..n];
      RegisterAppend(a, b[..n]);
    }
  }

  /** The masked index is in range and selects the entry `TableEntry` describes. */
  lemma TableLookup(table: array<bv32>, register: bv32, code: bv16)
    requires IsCrcTable(table)
    ensures 0 <= Index(register, code) as int < 256
    ensures table[Index(register, code) as int] == TableEntry(Index(register, code))
  {
    IndexInRange(register, code);
  }

  lemma IndexInRange(register: bv32, code: bv16)
    ensures Index(register, code) as int < 256
    ensures (Index(register, code) as int) as bv32 == Index(register, code)
  {
  }

  /** The checksum of the empty string is 0: the preset complemented twice. */
  lemma Crc32Empty()
    ensures Crc32([]) == 0
  {
  }

  /** Only the low eight bits of each code unit reach the checksum. */
  lemma {:induction false} Crc32LowBytesOnly(s: seq<bv16>, t: seq<bv16>)
    requires |s| == |t|
    requires forall i :: 0 <= i < |s| ==> s[i] & 0xFF == t[i] & 0xFF
    ensures Crc32(s) == Crc32(t)
  {
    RegisterLowBytesOnly(s, t);
  }

  lemma {:induction false} RegisterLowBytesOnly(s: seq<bv16>, t: seq<bv16>)
    requires |s| == |t|
    requires forall i :: 0 <= i < |s| ==> s[i] & 0xFF == t[i] & 0xFF
    ensures Register(s) == Register(t)
  {
    if s != [] {
      var n := |s| - 1;
      RegisterLowBytesOnly(s[..n], t[..n]);
      StepLowByteOnly(Register(s[..n]), s[n], t[n]);
    }
  }

  lemma StepLowByteOnly(register: bv32, a: bv16, b: bv16)
    requires a & 0xFF == b & 0xFF
    ensures Step(register, a) == Step(register, b)
  {
    IndexLowByteOnly(register, a, b);
  }

  lemma IndexLowByteOnly(register: bv32, a: bv16, b: bv16)
    requires a & 0xFF == b & 0xFF
    ensures Index(register, a) == Index(register, b)
  {
  }

  // ----- Known values -----

  /** The check string, steps 0 to 2. */
  lemma Crc32CheckValueSteps1()
    ensures Step(AllOnes, 0x31) == 0x7c23_1048
    ensures Step(0x7c23_1048, 0x32) == 0xb0ac_bb32
    ensures Step(0xb0ac_bb32, 0x33) == 0x77b7_9c2d
  {
  }

  /** The check string, steps 3 to 5. */
  lemma Crc32CheckValueSteps2()
    ensures Step(0x77b7_9c2d, 0x34) == 0x641c_1f5c
    ensures Step(0x641c_1f5c, 0x35) == 0x340a_c5e3
    ensures Step(0x340a_c5e3, 0x36) == 0xf68d_2c9e
  {
  }

  /** The check string, steps 6 to 8. */
  lemma Crc32CheckValueSteps3()
    ensures Step(0xf68d_2c9e, 0x37) == 0xaffc_9660
    ensures Step(0xaffc_9660, 0x38) == 0x651f_2550
    ensures Step(0x651f_2550, 0x39) == 0x340b_c6d9
  {
  }

  /**
   * The check value of CRC-32 (the CRC of the ASCII digits "123456789")
   * listed for this algorithm in catalogues of CRC parameters.
   */
  lemma Crc32CheckValue()
    ensures Crc32([0x31, 0x32, 0x33, 0x34, 0x35, 0x36, 0x37, 0x38, 0x39]) == 0xCBF4_3926
  {
    var ps: seq<seq<bv16>> := [[0x31, 0x32, 0x33], [0x34, 0x35, 0x36], [0x37, 0x38, 0x39]];
    assert [0x31, 0x32, 0x33, 0x34, 0x35, 0x36, 0x37, 0x38, 0x39] == ps[0] + ps[1] + ps[2];
    Crc32CheckValueSteps1();
    Crc32CheckValueSteps2();
    Crc32CheckValueSteps3();
    ContinueThree(AllOnes, 0x31, 0x32, 0x33);
    RegisterAppend([], ps[0]);
    assert [] + ps[0] == ps[0];
    ContinueThree(0x77b7_9c2d, 0x34, 0x35, 0x36);
    RegisterAppend(ps[0], ps[1]);
    ContinueThree(0xf68d_2c9e, 0x37, 0x38, 0x39);
    RegisterAppend(ps[0] + ps[1], ps[2]);
  }

  /** Entries of the standard CRC-32 lookup table: the first two, the polynomial itself at 128, and the last. */
  lemma TableEntriesKnown()
    ensures TableEntry(0) == 0
    ensures TableEntry(1) == 0x7707_3096
    ensures TableEntry(128) == Polynomial
    ensures TableEntry(255) == 0x2D02_EF8D
  {
  }

  /** The IEND chunk type, steps 0 to 1. */
  lemma IendCrcSteps1()
    ensures Step(AllOnes, 0x49) == 0x22fd_e946
    ensures Step(0x22fd_e946, 0x45) == 0x992b_ac53
  {
  }

  /** The IEND chunk type, steps 2 to 3. */
  lemma IendCrcSteps2()
    ensures Step(0x992b_ac53, 0x4E) == 0x639f_4775
    ensures Step(0x639f_4775, 0x44) == 0x51bd_9f7d
  {
  }

  /** The CRC of the four type bytes of an IEND chunk, which carries no data: the last four bytes of every PNG file. */
  lemma IendCrc()
    ensures Crc32([0x49, 0x45, 0x4E, 0x44]) == 0xAE42_6082
  {
    var ps: seq<seq<bv16>> := [[0x49, 0x45], [0x4E, 0x44]];
    assert [0x49, 0x45, 0x4E, 0x44] == ps[0] + ps[1];
    IendCrcSteps1();
    IendCrcSteps2();
    ContinueTwo(AllOnes, 0x49, 0x45);
    RegisterAppend([], ps[0]);
    assert [] + ps[0] == ps[0];
    ContinueTwo(0x992b_ac53, 0x4E, 0x44);
    RegisterAppend(ps[0], ps[1]);
  }
}
