/**
 * A cut-down struct packer. The first character of the format picks the
 * byte order; every later character consumes one value and emits `I`/`L`
 * as four bytes, `B` as one byte, and anything else as nothing.
 */
module Pack {
  import opened Bytes

  /** Number of bytes a format character emits. */
  function Width(c: char): nat {
    if c == 'I' || c == 'L' then 4 else if c == 'B' then 1 else 0
  }

  /** Total number of bytes a run of format characters emits. */
  function TotalWidth(format: seq<char>): nat {
    if format == [] then 0 else Width(format[0]) + TotalWidth(format[1..])
  }

  /**
   * `array[p]` as the packer reads it: past the end it is `undefined`,
   * which `>>>` and `&` turn into 0.
   */
  function ValueAt(values: seq<int>, p: nat): int {
    if p < |values| then values[p] else 0
  }

  /**
   * The four bytes of `v`, most significant first. `>>>` first reduces its
   * operand modulo 2^32, and so does `& 0xFF` as far as the low byte goes.
   */
  function BigEndian32(v: int): seq<Byte> {
    var u := v % 0x1_0000_0000;
    [u / 0x100_0000 % 0x100, u / 0x1_0000 % 0x100, u / 0x100 % 0x100, u % 0x100]
  }

  function Reverse4(b: seq<Byte>): seq<Byte>
    requires |b| == 4
  {
    [b[3], b[2], b[1], b[0]]
  }

  /** The bytes one format character emits for value `v`. */
  function Field(c: char, v: int, littleEndian: bool): seq<Byte> {
    if c == 'I' || c == 'L' then
      if littleEndian then Reverse4(BigEndian32(v)) else BigEndian32(v)
    else if c == 'B' then
      [v % 0x100]
    else
      []
  }

  /** The fields of `format`, the `i`-th character taking the `i`-th value. */
  function Fields(format: seq<char>, values: seq<int>, littleEndian: bool): seq<Byte> {
    if format == [] then []
    else
      var n := |format| - 1;
      Fields(format[..n], values, littleEndian) + Field(format[n], ValueAt(values, n), littleEndian)
  }

  /** Little-endian exactly when the first format character is `<`. */
  predicate IsLittleEndian(mark: string) {
    |mark| > 0 && mark[0] == '<'
  }

  /** What `pack(mark, values)` returns. */
  function Packed(mark: string, values: seq<int>): seq<Byte> {
    if mark == [] then [] else Fields(mark[1..], values, IsLittleEndian(mark))
  }

  /** The packing loop: a cursor `p` into `values` advances once per format character. */
  method Pack(mark: string, values: seq<int>) returns (packed: seq<Byte>)
    ensures packed == Packed(mark, values)
  {
    packed := [];
    var p := 0;
    var littleEndian := |mark| > 0 && mark[0] == '<';
    ghost var format := if mark == [] then [] else mark[1..];
    var i := 1;
    while i < |mark|
      invariant 1 <= i <= |format| + 1
      invariant p == i - 1
      invariant packed == Fields(format[..p], values, littleEndian)
    {
      var val := if p < |values| then values[p] else 0;
      var field := PackField(mark[i], val, littleEndian);
      FieldsSnoc(format[..p + 1], values, littleEndian);
      assert format[..p + 1][..p] == format[..p];
      packed := packed + field;
      p := p + 1;
      i := i + 1;
    }
    assert format[..p] == format;
  }

  /** The body of the packing loop: the bytes of one format character. */
  method PackField(c: char, val: int, littleEndian: bool) returns (field: seq<Byte>)
    ensures field == Field(c, val, littleEndian)
    ensures |field| == Width(c)
  {
    field := [];
    if c == 'I' || c == 'L' {
      var u := val % 0x1_0000_0000;
      var b := [u / 0x100_0000 % 0x100, u / 0x1_0000 % 0x100, u / 0x100 % 0x100, u % 0x100];
      if littleEndian {
        b := [b[3], b[2], b[1], b[0]];
      }
      field := b;
    } else if c == 'B' {
      field := [val % 0x100];
    }
  }

  /** Appending a format character appends its field. */
  lemma FieldsSnoc(format: seq<char>, values: seq<int>, littleEndian: bool)
    requires format != []
    ensures Fields(format, values, littleEndian)
         == Fields(format[..|format| - 1], values, littleEndian)
          + Field(format[|format| - 1], ValueAt(values, |format| - 1), littleEndian)
  {
  }

  // ----- Reading fields back -----

  /** The number a big-endian 4-byte field stands for. */
  function DecodeBigEndian32(b: seq<Byte>): nat
    requires |b| == 4
  {
    (b[0] as int) * 0x100_0000 + (b[1] as int) * 0x1_0000 + (b[2] as int) * 0x100 + b[3] as int
  }

  /** The number a little-endian 4-byte field stands for. */
  function DecodeLittleEndian32(b: seq<Byte>): nat
    requires |b| == 4
  {
    (b[3] as int) * 0x100_0000 + (b[2] as int) * 0x1_0000 + (b[1] as int) * 0x100 + b[0] as int
  }

  /** Reading a big-endian 4-byte field gives back the value modulo 2^32. */
  lemma BigEndianRoundTrip(v: int)
    ensures DecodeBigEndian32(BigEndian32(v)) == v % 0x1_0000_0000
  {
    var u := v % 0x1_0000_0000;
    var q1 := u / 0x100;
    var q2 := q1 / 0x100;
    var q3 := q2 / 0x100;
    DivideByByte(u);
    DivideByByte(q1);
    DivideByByte(q2);
    assert q2 == u / 0x1_0000 && q3 == u / 0x100_0000 by {
      DivideTwice(u);
      DivideTwice(q1);
    }
  }

  /** A number is its quotient by 256, shifted back, plus its low byte. */
  lemma DivideByByte(x: nat)
    ensures x == x / 0x100 * 0x100 + x % 0x100
  {
  }

  /** Dropping a byte twice drops two bytes. */
  lemma DivideTwice(x: nat)
    ensures x / 0x100 / 0x100 == x / 0x1_0000
  {
    var q, r := x / 0x1_0000, x % 0x1_0000;
    assert x == q * 0x1_0000 + r;
    assert x / 0x100 == q * 0x100 + r / 0x100;
  }

  /** A value below 2^32 survives a big-endian field unchanged. */
  lemma BigEndianInjective(n: nat)
    requires n < 0x1_0000_0000
    ensures DecodeBigEndian32(BigEndian32(n)) == n
  {
    BigEndianRoundTrip(n);
  }

  /** Any four bytes are the big-endian field of the number they stand for. */
  lemma BigEndianDecodeEncode(b: seq<Byte>)
    requires |b| == 4
    ensures BigEndian32(DecodeBigEndian32(b)) == b
  {
    var x1 := (b[0] as int) * 0x100 + b[1] as int;
    var x2 := x1 * 0x100 + b[2] as int;
    var u := x2 * 0x100 + b[3] as int;
    assert u == DecodeBigEndian32(b) && u < 0x1_0000_0000;
    DivideShifted(x2, b[3]);
    DivideShifted(x1, b[2]);
    DivideShifted(b[0], b[1]);
    assert u / 0x1_0000 == x1 && u / 0x100_0000 == b[0] by {
      DivideTwice(u);
      DivideTwice(x2);
    }
  }

  /** A byte appended below a number is read back by dividing by 256. */
  lemma DivideShifted(high: nat, low: Byte)
    ensures (high * 0x100 + low) / 0x100 == high && (high * 0x100 + low) % 0x100 == low
  {
  }

  /** Reading a little-endian 4-byte field gives back the value modulo 2^32. */
  lemma LittleEndianRoundTrip(v: int)
    ensures DecodeLittleEndian32(Reverse4(BigEndian32(v))) == v % 0x1_0000_0000
  {
    BigEndianRoundTrip(v);
  }

  /** The value a field of type `c` keeps of `v`: 32 bits, 8 bits, or nothing. */
  function Masked(c: char, v: int): int {
    if c == 'I' || c == 'L' then v % 0x1_0000_0000
    else if c == 'B' then v % 0x100
    else 0
  }

  /** Reads one field of type `c` back from its bytes. */
  function ReadField(c: char, b: seq<Byte>, littleEndian: bool): int
    requires |b| == Width(c)
  {
    if c == 'I' || c == 'L' then
      if littleEndian then DecodeLittleEndian32(b) else DecodeBigEndian32(b)
    else if c == 'B' then
      b[0]
    else
      0
  }

  /** Reads the fields of `format` back from `bytes`, front to back. */
  function Unpack(format: seq<char>, bytes: seq<Byte>, littleEndian: bool): (r: seq<int>)
    requires |bytes| == TotalWidth(format)
    ensures |r| == |format|
  {
    if format == [] then []
    else
      var w := Width(format[0]);
      [ReadField(format[0], bytes[..w], littleEndian)] + Unpack(format[1..], bytes[w..], littleEndian)
  }

  /** Every field is as wide as its format character says. */
  lemma FieldWidth(c: char, v: int, littleEndian: bool)
    ensures |Field(c, v, littleEndian)| == Width(c)
  {
  }

  /** A field reads back as the masked value. */
  lemma FieldRoundTrip(c: char, v: int, littleEndian: bool)
    ensures |Field(c, v, littleEndian)| == Width(c)
    ensures ReadField(c, Field(c, v, littleEndian), littleEndian) == Masked(c, v)
  {
    if c == 'I' || c == 'L' {
      if littleEndian { LittleEndianRoundTrip(v); } else { BigEndianRoundTrip(v); }
    }
  }

  lemma {:induction false} TotalWidthAppend(f: seq<char>, g: seq<char>)
    ensures TotalWidth(f + g) == TotalWidth(f) + TotalWidth(g)
  {
    if f == [] {
      assert f + g == g;
    } else {
      assert (f + g)[1..] == f[1..] + g;
      TotalWidthAppend(f[1..], g);
    }
  }

  /** The fields take exactly the bytes their widths add up to. */
  lemma {:induction false} FieldsLength(format: seq<char>, values: seq<int>, littleEndian: bool)
    ensures |Fields(format, values, littleEndian)| == TotalWidth(format)
  {
    if format != [] {
      var n := |format| - 1;
      FieldsLength(format[..n], values, littleEndian);
      TotalWidthAppend(format[..n], [format[n]]);
      assert format[..n] + [format[n]] == format;
    }
  }

  /**
   * The length of `pack`'s output: 4 bytes per `I` or `L` after the first
   * character, 1 per `B`, none for anything else.
   */
  lemma PackedLength(mark: string, values: seq<int>)
    ensures |Packed(mark, values)| == if mark == [] then 0 else TotalWidth(mark[1..])
  {
    if mark != [] {
      FieldsLength(mark[1..], values, IsLittleEndian(mark));
    }
  }

  /** The fields of a prefix of the format are a prefix of the output. */
  lemma {:induction false} FieldsPrefix(format: seq<char>, values: seq<int>, littleEndian: bool, k: nat)
    requires k <= |format|
    ensures Fields(format[..k], values, littleEndian) <= Fields(format, values, littleEndian)
  {
    if k < |format| {
      var n := |format| - 1;
      FieldsPrefix(format[..n], values, littleEndian, k);
      assert format[..n][..k] == format[..k];
    } else {
      assert format[..k] == format;
    }
  }

  /**
   * Field `j` of the output starts after the widths of the characters
   * before it and holds the bytes of value `j`.
   */
  lemma FieldAt(format: seq<char>, values: seq<int>, littleEndian: bool, j: nat)
    requires j < |format|
    ensures TotalWidth(format[..j + 1]) == TotalWidth(format[..j]) + Width(format[j])
    ensures TotalWidth(format[..j + 1]) <= |Fields(format, values, littleEndian)|
    ensures Fields(format, values, littleEndian)[TotalWidth(format[..j])..TotalWidth(format[..j + 1])]
         == Field(format[j], ValueAt(values, j), littleEndian)
  {
    var whole := Fields(format, values, littleEndian);
    var upTo := Fields(format[..j + 1], values, littleEndian);
    FieldsPrefix(format, values, littleEndian, j + 1);
    assert format[..j + 1][..j] == format[..j];
    assert upTo == Fields(format[..j], values, littleEndian) + Field(format[j], ValueAt(values, j), littleEndian);
    FieldsLength(format[..j], values, littleEndian);
    FieldsLength(format[..j + 1], values, littleEndian);
    TotalWidthAppend(format[..j], [format[j]]);
    assert format[..j] + [format[j]] == format[..j + 1];
    assert upTo == whole[..|upTo|];
  }

  /** The values after the first: what the cursor sees once it has moved past field 0. */
  function Rest(values: seq<int>): (r: seq<int>)
    ensures forall p: nat :: ValueAt(r, p) == ValueAt(values, p + 1)
  {
    if values == [] then [] else values[1..]
  }

  /** The output is the first field followed by the fields of the rest of the format. */
  lemma {:induction false} FieldsCons(format: seq<char>, values: seq<int>, littleEndian: bool)
    requires format != []
    ensures Fields(format, values, littleEndian)
         == Field(format[0], ValueAt(values, 0), littleEndian) + Fields(format[1..], Rest(values), littleEndian)
  {
    var n := |format| - 1;
    if n > 0 {
      FieldsCons(format[..n], values, littleEndian);
      assert format[..n][1..] == format[1..][..n - 1];
      assert format[1..][n - 1] == format[n];
    } else {
      assert format[1..] == [];
    }
  }

  /** Unpacking the packed bytes gives back every value, masked to its field. */
  lemma {:induction false} UnpackFields(format: seq<char>, values: seq<int>, littleEndian: bool)
    ensures |Fields(format, values, littleEndian)| == TotalWidth(format)
    ensures Unpack(format, Fields(format, values, littleEndian), littleEndian)
         == seq(|format|, j requires 0 <= j < |format| => Masked(format[j], ValueAt(values, j)))
  {
    FieldsLength(format, values, littleEndian);
    if format != [] {
      var head := Field(format[0], ValueAt(values, 0), littleEndian);
      var tail := Fields(format[1..], Rest(values), littleEndian);
      FieldsCons(format, values, littleEndian);
      FieldRoundTrip(format[0], ValueAt(values, 0), littleEndian);
      UnpackFields(format[1..], Rest(values), littleEndian);
      assert (head + tail)[..|head|] == head;
      assert (head + tail)[|head|..] == tail;
    }
  }

  /**
   * Field `j` of `mark` (counting the byte-order character as 0) reads
   * back, in the byte order the first character picks, as value `j - 1`
   * masked to the field's width.
   */
  lemma PackedFieldAt(mark: string, values: seq<int>, j: nat)
    requires 1 <= j < |mark|
    ensures TotalWidth(mark[1..j]) + Width(mark[j]) <= |Packed(mark, values)|
    ensures ReadField(mark[j], Packed(mark, values)[TotalWidth(mark[1..j])..TotalWidth(mark[1..j]) + Width(mark[j])], IsLittleEndian(mark))
         == Masked(mark[j], ValueAt(values, j - 1))
  {
    var format := mark[1..];
    assert format[..j - 1] == mark[1..j];
    assert format[j - 1] == mark[j];
    FieldAt(format, values, IsLittleEndian(mark), j - 1);
    FieldRoundTrip(mark[j], ValueAt(values, j - 1), IsLittleEndian(mark));
  }

  /** `>L` packs one value as its four bytes, high byte first. */
  lemma PackedBigEndianLong(v: int)
    ensures Packed(">L", [v]) == BigEndian32(v)
  {
    var format := ">L"[1..];
    assert format == ['L'] && format[..0] == [];
    assert Fields(format, [v], false) == Fields([], [v], false) + Field('L', ValueAt([v], 0), false);
  }

  /** `<L` packs one value as its four bytes, low byte first. */
  lemma PackedLittleEndianLong(v: int)
    ensures Packed("<L", [v]) == Reverse4(BigEndian32(v))
  {
    var format := "<L"[1..];
    assert format == ['L'] && format[..0] == [];
    assert Fields(format, [v], true) == Fields([], [v], true) + Field('L', ValueAt([v], 0), true);
  }

  /** The output depends on the values only through the ones the format consumes. */
  lemma {:induction false} FieldsSameValues(format: seq<char>, v1: seq<int>, v2: seq<int>, littleEndian: bool)
    requires forall p: nat :: p < |format| ==> ValueAt(v1, p) == ValueAt(v2, p)
    ensures Fields(format, v1, littleEndian) == Fields(format, v2, littleEndian)
  {
    if format != [] {
      FieldsSameValues(format[..|format| - 1], v1, v2, littleEndian);
    }
  }

  /** A value missing from `values` packs exactly as an explicit 0 does. */
  lemma MissingValuesPackAsZero(mark: string, values: seq<int>)
    ensures Packed(mark, values) == Packed(mark, values + seq(|mark|, _ => 0))
  {
    if mark != [] {
      var padded := values + seq(|mark|, _ => 0);
      forall p: nat | p < |mark[1..]| ensures ValueAt(values, p) == ValueAt(padded, p) {
        if p < |values| {
          assert padded[p] == values[p];
        } else {
          assert padded[p] == 0;
        }
      }
      FieldsSameValues(mark[1..], values, padded, IsLittleEndian(mark));
    }
  }
}
