/**
 * The read-only byte region behind an index and the typed little-endian reads
 * over it (`read_i32`, `read_f32`, `read_slice`).  The memory map or owned
 * buffer is modelled by an immutable sequence of bytes; the unchecked pointer
 * reinterpretation of the source becomes an explicit bounds precondition.
 */
module Bytes {

  newtype byte = x: int | 0 <= x < 0x100

  newtype u32 = x: int | 0 <= x < 0x1_0000_0000

  /** An `f32` as the 32-bit pattern it was reinterpreted from. */
  datatype F32 = F32(bits: u32)

  const I32_MIN: int := -0x8000_0000
  const I32_MAX: int := 0x7FFF_FFFF

  predicate IsI32(x: int) { I32_MIN <= x <= I32_MAX }

  /** The unsigned 32-bit word stored little-endian at bytes idx..idx+3. */
  function Word(buf: seq<byte>, idx: nat): (w: u32)
    requires idx + 4 <= |buf|
    ensures w as int % 0x100 == buf[idx] as int
    ensures w as int / 0x100_0000 == buf[idx + 3] as int
  {
    (buf[idx] as int
     + 0x100 * buf[idx + 1] as int
     + 0x1_0000 * buf[idx + 2] as int
     + 0x100_0000 * buf[idx + 3] as int) as u32
  }

  /** Two's complement reading of a 32-bit word. */
  function ToSigned(w: u32): (r: int)
    ensures IsI32(r)
    ensures r >= 0 <==> w < 0x8000_0000
    ensures (if r < 0 then r + 0x1_0000_0000 else r) == w as int
  {
    if w < 0x8000_0000 then w as int else w as int - 0x1_0000_0000
  }

  /** `x as usize` for a 32-bit signed x on a 64-bit target: negative values wrap. */
  function ToUsize(x: int): (r: nat)
    requires IsI32(x)
    ensures x >= 0 ==> r == x
    ensures x < 0 ==> r == x + 0x1_0000_0000_0000_0000
    ensures x < 0 ==> r >= 0x1_0000_0000_0000_0000 - 0x8000_0000
  {
    if x >= 0 then x else x + 0x1_0000_0000_0000_0000
  }

  /** `read_i32`: the four bytes at idx, little-endian, as a signed 32-bit integer. */
  function ReadI32(buf: seq<byte>, idx: nat): (r: int)
    requires idx + 4 <= |buf|
    ensures IsI32(r)
  {
    ToSigned(Word(buf, idx))
  }

  /** `read_f32`: the same four bytes, reinterpreted as an `f32`. */
  function ReadF32(buf: seq<byte>, idx: nat): (r: F32)
    requires idx + 4 <= |buf|
    ensures ToSigned(r.bits) == ReadI32(buf, idx)
  {
    F32(Word(buf, idx))
  }

  /** `read_slice::<i32>(idx, len)`: len consecutive integers starting at byte idx. */
  function ReadI32Slice(buf: seq<byte>, idx: nat, len: nat): (r: seq<int>)
    requires idx + 4 * len <= |buf|
    ensures |r| == len
    ensures forall j :: 0 <= j < len ==> r[j] == ReadI32(buf, idx + 4 * j)
  {
    seq(len, j requires 0 <= j < len => ReadI32(buf, idx + 4 * j))
  }

  /** `read_slice::<f32>(idx, len)`: len consecutive floats starting at byte idx. */
  function ReadF32Slice(buf: seq<byte>, idx: nat, len: nat): (r: seq<F32>)
    requires idx + 4 * len <= |buf|
    ensures |r| == len
    ensures forall j :: 0 <= j < len ==> r[j] == ReadF32(buf, idx + 4 * j)
  {
    seq(len, j requires 0 <= j < len => ReadF32(buf, idx + 4 * j))
  }

  /** The little-endian two's complement bytes of a 32-bit integer. */
  function EncodeI32(x: int): (b: seq<byte>)
    requires IsI32(x)
    ensures |b| == 4
  {
    var w := if x < 0 then x + 0x1_0000_0000 else x;
    var t1 := w / 0x100;
    var t2 := t1 / 0x100;
    [(w % 0x100) as byte, (t1 % 0x100) as byte, (t2 % 0x100) as byte, (t2 / 0x100) as byte]
  }

  /** A read looks at bytes idx..idx+3 and nothing else. */
  lemma ReadI32Local(a: seq<byte>, i: nat, b: seq<byte>, j: nat)
    requires i + 4 <= |a| && j + 4 <= |b|
    requires a[i..i + 4] == b[j..j + 4]
    ensures ReadI32(a, i) == ReadI32(b, j)
    ensures ReadF32(a, i) == ReadF32(b, j)
  {
    assert a[i] == a[i..i + 4][0] && a[i + 1] == a[i..i + 4][1];
    assert a[i + 2] == a[i..i + 4][2] && a[i + 3] == a[i..i + 4][3];
    assert b[j] == b[j..j + 4][0] && b[j + 1] == b[j..j + 4][1];
    assert b[j + 2] == b[j..j + 4][2] && b[j + 3] == b[j..j + 4][3];
  }

  /** Division by 256 splits off the low byte. */
  lemma DivMod256(w: int, q: int, r: int)
    requires 0 <= r < 0x100 && w == r + 0x100 * q
    ensures w % 0x100 == r && w / 0x100 == q
  {
  }

  /** Reading back an encoded integer gives the integer. */
  lemma DecodeEncodeI32(x: int, buf: seq<byte>, idx: nat)
    requires IsI32(x)
    requires idx + 4 <= |buf| && buf[idx..idx + 4] == EncodeI32(x)
    ensures ReadI32(buf, idx) == x
  {
    var w := if x < 0 then x + 0x1_0000_0000 else x;
    var t1 := w / 0x100;
    var t2 := t1 / 0x100;
    var e := EncodeI32(x);
    assert buf[idx] == e[0] && buf[idx + 1] == e[1] && buf[idx + 2] == e[2] && buf[idx + 3] == e[3];
    assert w == w % 0x100 + 0x100 * t1;
    assert t1 == t1 % 0x100 + 0x100 * t2;
    assert t2 == t2 % 0x100 + 0x100 * (t2 / 0x100);
    assert Word(buf, idx) as int == w;
  }

  /** Encoding the integer read at idx reproduces the four bytes there. */
  lemma EncodeDecodeI32(buf: seq<byte>, idx: nat)
    requires idx + 4 <= |buf|
    ensures EncodeI32(ReadI32(buf, idx)) == buf[idx..idx + 4]
  {
    var b0, b1, b2, b3 := buf[idx] as int, buf[idx + 1] as int, buf[idx + 2] as int, buf[idx + 3] as int;
    var t2 := b2 + 0x100 * b3;
    var t1 := b1 + 0x100 * t2;
    var w := b0 + 0x100 * t1;
    assert Word(buf, idx) as int == w;
    DivMod256(w, t1, b0);
    DivMod256(t1, t2, b1);
    DivMod256(t2, b3, b2);
    var e := EncodeI32(ReadI32(buf, idx));
    assert e[0] == buf[idx] && e[1] == buf[idx + 1] && e[2] == buf[idx + 2] && e[3] == buf[idx + 3];
  }
}
