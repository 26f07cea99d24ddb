/** Bytes, big- and little-endian fields, and the outcomes of the font tool's
    readers. */
module Bytes {

  newtype byte = x: int | 0 <= x < 256

  const U16: int := 0x1_0000
  const U32: int := 0x1_0000_0000

  /** What a run of one of the tool's decoders can end in. */
  datatype Outcome<+T> =
    | Ok(value: T)
    | NotYay0       // "yay0: not a yay0 file"
    | Invalid       // "yay0: invalid yay0 file"
    | OutOfRange    // std::out_of_range leaves the reader
    | Undefined     // the C++ code has undefined behaviour here

  /** A uint32_t after a small increment. */
  function Wrap32(x: nat): nat { if x < U32 then x else x - U32 }

  function Low8(v: int): byte { (v % 256) as byte }

  /** write_be16 and friends: the value is cut to the field's width. */
  function Be16(v: int): (r: seq<byte>)
    ensures |r| == 2
  {
    [Low8(v / 256), Low8(v)]
  }

  function Be32(v: int): (r: seq<byte>)
    ensures |r| == 4
  {
    Be16(v / U16) + Be16(v)
  }

  function Le16(v: int): (r: seq<byte>)
    ensures |r| == 2
  {
    [Low8(v), Low8(v / 256)]
  }

  function Le32(v: int): (r: seq<byte>)
    ensures |r| == 4
  {
    Le16(v) + Le16(v / U16)
  }

  predicate InRange(s: seq<byte>, offset: nat, n: nat) { offset + n <= |s| }

  function ReadBe16(s: seq<byte>, offset: nat): (r: nat)
    requires InRange(s, offset, 2)
    ensures r < U16
  {
    s[offset] as int * 256 + s[offset + 1] as int
  }

  function ReadBe32(s: seq<byte>, offset: nat): (r: nat)
    requires InRange(s, offset, 4)
    ensures r < U32
  {
    ReadBe16(s, offset) * U16 + ReadBe16(s, offset + 2)
  }

  lemma SplitMod16(v: int)
    ensures v / 256 % 256 * 256 + v % 256 == v % U16
  {
    var q, high, low := v / 256 / 256, v / 256 % 256, v % 256;
    assert v / 256 == q * 256 + high;
    assert v == q * U16 + (high * 256 + low);
  }

  lemma SplitMod32(v: int)
    ensures v / U16 % U16 * U16 + v % U16 == v % U32
  {
    var q, high, low := v / U16 / U16, v / U16 % U16, v % U16;
    assert v / U16 == q * U16 + high;
    assert v == q * U32 + (high * U16 + low);
  }

  /** A big-endian field reads back as the value cut to the field's width. */
  lemma Be16ReadBack(pre: seq<byte>, v: int, post: seq<byte>)
    ensures ReadBe16(pre + Be16(v) + post, |pre|) == v % U16
  {
    var s := pre + Be16(v) + post;
    assert s[|pre|] == Low8(v / 256) && s[|pre| + 1] == Low8(v);
    SplitMod16(v);
  }

  lemma Be32ReadBack(pre: seq<byte>, v: int, post: seq<byte>)
    ensures ReadBe32(pre + Be32(v) + post, |pre|) == v % U32
  {
    var s := pre + Be32(v) + post;
    assert s == pre + Be16(v / U16) + (Be16(v) + post);
    Be16ReadBack(pre, v / U16, Be16(v) + post);
    assert s == (pre + Be16(v / U16)) + Be16(v) + post;
    Be16ReadBack(pre + Be16(v / U16), v, post);
    SplitMod32(v);
  }

  /** Big-endian: the highest digit comes first. */
  lemma BigEndian(v: int)
    ensures Be16(v)[0] as int * 0x100 + Be16(v)[1] as int == v % U16
    ensures Be32(v)[0] as int * 0x100_0000 + Be32(v)[1] as int * U16 + Be32(v)[2] as int * 0x100 + Be32(v)[3] as int == v % U32
  {
    SplitMod16(v);
    SplitMod16(v / U16);
    SplitMod32(v);
  }

  /** Little-endian: the lowest digit comes first. */
  lemma LittleEndian(v: int)
    ensures Le16(v)[0] as int + Le16(v)[1] as int * 0x100 == v % U16
    ensures Le32(v)[0] as int + Le32(v)[1] as int * 0x100 + Le32(v)[2] as int * U16 + Le32(v)[3] as int * 0x100_0000 == v % U32
  {
    SplitMod16(v);
    SplitMod16(v / U16);
    SplitMod32(v);
  }

  lemma ReadBigEndian(s: seq<byte>, offset: nat)
    requires InRange(s, offset, 4)
    ensures ReadBe16(s, offset) == s[offset] as int * 0x100 + s[offset + 1] as int
    ensures ReadBe32(s, offset) == s[offset] as int * 0x100_0000 + s[offset + 1] as int * U16
                                   + s[offset + 2] as int * 0x100 + s[offset + 3] as int
  {
  }
}
