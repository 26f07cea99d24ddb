/** The mask stream: one bit per token, most significant bit first.  The writer's
    bytes are bit vectors; they become plain bytes when the file is put together. */
module Masks {
  import opened Bytes

  type word = bv8

  function AsBytes(data: seq<word>): (r: seq<byte>)
    ensures |r| == |data|
  {
    seq(|data|, i requires 0 <= i < |data| => data[i] as byte)
  }

  /** 0x80 >> k: the mask of bit k, bit 0 being the most significant. */
  function Bit(k: nat): word
    requires k < 8
  {
    if k == 0 then 0x80 else Bit(k - 1) >> 1
  }

  /** (b << k) & 0x80 != 0 */
  predicate TopBit(b: word, k: nat)
    requires k < 8
    decreases k
  {
    if k == 0 then b & 0x80 != 0 else TopBit(b << 1, k - 1)
  }

  /** b | (bit << (7 - k)) */
  function OrBit(b: word, k: nat, bit: bool): word
    requires k < 8
  {
    if bit then b | Bit(k) else b
  }

  /** The writer's two fields. */
  datatype Writer = Writer(data: seq<word>, nextOffset: int)

  predicate Writable(w: Writer) {
    -1 <= w.nextOffset < 8 && (w.nextOffset >= 0 ==> |w.data| > 0)
  }

  /** push_back */
  function Push(w: Writer, bit: bool): (r: Writer)
    requires Writable(w)
    ensures Writable(r)
  {
    var full := w.nextOffset < 0;
    var d := if full then w.data + [0] else w.data;
    var o := if full then 7 else w.nextOffset;
    Writer(d[|d| - 1 := OrBit(d[|d| - 1], 7 - o, bit)], o - 1)
  }

  function Pushed(bits: seq<bool>): (r: Writer)
    ensures Writable(r)
  {
    if bits == [] then Writer([], -1) else Push(Pushed(bits[..|bits| - 1]), bits[|bits| - 1])
  }

  function PackBits(bits: seq<bool>): seq<word> { Pushed(bits).data }

  predicate PackedBit(data: seq<word>, i: nat)
    requires i / 8 < |data|
  {
    TopBit(data[i / 8], i % 8)
  }

  /** Bit number i of a stream that starts at byte `start` of a file. */
  predicate BitAt(data: seq<byte>, start: nat, i: nat)
    requires start + i / 8 < |data|
  {
    TopBit(data[start + i / 8] as word, i % 8)
  }

  /** Putting the packed stream into a file does not change its bits. */
  lemma BitsInFile(pre: seq<byte>, data: seq<word>, post: seq<byte>, i: nat)
    requires i / 8 < |data|
    ensures BitAt(pre + AsBytes(data) + post, |pre|, i) == PackedBit(data, i)
  {
    assert (pre + AsBytes(data) + post)[|pre| + i / 8] == data[i / 8] as byte;
  }

  /** The bits from number `used` on are zero: b << used == 0. */
  predicate LowBitsClear(b: word, used: nat)
    requires used <= 8
    decreases used
  {
    if used == 0 then b == 0 else LowBitsClear(b << 1, used - 1)
  }

  lemma {:induction false} BitShifts(k: nat)
    requires 1 <= k < 8
    ensures Bit(k) << 1 == Bit(k - 1)
  {
    if k == 1 {
    } else if k == 2 {
    } else if k == 3 {
      BitValues();
    } else if k == 4 {
      BitValues();
    } else if k == 5 {
      BitValues();
    } else if k == 6 {
      BitValues();
    } else {
      BitValues();
    }
  }

  lemma BitValues()
    ensures Bit(0) == 0x80 && Bit(1) == 0x40 && Bit(2) == 0x20 && Bit(3) == 0x10
    ensures Bit(4) == 0x08 && Bit(5) == 0x04 && Bit(6) == 0x02 && Bit(7) == 0x01
  {
    assert Bit(2) == 0x20;
    assert Bit(4) == 0x08;
    assert Bit(6) == 0x02;
  }

  lemma {:induction false} ZeroIsClear(used: nat)
    requires used <= 8
    ensures LowBitsClear(0, used)
  {
    if used > 0 { ZeroIsClear(used - 1); }
  }

  /** Setting one fresh bit changes that bit only. */
  lemma {:induction false} SetBit(b: word, k: nat)
    requires k < 8 && LowBitsClear(b, k)
    ensures LowBitsClear(b | Bit(k), k + 1) && LowBitsClear(b, k + 1)
    ensures TopBit(b | Bit(k), k) && !TopBit(b, k)
    decreases k
  {
    if k == 0 {
      assert (0x80 as word) << 1 == 0;
    } else {
      BitShifts(k);
      SetBit(b << 1, k - 1);
      ShiftOr(b, Bit(k));
    }
  }

  lemma {:induction false} OtherBit(b: word, k: nat, j: nat)
    requires j < k < 8
    ensures TopBit(b | Bit(k), j) == TopBit(b, j)
    decreases j
  {
    ShiftOr(b, Bit(k));
    BitNotTop(k);
    if j > 0 {
      BitShifts(k);
      OtherBit(b << 1, k - 1, j - 1);
    }
  }

  lemma ShiftOr(b: word, c: word)
    ensures (b | c) << 1 == (b << 1) | (c << 1)
    ensures c & 0x80 == 0 ==> (b | c) & 0x80 == b & 0x80
  {
  }

  lemma BitNotTop(k: nat)
    requires 1 <= k < 8
    ensures Bit(k) & 0x80 == 0
  {
    BitValues();
    if k == 1 {
    } else if k == 2 {
    } else if k == 3 {
    } else if k == 4 {
    } else if k == 5 {
    } else if k == 6 {
    } else {
    }
  }

  /** data is a packed form of bits, with the unused low bits clear. */
  ghost predicate Packs(data: seq<word>, bits: seq<bool>) {
    && |data| == (|bits| + 7) / 8
    && (forall i: nat :: i < |bits| ==> PackedBit(data, i) == bits[i])
    && (|bits| % 8 != 0 ==> LowBitsClear(data[|data| - 1], |bits| % 8))
  }

  lemma OrBitEffect(b: word, k: nat, bit: bool)
    requires k < 8 && LowBitsClear(b, k)
    ensures LowBitsClear(OrBit(b, k, bit), k + 1)
    ensures TopBit(OrBit(b, k, bit), k) == bit
    ensures forall j: nat :: j < k ==> TopBit(OrBit(b, k, bit), j) == TopBit(b, j)
  {
    SetBit(b, k);
    forall j: nat | j < k ensures TopBit(OrBit(b, k, bit), j) == TopBit(b, j) {
      OtherBit(b, k, j);
    }
  }

  /** The byte that bit n goes into, before it goes there. */
  function Partial(data: seq<word>, n: nat): word
    requires |data| == (n + 7) / 8
  {
    if n % 8 == 0 then 0 else data[|data| - 1]
  }

  /** _next_offset after n bits: the shift for the next bit, or -1 when a new
      byte is needed. */
  function NextOffset(n: nat): int {
    if n % 8 == 0 then -1 else 7 - n % 8
  }

  lemma PushShape(data: seq<word>, n: nat, bit: bool)
    requires |data| == (n + 7) / 8
    ensures Writable(Writer(data, NextOffset(n)))
    ensures var next := Push(Writer(data, NextOffset(n)), bit);
            && next.nextOffset == NextOffset(n + 1)
            && |next.data| == n / 8 + 1 == (n + 1 + 7) / 8
            && next.data[n / 8] == OrBit(Partial(data, n), n % 8, bit)
            && (forall k: nat :: k < n / 8 ==> k < |data| && next.data[k] == data[k])
    ensures (n + 1) % 8 == if n % 8 == 7 then 0 else n % 8 + 1
  {
  }

  lemma BytePosition(i: nat, n: nat)
    requires i < n
    ensures i / 8 < n / 8 || (i / 8 == n / 8 && i % 8 < n % 8)
  {
  }

  lemma PushPacks(data: seq<word>, bits: seq<bool>, bit: bool)
    requires Packs(data, bits)
    ensures Writable(Writer(data, NextOffset(|bits|)))
    ensures var next := Push(Writer(data, NextOffset(|bits|)), bit);
            Packs(next.data, bits + [bit]) && next.nextOffset == NextOffset(|bits| + 1)
  {
    var n := |bits|;
    PushShape(data, n, bit);
    var next, b := Push(Writer(data, NextOffset(n)), bit).data, Partial(data, n);
    ZeroIsClear(0);
    OrBitEffect(b, n % 8, bit);
    forall i: nat | i < n ensures PackedBit(next, i) == bits[i] {
      assert PackedBit(data, i) == bits[i];
      BytePosition(i, n);
    }
    assert PackedBit(next, n) == bit;
    assert (n + 1) % 8 != 0 ==> LowBitsClear(next[|next| - 1], (n + 1) % 8);
  }

  /** The packed stream holds exactly the bits that were pushed. */
  lemma {:induction false} PackBitsPacks(bits: seq<bool>)
    ensures Packs(PackBits(bits), bits) && Pushed(bits).nextOffset == NextOffset(|bits|)
  {
    if bits != [] {
      var n := |bits| - 1;
      PackBitsPacks(bits[..n]);
      PushPacks(PackBits(bits[..n]), bits[..n], bits[n]);
      assert bits == bits[..n] + [bits[n]];
    }
  }

  lemma PushedStep(bits: seq<bool>, bit: bool)
    ensures Pushed(bits + [bit]) == Push(Pushed(bits), bit)
  {
    assert (bits + [bit])[..|bits|] == bits;
  }

  /** mask_vector_writer */
  class MaskWriter {
    var data: seq<word>
    var nextOffset: int
    ghost var bits: seq<bool>

    ghost predicate Valid()
      reads this
    {
      Writer(data, nextOffset) == Pushed(bits)
    }

    constructor ()
      ensures Valid() && bits == []
    {
      data, nextOffset, bits := [], -1, [];
    }

    method PushBack(bit: bool)
      requires Valid()
      modifies this
      ensures Valid() && bits == old(bits) + [bit]
    {
      ghost var before := Writer(data, nextOffset);
      PushedStep(bits, bit);
      if nextOffset < 0 {
        data := data + [0];
        nextOffset := 7;
      }
      var last := |data| - 1;
      data := data[last := OrBit(data[last], 7 - nextOffset, bit)];
      nextOffset := nextOffset - 1;
      assert Writer(data, nextOffset) == Push(before, bit);
      bits := bits + [bit];
    }
  }

  lemma NextPosition(taken: nat)
    ensures taken > 0 ==> taken / 8 == (taken - 1) / 8 + (if taken % 8 == 0 then 1 else 0)
    ensures taken > 0 ==> taken % 8 == if (taken - 1) % 8 == 7 then 0 else (taken - 1) % 8 + 1
  {
  }

  /** mask_vector_reader.  `taken` counts the bits handed out so far. */
  class MaskReader {
    const input: seq<byte>
    const start: nat
    var offset: nat
    var nextBit: nat
    ghost var taken: nat

    ghost predicate Valid()
      reads this
    {
      if taken == 0 then offset == start && nextBit == 0
      else offset == start + (taken - 1) / 8 && nextBit == (taken - 1) % 8 + 1
    }

    constructor (input: seq<byte>, start: nat)
      ensures Valid() && this.input == input && this.start == start && taken == 0
    {
      this.input, this.start := input, start;
      offset, nextBit, taken := start, 0, 0;
    }

    /** ok is false where std::vector::at throws. */
    method PopFront() returns (ok: bool, value: bool)
      requires Valid()
      modifies this
      ensures ok == (start + old(taken) / 8 < |input|)
      ensures ok ==> Valid() && taken == old(taken) + 1 && value == BitAt(input, start, old(taken))
    {
      value := false;
      NextPosition(taken);
      if nextBit == 8 {
        nextBit := 0;
        offset := offset + 1;
      }
      assert offset == start + taken / 8 && nextBit == taken % 8;
      ok := offset < |input|;
      if ok {
        value := TopBit(input[offset] as word, nextBit);
        nextBit := nextBit + 1;
        taken := taken + 1;
      }
    }
  }
}
