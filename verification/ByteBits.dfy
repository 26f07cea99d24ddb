/** Bytes as bit vectors, for masks and shifts. */
module ByteBits {
  import opened Bytes

  function Nibble(n: int): bv8
    requires 0 <= n < 16
  {
    if n == 0 then 0 else if n == 1 then 1 else if n == 2 then 2 else if n == 3 then 3
    else if n == 4 then 4 else if n == 5 then 5 else if n == 6 then 6 else if n == 7 then 7
    else if n == 8 then 8 else if n == 9 then 9 else if n == 10 then 10 else if n == 11 then 11
    else if n == 12 then 12 else if n == 13 then 13 else if n == 14 then 14 else 15
  }

  /** A byte as a bit vector. */
  function AsBits(b: byte): bv8 { (Nibble(b as int / 16) << 4) | Nibble(b as int % 16) }

  lemma NibbleIs(n: int)
    requires 0 <= n < 16
    ensures Nibble(n) as int == n && Nibble(n) < 16
  {
  }

  lemma TwoNibbles(h: bv8, l: bv8)
    requires h < 16 && l < 16
    ensures ((h << 4) | l) >> 4 == h && ((h << 4) | l) & 0x0F == l
  {
  }

  lemma ValueByNibbles(v: bv8)
    ensures v as int == (v >> 4) as int * 16 + (v & 0x0F) as int
  {
  }

  lemma AsBitsIs(b: byte)
    ensures AsBits(b) as int == b as int
  {
    var h, l := Nibble(b as int / 16), Nibble(b as int % 16);
    NibbleIs(b as int / 16);
    NibbleIs(b as int % 16);
    TwoNibbles(h, l);
    ValueByNibbles(AsBits(b));
  }

  lemma ValueByFields(v: bv8)
    ensures v as int == (v >> 6) as int * 64 + ((v >> 4) & 0x03) as int * 16 + ((v >> 2) & 0x03) as int * 4 + (v & 0x03) as int
    ensures (v >> 6) as int < 4 && ((v >> 4) & 0x03) as int < 4 && ((v >> 2) & 0x03) as int < 4 && (v & 0x03) as int < 4
  {
  }
}
