/** Bytes and words made of them. */
module ByteWords {

  type Byte = b: nat | b < 256

  /** How many values `n` bytes have. */
  function Span(n: nat): (span: nat)
    ensures span > 0
  {
    if n == 0 then 1 else 256 * Span(n - 1)
  }

  lemma EightBytes()
    ensures Span(8) == 0x1_0000_0000_0000_0000
    ensures Span(0) == 1 && Span(1) == 256
  {
    assert Span(1) == 256 && Span(2) == 0x1_0000 && Span(3) == 0x100_0000 && Span(4) == 0x1_0000_0000;
    assert Span(5) == 0x100_0000_0000 && Span(6) == 0x1_0000_0000_0000 && Span(7) == 0x100_0000_0000_0000;
  }
}
