/**
 32-bit packed colours and the byte view of pixel memory.

 A pixel is one 32-bit word. The back buffer is handed to the display as
 32 bits per pixel, with the bytes of each word stored little-endian
 (blue, green, red, then the unused alpha byte).
 */
module Colors {

  /** An unsigned 32-bit word. */
  type Word32 = x: int | 0 <= x < 0x1_0000_0000

  /** An unsigned 8-bit byte. */
  type Byte = x: int | 0 <= x < 0x100

  /** Any 32-bit value is a legal colour; the palette names a few. */
  type Color = Word32

  const COLOR_BLACK: Color   := 0xFF000000
  const COLOR_WHITE: Color   := 0xFFFFFFFF
  const COLOR_GREEN: Color   := 0xFF00FF00
  const COLOR_RED: Color     := 0xFFFF0000
  const COLOR_BLUE: Color    := 0xFF0000FF
  const COLOR_YELLOW: Color  := 0xFFFFFF00
  const COLOR_MAGENTA: Color := 0xFFFF00FF
  const COLOR_CYAN: Color    := 0xFF00FFFF
  const COLOR_PINK: Color    := 0xFFF6A5D1

  /** The byte a conversion to `unsigned char` keeps: the low eight bits. */
  function LowByte(w: Word32): Byte {
    w % 0x100
  }

  /** The word whose four little-endian bytes are `b0 b1 b2 b3`. */
  function WordOfBytes(b0: Byte, b1: Byte, b2: Byte, b3: Byte): Word32 {
    b0 + 0x100 * b1 + 0x1_0000 * b2 + 0x100_0000 * b3
  }

  /** The four little-endian bytes of a word. */
  function BytesOfWord(w: Word32): (bs: seq<Byte>)
    ensures |bs| == 4
  {
    var w1 := w / 0x100;
    var w2 := w1 / 0x100;
    [w % 0x100, w1 % 0x100, w2 % 0x100, w2 / 0x100]
  }

  /** Division by 256 splits off the low byte. */
  lemma SplitLowByte(lo: Byte, hi: nat)
    ensures (lo + 0x100 * hi) / 0x100 == hi
    ensures (lo + 0x100 * hi) % 0x100 == lo
  {
  }

  /** The word made of four copies of one byte. */
  function Splat(b: Byte): Word32 {
    WordOfBytes(b, b, b, b)
  }

  /** Splitting a word into bytes and reassembling it gives the word back. */
  lemma WordBytesRoundTrip(w: Word32)
    ensures var bs := BytesOfWord(w); WordOfBytes(bs[0], bs[1], bs[2], bs[3]) == w
  {
  }

  /** Assembling a word from bytes and splitting it gives the bytes back. */
  lemma BytesWordRoundTrip(b0: Byte, b1: Byte, b2: Byte, b3: Byte)
    ensures BytesOfWord(WordOfBytes(b0, b1, b2, b3)) == [b0, b1, b2, b3]
  {
    var w := WordOfBytes(b0, b1, b2, b3);
    assert w == b0 + 0x100 * (b1 + 0x100 * (b2 + 0x100 * b3));
    SplitLowByte(b0, b1 + 0x100 * (b2 + 0x100 * b3));
    SplitLowByte(b1, b2 + 0x100 * b3);
    SplitLowByte(b2, b3);
  }

  /** A word is four copies of its low byte exactly when all its bytes agree. */
  lemma SplatIffUniformBytes(w: Word32)
    ensures w == Splat(LowByte(w)) <==>
      (var bs := BytesOfWord(w); bs[0] == bs[1] == bs[2] == bs[3])
  {
    var bs := BytesOfWord(w);
    WordBytesRoundTrip(w);
    if w == Splat(LowByte(w)) {
      BytesWordRoundTrip(LowByte(w), LowByte(w), LowByte(w), LowByte(w));
    }
  }
}
