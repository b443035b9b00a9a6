/**
 * The machine integers of the kernel: eight-bit bytes and 32-bit words, and the
 * little-endian byte order in which the file system keeps a word on the device.
 */
module Words {

  type Byte = x: int | 0 <= x < 0x100

  const WORD_SPACE := 0x1_0000_0000

  type Word = x: int | 0 <= x < 0x1_0000_0000

  /** What a 32-bit register keeps of an arithmetic result. */
  function Wrap(x: int): (w: Word) {
    x % WORD_SPACE
  }

  /** The four bytes of a word, least significant first. */
  function ToBytes(v: Word): (b: seq<Byte>)
    ensures |b| == 4
  {
    [v % 0x100, v / 0x100 % 0x100, v / 0x1_0000 % 0x100, v / 0x100_0000]
  }

  function FromBytes(b: seq<Byte>): (v: Word)
    requires |b| == 4
  {
    var b0: int, b1: int, b2: int, b3: int := b[0], b[1], b[2], b[3];
    b0 + 0x100 * b1 + 0x1_0000 * b2 + 0x100_0000 * b3
  }

  /** A word written byte by byte and read back byte by byte is the same word. */
  lemma WordRoundTrip(v: Word)
    ensures FromBytes(ToBytes(v)) == v
  {
    assert v == v % 0x100 + 0x100 * (v / 0x100);
    assert v / 0x100 == v / 0x100 % 0x100 + 0x100 * (v / 0x1_0000);
    assert v / 0x1_0000 == v / 0x1_0000 % 0x100 + 0x100 * (v / 0x100_0000);
  }

  /** Distinct byte patterns are distinct words. */
  lemma BytesRoundTrip(b: seq<Byte>)
    requires |b| == 4
    ensures ToBytes(FromBytes(b)) == b
  {
    var v := FromBytes(b);
    var b1: int, b2: int, b3: int := b[1], b[2], b[3];
    assert v / 0x100 == b1 + 0x100 * b2 + 0x1_0000 * b3;
    assert v / 0x1_0000 == b2 + 0x100 * b3;
    assert v / 0x100_0000 == b3;
  }
}
