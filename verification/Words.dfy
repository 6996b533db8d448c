/** Bytes and 32-bit machine words. A word is kept as its four little-endian bytes, so that
    byte-granular and word-granular views of the same memory need no arithmetic. */
module Words {
  type byte = x: int | 0 <= x < 256

  const W32: nat := 0x1_0000_0000

  type u32 = x: int | 0 <= x < 0x1_0000_0000

  datatype Word = Word(b0: byte, b1: byte, b2: byte, b3: byte)

  const ZERO_WORD := Word(0, 0, 0, 0)

  datatype Option<+T> = None | Some(value: T)

  function ToWord(n: u32): Word {
    Word(n % 256, n / 256 % 256, n / 65536 % 256, n / 16777216)
  }

  function FromWord(w: Word): u32 {
    w.b0 + 256 * w.b1 + 65536 * w.b2 + 16777216 * w.b3
  }

  function Le32(w: Word): seq<byte> {
    [w.b0, w.b1, w.b2, w.b3]
  }

  function WordAt(s: seq<byte>, p: nat): Word
    requires p + 4 <= |s|
  {
    Word(s[p], s[p + 1], s[p + 2], s[p + 3])
  }

  lemma WordRoundTrip(n: u32)
    ensures FromWord(ToWord(n)) == n
  {
    assert n / 65536 == n / 256 / 256;
    assert n / 16777216 == n / 65536 / 256;
  }

  lemma WordAtLe32(pre: seq<byte>, w: Word, post: seq<byte>)
    ensures WordAt(pre + Le32(w) + post, |pre|) == w
  {
  }
}
