/** The fixed-width integer types of the Amiga C code (UBYTE, UWORD) and the
    big-endian layout of a UWORD in memory, which is what `fileRead` and
    `fileWrite` copy verbatim to and from a file. */
module Bytes {

  const ByteLimit: int := 0x100
  const WordLimit: int := 0x1_0000

  /** C `UBYTE`. */
  type UByte = x: int | 0 <= x < ByteLimit

  /** C `UWORD`. */
  type UWord = x: int | 0 <= x < WordLimit

  function Min(a: int, b: int): (m: int)
    ensures m <= a && m <= b
    ensures m == a || m == b
  {
    if a <= b then a else b
  }

  /** The two bytes of a UWORD as the 68000 stores it: high byte first. */
  function WordToBytes(w: UWord): (bs: seq<UByte>)
    ensures |bs| == 2
  {
    [w / ByteLimit, w % ByteLimit]
  }

  /** The UWORD held by the two bytes at `bs[at]`, `bs[at + 1]`. */
  function BytesToWord(bs: seq<UByte>, at: nat): UWord
    requires at + 2 <= |bs|
  {
    bs[at] * ByteLimit + bs[at + 1]
  }

  /** The concatenated big-endian bytes of a sequence of UWORDs, which is
      what `fileWrite(f, pWords, 2 * n)` puts on disk. */
  function WordsToBytes(ws: seq<UWord>): (bs: seq<UByte>)
    ensures |bs| == 2 * |ws|
  {
    if ws == [] then [] else WordToBytes(ws[0]) + WordsToBytes(ws[1..])
  }

  /** Word `i` of the sequence sits at bytes `2 * i` and `2 * i + 1`. */
  lemma {:induction false} WordsToBytesAt(ws: seq<UWord>, i: nat)
    requires i < |ws|
    ensures BytesToWord(WordsToBytes(ws), 2 * i) == ws[i]
  {
    if i == 0 {
      assert WordsToBytes(ws)[..2] == WordToBytes(ws[0]);
    } else {
      WordsToBytesAt(ws[1..], i - 1);
      assert WordsToBytes(ws)[2..] == WordsToBytes(ws[1..]);
    }
  }
}
