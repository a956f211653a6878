/** The palette utilities of the ACE engine: dimming of 12-bit 0x0RGB colours,
    the one-byte-count-then-UWORDs palette file format, and the bit-depth
    computation of the palette dump. Files are byte sequences; opening,
    closing and a missing file are represented by an `Option`. */
module Palette {
  import opened Bytes
  import opened Wrappers

  // ---------------------------------------------------------------------
  // Colours
  // ---------------------------------------------------------------------

  /** Number of distinct 12-bit colours; every dimmed colour is below it. */
  const ColorLimit: int := 0x1000

  /** Largest brightness level, at which dimming changes nothing. */
  const FullLevel: int := 15

  /** `(c >> 8) & 0xF` */
  function Red(c: int): int { (c / 256) % 16 }
  /** `(c >> 4) & 0xF` */
  function Green(c: int): int { (c / 16) % 16 }
  /** `c & 0xF` */
  function Blue(c: int): int { c % 16 }

  /** `(r << 8) | (g << 4) | b` for three nibbles (the bit fields do not
      overlap, so `|` is `+`). */
  function Pack(r: int, g: int, b: int): int
    requires 0 <= r < 16 && 0 <= g < 16 && 0 <= b < 16
  {
    r * 256 + g * 16 + b
  }

  lemma PackUnpack(r: int, g: int, b: int)
    requires 0 <= r < 16 && 0 <= g < 16 && 0 <= b < 16
    ensures 0 <= Pack(r, g, b) < ColorLimit
    ensures Red(Pack(r, g, b)) == r
    ensures Green(Pack(r, g, b)) == g
    ensures Blue(Pack(r, g, b)) == b
  {
    var c := Pack(r, g, b);
    assert c / 256 == r;
    assert c / 16 == r * 16 + g;
  }

  /** A 12-bit colour is the packing of its own three channels. */
  lemma Decompose(c: nat)
    requires c < ColorLimit
    ensures c == Pack(Red(c), Green(c), Blue(c))
  {
    var hi := c / 256;
    var mid := c % 256;
    assert c == hi * 256 + mid;
    assert Red(c) == hi;
    assert Green(c) == mid / 16 by {
      assert c / 16 == hi * 16 + mid / 16;
    }
    assert Blue(c) == mid % 16 by {
      assert c == (hi * 16 + mid / 16) * 16 + mid % 16;
    }
  }

  /** Bits 12-15 of a colour do not affect its channels. */
  lemma ChannelsOfLowBits(c: nat)
    ensures Red(c % ColorLimit) == Red(c)
    ensures Green(c % ColorLimit) == Green(c)
    ensures Blue(c % ColorLimit) == Blue(c)
  {
    var q := c / ColorLimit;
    var low := c % ColorLimit;
    assert c == q * ColorLimit + low;
    assert c / 256 == q * 16 + low / 256;
    assert c / 16 == q * 256 + low / 16;
  }

  /** A 12-bit colour is determined by its three channels. */
  lemma SameChannelsSameColor(a: nat, b: nat)
    requires a < ColorLimit && b < ColorLimit
    requires Red(a) == Red(b) && Green(a) == Green(b) && Blue(a) == Blue(b)
    ensures a == b
  {
    Decompose(a);
    Decompose(b);
  }

  /** `n * level`, written as repeated addition so that the verifier reasons
      about dimming with linear arithmetic only; `ScaleIsProduct` shows it
      is the C product. */
  function Scale(n: nat, level: UByte): nat
  {
    if n == 0 then 0 else level + Scale(n - 1, level)
  }

  lemma {:induction false} ScaleIsProduct(n: nat, level: UByte)
    ensures Scale(n, level) == n * level
  {
    if n > 0 {
      ScaleIsProduct(n - 1, level);
    }
  }

  /** One dimmed channel: `((n * level) / 15) & 0xF`. */
  function DimChannel(n: int, level: UByte): (d: int)
    requires 0 <= n < 16
    ensures 0 <= d < 16
  {
    (Scale(n, level) / FullLevel) % 16
  }

  lemma DimChannelBounds(n: int, level: UByte)
    requires 0 <= n < 16
    ensures level == FullLevel ==> DimChannel(n, level) == n
    ensures level == 0 ==> DimChannel(n, level) == 0
    ensures level <= FullLevel ==> DimChannel(n, level) <= n
  {
    ScaleIsProduct(n, level);
    var p := n * level;
    if level <= FullLevel {
      assert p <= n * FullLevel;
      assert p / FullLevel <= n < 16;
      assert DimChannel(n, level) == p / FullLevel;
      if level == FullLevel {
        assert p == FullLevel * n;
      }
    }
  }

  /** The colour packed from the dimmed channels of `color`. */
  function DimmedColor(color: UWord, level: UByte): (r: UWord)
    ensures r < ColorLimit
    ensures Red(r) == DimChannel(Red(color), level)
    ensures Green(r) == DimChannel(Green(color), level)
    ensures Blue(r) == DimChannel(Blue(color), level)
  {
    var r := DimChannel(Red(color), level);
    var g := DimChannel(Green(color), level);
    var b := DimChannel(Blue(color), level);
    PackUnpack(r, g, b);
    Pack(r, g, b)
  }

  /** A 12-bit colour whose channels are the dimmed channels of `color` is
      the dimmed colour. */
  lemma DimmedChannelsDetermineColor(color: UWord, level: UByte, target: nat)
    requires target < ColorLimit
    requires Red(target) == DimChannel(Red(color), level)
    requires Green(target) == DimChannel(Green(color), level)
    requires Blue(target) == DimChannel(Blue(color), level)
    ensures DimmedColor(color, level) == target
  {
    var d := DimmedColor(color, level);
    SameChannelsSameColor(d, target);
  }

  lemma DimmedFullLevel(color: UWord, level: UByte)
    ensures level == FullLevel ==> DimmedColor(color, level) == color % ColorLimit
  {
    if level != FullLevel {
      return;
    }
    ChannelsOfLowBits(color);
    DimChannelBounds(Red(color), FullLevel);
    DimChannelBounds(Green(color), FullLevel);
    DimChannelBounds(Blue(color), FullLevel);
    DimmedChannelsDetermineColor(color, FullLevel, color % ColorLimit);
  }

  lemma DimmedZeroLevel(color: UWord, level: UByte)
    ensures level == 0 ==> DimmedColor(color, level) == 0
  {
    if level != 0 {
      return;
    }
    DimChannelBounds(Red(color), 0);
    DimChannelBounds(Green(color), 0);
    DimChannelBounds(Blue(color), 0);
    DimmedChannelsDetermineColor(color, 0, 0);
  }

  lemma DimmedNeverBrightens(color: UWord, level: UByte)
    ensures level <= FullLevel ==>
      && Red(DimmedColor(color, level)) <= Red(color)
      && Green(DimmedColor(color, level)) <= Green(color)
      && Blue(DimmedColor(color, level)) <= Blue(color)
  {
    var d := DimmedColor(color, level);
    if level > FullLevel {
      return;
    }
    assert Red(d) <= Red(color) by {
      assert Red(d) == DimChannel(Red(color), level);
      DimChannelBounds(Red(color), level);
    }
    assert Green(d) <= Green(color) by {
      assert Green(d) == DimChannel(Green(color), level);
      DimChannelBounds(Green(color), level);
    }
    assert Blue(d) <= Blue(color) by {
      assert Blue(d) == DimChannel(Blue(color), level);
      DimChannelBounds(Blue(color), level);
    }
  }

  /** paletteColorDim: scales each 4-bit channel of a colour by level/15.
      Each channel of the result depends only on the same channel of the
      input; level 15 keeps a 12-bit colour, level 0 gives black, and no
      level up to 15 brightens any channel. */
  function ColorDim(color: UWord, level: UByte): (r: UWord)
    ensures r < ColorLimit
    ensures Red(r) == DimChannel(Red(color), level)
    ensures Green(r) == DimChannel(Green(color), level)
    ensures Blue(r) == DimChannel(Blue(color), level)
    ensures level == FullLevel ==> r == color % ColorLimit
    ensures level == 0 ==> r == 0
    ensures level <= FullLevel ==>
      Red(r) <= Red(color) && Green(r) <= Green(color) && Blue(r) <= Blue(color)
  {
    DimmedFullLevel(color, level);
    DimmedZeroLevel(color, level);
    DimmedNeverBrightens(color, level);
    DimmedColor(color, level)
  }

  /** Bits 12-15 of the input never influence the dimmed colour: two inputs
      that agree on their low 12 bits dim alike. */
  lemma ColorDimIgnoresHighNibble(a: UWord, b: UWord, level: UByte)
    requires a % ColorLimit == b % ColorLimit
    ensures ColorDim(a, level) == ColorDim(b, level)
  {
    ChannelsOfLowBits(a);
    ChannelsOfLowBits(b);
    DimmedChannelsDetermineColor(b, level, ColorDim(a, level));
  }

  /** paletteDim: writes the dimmed `source[c]` into `dest[c]` for every
      `c < count` and leaves every other entry of `dest` as it was. */
  method Dim(source: seq<UWord>, dest: seq<UWord>, count: UByte, level: UByte)
    returns (r: seq<UWord>)
    requires count <= |source| && count <= |dest|
    ensures |r| == |dest|
    ensures forall c :: 0 <= c < count ==> r[c] == ColorDim(source[c], level)
    ensures forall c :: count <= c < |dest| ==> r[c] == dest[c]
  {
    r := dest;
    var c: UByte := 0;
    while c != count
      invariant c <= count
      invariant |r| == |dest|
      invariant forall i :: 0 <= i < c ==> r[i] == ColorDim(source[i], level)
      invariant forall i :: c <= i < |dest| ==> r[i] == dest[i]
    {
      r := r[c := ColorDim(source[c], level)];
      c := c + 1;
    }
  }

  // ---------------------------------------------------------------------
  // Palette file format: [count: UBYTE][count x UWORD]
  // ---------------------------------------------------------------------

  datatype LoadError =
    /** The file ends before the count byte or before the colours the load
        reads, `min(count, maximum)` of them. The C code would leave the
        length uninitialised in the first case and keep the old values of
        the colours not read in the second. */
    | Truncated

  /** How many colours a load reads: the stored count, capped by the caller. */
  function ColorsRead(bytes: seq<UByte>, maxLength: UByte): (k: UByte)
    requires |bytes| >= 1
    ensures k <= maxLength && k <= bytes[0]
    ensures k == maxLength || k == bytes[0]
  {
    Min(bytes[0], maxLength)
  }

  /** paletteSave: the bytes written for the first `count` colours. */
  function Save(palette: seq<UWord>, count: UByte): (bytes: seq<UByte>)
    requires count <= |palette|
    ensures |bytes| == 1 + 2 * count
    ensures bytes[0] == count
    ensures forall i :: 0 <= i < count ==> BytesToWord(bytes, 1 + 2 * i) == palette[i]
  {
    var body := WordsToBytes(palette[..count]);
    forall i | 0 <= i < count
      ensures BytesToWord([count] + body, 1 + 2 * i) == palette[i]
    {
      WordsToBytesAt(palette[..count], i);
    }
    [count] + body
  }

  /** paletteLoadFromFd: `None` is a null file handle. Otherwise reads the
      count byte, then `min(count, maxLength)` colours into the front of the
      palette; the rest of the palette and of the file is untouched. */
  function LoadFromFd(file: Option<seq<UByte>>, palette: seq<UWord>, maxLength: UByte)
    : (r: Result<seq<UWord>, LoadError>)
    requires maxLength <= |palette|
    ensures file.None? ==> r == Success(palette)
    ensures file.Some? ==>
      (r.Success? <==> |file.value| >= 1 && |file.value| >= 1 + 2 * ColorsRead(file.value, maxLength))
    ensures r.Success? ==> |r.value| == |palette|
    ensures r.Success? && file.Some? ==>
      && (forall i :: 0 <= i < ColorsRead(file.value, maxLength) ==>
            r.value[i] == BytesToWord(file.value, 1 + 2 * i))
      && (forall i :: ColorsRead(file.value, maxLength) <= i < |palette| ==>
            r.value[i] == palette[i])
  {
    match file
    case None => Success(palette)
    case Some(bytes) =>
      if |bytes| < 1 then Failure(Truncated)
      else
        var k := ColorsRead(bytes, maxLength);
        if |bytes| < 1 + 2 * k then Failure(Truncated)
        else
          Success(seq(|palette|, i requires 0 <= i < |palette| =>
            if i < k then BytesToWord(bytes, 1 + 2 * i) else palette[i]))
  }

  /** Saving `n` colours and loading them back with a limit `maxLength`
      restores the first `min(n, maxLength)` colours and keeps the rest. */
  lemma SaveLoadRoundTrip(p: seq<UWord>, n: UByte, q: seq<UWord>, maxLength: UByte)
    requires n <= |p| && maxLength <= |q|
    ensures var k := Min(n, maxLength);
      LoadFromFd(Some(Save(p, n)), q, maxLength) == Success(p[..k] + q[k..])
  {
    var k := Min(n, maxLength);
    var r := LoadFromFd(Some(Save(p, n)), q, maxLength);
    assert r.Success?;
    assert r.value == p[..k] + q[k..];
  }

  /** With a limit at least the saved count, the load gives back exactly the
      saved colours. */
  lemma SaveLoadRoundTripFull(p: seq<UWord>, n: UByte, maxLength: UByte)
    requires n <= |p| && n <= maxLength <= |p|
    ensures LoadFromFd(Some(Save(p, n)), p, maxLength) == Success(p)
  {
    SaveLoadRoundTrip(p, n, p, maxLength);
    assert p[..n] + p[n..] == p;
  }

  /** The load stops after the colours it needs: bytes after them are never read. */
  lemma LoadIgnoresTrailingBytes(bytes: seq<UByte>, extra: seq<UByte>, palette: seq<UWord>, maxLength: UByte)
    requires maxLength <= |palette|
    requires |bytes| >= 1 && |bytes| >= 1 + 2 * ColorsRead(bytes, maxLength)
    ensures LoadFromFd(Some(bytes + extra), palette, maxLength) == LoadFromFd(Some(bytes), palette, maxLength)
  {
    var a := LoadFromFd(Some(bytes + extra), palette, maxLength);
    var b := LoadFromFd(Some(bytes), palette, maxLength);
    assert (bytes + extra)[0] == bytes[0];
    assert a.Success? && b.Success?;
    forall i | 0 <= i < |palette|
      ensures a.value[i] == b.value[i]
    {
      if i < ColorsRead(bytes, maxLength) {
        assert (bytes + extra)[1 + 2 * i] == bytes[1 + 2 * i];
        assert (bytes + extra)[2 + 2 * i] == bytes[2 + 2 * i];
      }
    }
    assert a.value == b.value;
  }

  // ---------------------------------------------------------------------
  // paletteDump
  // ---------------------------------------------------------------------

  function Pow2(b: nat): (p: nat)
    ensures p >= 1
  {
    if b == 0 then 1 else 2 * Pow2(b - 1)
  }

  /** Number of binary digits of `n` (0 for 0): the number of right shifts
      that bring `n` to zero. */
  function BitLength(n: nat): nat
  {
    if n == 0 then 0 else 1 + BitLength(n / 2)
  }

  /** `BitLength(n)` is the least `b` with `n < 2^b`. */
  lemma {:induction false} BitLengthIsLeast(n: nat)
    ensures n < Pow2(BitLength(n))
    ensures BitLength(n) > 0 ==> Pow2(BitLength(n) - 1) <= n
  {
    if n > 0 {
      BitLengthIsLeast(n / 2);
    }
  }

  /** The last colour index of a `count`-colour palette as the UBYTE
      `ubColorCnt - 1`: a count of 0 wraps to 255. */
  function LastColor(count: UByte): (last: UByte)
    ensures count > 0 ==> last == count - 1
    ensures count == 0 ==> last == ByteLimit - 1
  {
    (count + ByteLimit - 1) % ByteLimit
  }

  /** The bit-depth loop of paletteDump: the fewest bitplanes able to index
      every colour up to the last one. */
  method BitDepth(count: UByte) returns (bpp: UByte)
    ensures LastColor(count) < Pow2(bpp)
    ensures bpp > 0 ==> Pow2(bpp - 1) <= LastColor(count)
    ensures count == 0 ==> bpp == 8
  {
    var last: UByte := LastColor(count);
    var b: nat := 0;
    BitLengthIsLeast(last);
    assert Pow2(8) == ByteLimit;
    if BitLength(last) > 8 {
      PowMonotone(8, BitLength(last) - 1);
    }
    while last != 0
      invariant b + BitLength(last) == BitLength(LastColor(count))
      invariant BitLength(LastColor(count)) <= 8
    {
      last := last / 2;
      b := b + 1;
    }
    bpp := b;
    if count == 0 {
      assert Pow2(7) == 128;
      if bpp < 8 {
        PowMonotone(bpp, 7);
      }
    }
  }

  lemma {:induction false} PowMonotone(a: nat, b: nat)
    requires a <= b
    ensures Pow2(a) <= Pow2(b)
  {
    if a < b {
      PowMonotone(a, b - 1);
    }
  }
  /** Colour indices the swatch loop of paletteDump draws, as written: a
      UBYTE index `i` running while `i <= count`, cut off after `fuel`
      iterations because the loop need not stop. */
  function SwatchIndicesAsWritten(count: UByte, i: UByte, fuel: nat): (r: seq<UByte>)
    ensures |r| <= fuel
    decreases fuel
  {
    if fuel == 0 || i > count then []
    else [i] + SwatchIndicesAsWritten(count, (i + 1) % ByteLimit, fuel - 1)
  }

  /** For `count < 255` the loop as written visits `count + 1` indices, the
      last of which, `count`, is not a colour of a `count`-colour palette. */
  lemma {:induction false} SwatchLoopAsWrittenDrawsOneTooMany(count: UByte, i: UByte, fuel: nat)
    requires count < ByteLimit - 1
    requires i <= count + 1 && fuel >= count + 1 - i
    ensures var r := SwatchIndicesAsWritten(count, i, fuel);
      |r| == count + 1 - i && forall j :: 0 <= j < |r| ==> r[j] == i + j
    decreases fuel
  {
    if i <= count {
      assert (i + 1) % ByteLimit == i + 1;
      SwatchLoopAsWrittenDrawsOneTooMany(count, i + 1, fuel - 1);
    }
  }

  /** For `count == 255` the loop as written never exits: after any number
      of iterations it is still running. */
  lemma {:induction false} SwatchLoopAsWrittenNeverExits(i: UByte, fuel: nat)
    ensures |SwatchIndicesAsWritten(ByteLimit - 1, i, fuel)| == fuel
    decreases fuel
  {
    if fuel > 0 {
      SwatchLoopAsWrittenNeverExits((i + 1) % ByteLimit, fuel - 1);
    }
  }

  /** The swatch loop as evidently intended (`i < count`): every colour of
      the palette exactly once, in order, and nothing else. */
  method SwatchIndices(count: UByte) returns (r: seq<UByte>)
    ensures |r| == count
    ensures forall j :: 0 <= j < |r| ==> r[j] == j
  {
    r := [];
    var i: UByte := 0;
    while i < count
      invariant i <= count
      invariant |r| == i
      invariant forall j :: 0 <= j < i ==> r[j] == j
    {
      r := r + [i];
      i := i + 1;
    }
  }
}
