/*
 * Endianness-swap row transform of the framebuffer helpers
 * (framebuffer_swap in hw/display/framebuffer.c).
 *
 * The line buffer is a byte array whose length is its stride. A swap
 * reads whole 16- or 32-bit units from the source row and writes the
 * transformed units to the front of the line buffer. Units are loaded
 * and stored in little-endian host order; every transform below only
 * permutes the bytes of a unit, so its effect on bytes is the same on a
 * big-endian host.
 */
module FramebufferSwap {

  /** enum framebuffer_swapmode (framebuffer.h) */
  datatype SwapMode = SwapNone | Swap16Bytes | Swap32Bytes | Swap32Words

  /** Bytes per unit handled by one iteration of a swap loop. */
  function UnitSize(mode: SwapMode): (n: nat)
    requires mode != SwapNone
    ensures n == 2 || n == 4
  {
    if mode == Swap16Bytes then 2 else 4
  }

  /** Number of bytes a swap writes into a line buffer of the given stride:
      stride/2 half-words or stride/4 words. */
  function Covered(mode: SwapMode, stride: nat): (m: nat)
    requires mode != SwapNone
    ensures m <= stride && Whole(mode, m)
    ensures stride % 4 == 0 ==> m == stride
  {
    if mode == Swap16Bytes then
      WholeUnits(mode, stride / 2);
      stride / 2 * 2
    else
      WholeUnits(mode, stride / 4);
      stride / 4 * 4
  }

  /** m bytes are a whole number of units. */
  predicate Whole(mode: SwapMode, m: nat)
    requires mode != SwapNone
    decreases m
  {
    m == 0 || (UnitSize(mode) <= m && Whole(mode, m - UnitSize(mode)))
  }

  /** k units make a whole number of units. */
  lemma {:induction false} WholeUnits(mode: SwapMode, k: nat)
    requires mode != SwapNone
    ensures mode == Swap16Bytes ==> Whole(mode, 2 * k)
    ensures mode != Swap16Bytes ==> Whole(mode, 4 * k)
  {
    if k > 0 {
      WholeUnits(mode, k - 1);
    }
  }

  // ---------------------------------------------------------------------
  // Word operations, written as the C expressions are

  function Bswap16(x: bv16): bv16
  {
    (x << 8) | (x >> 8)
  }

  function Bswap32(x: bv32): bv32
  {
    (x << 24) | ((x & 0xff00) << 8) | ((x >> 8) & 0xff00) | (x >> 24)
  }

  /** The FB_SWAP_32_WORDS expression with C precedence made explicit:
      `<<` and `>>` bind tighter than `&`, so the shifts apply to the masks. */
  function Words32AsWritten(x: bv32): bv32
  {
    (x & (0x0000ffff << 16)) | (x & (0xffff0000 >> 16))
  }

  /** The half-word exchange the FB_SWAP_32_WORDS mode is named for. */
  function HalvesSwapped32(x: bv32): bv32
  {
    ((x & 0x0000ffff) << 16) | ((x & 0xffff0000) >> 16)
  }

  // ---------------------------------------------------------------------
  // Loading and storing units (little-endian host)

  function Load16(b0: bv8, b1: bv8): bv16
  {
    (b0 as bv16) | ((b1 as bv16) << 8)
  }

  function Store16(x: bv16): (r: seq<bv8>)
    ensures |r| == 2
  {
    [(x & 0xff) as bv8, (x >> 8) as bv8]
  }

  function Load32(b0: bv8, b1: bv8, b2: bv8, b3: bv8): bv32
  {
    (b0 as bv32) | ((b1 as bv32) << 8) | ((b2 as bv32) << 16) | ((b3 as bv32) << 24)
  }

  function Store32(x: bv32): (r: seq<bv8>)
    ensures |r| == 4
  {
    [(x & 0xff) as bv8, ((x >> 8) & 0xff) as bv8, ((x >> 16) & 0xff) as bv8, (x >> 24) as bv8]
  }

  /** One output unit: the bytes of the unit at byte offset o of `src`, in
      the order the mode's word operation leaves them once loaded and stored
      back (Swap16Unit, Swap32BytesUnit and Swap32WordsUnit). */
  function SwapUnit(mode: SwapMode, src: seq<bv8>, o: nat): (r: seq<bv8>)
    requires mode != SwapNone
    requires o + UnitSize(mode) <= |src|
    ensures |r| == UnitSize(mode)
  {
    seq(UnitSize(mode), p requires 0 <= p < UnitSize(mode) => src[o + UnitIndex(mode, p)])
  }

  /** The first m output bytes (whole units) of a swap of `src`. */
  function SwapLine(mode: SwapMode, src: seq<bv8>, m: nat): (r: seq<bv8>)
    requires mode != SwapNone
    requires Whole(mode, m) && m <= |src|
    ensures |r| == m
    decreases m
  {
    if m == 0 then [] else
      var o := m - UnitSize(mode);
      SwapLine(mode, src, o) + SwapUnit(mode, src, o)
  }

  /** Where byte p of an output unit comes from within its source unit:
      the mirrored position for the byte swaps, the other half for
      the half-word exchange. */
  function UnitIndex(mode: SwapMode, p: nat): (i: nat)
    requires mode != SwapNone
    requires p < UnitSize(mode)
    ensures i < UnitSize(mode)
  {
    match mode
    case Swap16Bytes => 1 - p
    case Swap32Bytes => 3 - p
    case Swap32Words => if p < 2 then p + 2 else p - 2
  }

  /** Where output byte j of a swap comes from in the source: the same unit,
      at position UnitIndex within it. */
  function SourceIndex(mode: SwapMode, j: nat): nat
    requires mode != SwapNone
    decreases j
  {
    if j < UnitSize(mode) then UnitIndex(mode, j)
    else SourceIndex(mode, j - UnitSize(mode)) + UnitSize(mode)
  }

  // ---------------------------------------------------------------------
  // What each unit operation does to bytes

  lemma Swap16Unit(b0: bv8, b1: bv8)
    ensures Store16(Bswap16(Load16(b0, b1))) == [b1, b0]
  {
  }

  lemma Swap32BytesUnit(b0: bv8, b1: bv8, b2: bv8, b3: bv8)
    ensures Store32(Bswap32(Load32(b0, b1, b2, b3))) == [b3, b2, b1, b0]
  {
  }

  lemma Swap32WordsUnit(b0: bv8, b1: bv8, b2: bv8, b3: bv8)
    ensures Store32(HalvesSwapped32(Load32(b0, b1, b2, b3))) == [b2, b3, b0, b1]
  {
  }

  /** Every output byte of a swap is the source byte at SourceIndex, which
      lies in the same unit. */
  lemma {:induction false} SwapLineAt(mode: SwapMode, src: seq<bv8>, m: nat, j: nat)
    requires mode != SwapNone
    requires Whole(mode, m) && m <= |src|
    requires j < m
    ensures SourceIndex(mode, j) < m
    ensures SwapLine(mode, src, m)[j] == src[SourceIndex(mode, j)]
    decreases m
  {
    var o := m - UnitSize(mode);
    if j < o {
      assert Whole(mode, o);
      SwapLineAt(mode, src, o, j);
      assert SwapLine(mode, src, m) == SwapLine(mode, src, o) + SwapUnit(mode, src, o);
    } else {
      LastUnitIndex(mode, src, m, j);
      UnitSourceAt(mode, src, o, j);
    }
  }

  /** Byte j of the unit that starts at o comes from source byte SourceIndex(j),
      inside the same unit. */
  lemma UnitSourceAt(mode: SwapMode, src: seq<bv8>, o: nat, j: nat)
    requires mode != SwapNone
    requires Whole(mode, o) && o + UnitSize(mode) <= |src|
    requires o <= j < o + UnitSize(mode)
    ensures o <= SourceIndex(mode, j) < o + UnitSize(mode)
    ensures SwapUnit(mode, src, o)[j - o] == src[SourceIndex(mode, j)]
  {
    var p := j - o;
    InUnit(mode, o, p);
    assert SourceIndex(mode, j) == o + UnitIndex(mode, p);
    SwapUnitAt(mode, src, o, p);
  }

  /** Byte p of an output unit is byte UnitIndex(mode, p) of its source unit. */
  lemma SwapUnitAt(mode: SwapMode, src: seq<bv8>, o: nat, p: nat)
    requires mode != SwapNone
    requires o + UnitSize(mode) <= |src| && p < UnitSize(mode)
    ensures SwapUnit(mode, src, o)[p] == src[o + UnitIndex(mode, p)]
  {
  }

  /** Byte j of the last unit of a swapped line, read inside that unit. */
  lemma LastUnitIndex(mode: SwapMode, src: seq<bv8>, m: nat, j: nat)
    requires mode != SwapNone
    requires Whole(mode, m) && m <= |src|
    requires m - UnitSize(mode) <= j < m
    ensures Whole(mode, m - UnitSize(mode))
    ensures SwapLine(mode, src, m)[j] == SwapUnit(mode, src, m - UnitSize(mode))[j - (m - UnitSize(mode))]
  {
    var o := m - UnitSize(mode);
    assert Whole(mode, o);
    SwapLineStep(mode, src, o);
  }

  /** Byte p of the unit that starts at byte o comes from position
      UnitIndex(mode, p) of the same unit. */
  lemma {:induction false} InUnit(mode: SwapMode, o: nat, p: nat)
    requires mode != SwapNone
    requires Whole(mode, o) && p < UnitSize(mode)
    ensures SourceIndex(mode, o + p) == o + UnitIndex(mode, p)
    decreases o
  {
    if o > 0 {
      InUnit(mode, o - UnitSize(mode), p);
    }
  }

  /** Extending a swapped prefix by one unit. */
  lemma SwapLineStep(mode: SwapMode, src: seq<bv8>, d: nat)
    requires mode != SwapNone
    requires Whole(mode, d) && d + UnitSize(mode) <= |src|
    ensures Whole(mode, d + UnitSize(mode))
    ensures SwapLine(mode, src, d + UnitSize(mode)) == SwapLine(mode, src, d) + SwapUnit(mode, src, d)
  {
  }

  /** SourceIndex pairs bytes up: applied twice it gives back the position. */
  lemma {:induction false} SourceIndexTwice(mode: SwapMode, j: nat)
    requires mode != SwapNone
    ensures SourceIndex(mode, SourceIndex(mode, j)) == j
    decreases j
  {
    if j >= UnitSize(mode) {
      SourceIndexTwice(mode, j - UnitSize(mode));
    }
  }

  /** Swapping a swapped line with the same mode gives back the source bytes:
      every mode is its own inverse on the units it covers. */
  lemma SwapLineTwice(mode: SwapMode, src: seq<bv8>, m: nat)
    requires mode != SwapNone
    requires Whole(mode, m) && m <= |src|
    ensures SwapLine(mode, SwapLine(mode, src, m), m) == src[..m]
  {
    var once := SwapLine(mode, src, m);
    forall j | 0 <= j < m
      ensures SwapLine(mode, once, m)[j] == src[j]
    {
      SwapLineAt(mode, once, m, j);
      var i := SourceIndex(mode, j);
      SwapLineAt(mode, src, m, i);
      SourceIndexTwice(mode, j);
    }
  }

  // ---------------------------------------------------------------------
  // FB_SWAP_32_WORDS as written, and the intended half-word exchange

  lemma Words32AsWrittenCopies(x: bv32)
    ensures Words32AsWritten(x) == x
  {
  }

  /** As written, one SWAP_32_WORDS unit is stored back byte for byte. */
  lemma Words32AsWrittenUnit(b0: bv8, b1: bv8, b2: bv8, b3: bv8)
    ensures Store32(Words32AsWritten(Load32(b0, b1, b2, b3))) == [b0, b1, b2, b3]
  {
    Words32AsWrittenCopies(Load32(b0, b1, b2, b3));
  }

  /** A word whose halves differ is left as it is by the expression as
      written, where the mode's name promises its halves exchanged. */
  lemma Words32AsWrittenKeepsHalves()
    ensures Words32AsWritten(0x12345678) == 0x12345678
    ensures HalvesSwapped32(0x12345678) == 0x56781234
  {
  }

  /** The intended operation exchanges the two 16-bit halves and is its own inverse. */
  lemma HalvesSwapped32Exchanges(x: bv32)
    ensures HalvesSwapped32(x) & 0xffff == x >> 16
    ensures HalvesSwapped32(x) >> 16 == x & 0xffff
    ensures HalvesSwapped32(HalvesSwapped32(x)) == x
  {
  }

  // ---------------------------------------------------------------------
  // framebuffer_swap

  /** Fills the front of the line buffer with the swapped units of `src`:
      stride/2 half-words for SWAP_16, stride/4 words for the 32-bit modes.
      The bytes past the last whole unit are left as they were. SWAP_32_WORDS
      uses the intended half-word exchange; the loop as written is
      Swap32WordsAsWritten. */
  method Swap(mode: SwapMode, line: array<bv8>, src: seq<bv8>)
    requires mode != SwapNone
    requires Covered(mode, line.Length) <= |src|
    modifies line
    ensures line[..] == SwapLine(mode, src, Covered(mode, line.Length))
                        + old(line[..])[Covered(mode, line.Length)..]
  {
    var m := Covered(mode, line.Length);
    match mode {
      case Swap16Bytes => Swap16Loop(line, src);
      case Swap32Bytes => Swap32Loop(mode, line, src);
      case Swap32Words => Swap32Loop(mode, line, src);
    }
    assert line[m..] == old(line[..])[m..];
    assert line[..] == line[..m] + line[m..];
  }

  /** The FB_SWAP_16_BYTES loop: stride/2 half-words, each byte-swapped. */
  method Swap16Loop(line: array<bv8>, src: seq<bv8>)
    requires Covered(Swap16Bytes, line.Length) <= |src|
    modifies line
    ensures line[..Covered(Swap16Bytes, line.Length)] == SwapLine(Swap16Bytes, src, Covered(Swap16Bytes, line.Length))
    ensures forall t :: Covered(Swap16Bytes, line.Length) <= t < line.Length ==> line[t] == old(line[t])
  {
    var swaps := line.Length / 2;
    var s, d := 0, 0;
    while swaps != 0
      invariant 0 <= swaps && d == s && d + 2 * swaps == Covered(Swap16Bytes, line.Length)
      invariant Whole(Swap16Bytes, d) && line[..d] == SwapLine(Swap16Bytes, src, d)
      invariant forall t :: d <= t < line.Length ==> line[t] == old(line[t])
      decreases swaps
    {
      var w := Store16(Bswap16(Load16(src[s], src[s + 1])));
      Swap16Unit(src[s], src[s + 1]);
      assert w == SwapUnit(Swap16Bytes, src, d);
      SwapLineStep(Swap16Bytes, src, d);
      line[d] := w[0];
      line[d + 1] := w[1];
      assert line[..d + 2] == line[..d] + w;
      s, d, swaps := s + 2, d + 2, swaps - 1;
    }
  }

  /** The FB_SWAP_32_BYTES and FB_SWAP_32_WORDS loops: stride/4 words, each
      passed through the mode's word operation. For SWAP_32_WORDS that is the
      half-word exchange HalvesSwapped32; the C expression as written is
      Words32AsWritten, which leaves every word unchanged. */
  method Swap32Loop(mode: SwapMode, line: array<bv8>, src: seq<bv8>)
    requires mode == Swap32Bytes || mode == Swap32Words
    requires Covered(mode, line.Length) <= |src|
    modifies line
    ensures line[..Covered(mode, line.Length)] == SwapLine(mode, src, Covered(mode, line.Length))
    ensures forall t :: Covered(mode, line.Length) <= t < line.Length ==> line[t] == old(line[t])
  {
    var swaps := line.Length / 4;
    var s, d := 0, 0;
    while swaps != 0
      invariant 0 <= swaps && d == s && d + 4 * swaps == Covered(mode, line.Length)
      invariant Whole(mode, d) && line[..d] == SwapLine(mode, src, d)
      invariant forall t :: d <= t < line.Length ==> line[t] == old(line[t])
      decreases swaps
    {
      var x := Load32(src[s], src[s + 1], src[s + 2], src[s + 3]);
      var w := if mode == Swap32Bytes then Store32(Bswap32(x)) else Store32(HalvesSwapped32(x));
      if mode == Swap32Bytes {
        Swap32BytesUnit(src[s], src[s + 1], src[s + 2], src[s + 3]);
      } else {
        Swap32WordsUnit(src[s], src[s + 1], src[s + 2], src[s + 3]);
      }
      assert w == SwapUnit(mode, src, d);
      SwapLineStep(mode, src, d);
      PutWord(line, d, w);
      s, d, swaps := s + 4, d + 4, swaps - 1;
    }
  }

  /** Stores one 32-bit unit at byte offset d of the line buffer. */
  method PutWord(line: array<bv8>, d: nat, w: seq<bv8>)
    requires |w| == 4 && d + 4 <= line.Length
    modifies line
    ensures line[..d + 4] == old(line[..d]) + w
    ensures forall t :: 0 <= t < line.Length && (t < d || d + 4 <= t) ==> line[t] == old(line[t])
  {
    line[d] := w[0];
    line[d + 1] := w[1];
    line[d + 2] := w[2];
    line[d + 3] := w[3];
  }

  /** The FB_SWAP_32_WORDS loop as written: stride/4 words pass through
      Words32AsWritten, so the covered front of the line buffer receives the
      source bytes unchanged. */
  method Swap32WordsAsWritten(line: array<bv8>, src: seq<bv8>)
    requires Covered(Swap32Words, line.Length) <= |src|
    modifies line
    ensures line[..Covered(Swap32Words, line.Length)] == src[..Covered(Swap32Words, line.Length)]
    ensures forall t :: Covered(Swap32Words, line.Length) <= t < line.Length ==> line[t] == old(line[t])
  {
    var swaps := line.Length / 4;
    var s, d := 0, 0;
    while swaps != 0
      invariant 0 <= swaps && d == s && d + 4 * swaps == Covered(Swap32Words, line.Length)
      invariant line[..d] == src[..d]
      invariant forall t :: d <= t < line.Length ==> line[t] == old(line[t])
      decreases swaps
    {
      var w := Store32(Words32AsWritten(Load32(src[s], src[s + 1], src[s + 2], src[s + 3])));
      Words32AsWrittenUnit(src[s], src[s + 1], src[s + 2], src[s + 3]);
      assert src[..d + 4] == src[..d] + w;
      PutWord(line, d, w);
      s, d, swaps := s + 4, d + 4, swaps - 1;
    }
  }
}
