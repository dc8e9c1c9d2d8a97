/**
 * The frame buffer shared between the appsink callback and the renderer
 * (`ImageRaw` in src/appsink.rs) and the strided RGB -> RGBX copy that fills it.
 */
module Frame {

  /** An unsigned 8-bit value, Rust's `u8`. */
  newtype byte = x: int | 0 <= x < 256

  /** The frame geometry requested through the appsink caps. */
  const Width: nat := 176
  const Height: nat := 144
  /** Bytes per pixel in the caps format "RGB". */
  const SourceBytesPerPixel: nat := 3
  /** Bytes per pixel of the frame buffer: three colour bytes and one padding byte. */
  const FrameBytesPerPixel: nat := 4
  /** Length of `ImageRaw`, the array `[u8; 176 * 144 * 4]`. */
  const FrameLen: nat := Width * Height * FrameBytesPerPixel

  lemma FrameLenValue()
    ensures FrameLen == 101376 && FrameLen % FrameBytesPerPixel == 0
    ensures FrameLen / FrameBytesPerPixel == Width * Height == 25344
  {
  }

  function Min(a: int, b: int): int { if a <= b then a else b }

  /**
   * The number of pixels the copy writes: `chunks_exact_mut(4)` of the
   * destination zipped with `chunks_exact(3)` of the source stops at the
   * shorter of the two chunk sequences.
   */
  function Pixels(dest: seq<byte>, src: seq<byte>): (n: nat)
    ensures 4 * n <= |dest| && 3 * n <= |src|
    ensures 4 * (n + 1) > |dest| || 3 * (n + 1) > |src|
  {
    Min(|dest| / 4, |src| / 3)
  }

  /**
   * The value of the destination after the loop
   *   for (d, s) in dest.chunks_exact_mut(4).zip(src.chunks_exact(3)) { d[..3].copy_from_slice(s) }
   * written chunk by chunk, as the zip walks it.
   */
  function ZipCopy(dest: seq<byte>, src: seq<byte>): (r: seq<byte>)
    ensures |r| == |dest|
  {
    if |dest| < 4 || |src| < 3 then dest
    else src[..3] + [dest[3]] + ZipCopy(dest[4..], src[3..])
  }

  /** What the copy leaves at destination index `j`, stated pixel-wise. */
  function CopiedAt(dest: seq<byte>, src: seq<byte>, j: nat): byte
    requires j < |dest|
  {
    if j / 4 < Pixels(dest, src) && j % 4 < 3 then src[3 * (j / 4) + j % 4] else dest[j]
  }

  /**
   * The copy keeps the destination's length, and every byte of the result
   * is the source byte of its pixel when the pixel is written and its colour
   * channel is one of the first three, and the old byte otherwise.
   */
  lemma {:induction false} ZipCopyAt(dest: seq<byte>, src: seq<byte>, j: nat)
    requires j < |dest|
    ensures |ZipCopy(dest, src)| == |dest|
    ensures ZipCopy(dest, src)[j] == CopiedAt(dest, src, j)
    decreases |dest|
  {
    if |dest| < 4 || |src| < 3 {
      assert Pixels(dest, src) == 0;
    } else {
      var rest := ZipCopy(dest[4..], src[3..]);
      assert Pixels(dest[4..], src[3..]) == Pixels(dest, src) - 1;
      if j < 4 {
        assert j / 4 == 0 && j % 4 == j;
      } else {
        ZipCopyAt(dest[4..], src[3..], j - 4);
        assert (j - 4) / 4 == j / 4 - 1 && (j - 4) % 4 == j % 4;
        assert ZipCopy(dest, src)[j] == rest[j - 4];
      }
    }
  }

  /** Two destinations of equal length agreeing with `CopiedAt` everywhere are the copy. */
  lemma ZipCopyIsPointwise(dest: seq<byte>, src: seq<byte>, r: seq<byte>)
    requires |r| == |dest|
    requires forall j :: 0 <= j < |r| ==> r[j] == CopiedAt(dest, src, j)
    ensures r == ZipCopy(dest, src)
  {
    forall j | 0 <= j < |r| ensures r[j] == ZipCopy(dest, src)[j] {
      ZipCopyAt(dest, src, j);
    }
  }

  /** Pixel `i` below the written count gets the source triple `i` in its first three bytes. */
  lemma CopyWritesColour(dest: seq<byte>, src: seq<byte>, i: nat, k: nat)
    requires i < Pixels(dest, src) && k < 3
    ensures 4 * i + k < |ZipCopy(dest, src)|
    ensures ZipCopy(dest, src)[4 * i + k] == src[3 * i + k]
  {
    ZipCopyAt(dest, src, 4 * i + k);
    assert (4 * i + k) / 4 == i && (4 * i + k) % 4 == k;
  }

  /** The fourth (padding) byte of every pixel is left as it was. */
  lemma CopyKeepsPadding(dest: seq<byte>, src: seq<byte>, i: nat)
    requires 4 * i + 3 < |dest|
    ensures 4 * i + 3 < |ZipCopy(dest, src)|
    ensures ZipCopy(dest, src)[4 * i + 3] == dest[4 * i + 3]
  {
    ZipCopyAt(dest, src, 4 * i + 3);
    assert (4 * i + 3) % 4 == 3;
  }

  /** Bytes of pixels at or beyond the written count (and the trailing partial chunk) are left as they were. */
  lemma CopyKeepsSurplus(dest: seq<byte>, src: seq<byte>, j: nat)
    requires 4 * Pixels(dest, src) <= j < |dest|
    ensures j < |ZipCopy(dest, src)|
    ensures ZipCopy(dest, src)[j] == dest[j]
  {
    ZipCopyAt(dest, src, j);
  }

  /** A byte changes only if it is a colour byte of a written pixel. */
  lemma CopyChangesOnlyColour(dest: seq<byte>, src: seq<byte>, j: nat)
    requires j < |dest| && ZipCopy(dest, src)[j] != dest[j]
    ensures j < 4 * Pixels(dest, src) && j % 4 < 3
    ensures ZipCopy(dest, src)[j] == src[3 * (j / 4) + j % 4]
  {
    ZipCopyAt(dest, src, j);
  }

  /** A trailing partial source triple (`|src| % 3` bytes) has no effect. */
  lemma {:induction false} CopyIgnoresTrailing(dest: seq<byte>, src: seq<byte>)
    ensures ZipCopy(dest, src) == ZipCopy(dest, src[..3 * (|src| / 3)])
  {
    var whole := src[..3 * (|src| / 3)];
    assert Pixels(dest, src) == Pixels(dest, whole);
    forall j | 0 <= j < |dest| ensures ZipCopy(dest, src)[j] == CopiedAt(dest, whole, j) {
      ZipCopyAt(dest, src, j);
    }
    ZipCopyIsPointwise(dest, whole, ZipCopy(dest, src));
  }

  /** An empty payload leaves the buffer unchanged. */
  lemma CopyEmpty(dest: seq<byte>)
    ensures ZipCopy(dest, []) == dest
  {
  }

  /** Copying the same source twice gives the buffer of copying it once. */
  lemma {:induction false} CopyIdempotent(dest: seq<byte>, src: seq<byte>)
    ensures ZipCopy(ZipCopy(dest, src), src) == ZipCopy(dest, src)
  {
    var once := ZipCopy(dest, src);
    assert Pixels(once, src) == Pixels(dest, src);
    forall j | 0 <= j < |once| ensures once[j] == CopiedAt(once, src, j) {
      ZipCopyAt(dest, src, j);
    }
    ZipCopyIsPointwise(once, src, once);
  }

  /**
   * The buffer keeps only the latest frame: a source covering at least as
   * many pixels as an earlier one hides it entirely.
   */
  lemma {:induction false} CopyLastWins(dest: seq<byte>, first: seq<byte>, second: seq<byte>)
    requires Pixels(dest, first) <= Pixels(dest, second)
    ensures ZipCopy(ZipCopy(dest, first), second) == ZipCopy(dest, second)
  {
    var mid := ZipCopy(dest, first);
    assert Pixels(mid, second) == Pixels(dest, second);
    forall j | 0 <= j < |dest| ensures ZipCopy(mid, second)[j] == CopiedAt(dest, second, j) {
      ZipCopyAt(mid, second, j);
      ZipCopyAt(dest, first, j);
    }
    ZipCopyIsPointwise(dest, second, ZipCopy(mid, second));
  }

  /** A full 176x144 RGB frame fills every pixel of the frame buffer. */
  lemma FullFrameFillsBuffer(dest: seq<byte>, src: seq<byte>)
    requires |dest| == FrameLen
    requires |src| >= Width * Height * SourceBytesPerPixel
    ensures Pixels(dest, src) == Width * Height
  {
  }

  /**
   * Publishing an all-0xFF full frame into a zero buffer gives pixels
   * [0xFF, 0xFF, 0xFF, 0x00]: the padding keeps its initial value.
   */
  lemma WhiteFrameOnZeroBuffer(dest: seq<byte>, src: seq<byte>, i: nat)
    requires |dest| == FrameLen && forall j :: 0 <= j < |dest| ==> dest[j] == 0
    requires |src| == Width * Height * SourceBytesPerPixel && forall j :: 0 <= j < |src| ==> src[j] == 0xFF
    requires i < Width * Height
    ensures ZipCopy(dest, src)[4 * i .. 4 * i + 4] == [0xFF, 0xFF, 0xFF, 0x00]
  {
    CopyWritesColour(dest, src, i, 0);
    CopyWritesColour(dest, src, i, 1);
    CopyWritesColour(dest, src, i, 2);
    CopyKeepsPadding(dest, src, i);
  }
}
