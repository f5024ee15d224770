/** The vertical flip every decoded texture goes through before upload.

    Images arrive with their first row at the top while the texture origin is
    at the bottom, so row `j` and row `height - 1 - j` are exchanged byte by
    byte for every `j < height / 2`. The method below follows the two loops of
    `flipImageVertically` step for step; its result is proved equal to the
    reference flip `ImageRows.FlipRows`.
 */
module Flip {
  import opened ImageRows

  /** C's `n / 2` on an `int`: the quotient truncated toward zero. */
  function CHalf(n: int): (h: int)
    ensures n >= 0 ==> 0 <= h && h + h <= n < h + h + 2
    ensures n < 0 ==> h <= 0 && h + h >= n > h + h - 2
  {
    if n >= 0 then n / 2 else -((-n) / 2)
  }

  /** Rows that take part in the flip: with fewer than two rows the outer
      loop exchanges nothing. */
  function ActiveRows(height: int): nat
  {
    if height >= 2 then height else 0
  }

  /** Bytes the inner loop visits per row: `width * channels` when that is
      positive, none otherwise. */
  function RowBytes(width: int, channels: int): nat
  {
    if width * channels > 0 then width * channels else 0
  }

  /** The row whose byte `k` sits in row `r` once the first `j` row pairs,
      and the first `t` bytes of pair `j`, have been exchanged. */
  function SourceRow(r: int, k: int, rows: int, j: int, t: int): int
  {
    if r < j || rows - 1 - r < j || ((r == j || rows - 1 - r == j) && k < t) then rows - 1 - r else r
  }

  /** Byte `k` of row `r` of `img` is byte `k` of row
      `SourceRow(r, k, rows, j, t)` of `image`. */
  ghost predicate PlacedAt(image: seq<byte>, img: seq<byte>, rows: nat, w: nat, j: int, t: int, r: int, k: int)
  {
    && 0 <= Offset(r, k, w) < |img|
    && 0 <= Offset(SourceRow(r, k, rows, j, t), k, w) < |image|
    && img[Offset(r, k, w)] == image[Offset(SourceRow(r, k, rows, j, t), k, w)]
  }

  /** Loop invariant of the flip: `img` is `image` with the exchanges done
      so far applied, a permutation of it, and equal to it past the rows. */
  ghost predicate Progress(image: seq<byte>, img: seq<byte>, rows: nat, w: nat, j: int, t: int)
  {
    && rows * w <= |image|
    && |img| == |image|
    && multiset(img) == multiset(image)
    && (forall p :: rows * w <= p < |img| ==> img[p] == image[p])
    && (forall r, k :: 0 <= r < rows && 0 <= k < w ==> PlacedAt(image, img, rows, w, j, t, r, k))
  }

  /** Before the first exchange every byte is where it started. */
  lemma ProgressStart(image: seq<byte>, rows: nat, w: nat)
    requires rows * w <= |image|
    ensures Progress(image, image, rows, w, 0, 0)
  {
    forall r, k | 0 <= r < rows && 0 <= k < w
      ensures PlacedAt(image, image, rows, w, 0, 0, r, k)
    {
      OffsetInRows(r, k, rows, w);
    }
  }

  /** The byte at (r, k) after exchanging byte `t` of rows `j` and
      `rows - 1 - j` is the one `SourceRow` names for `t + 1` bytes done. */
  lemma SwapStepAt(image: seq<byte>, img: seq<byte>, rows: nat, w: nat, j: int, t: int, r: int, k: int)
    requires Progress(image, img, rows, w, j, t)
    requires 0 <= j < rows / 2 && 0 <= t < w
    requires 0 <= r < rows && 0 <= k < w
    ensures 0 <= Offset(j, t, w) < Offset(rows - 1 - j, t, w) < rows * w
    ensures PlacedAt(image, Swap(img, Offset(j, t, w), Offset(rows - 1 - j, t, w)), rows, w, j, t + 1, r, k)
  {
    var a, b := Offset(j, t, w), Offset(rows - 1 - j, t, w);
    OffsetInRows(j, t, rows, w);
    OffsetInRows(rows - 1 - j, t, rows, w);
    MulAtLeast(rows - 1 - j - j, w);
    assert b - a == (rows - 1 - j - j) * w;
    OffsetInRows(r, k, rows, w);
    OffsetInRows(SourceRow(r, k, rows, j, t + 1), k, rows, w);
    var p := Offset(r, k, w);
    if p == a {
      OffsetInjective(r, k, j, t, w);
      assert PlacedAt(image, img, rows, w, j, t, rows - 1 - j, t);
    } else if p == b {
      OffsetInjective(r, k, rows - 1 - j, t, w);
      assert PlacedAt(image, img, rows, w, j, t, j, t);
    } else {
      assert !(k == t && (r == j || r == rows - 1 - j));
      assert PlacedAt(image, img, rows, w, j, t, r, k);
    }
  }

  /** One pass of the inner loop body: exchanging byte `t` of row `j` with
      byte `t` of row `rows - 1 - j` stays inside the rows and advances the
      invariant by one byte. */
  lemma SwapStep(image: seq<byte>, img: seq<byte>, rows: nat, w: nat, j: int, t: int)
    requires Progress(image, img, rows, w, j, t)
    requires 0 <= j < rows / 2 && 0 <= t < w
    ensures 0 <= Offset(j, t, w) < Offset(rows - 1 - j, t, w) < rows * w
    ensures Progress(image, Swap(img, Offset(j, t, w), Offset(rows - 1 - j, t, w)), rows, w, j, t + 1)
  {
    var a, b := Offset(j, t, w), Offset(rows - 1 - j, t, w);
    SwapStepAt(image, img, rows, w, j, t, j, t);
    var img', t' := Swap(img, a, b), t + 1;
    forall r, k | 0 <= r < rows && 0 <= k < w
      ensures PlacedAt(image, img', rows, w, j, t', r, k)
    {
      SwapStepAt(image, img, rows, w, j, t, r, k);
    }
  }

  /** Once all `w` bytes of pair `j` are exchanged, pair `j + 1` starts. */
  lemma PairDone(image: seq<byte>, img: seq<byte>, rows: nat, w: nat, j: int, t: int)
    requires Progress(image, img, rows, w, j, t)
    requires t >= w
    ensures Progress(image, img, rows, w, j + 1, 0)
  {
    var j' := j + 1;
    forall r, k | 0 <= r < rows && 0 <= k < w
      ensures PlacedAt(image, img, rows, w, j', 0, r, k)
    {
      assert SourceRow(r, k, rows, j + 1, 0) == SourceRow(r, k, rows, j, t);
      assert PlacedAt(image, img, rows, w, j, t, r, k);
    }
  }

  /** After `rows / 2` pairs byte `k` of row `r` is byte `k` of the mirror row. */
  lemma ProgressEndAt(image: seq<byte>, img: seq<byte>, rows: nat, w: nat, r: int, k: int)
    requires Progress(image, img, rows, w, rows / 2, 0)
    requires 0 <= r < rows && 0 <= k < w
    ensures 0 <= Offset(r, k, w) < |img| && 0 <= Offset(rows - 1 - r, k, w) < |image|
    ensures img[Offset(r, k, w)] == image[Offset(rows - 1 - r, k, w)]
  {
    assert SourceRow(r, k, rows, rows / 2, 0) == rows - 1 - r;
    assert PlacedAt(image, img, rows, w, rows / 2, 0, r, k);
  }

  /** After `rows / 2` pairs every row holds its mirror row: the buffer is
      the reference flip. */
  lemma ProgressEnd(image: seq<byte>, img: seq<byte>, rows: nat, w: nat)
    requires Progress(image, img, rows, w, rows / 2, 0)
    ensures img == FlipRows(image, rows, w)
  {
    forall r, k | 0 <= r < rows && 0 <= k < w
      ensures MirroredAt(img, image, rows, w, r, k)
    {
      ProgressEndAt(image, img, rows, w, r, k);
    }
    FlipRowsFromPointwise(image, img, rows, w);
  }

  /** The C expression `row * width * channels` is the offset of the row's
      first byte whenever the inner loop runs. */
  lemma RowStart(row: int, width: int, channels: int)
    ensures RowBytes(width, channels) > 0 ==> row * width * channels == Offset(row, 0, RowBytes(width, channels))
  {
    assert row * width * channels == row * (width * channels);
  }

  /** `flipImageVertically(image, width, height, channels)`: the rows of the
      buffer in reverse order. The buffer is taken by value and the flipped
      buffer returned; the exchanges are those of the in-place original. */
  method FlipImageVertically(image: seq<byte>, width: int32, height: int32, channels: int32)
    returns (flipped: seq<byte>)
    requires ActiveRows(height) * RowBytes(width, channels) <= |image|
    ensures flipped == FlipRows(image, ActiveRows(height), RowBytes(width, channels))
    ensures multiset(flipped) == multiset(image)
    ensures flipped[ActiveRows(height) * RowBytes(width, channels)..]
            == image[ActiveRows(height) * RowBytes(width, channels)..]
    ensures height <= 1 || width * channels <= 0 ==> flipped == image
  {
    ghost var rows, w := ActiveRows(height), RowBytes(width, channels);
    flipped := image;
    ProgressStart(image, rows, w);
    var half := CHalf(height);
    assert half == rows / 2 || (rows == 0 && half <= 0);
    var j := 0;
    while j < half
      invariant 0 <= j <= rows / 2
      invariant Progress(image, flipped, rows, w, j, 0)
    {
      var index1 := j * width * channels;
      var index2 := (height - 1 - j) * width * channels;
      RowStart(j, width, channels);
      RowStart(height - 1 - j, width, channels);
      var i := width * channels;
      while i > 0
        invariant w > 0 ==> 0 <= i <= w && index1 == Offset(j, w - i, w) && index2 == Offset(rows - 1 - j, w - i, w)
        invariant w == 0 ==> i <= 0
        invariant Progress(image, flipped, rows, w, j, w - i)
      {
        SwapStep(image, flipped, rows, w, j, w - i);
        flipped := Swap(flipped, index1, index2);
        index1 := index1 + 1;
        index2 := index2 + 1;
        i := i - 1;
      }
      PairDone(image, flipped, rows, w, j, w - i);
      j := j + 1;
    }
    ProgressEnd(image, flipped, rows, w);
    FlipRowsReversesRows(image, rows, w);
    if height <= 1 || width * channels <= 0 {
      FlipRowsTrivial(image, rows, w);
    }
  }
}
