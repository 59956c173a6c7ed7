/**
 The normalization loop of `RunInferenceOnImage`: three nested loops over
 rows, columns and channels that write one tensor value per image byte,
 advancing the input and output pointers together. The per-sample formula is
 a parameter of the model.
 */
module Preprocess {

  /** A `uint8_t` image sample. */
  newtype byte = x: int | 0 <= x < 256

  /** Where sample `(y, x, c)` of a grid `width` samples wide with `channels` channels sits in row-major order. */
  function Offset(width: nat, channels: nat, y: nat, x: nat, c: nat): nat
  {
    (y * width + x) * channels + c
  }

  /** Every sample of a `height` x `width` x `channels` grid lies inside the flat buffer. */
  lemma OffsetInRange(height: nat, width: nat, channels: nat, y: nat, x: nat, c: nat)
    requires y < height && x < width && c < channels
    ensures Offset(width, channels, y, x, c) < height * width * channels
  {
    assert y * width + x + 1 <= height * width by {
      assert (y + 1) * width <= height * width by {
        MulMonotone(y + 1, height, width);
      }
    }
    MulMonotone(y * width + x + 1, height * width, channels);
  }

  /** Past the last channel of a pixel comes the first channel of the next pixel. */
  lemma OffsetNextColumn(width: nat, channels: nat, y: nat, x: nat)
    ensures Offset(width, channels, y, x, channels) == Offset(width, channels, y, x + 1, 0)
  {
    assert (y * width + x) * channels + channels == (y * width + x + 1) * channels;
  }

  /** Past the last pixel of a row comes the first pixel of the next row. */
  lemma OffsetNextRow(width: nat, channels: nat, y: nat)
    ensures Offset(width, channels, y, width, 0) == Offset(width, channels, y + 1, 0, 0)
    ensures Offset(width, channels, y + 1, 0, 0) == (y + 1) * width * channels
  {
    assert y * width + width == (y + 1) * width;
  }

  lemma MulMonotone(a: nat, b: nat, k: nat)
    requires a <= b
    ensures a * k <= b * k
  {
  }

  /** Distinct samples occupy distinct positions: the row-major layout can be read back. */
  lemma OffsetDecodes(width: nat, channels: nat, y: nat, x: nat, c: nat)
    requires x < width && c < channels
    ensures Offset(width, channels, y, x, c) % channels == c
    ensures Offset(width, channels, y, x, c) / channels % width == x
    ensures Offset(width, channels, y, x, c) / channels / width == y
  {
    DivModOf(y * width + x, channels, c);
    DivModOf(y, width, x);
  }

  lemma DivModOf(q: nat, k: nat, r: nat)
    requires r < k
    ensures (q * k + r) / k == q && (q * k + r) % k == r
  {
    var n := q * k + r;
    var d, m := n / k, n % k;
    assert d * k + m == n;
    assert (d - q) * k == r - m;
    if d > q {
      MulMonotone(1, d - q, k);
    } else if d < q {
      MulMonotone(1, q - d, k);
    }
  }

  /**
   The normalization loop. `scale` stands for the per-sample formula; the
   source reads the image without a bounds check, so it demands an image of
   at least `height * width * channels` bytes.
   */
  method Normalize<F>(image: seq<byte>, height: nat, width: nat, channels: nat, scale: byte -> F)
    returns (tensor: seq<F>)
    requires height * width * channels <= |image|
    ensures |tensor| == height * width * channels
    ensures forall k | 0 <= k < |tensor| :: tensor[k] == scale(image[k])
    ensures forall y: nat, x: nat, c: nat | y < height && x < width && c < channels ::
      Offset(width, channels, y, x, c) < |tensor|
      && tensor[Offset(width, channels, y, x, c)] == scale(image[Offset(width, channels, y, x, c)])
  {
    tensor := [];
    var pos := 0;
    var y := 0;
    while y < height
      invariant y <= height
      invariant pos == Offset(width, channels, y, 0, 0) && |tensor| == pos <= |image|
      invariant forall k | 0 <= k < pos :: tensor[k] == scale(image[k])
    {
      var x := 0;
      while x < width
        invariant x <= width
        invariant pos == Offset(width, channels, y, x, 0) && |tensor| == pos <= |image|
        invariant forall k | 0 <= k < pos :: tensor[k] == scale(image[k])
      {
        var c := 0;
        while c < channels
          invariant c <= channels
          invariant pos == Offset(width, channels, y, x, c) && |tensor| == pos <= |image|
          invariant forall k | 0 <= k < pos :: tensor[k] == scale(image[k])
        {
          OffsetInRange(height, width, channels, y, x, c);
          tensor := tensor + [scale(image[pos])];
          pos := pos + 1;
          c := c + 1;
        }
        OffsetNextColumn(width, channels, y, x);
        x := x + 1;
      }
      OffsetNextRow(width, channels, y);
      y := y + 1;
    }
    assert pos == height * width * channels by {
      if height > 0 {
        OffsetNextRow(width, channels, height - 1);
      }
    }
    forall y: nat, x: nat, c: nat | y < height && x < width && c < channels
      ensures Offset(width, channels, y, x, c) < |tensor|
    {
      OffsetInRange(height, width, channels, y, x, c);
    }
  }
}
