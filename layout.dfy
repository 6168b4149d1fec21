/**
 * The pixel layout of a frame: the decoded RGB image seen as a
 * (channel, row, column) array, and `permuted_axes([1, 2, 0])`, which turns
 * it into the (row, column, channel) array the encoder takes.
 */
module PixelLayout {
  newtype byte = x: int | 0 <= x < 256

  /** An 8-bit RGB image: rows top to bottom, pixels left to right, three bytes per pixel. */
  datatype RawImage = RawImage(width: nat, height: nat, raw: seq<byte>)

  type RgbImage = img: RawImage | |img.raw| == 3 * img.width * img.height
    witness RawImage(0, 0, [])

  /** A three-dimensional array of bytes with shape (d0, d1, d2). */
  datatype Array3 = Array3(d0: nat, d1: nat, d2: nat, elems: seq<seq<seq<byte>>>)
  {
    predicate WellShaped() {
      |elems| == d0 &&
      forall i :: 0 <= i < d0 ==>
        |elems[i]| == d1 && forall j :: 0 <= j < d1 ==> |elems[i][j]| == d2
    }

    /** The number of elements. */
    function Len(): nat {
      d0 * d1 * d2
    }
  }

  lemma PixelIndexInBounds(width: nat, height: nat, y: nat, x: nat, c: nat)
    requires y < height && x < width && c < 3
    ensures (y * width + x) * 3 + c < 3 * width * height
  {
    assert y * width + x < (y + 1) * width;
    assert (y + 1) * width <= height * width;
  }

  /** Channel c of the pixel in row y, column x. */
  function Sample(img: RgbImage, y: nat, x: nat, c: nat): byte
    requires y < img.height && x < img.width && c < 3
  {
    PixelIndexInBounds(img.width, img.height, y, x, c);
    img.raw[(y * img.width + x) * 3 + c]
  }

  /** The image as a (channel, row, column) array over the same bytes. */
  function ChannelMajor(img: RgbImage): (a: Array3)
    ensures a.WellShaped() && a.d0 == 3 && a.d1 == img.height && a.d2 == img.width
  {
    Array3(3, img.height, img.width,
      seq(3, c requires 0 <= c < 3 =>
        seq(img.height, y requires 0 <= y < img.height =>
          seq(img.width, x requires 0 <= x < img.width => Sample(img, y, x, c)))))
  }

  /**
   * `permuted_axes([1, 2, 0])`: axis 1 becomes axis 0, axis 2 becomes
   * axis 1 and axis 0 becomes axis 2; no element is added, dropped or moved
   * to another (i, j, k) cell other than by the renaming of axes.
   */
  function PermuteAxes(a: Array3): (b: Array3)
    requires a.WellShaped()
    ensures b.WellShaped() && b.d0 == a.d1 && b.d1 == a.d2 && b.d2 == a.d0
    ensures b.Len() == a.Len()
    ensures forall r, c, k :: 0 <= r < a.d1 && 0 <= c < a.d2 && 0 <= k < a.d0 ==>
      b.elems[r][c][k] == a.elems[k][r][c]
  {
    Array3(a.d1, a.d2, a.d0,
      seq(a.d1, r requires 0 <= r < a.d1 =>
        seq(a.d2, c requires 0 <= c < a.d2 =>
          seq(a.d0, k requires 0 <= k < a.d0 => a.elems[k][r][c]))))
  }

  /** `permuted_axes([2, 0, 1])`, the inverse permutation. */
  function RestoreAxes(b: Array3): (a: Array3)
    requires b.WellShaped()
    ensures a.WellShaped() && a.d0 == b.d2 && a.d1 == b.d0 && a.d2 == b.d1
  {
    Array3(b.d2, b.d0, b.d1,
      seq(b.d2, i requires 0 <= i < b.d2 =>
        seq(b.d0, j requires 0 <= j < b.d0 =>
          seq(b.d1, k requires 0 <= k < b.d1 => b.elems[j][k][i]))))
  }

  /** Permuting the axes loses nothing: the inverse permutation gives back the array. */
  lemma RestoreAfterPermute(a: Array3)
    requires a.WellShaped()
    ensures RestoreAxes(PermuteAxes(a)) == a
  {
    var b := RestoreAxes(PermuteAxes(a));
    forall i | 0 <= i < a.d0 ensures b.elems[i] == a.elems[i] {
      forall j | 0 <= j < a.d1 ensures b.elems[i][j] == a.elems[i][j] {
      }
    }
  }

  /**
   * Element (y, x, c) of the frame handed to the encoder is channel c of
   * the image's pixel in row y, column x: the two permutations together
   * leave every byte where the decoder put it.
   */
  lemma FramePixel(img: RgbImage, y: nat, x: nat, c: nat)
    requires y < img.height && x < img.width && c < 3
    ensures (y * img.width + x) * 3 + c < |img.raw|
    ensures PermuteAxes(ChannelMajor(img)).elems[y][x][c] == img.raw[(y * img.width + x) * 3 + c]
  {
    PixelIndexInBounds(img.width, img.height, y, x, c);
    var a := ChannelMajor(img);
    assert PermuteAxes(a).elems[y][x][c] == a.elems[c][y][x];
  }

  /**
   * The frame handed to the encoder is a (height, width, 3) array with as
   * many elements as the image has bytes: nothing is resized or cropped.
   */
  lemma FrameOfImage(img: RgbImage)
    ensures var f := PermuteAxes(ChannelMajor(img));
      f.WellShaped() && f.d0 == img.height && f.d1 == img.width && f.d2 == 3 &&
      f.Len() == |img.raw|
  {
    var a := ChannelMajor(img);
    assert PermuteAxes(a).Len() == a.Len();
    assert a.Len() == 3 * img.height * img.width;
    assert 3 * img.height * img.width == 3 * img.width * img.height;
  }
}
