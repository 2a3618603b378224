/** Raster images as the codec stores them: four bytes per pixel, row-major.
    Only the byte layout is modelled; colour values are opaque bytes. */
module Pixels {
  import opened BigEndian
  import opened Outcomes

  /** Bytes per pixel in the RGBA and RGBa modes the codec uses. */
  const Channels: nat := 4

  datatype Image = Image(width: nat, height: nat, rows: seq<seq<Byte>>)

  /** One row per line of the image, each exactly width * 4 bytes long. */
  predicate WellFormed(img: Image)
  {
    && |img.rows| == img.height
    && forall i :: 0 <= i < |img.rows| ==> |img.rows[i]| == Channels * img.width
  }

  function Reversed<T>(s: seq<T>): (r: seq<T>)
    ensures |r| == |s|
    ensures forall i :: 0 <= i < |s| ==> r[i] == s[|s| - 1 - i]
  {
    if s == [] then [] else Reversed(s[1..]) + [s[0]]
  }

  /** transpose(FLIP_TOP_BOTTOM): the first row becomes the last. */
  function FlipTopBottom(img: Image): (r: Image)
    ensures r.width == img.width && r.height == img.height && |r.rows| == |img.rows|
    ensures forall i :: 0 <= i < |r.rows| ==> r.rows[i] == img.rows[|img.rows| - 1 - i]
  {
    Image(img.width, img.height, Reversed(img.rows))
  }

  /** Flipping keeps the image well formed. */
  lemma FlipWellFormed(img: Image)
    requires WellFormed(img)
    ensures WellFormed(FlipTopBottom(img))
  {
  }

  /** Flipping twice restores the image, so the decoder's flip undoes the encoder's. */
  lemma FlipInvolution(img: Image)
    ensures FlipTopBottom(FlipTopBottom(img)) == img
  {
    var twice := FlipTopBottom(FlipTopBottom(img));
    assert twice.rows == img.rows;
  }

  /** A per-pixel mode conversion applies the same map to every row. */
  function MapRows(convert: seq<Byte> -> seq<Byte>, img: Image): (r: Image)
    ensures r.width == img.width && r.height == img.height && |r.rows| == |img.rows|
    ensures forall i :: 0 <= i < |r.rows| ==> r.rows[i] == convert(img.rows[i])
  {
    Image(img.width, img.height, seq(|img.rows|, i requires 0 <= i < |img.rows| => convert(img.rows[i])))
  }

  /** Flipping commutes with any conversion done row by row, so it does not
      matter whether the mode is converted before or after the flip. */
  lemma FlipCommutesWithRowMap(convert: seq<Byte> -> seq<Byte>, img: Image)
    ensures FlipTopBottom(MapRows(convert, img)) == MapRows(convert, FlipTopBottom(img))
  {
    var a, b := FlipTopBottom(MapRows(convert, img)), MapRows(convert, FlipTopBottom(img));
    assert a.rows == b.rows;
  }

  function Concat(rows: seq<seq<Byte>>): seq<Byte>
  {
    if rows == [] then [] else Concat(rows[..|rows| - 1]) + rows[|rows| - 1]
  }

  /** Image.tobytes(): the rows one after another. */
  function ToPixelBytes(img: Image): seq<Byte>
  {
    Concat(img.rows)
  }

  /** Rows of equal length L concatenate to L bytes per row. */
  lemma {:induction false} ConcatLength(rows: seq<seq<Byte>>, len: nat)
    requires forall i :: 0 <= i < |rows| ==> |rows[i]| == len
    ensures |Concat(rows)| == |rows| * len
  {
    if rows != [] {
      var n := |rows|;
      ConcatLength(rows[..n - 1], len);
      MulSucc(n - 1, len);
    }
  }

  /** Row i of rows of equal length L sits at offset i * L of their concatenation. */
  lemma {:induction false} ConcatLayout(rows: seq<seq<Byte>>, len: nat, i: nat)
    requires forall j :: 0 <= j < |rows| ==> |rows[j]| == len
    requires i < |rows|
    ensures (i + 1) * len <= |Concat(rows)|
    ensures Concat(rows)[i * len..(i + 1) * len] == rows[i]
  {
    var n := |rows|;
    var front := rows[..n - 1];
    ConcatLength(front, len);
    ConcatLength(rows, len);
    MulSucc(i, len);
    assert Concat(rows) == Concat(front) + rows[n - 1];
    if i < n - 1 {
      ConcatLayout(front, len, i);
    } else {
      assert i * len == |Concat(front)|;
    }
  }

  lemma MulSucc(a: nat, c: nat)
    ensures (a + 1) * c == a * c + c
  {
  }

  lemma MulMono(a: nat, b: nat, c: nat)
    requires a <= b
    ensures a * c <= b * c
  {
  }

  /** Row i of an image stored rowLen bytes per row. */
  function Row(data: seq<Byte>, rowLen: nat, h: nat, i: nat): (row: seq<Byte>)
    requires |data| >= rowLen * h && i < h
    ensures |row| == rowLen
  {
    MulSucc(i, rowLen);
    MulMono(i + 1, h, rowLen);
    data[i * rowLen..(i + 1) * rowLen]
  }

  /** The rows of an image of height h stored rowLen bytes per row. */
  function Rows(data: seq<Byte>, rowLen: nat, h: nat): (rows: seq<seq<Byte>>)
    requires |data| >= rowLen * h
    ensures |rows| == h
    ensures forall i :: 0 <= i < h ==> rows[i] == Row(data, rowLen, h, i)
  {
    seq(h, i requires 0 <= i < h => Row(data, rowLen, h, i))
  }

  /** Image.frombytes(mode, (w, h), data) for a four-byte mode: ValueError
      when the buffer holds fewer than w * h * 4 bytes; bytes past that are ignored. */
  function FromPixelBytes(w: nat, h: nat, data: seq<Byte>): (r: Result<Image>)
    ensures r.Failure? <==> |data| < Channels * w * h
    ensures r.Success? ==> WellFormed(r.value) && r.value.width == w && r.value.height == h
  {
    if |data| < Channels * w * h then Failure(NotEnoughImageData)
    else Success(Image(w, h, Rows(data, Channels * w, h)))
  }

  /** frombytes inverts tobytes on a well-formed image. */
  lemma PixelBytesRoundTrip(img: Image)
    requires WellFormed(img)
    ensures FromPixelBytes(img.width, img.height, ToPixelBytes(img)) == Success(img)
  {
    var len := Channels * img.width;
    var data := ToPixelBytes(img);
    ConcatLength(img.rows, len);
    assert |data| == Channels * img.width * img.height;
    var rows := Rows(data, len, img.height);
    forall i | 0 <= i < img.height
      ensures rows[i] == img.rows[i]
    {
      ConcatLayout(img.rows, len, i);
    }
    assert rows == img.rows;
  }
}
