/** The converter: the BIP writer and reader over file objects, the encoder
    and decoder around them, and the end-to-end round trip. */
module Convert {
  import opened BigEndian
  import opened Outcomes
  import opened Pixels
  import opened Container
  import opened Streams

  /** Writes magic, count, one record per entry and then the blocks into a
      fresh output file; returns what the file holds afterwards. */
  method WriteContainer(es: seq<Entry>) returns (file: seq<Byte>, result: Outcome)
    ensures result.Pass? <==> Encodable(es)
    ensures result.Fail? ==> result.error == Overflow
    ensures Encodable(es) ==> file == Serialized(es)
    ensures !Encodable(es) ==> file == Truncated(es)
  {
    var output := new Writer();
    output.Write(Magic);
    Pow256Values();
    var count := IntToBytes(|es|, 1);
    if count.None? {
      assert output.written == Truncated(es);
      return output.written, Fail(Overflow);
    }
    OneByte(|es|);
    output.Write(count.value);
    ghost var header := output.written;
    assert header == Magic + [|es|];
    var ok := WriteDirectory(output, es);
    if !ok {
      assert output.written == Truncated(es);
      return output.written, Fail(Overflow);
    }
    WriteBlocks(output, es);
    assert output.written == Serialized(es);
    return output.written, Pass;
  }

  /** The first for loop: one record per entry, in entry order, stopping at
      the first field that overflows. */
  method WriteDirectory(output: Writer, es: seq<Entry>) returns (ok: bool)
    modifies output
    ensures ok == AllFit(es)
    ensures ok ==> output.written == old(output.written) + Directory(es)
    ensures !ok ==> output.written == old(output.written) + Directory(es[..FirstUnfit(es)]) + FieldsBeforeOverflow(es[FirstUnfit(es)])
  {
    for i := 0 to |es|
      invariant AllFit(es[..i])
      invariant output.written == old(output.written) + Directory(es[..i])
    {
      var fits := WriteRecord(output, es[i]);
      if !fits {
        FirstUnfitAt(es, i);
        return false;
      }
      DirectoryStep(es, i);
    }
    assert es[..|es|] == es;
    return true;
  }

  /** The second for loop: the blocks one after another, in entry order. */
  method WriteBlocks(output: Writer, es: seq<Entry>)
    modifies output
    ensures output.written == old(output.written) + Blocks(es)
  {
    for i := 0 to |es|
      invariant output.written == old(output.written) + Blocks(es[..i])
    {
      assert es[..i + 1][..i] == es[..i];
      output.Write(es[i].block);
    }
    assert es[..|es|] == es;
  }

  /** Writes one directory record field by field, as the three to_bytes
      calls do; the first field that overflows stops the writing. */
  method WriteRecord(output: Writer, e: Entry) returns (ok: bool)
    modifies output
    ensures ok == Fits(e)
    ensures ok ==> output.written == old(output.written) + Record(e)
    ensures !ok ==> output.written == old(output.written) + FieldsBeforeOverflow(e)
  {
    Pow256Values();
    var width := IntToBytes(e.width, 2);
    if width.None? {
      return false;
    }
    output.Write(width.value);
    var height := IntToBytes(e.height, 2);
    if height.None? {
      return false;
    }
    output.Write(height.value);
    var length := IntToBytes(|e.block|, 4);
    if length.None? {
      return false;
    }
    output.Write(length.value);
    return true;
  }

  lemma DirectoryStep(es: seq<Entry>, i: nat)
    requires i < |es| && AllFit(es[..i]) && Fits(es[i])
    ensures AllFit(es[..i + 1])
    ensures Directory(es[..i + 1]) == Directory(es[..i]) + Record(es[i])
  {
    assert es[..i + 1][..i] == es[..i];
  }

  /** Reads the three big-endian fields of the record at the cursor. */
  method ReadRecord(bip: Reader) returns (width: nat, height: nat, length: nat)
    modifies bip
    ensures bip.pos == Max(old(bip.pos), Min(old(bip.pos) + RecordSize, |bip.contents|))
    ensures var f, at := bip.contents, old(bip.pos);
      && width == FromBytes(Slice(f, at, at + 2))
      && height == FromBytes(Slice(f, at + 2, at + 4))
      && length == FromBytes(Slice(f, at + 4, at + 8))
  {
    ghost var at := bip.pos;
    var widthBytes := bip.Read(2);
    assert widthBytes == Slice(bip.contents, at, at + 2);
    var heightBytes := bip.Read(2);
    assert heightBytes == Slice(bip.contents, at + 2, at + 4);
    var lengthBytes := bip.Read(4);
    assert lengthBytes == Slice(bip.contents, at + 4, at + 8);
    width, height, length := FromBytes(widthBytes), FromBytes(heightBytes), FromBytes(lengthBytes);
  }

  /** When the entries before k all fit and entry k does not, k is the first that overflows. */
  lemma {:induction false} FirstUnfitAt(es: seq<Entry>, k: nat)
    requires k < |es| && AllFit(es[..k]) && !Fits(es[k])
    ensures !AllFit(es) && FirstUnfit(es) == k
  {
    if k > 0 {
      assert Fits(es[..k][0]);
      assert es[1..][..k - 1] == es[..k][1..];
      FirstUnfitAt(es[1..], k - 1);
    }
  }

  /** Reads the last entry of a BIP file through a file cursor: check the
      magic, read the count, skip to the last record, read it, then take the
      final `length` bytes of the file. */
  method ReadLastEntry(f: seq<Byte>) returns (r: Result<Entry>)
    ensures r == ParseLast(f)
  {
    var bip := new Reader(f);
    var magic := bip.Read(4);
    if magic != Magic {
      return Failure(BadMagic);
    }
    var countBytes := bip.Read(1);
    assert countBytes == Slice(f, 4, 5);
    r := SkipToLastRecord(bip, FromBytes(countBytes));
  }

  /** The relative seek past all records but the last, then the last record and its block. */
  method SkipToLastRecord(bip: Reader, count: nat) returns (r: Result<Entry>)
    requires bip.pos <= HeaderSize
    requires count != 0 ==> bip.pos == HeaderSize
    modifies bip
    ensures r == ParseAfterCount(bip.contents, count)
    ensures count == 0 ==> bip.pos == old(bip.pos)
    ensures r.Success? ==> bip.pos == |bip.contents|
  {
    var ok := bip.Seek(RecordSize * (count as int - 1), FromCurrent);
    if !ok {
      return Failure(NegativeSeek);
    }
    r := ReadEntry(bip);
  }

  /** The record at the cursor, then the seek from the end and the read of the block. */
  method ReadEntry(bip: Reader) returns (r: Result<Entry>)
    modifies bip
    ensures r == EntryAt(bip.contents, old(bip.pos))
    ensures r.Success? ==> bip.pos == |bip.contents|
    ensures r.Failure? ==> bip.pos == Max(old(bip.pos), Min(old(bip.pos) + RecordSize, |bip.contents|))
  {
    var width, height, length := ReadRecord(bip);
    var ok := bip.Seek(-(length as int), FromEnd);
    if !ok {
      return Failure(NegativeSeek);
    }
    var content := bip.ReadToEnd();
    return Success(Entry(width, height, content));
  }

  // -----------------------------------------------------------------------
  // Encoder and decoder around the container

  /** The directory entry and block of one image: its size and its pixel bytes compressed. */
  function EntryOf(img: Image, compress: seq<Byte> -> seq<Byte>): Entry
  {
    Entry(img.width, img.height, compress(ToPixelBytes(img)))
  }

  /** The entries the encoder writes: the flipped image resized to a
      thumbnail, then the flipped image itself. */
  function EncoderEntries(image: Image, resize: Image -> Image, compress: seq<Byte> -> seq<Byte>): seq<Entry>
  {
    var flipped := FlipTopBottom(image);
    [EntryOf(resize(flipped), compress), EntryOf(flipped, compress)]
  }

  /** _image_to_bip on the image's pixels: flip, resize, compress, write.
      The mode conversion is per pixel and commutes with the flip. */
  method ImageToBip(image: Image, resize: Image -> Image, compress: seq<Byte> -> seq<Byte>)
    returns (file: seq<Byte>, result: Outcome)
    ensures result.Pass? <==> Encodable(EncoderEntries(image, resize, compress))
    ensures result.Pass? ==> file == Serialized(EncoderEntries(image, resize, compress))
    ensures result.Fail? ==> result.error == Overflow && file == Truncated(EncoderEntries(image, resize, compress))
  {
    file, result := WriteContainer(EncoderEntries(image, resize, compress));
  }

  /** The decoded image of a BIP file: the last entry's block decompressed,
      rebuilt at the recorded size and flipped back. */
  function DecodeLast(f: seq<Byte>, decompress: seq<Byte> -> seq<Byte>): (r: Result<Image>)
    ensures r.Failure? ==> r.error in {BadMagic, NegativeSeek, NotEnoughImageData}
    ensures r.Success? ==>
      && ParseLast(f).Success?
      && WellFormed(r.value)
      && r.value.width == ParseLast(f).value.width
      && r.value.height == ParseLast(f).value.height
      && |decompress(ParseLast(f).value.block)| >= Channels * r.value.width * r.value.height
  {
    match ParseLast(f)
    case Failure(e) => Failure(e)
    case Success(entry) =>
      match FromPixelBytes(entry.width, entry.height, decompress(entry.block))
      case Failure(e) => Failure(e)
      case Success(img) => Success(FlipTopBottom(img))
  }

  /** _bip_to_image up to the save: read the last entry through the file
      cursor, decompress, frombytes, flip. */
  method BipToImage(f: seq<Byte>, decompress: seq<Byte> -> seq<Byte>) returns (r: Result<Image>)
    ensures r == DecodeLast(f, decompress)
  {
    var entry := ReadLastEntry(f);
    if entry.Failure? {
      return Failure(entry.error);
    }
    var content := decompress(entry.value.block);
    var image := FromPixelBytes(entry.value.width, entry.value.height, content);
    if image.Failure? {
      return Failure(image.error);
    }
    return Success(FlipTopBottom(image.value));
  }

  /** The encoder writes exactly two entries; it overflows exactly when a
      size or a compressed length does not fit its field. */
  lemma EncoderEncodable(image: Image, resize: Image -> Image, compress: seq<Byte> -> seq<Byte>)
    ensures var es := EncoderEntries(image, resize, compress);
      && |es| == 2
      && (Encodable(es) <==> Fits(EntryOf(resize(FlipTopBottom(image)), compress)) && Fits(EntryOf(FlipTopBottom(image), compress)))
  {
    var es := EncoderEntries(image, resize, compress);
    if Fits(es[0]) && Fits(es[1]) {
      assert forall i :: 0 <= i < |es| ==> es[i] == es[0] || es[i] == es[1];
    }
  }

  /** An encoded file starts with the bytes 42 49 50 32 02: "BIP2" and two entries. */
  lemma EncodedHeader(image: Image, resize: Image -> Image, compress: seq<Byte> -> seq<Byte>)
    requires Encodable(EncoderEntries(image, resize, compress))
    ensures |Serialized(EncoderEntries(image, resize, compress))| >= HeaderSize
    ensures Serialized(EncoderEntries(image, resize, compress))[..HeaderSize] == [0x42, 0x49, 0x50, 0x32, 0x02]
  {
    var f := Serialized(EncoderEntries(image, resize, compress));
    assert f[..HeaderSize] == f[..4] + [f[4]];
  }

  /** The first record is the thumbnail's: 32 x 32 when the resize yields that size. */
  lemma EncodedThumbnailRecord(image: Image, resize: Image -> Image, compress: seq<Byte> -> seq<Byte>)
    requires Encodable(EncoderEntries(image, resize, compress))
    requires resize(FlipTopBottom(image)).width == 32 && resize(FlipTopBottom(image)).height == 32
    ensures |Serialized(EncoderEntries(image, resize, compress))| >= HeaderSize + RecordSize
    ensures Serialized(EncoderEntries(image, resize, compress))[HeaderSize..HeaderSize + 4] == [0x00, 0x20, 0x00, 0x20]
  {
    var es := EncoderEntries(image, resize, compress);
    SerializedRecord(es, 0);
    var rec := Record(es[0]);
    assert ToBytes(32, 2) == [0x00, 0x20];
    assert rec[..4] == [0x00, 0x20, 0x00, 0x20];
  }

  /** The reader's "last entry" of an encoded file is the full-size image,
      and the block it takes from the end of the file is that image's block. */
  lemma DecoderReadsFullImage(image: Image, resize: Image -> Image, compress: seq<Byte> -> seq<Byte>)
    requires Encodable(EncoderEntries(image, resize, compress))
    ensures ParseLast(Serialized(EncoderEntries(image, resize, compress))) == Success(EntryOf(FlipTopBottom(image), compress))
  {
    ParseSerialized(EncoderEntries(image, resize, compress));
  }

  /** Encoding then decoding gives back the image, as long as decompress
      undoes compress and no field overflows. */
  lemma RoundTrip(image: Image, resize: Image -> Image, compress: seq<Byte> -> seq<Byte>, decompress: seq<Byte> -> seq<Byte>)
    requires WellFormed(image)
    requires forall b :: decompress(compress(b)) == b
    requires Encodable(EncoderEntries(image, resize, compress))
    ensures DecodeLast(Serialized(EncoderEntries(image, resize, compress)), decompress) == Success(image)
  {
    var flipped := FlipTopBottom(image);
    DecoderReadsFullImage(image, resize, compress);
    assert decompress(compress(ToPixelBytes(flipped))) == ToPixelBytes(flipped);
    FlipWellFormed(image);
    PixelBytesRoundTrip(flipped);
    FlipInvolution(image);
  }
}
