# BIP2 container codec

A Dafny model of the converter between BIP thumbnail containers and ordinary
raster images (`bip_converter/t3dn_bip_converter/convert.py`).
A BIP2 file is laid out as follows:

- the 4-byte tag `BIP2`;
- a 1-byte entry count N;
- N directory records of 8 bytes each: width (u16), height (u16) and compressed
  block length (u32), all big-endian;
- the N compressed pixel blocks, back to back and in directory order.

The converter writes two entries: a 32x32 thumbnail first, then the full image.
The reader only looks at the last record. It takes the record's `length` and
reads exactly that many bytes back from the end of the file.

Modules, one file each:

- `outcomes.dfy` (`Outcomes`): the converter's exceptions as values, with
  `Option`, `Result` and `Outcome`.
- `big_endian.dfy` (`BigEndian`): `int.to_bytes(n, 'big')` and
  `int.from_bytes(b, 'big')`, including the OverflowError, with round trips
  both ways.
- `pixels.dfy` (`Pixels`): images as rows of 4-byte pixels. It models the
  vertical flip, `tobytes` and `frombytes`.
- `container.dfy` (`Container`): the file layout the writer produces
  (`Serialized`), the partial file it leaves on an overflow (`Truncated`), and
  what the reader extracts from any byte string (`ParseLast`). It also holds
  the layout lemmas that connect them.
- `streams.dfy` (`Streams`): the two file objects. `Writer` is a file opened
  `'wb'` that only appends. `Reader` is a file opened `'rb'` with a cursor:
  `read` returns short at end of file, `seek` may pass the end, and a seek
  before the start raises OSError.
- `convert.dfy` (`Convert`): `_image_to_bip` and `_bip_to_image`.
  They are imperative methods over those file objects. The writer and the
  reader are proved equal to the `Container` specification functions
  (`Serialized`, `Truncated`, `ParseLast`); `BipToImage` is proved equal to
  `Convert.DecodeLast`. This file also holds the encoder's two-entry list and
  the end-to-end round trip.
- `direction.dfy` (`Direction`): `convert_file`. It covers the suffix test,
  the default destination and the choice of direction.

Zlib and the image library are not modelled. `compress`, `decompress` and
`resize` are function parameters. The round trip assumes only
`decompress(compress(b)) == b`.

The image's pixel values are opaque bytes; the mode conversions are not
modelled. On encode the code flips first and converts the mode afterwards
(`convert.py` line 31, then lines 33-36). An image without alpha becomes
straight RGBA and is stored that way. A mode with alpha other than RGBa becomes
premultiplied RGBa. On decode the code converts RGBa to RGBA (line 72) before flipping back
(line 73). The model flips the stored image on both sides and leaves the
conversions out. The order does not matter: a mode conversion works pixel by
pixel, so it maps every row the same way, and `Pixels.FlipCommutesWithRowMap`
proves that such a row-wise map commutes with the flip.

Two behaviours of the code are worth noting; the model follows the code:

- With no destination, the code sets `dst_bip = not src_bip` directly. It
  never applies the suffix test to the default name.
  `Direction.DefaultAgreesWithSuffix` proves the two always agree.
- No check is made that the decompressed block holds exactly
  width x height x 4 bytes. `frombytes` fails only when the block is too short,
  and extra bytes are ignored.

A count byte of 0 is modelled as the OSError that the relative seek of -8 bytes
raises, because it would move before the start of the file. Fields read past
the end of the file come back short, or empty, and `from_bytes` gives their
value. A `length` larger than the file makes the seek from the end fail.

## Model

| member | source | states |
|---|---|---|
| BigEndian.IntToBytes | bip_converter/t3dn_bip_converter/convert.py:43-49 | `to_bytes(n, 'big')` fails exactly when the value is at least 256^n; otherwise it gives n bytes that read back as the value |
| BigEndian.FromBytes | bip_converter/t3dn_bip_converter/convert.py:61-66 | the value read from k big-endian bytes is below 256^k |
| BigEndian.DecodeEncode | bip_converter/t3dn_bip_converter/convert.py:43-49 | a value that fits n bytes is read back unchanged after being written big-endian |
| BigEndian.EncodeDecode | bip_converter/t3dn_bip_converter/convert.py:61-66 | every byte string is the n-byte encoding of the value read from it (the other direction of the round trip) |
| BigEndian.OneByte | bip_converter/t3dn_bip_converter/convert.py:43 | the one-byte count field holds the count itself |
| Pixels.Reversed | bip_converter/t3dn_bip_converter/convert.py:31 | element i of the result is element n-1-i of the input, and the length is kept |
| Pixels.FlipTopBottom | bip_converter/t3dn_bip_converter/convert.py:31 | the flip keeps the size, and row i of the result is row h-1-i of the input |
| Pixels.FlipWellFormed | bip_converter/t3dn_bip_converter/convert.py:31 | a flipped well-formed image is well formed |
| Pixels.FlipInvolution | bip_converter/t3dn_bip_converter/convert.py:73 | flipping twice is the identity, so the decoder's flip undoes the encoder's |
| Pixels.FlipCommutesWithRowMap | bip_converter/t3dn_bip_converter/convert.py:31-36 | flipping commutes with any conversion applied row by row, so converting the mode before or after the flip gives the same image |
| Pixels.ConcatLength | bip_converter/t3dn_bip_converter/convert.py:39 | `tobytes` of h rows of L bytes is h*L bytes long |
| Pixels.ConcatLayout | bip_converter/t3dn_bip_converter/convert.py:39 | `tobytes` of rows of L bytes has L bytes per row, with row i at offset i*L |
| Pixels.FromPixelBytes | bip_converter/t3dn_bip_converter/convert.py:71 | `frombytes` fails exactly when the buffer is shorter than w*h*4; otherwise it gives a well-formed w x h image |
| Pixels.PixelBytesRoundTrip | bip_converter/t3dn_bip_converter/convert.py:71 | `frombytes` rebuilds exactly the image that `tobytes` wrote |
| Container.FirstUnfit | bip_converter/t3dn_bip_converter/convert.py:45-49 | the entry whose record raises OverflowError: every entry before it fits, and it does not |
| Container.DirectoryLength | bip_converter/t3dn_bip_converter/convert.py:45-49 | the directory is 8 bytes per entry |
| Container.Serialized | bip_converter/t3dn_bip_converter/convert.py:41-52 | the written file starts with `BIP2` and one byte equal to the number of entries, and is exactly 5 + 8*N + the sum of the block lengths bytes long |
| Container.Truncated | bip_converter/t3dn_bip_converter/convert.py:41-49 | after an OverflowError the file starts with `BIP2` and is shorter than the directory it announces; with 256 or more entries only the 4 tag bytes are written |
| Container.DirectoryLayout | bip_converter/t3dn_bip_converter/convert.py:45-49 | record i sits at offset 8*i of the directory, in entry order |
| Container.BlocksLength | bip_converter/t3dn_bip_converter/convert.py:51-52 | the concatenated blocks are as long as the sum of the block lengths |
| Container.BlocksLayout | bip_converter/t3dn_bip_converter/convert.py:51-52 | block i is exactly `es[i].block` and comes right after the blocks before it, with no padding |
| Container.BlockStartNext | bip_converter/t3dn_bip_converter/convert.py:51-52 | block i+1 starts where block i ends |
| Container.RecordFields | bip_converter/t3dn_bip_converter/convert.py:47-49 | a record is 8 bytes; bytes 0-1, 2-3 and 4-7 read back as width, height and block length |
| Container.SerializedRecord | bip_converter/t3dn_bip_converter/convert.py:45-49 | record i is at file offset 5 + 8*i |
| Container.SerializedBlock | bip_converter/t3dn_bip_converter/convert.py:51-52 | block i sits at 5 + 8*N + the lengths of the blocks before it, and holds exactly the entry's block |
| Container.LastBlockIsTail | bip_converter/t3dn_bip_converter/convert.py:68-69 | the final `length` bytes of the file are the last block, and they start at or after the end of every earlier block |
| Container.EntryAtRecord | bip_converter/t3dn_bip_converter/convert.py:64-69 | a record for entry e at the cursor, with e's block at the end of the file, reads back as e |
| Container.LastEntryAt | bip_converter/t3dn_bip_converter/convert.py:62-69 | in a written file, the record at 5 + 8*(N-1) and the block it addresses from the end are the last entry |
| Container.ParseSerialized | bip_converter/t3dn_bip_converter/convert.py:57-69 | for N >= 1, reading a written file gives the last entry's width, height and exactly its block |
| Container.ParseLast | bip_converter/t3dn_bip_converter/convert.py:57-69 | the reader fails with the format error exactly when the first 4 bytes are not `BIP2`, and otherwise only with the seek error; on success the fields fit u16/u16/u32 and the block is the final bytes of the file |
| Container.ParseAfterCount | bip_converter/t3dn_bip_converter/convert.py:61-62 | after the count byte the only error is the seek error; on success the fields fit u16/u16/u32 and the block is a tail of the file |
| Container.EntryAt | bip_converter/t3dn_bip_converter/convert.py:64-69 | reading a record and seeking back `length` bytes fails only with the seek error, and yields fields that fit u16/u16/u32 and a block that is the tail of the file |
| Container.RejectsBadMagic | bip_converter/t3dn_bip_converter/convert.py:58-59 | input whose first 4 bytes are not `BIP2` is rejected with the format error |
| Container.Slice | bip_converter/t3dn_bip_converter/convert.py:58-66 | a read returns at most the bytes asked for, and exactly the bytes in that range when the file is long enough |
| Streams.Writer.Write | bip_converter/t3dn_bip_converter/convert.py:42-52 | a write appends its bytes to the file |
| Streams.Reader.Read | bip_converter/t3dn_bip_converter/convert.py:58-66 | a read returns the bytes from the cursor, cut short at end of file, and advances the cursor by what it read |
| Streams.Reader.Seek | bip_converter/t3dn_bip_converter/convert.py:62-68 | a relative or end-based seek moves the cursor, and fails without moving when the target is before the start |
| Streams.Reader.ReadToEnd | bip_converter/t3dn_bip_converter/convert.py:69 | `read()` returns everything from the cursor to the end of the file |
| Convert.WriteRecord | bip_converter/t3dn_bip_converter/convert.py:46-49 | a record is written only when every field fits; otherwise only the fields before the overflowing one are written |
| Convert.WriteContainer | bip_converter/t3dn_bip_converter/convert.py:41-52 | the stepwise writer succeeds exactly when the count and all fields fit; the file is then the specified layout, and otherwise the partial file |
| Convert.WriteDirectory | bip_converter/t3dn_bip_converter/convert.py:45-49 | the record loop writes every record in entry order when all fit; otherwise it writes the records before the first overflowing entry and that entry's leading fields |
| Convert.WriteBlocks | bip_converter/t3dn_bip_converter/convert.py:51-52 | the block loop appends the blocks in entry order |
| Convert.DirectoryStep | bip_converter/t3dn_bip_converter/convert.py:45-49 | writing one more record extends the directory by that record |
| Convert.FirstUnfitAt | bip_converter/t3dn_bip_converter/convert.py:45-49 | the first record that overflows is the one the writer stops at |
| Convert.ReadRecord | bip_converter/t3dn_bip_converter/convert.py:64-66 | the three field reads at the cursor give the big-endian values of bytes +0..2, +2..4 and +4..8, and leave the cursor 8 bytes further on, stopping at the end of the file |
| Convert.SkipToLastRecord | bip_converter/t3dn_bip_converter/convert.py:62 | the skip of 8*(count-1) bytes fails for a count of 0 without moving the cursor, and otherwise lands on the last record; on success the cursor ends at the end of the file |
| Convert.ReadEntry | bip_converter/t3dn_bip_converter/convert.py:64-69 | reading the record at the cursor and then seeking `length` bytes back from the end gives `EntryAt` of that position; on success the cursor is at the end of the file, on failure just past the record |
| Convert.ReadLastEntry | bip_converter/t3dn_bip_converter/convert.py:57-69 | the cursor-based reader returns exactly what `ParseLast` specifies |
| Convert.ImageToBip | bip_converter/t3dn_bip_converter/convert.py:28-52 | encoding writes the container of the thumbnail and full-image entries, or fails with an overflow |
| Convert.BipToImage | bip_converter/t3dn_bip_converter/convert.py:55-73 | decoding reads the last entry, decompresses it, rebuilds it and flips it back |
| Convert.DecodeLast | bip_converter/t3dn_bip_converter/convert.py:57-73 | decoding fails only with the format, seek or too-short-data error; on success the image is well formed, has the last record's width and height, and the decompressed block held at least w*h*4 bytes |
| Convert.EncoderEncodable | bip_converter/t3dn_bip_converter/convert.py:38-49 | the encoder writes exactly two entries, and it overflows exactly when a size or compressed length does not fit its field |
| Convert.EncodedHeader | bip_converter/t3dn_bip_converter/convert.py:42-43 | an encoded file begins with the bytes 42 49 50 32 02 |
| Convert.EncodedThumbnailRecord | bip_converter/t3dn_bip_converter/convert.py:38-48 | the first record is the thumbnail's: 00 20 00 20 when the resize yields 32 x 32 |
| Convert.DecoderReadsFullImage | bip_converter/t3dn_bip_converter/convert.py:38-69 | the reader's last entry in an encoded file is the full image, never the thumbnail |
| Convert.RoundTrip | bip_converter/t3dn_bip_converter/convert.py:28-73 | if decompress undoes compress and no field overflows, decoding an encoded image gives back that image |
| Direction.LastDot | bip_converter/t3dn_bip_converter/convert.py:11 | the index of the last '.', or -1; no '.' comes after it |
| Direction.StemAndSuffix | bip_converter/t3dn_bip_converter/convert.py:17 | a name is its stem followed by its suffix, and a non-empty name has a non-empty stem |
| Direction.Suffix | bip_converter/t3dn_bip_converter/convert.py:11 | a non-empty suffix starts with '.', is at least 2 characters, is the end of the name and not all of it, and holds no other '.' |
| Direction.IsBipIgnoresCase | bip_converter/t3dn_bip_converter/convert.py:11-15 | a path is BIP exactly when its suffix is `.bip` in any mix of upper and lower case |
| Direction.Select | bip_converter/t3dn_bip_converter/convert.py:20-25 | the if/elif/else runs a conversion exactly when one of the two flags is set, decoding exactly when the source flag is; otherwise ValueError |
| Direction.ConvertFile | bip_converter/t3dn_bip_converter/convert.py:8-25 | a conversion keeps the source and an explicit destination, and decodes exactly when the source is BIP; the ambiguity error only arises with an explicit destination, and without one the only error is an empty name |
| Direction.SuffixOfAppended | bip_converter/t3dn_bip_converter/convert.py:17 | `.png` or `.bip` appended to a non-empty stem becomes the suffix of the new name |
| Direction.DirectionRule | bip_converter/t3dn_bip_converter/convert.py:11-25 | with a destination, decode happens iff only the source is BIP and encode iff only the destination is; otherwise ValueError |
| Direction.DefaultDestination | bip_converter/t3dn_bip_converter/convert.py:16-18 | without a destination, the suffix becomes `.png` for a BIP source and `.bip` otherwise, and the direction is never ambiguous; a path with an empty name fails in `with_suffix` |
| Direction.DefaultAgreesWithSuffix | bip_converter/t3dn_bip_converter/convert.py:16-18 | the default destination's suffix test agrees with `not src_bip`, so omitting the destination equals passing the default |
| Direction.AppendedSuffixTest | bip_converter/t3dn_bip_converter/convert.py:17-18 | a name made by appending `.bip` to a non-empty stem is BIP, and one made with `.png` is not |

## Left out

- `bip/t3dn_bip/ops.py`: a host UI operator that installs the imaging library. It has no format logic.
- Image-library work is not modelled because its arithmetic is hidden inside the library:
  - opening an image;
  - the RGB-to-RGBA and RGBA-to-RGBa mode conversions, and RGBa-to-RGBA on decode (premultiplication rounding);
  - the resampling in `resize`, which is a function parameter;
  - `save` and its OSError retry in RGB (lines 75-78).

  Images are modelled only as their stored byte layout.
- zlib `compress` and `decompress` are function parameters. The round trip assumes only that decompress undoes compress.
- Convert.BipToImage: `decompress` is a total function, so the zlib.error raised on a corrupt block (line 69) does not occur in the model.
- Path resolution (`Path.resolve`) is not modelled. A path is its parent and final name.
- Convert.WriteContainer: the file is modelled only by its final contents. Buffering, closing and real file I/O are not modelled.
- Direction.Lower: only ASCII letters are lower-cased. Python's full Unicode `str.lower` is not modelled.
- The check of `with_suffix` against separators and invalid suffixes is not modelled. The converter passes only the constants `.png` and `.bip`.
