/** The BIP2 container: layout of a serialised file, what the reader extracts
    from a byte string, and the lemmas that connect the two. */
module Container {
  import opened BigEndian
  import opened Outcomes
  import opened Streams

  /** The tag "BIP2". */
  const Magic: seq<Byte> := [0x42, 0x49, 0x50, 0x32]
  /** Magic plus the one-byte entry count. */
  const HeaderSize: nat := 5
  /** width:u16, height:u16, block length:u32. */
  const RecordSize: nat := 8

  /** One resolution variant: its pixel size and its compressed pixel block. */
  datatype Entry = Entry(width: nat, height: nat, block: seq<Byte>)

  /** The record fields of e fit their widths, so to_bytes does not overflow. */
  predicate Fits(e: Entry)
  {
    e.width < 0x1_0000 && e.height < 0x1_0000 && |e.block| < 0x1_0000_0000
  }

  predicate AllFit(es: seq<Entry>)
  {
    forall i :: 0 <= i < |es| ==> Fits(es[i])
  }

  /** The writer completes without an OverflowError. */
  predicate Encodable(es: seq<Entry>)
  {
    |es| < 256 && AllFit(es)
  }

  function Record(e: Entry): seq<Byte>
    requires Fits(e)
  {
    ToBytes(e.width, 2) + ToBytes(e.height, 2) + ToBytes(|e.block|, 4)
  }

  function Directory(es: seq<Entry>): seq<Byte>
    requires AllFit(es)
  {
    if es == [] then [] else Directory(es[..|es| - 1]) + Record(es[|es| - 1])
  }

  function Blocks(es: seq<Entry>): seq<Byte>
  {
    if es == [] then [] else Blocks(es[..|es| - 1]) + es[|es| - 1].block
  }

  /** Total size of the compressed blocks. */
  function BlockBytes(es: seq<Entry>): nat
  {
    if es == [] then 0 else BlockBytes(es[..|es| - 1]) + |es[|es| - 1].block|
  }

  /** The complete file the writer produces. */
  function Serialized(es: seq<Entry>): (f: seq<Byte>)
    requires Encodable(es)
    ensures |f| == HeaderSize + RecordSize * |es| + BlockBytes(es)
    ensures f[..4] == Magic && f[4] == |es|
  {
    DirectoryLength(es);
    BlocksLength(es);
    Magic + [|es|] + Directory(es) + Blocks(es)
  }

  /** Index of the first entry with a field that overflows. */
  function FirstUnfit(es: seq<Entry>): (k: nat)
    requires !AllFit(es)
    ensures k < |es| && !Fits(es[k]) && AllFit(es[..k])
  {
    if !Fits(es[0]) then 0
    else
      var k := FirstUnfit(es[1..]);
      assert es[..k + 1] == [es[0]] + es[1..][..k];
      k + 1
  }

  /** The fields of an overflowing record written before the one that raises. */
  function FieldsBeforeOverflow(e: Entry): seq<Byte>
    requires !Fits(e)
  {
    if e.width >= 0x1_0000 then []
    else if e.height >= 0x1_0000 then ToBytes(e.width, 2)
    else ToBytes(e.width, 2) + ToBytes(e.height, 2)
  }

  /** What is left in the output file when the writer raises OverflowError:
      everything written before the failing to_bytes call. */
  function Truncated(es: seq<Entry>): (f: seq<Byte>)
    requires !Encodable(es)
    ensures |f| >= 4 && f[..4] == Magic
    ensures |es| < 256 ==> HeaderSize <= |f| < HeaderSize + RecordSize * |es| && f[4] == |es|
    ensures |es| >= 256 ==> |f| == 4
  {
    if |es| >= 256 then Magic
    else
      var k := FirstUnfit(es);
      DirectoryLength(es[..k]);
      assert RecordSize * k + RecordSize <= RecordSize * |es|;
      Magic + [|es|] + Directory(es[..k]) + FieldsBeforeOverflow(es[k])
  }

  // ---------------------------------------------------------------------
  // Reading

  /** The bytes a read of hi - lo bytes at position lo returns: fewer, or
      none, when the file ends first. */
  function Slice(f: seq<Byte>, lo: nat, hi: nat): (r: seq<Byte>)
    requires lo <= hi
    ensures |r| <= hi - lo
    ensures hi <= |f| ==> r == f[lo..hi]
  {
    f[Min(lo, |f|)..Min(hi, |f|)]
  }

  /** Position of the record of the last of count entries. */
  function LastRecordAt(count: nat): nat
    requires count >= 1
  {
    HeaderSize + RecordSize * (count - 1)
  }

  /** t is the final |t| bytes of f. */
  predicate IsTail(t: seq<Byte>, f: seq<Byte>)
  {
    |t| <= |f| && f[|f| - |t|..] == t
  }

  /** What the reader extracts from a file: the last directory record's
      width and height, and the final `length` bytes of the file. */
  function ParseLast(f: seq<Byte>): (r: Result<Entry>)
    ensures r == Failure(BadMagic) <==> Slice(f, 0, 4) != Magic
    ensures r.Failure? ==> r.error == BadMagic || r.error == NegativeSeek
    ensures r.Success? ==> Fits(r.value) && IsTail(r.value.block, f)
  {
    if Slice(f, 0, 4) != Magic then Failure(BadMagic)
    else ParseAfterCount(f, FromBytes(Slice(f, 4, 5)))
  }

  /** After the count byte: skip to the last record, which fails for a count
      of 0 because the skip of -8 bytes would pass the start of the file. */
  function ParseAfterCount(f: seq<Byte>, count: nat): (r: Result<Entry>)
    ensures r.Failure? ==> r.error == NegativeSeek
    ensures r.Success? ==> Fits(r.value) && IsTail(r.value.block, f)
  {
    if count == 0 then Failure(NegativeSeek) else EntryAt(f, LastRecordAt(count))
  }

  /** The record at `at` and the block it addresses, which is fetched from
      the end of the file: the final `length` bytes. */
  function EntryAt(f: seq<Byte>, at: nat): (r: Result<Entry>)
    ensures r.Failure? ==> r.error == NegativeSeek
    ensures r.Success? ==> Fits(r.value) && IsTail(r.value.block, f)
  {
    Pow256Values();
    var length := FromBytes(Slice(f, at + 4, at + 8));
    if length > |f| then Failure(NegativeSeek)
    else Success(Entry(FromBytes(Slice(f, at, at + 2)), FromBytes(Slice(f, at + 2, at + 4)), f[|f| - length..]))
  }

  // ---------------------------------------------------------------------
  // Layout lemmas

  /** The directory holds 8 bytes per entry. */
  lemma {:induction false} DirectoryLength(es: seq<Entry>)
    requires AllFit(es)
    ensures |Directory(es)| == RecordSize * |es|
  {
    if es != [] {
      assert AllFit(es[..|es| - 1]);
      DirectoryLength(es[..|es| - 1]);
    }
  }

  /** Record i sits at offset 8 * i of the directory, in entry order. */
  lemma {:induction false} DirectoryLayout(es: seq<Entry>, i: nat)
    requires AllFit(es) && i < |es|
    ensures RecordSize * (i + 1) <= |Directory(es)|
    ensures Directory(es)[RecordSize * i..RecordSize * (i + 1)] == Record(es[i])
  {
    var n := |es|;
    var front := es[..n - 1];
    assert AllFit(front);
    DirectoryLength(front);
    assert Directory(es) == Directory(front) + Record(es[n - 1]);
    if i < n - 1 {
      DirectoryLayout(front, i);
      assert Directory(es)[RecordSize * i..RecordSize * (i + 1)] == Directory(front)[RecordSize * i..RecordSize * (i + 1)];
    }
  }

  lemma {:induction false} BlocksLength(es: seq<Entry>)
    ensures |Blocks(es)| == BlockBytes(es)
  {
    if es != [] {
      BlocksLength(es[..|es| - 1]);
    }
  }

  /** Byte offset of block i in a serialised file. */
  function BlockStart(es: seq<Entry>, i: nat): nat
    requires i <= |es|
  {
    HeaderSize + RecordSize * |es| + BlockBytes(es[..i])
  }

  /** Block i of the concatenated blocks is exactly es[i].block, after the blocks before it. */
  lemma {:induction false} BlocksLayout(es: seq<Entry>, i: nat)
    requires i < |es|
    ensures BlockBytes(es[..i]) + |es[i].block| <= |Blocks(es)|
    ensures Blocks(es)[BlockBytes(es[..i])..BlockBytes(es[..i]) + |es[i].block|] == es[i].block
  {
    var n := |es|;
    var front := es[..n - 1];
    var lo, hi := BlockBytes(es[..i]), BlockBytes(es[..i]) + |es[i].block|;
    assert Blocks(es) == Blocks(front) + es[n - 1].block;
    BlocksLength(front);
    if i < n - 1 {
      assert es[..i] == front[..i];
      BlocksLayout(front, i);
      assert Blocks(es)[lo..hi] == Blocks(front)[lo..hi];
    } else {
      assert es[..i] == front;
    }
  }

  /** The blocks of a prefix take no more room than the blocks of the whole. */
  lemma {:induction false} BlockBytesMono(es: seq<Entry>, k: nat)
    requires k <= |es|
    ensures BlockBytes(es[..k]) <= BlockBytes(es)
  {
    if k < |es| {
      var n := |es|;
      assert es[..n - 1][..k] == es[..k];
      BlockBytesMono(es[..n - 1], k);
    } else {
      assert es[..k] == es;
    }
  }

  /** Blocks start one after the other: block i + 1 starts where block i ends. */
  lemma BlockStartNext(es: seq<Entry>, i: nat)
    requires i < |es|
    ensures BlockStart(es, i + 1) == BlockStart(es, i) + |es[i].block|
  {
    assert es[..i + 1][..i] == es[..i];
  }

  /** The three fields of a record read back as the entry's width, height and block length. */
  lemma RecordFields(e: Entry)
    requires Fits(e)
    ensures |Record(e)| == RecordSize
    ensures FromBytes(Record(e)[..2]) == e.width
    ensures FromBytes(Record(e)[2..4]) == e.height
    ensures FromBytes(Record(e)[4..8]) == |e.block|
  {
    Pow256Values();
    DecodeEncode(e.width, 2);
    DecodeEncode(e.height, 2);
    DecodeEncode(|e.block|, 4);
    var rec := Record(e);
    assert rec[..2] == ToBytes(e.width, 2);
    assert rec[2..4] == ToBytes(e.height, 2);
    assert rec[4..8] == ToBytes(|e.block|, 4);
  }

  /** Record i is at offset 5 + 8 * i of the file. */
  lemma SerializedRecord(es: seq<Entry>, i: nat)
    requires Encodable(es) && i < |es|
    ensures HeaderSize + RecordSize * (i + 1) <= |Serialized(es)|
    ensures Serialized(es)[HeaderSize + RecordSize * i..HeaderSize + RecordSize * (i + 1)] == Record(es[i])
  {
    var d := Directory(es);
    DirectoryLength(es);
    DirectoryLayout(es, i);
    var pre := Magic + [|es|];
    assert Serialized(es) == pre + d + Blocks(es);
    assert |pre| == HeaderSize;
    assert RecordSize * (i + 1) <= |d|;
    assert Serialized(es)[HeaderSize + RecordSize * i..HeaderSize + RecordSize * (i + 1)] == d[RecordSize * i..RecordSize * (i + 1)];
  }

  /** Block i is at BlockStart(es, i) and holds exactly es[i].block. */
  lemma SerializedBlock(es: seq<Entry>, i: nat)
    requires Encodable(es) && i < |es|
    ensures BlockStart(es, i) + |es[i].block| <= |Serialized(es)|
    ensures Serialized(es)[BlockStart(es, i)..BlockStart(es, i) + |es[i].block|] == es[i].block
  {
    DirectoryLength(es);
    BlocksLayout(es, i);
    var pre := Magic + [|es|] + Directory(es);
    assert Serialized(es) == pre + Blocks(es);
    assert |pre| == HeaderSize + RecordSize * |es|;
    var lo := BlockBytes(es[..i]);
    assert Serialized(es)[|pre| + lo..|pre| + lo + |es[i].block|] == Blocks(es)[lo..lo + |es[i].block|];
  }

  /** Backward seek: the last `length` bytes of the file are the last block,
      and they begin at or after the end of every earlier block. */
  lemma LastBlockIsTail(es: seq<Entry>)
    requires Encodable(es) && |es| >= 1
    ensures var f, last := Serialized(es), es[|es| - 1];
      && |last.block| <= |f|
      && f[|f| - |last.block|..] == last.block
      && |f| - |last.block| == BlockStart(es, |es| - 1)
      && forall i :: 0 <= i < |es| - 1 ==> BlockStart(es, i) + |es[i].block| <= |f| - |last.block|
  {
    var f, n := Serialized(es), |es|;
    var last := es[n - 1];
    assert es[..n] == es;
    BlockStartNext(es, n - 1);
    assert f == (Magic + [n] + Directory(es) + Blocks(es[..n - 1])) + last.block;
    forall i | 0 <= i < n - 1
      ensures BlockStart(es, i) + |es[i].block| <= |f| - |last.block|
    {
      BlockStartNext(es, i);
      assert es[..n - 1][..i + 1] == es[..i + 1];
      BlockBytesMono(es[..n - 1], i + 1);
    }
  }

  /** Reading a serialised file returns the last entry: its width, its height
      and exactly its block. */
  lemma ParseSerialized(es: seq<Entry>)
    requires Encodable(es) && |es| >= 1
    ensures ParseLast(Serialized(es)) == Success(es[|es| - 1])
  {
    var f, n := Serialized(es), |es|;
    assert Slice(f, 0, 4) == Magic;
    assert Slice(f, 4, 5) == [n];
    assert FromBytes([n]) == n by {
      assert [n][..0] == [];
    }
    LastEntryAt(es);
  }

  /** The last record of a serialised file, with the block taken from the
      end, is the last entry. */
  lemma LastEntryAt(es: seq<Entry>)
    requires Encodable(es) && |es| >= 1
    ensures EntryAt(Serialized(es), LastRecordAt(|es|)) == Success(es[|es| - 1])
  {
    SerializedRecord(es, |es| - 1);
    LastBlockIsTail(es);
    EntryAtRecord(Serialized(es), LastRecordAt(|es|), es[|es| - 1]);
  }

  /** A record for e at `at`, with e's block at the end of the file, reads back as e. */
  lemma EntryAtRecord(f: seq<Byte>, at: nat, e: Entry)
    requires Fits(e) && at + RecordSize <= |f| && f[at..at + RecordSize] == Record(e)
    requires |e.block| <= |f| && f[|f| - |e.block|..] == e.block
    ensures EntryAt(f, at) == Success(e)
  {
    var rec := f[at..at + RecordSize];
    RecordFields(e);
    assert |rec| == 8;
    assert forall i :: 0 <= i < 8 ==> rec[i] == f[at + i];
    assert f[at..at + 2] == rec[..2];
    assert f[at + 2..at + 4] == f[at..at + RecordSize][2..4];
    assert f[at + 2..at + 4] == rec[2..4];
    assert f[at + 4..at + 8] == rec[4..8];
  }

  /** A file that does not start with "BIP2" is rejected and nothing else is read. */
  lemma RejectsBadMagic(f: seq<Byte>)
    requires |f| < 4 || f[..4] != Magic
    ensures ParseLast(f) == Failure(BadMagic)
  {
  }


}
