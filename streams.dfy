/** Binary files as the converter uses them: one opened with 'wb' and
    written front to back, one opened with 'rb' and read through a cursor. */
module Streams {
  import opened BigEndian

  function Min(a: int, b: int): int { if a <= b then a else b }
  function Max(a: int, b: int): int { if a >= b then a else b }

  /** A file opened for writing: it starts empty and each write appends. */
  class Writer {
    var written: seq<Byte>

    constructor ()
      ensures written == []
    {
      written := [];
    }

    method Write(b: seq<Byte>)
      modifies this
      ensures written == old(written) + b
    {
      written := written + b;
    }
  }

  /** Where a relative seek is measured from. */
  datatype Whence = FromCurrent | FromEnd

  /** A file opened for reading. Its contents do not change; the position
      may be moved past the end, where reads return nothing. */
  class Reader {
    const contents: seq<Byte>
    var pos: nat

    constructor (f: seq<Byte>)
      ensures contents == f && pos == 0
    {
      contents := f;
      pos := 0;
    }

    /** read(n): at most n bytes from the position; fewer at the end of the file. */
    method Read(n: nat) returns (r: seq<Byte>)
      modifies this
      ensures r == contents[Min(old(pos), |contents|)..Min(old(pos) + n, |contents|)]
      ensures pos == Max(old(pos), Min(old(pos) + n, |contents|))
    {
      var lo, hi := Min(pos, |contents|), Min(pos + n, |contents|);
      r := contents[lo..hi];
      pos := Max(pos, hi);
    }

    /** read(): everything from the position to the end of the file. */
    method ReadToEnd() returns (r: seq<Byte>)
      modifies this
      ensures r == contents[Min(old(pos), |contents|)..]
      ensures pos == Max(old(pos), |contents|)
    {
      r := contents[Min(pos, |contents|)..];
      pos := Max(pos, |contents|);
    }

    /** seek(offset, whence): OSError, and no move, when the target is before the start. */
    method Seek(offset: int, whence: Whence) returns (ok: bool)
      modifies this
      ensures var target := (if whence == FromCurrent then old(pos) else |contents|) + offset;
        && ok == (target >= 0)
        && pos == if ok then target else old(pos)
    {
      var target := (if whence == FromCurrent then pos else |contents|) + offset;
      ok := target >= 0;
      if ok {
        pos := target;
      }
    }
  }
}
