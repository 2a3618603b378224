/** Unsigned big-endian integers of a fixed byte width, as int.to_bytes(n, 'big')
    and int.from_bytes(b, 'big') produce and read them. */
module BigEndian {
  import opened Outcomes

  type Byte = b: int | 0 <= b < 256

  /** 256^n, one more than the largest value n bytes can hold. */
  function Pow256(n: nat): (p: nat)
    ensures p >= 1
  {
    if n == 0 then 1 else 256 * Pow256(n - 1)
  }

  lemma Pow256Values()
    ensures Pow256(1) == 0x100
    ensures Pow256(2) == 0x1_0000
    ensures Pow256(4) == 0x1_0000_0000
  {
    assert Pow256(3) == 0x100_0000;
  }

  /** The low n bytes of x, most significant first. */
  function ToBytes(x: nat, n: nat): (r: seq<Byte>)
    ensures |r| == n
  {
    if n == 0 then [] else ToBytes(x / 256, n - 1) + [x % 256]
  }

  /** The value of a big-endian byte string; the empty string is 0. */
  function FromBytes(s: seq<Byte>): (x: nat)
    ensures x < Pow256(|s|)
  {
    if s == [] then 0 else FromBytes(s[..|s| - 1]) * 256 + s[|s| - 1]
  }

  /** int.to_bytes(n, 'big') on a non-negative value: OverflowError when x
      does not fit in n bytes. */
  function IntToBytes(x: nat, n: nat): (r: Option<seq<Byte>>)
    ensures r.Some? <==> x < Pow256(n)
    ensures r.Some? ==> |r.value| == n && FromBytes(r.value) == x
  {
    if x < Pow256(n) then
      DecodeEncode(x, n);
      Some(ToBytes(x, n))
    else
      None
  }

  /** Big-endian round trip: a value that fits in n bytes is read back unchanged. */
  lemma {:induction false} DecodeEncode(x: nat, n: nat)
    requires x < Pow256(n)
    ensures FromBytes(ToBytes(x, n)) == x
  {
    if n > 0 {
      var s := ToBytes(x, n);
      var q, r := x / 256, x % 256;
      assert s == ToBytes(q, n - 1) + [r];
      assert s[..n - 1] == ToBytes(q, n - 1) && s[n - 1] == r;
      var p := Pow256(n - 1);
      assert Pow256(n) == 256 * p;
      assert q * 256 <= x < 256 * p;
      assert q < p;
      DecodeEncode(q, n - 1);
      assert FromBytes(s) == q * 256 + r;
    }
  }

  /** The other direction: every byte string is the encoding of its value. */
  lemma {:induction false} EncodeDecode(s: seq<Byte>)
    ensures ToBytes(FromBytes(s), |s|) == s
  {
    if s != [] {
      var n := |s|;
      var v := FromBytes(s[..n - 1]);
      assert FromBytes(s) / 256 == v && FromBytes(s) % 256 == s[n - 1];
      EncodeDecode(s[..n - 1]);
      assert s == s[..n - 1] + [s[n - 1]];
    }
  }

  /** A one-byte field holds its value as its only byte. */
  lemma OneByte(x: nat)
    requires x < 256
    ensures ToBytes(x, 1) == [x]
  {
    assert x / 256 == 0 && x % 256 == x;
    assert ToBytes(x, 1) == ToBytes(0, 0) + [x];
  }
}
