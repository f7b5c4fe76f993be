/** Go's `binary.BigEndian.PutUint64` and `binary.BigEndian.Uint64`: the encoding
  * of the max-index value (pebble/db.go:272, pebble/db.go:398). */
module BigEndian {
  import opened Common

  function Pow256(n: nat): (r: nat)
    ensures r >= 1
  {
    if n == 0 then 1 else 256 * Pow256(n - 1)
  }

  lemma Pow256Eight()
    ensures Pow256(8) == MaxUint64 + 1
  {
    assert Pow256(2) == 0x1_0000;
    assert Pow256(4) == 0x1_0000_0000 by { assert Pow256(4) == 256 * (256 * Pow256(2)); }
    assert Pow256(6) == 0x1_0000_0000_0000 by { assert Pow256(6) == 256 * (256 * Pow256(4)); }
    assert Pow256(8) == 256 * (256 * Pow256(6));
  }

  /** The last `n` bytes of `x` in big-endian order (most significant byte first). */
  function Encode(x: nat, n: nat): (r: seq<byte>)
    ensures |r| == n
  {
    if n == 0 then [] else Encode(x / 256, n - 1) + [(x % 256) as byte]
  }

  /** The number whose big-endian bytes are `s`. */
  function Decode(s: seq<byte>): (r: nat)
    ensures r < Pow256(|s|)
  {
    if s == [] then 0 else Decode(s[..|s| - 1]) * 256 + s[|s| - 1]
  }

  /** binary.BigEndian.PutUint64 into an 8-byte buffer. */
  function PutUint64(v: uint64): (r: seq<byte>)
    ensures |r| == 8
  {
    Encode(v, 8)
  }

  /** binary.BigEndian.Uint64: reads the first 8 bytes; Go panics on a shorter slice,
    * which is why callers must check the length first. */
  function Uint64(b: seq<byte>): (r: uint64)
    requires |b| >= 8
    ensures Encode(r, 8) == b[..8]
  {
    Pow256Eight();
    EncodeDecode(b[..8]);
    Decode(b[..8])
  }

  lemma {:induction false} DecodeEncode(x: nat, n: nat)
    requires x < Pow256(n)
    ensures Decode(Encode(x, n)) == x
  {
    if n > 0 {
      var e := Encode(x, n);
      assert e[..n - 1] == Encode(x / 256, n - 1);
      DecodeEncode(x / 256, n - 1);
    }
  }

  lemma {:induction false} EncodeDecode(s: seq<byte>)
    ensures Encode(Decode(s), |s|) == s
  {
    if s != [] {
      var n := |s|;
      var d, b := Decode(s[..n - 1]), s[n - 1];
      EncodeDecode(s[..n - 1]);
      SplitByte(d, b);
      calc {
        Encode(Decode(s), n);
        Encode(d * 256 + b, n);
        Encode(d, n - 1) + [b];
        s[..n - 1] + [s[n - 1]];
      }
      assert s == s[..n - 1] + [s[n - 1]];
    }
  }

  lemma SplitByte(d: nat, b: byte)
    ensures (d * 256 + b) / 256 == d && (d * 256 + b) % 256 == b
  {
  }

  /** Writing a max index and reading it back gives the same uint64. */
  lemma Uint64PutUint64(v: uint64)
    ensures Uint64(PutUint64(v)) == v
  {
    Pow256Eight();
    DecodeEncode(v, 8);
    assert PutUint64(v)[..8] == PutUint64(v);
  }

  /** Two different max indexes are never written as the same bytes. */
  lemma PutUint64Injective(v: uint64, w: uint64)
    requires PutUint64(v) == PutUint64(w)
    ensures v == w
  {
    Uint64PutUint64(v);
    Uint64PutUint64(w);
  }
}
