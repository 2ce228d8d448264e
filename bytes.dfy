/** Raw bytes and fixed-width words.
    The client writes every numeric field in the host's native byte order;
    this model fixes that order to little-endian. Floating-point values are
    never interpreted: a `float` is its 32-bit pattern, a `double` its 64-bit one. */
module Bytes {

  newtype byte = x: int | 0 <= x < 256

  /** 256^n, the number of distinct patterns of an n-byte word. */
  function Pow256(n: nat): (r: nat)
    ensures r >= 1
  {
    if n == 0 then 1 else 256 * Pow256(n - 1)
  }

  /** The widths `sizeof` can give for the primitive types the codec sees. */
  predicate IsWidth(n: nat) {
    n == 1 || n == 2 || n == 4 || n == 8
  }

  function Zeros(n: nat): (r: seq<byte>)
    ensures |r| == n && forall k :: 0 <= k < n ==> r[k] == 0
  {
    seq(n, _ => 0)
  }

  /** The n bytes of the word v, least significant first (what memcpy of an
      n-byte integer or float writes on a little-endian host). */
  function WordBytes(n: nat, v: nat): (r: seq<byte>)
    ensures |r| == n
  {
    if n == 0 then [] else [(v % 256) as byte] + WordBytes(n - 1, v / 256)
  }

  /** The word whose little-endian bytes are bs (what memcpy into an integer reads). */
  function WordValue(bs: seq<byte>): (r: nat)
    ensures r < Pow256(|bs|)
  {
    if bs == [] then 0 else bs[0] as nat + 256 * WordValue(bs[1..])
  }

  /** Reading back the bytes of a word gives the word, when it fits in n bytes. */
  lemma {:induction false} WordRoundTrip(n: nat, v: nat)
    requires v < Pow256(n)
    ensures WordValue(WordBytes(n, v)) == v
  {
    if n > 0 {
      var bs := WordBytes(n, v);
      assert bs[1..] == WordBytes(n - 1, v / 256);
      WordRoundTrip(n - 1, v / 256);
    }
  }

  /** Writing the word read from n bytes gives those bytes back. */
  lemma {:induction false} BytesRoundTrip(bs: seq<byte>)
    ensures WordBytes(|bs|, WordValue(bs)) == bs
  {
    if bs != [] {
      BytesRoundTrip(bs[1..]);
      var v := WordValue(bs);
      assert v % 256 == bs[0] as nat;
      assert v / 256 == WordValue(bs[1..]);
    }
  }

  /** A two-byte word: low byte first. */
  lemma WordValuePair(bs: seq<byte>)
    requires |bs| == 2
    ensures WordValue(bs) == bs[0] as int + 256 * bs[1] as int
  {
    assert bs[1..][1..] == [];
  }

  /** Two's-complement pattern of a signed 32-bit integer. */
  function FromInt32(v: int): (r: nat)
    requires -0x8000_0000 <= v < 0x8000_0000
    ensures r < 0x1_0000_0000
    ensures ToInt32(r) == v
  {
    if v < 0 then v + 0x1_0000_0000 else v
  }

  /** The signed 32-bit integer a 4-byte pattern holds. */
  function ToInt32(w: nat): (r: int)
    requires w < 0x1_0000_0000
    ensures -0x8000_0000 <= r < 0x8000_0000
    ensures r < 0 <==> w >= 0x8000_0000
  {
    if w < 0x8000_0000 then w else w - 0x1_0000_0000
  }
}
