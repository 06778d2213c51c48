/** Byte-level building blocks shared by the cursor decoder: the C `~` on a
    byte, buffer complement, zero-filled allocation, the copy that
    `GetBitmapBits` performs into a caller buffer, and the little-endian
    layout of a 32-bit store on x86. */
module Bytes {

  /** Bitwise complement of one byte (`~` on a UINT8 stored back into a byte). */
  function Not(b: bv8): (r: bv8)
    ensures r as int == 255 - b as int
    ensures r != b
  {
    !b
  }

  /** `s` with each of its first `n` bytes complemented and the rest untouched. */
  function ComplementPrefix(s: seq<bv8>, n: nat): (r: seq<bv8>)
    ensures |r| == |s|
  {
    seq(|s|, i requires 0 <= i < |s| => if i < n then Not(s[i]) else s[i])
  }

  /** Complementing the same prefix twice gives back the original buffer. */
  lemma ComplementPrefixTwice(s: seq<bv8>, n: nat)
    ensures ComplementPrefix(ComplementPrefix(s, n), n) == s
  {
    var once := ComplementPrefix(s, n);
    var twice := ComplementPrefix(once, n);
    forall i | 0 <= i < |s|
      ensures twice[i] == s[i]
    {
      if i < n {
        assert twice[i] == !(!s[i]);
      }
    }
  }

  /** A fresh zero-filled buffer, as the host's zeroing allocator returns. */
  function Zeros(n: nat): (r: seq<bv8>)
    ensures |r| == n
    ensures forall i :: 0 <= i < n ==> r[i] == 0
  {
    seq(n, _ => 0)
  }

  function Min(a: nat, b: nat): nat
  {
    if a <= b then a else b
  }

  /** The buffer after `GetBitmapBits(h, count, buf)` on a zero-filled buffer of
      `size` bytes: the bitmap's bytes are copied, at most `count` of them and at
      most as many as the bitmap holds; the rest keep their zero. */
  function Fetch(bits: seq<bv8>, count: nat, size: nat): (r: seq<bv8>)
    requires count <= size
    ensures |r| == size
    ensures forall i :: 0 <= i < size ==> r[i] == (if i < count && i < |bits| then bits[i] else 0)
  {
    var copied := Min(count, |bits|);
    bits[..copied] + Zeros(size - copied)
  }

  /** The four bytes that a 32-bit store of `w` leaves in memory on a
      little-endian machine, lowest address first. */
  function StoreLE(w: bv32): (r: seq<bv8>)
    ensures |r| == 4
  {
    [(w & 0xFF) as bv8, ((w >> 8) & 0xFF) as bv8, ((w >> 16) & 0xFF) as bv8, (w >> 24) as bv8]
  }

  /** The 32-bit value a little-endian load reads from four bytes. */
  function LoadLE(b: seq<bv8>): (w: bv32)
    requires |b| == 4
  {
    (b[0] as bv32) | ((b[1] as bv32) << 8) | ((b[2] as bv32) << 16) | ((b[3] as bv32) << 24)
  }

  /** Loading the stored bytes gives back the stored word. */
  lemma LoadStore(w: bv32)
    ensures LoadLE(StoreLE(w)) == w
  {
  }

  /** The two words the monochrome decoder stores, as bytes in B, G, R, A order. */
  lemma StoredWords()
    ensures StoreLE(0xFFFF_FFFF) == [0xFF, 0xFF, 0xFF, 0xFF]
    ensures StoreLE(0xFF00_0000) == [0, 0, 0, 0xFF]
    ensures StoreLE(0) == [0, 0, 0, 0]
  {
  }
}
