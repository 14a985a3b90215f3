/**
 * Bytes of a record buffer and the little-endian integer codec that the
 * accessor's `*(intN_t *)(data + offset)` stores and loads perform on x86-64.
 */
module Bytes {

  type byte = x: int | 0 <= x < 256

  /** 256^n: the number of values an n-byte integer can hold. */
  function Pow256(n: nat): (r: nat)
    ensures r >= 1
  {
    if n == 0 then 1 else 256 * Pow256(n - 1)
  }

  /** Little-endian encoding of x truncated to w bytes (two's complement for x < 0). */
  function Encode(x: int, w: nat): (bs: seq<byte>)
    ensures |bs| == w
    decreases w
  {
    if w == 0 then [] else [x % 256] + Encode(x / 256, w - 1)
  }

  /** Unsigned little-endian decoding. */
  function Decode(bs: seq<byte>): (x: nat)
    ensures x < Pow256(|bs|)
  {
    if |bs| == 0 then 0 else bs[0] + 256 * Decode(bs[1..])
  }

  /** Reinterprets an unsigned w-byte value as two's complement. */
  function Signed(u: int, w: nat): int
    requires w > 0
  {
    if u >= Pow256(w) / 2 then u - Pow256(w) else u
  }

  /** Overwrites |src| bytes of data starting at off. */
  function Splice(data: seq<byte>, off: nat, src: seq<byte>): (r: seq<byte>)
    requires off + |src| <= |data|
    ensures |r| == |data|
    ensures r[off..off + |src|] == src
    ensures forall j :: 0 <= j < |data| && !(off <= j < off + |src|) ==> r[j] == data[j]
  {
    data[..off] + src + data[off + |src|..]
  }

  lemma MulAtLeast(d: int, k: int)
    requires d > 0 && k >= 1
    ensures d * k >= d
  {
  }

  lemma DivModUnique(x: int, d: int, q: int, m: int)
    requires d > 0 && 0 <= m < d && x == d * q + m
    ensures x % d == m && x / d == q
  {
    var q' := x / d;
    var m' := x % d;
    assert x == d * q' + m';
    if q' < q {
      assert d * (q - q') == d * q - d * q';
      MulAtLeast(d, q - q');
      assert false;
    } else if q' > q {
      assert d * (q' - q) == d * q' - d * q;
      MulAtLeast(d, q' - q);
      assert false;
    }
  }

  /** x and its decoded encoding differ by a multiple of 256^w. */
  lemma {:induction false} EncodeQuotient(x: int, w: nat)
    ensures exists q :: x == Pow256(w) * q + Decode(Encode(x, w))
    decreases w
  {
    if w == 0 {
      assert x == Pow256(0) * x + Decode(Encode(x, 0));
    } else {
      EncodeQuotient(x / 256, w - 1);
      var q :| x / 256 == Pow256(w - 1) * q + Decode(Encode(x / 256, w - 1));
      var e := Encode(x, w);
      assert e[1..] == Encode(x / 256, w - 1);
      assert Decode(e) == x % 256 + 256 * Decode(Encode(x / 256, w - 1));
      assert x == 256 * (x / 256) + x % 256;
      assert 256 * (Pow256(w - 1) * q) == Pow256(w) * q;
      assert x == Pow256(w) * q + Decode(e);
    }
  }

  /** Decoding an encoding yields the value reduced modulo 256^w. */
  lemma DecodeEncode(x: int, w: nat)
    ensures Decode(Encode(x, w)) == x % Pow256(w)
  {
    EncodeQuotient(x, w);
    var q :| x == Pow256(w) * q + Decode(Encode(x, w));
    DivModUnique(x, Pow256(w), q, Decode(Encode(x, w)));
  }

  /** Encoding a decoded byte sequence gives the same bytes back. */
  lemma {:induction false} EncodeDecode(bs: seq<byte>)
    ensures Encode(Decode(bs), |bs|) == bs
  {
    if |bs| > 0 {
      var x := Decode(bs);
      DivModUnique(x, 256, Decode(bs[1..]), bs[0]);
      EncodeDecode(bs[1..]);
      assert bs == [bs[0]] + bs[1..];
    }
  }

  /** A w-byte signed store followed by a signed load returns every in-range value. */
  lemma SignedRoundTrip(x: int, w: nat)
    requires w > 0
    requires -(Pow256(w) / 2) <= x < Pow256(w) / 2
    ensures Signed(Decode(Encode(x, w)), w) == x
  {
    DecodeEncode(x, w);
    if x < 0 {
      DivModUnique(x, Pow256(w), -1, x + Pow256(w));
    } else {
      DivModUnique(x, Pow256(w), 0, x);
    }
  }

  /** A w-byte unsigned store followed by an unsigned load returns every in-range value. */
  lemma UnsignedRoundTrip(x: int, w: nat)
    requires 0 <= x < Pow256(w)
    ensures Decode(Encode(x, w)) == x
  {
    DecodeEncode(x, w);
    DivModUnique(x, Pow256(w), 0, x);
  }

  /** The signed reading of any w-byte pattern lies in the two's complement range. */
  lemma SignedRange(u: int, w: nat)
    requires w > 0 && 0 <= u < Pow256(w)
    ensures -(Pow256(w) / 2) <= Signed(u, w) < Pow256(w) / 2
  {
    assert Pow256(w) == 256 * Pow256(w - 1);
  }

  /** The signed reading of x stored in w bytes is x itself exactly when x is in range. */
  lemma SignedExact(x: int, w: nat)
    requires w > 0
    ensures Signed(x % Pow256(w), w) == x <==> -(Pow256(w) / 2) <= x < Pow256(w) / 2
  {
    SignedRange(x % Pow256(w), w);
    if -(Pow256(w) / 2) <= x < Pow256(w) / 2 {
      SignedRoundTrip(x, w);
      DecodeEncode(x, w);
    }
  }

  /** The unsigned reading of x stored in w bytes is x itself exactly when x is in range. */
  lemma UnsignedExact(x: int, w: nat)
    ensures x % Pow256(w) == x <==> 0 <= x < Pow256(w)
  {
    if 0 <= x < Pow256(w) {
      DivModUnique(x, Pow256(w), 0, x);
    }
  }

  /** Zero bytes decode to zero. */
  lemma {:induction false} DecodeZeros(bs: seq<byte>)
    requires forall j :: 0 <= j < |bs| ==> bs[j] == 0
    ensures Decode(bs) == 0
  {
    if |bs| > 0 {
      DecodeZeros(bs[1..]);
    }
  }

  lemma Pow256Values()
    ensures Pow256(1) == 0x100 && Pow256(2) == 0x1_0000
    ensures Pow256(4) == 0x1_0000_0000 && Pow256(8) == 0x1_0000_0000_0000_0000
  {
  }
}
