/** Bytes, fixed-width little-endian words, and the sums and concatenations that
    the transfer and framing layers are specified with. */
module Bytes {

  type byte = x: int | 0 <= x < 256

  /** One more than the largest `size_t`. */
  const WORD := 0x1_0000_0000_0000_0000

  /** Arithmetic on `size_t`. */
  function Wrap(n: nat): (r: nat)
    ensures r < WORD && (n < WORD ==> r == n)
  {
    if n < WORD then n else n % WORD
  }

  /** It drops whole multiples of the word size. */
  lemma WrapDrops(n: nat, r: nat, wraps: nat)
    requires r < WORD && n == r + wraps * WORD
    ensures Wrap(n) == r
  {
  }

  function Sum(lengths: seq<nat>): nat {
    if lengths == [] then 0 else lengths[0] + Sum(lengths[1..])
  }

  function Flatten<T>(parts: seq<seq<T>>): seq<T> {
    if parts == [] then [] else parts[0] + Flatten(parts[1..])
  }

  function Lengths<T>(parts: seq<seq<T>>): (r: seq<nat>)
    ensures |r| == |parts|
    ensures forall i :: 0 <= i < |r| ==> r[i] == |parts[i]|
  {
    seq(|parts|, i requires 0 <= i < |parts| => |parts[i]|)
  }

  function Zeros(n: nat): (r: seq<byte>)
    ensures |r| == n
  {
    seq(n, _ => 0)
  }

  lemma {:induction false} SumAppend(a: seq<nat>, b: seq<nat>)
    ensures Sum(a + b) == Sum(a) + Sum(b)
  {
    if a == [] {
      assert a + b == b;
    } else {
      assert (a + b)[1..] == a[1..] + b;
      SumAppend(a[1..], b);
    }
  }

  lemma {:induction false} FlattenAppend<T>(a: seq<seq<T>>, b: seq<seq<T>>)
    ensures Flatten(a + b) == Flatten(a) + Flatten(b)
  {
    if a == [] {
      assert a + b == b;
    } else {
      assert (a + b)[1..] == a[1..] + b;
      FlattenAppend(a[1..], b);
    }
  }

  lemma {:induction false} FlattenLength<T>(parts: seq<seq<T>>)
    ensures |Flatten(parts)| == Sum(Lengths(parts))
  {
    if parts != [] {
      assert Lengths(parts)[1..] == Lengths(parts[1..]);
      FlattenLength(parts[1..]);
    }
  }

  lemma LengthsAppend<T>(a: seq<seq<T>>, b: seq<seq<T>>)
    ensures Lengths(a + b) == Lengths(a) + Lengths(b)
    ensures Lengths(a + b)[..|a|] == Lengths(a) && Lengths(a + b)[|a|..] == Lengths(b)
  {
  }

  /** The `width` low bytes of `n`, least significant first: how the machine lays
      out an integer in memory. */
  function EncodeLE(n: nat, width: nat): (r: seq<byte>)
    ensures |r| == width
  {
    if width == 0 then [] else [n % 256] + EncodeLE(n / 256, width - 1)
  }

  function DecodeLE(s: seq<byte>): nat {
    if s == [] then 0 else s[0] + 256 * DecodeLE(s[1..])
  }

  function Pow256(width: nat): nat {
    if width == 0 then 1 else 256 * Pow256(width - 1)
  }

  lemma {:induction false} DecodeEncode(n: nat, width: nat)
    requires n < Pow256(width)
    ensures DecodeLE(EncodeLE(n, width)) == n
  {
    if width > 0 {
      DecodeEncode(n / 256, width - 1);
      assert EncodeLE(n, width)[1..] == EncodeLE(n / 256, width - 1);
    }
  }

  lemma WordWidth()
    ensures Pow256(8) == WORD
  {
    assert Pow256(1) == 256 * Pow256(0) == 256;
    assert Pow256(3) == 256 * Pow256(2);
    assert Pow256(5) == 256 * Pow256(4);
    assert Pow256(7) == 256 * Pow256(6);
  }

  lemma LowDigit(digit: byte, rest: nat, bound: nat)
    requires rest < bound
    ensures (digit + 256 * rest) % 256 == digit && (digit + 256 * rest) / 256 == rest
    ensures digit + 256 * rest < 256 * bound
  {
  }

  lemma {:induction false} EncodeDecode(s: seq<byte>)
    ensures DecodeLE(s) < Pow256(|s|) && EncodeLE(DecodeLE(s), |s|) == s
  {
    if s != [] {
      EncodeDecode(s[1..]);
      LowDigit(s[0], DecodeLE(s[1..]), Pow256(|s| - 1));
      assert s == [s[0]] + s[1..];
    }
  }

  /** A table of 64-bit words. */
  function EncodeTable(words: seq<nat>): (r: seq<byte>)
    ensures |r| == 8 * |words|
  {
    if words == [] then [] else EncodeLE(words[0], 8) + EncodeTable(words[1..])
  }

  function DecodeTable(s: seq<byte>, count: nat): (r: seq<nat>)
    requires |s| == 8 * count
    ensures |r| == count
  {
    if count == 0 then [] else [DecodeLE(s[..8])] + DecodeTable(s[8..], count - 1)
  }

  lemma {:induction false} TableRoundTrip(words: seq<nat>)
    requires forall i :: 0 <= i < |words| ==> words[i] < WORD
    ensures DecodeTable(EncodeTable(words), |words|) == words
  {
    if words != [] {
      var s := EncodeTable(words);
      assert s[..8] == EncodeLE(words[0], 8) && s[8..] == EncodeTable(words[1..]);
      WordWidth();
      DecodeEncode(words[0], 8);
      TableRoundTrip(words[1..]);
    }
  }

  lemma {:induction false} TableUnique(s: seq<byte>, count: nat)
    requires |s| == 8 * count
    ensures EncodeTable(DecodeTable(s, count)) == s
    ensures forall i :: 0 <= i < count ==> DecodeTable(s, count)[i] < WORD
  {
    if count > 0 {
      EncodeDecode(s[..8]);
      WordWidth();
      TableUnique(s[8..], count - 1);
      assert s == s[..8] + s[8..];
    }
  }
}
