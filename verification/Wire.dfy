/** Which bytes a message consists of, one by one. */
module Wire {
  import opened Bytes
  import opened Bits
  import opened Framing

  lemma DivTwice(n: nat, p: nat)
    requires p > 0
    ensures n / 256 / p == n / (256 * p)
  {
    var q, r := n / 256, n % 256;
    var k, s := q / p, q % p;
    assert q == p * k + s;
    assert n == 256 * p * k + (256 * s + r);
    QuotientUnique(n, 256 * p, k, 256 * s + r);
  }

  lemma {:induction false} Pow256Positive(i: nat)
    ensures Pow256(i) > 0
  {
    if i > 0 {
      Pow256Positive(i - 1);
    }
  }

  /** Byte `i` of an integer laid out in memory is its digit `i` to the base 256. */
  lemma {:induction false} ByteAt(n: nat, width: nat, i: nat)
    requires i < width
    ensures Pow256(i) > 0 && EncodeLE(n, width)[i] == n / Pow256(i) % 256
  {
    Pow256Positive(i);
    if i > 0 {
      ByteAt(n / 256, width - 1, i - 1);
      DivTwice(n, Pow256(i - 1));
    }
  }

  /** A 64-bit word with this value stands at this place, least significant byte first. */
  ghost predicate IsWord(s: seq<byte>, at: nat, n: nat) {
    at + 8 <= |s| && forall k :: 0 <= k < 8 ==> Pow256(k) > 0 && s[at + k] == n / Pow256(k) % 256
  }

  lemma WordIs(s: seq<byte>, at: nat, n: nat)
    requires at + 8 <= |s| && s[at..at + 8] == EncodeLE(n, 8)
    ensures IsWord(s, at, n)
  {
    forall k | 0 <= k < 8 ensures Pow256(k) > 0 && s[at + k] == n / Pow256(k) % 256 {
      ByteAt(n, 8, k);
      assert s[at + k] == s[at..at + 8][k];
    }
  }

  /** Entry `i` of a table is in its place. */
  lemma {:induction false} TableAt(words: seq<nat>, i: nat)
    requires i < |words|
    ensures EncodeTable(words)[8 * i..8 * i + 8] == EncodeLE(words[i], 8)
  {
    var first, rest := EncodeLE(words[0], 8), EncodeTable(words[1..]);
    assert EncodeTable(words) == first + rest;
    if i == 0 {
      assert (first + rest)[..8] == first;
    } else {
      TableAt(words[1..], i - 1);
      Behind(first, rest, 8 * (i - 1), 8 * i);
    }
  }

  lemma Behind(a: seq<byte>, b: seq<byte>, i: nat, j: nat)
    requires i <= j <= |b|
    ensures (a + b)[|a| + i..|a| + j] == b[i..j]
  {
  }

  lemma {:induction false} PartAt<T>(parts: seq<seq<T>>, i: nat)
    requires i < |parts|
    ensures var at := Sum(Lengths(parts[..i]));
            at + |parts[i]| <= |Flatten(parts)| && Flatten(parts)[at..at + |parts[i]|] == parts[i]
  {
    var before, after := parts[..i], parts[i + 1..];
    assert parts == before + ([parts[i]] + after);
    FlattenAppend(before, [parts[i]] + after);
    FlattenLength(before);
    assert ([parts[i]] + after)[1..] == after;
    assert Flatten(parts) == Flatten(before) + (parts[i] + Flatten(after));
  }

  lemma Placed(total: seq<byte>, count: seq<byte>, table: seq<byte>, contents: seq<byte>, i: nat, j: nat)
    requires |total| == |count| == 8
    ensures var s := total + count + table + contents;
            s[0..8] == total && s[8..16] == count
            && (i <= j <= |table| ==> s[16 + i..16 + j] == table[i..j])
            && (i <= j <= |contents| ==> s[16 + |table| + i..16 + |table| + j] == contents[i..j])
  {
  }

  lemma HeaderPlaced(blocks: seq<seq<byte>>)
    ensures IsWord(Frame(blocks), 0, |Frame(blocks)|) && IsWord(Frame(blocks), 8, |blocks|)
  {
    FrameSize(blocks);
    Placed(EncodeLE(FrameLength(blocks), 8), EncodeLE(|blocks|, 8), EncodeTable(Lengths(blocks)), Flatten(blocks),
           0, 0);
    WordIs(Frame(blocks), 0, FrameLength(blocks));
    WordIs(Frame(blocks), 8, |blocks|);
  }

  lemma LengthPlaced(blocks: seq<seq<byte>>, i: nat)
    requires i < |blocks|
    ensures IsWord(Frame(blocks), 16 + 8 * i, |blocks[i]|)
  {
    TableAt(Lengths(blocks), i);
    Placed(EncodeLE(FrameLength(blocks), 8), EncodeLE(|blocks|, 8), EncodeTable(Lengths(blocks)), Flatten(blocks),
           8 * i, 8 * i + 8);
    WordIs(Frame(blocks), 16 + 8 * i, |blocks[i]|);
  }

  lemma BlockPlaced(blocks: seq<seq<byte>>, i: nat)
    requires i < |blocks|
    ensures var at := 16 + 8 * |blocks| + Sum(Lengths(blocks[..i]));
            at + |blocks[i]| <= |Frame(blocks)| && Frame(blocks)[at..at + |blocks[i]|] == blocks[i]
  {
    PartAt(blocks, i);
    var from := Sum(Lengths(blocks[..i]));
    Placed(EncodeLE(FrameLength(blocks), 8), EncodeLE(|blocks|, 8), EncodeTable(Lengths(blocks)), Flatten(blocks),
           from, from + |blocks[i]|);
  }

  /** A message on the wire, byte by byte: the total length, the number of blocks and the
      length of each block in order as 64-bit words, and then the blocks in order. */
  lemma FrameLayout(blocks: seq<seq<byte>>)
    ensures IsWord(Frame(blocks), 0, |Frame(blocks)|) && IsWord(Frame(blocks), 8, |blocks|)
    ensures forall i :: 0 <= i < |blocks| ==>
              IsWord(Frame(blocks), 16 + 8 * i, |blocks[i]|) &&
              var at := 16 + 8 * |blocks| + Sum(Lengths(blocks[..i]));
              at + |blocks[i]| <= |Frame(blocks)| && Frame(blocks)[at..at + |blocks[i]|] == blocks[i]
  {
    HeaderPlaced(blocks);
    forall i | 0 <= i < |blocks|
      ensures IsWord(Frame(blocks), 16 + 8 * i, |blocks[i]|)
      ensures var at := 16 + 8 * |blocks| + Sum(Lengths(blocks[..i]));
              at + |blocks[i]| <= |Frame(blocks)| && Frame(blocks)[at..at + |blocks[i]|] == blocks[i]
    {
      LengthPlaced(blocks, i);
      BlockPlaced(blocks, i);
    }
  }

  /** The table of the message [7], [8, 9], spelled out. */
  lemma TableExample()
    ensures EncodeTable(Lengths<byte>([[7], [8, 9]])) == [1, 0, 0, 0, 0, 0, 0, 0, 2, 0, 0, 0, 0, 0, 0, 0]
  {
    var lengths := Lengths<byte>([[7], [8, 9]]);
    assert lengths == [1, 2] && [1, 2][1..] == [2];
    Small(1);
    Small(2);
    assert EncodeTable([2]) == EncodeLE(2, 8) + [];
    assert EncodeTable([1, 2]) == EncodeLE(1, 8) + EncodeTable([2]);
  }

  lemma Small(n: byte)
    ensures EncodeLE(n, 8) == [n, 0, 0, 0, 0, 0, 0, 0]
  {
    assert EncodeLE(0, 1) == [0];
    assert EncodeLE(0, 3) == [0] + EncodeLE(0, 2);
    assert EncodeLE(0, 5) == [0] + EncodeLE(0, 4);
    assert EncodeLE(0, 7) == [0] + EncodeLE(0, 6);
    assert n % 256 == n && n / 256 == 0;
  }
}
