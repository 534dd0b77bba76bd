/** The message format on the wire, as functions of the stream; the channel's methods are
    proved against these. */
module Framing {
  import opened Basics
  import opened Bytes
  import opened Transfer

  const HEADER_SIZE: nat := 16

  function FrameLength(blocks: seq<seq<byte>>): nat {
    HEADER_SIZE + 8 * |blocks| + Sum(Lengths(blocks))
  }

  function Frame(blocks: seq<seq<byte>>): seq<byte> {
    EncodeLE(FrameLength(blocks), 8) + EncodeLE(|blocks|, 8) + EncodeTable(Lengths(blocks)) + Flatten(blocks)
  }

  function Frames(messages: seq<seq<seq<byte>>>): seq<byte> {
    if messages == [] then [] else Frame(messages[0]) + Frames(messages[1..])
  }

  /** A `std::vector<size_t>` and a `std::vector<iovec>` hold fewer elements than this. */
  const MAX_TABLE := 0x1000_0000_0000_0000
  const MAX_IOVECS := 0x800_0000_0000_0000

  /** They are the least sizes of which the bytes exceed every `ptrdiff_t`. */
  lemma VectorLimits()
    ensures 8 * (MAX_TABLE - 1) <= 0x7fff_ffff_ffff_ffff < 8 * MAX_TABLE
    ensures 16 * (MAX_IOVECS - 1) <= 0x7fff_ffff_ffff_ffff < 16 * MAX_IOVECS
  {
  }

  /** The buffer list fits a vector, and the total length a word: it is added up and
      compared as a `size_t`, and only carried in an `int64_t`. */
  predicate Fits(blocks: seq<seq<byte>>) {
    |blocks| + 2 < MAX_IOVECS && FrameLength(blocks) < WORD
  }

  /** The lengths of the buffers of one message: header, table and blocks. */
  function BufferLengths(blocks: seq<seq<byte>>): seq<nat> {
    [HEADER_SIZE, 8 * |blocks|] + Lengths(blocks)
  }

  /** The message fits, and all its bytes are in buffers that an `int` counts. */
  predicate Representable(blocks: seq<seq<byte>>) {
    Fits(blocks) && Whole(BufferLengths(blocks))
  }

  lemma CountedAtMost(lens: seq<nat>)
    ensures Sum(Counted(lens)) <= Sum(lens)
    ensures |lens| < 0x8000_0000 ==> Whole(lens)
  {
    var n := IntCount(|lens|);
    assert lens == lens[..n] + lens[n..];
    SumAppend(lens[..n], lens[n..]);
    if n == |lens| {
      assert Counted(lens) == lens;
    }
  }

  /** Every message of fewer than 2^31 - 2 blocks whose total fits a word can be sent. */
  lemma SmallRepresentable(blocks: seq<seq<byte>>)
    requires |blocks| + 2 < 0x8000_0000 && FrameLength(blocks) < WORD
    ensures Representable(blocks)
  {
    CountedAtMost(BufferLengths(blocks));
  }

  lemma BufferTotal(blocks: seq<seq<byte>>)
    ensures Sum(BufferLengths(blocks)) == FrameLength(blocks) == |Frame(blocks)|
  {
    SumAppend([HEADER_SIZE, 8 * |blocks|], Lengths(blocks));
    assert [HEADER_SIZE, 8 * |blocks|][1..] == [8 * |blocks|];
    FrameSize(blocks);
  }

  /** What a sound kernel is handed of a message: the bytes of the counted buffers. */
  function OnWire(blocks: seq<seq<byte>>): seq<byte> {
    BufferTotal(blocks);
    CountedAtMost(BufferLengths(blocks));
    if Fits(blocks) then Frame(blocks)[..Sum(Counted(BufferLengths(blocks)))] else []
  }

  lemma OnWireWhole(blocks: seq<seq<byte>>)
    requires Fits(blocks)
    ensures OnWire(blocks) == Frame(blocks) <==> Representable(blocks)
  {
    BufferTotal(blocks);
    CountedAtMost(BufferLengths(blocks));
  }

  /** Malformed: a check stops the process, or the table cannot be allocated.
      Indeterminate: a header of which only a part was read is used. */
  datatype Parsed = EndOfStream | Malformed | Indeterminate | Message(lengths: seq<nat>, rest: seq<byte>)

  /** The frame length as `size_t` arithmetic sees it. */
  function WordSum(lengths: seq<nat>, count: nat): nat {
    Wrap(Sum(lengths) + HEADER_SIZE + 8 * count)
  }

  /** Reading a header and its table of block lengths. The total is compared modulo the
      word size, as `size_t` arithmetic does. With checks that only print, entries that
      the stream ended before stay zero, and a wrong total is overlooked. */
  function ParseMessage(checks: Checks, s: seq<byte>): Parsed {
    if s == [] then EndOfStream
    else if |s| < HEADER_SIZE then (if checks.Stopping? then Malformed else Indeterminate)
    else
      var total, count := DecodeLE(s[..8]), DecodeLE(s[8..16]);
      if count >= MAX_TABLE then Malformed
      else if |s| < HEADER_SIZE + 8 * count then
        if checks.Stopping? then Malformed
        else Message(DecodeTable(s[16..] + Zeros(HEADER_SIZE + 8 * count - |s|), count), [])
      else
        var lengths := DecodeTable(s[16..16 + 8 * count], count);
        if checks.Stopping? && WordSum(lengths, count) != total then Malformed
        else Message(lengths, s[16 + 8 * count..])
  }

  lemma {:induction false} SumBounds(words: seq<nat>, i: nat)
    requires i < |words|
    ensures words[i] <= Sum(words)
  {
    if i > 0 {
      SumBounds(words[1..], i - 1);
    }
  }

  lemma FourPieces<T>(a: seq<T>, b: seq<T>, c: seq<T>, d: seq<T>)
    ensures var s := a + b + c + d;
            s[..|a|] == a && s[|a|..|a| + |b|] == b && s[|a| + |b|..|a| + |b| + |c|] == c
            && s[|a| + |b| + |c|..] == d
  {
  }

  lemma ParsePieces(checks: Checks, total: seq<byte>, count: seq<byte>, table: seq<byte>, behind: seq<byte>)
    requires |total| == |count| == 8
    requires DecodeLE(count) < MAX_TABLE && |table| == 8 * DecodeLE(count)
    ensures var lengths := DecodeTable(table, DecodeLE(count));
            ParseMessage(checks, total + count + table + behind) ==
            if checks.Stopping? && WordSum(lengths, DecodeLE(count)) != DecodeLE(total) then Malformed
            else Message(lengths, behind)
  {
    FourPieces(total, count, table, behind);
  }

  lemma TableOfLengths(blocks: seq<seq<byte>>)
    requires FrameLength(blocks) < WORD
    ensures DecodeTable(EncodeTable(Lengths(blocks)), |blocks|) == Lengths(blocks)
  {
    var lengths := Lengths(blocks);
    forall i | 0 <= i < |lengths| ensures lengths[i] < WORD {
      SumBounds(lengths, i);
    }
    TableRoundTrip(lengths);
  }

  lemma HeaderWord(n: nat, word: seq<byte>)
    requires n < WORD && word == EncodeLE(n, 8)
    ensures |word| == 8 && DecodeLE(word) == n
  {
    WordWidth();
    DecodeEncode(n, 8);
  }

  lemma ParseParts(checks: Checks, total: seq<byte>, count: seq<byte>, table: seq<byte>,
                   lengths: seq<nat>, behind: seq<byte>)
    requires |total| == |count| == 8 && DecodeLE(count) == |lengths| < MAX_TABLE
    requires |table| == 8 * |lengths| && DecodeTable(table, |lengths|) == lengths
    requires DecodeLE(total) == HEADER_SIZE + 8 * |lengths| + Sum(lengths) < WORD
    ensures ParseMessage(checks, total + count + table + behind) == Message(lengths, behind)
  {
    ParsePieces(checks, total, count, table, behind);
  }

  /** Parsing what a frame starts with gives back its block lengths, and stops exactly
      where the block contents begin: the total-length check passes. */
  lemma ParseFrame(checks: Checks, blocks: seq<seq<byte>>, rest: seq<byte>)
    requires Representable(blocks)
    ensures ParseMessage(checks, Frame(blocks) + rest) == Message(Lengths(blocks), Flatten(blocks) + rest)
  {
    var total, count, table := EncodeLE(FrameLength(blocks), 8), EncodeLE(|blocks|, 8), EncodeTable(Lengths(blocks));
    var behind := Flatten(blocks) + rest;
    assert Frame(blocks) + rest == total + count + table + behind;
    HeaderWord(FrameLength(blocks), total);
    HeaderWord(|blocks|, count);
    TableOfLengths(blocks);
    ParseParts(checks, total, count, table, Lengths(blocks), behind);
  }

  // ----- Which input is accepted -----

  /** What becomes of input that is not accepted: an empty stream is its end; where checks
      only print, a header in part is used; anything else stops the process. */
  lemma NotAccepted(checks: Checks, s: seq<byte>)
    ensures var parsed := ParseMessage(checks, s);
            && (parsed.EndOfStream? <==> s == [])
            && (parsed.Indeterminate? <==> checks.Printing? && 0 < |s| < HEADER_SIZE)
            && (checks.Printing? && parsed.Malformed? ==>
                  |s| >= HEADER_SIZE && DecodeLE(s[8..16]) >= MAX_TABLE)
  {
  }

  predicate IsTable(lengths: seq<nat>) {
    |lengths| < MAX_TABLE && forall i :: 0 <= i < |lengths| ==> lengths[i] < WORD
  }

  /** A header with this word for the total, and the table of these lengths. */
  function Head(total: seq<byte>, lengths: seq<nat>): seq<byte> {
    total + EncodeLE(|lengths|, 8) + EncodeTable(lengths)
  }

  function TotalWord(lengths: seq<nat>): seq<byte> {
    EncodeLE(WordSum(lengths, |lengths|), 8)
  }

  lemma HeadParses(checks: Checks, total: seq<byte>, lengths: seq<nat>, rest: seq<byte>)
    requires IsTable(lengths) && |total| == 8
    requires checks.Stopping? ==> total == TotalWord(lengths)
    ensures ParseMessage(checks, Head(total, lengths) + rest) == Message(lengths, rest)
  {
    var count, table := EncodeLE(|lengths|, 8), EncodeTable(lengths);
    HeaderWord(WordSum(lengths, |lengths|), TotalWord(lengths));
    HeaderWord(|lengths|, count);
    TableRoundTrip(lengths);
    ParsePieces(checks, total, count, table, rest);
  }

  lemma ParsedHead(checks: Checks, s: seq<byte>)
    requires |s| >= HEADER_SIZE && ParseMessage(checks, s).Message?
    requires |s| >= HEADER_SIZE + 8 * DecodeLE(s[8..16])
    ensures var parsed := ParseMessage(checks, s);
            IsTable(parsed.lengths) && s == Head(s[..8], parsed.lengths) + parsed.rest
            && (checks.Stopping? ==> s[..8] == TotalWord(parsed.lengths))
  {
    var n := DecodeLE(s[8..16]);
    var table := s[16..16 + 8 * n];
    EncodeDecode(s[..8]);
    EncodeDecode(s[8..16]);
    TableUnique(table, n);
    InFour(s, 8, 16, 16 + 8 * n);
  }

  lemma InFour<T>(s: seq<T>, i: nat, j: nat, k: nat)
    requires i <= j <= k <= |s|
    ensures s == s[..i] + s[i..j] + s[j..k] + s[k..]
  {
  }

  /** The reader accepts exactly the streams that begin with the header and table of some
      list of lengths, with their total modulo the word size, and takes exactly these. */
  lemma ParseIff(s: seq<byte>, lengths: seq<nat>, rest: seq<byte>)
    ensures ParseMessage(Stopping, s) == Message(lengths, rest) <==>
            IsTable(lengths) && s == Head(TotalWord(lengths), lengths) + rest
  {
    if ParseMessage(Stopping, s).Message? {
      ParsedHead(Stopping, s);
    }
    if IsTable(lengths) {
      HeadParses(Stopping, TotalWord(lengths), lengths, rest);
    }
  }

  /** The stream ends inside the table, all missing entries and bytes being zero. */
  predicate CutShort(s: seq<byte>, full: seq<byte>) {
    |s| < |full| && s + Zeros(|full| - |s|) == full
  }

  lemma ParsedShort(s: seq<byte>)
    requires |s| >= HEADER_SIZE && ParseMessage(Printing, s).Message?
    requires |s| < HEADER_SIZE + 8 * DecodeLE(s[8..16])
    ensures var parsed := ParseMessage(Printing, s);
            IsTable(parsed.lengths) && parsed.rest == [] && CutShort(s, Head(s[..8], parsed.lengths))
  {
    var n := DecodeLE(s[8..16]);
    var table := s[16..] + Zeros(HEADER_SIZE + 8 * n - |s|);
    EncodeDecode(s[8..16]);
    TableUnique(table, n);
    InFour(s, 8, 16, |s|);
    assert Head(s[..8], DecodeTable(table, n)) == s[..8] + s[8..16] + table;
  }

  lemma CutPieces(s: seq<byte>, total: seq<byte>, count: seq<byte>, table: seq<byte>)
    requires |total| == |count| == 8 && |s| >= HEADER_SIZE && CutShort(s, total + count + table)
    ensures s[..8] == total && s[8..16] == count && s[16..] + Zeros(16 + |table| - |s|) == table
  {
    var full := total + count + table;
    assert full[..8] == total && full[8..16] == count && full[16..] == table;
    assert s == full[..|s|];
  }

  lemma CutParses(s: seq<byte>, lengths: seq<nat>)
    requires |s| >= HEADER_SIZE && IsTable(lengths) && CutShort(s, Head(s[..8], lengths))
    ensures ParseMessage(Printing, s) == Message(lengths, [])
  {
    var count, table := EncodeLE(|lengths|, 8), EncodeTable(lengths);
    CutPieces(s, s[..8], count, table);
    HeaderWord(|lengths|, count);
    TableRoundTrip(lengths);
  }

  /** With checks that only print any word will do for the total, and the stream may end
      inside the table, whose missing entries are then taken to be zero. */
  lemma ParsePrintingIff(s: seq<byte>, lengths: seq<nat>, rest: seq<byte>)
    ensures ParseMessage(Printing, s) == Message(lengths, rest) <==>
            IsTable(lengths) && |s| >= HEADER_SIZE &&
            (s == Head(s[..8], lengths) + rest || (rest == [] && CutShort(s, Head(s[..8], lengths))))
  {
    if ParseMessage(Printing, s).Message? {
      if |s| >= HEADER_SIZE + 8 * DecodeLE(s[8..16]) {
        ParsedHead(Printing, s);
      } else {
        ParsedShort(s);
      }
    }
    if IsTable(lengths) && |s| >= HEADER_SIZE {
      HeadParses(Printing, s[..8], lengths, rest);
      if CutShort(s, Head(s[..8], lengths)) {
        CutParses(s, lengths);
      }
    }
  }

  lemma FrameSize(blocks: seq<seq<byte>>)
    ensures |Frame(blocks)| == FrameLength(blocks)
  {
    FlattenLength(blocks);
  }
}
