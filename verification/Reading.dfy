/** What reading a message block by block does, as functions of the stream; the methods of
    the message reader are proved against these. */
module Reading {
  import opened Basics
  import opened Bytes
  import opened Posix
  import opened Transfer
  import opened Framing

  /** `get_block_length(i)` looks up the entry after the current one whatever `i` is;
      its callers need the `i`-th entry from the current one. */
  datatype Indexing = AsWritten | AsIntended

  /** Which of the lengths not yet used up `get_block_length(i)` finds. */
  function BlockIndex(indexing: Indexing, i: nat): nat {
    if indexing.AsWritten? then 1 else i
  }

  datatype ReadOp = NextBlock(buf: nat) | Blocks(bufs: seq<nat>)

  function Buffers(op: ReadOp): seq<nat> {
    match op
    case NextBlock(buf) => [buf]
    case Blocks(bufs) => bufs
  }

  /** A reader with the lengths of the blocks still to be read. */
  datatype ReaderState = ReaderState(remaining: seq<nat>, world: World)

  /** CheckFailed: a check stopped the process. Undefined: memory outside an object was
      used. Hangs: a vectored read goes on for ever at the end of the stream. */
  datatype StepResult = Stepped(state: ReaderState) | CheckFailed | Undefined | Hangs

  /** Each length is looked up while the index stands at its block, so the last of
      `count` lookups reaches furthest. */
  predicate Defined(indexing: Indexing, remaining: seq<nat>, count: nat) {
    count > 0 ==> count - 1 + BlockIndex(indexing, 0) < |remaining|
  }

  /** The lengths that the next `count` lookups find. */
  function NextLengths(indexing: Indexing, remaining: seq<nat>, count: nat): (r: seq<nat>)
    requires Defined(indexing, remaining, count)
    ensures |r| == count
  {
    if count == 0 then [] else remaining[BlockIndex(indexing, 0)..][..count]
  }

  function Zip(bufs: seq<nat>, lengths: seq<nat>): (r: seq<Iovec>)
    requires |bufs| == |lengths|
    ensures |r| == |bufs|
  {
    seq(|bufs|, i requires 0 <= i < |bufs| => Iovec(bufs[i], lengths[i]))
  }

  function Min(a: nat, b: nat): nat {
    if a < b then a else b
  }

  /** The addresses an operation fills: a single read stops where the stream does, a
      vectored one fills the buffers that are counted. */
  function Filled(op: ReadOp, iovs: seq<Iovec>, available: nat): seq<nat> {
    match op
    case NextBlock(_) => Addresses(iovs)[..Min(|Addresses(iovs)|, available)]
    case Blocks(_) => Addresses(Counted(iovs))
  }

  lemma CanFill(op: ReadOp, iovs: seq<Iovec>, w: World)
    requires InMemory(iovs, |w.memory|) && (op.Blocks? ==> Sum(Counted(Lens(iovs))) <= |w.inbound|)
    ensures CanMove(Incoming, w, Filled(op, iovs, |w.inbound|))
  {
    AddressesInBounds(iovs, |w.memory|);
    AddressesInBounds(Counted(iovs), |w.memory|);
    AddressesLength(Counted(iovs));
    assert Lens(Counted(iovs)) == Counted(Lens(iovs));
  }

  /** Filling buffers from the stream, after which these lengths are left. */
  function Fill(checks: Checks, op: ReadOp, iovs: seq<Iovec>, w: World, left: seq<nat>): StepResult
    requires InMemory(iovs, |w.memory|)
  {
    if op.Blocks? && !Completes(checks, Incoming, Counted(Lens(iovs)), UIO_MAXIOV, |w.inbound|) then
      if checks.Stopping? then CheckFailed else Hangs
    else
      var filled := Filled(op, iovs, |w.inbound|);
      if checks.Stopping? && |filled| != |Addresses(iovs)| then CheckFailed
      else
        CanFill(op, iovs, w);
        Stepped(ReaderState(left, Move(Incoming, w, filled)))
  }

  function Step(checks: Checks, indexing: Indexing, st: ReaderState, op: ReadOp): StepResult {
    var bufs := Buffers(op);
    if checks.Stopping? && |bufs| > |st.remaining| then CheckFailed
    else if !Defined(indexing, st.remaining, |bufs|) then Undefined
    else
      var iovs := Zip(bufs, NextLengths(indexing, st.remaining, |bufs|));
      if !InMemory(iovs, |st.world.memory|) then Undefined
      else Fill(checks, op, iovs, st.world, st.remaining[|bufs|..])
  }

  lemma StepShrinks(checks: Checks, indexing: Indexing, st: ReaderState, op: ReadOp)
    ensures var r := Step(checks, indexing, st, op);
            r.Stepped? ==> |r.state.world.inbound| <= |st.world.inbound|
                           && r.state.world.outbound == st.world.outbound
                           && |r.state.world.memory| == |st.world.memory|
                           && |Buffers(op)| <= |st.remaining|
                           && r.state.remaining == st.remaining[|Buffers(op)|..]
  {
    if Step(checks, indexing, st, op).Stepped? {
      CanFill(op, Zip(Buffers(op), NextLengths(indexing, st.remaining, |Buffers(op)|)), st.world);
    }
  }

  /** The contents of a list of buffers. */
  function Contents(memory: seq<byte>, iovs: seq<Iovec>): (r: seq<seq<byte>>)
    requires InMemory(iovs, |memory|)
    ensures |r| == |iovs|
  {
    seq(|iovs|, i requires 0 <= i < |iovs| => memory[iovs[i].base..iovs[i].base + iovs[i].len])
  }

  /** What one completed operation put into its buffers. */
  function Delivered(checks: Checks, indexing: Indexing, st: ReaderState, op: ReadOp): seq<seq<byte>>
    requires Step(checks, indexing, st, op).Stepped?
  {
    Contents(Step(checks, indexing, st, op).state.world.memory,
             Zip(Buffers(op), NextLengths(indexing, st.remaining, |Buffers(op)|)))
  }

  datatype RunResult = Finished(state: ReaderState, delivered: seq<seq<byte>>) | Stopped

  /** A sequence of read operations on one reader. */
  function Run(checks: Checks, indexing: Indexing, st: ReaderState, ops: seq<ReadOp>): RunResult
    decreases |ops|
  {
    if ops == [] then Finished(st, [])
    else if !Step(checks, indexing, st, ops[0]).Stepped? then Stopped
    else
      match Run(checks, indexing, Step(checks, indexing, st, ops[0]).state, ops[1..])
      case Finished(last, delivered) => Finished(last, Delivered(checks, indexing, st, ops[0]) + delivered)
      case Stopped => Stopped
  }

  predicate Drained(r: RunResult) {
    r.Finished? && r.state.remaining == []
  }

  /** The reader is destroyed after these operations and the process goes on: a check that
      does more than print has to find it drained. */
  predicate Released(checks: Checks, r: RunResult) {
    r.Finished? && (checks.Stopping? ==> Drained(r))
  }

  datatype SessionResult = Received(world: World, messages: seq<seq<seq<byte>>>) | Failed

  function Prepend(message: seq<seq<byte>>, r: SessionResult): SessionResult {
    if r.Received? then Received(r.world, [message] + r.messages) else Failed
  }

  /** Repeated `read_message`, each reader used as its plan says and then destroyed. */
  function Receive(checks: Checks, indexing: Indexing, w: World, plans: seq<seq<ReadOp>>): SessionResult
    decreases |plans|
  {
    if plans == [] then Received(w, [])
    else
      match ParseMessage(checks, w.inbound)
      case Message(lengths, rest) =>
        var run := Run(checks, indexing, ReaderState(lengths, w.(inbound := rest)), plans[0]);
        if !Released(checks, run) then Failed
        else Prepend(run.delivered, Receive(checks, indexing, run.state.world, plans[1..]))
      case _ => Failed
  }

  // ----- The round trip -----

  predicate Apart(a: Iovec, b: Iovec) {
    a.len == 0 || b.len == 0 || a.base + a.len <= b.base || b.base + b.len <= a.base
  }

  predicate Disjoint(iovs: seq<Iovec>) {
    forall i, j :: 0 <= i < j < |iovs| ==> Apart(iovs[i], iovs[j])
  }

  lemma {:induction false} AddressOutside(iovs: seq<Iovec>, x: nat)
    requires forall i :: 0 <= i < |iovs| ==> !(iovs[i].base <= x < iovs[i].base + iovs[i].len)
    ensures x !in Addresses(iovs)
  {
    if iovs != [] {
      AddressOutside(iovs[1..], x);
    }
  }

  /** Filling the other buffers leaves the bytes of a disjoint one as they are. */
  lemma ScatterElsewhere(memory: seq<byte>, first: Iovec, rest: seq<Iovec>, data: seq<byte>)
    requires InMemory(rest, |memory|) && first.base + first.len <= |memory|
    requires forall i :: 0 <= i < |rest| ==> Apart(first, rest[i])
    requires |Addresses(rest)| == |data|
    ensures InBounds(Addresses(rest), |memory|)
    ensures Scatter(memory, Addresses(rest), data)[first.base..first.base + first.len]
         == memory[first.base..first.base + first.len]
  {
    AddressesInBounds(rest, |memory|);
    forall x | first.base <= x < first.base + first.len
      ensures Scatter(memory, Addresses(rest), data)[x] == memory[x]
    {
      AddressOutside(rest, x);
      ScatterAt(memory, Addresses(rest), data, x);
    }
  }

  lemma SameLength(iovs: seq<Iovec>, parts: seq<seq<byte>>)
    requires Lens(iovs) == Lengths(parts)
    ensures |Addresses(iovs)| == |Flatten(parts)|
    ensures iovs != [] ==> |parts| == |iovs| && iovs[0].len == |parts[0]| && Lens(iovs[1..]) == Lengths(parts[1..])
  {
    AddressesLength(iovs);
    FlattenLength(parts);
    if iovs != [] {
      assert Lens(iovs)[0] == Lengths(parts)[0];
      assert Lens(iovs[1..]) == Lens(iovs)[1..] == Lengths(parts)[1..] == Lengths(parts[1..]);
    }
  }

  /** Filling a buffer list fills its first buffer, and then the others. */
  lemma ScatterFirst(memory: seq<byte>, iovs: seq<Iovec>, head: seq<byte>, tail: seq<byte>)
    requires iovs != [] && InMemory(iovs, |memory|)
    requires |head| == iovs[0].len && |tail| == |Addresses(iovs[1..])|
    ensures InBounds(Addresses(iovs), |memory|) && InBounds(Addresses(iovs[1..]), |memory|)
    ensures |head + tail| == |Addresses(iovs)|
    ensures var m := memory[..iovs[0].base] + head + memory[iovs[0].base + |head|..];
            Scatter(memory, Addresses(iovs), head + tail) == Scatter(m, Addresses(iovs[1..]), tail)
  {
    AddressesInBounds(iovs, |memory|);
    AddressesInBounds(iovs[1..], |memory|);
    var r := Range(iovs[0].base, iovs[0].len);
    ScatterAppend(memory, r, Addresses(iovs[1..]), head, tail);
    ScatterRange(memory, iovs[0].base, head);
  }

  lemma ContentsFirst(memory: seq<byte>, iovs: seq<Iovec>)
    requires iovs != [] && InMemory(iovs, |memory|)
    ensures Contents(memory, iovs)
         == [memory[iovs[0].base..iovs[0].base + iovs[0].len]] + Contents(memory, iovs[1..])
  {
  }

  lemma {:induction false} ScatterDelivers(memory: seq<byte>, iovs: seq<Iovec>, parts: seq<seq<byte>>)
    requires InMemory(iovs, |memory|) && Disjoint(iovs)
    requires Lens(iovs) == Lengths(parts)
    ensures |Addresses(iovs)| == |Flatten(parts)| && InBounds(Addresses(iovs), |memory|)
    ensures Contents(Scatter(memory, Addresses(iovs), Flatten(parts)), iovs) == parts
    decreases |iovs|
  {
    SameLength(iovs, parts);
    AddressesInBounds(iovs, |memory|);
    if iovs != [] {
      var first, rest, more := iovs[0], iovs[1..], parts[1..];
      forall i | 0 <= i < |rest| ensures Apart(first, rest[i]) {
        assert rest[i] == iovs[i + 1];
      }
      SameLength(rest, more);
      ScatterFirst(memory, iovs, parts[0], Flatten(more));
      var m := memory[..first.base] + parts[0] + memory[first.base + first.len..];
      assert m[first.base..first.base + first.len] == parts[0];
      ScatterDelivers(m, rest, more);
      ScatterElsewhere(m, first, rest, Flatten(more));
      ContentsFirst(Scatter(m, Addresses(rest), Flatten(more)), iovs);
    }
  }

  /** Buffers that can hold these blocks without running into each other. */
  predicate GoodBuffers(lengths: seq<nat>, bufs: seq<nat>, size: nat)
    requires |bufs| == |lengths|
  {
    var iovs := Zip(bufs, lengths);
    InMemory(iovs, size) && Disjoint(iovs)
  }

  /** A vectored read of blocks of these lengths reads them all, if the stream does not
      end: their bytes are in buffers that are counted, and a check that would stop the
      process is not tripped by a first window without any. */
  predicate Served(checks: Checks, lengths: seq<nat>) {
    Whole(lengths) && (checks.Stopping? ==> !Starved(Counted(lengths), UIO_MAXIOV))
  }

  lemma OneServed(checks: Checks, length: nat)
    ensures Served(checks, [length])
  {
    assert Counted([length]) == [length] && FirstWindow([length], UIO_MAXIOV) == [length];
  }

  /** If all bytes are in counted buffers, the others name no address. */
  lemma WholeAddresses(iovs: seq<Iovec>)
    ensures |Addresses(Counted(iovs))| == Sum(Counted(Lens(iovs))) && |Addresses(iovs)| == Sum(Lens(iovs))
    ensures Addresses(Counted(iovs)) <= Addresses(iovs)
    ensures Whole(Lens(iovs)) ==> Addresses(Counted(iovs)) == Addresses(iovs)
  {
    var n := IntCount(|iovs|);
    assert iovs == iovs[..n] + iovs[n..];
    AddressesAppend(iovs[..n], iovs[n..]);
    AddressesLength(Counted(iovs));
    AddressesLength(iovs);
    assert Lens(Counted(iovs)) == Counted(Lens(iovs));
  }

  lemma MoveDelivers(w: World, iovs: seq<Iovec>, parts: seq<seq<byte>>, behind: seq<byte>)
    requires InMemory(iovs, |w.memory|) && Disjoint(iovs) && Lens(iovs) == Lengths(parts)
    requires w.inbound == Flatten(parts) + behind
    ensures CanMove(Incoming, w, Addresses(iovs)) && Sum(Lens(iovs)) <= |w.inbound|
    ensures var r := Move(Incoming, w, Addresses(iovs));
            r.inbound == behind && Contents(r.memory, iovs) == parts
  {
    ScatterDelivers(w.memory, iovs, parts);
    AddressesLength(iovs);
    assert w.inbound[..|Flatten(parts)|] == Flatten(parts);
  }

  /** A reader, and the stream, with these blocks of its message still to come. */
  ghost predicate AtBlocks(st: ReaderState, blocks: seq<seq<byte>>, rest: seq<byte>) {
    st.remaining == Lengths(blocks) && st.world.inbound == Flatten(blocks) + rest
  }

  ghost predicate SameFrame(w: World, w': World) {
    w'.outbound == w.outbound && |w'.memory| == |w.memory|
  }

  lemma FilledAll(checks: Checks, op: ReadOp, iovs: seq<Iovec>, available: nat)
    requires |iovs| == |Buffers(op)| && Sum(Lens(iovs)) <= available
    ensures |Filled(op, iovs, available)| <= Sum(Lens(iovs)) == |Addresses(iovs)|
    ensures Served(checks, Lens(iovs)) ==> Filled(op, iovs, available) == Addresses(iovs)
    ensures op.Blocks? ==> Sum(Counted(Lens(iovs))) <= available
    ensures !Whole(Lens(iovs)) ==> op.Blocks? && |Filled(op, iovs, available)| < Sum(Lens(iovs))
  {
    WholeAddresses(iovs);
    CountedAtMost(Lens(iovs));
    if op.NextBlock? {
      assert Lens(iovs) == [iovs[0].len];
      OneServed(checks, iovs[0].len);
    }
  }

  /** Filling buffers where the stream is long enough: all of them if they are served,
      otherwise less, or the process stops. */
  lemma FillOf(checks: Checks, op: ReadOp, iovs: seq<Iovec>, w: World, left: seq<nat>)
    requires |iovs| == |Buffers(op)| && InMemory(iovs, |w.memory|) && Sum(Lens(iovs)) <= |w.inbound|
    ensures var r := Fill(checks, op, iovs, w, left);
            if Served(checks, Lens(iovs)) then
              CanMove(Incoming, w, Addresses(iovs))
              && r == Stepped(ReaderState(left, Move(Incoming, w, Addresses(iovs))))
            else if checks.Stopping? then r == CheckFailed
            else r.Stepped? && r.state.remaining == left && |r.state.world.inbound| > |w.inbound| - Sum(Lens(iovs))
  {
    FilledAll(checks, op, iovs, |w.inbound|);
    CanFill(op, iovs, w);
    if op.NextBlock? {
      OneServed(checks, iovs[0].len);
      assert Lens(iovs) == [iovs[0].len];
    }
  }

  /** One operation delivers exactly the next blocks and leaves the stream behind them,
      if and only if it is served; otherwise the process stops, or goes on with less
      taken from the stream. */
  lemma StepDelivers(checks: Checks, st: ReaderState, op: ReadOp,
                     parts: seq<seq<byte>>, more: seq<seq<byte>>, rest: seq<byte>)
    requires AtBlocks(st, parts + more, rest) && |Buffers(op)| == |parts|
    requires GoodBuffers(Lengths(parts), Buffers(op), |st.world.memory|)
    ensures var r := Step(checks, AsIntended, st, op);
            if Served(checks, Lengths(parts)) then
              r.Stepped? && AtBlocks(r.state, more, rest) && SameFrame(st.world, r.state.world)
              && Delivered(checks, AsIntended, st, op) == parts
            else if checks.Stopping? then r == CheckFailed
            else r.Stepped? && !AtBlocks(r.state, more, rest)
  {
    var lengths := Lengths(parts);
    LengthsAppend(parts, more);
    InTwo(parts, more, rest);
    var iovs := Zip(Buffers(op), lengths);
    assert Lens(iovs) == lengths;
    MoveDelivers(st.world, iovs, parts, Flatten(more) + rest);
    FillOf(checks, op, iovs, st.world, st.remaining[|parts|..]);
    assert NextLengths(AsIntended, st.remaining, |parts|) == lengths;
  }

  lemma InTwo(parts: seq<seq<byte>>, more: seq<seq<byte>>, rest: seq<byte>)
    ensures Flatten(parts + more) + rest == Flatten(parts) + (Flatten(more) + rest)
    ensures |Flatten(parts)| == Sum(Lengths(parts))
  {
    FlattenAppend(parts, more);
    FlattenLength(parts);
  }

  /** More buffers than blocks: the check stops the process, or else the lookups leave the
      table. */
  lemma PastTable(checks: Checks, st: ReaderState, op: ReadOp)
    requires |Buffers(op)| > |st.remaining|
    ensures Step(checks, AsIntended, st, op) == if checks.Stopping? then CheckFailed else Undefined
  {
  }

  /** A stream that ends inside the blocks asked for: stopping checks stop the process.
      Otherwise a vectored read never returns, and a single one returns what there is at
      the start of its buffer, as if that were the block. */
  lemma StreamEnds(checks: Checks, st: ReaderState, op: ReadOp, lengths: seq<nat>)
    requires |Buffers(op)| == |lengths| <= |st.remaining| && lengths == st.remaining[..|lengths|]
    requires InMemory(Zip(Buffers(op), lengths), |st.world.memory|) && Sum(Counted(lengths)) > |st.world.inbound|
    ensures var w := st.world;
            var r := Step(checks, AsIntended, st, op);
            if checks.Stopping? then r == CheckFailed
            else if op.Blocks? then r == Hangs
            else
              op.buf + |w.inbound| <= |w.memory| &&
              r == Stepped(ReaderState(st.remaining[1..],
                                       World(w.memory[..op.buf] + w.inbound + w.memory[op.buf + |w.inbound|..],
                                             [], w.outbound)))
  {
    var w := st.world;
    assert NextLengths(AsIntended, st.remaining, |lengths|) == lengths;
    var iovs := Zip(Buffers(op), lengths);
    assert Lens(iovs) == lengths;
    WholeAddresses(iovs);
    CountedAtMost(lengths);
    if op.NextBlock? {
      OneServed(checks, lengths[0]);
      assert lengths == [lengths[0]] && iovs == [Iovec(op.buf, lengths[0])];
      assert Addresses(iovs) == Range(op.buf, lengths[0]) + [];
      assert Filled(op, iovs, |w.inbound|) == Range(op.buf, |w.inbound|);
      assert w.inbound[..|w.inbound|] == w.inbound && w.inbound[|w.inbound|..] == [];
      ScatterRange(w.memory, op.buf, w.inbound);
    }
  }

  /** Operations that read blocks of a message with these lengths from the start, not
      necessarily all of them, into good buffers. */
  predicate Fitting(checks: Checks, lengths: seq<nat>, ops: seq<ReadOp>, size: nat)
    decreases |ops|
  {
    ops == [] ||
    (var n := |Buffers(ops[0])|;
     n <= |lengths|
     && GoodBuffers(lengths[..n], Buffers(ops[0]), size)
     && Served(checks, lengths[..n])
     && Fitting(checks, lengths[n..], ops[1..], size))
  }

  /** How many blocks these operations read. */
  function Covered(ops: seq<ReadOp>): nat {
    if ops == [] then 0 else |Buffers(ops[0])| + Covered(ops[1..])
  }

  lemma Halves(blocks: seq<seq<byte>>, n: nat)
    requires n <= |blocks|
    ensures blocks == blocks[..n] + blocks[n..]
    ensures Lengths(blocks)[..n] == Lengths(blocks[..n]) && Lengths(blocks)[n..] == Lengths(blocks[n..])
  {
  }

  lemma SliceTwice<T>(s: seq<T>, n: nat, k: nat)
    requires n + k <= |s|
    ensures s[n..][k..] == s[n + k..] && s[..n] + s[n..][..k] == s[..n + k]
  {
  }

  lemma RunFirst(checks: Checks, indexing: Indexing, st: ReaderState, ops: seq<ReadOp>)
    requires ops != [] && Step(checks, indexing, st, ops[0]).Stepped?
    ensures var r := Run(checks, indexing, Step(checks, indexing, st, ops[0]).state, ops[1..]);
            r.Finished? ==>
              Run(checks, indexing, st, ops)
              == Finished(r.state, Delivered(checks, indexing, st, ops[0]) + r.delivered)
  {
  }

  /** These operations deliver the blocks they cover and leave the stream behind them. */
  ghost predicate Delivers(checks: Checks, st: ReaderState, ops: seq<ReadOp>, blocks: seq<seq<byte>>, rest: seq<byte>) {
    Covered(ops) <= |blocks| &&
    var r := Run(checks, AsIntended, st, ops);
    r.Finished? && AtBlocks(r.state, blocks[Covered(ops)..], rest) && SameFrame(st.world, r.state.world)
    && r.delivered == blocks[..Covered(ops)]
  }

  lemma DeliversFrom(checks: Checks, st: ReaderState, ops: seq<ReadOp>, blocks: seq<seq<byte>>, rest: seq<byte>)
    requires ops != [] && Step(checks, AsIntended, st, ops[0]).Stepped? && |Buffers(ops[0])| <= |blocks|
    requires Delivered(checks, AsIntended, st, ops[0]) == blocks[..|Buffers(ops[0])|]
    requires SameFrame(st.world, Step(checks, AsIntended, st, ops[0]).state.world)
    requires Delivers(checks, Step(checks, AsIntended, st, ops[0]).state, ops[1..], blocks[|Buffers(ops[0])|..], rest)
    ensures Delivers(checks, st, ops, blocks, rest)
  {
    RunFirst(checks, AsIntended, st, ops);
    SliceTwice(blocks, |Buffers(ops[0])|, Covered(ops[1..]));
  }

  /** Any mix of operations that fits delivers the blocks it covers and leaves the stream
      right behind them. */
  lemma {:induction false} RunDelivers(
    checks: Checks, st: ReaderState, ops: seq<ReadOp>, blocks: seq<seq<byte>>, rest: seq<byte>)
    requires AtBlocks(st, blocks, rest)
    requires Fitting(checks, Lengths(blocks), ops, |st.world.memory|)
    ensures Delivers(checks, st, ops, blocks, rest)
    decreases |ops|
  {
    if ops != [] {
      var n := |Buffers(ops[0])|;
      Halves(blocks, n);
      StepDelivers(checks, st, ops[0], blocks[..n], blocks[n..], rest);
      RunDelivers(checks, Step(checks, AsIntended, st, ops[0]).state, ops[1..], blocks[n..], rest);
      DeliversFrom(checks, st, ops, blocks, rest);
    }
  }

  // ----- Sessions -----

  /** The reader of this message may be destroyed after these operations with the stream
      at the next header: nothing is left to read, or, where checks only print, no byte. */
  predicate Consumes(checks: Checks, blocks: seq<seq<byte>>, ops: seq<ReadOp>) {
    Covered(ops) <= |blocks| &&
    if checks.Stopping? then Covered(ops) == |blocks| else Flatten(blocks[Covered(ops)..]) == []
  }

  /** The blocks of a message that these operations read. */
  function TakenFrom(blocks: seq<seq<byte>>, ops: seq<ReadOp>): seq<seq<byte>> {
    blocks[..Min(Covered(ops), |blocks|)]
  }

  /** Messages that can be sent, and for each a plan that fits it. */
  ghost predicate Planned(checks: Checks, messages: seq<seq<seq<byte>>>, plans: seq<seq<ReadOp>>, size: nat) {
    |plans| == |messages| &&
    forall i :: 0 <= i < |messages| ==>
      Representable(messages[i]) && Fitting(checks, Lengths(messages[i]), plans[i], size)
  }

  /** Each plan consumes its message. */
  ghost predicate AllConsumed(checks: Checks, messages: seq<seq<seq<byte>>>, plans: seq<seq<ReadOp>>)
    requires |plans| == |messages|
  {
    forall i :: 0 <= i < |messages| ==> Consumes(checks, messages[i], plans[i])
  }

  lemma Tails(checks: Checks, messages: seq<seq<seq<byte>>>, plans: seq<seq<ReadOp>>, size: nat)
    requires Planned(checks, messages, plans, size) && messages != []
    ensures Planned(checks, messages[1..], plans[1..], size)
    ensures AllConsumed(checks, messages, plans) <==>
            Consumes(checks, messages[0], plans[0]) && AllConsumed(checks, messages[1..], plans[1..])
  {
    if Consumes(checks, messages[0], plans[0]) && AllConsumed(checks, messages[1..], plans[1..]) {
      forall i | 0 <= i < |messages| ensures Consumes(checks, messages[i], plans[i]) {
        if i > 0 {
          assert messages[1..][i - 1] == messages[i] && plans[1..][i - 1] == plans[i];
        }
      }
    }
  }

  /** One message of a session: the reader gets the blocks covered, and the stream is left
      at the next header if and only if the plan consumes the message. */
  lemma MessageRead(checks: Checks, w: World, blocks: seq<seq<byte>>, ops: seq<ReadOp>, behind: seq<byte>)
    requires Representable(blocks) && Fitting(checks, Lengths(blocks), ops, |w.memory|)
    requires w.inbound == Frame(blocks) + behind
    ensures ParseMessage(checks, w.inbound) == Message(Lengths(blocks), Flatten(blocks) + behind)
    ensures var st := ReaderState(Lengths(blocks), w.(inbound := Flatten(blocks) + behind));
            var r := Run(checks, AsIntended, st, ops);
            r.Finished? && Covered(ops) <= |blocks| && r.delivered == TakenFrom(blocks, ops)
            && SameFrame(w, r.state.world)
            && (Released(checks, r) && r.state.world.inbound == behind <==> Consumes(checks, blocks, ops))
  {
    ParseFrame(checks, blocks, behind);
    RunDelivers(checks, ReaderState(Lengths(blocks), w.(inbound := Flatten(blocks) + behind)), ops, blocks, behind);
    var unread := blocks[Covered(ops)..];
    assert unread == [] ==> Flatten(unread) == [];
    assert Flatten(unread) + behind == behind ==> |Flatten(unread)| == 0;
  }

  /** The first message of a session, if its plan consumes it, and the rest from there. */
  lemma ReceiveFirst(checks: Checks, w: World, blocks: seq<seq<byte>>, plans: seq<seq<ReadOp>>, behind: seq<byte>)
    returns (next: World)
    requires plans != [] && Consumes(checks, blocks, plans[0])
    requires Representable(blocks) && Fitting(checks, Lengths(blocks), plans[0], |w.memory|)
    requires w.inbound == Frame(blocks) + behind
    ensures next.inbound == behind && SameFrame(w, next)
    ensures Receive(checks, AsIntended, w, plans)
         == Prepend(TakenFrom(blocks, plans[0]), Receive(checks, AsIntended, next, plans[1..]))
  {
    MessageRead(checks, w, blocks, plans[0], behind);
    var st := ReaderState(Lengths(blocks), w.(inbound := Flatten(blocks) + behind));
    next := Run(checks, AsIntended, st, plans[0]).state.world;
  }

  lemma FramesFirst(messages: seq<seq<seq<byte>>>, rest: seq<byte>)
    requires messages != []
    ensures Frames(messages) + rest == Frame(messages[0]) + (Frames(messages[1..]) + rest)
  {
  }

  /** What a session hands out: of each message the blocks that its plan covers. */
  function AllTaken(messages: seq<seq<seq<byte>>>, plans: seq<seq<ReadOp>>): seq<seq<seq<byte>>>
    requires |plans| == |messages|
    decreases |messages|
  {
    if messages == [] then [] else [TakenFrom(messages[0], plans[0])] + AllTaken(messages[1..], plans[1..])
  }

  /** Where the plans leave no block unread, as a stopping check demands, that is all. */
  lemma {:induction false} AllTakenWhole(messages: seq<seq<seq<byte>>>, plans: seq<seq<ReadOp>>)
    requires |plans| == |messages| && AllConsumed(Stopping, messages, plans)
    ensures AllTaken(messages, plans) == messages
    decreases |messages|
  {
    if messages != [] {
      assert Consumes(Stopping, messages[0], plans[0]);
      assert TakenFrom(messages[0], plans[0]) == messages[0];
      AllTakenWhole(messages[1..], plans[1..]);
    }
  }

  /** Messages written back to back are recovered, block by block as far as each of them
      is read, and the stream is left behind the last one, if each plan consumes its message. */
  lemma {:induction false} MessagesRoundTrip(
    checks: Checks, w: World, messages: seq<seq<seq<byte>>>, plans: seq<seq<ReadOp>>, rest: seq<byte>)
    requires Planned(checks, messages, plans, |w.memory|) && AllConsumed(checks, messages, plans)
    requires w.inbound == Frames(messages) + rest
    ensures var r := Receive(checks, AsIntended, w, plans);
            r.Received? && r.messages == AllTaken(messages, plans)
            && r.world.inbound == rest && r.world.outbound == w.outbound
    decreases |messages|
  {
    if messages != [] {
      Tails(checks, messages, plans, |w.memory|);
      FramesFirst(messages, rest);
      var next := ReceiveFirst(checks, w, messages[0], plans, Frames(messages[1..]) + rest);
      MessagesRoundTrip(checks, next, messages[1..], plans[1..], rest);
    }
  }

  /** No reader outlives a check, and each `read_message` finds the stream at a header. */
  ghost predicate InStep(
    checks: Checks, w: World, messages: seq<seq<seq<byte>>>, plans: seq<seq<ReadOp>>, rest: seq<byte>)
    requires |plans| == |messages|
    decreases |messages|
  {
    w.inbound == Frames(messages) + rest &&
    (messages != [] ==>
       match ParseMessage(checks, w.inbound)
       case Message(lengths, behind) =>
         var run := Run(checks, AsIntended, ReaderState(lengths, w.(inbound := behind)), plans[0]);
         Released(checks, run) && InStep(checks, run.state.world, messages[1..], plans[1..], rest)
       case _ => false)
  }

  /** A session stays in step if and only if every plan consumes its message. */
  lemma {:induction false} StaysInStep(
    checks: Checks, w: World, messages: seq<seq<seq<byte>>>, plans: seq<seq<ReadOp>>, rest: seq<byte>)
    requires Planned(checks, messages, plans, |w.memory|)
    requires w.inbound == Frames(messages) + rest
    ensures InStep(checks, w, messages, plans, rest) <==> AllConsumed(checks, messages, plans)
    decreases |messages|
  {
    if messages != [] {
      var behind := Frames(messages[1..]) + rest;
      assert w.inbound == Frame(messages[0]) + behind;
      MessageRead(checks, w, messages[0], plans[0], behind);
      var st := ReaderState(Lengths(messages[0]), w.(inbound := Flatten(messages[0]) + behind));
      var next := Run(checks, AsIntended, st, plans[0]).state.world;
      Tails(checks, messages, plans, |w.memory|);
      if Consumes(checks, messages[0], plans[0]) {
        StaysInStep(checks, next, messages[1..], plans[1..], rest);
      }
    }
  }

  // ----- The index as it is written -----

  lemma {:induction false} AsWrittenStaysBehind(checks: Checks, st: ReaderState, ops: seq<ReadOp>)
    requires st.remaining != []
    ensures !Drained(Run(checks, AsWritten, st, ops))
    decreases |ops|
  {
    if ops != [] && Step(checks, AsWritten, st, ops[0]).Stepped? {
      assert Defined(AsWritten, st.remaining, |Buffers(ops[0])|);
      AsWrittenStaysBehind(checks, Step(checks, AsWritten, st, ops[0]).state, ops[1..]);
    }
  }

  /** These operations read the reader empty. */
  predicate Drains(checks: Checks, indexing: Indexing, st: ReaderState, ops: seq<ReadOp>) {
    Drained(Run(checks, indexing, st, ops))
  }

  /** With the index as written a reader can be drained, by whatever operations and
      whatever the stream holds, exactly when its message has no blocks at all. */
  lemma AsWrittenDrains(checks: Checks, lengths: seq<nat>, w: World)
    ensures (exists ops :: Drains(checks, AsWritten, ReaderState(lengths, w), ops)) <==> lengths == []
  {
    var st := ReaderState(lengths, w);
    if lengths == [] {
      assert Run(checks, AsWritten, st, []) == Finished(st, []);
      assert Drains(checks, AsWritten, st, []);
    } else {
      forall ops ensures !Drains(checks, AsWritten, st, ops) {
        AsWrittenStaysBehind(checks, st, ops);
      }
    }
  }

  /** The lengths that reading `k` blocks uses with the index as written. */
  function Shift(lengths: seq<nat>, k: nat): seq<nat>
    requires k < |lengths| || k == 0
  {
    if k == 0 then [] else lengths[1..k + 1]
  }

  /** Operations that can be carried out with the index as written. */
  predicate FittingShifted(lengths: seq<nat>, ops: seq<ReadOp>, size: nat)
    decreases |ops|
  {
    ops == [] ||
    (var n := |Buffers(ops[0])|;
     (n < |lengths| || n == 0)
     && InMemory(Zip(Buffers(ops[0]), Shift(lengths, n)), size)
     && Whole(Shift(lengths, n))
     && FittingShifted(lengths[n..], ops[1..], size))
  }

  lemma {:induction false} FittingReach(lengths: seq<nat>, ops: seq<ReadOp>, size: nat)
    requires FittingShifted(lengths, ops, size)
    ensures Covered(ops) < |lengths| || Covered(ops) == 0
    decreases |ops|
  {
    if ops != [] {
      FittingReach(lengths[|Buffers(ops[0])|..], ops[1..], size);
    }
  }

  lemma ShiftTwice(lengths: seq<nat>, n: nat, k: nat)
    requires n + k < |lengths| || n + k == 0
    ensures Shift(lengths, n + k) == Shift(lengths, n) + Shift(lengths[n..], k)
    ensures Sum(Shift(lengths, n + k)) == Sum(Shift(lengths, n)) + Sum(Shift(lengths[n..], k))
  {
    SumAppend(Shift(lengths, n), Shift(lengths[n..], k));
  }

  lemma ShiftIsNext(lengths: seq<nat>, n: nat)
    requires n < |lengths| || n == 0
    ensures Defined(AsWritten, lengths, n) && NextLengths(AsWritten, lengths, n) == Shift(lengths, n)
  {
    if n > 0 {
      assert lengths[1..][..n] == lengths[1..n + 1];
    }
  }

  /** The rest of a stream from some point on. */
  predicate IsSuffix(t: seq<byte>, s: seq<byte>) {
    |t| <= |s| && t == s[|s| - |t|..]
  }

  lemma SuffixOfSuffix(u: seq<byte>, t: seq<byte>, s: seq<byte>)
    requires IsSuffix(u, t) && IsSuffix(t, s)
    ensures IsSuffix(u, s)
  {
    assert s[|s| - |t|..][|t| - |u|..] == s[|s| - |u|..];
  }

  lemma StepShifted(st: ReaderState, op: ReadOp, n: nat)
    requires n == |Buffers(op)| && (n < |st.remaining| || n == 0)
    requires InMemory(Zip(Buffers(op), Shift(st.remaining, n)), |st.world.memory|)
    requires Whole(Shift(st.remaining, n)) && Sum(Shift(st.remaining, n)) <= |st.world.inbound|
    ensures var r := Step(Printing, AsWritten, st, op);
            r.Stepped? && r.state.remaining == st.remaining[n..]
            && |r.state.world.memory| == |st.world.memory|
            && IsSuffix(r.state.world.inbound, st.world.inbound)
            && |r.state.world.inbound| == |st.world.inbound| - Sum(Shift(st.remaining, n))
  {
    var lengths := Shift(st.remaining, n);
    var iovs := Zip(Buffers(op), lengths);
    ShiftIsNext(st.remaining, n);
    assert Lens(iovs) == lengths;
    FilledAll(Printing, op, iovs, |st.world.inbound|);
    FillOf(Printing, op, iovs, st.world, st.remaining[n..]);
  }

  /** These operations run to their end and take so many bytes from the stream. */
  ghost predicate Takes(st: ReaderState, ops: seq<ReadOp>, used: nat) {
    var r := Run(Printing, AsWritten, st, ops);
    r.Finished? && IsSuffix(r.state.world.inbound, st.world.inbound)
    && |r.state.world.inbound| + used == |st.world.inbound|
  }

  lemma TakesFrom(st: ReaderState, ops: seq<ReadOp>, first: nat, more: nat)
    requires ops != [] && Step(Printing, AsWritten, st, ops[0]).Stepped?
    requires var next := Step(Printing, AsWritten, st, ops[0]).state;
             IsSuffix(next.world.inbound, st.world.inbound)
             && |next.world.inbound| + first == |st.world.inbound| && Takes(next, ops[1..], more)
    ensures Takes(st, ops, first + more)
  {
    var next := Step(Printing, AsWritten, st, ops[0]).state;
    RunFirst(Printing, AsWritten, st, ops);
    SuffixOfSuffix(Run(Printing, AsWritten, next, ops[1..]).state.world.inbound, next.world.inbound, st.world.inbound);
  }

  /** With the index as written, reads that checks do not stop take the bytes of as many
      blocks, but of those from the second on. */
  lemma {:induction false} AsWrittenTakes(st: ReaderState, ops: seq<ReadOp>)
    requires FittingShifted(st.remaining, ops, |st.world.memory|)
    requires Covered(ops) < |st.remaining| || Covered(ops) == 0
    requires Sum(Shift(st.remaining, Covered(ops))) <= |st.world.inbound|
    ensures Takes(st, ops, Sum(Shift(st.remaining, Covered(ops))))
    decreases |ops|
  {
    if ops != [] {
      var n := |Buffers(ops[0])|;
      FittingReach(st.remaining[n..], ops[1..], |st.world.memory|);
      ShiftTwice(st.remaining, n, Covered(ops[1..]));
      StepShifted(st, ops[0], n);
      AsWrittenTakes(Step(Printing, AsWritten, st, ops[0]).state, ops[1..]);
      TakesFrom(st, ops, Sum(Shift(st.remaining, n)), Sum(Shift(st.remaining[n..], Covered(ops[1..]))));
    }
  }

  lemma ThreeParts(blocks: seq<seq<byte>>, k: nat)
    requires 0 < k < |blocks|
    ensures |Flatten(blocks)| == |blocks[0]| + Sum(Shift(Lengths(blocks), k)) + |Flatten(blocks[k + 1..])|
  {
    var middle, last := blocks[1..k + 1], blocks[k + 1..];
    assert blocks[1..] == middle + last;
    FlattenAppend(middle, last);
    FlattenLength(middle);
    assert Lengths(middle) == Shift(Lengths(blocks), k);
  }

  lemma SuffixIs(a: seq<byte>, rest: seq<byte>, t: seq<byte>)
    requires IsSuffix(t, a + rest)
    ensures t == rest <==> |t| == |rest|
  {
    assert (a + rest)[|a|..] == rest;
  }

  /** No byte is in the blocks whose lengths are not used when `k` blocks are read. */
  predicate NothingUnused(blocks: seq<seq<byte>>, k: nat)
    requires k < |blocks|
  {
    if k == 0 then Flatten(blocks) == [] else blocks[0] == [] && Flatten(blocks[k + 1..]) == []
  }

  lemma UsedIff(blocks: seq<seq<byte>>, k: nat)
    requires k < |blocks|
    ensures Sum(Shift(Lengths(blocks), k)) <= |Flatten(blocks)|
    ensures Sum(Shift(Lengths(blocks), k)) == |Flatten(blocks)| <==> NothingUnused(blocks, k)
  {
    if k > 0 {
      ThreeParts(blocks, k);
    }
  }

  /** The code as it stands, literal index and printing checks: reading some blocks of a
      message leaves the stream at the next header if and only if neither the first block
      nor those behind the ones whose lengths were used hold a byte. */
  lemma AsWrittenInStep(blocks: seq<seq<byte>>, w: World, ops: seq<ReadOp>, rest: seq<byte>)
    requires w.inbound == Flatten(blocks) + rest
    requires FittingShifted(Lengths(blocks), ops, |w.memory|) && blocks != []
    ensures Covered(ops) < |blocks|
    ensures var r := Run(Printing, AsWritten, ReaderState(Lengths(blocks), w), ops);
            r.Finished? && (r.state.world.inbound == rest <==> NothingUnused(blocks, Covered(ops)))
  {
    var st, k := ReaderState(Lengths(blocks), w), Covered(ops);
    FittingReach(st.remaining, ops, |w.memory|);
    UsedIff(blocks, k);
    AsWrittenTakes(st, ops);
    SuffixIs(Flatten(blocks), rest, Run(Printing, AsWritten, st, ops).state.world.inbound);
  }

  /** The index as written on a concrete message: of the blocks [7] and [8, 9] the first
      read takes two bytes, and the second looks beyond the table. */
  lemma AsWrittenExample(checks: Checks)
    ensures var r := Step(checks, AsWritten, ReaderState([1, 2], World([0, 0], [7, 8, 9], [])), NextBlock(0));
            r.Stepped? && r.state.world.memory == [7, 8]
            && Step(checks, AsWritten, r.state, NextBlock(0)) == Undefined
  {
    var w := World([0, 0], [7, 8, 9], []);
    var lengths := NextLengths(AsWritten, [1, 2], 1);
    assert lengths == [2];
    var iovs := Zip([0], lengths);
    assert iovs == [Iovec(0, 2)];
    assert Addresses(iovs) == Range(0, 2);
    assert Filled(NextBlock(0), iovs, 3) == Range(0, 2);
    assert w.inbound[..2] == [7, 8];
    ScatterRange(w.memory, 0, [7, 8]);
  }
}
