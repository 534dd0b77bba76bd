/** A connected socket that sends and receives framed messages, and the reader that
    hands out the blocks of one received message. */
module Channel {
  import opened Basics
  import opened Bytes
  import opened Posix
  import opened Transfer
  import opened Framing
  import opened Reading

  /** SendFailed: the check after the transfer fails. TooLong: the buffer list or the total
      length does not fit its type. */
  datatype SendResult = Sent | SendFailed | TooLong

  /** Broken: the process stops. Unknown: it goes on with a header read only in part. */
  datatype ReceiveResult = Closed | Broken | Unknown | Opened(reader: MessageReader)

  lemma GatherAppend(memory: seq<byte>, a: seq<nat>, b: seq<nat>)
    requires InBounds(a, |memory|) && InBounds(b, |memory|)
    ensures InBounds(a + b, |memory|) && Gather(memory, a + b) == Gather(memory, a) + Gather(memory, b)
  {
  }

  /** Gathering the bytes of a buffer list is joining the contents of its buffers. */
  lemma {:induction false} GatherContents(memory: seq<byte>, iovs: seq<Iovec>)
    requires InMemory(iovs, |memory|)
    ensures InBounds(Addresses(iovs), |memory|)
    ensures Gather(memory, Addresses(iovs)) == Flatten(Contents(memory, iovs))
  {
    AddressesInBounds(iovs, |memory|);
    if iovs != [] {
      var first := Range(iovs[0].base, iovs[0].len);
      GatherContents(memory, iovs[1..]);
      GatherAppend(memory, first, Addresses(iovs[1..]));
      assert Contents(memory, iovs)[1..] == Contents(memory, iovs[1..]);
      assert Gather(memory, first) == Contents(memory, iovs)[0];
    }
  }

  lemma ContentsKept(memory: seq<byte>, more: seq<byte>, iovs: seq<Iovec>)
    requires InMemory(iovs, |memory|)
    ensures InMemory(iovs, |memory + more|) && Contents(memory + more, iovs) == Contents(memory, iovs)
  {
    forall i | 0 <= i < |iovs|
      ensures (memory + more)[iovs[i].base..iovs[i].base + iovs[i].len]
           == memory[iovs[i].base..iovs[i].base + iovs[i].len]
    {
    }
  }

  lemma ContentsAppend(memory: seq<byte>, a: seq<Iovec>, b: seq<Iovec>)
    requires InMemory(a, |memory|) && InMemory(b, |memory|)
    ensures InMemory(a + b, |memory|) && Contents(memory, a + b) == Contents(memory, a) + Contents(memory, b)
  {
  }

  lemma OwnContents(memory: seq<byte>, header: seq<byte>, table: seq<byte>)
    ensures var m := memory + header + table;
            var own := [Iovec(|memory|, |header|), Iovec(|memory| + |header|, |table|)];
            InMemory(own, |m|) && Contents(m, own) == [header, table]
  {
    var m := memory + header + table;
    assert m[|memory|..|memory| + |header|] == header;
    assert m[|memory| + |header|..|memory| + |header| + |table|] == table;
  }

  /** What `write_message` gathers: its two local buffers, then the caller's. */
  lemma GatherFrame(memory: seq<byte>, header: seq<byte>, table: seq<byte>, user: seq<Iovec>)
    requires InMemory(user, |memory|)
    ensures var m := memory + header + table;
            var iovs := [Iovec(|memory|, |header|), Iovec(|memory| + |header|, |table|)] + user;
            InMemory(iovs, |m|) && InBounds(Addresses(iovs), |m|) &&
            Gather(m, Addresses(iovs)) == header + table + Flatten(Contents(memory, user))
  {
    var m := memory + header + table;
    var own := [Iovec(|memory|, |header|), Iovec(|memory| + |header|, |table|)];
    assert m == memory + (header + table);
    OwnContents(memory, header, table);
    ContentsKept(memory, header + table, user);
    GatherContents(m, own + user);
    ContentsAppend(m, own, user);
    FlattenAppend([header, table], Contents(memory, user));
    assert Flatten([header, table]) == header + table;
  }

  lemma ListLengths(list: seq<Iovec>, user: seq<Iovec>, blocks: seq<seq<byte>>)
    requires Lens(user) == Lengths(blocks) && |list| == |user| + 2 && list[2..] == user
    requires list[0].len == HEADER_SIZE && list[1].len == 8 * |blocks|
    ensures Lens(list) == BufferLengths(blocks) && Sum(Lens(list)) == FrameLength(blocks)
  {
    assert Lens(list) == BufferLengths(blocks);
    BufferTotal(blocks);
  }

  /** Header and table behind memory, and a list of them and the caller's buffers. */
  lemma FrameLaidOut(memory: seq<byte>, user: seq<Iovec>, blocks: seq<seq<byte>>, header: seq<byte>, table: seq<byte>)
    requires InMemory(user, |memory|) && blocks == Contents(memory, user)
    requires header == EncodeLE(FrameLength(blocks), 8) + EncodeLE(|blocks|, 8)
    requires table == EncodeTable(Lengths(blocks))
    ensures var m := memory + header + table;
            var list := [Iovec(|memory|, |header|), Iovec(|memory| + |header|, |table|)] + user;
            InMemory(list, |m|) && InBounds(Addresses(list), |m|) && Gather(m, Addresses(list)) == Frame(blocks)
  {
    GatherFrame(memory, header, table, user);
  }

  lemma StoreTotal(memory: seq<byte>, zero: seq<byte>, count: seq<byte>, table: seq<byte>, total: seq<byte>)
    requires |zero| == |total|
    ensures var m := memory + (zero + count) + table;
            m[..|memory|] + total + m[|memory| + |total|..] == memory + (total + count) + table
  {
  }

  /** A buffer filled or sent so far, and the next piece of it. */
  lemma NextPiece(direction: Direction, w: World, buf: nat, total: nat, length: nat)
    requires CanMove(direction, w, Range(buf, total))
    requires CanMove(direction, Move(direction, w, Range(buf, total)), Range(buf + total, length))
    ensures CanMove(direction, w, Range(buf, total + length))
    ensures Move(direction, Move(direction, w, Range(buf, total)), Range(buf + total, length))
         == Move(direction, w, Range(buf, total + length))
  {
    assert Range(buf, total) + Range(buf + total, length) == Range(buf, total + length);
    MoveCompose(direction, w, Range(buf, total), Range(buf + total, length));
  }

  class SocketChannel {
    const kernel: Kernel

    constructor (kernel: Kernel)
      ensures this.kernel == kernel
    {
      this.kernel := kernel;
    }

    /** Reads until the buffer is full or the stream ends. */
    method Read(buf: nat, size: nat) returns (r: Outcome)
      requires buf + size <= |kernel.memory|
      modifies kernel
      ensures r.Done? || (r.Aborted? && kernel.checks.Stopping? && !kernel.healthy)
      ensures r.Moved() <= size && CanMove(Incoming, old(kernel.Snapshot()), Range(buf, r.Moved())) &&
              kernel.Snapshot() == Move(Incoming, old(kernel.Snapshot()), Range(buf, r.Moved()))
      ensures r.Done? && kernel.Reliable() ==> r.size == Min(size, old(|kernel.inbound|))
    {
      r := ReadWrite(Incoming, buf, size);
    }

    /** Writes until everything is written. */
    method Write(buf: nat, size: nat) returns (r: Outcome)
      requires buf + size <= |kernel.memory|
      modifies kernel
      ensures r.Done? || (r.Aborted? && kernel.checks.Stopping? && !kernel.healthy)
      ensures r.Moved() <= size && CanMove(Outgoing, old(kernel.Snapshot()), Range(buf, r.Moved())) &&
              kernel.Snapshot() == Move(Outgoing, old(kernel.Snapshot()), Range(buf, r.Moved()))
      ensures kernel.healthy ==> r == Done(size)
    {
      r := ReadWrite(Outgoing, buf, size);
    }

    /** After an error the call returns what it has, if the check on it only prints. */
    method ReadWrite(direction: Direction, buf: nat, size: nat) returns (r: Outcome)
      requires buf + size <= |kernel.memory|
      modifies kernel
      ensures r.Done? || (r.Aborted? && kernel.checks.Stopping? && !kernel.healthy)
      ensures r.Moved() <= size && CanMove(direction, old(kernel.Snapshot()), Range(buf, r.Moved())) &&
              kernel.Snapshot() == Move(direction, old(kernel.Snapshot()), Range(buf, r.Moved()))
      ensures r.Done? && direction.Incoming? && kernel.Reliable() ==> r.size == Min(size, old(|kernel.inbound|))
      ensures kernel.healthy && direction.Outgoing? ==> r == Done(size)
    {
      ghost var w := kernel.Snapshot();
      var total: nat := 0;
      assert Gather(w.memory, Range(buf, 0)) == [];
      while total < size
        invariant total <= size && CanMove(direction, w, Range(buf, total))
        invariant kernel.Snapshot() == Move(direction, w, Range(buf, total))
      {
        var length := kernel.TransferOne(direction, buf + total, size - total);
        if length < 0 {
          return if kernel.checks.Stopping? then Aborted(total) else Done(total);
        }
        NextPiece(direction, w, buf, total, length);
        if length == 0 {
          return Done(total);
        }
        total := total + length;
      }
      r := Done(total);
    }

    /** Reads into a local buffer of the given size. */
    method ReadLocal(size: nat) returns (r: Outcome, data: seq<byte>)
      modifies kernel
      ensures r.Done? || (r.Aborted? && kernel.checks.Stopping? && !kernel.healthy)
      ensures r.Done? ==>
                |data| <= size && data <= old(kernel.inbound) &&
                kernel.Snapshot() == old(kernel.Snapshot()).(inbound := old(kernel.inbound)[|data|..])
      ensures r.Done? && kernel.Reliable() ==> |data| == Min(size, old(|kernel.inbound|))
    {
      ghost var w := kernel.Snapshot();
      var address := kernel.Push(Zeros(size));
      r := Read(address, size);
      if r.Done? {
        ghost var got := w.inbound[..r.size];
        ScatterRange(w.memory + Zeros(size), address, got);
        assert kernel.memory[address..address + r.size] == got;
        data := kernel.memory[address..address + r.size];
        kernel.PopTo(address);
        assert kernel.memory == w.memory;
      } else {
        data := [];
      }
    }

    /** Receives the header and the table of block lengths of the next message. */
    method ReadMessage(indexing: Indexing) returns (r: ReceiveResult)
      modifies kernel
      ensures r.Opened? ==>
                fresh(r.reader) && r.reader.Valid() && r.reader.channel == this && r.reader.indexing == indexing
      ensures kernel.Reliable() ==>
                var parsed := ParseMessage(kernel.checks, old(kernel.inbound));
                match r
                case Closed => parsed.EndOfStream? && kernel.Snapshot() == old(kernel.Snapshot())
                case Broken => parsed.Malformed? || !kernel.healthy
                case Unknown => parsed.Indeterminate?
                case Opened(reader) =>
                  parsed.Message?
                  && reader.State() == ReaderState(parsed.lengths, old(kernel.Snapshot()).(inbound := parsed.rest))
    {
      ghost var s := kernel.inbound;
      var received, header := ReadLocal(HEADER_SIZE);
      if received.Aborted? {
        return Broken;
      }
      if |header| == 0 {
        return Closed;
      }
      if |header| != HEADER_SIZE {
        return if kernel.checks.Stopping? then Broken else Unknown;
      }
      var total, count := DecodeLE(header[..8]), DecodeLE(header[8..16]);
      assert header[..8] == s[..8] && header[8..16] == s[8..16];
      if count >= MAX_TABLE {
        return Broken;
      }
      var table;
      received, table := ReadLocal(8 * count);
      if received.Aborted? || (kernel.checks.Stopping? && |table| != 8 * count) {
        return Broken;
      }
      TableRead(s, kernel.inbound, table, count);
      var reader := new MessageReader(this, DecodeTable(table + Zeros(8 * count - |table|), count), indexing);
      var unread := reader.GetTotalLength();
      assert reader.numBlocks[0..] == reader.numBlocks;
      if kernel.checks.Stopping? && WordSum(reader.numBlocks, count) != total {
        return Broken;
      }
      r := Opened(reader);
    }

    method CollectLengths(iovs: seq<Iovec>) returns (table: seq<nat>)
      ensures table == Lens(iovs)
    {
      table := [];
      var i := 0;
      while i < |iovs|
        invariant i <= |iovs| && table == Lens(iovs)[..i]
      {
        table := table + [iovs[i].len];
        i := i + 1;
      }
    }

    /** Lays out the header and the length table and lists all buffers of the message. */
    method PrepareMessage(userIovs: seq<Iovec>) returns (list: seq<Iovec>, total: nat)
      requires InMemory(userIovs, |kernel.memory|)
      modifies kernel`memory
      ensures total == FrameLength(old(Contents(kernel.memory, userIovs)))
      ensures Lens(list) == BufferLengths(old(Contents(kernel.memory, userIovs)))
      ensures InMemory(list, |kernel.memory|) && InBounds(Addresses(list), |kernel.memory|)
      ensures old(kernel.memory) <= kernel.memory
      ensures Gather(kernel.memory, Addresses(list)) == Frame(old(Contents(kernel.memory, userIovs)))
    {
      ghost var memory := kernel.memory;
      ghost var blocks := Contents(memory, userIovs);
      var count := |userIovs|;
      var table := CollectLengths(userIovs);
      assert Lens(userIovs) == Lengths(blocks);

      var header := kernel.Push(EncodeLE(0, 8) + EncodeLE(count, 8));
      var lengths := kernel.Push(EncodeTable(table));
      list := [Iovec(header, HEADER_SIZE), Iovec(lengths, 8 * count)] + userIovs;
      var iovs := new Iovec[|list|](k requires 0 <= k < |list| => list[k]);
      assert iovs[..] == list;
      total := TotalLength(iovs);
      ListLengths(list, userIovs, blocks);
      kernel.Store(header, EncodeLE(total, 8));
      FrameLaidOut(memory, userIovs, blocks, EncodeLE(total, 8) + EncodeLE(count, 8), EncodeTable(table));
      StoreTotal(memory, EncodeLE(0, 8), EncodeLE(count, 8), EncodeTable(table), EncodeLE(total, 8));
      assert kernel.memory == memory + (EncodeLE(total, 8) + EncodeLE(count, 8)) + EncodeTable(table);
    }

    /** Sends one message whose blocks are the given buffers. */
    method WriteMessage(userIovs: seq<Iovec>) returns (r: SendResult)
      requires InMemory(userIovs, |kernel.memory|)
      modifies kernel
      ensures kernel.memory == old(kernel.memory) && kernel.inbound == old(kernel.inbound)
      ensures r.Sent? ==>
                Representable(old(Contents(kernel.memory, userIovs))) &&
                kernel.outbound == old(kernel.outbound) + Frame(old(Contents(kernel.memory, userIovs)))
      ensures r.TooLong? <==> !Fits(old(Contents(kernel.memory, userIovs)))
      ensures kernel.healthy || r.TooLong? ==>
                kernel.outbound == old(kernel.outbound) + OnWire(old(Contents(kernel.memory, userIovs)))
      ensures kernel.healthy && Representable(old(Contents(kernel.memory, userIovs))) ==> r.Sent?
    {
      ghost var w := kernel.Snapshot();
      ghost var blocks := Contents(w.memory, userIovs);
      var size := |kernel.memory|;
      var list, total := PrepareMessage(userIovs);
      if total >= WORD || |userIovs| + 2 >= MAX_IOVECS {
        kernel.PopTo(size);
        return TooLong;
      }
      ghost var laidOut := kernel.memory;
      var written := VectoredIO(kernel, Outgoing, list);
      OnTheWire(blocks, list, laidOut, written.Moved());
      kernel.PopTo(size);
      r := if written == Done(total) then Sent else SendFailed;
    }
  }

  /** The table of a message, as far as the stream held it. */
  lemma TableRead(s: seq<byte>, left: seq<byte>, table: seq<byte>, count: nat)
    requires |s| >= HEADER_SIZE && |table| <= 8 * count && table <= s[16..] && left == s[16..][|table|..]
    ensures |table| == 8 * count ==>
              table + Zeros(0) == table == s[16..16 + 8 * count] && left == s[16 + 8 * count..]
    ensures |table| == |s| - HEADER_SIZE ==> table == s[16..] && left == []
  {
  }

  /** The window of a message is never empty: its header comes first. */
  lemma NeverStarved(blocks: seq<seq<byte>>)
    ensures !Starved(Counted(BufferLengths(blocks)), UIO_MAXIOV)
  {
    var lens := Counted(BufferLengths(blocks));
    if lens != [] {
      assert FirstWindow(lens, UIO_MAXIOV)[0] == HEADER_SIZE;
      SumBounds(FirstWindow(lens, UIO_MAXIOV), 0);
    }
  }

  /** What a transfer of the counted buffers hands over is the beginning of the frame. */
  lemma OnTheWire(blocks: seq<seq<byte>>, list: seq<Iovec>, memory: seq<byte>, moved: nat)
    requires Fits(blocks) && Lens(list) == BufferLengths(blocks)
    requires InBounds(Addresses(list), |memory|) && Gather(memory, Addresses(list)) == Frame(blocks)
    requires moved <= |Addresses(Counted(list))|
    ensures Addresses(Counted(list)) <= Addresses(list) && moved <= |Frame(blocks)| == FrameLength(blocks)
    ensures Gather(memory, Addresses(Counted(list))[..moved]) == Frame(blocks)[..moved]
    ensures moved == |Addresses(Counted(list))| ==> Frame(blocks)[..moved] == OnWire(blocks)
    ensures moved == FrameLength(blocks) ==> Representable(blocks) && Frame(blocks)[..moved] == Frame(blocks)
    ensures Representable(blocks) ==> |Addresses(Counted(list))| == FrameLength(blocks)
    ensures !Starved(Counted(Lens(list)), UIO_MAXIOV)
  {
    WholeAddresses(list);
    BufferTotal(blocks);
    NeverStarved(blocks);
    assert Addresses(Counted(list))[..moved] == Addresses(list)[..moved];
  }

  class MessageReader {
    const channel: SocketChannel
    const indexing: Indexing
    var numBlocks: seq<nat>
    var current: nat

    constructor (channel: SocketChannel, lengths: seq<nat>, indexing: Indexing)
      ensures Valid() && this.channel == channel && this.indexing == indexing
      ensures numBlocks == lengths && current == 0
    {
      this.channel, this.indexing, this.numBlocks, this.current := channel, indexing, lengths, 0;
    }

    ghost predicate Valid()
      reads this
    {
      current <= |numBlocks|
    }

    function State(): ReaderState
      requires Valid()
      reads this, channel.kernel
    {
      ReaderState(numBlocks[current..], channel.kernel.Snapshot())
    }

    method GetNumBlocks() returns (n: nat)
      requires Valid()
      ensures n == |State().remaining|
    {
      n := |numBlocks| - current;
    }

    method GetTotalLength() returns (total: nat)
      requires Valid()
      ensures total == Sum(State().remaining)
    {
      var i := current;
      total := 0;
      while i < |numBlocks|
        invariant current <= i <= |numBlocks|
        invariant total == Sum(numBlocks[current..i])
      {
        assert numBlocks[current..i + 1] == numBlocks[current..i] + [numBlocks[i]];
        SumAppend(numBlocks[current..i], [numBlocks[i]]);
        total := total + numBlocks[i];
        i := i + 1;
      }
      assert numBlocks[current..] == numBlocks[current..i];
    }

    /** The table lookup; none when it would be outside the table. */
    method GetBlockLength(i: nat) returns (ok: bool, length: nat)
      requires Valid()
      ensures ok <==> BlockIndex(indexing, i) < |State().remaining|
      ensures ok ==> length == State().remaining[BlockIndex(indexing, i)]
      ensures indexing.AsIntended? ==>
                (ok <==> i < |State().remaining|) && (ok ==> length == State().remaining[i])
      ensures indexing.AsWritten? ==>
                (ok <==> |State().remaining| > 1) && (ok ==> length == State().remaining[1])
    {
      var index := current + BlockIndex(indexing, i);
      if index < |numBlocks| {
        ok, length := true, numBlocks[index];
      } else {
        ok, length := false, 0;
      }
    }

    /** Reads the next block into a buffer. */
    method ReadNextBlock(buf: nat) returns (r: StepResult)
      requires Valid()
      modifies this`current, channel.kernel
      ensures channel.kernel.Reliable() ==>
                r == Step(channel.kernel.checks, indexing, old(State()), NextBlock(buf))
                || (!channel.kernel.healthy && r == CheckFailed)
      ensures Valid() && (r.Stepped? ==> State() == r.state && Advances(old(State()), r.state, 1))
      ensures channel.kernel.outbound == old(channel.kernel.outbound)
    {
      ghost var st := State();
      if current >= |numBlocks| && channel.kernel.checks.Stopping? {
        return CheckFailed;
      }
      var ok, length := GetBlockLength(0);
      if !ok || buf + length > |channel.kernel.memory| {
        OneStep(channel.kernel.checks, indexing, st, buf);
        return Undefined;
      }
      var received := channel.Read(buf, length);
      OneStep(channel.kernel.checks, indexing, st, buf);
      if received != Done(length) && channel.kernel.checks.Stopping? {
        return CheckFailed;
      }
      current := current + 1;
      assert numBlocks[current..] == st.remaining[1..];
      r := Stepped(State());
    }

    /** Pairs the buffers with the lengths of the next blocks, advancing past them. */
    method CollectBlocks(bufs: seq<nat>) returns (ok: bool, list: seq<Iovec>, total: nat)
      requires Valid()
      modifies this`current
      ensures Valid()
      ensures ok <==> Defined(indexing, old(State()).remaining, |bufs|)
      ensures ok ==>
                |bufs| <= |old(State()).remaining| && total == Sum(Lens(list))
                && list == Zip(bufs, NextLengths(indexing, old(State()).remaining, |bufs|))
                && numBlocks[current..] == old(State()).remaining[|bufs|..]
    {
      ghost var remaining := State().remaining;
      list, total := [], 0;
      var i := 0;
      while i < |bufs|
        invariant i <= |bufs| && i <= |remaining| && Valid()
        invariant numBlocks[current..] == remaining[i..]
        invariant Defined(indexing, remaining, i)
        invariant list == Zip(bufs[..i], NextLengths(indexing, remaining, i)) && total == Sum(Lens(list))
      {
        var length;
        ok, length := GetBlockLength(0);
        if !ok {
          return;
        }
        CollectNext(indexing, remaining, bufs, i, length);
        list := list + [Iovec(bufs[i], length)];
        total := total + length;
        current := current + 1;
        i := i + 1;
      }
      assert bufs[..i] == bufs;
      ok := true;
    }

    /** Reads the next blocks into as many buffers with one vectored read. */
    method ReadBlocks(bufs: seq<nat>) returns (r: StepResult)
      requires Valid()
      modifies this`current, channel.kernel
      ensures channel.kernel.Reliable() ==>
                r == Step(channel.kernel.checks, indexing, old(State()), Blocks(bufs))
                || (!channel.kernel.healthy && r == CheckFailed)
      ensures Valid() && (r.Stepped? ==> State() == r.state)
    {
      if current + |bufs| > |numBlocks| && channel.kernel.checks.Stopping? {
        return CheckFailed;
      }
      var ok, list, total := CollectBlocks(bufs);
      if !ok || !InMemory(list, |channel.kernel.memory|) {
        return Undefined;
      }
      WholeAddresses(list);
      var received := VectoredIO(channel.kernel, Incoming, list);
      match received {
        case Done(size) =>
          assert Addresses(Counted(list))[..size] == Addresses(Counted(list));
          r := if size != total && channel.kernel.checks.Stopping? then CheckFailed else Stepped(State());
        case Aborted(_) => r := CheckFailed;
        case Spins(_) => r := Hangs;
        case Confused(_) => r := Undefined;
      }
    }
  }

  /** What a step leaves alone, whatever the kernel did. */
  ghost predicate Advances(before: ReaderState, after: ReaderState, count: nat) {
    count <= |before.remaining| && after.remaining == before.remaining[count..]
    && |after.world.inbound| <= |before.world.inbound| && after.world.outbound == before.world.outbound
    && |after.world.memory| == |before.world.memory|
  }

  /** The step on one buffer, spelled out. */
  lemma OneStep(checks: Checks, indexing: Indexing, st: ReaderState, buf: nat)
    ensures var i := BlockIndex(indexing, 0);
            Step(checks, indexing, st, NextBlock(buf)) ==
            if checks.Stopping? && st.remaining == [] then CheckFailed
            else if i >= |st.remaining| || buf + st.remaining[i] > |st.world.memory| then Undefined
            else
              var got := Min(st.remaining[i], |st.world.inbound|);
              if checks.Stopping? && got != st.remaining[i] then CheckFailed
              else Stepped(ReaderState(st.remaining[1..], Move(Incoming, st.world, Range(buf, got))))
  {
    var i := BlockIndex(indexing, 0);
    if i < |st.remaining| {
      var iovs := Zip([buf], NextLengths(indexing, st.remaining, 1));
      assert iovs == [Iovec(buf, st.remaining[i])];
      assert Addresses(iovs) == Range(buf, st.remaining[i]) + [];
      var got := Min(st.remaining[i], |st.world.inbound|);
      assert Filled(NextBlock(buf), iovs, |st.world.inbound|) == Range(buf, got);
    }
  }

  lemma CollectNext(indexing: Indexing, remaining: seq<nat>, bufs: seq<nat>, i: nat, length: nat)
    requires i < |bufs| && Defined(indexing, remaining, i)
    requires i + BlockIndex(indexing, 0) < |remaining| && remaining[i + BlockIndex(indexing, 0)] == length
    ensures Defined(indexing, remaining, i + 1)
    ensures Zip(bufs[..i + 1], NextLengths(indexing, remaining, i + 1))
         == Zip(bufs[..i], NextLengths(indexing, remaining, i)) + [Iovec(bufs[i], length)]
    ensures Sum(Lens(Zip(bufs[..i + 1], NextLengths(indexing, remaining, i + 1))))
         == Sum(Lens(Zip(bufs[..i], NextLengths(indexing, remaining, i)))) + length
  {
    var before := Zip(bufs[..i], NextLengths(indexing, remaining, i));
    assert Lens(before + [Iovec(bufs[i], length)]) == Lens(before) + [length];
    SumAppend(Lens(before), [length]);
    assert NextLengths(indexing, remaining, i + 1) == NextLengths(indexing, remaining, i) + [length];
  }
}
