/** Remote calls on top of framed messages: a request is a function name, the encoded
    request and user blocks; a reply is the encoded response and user blocks. */
module Rpc {
  import opened Basics
  import opened Bytes
  import opened Posix
  import opened Framing
  import opened Reading
  import opened Channel

  /** Message encoding, left abstract; `residue` is what a failed parse leaves behind. */
  datatype Codec<!Msg> =
    Codec(serialize: Msg -> seq<byte>, parse: seq<byte> -> Option<Msg>, residue: seq<byte> -> Msg)

  ghost predicate Lossless<Msg(!new)>(codec: Codec<Msg>) {
    forall m :: codec.parse(codec.serialize(m)) == Some(m)
  }

  /** What a failed parse leaves is used if the check on it only prints. */
  function Understood<Msg>(checks: Checks, codec: Codec<Msg>, text: seq<byte>): Option<Msg> {
    match codec.parse(text)
    case Some(m) => Some(m)
    case None => if checks.Stopping? then None else Some(codec.residue(text))
  }

  /** Plain functions see only the request; extended ones also read the user blocks
      and may attach blocks to the response. */
  datatype Service<!Msg> =
    | Plain(answer: Msg -> Msg)
    | Extended(answerEx: (Msg, seq<seq<byte>>) -> (Msg, seq<seq<byte>>))

  type Registry<!Msg> = map<seq<byte>, Service<Msg>>

  /** The characters of a C string. */
  function CString(s: seq<byte>): (r: seq<byte>)
    ensures r <= s && 0 !in r && (|r| < |s| ==> s[|r|] == 0)
  {
    if s == [] || s[0] == 0 then [] else [s[0]] + CString(s[1..])
  }

  function RequestBlocks<Msg>(codec: Codec<Msg>, name: seq<byte>, request: Msg, user: seq<seq<byte>>)
    : seq<seq<byte>>
  {
    [CString(name), codec.serialize(request)] + user
  }

  /** How the server process takes a request: it replies and goes on, with these blocks of
      the request still in the stream, or comes to its end after sending these bytes: at a
      check, or at a block that is not in the table. */
  datatype Reaction = Reply(reply: seq<seq<byte>>, unread: seq<seq<byte>>) | End(lastWords: seq<byte>)

  /** An unknown name is answered with an empty message, and the reader destroyed. */
  function Respond<Msg>(checks: Checks, codec: Codec<Msg>, functions: Registry<Msg>, blocks: seq<seq<byte>>)
    : Reaction
  {
    if blocks == [] || (checks.Stopping? && |blocks| < 2) then End([])
    else if blocks[0] in functions then ServiceReply(checks, codec, functions[blocks[0]], blocks[1..])
    else if checks.Stopping? then End(Frame([]))
    else Reply([], blocks[1..])
  }

  /** The wrapper around a registered function, on the blocks behind the name. Around a
      plain one it destroys the reader as soon as it has the request. */
  function ServiceReply<Msg>(checks: Checks, codec: Codec<Msg>, service: Service<Msg>, blocks: seq<seq<byte>>)
    : Reaction
  {
    if blocks == [] then End([])
    else
      match Understood(checks, codec, blocks[0])
      case None => End([])
      case Some(request) =>
        match service
        case Plain(answer) =>
          if checks.Stopping? && |blocks| > 1 then End([])
          else Reply([codec.serialize(answer(request))], blocks[1..])
        case Extended(answerEx) =>
          var (response, output) := answerEx(request, blocks[1..]);
          Reply([codec.serialize(response)] + output, [])
  }

  /** Sending these blocks leaves the process alive. */
  predicate Survives(checks: Checks, blocks: seq<seq<byte>>) {
    if checks.Stopping? then Representable(blocks) else Fits(blocks)
  }

  predicate Answered(checks: Checks, r: Reaction) {
    r.Reply? && Survives(checks, r.reply)
  }

  /** What goes out over a request. */
  function Sends(r: Reaction): seq<byte> {
    match r
    case Reply(blocks, _) => OnWire(blocks)
    case End(lastWords) => lastWords
  }

  // ----- Strings read from and blocks written to a channel -----

  /** Reading the next block into a local buffer just behind memory. */
  lemma StringStep(checks: Checks, st: ReaderState, parts: seq<seq<byte>>, rest: seq<byte>, zeros: seq<byte>)
    requires AtBlocks(st, parts, rest) && parts != [] && |zeros| == |parts[0]|
    ensures var w := st.world.(memory := st.world.memory + zeros);
            Step(checks, AsIntended, ReaderState(st.remaining, w), NextBlock(|st.world.memory|)) ==
            Stepped(ReaderState(Lengths(parts[1..]),
                                World(st.world.memory + parts[0], Flatten(parts[1..]) + rest, w.outbound)))
  {
    var w := st.world.(memory := st.world.memory + zeros);
    var base, len := |st.world.memory|, |parts[0]|;
    OneStep(checks, AsIntended, ReaderState(st.remaining, w), base);
    assert w.inbound == parts[0] + (Flatten(parts[1..]) + rest);
    assert w.inbound[..len] == parts[0] && w.inbound[len..] == Flatten(parts[1..]) + rest;
    ScatterRange(w.memory, base, parts[0]);
    assert w.memory[..base] == st.world.memory && w.memory[base + len..] == [];
    assert st.remaining[1..] == Lengths(parts[1..]);
  }

  /** Reads the next block into a string. */
  method ReadString(reader: MessageReader, ghost blocks: seq<seq<byte>>, ghost rest: seq<byte>)
    returns (ok: bool, s: seq<byte>)
    requires reader.Valid() && reader.indexing == AsIntended
    modifies reader`current, reader.channel.kernel
    ensures reader.Valid()
    ensures ok ==> |reader.State().remaining| == old(|reader.State().remaining|) - 1
    ensures reader.channel.kernel.outbound == old(reader.channel.kernel.outbound)
    ensures ok && reader.channel.kernel.Reliable() && AtBlocks(old(reader.State()), blocks, rest) ==>
              s == blocks[0] && AtBlocks(reader.State(), blocks[1..], rest)
              && reader.channel.kernel.memory == old(reader.channel.kernel.memory)
    ensures AtBlocks(old(reader.State()), blocks, rest) && blocks != [] && reader.channel.kernel.healthy ==> ok
  {
    var kernel := reader.channel.kernel;
    ghost var st := reader.State();
    var found, length := reader.GetBlockLength(0);
    if !found {
      return false, [];
    }
    var address := kernel.Push(Zeros(length));
    if AtBlocks(st, blocks, rest) {
      StringStep(kernel.checks, st, blocks, rest, Zeros(length));
    }
    var r := reader.ReadNextBlock(address);
    if !r.Stepped? {
      return false, [];
    }
    s := kernel.memory[address..];
    kernel.PopTo(address);
    ok := true;
  }

  /** Lays the blocks out in memory and sends them as one message. */
  method SendBlocks(channel: SocketChannel, blocks: seq<seq<byte>>) returns (r: SendResult)
    modifies channel.kernel
    ensures channel.kernel.memory == old(channel.kernel.memory)
    ensures channel.kernel.inbound == old(channel.kernel.inbound)
    ensures r.Sent? ==>
              Representable(blocks) && channel.kernel.outbound == old(channel.kernel.outbound) + Frame(blocks)
    ensures r.TooLong? <==> !Fits(blocks)
    ensures channel.kernel.healthy || r.TooLong? ==>
              channel.kernel.outbound == old(channel.kernel.outbound) + OnWire(blocks)
    ensures channel.kernel.healthy && Representable(blocks) ==> r.Sent?
  {
    var kernel := channel.kernel;
    var size := |kernel.memory|;
    var iovs, i := [], 0;
    while i < |blocks|
      invariant i <= |blocks| == |blocks[..i]| + |blocks| - i
      invariant old(kernel.memory) <= kernel.memory
      invariant kernel.inbound == old(kernel.inbound) && kernel.outbound == old(kernel.outbound)
      invariant |iovs| == i && InMemory(iovs, |kernel.memory|)
      invariant Contents(kernel.memory, iovs) == blocks[..i]
    {
      ContentsKept(kernel.memory, blocks[i], iovs);
      ghost var before := Contents(kernel.memory, iovs);
      var address := kernel.Push(blocks[i]);
      iovs := iovs + [Iovec(address, |blocks[i]|)];
      assert kernel.memory[address..address + |blocks[i]|] == blocks[i];
      assert Contents(kernel.memory, iovs) == before + [blocks[i]];
      i := i + 1;
    }
    assert blocks[..i] == blocks;
    r := channel.WriteMessage(iovs);
    kernel.PopTo(size);
  }

  // ----- Server -----

  /** Replied: the worker goes on, with this many bytes of the request still in the stream. */
  datatype Handled = Replied(left: nat) | Died

  class ProtoServer<Msg> {
    const codec: Codec<Msg>
    var functions: Registry<Msg>

    constructor (codec: Codec<Msg>)
      ensures this.codec == codec && functions == map[]
    {
      this.codec, this.functions := codec, map[];
    }

    /** A name is registered twice only where the check on that merely prints. */
    method RegisterServiceFunction(checks: Checks, name: seq<byte>, service: Service<Msg>) returns (ok: bool)
      modifies this
      ensures ok <==> name !in old(functions)
      ensures functions == if ok || checks.Printing? then old(functions)[name := service] else old(functions)
    {
      ok := name !in functions;
      if ok || checks.Printing? {
        functions := functions[name := service];
      }
    }

    /** Dispatches one request and sends its reply; the reader is destroyed at the end. */
    method HandleRequest(reader: MessageReader, ghost blocks: seq<seq<byte>>, ghost rest: seq<byte>)
      returns (r: Handled)
      requires reader.Valid() && reader.indexing == AsIntended
      modifies reader`current, reader.channel.kernel
      ensures AtBlocks(old(reader.State()), blocks, rest) && reader.channel.kernel.Reliable() ==>
                Handles(reader.channel.kernel.checks, reader.channel.kernel.healthy,
                        Respond(reader.channel.kernel.checks, codec, functions, blocks), r,
                        old(reader.channel.kernel.Snapshot()), rest, reader.channel.kernel.Snapshot())
    {
      var checks := reader.channel.kernel.checks;
      var count := reader.GetNumBlocks();
      if count < 2 && checks.Stopping? {
        return Died;
      }
      var ok, name := ReadString(reader, blocks, rest);
      if !ok {
        return Died;
      }
      if name in functions {
        r := CallService(reader, functions[name], if |blocks| > 0 then blocks[1..] else [], rest);
      } else {
        var left := reader.GetTotalLength();
        EmptyMessage();
        if |blocks| > 0 {
          FlattenLength(blocks[1..]);
        }
        var sent := SendBlocks(reader.channel, []);
        r := if checks.Stopping? then Died else Replied(left);
      }
    }

    /** The wrapper around a registered function. */
    method CallService(reader: MessageReader, service: Service<Msg>,
                       ghost blocks: seq<seq<byte>>, ghost rest: seq<byte>)
      returns (r: Handled)
      requires reader.Valid() && reader.indexing == AsIntended
      modifies reader`current, reader.channel.kernel
      ensures AtBlocks(old(reader.State()), blocks, rest) && reader.channel.kernel.Reliable() ==>
                Handles(reader.channel.kernel.checks, reader.channel.kernel.healthy,
                        ServiceReply(reader.channel.kernel.checks, codec, service, blocks), r,
                        old(reader.channel.kernel.Snapshot()), rest, reader.channel.kernel.Snapshot())
    {
      var checks := reader.channel.kernel.checks;
      var ok, proto := ReadString(reader, blocks, rest);
      if !ok {
        return Died;
      }
      var request := Understood(checks, codec, proto);
      if request.None? {
        return Died;
      }
      match service {
        case Plain(answer) =>
          var left := reader.GetTotalLength();
          var unread := reader.GetNumBlocks();
          if |blocks| > 0 {
            FlattenLength(blocks[1..]);
          }
          if unread != 0 && checks.Stopping? {
            return Died;
          }
          r := SendReply(reader.channel, [codec.serialize(answer(request.value))], left);
        case Extended(answerEx) =>
          var user;
          ok, user := ReadRest(reader, if |blocks| > 0 then blocks[1..] else [], rest);
          if !ok {
            return Died;
          }
          var (response, output) := answerEx(request.value, user);
          r := SendReply(reader.channel, [codec.serialize(response)] + output, 0);
      }
    }
  }

  /** What has become of the stream and the process when a request has been handled. */
  ghost predicate Handles(checks: Checks, healthy: bool, reaction: Reaction, r: Handled,
                          before: World, rest: seq<byte>, after: World)
  {
    if r.Replied? then
      Answered(checks, reaction) && r.left == |Flatten(reaction.unread)|
      && after == World(before.memory, Flatten(reaction.unread) + rest, before.outbound + Sends(reaction))
    else
      healthy ==> !Answered(checks, reaction) && after.outbound == before.outbound + Sends(reaction)
  }

  lemma EmptyMessage()
    ensures Representable([]) && OnWire([]) == Frame([])
  {
    SmallRepresentable([]);
    OnWireWhole([]);
  }

  /** Sends a reply, with so many bytes of the request left in the stream. */
  method SendReply(channel: SocketChannel, reply: seq<seq<byte>>, left: nat) returns (r: Handled)
    modifies channel.kernel
    ensures channel.kernel.memory == old(channel.kernel.memory) && channel.kernel.inbound == old(channel.kernel.inbound)
    ensures r.Replied? ==> r.left == left && (channel.kernel.Reliable() ==> Survives(channel.kernel.checks, reply))
    ensures r.Died? && channel.kernel.healthy ==> !Survives(channel.kernel.checks, reply)
    ensures channel.kernel.healthy || (r.Replied? && channel.kernel.Reliable()) ==>
              channel.kernel.outbound == old(channel.kernel.outbound) + OnWire(reply)
  {
    var sent := SendBlocks(channel, reply);
    if sent.Sent? {
      OnWireWhole(reply);
    }
    r := if sent.Sent? || (sent.SendFailed? && channel.kernel.checks.Printing?) then Replied(left) else Died;
  }

  lemma NextOf<T>(s: seq<T>, i: nat)
    requires i < |s|
    ensures s[i..] != [] && s[i..][0] == s[i] && s[i..][1..] == s[i + 1..]
  {
  }

  /** Reads all blocks that are left, as an extended function has to. */
  method ReadRest(reader: MessageReader, ghost blocks: seq<seq<byte>>, ghost rest: seq<byte>)
    returns (ok: bool, user: seq<seq<byte>>)
    requires reader.Valid() && reader.indexing == AsIntended
    modifies reader`current, reader.channel.kernel
    ensures reader.Valid()
    ensures ok && reader.channel.kernel.Reliable() && AtBlocks(old(reader.State()), blocks, rest) ==>
              user == blocks && reader.channel.kernel.Snapshot() ==
              World(old(reader.channel.kernel.memory), rest, old(reader.channel.kernel.outbound))
    ensures AtBlocks(old(reader.State()), blocks, rest) && reader.channel.kernel.healthy ==> ok
  {
    var kernel := reader.channel.kernel;
    ghost var known := AtBlocks(reader.State(), blocks, rest) && kernel.Reliable();
    var count := reader.GetNumBlocks();
    user := [];
    var i := 0;
    while i < count
      invariant i <= count && reader.Valid() && |reader.State().remaining| == count - i
      invariant known ==> count == |blocks| && user == blocks[..i] && AtBlocks(reader.State(), blocks[i..], rest)
      invariant known ==> kernel.memory == old(kernel.memory) && kernel.outbound == old(kernel.outbound)
    {
      var s;
      ok, s := ReadString(reader, if i < |blocks| then blocks[i..] else [], rest);
      if !ok {
        return;
      }
      if known {
        NextOf(blocks, i);
      }
      user := user + [s];
      i := i + 1;
    }
    ok := true;
  }

  // ----- The worker thread of one connection -----

  /** Served: every request up to the end of the stream. Dead: the process came to an end.
      Astray: unread bytes of a request are in the place of the next header. */
  datatype Fate = Served | Dead | Astray

  /** Everything the server sends for a stream of requests while it is in step with them,
      and how that ends. */
  function Output<Msg>(checks: Checks, codec: Codec<Msg>, functions: Registry<Msg>, requests: seq<seq<seq<byte>>>)
    : (seq<byte>, Fate)
  {
    if requests == [] then ([], Served)
    else
      var reaction := Respond(checks, codec, functions, requests[0]);
      if !Answered(checks, reaction) then (Sends(reaction), Dead)
      else if Flatten(reaction.unread) != [] then (Sends(reaction), Astray)
      else
        var (bytes, fate) := Output(checks, codec, functions, requests[1..]);
        (Sends(reaction) + bytes, fate)
  }

  ghost predicate AllRepresentable(messages: seq<seq<seq<byte>>>) {
    forall i :: 0 <= i < |messages| ==> Representable(messages[i])
  }

  /** One round of the worker loop. */
  method ServeNext<Msg>(server: ProtoServer<Msg>, channel: SocketChannel, ghost requests: seq<seq<seq<byte>>>)
    returns (over: bool, r: Handled)
    requires channel.kernel.inbound == Frames(requests) && AllRepresentable(requests)
    modifies channel.kernel
    ensures channel.kernel.Reliable() && over ==>
              requests == [] && channel.kernel.Snapshot() == old(channel.kernel.Snapshot())
    ensures channel.kernel.Reliable() && !over && (channel.kernel.healthy || r.Replied?) ==>
              requests != [] &&
              Handles(channel.kernel.checks, channel.kernel.healthy,
                      Respond(channel.kernel.checks, server.codec, server.functions, requests[0]), r,
                      old(channel.kernel.Snapshot()), Frames(requests[1..]), channel.kernel.Snapshot())
  {
    over, r := false, Died;
    if requests != [] {
      ParseFrame(channel.kernel.checks, requests[0], Frames(requests[1..]));
    }
    var received := channel.ReadMessage(AsIntended);
    if received.Closed? {
      over := true;
    } else if received.Opened? {
      ghost var first, behind := [], [];
      if requests != [] {
        first, behind := requests[0], Frames(requests[1..]);
      }
      r := server.HandleRequest(received.reader, first, behind);
    }
  }

  /** Serves a stream of requests until the peer closes it, for as long as the worker is in
      step with them: the replies come out in the order of the requests. */
  method Serve<Msg>(server: ProtoServer<Msg>, channel: SocketChannel, ghost requests: seq<seq<seq<byte>>>)
    returns (fate: Fate)
    requires channel.kernel.inbound == Frames(requests) && AllRepresentable(requests)
    requires channel.kernel.Reliable()
    modifies channel.kernel
    ensures !fate.Dead? || channel.kernel.healthy ==>
              (old(channel.kernel.outbound) + Output(channel.kernel.checks, server.codec, server.functions, requests).0
               == channel.kernel.outbound)
              && Output(channel.kernel.checks, server.codec, server.functions, requests).1 == fate
    ensures fate.Served? ==> channel.kernel.inbound == []
  {
    ghost var left := requests;
    ghost var all := Output(channel.kernel.checks, server.codec, server.functions, requests);
    ghost var start := channel.kernel.outbound;
    while true
      invariant channel.kernel.inbound == Frames(left) && AllRepresentable(left)
      invariant StillToSend(channel.kernel.checks, server.codec, server.functions, left,
                            channel.kernel.outbound, start, all)
      decreases |left|
    {
      ghost var sent := channel.kernel.outbound;
      var over, handled := ServeNext(server, channel, left);
      if over {
        return Served;
      }
      if handled.Died? {
        return Dead;
      }
      if handled.left > 0 {
        return Astray;
      }
      OutputStep(channel.kernel.checks, server.codec, server.functions, left, sent, start, all);
      left := left[1..];
    }
  }

  ghost predicate StillToSend<Msg>(checks: Checks, codec: Codec<Msg>, functions: Registry<Msg>,
                                   left: seq<seq<seq<byte>>>, sent: seq<byte>, start: seq<byte>,
                                   all: (seq<byte>, Fate))
  {
    var (bytes, fate) := Output(checks, codec, functions, left);
    fate == all.1 && sent + bytes == start + all.0
  }

  lemma OutputStep<Msg>(checks: Checks, codec: Codec<Msg>, functions: Registry<Msg>, left: seq<seq<seq<byte>>>,
                        sent: seq<byte>, start: seq<byte>, all: (seq<byte>, Fate))
    requires left != [] && StillToSend(checks, codec, functions, left, sent, start, all)
    requires var reaction := Respond(checks, codec, functions, left[0]);
             Answered(checks, reaction) && Flatten(reaction.unread) == []
    ensures StillToSend(checks, codec, functions, left[1..],
                        sent + Sends(Respond(checks, codec, functions, left[0])), start, all)
  {
    var sends := Sends(Respond(checks, codec, functions, left[0]));
    var (bytes, fate) := Output(checks, codec, functions, left[1..]);
    assert sent + sends + bytes == sent + (sends + bytes);
  }

  // ----- Which sessions are served to their end -----

  /** A request that trips no check which would stop the process and looks up no block
      that it does not have, and of which no byte stays unread. */
  predicate Sound<Msg>(checks: Checks, codec: Codec<Msg>, functions: Registry<Msg>, blocks: seq<seq<byte>>) {
    match checks
    case Stopping =>
      |blocks| >= 2 && blocks[0] in functions && codec.parse(blocks[1]).Some?
      && (functions[blocks[0]].Plain? ==> |blocks| == 2)
    case Printing =>
      blocks != [] &&
      if blocks[0] !in functions then Flatten(blocks[1..]) == []
      else |blocks| >= 2 && (functions[blocks[0]].Plain? ==> Flatten(blocks[2..]) == [])
  }

  function ReplyTo<Msg>(checks: Checks, codec: Codec<Msg>, functions: Registry<Msg>, blocks: seq<seq<byte>>)
    : seq<seq<byte>>
  {
    match Respond(checks, codec, functions, blocks)
    case Reply(reply, _) => reply
    case End(_) => []
  }

  lemma SoundIff<Msg>(checks: Checks, codec: Codec<Msg>, functions: Registry<Msg>, blocks: seq<seq<byte>>)
    ensures var reaction := Respond(checks, codec, functions, blocks);
            Answered(checks, reaction) && Flatten(reaction.unread) == [] <==>
            Sound(checks, codec, functions, blocks) && Survives(checks, ReplyTo(checks, codec, functions, blocks))
  {
    if |blocks| > 1 {
      assert blocks[1..][1..] == blocks[2..];
    }
  }

  ghost predicate AllSound<Msg>(checks: Checks, codec: Codec<Msg>, functions: Registry<Msg>,
                                requests: seq<seq<seq<byte>>>)
  {
    forall i :: 0 <= i < |requests| ==>
      Sound(checks, codec, functions, requests[i]) && Survives(checks, ReplyTo(checks, codec, functions, requests[i]))
  }

  /** The worker stays in step and serves a session to its end if and only if every request
      of it is sound and every reply can be sent. */
  lemma {:induction false} ServedIff<Msg>(checks: Checks, codec: Codec<Msg>, functions: Registry<Msg>,
                                          requests: seq<seq<seq<byte>>>)
    ensures Output(checks, codec, functions, requests).1.Served? <==> AllSound(checks, codec, functions, requests)
  {
    if requests != [] {
      SoundIff(checks, codec, functions, requests[0]);
      ServedIff(checks, codec, functions, requests[1..]);
      assert AllSound(checks, codec, functions, requests) ==> AllSound(checks, codec, functions, requests[1..]);
      if AllSound(checks, codec, functions, requests[1..]) {
        forall i | 1 <= i < |requests|
          ensures Sound(checks, codec, functions, requests[i])
          ensures Survives(checks, ReplyTo(checks, codec, functions, requests[i]))
        {
          assert requests[i] == requests[1..][i - 1];
        }
      }
    }
  }

  lemma RepresentableFirst(first: seq<seq<byte>>, more: seq<seq<seq<byte>>>)
    ensures AllRepresentable([first] + more) <==> Representable(first) && AllRepresentable(more)
  {
    var all := [first] + more;
    assert AllRepresentable(all) ==> Representable(all[0]);
    assert forall i :: 0 <= i < |more| ==> more[i] == all[i + 1];
  }

  /** What a session that is served to its end sends: one reply a request, in order. */
  lemma {:induction false} ServedOutput<Msg>(checks: Checks, codec: Codec<Msg>, functions: Registry<Msg>,
                                             requests: seq<seq<seq<byte>>>)
    returns (replies: seq<seq<seq<byte>>>)
    requires Output(checks, codec, functions, requests).1.Served?
    ensures |replies| == |requests|
    ensures forall i :: 0 <= i < |requests| ==> replies[i] == ReplyTo(checks, codec, functions, requests[i])
    ensures AllRepresentable(replies) ==> Output(checks, codec, functions, requests).0 == Frames(replies)
    ensures checks.Stopping? ==> AllRepresentable(replies)
  {
    replies := [];
    if requests != [] {
      var more := ServedOutput(checks, codec, functions, requests[1..]);
      var first := ReplyTo(checks, codec, functions, requests[0]);
      replies := [first] + more;
      assert replies[1..] == more;
      RepresentableFirst(first, more);
      OnWireWhole(first);
    }
  }

  // ----- Client -----

  class ProtoClient<Msg> {
    const channel: SocketChannel
    const codec: Codec<Msg>

    constructor (channel: SocketChannel, codec: Codec<Msg>)
      ensures this.channel == channel && this.codec == codec
    {
      this.channel, this.codec := channel, codec;
    }

    method Send(name: seq<byte>, request: Msg, userIovs: seq<Iovec>) returns (r: SendResult)
      requires InMemory(userIovs, |channel.kernel.memory|)
      modifies channel.kernel
      ensures channel.kernel.memory == old(channel.kernel.memory)
      ensures channel.kernel.inbound == old(channel.kernel.inbound)
      ensures var blocks :=
                [CString(name), codec.serialize(request)] + old(Contents(channel.kernel.memory, userIovs));
              (r.Sent? ==>
                 Representable(blocks) && channel.kernel.outbound == old(channel.kernel.outbound) + Frame(blocks))
              && (channel.kernel.healthy ==>
                    channel.kernel.outbound == old(channel.kernel.outbound) + OnWire(blocks)
                    && (r.Sent? <==> Representable(blocks)))
    {
      var kernel := channel.kernel;
      ghost var memory := kernel.memory;
      var size := |kernel.memory|;
      var text, proto := CString(name), codec.serialize(request);
      var first := kernel.Push(text);
      var second := kernel.Push(proto);
      var own := [Iovec(first, |text|), Iovec(second, |proto|)];
      assert kernel.memory[first..first + |text|] == text && kernel.memory[second..second + |proto|] == proto;
      assert kernel.memory == memory + (text + proto);
      ContentsKept(memory, text + proto, userIovs);
      assert Contents(kernel.memory, own + userIovs) == [text, proto] + Contents(memory, userIovs);
      r := channel.WriteMessage(own + userIovs);
      kernel.PopTo(size);
    }

    /** Receives a reply: its message, and a reader at its user blocks. */
    method Recv(ghost blocks: seq<seq<byte>>, ghost rest: seq<byte>) returns (r: Option<(Msg, MessageReader)>)
      requires channel.kernel.inbound == Frame(blocks) + rest && Representable(blocks)
      modifies channel.kernel
      ensures r.Some? && channel.kernel.Reliable() ==>
                blocks != [] && Understood(channel.kernel.checks, codec, blocks[0]) == Some(r.value.0)
                && fresh(r.value.1) && r.value.1.Valid() && r.value.1.channel == channel
                && r.value.1.indexing == AsIntended && AtBlocks(r.value.1.State(), blocks[1..], rest)
      ensures channel.kernel.healthy ==>
                (r.Some? <==> blocks != [] && Understood(channel.kernel.checks, codec, blocks[0]).Some?)
    {
      ParseFrame(channel.kernel.checks, blocks, rest);
      var received := channel.ReadMessage(AsIntended);
      if !received.Opened? {
        return None;
      }
      var reader := received.reader;
      var ok, text := ReadString(reader, blocks, rest);
      if !ok {
        return None;
      }
      var response := Understood(channel.kernel.checks, codec, text);
      r := if response.None? then None else Some((response.value, reader));
    }
  }

  // ----- One call, end to end -----

  /** What a registered function makes of a request. */
  function Result<Msg>(service: Service<Msg>, request: Msg, user: seq<seq<byte>>): (Msg, seq<seq<byte>>) {
    match service
    case Plain(answer) => (answer(request), [])
    case Extended(answerEx) => answerEx(request, user)
  }

  /** How any message of a name, a text and user blocks is taken. A known function gets
      what the text parses to, and all the user blocks if it is an extended one. If the text
      does not parse, checks that stop the process do so, and otherwise the function gets
      whatever the failed parse left. */
  lemma MessageTaken<Msg>(checks: Checks, codec: Codec<Msg>, functions: Registry<Msg>,
                          name: seq<byte>, text: seq<byte>, user: seq<seq<byte>>)
    ensures var reaction := Respond(checks, codec, functions, [name, text] + user);
            if name !in functions then
              reaction == if checks.Stopping? then End(Frame([])) else Reply([], [text] + user)
            else if checks.Stopping? && (codec.parse(text).None? || (functions[name].Plain? && user != [])) then
              reaction == End([])
            else
              var request := if codec.parse(text).Some? then codec.parse(text).value else codec.residue(text);
              var (response, output) := Result(functions[name], request, user);
              reaction == Reply([codec.serialize(response)] + output, if functions[name].Plain? then user else [])
  {
    var blocks := [name, text] + user;
    assert blocks[0] == name && blocks[1..] == [text] + user && blocks[1..][1..] == user;
    if name in functions && functions[name].Plain? && Understood(checks, codec, text).Some? {
      var answer := codec.serialize(functions[name].answer(Understood(checks, codec, text).value));
      assert [answer] + [] == [answer];
    }
  }

  /** A message of fewer than two blocks ends the process, unless checks only print and it
      is an unknown name alone, which gets an empty reply. */
  lemma ShortMessageTaken<Msg>(checks: Checks, codec: Codec<Msg>, functions: Registry<Msg>, blocks: seq<seq<byte>>)
    requires |blocks| < 2
    ensures Respond(checks, codec, functions, blocks) ==
            if checks.Printing? && |blocks| == 1 && blocks[0] !in functions then Reply([], []) else End([])
  {
  }

  /** A request reaches the function registered under its name with the same message and
      the same user blocks, and its answer is the reply. Where checks stop the process there
      is no reply if there is no such function or it cannot take the blocks; where they
      only print there always is one, but in these cases blocks stay in the stream. */
  lemma RequestAnswered<Msg(!new)>(checks: Checks, codec: Codec<Msg>, functions: Registry<Msg>,
                                   name: seq<byte>, request: Msg, user: seq<seq<byte>>)
    requires Lossless(codec)
    ensures var reaction := Respond(checks, codec, functions, [CString(name), codec.serialize(request)] + user);
            if CString(name) !in functions then
              reaction == if checks.Stopping? then End(Frame([])) else Reply([], [codec.serialize(request)] + user)
            else
              var service := functions[CString(name)];
              var (response, output) := Result(service, request, user);
              reaction ==
              if service.Plain? && user != [] && checks.Stopping? then End([])
              else Reply([codec.serialize(response)] + output, if service.Plain? then user else [])
  {
    MessageTaken(checks, codec, functions, CString(name), codec.serialize(request), user);
  }

  /** The network carries everything one side has sent since `mark` to the other. */
  method Carry(from: Kernel, mark: nat, to: Kernel)
    requires from != to && mark <= |from.outbound|
    modifies to`inbound
    ensures to.inbound == old(to.inbound) + from.outbound[mark..]
  {
    to.inbound := to.inbound + from.outbound[mark..];
  }

  /** A call to a registered function brings its response and its output blocks back to
      the caller; where checks stop the process, a plain function has to be called without
      user blocks. */
  method RemoteCall<Msg(!new)>(client: ProtoClient<Msg>, server: ProtoServer<Msg>, link: SocketChannel,
                               name: seq<byte>, request: Msg, userIovs: seq<Iovec>)
    returns (r: Option<(Msg, MessageReader)>)
    requires Lossless(client.codec) && server.codec == client.codec
    requires client.channel.kernel != link.kernel && client.channel.kernel.inbound == link.kernel.inbound == []
    requires client.channel.kernel.healthy && link.kernel.healthy
    requires InMemory(userIovs, |client.channel.kernel.memory|)
    requires CString(name) in server.functions
    requires server.functions[CString(name)].Plain? && link.kernel.checks.Stopping? ==> userIovs == []
    requires Representable(RequestBlocks(client.codec, name, request, Contents(client.channel.kernel.memory, userIovs)))
    requires var (response, output) := Result(server.functions[CString(name)], request,
                                              Contents(client.channel.kernel.memory, userIovs));
             Representable([client.codec.serialize(response)] + output)
    modifies client.channel.kernel, link.kernel
    ensures var (response, output) := Result(old(server.functions)[CString(name)], request,
                                             old(Contents(client.channel.kernel.memory, userIovs)));
            r.Some? && r.value.0 == response && r.value.1.Valid() && r.value.1.channel == client.channel
            && r.value.1.indexing == AsIntended && AtBlocks(r.value.1.State(), output, [])
  {
    ghost var user := Contents(client.channel.kernel.memory, userIovs);
    ghost var blocks := RequestBlocks(client.codec, name, request, user);
    ghost var (response, output) := Result(server.functions[CString(name)], request, user);
    ghost var reply := [client.codec.serialize(response)] + output;
    assert reply[1..] == output;
    RequestAnswered(link.kernel.checks, client.codec, server.functions, name, request, user);
    OnWireWhole(reply);
    var clientMark, serverMark := |client.channel.kernel.outbound|, |link.kernel.outbound|;
    var sent := client.Send(name, request, userIovs);
    Carry(client.channel.kernel, clientMark, link.kernel);
    assert Frames([blocks]) == Frame(blocks);
    assert link.kernel.inbound == Frames([blocks]);
    var over, handled := ServeNext(server, link, [blocks]);
    assert handled.Replied?;
    Carry(link.kernel, serverMark, client.channel.kernel);
    assert client.channel.kernel.inbound == Frame(reply) + [];
    r := client.Recv(reply, []);
  }

  // ----- Many calls on one connection -----

  datatype Call<!Msg> = Call(name: seq<byte>, request: Msg, userIovs: seq<Iovec>)

  datatype Answer<!Msg> = Answer(response: Msg, output: seq<seq<byte>>) {

    function Blocks(codec: Codec<Msg>): seq<seq<byte>> {
      [codec.serialize(response)] + output
    }
  }

  function RequestOf<Msg>(codec: Codec<Msg>, memory: seq<byte>, call: Call<Msg>): seq<seq<byte>>
    requires InMemory(call.userIovs, |memory|)
  {
    RequestBlocks(codec, call.name, call.request, Contents(memory, call.userIovs))
  }

  function AnswerTo<Msg>(functions: Registry<Msg>, memory: seq<byte>, call: Call<Msg>): Answer<Msg>
    requires InMemory(call.userIovs, |memory|) && CString(call.name) in functions
  {
    var (response, output) := Result(functions[CString(call.name)], call.request, Contents(memory, call.userIovs));
    Answer(response, output)
  }

  /** The function is registered and, if it is plain, the call leaves no byte unread; both
      messages have a frame. */
  ghost predicate Callable<Msg>(checks: Checks, codec: Codec<Msg>, functions: Registry<Msg>,
                                memory: seq<byte>, call: Call<Msg>)
  {
    && InMemory(call.userIovs, |memory|)
    && CString(call.name) in functions
    && (functions[CString(call.name)].Plain? ==>
          call.userIovs == [] || (checks.Printing? && Flatten(Contents(memory, call.userIovs)) == []))
    && Representable(RequestOf(codec, memory, call))
    && Representable(AnswerTo(functions, memory, call).Blocks(codec))
  }

  ghost predicate AllCallable<Msg>(checks: Checks, codec: Codec<Msg>, functions: Registry<Msg>, memory: seq<byte>,
                                   calls: seq<Call<Msg>>)
  {
    forall i :: 0 <= i < |calls| ==> Callable(checks, codec, functions, memory, calls[i])
  }

  ghost function Requests<Msg>(checks: Checks, codec: Codec<Msg>, functions: Registry<Msg>, memory: seq<byte>,
                               calls: seq<Call<Msg>>): (r: seq<seq<seq<byte>>>)
    requires AllCallable(checks, codec, functions, memory, calls)
    ensures |r| == |calls|
  {
    seq(|calls|, i requires 0 <= i < |calls| => RequestOf(codec, memory, calls[i]))
  }

  ghost function Answers<Msg>(checks: Checks, codec: Codec<Msg>, functions: Registry<Msg>, memory: seq<byte>,
                              calls: seq<Call<Msg>>): (r: seq<Answer<Msg>>)
    requires AllCallable(checks, codec, functions, memory, calls)
    ensures |r| == |calls|
  {
    seq(|calls|, i requires 0 <= i < |calls| => AnswerTo(functions, memory, calls[i]))
  }

  function AnswerBlocks<Msg>(codec: Codec<Msg>, answers: seq<Answer<Msg>>): (r: seq<seq<seq<byte>>>)
    ensures |r| == |answers|
  {
    seq(|answers|, i requires 0 <= i < |answers| => answers[i].Blocks(codec))
  }

  /** The request is answered with these blocks, and none of its bytes stays unread. */
  ghost predicate AnsweredWith<Msg>(checks: Checks, codec: Codec<Msg>, functions: Registry<Msg>,
                                    request: seq<seq<byte>>, reply: seq<seq<byte>>)
  {
    var reaction := Respond(checks, codec, functions, request);
    reaction.Reply? && reaction.reply == reply && Flatten(reaction.unread) == [] && Representable(reply)
  }

  lemma CallAnswered<Msg(!new)>(checks: Checks, codec: Codec<Msg>, functions: Registry<Msg>,
                                memory: seq<byte>, call: Call<Msg>)
    requires Lossless(codec) && Callable(checks, codec, functions, memory, call)
    ensures AnsweredWith(checks, codec, functions,
                         RequestOf(codec, memory, call), AnswerTo(functions, memory, call).Blocks(codec))
  {
    RequestAnswered(checks, codec, functions, call.name, call.request, Contents(memory, call.userIovs));
  }

  lemma {:induction false} FramesAppend(messages: seq<seq<seq<byte>>>, last: seq<seq<byte>>)
    ensures Frames(messages + [last]) == Frames(messages) + Frame(last)
  {
    if messages != [] {
      assert (messages + [last])[1..] == messages[1..] + [last];
      FramesAppend(messages[1..], last);
    }
  }

  lemma SentSoFar(start: seq<byte>, messages: seq<seq<seq<byte>>>, i: nat)
    requires i < |messages|
    ensures start + Frames(messages[..i + 1]) == start + Frames(messages[..i]) + Frame(messages[i])
  {
    FramesAppend(messages[..i], messages[i]);
    assert messages[..i + 1] == messages[..i] + [messages[i]];
    assert start + (Frames(messages[..i]) + Frame(messages[i])) == start + Frames(messages[..i]) + Frame(messages[i]);
  }

  /** The client sends its requests one after the other. */
  method SendAll<Msg>(client: ProtoClient<Msg>, calls: seq<Call<Msg>>,
                      ghost checks: Checks, ghost functions: Registry<Msg>)
    requires client.channel.kernel.healthy
    requires AllCallable(checks, client.codec, functions, client.channel.kernel.memory, calls)
    modifies client.channel.kernel
    ensures client.channel.kernel.Snapshot() == old(client.channel.kernel.Snapshot()).(
              outbound := old(client.channel.kernel.outbound)
                          + Frames(Requests(checks, client.codec, functions, old(client.channel.kernel.memory), calls)))
  {
    var kernel := client.channel.kernel;
    ghost var requests := Requests(checks, client.codec, functions, kernel.memory, calls);
    var i := 0;
    while i < |calls|
      invariant i <= |calls|
      invariant kernel.memory == old(kernel.memory) && kernel.inbound == old(kernel.inbound)
      invariant kernel.outbound == old(kernel.outbound) + Frames(requests[..i])
    {
      assert Callable(checks, client.codec, functions, kernel.memory, calls[i]);
      var sent := client.Send(calls[i].name, calls[i].request, calls[i].userIovs);
      SentSoFar(old(kernel.outbound), requests, i);
      i := i + 1;
    }
    assert requests[..i] == requests;
  }

  /** The worker of the connection answers as many requests as have arrived. */
  method ServeAll<Msg>(server: ProtoServer<Msg>, link: SocketChannel, count: nat,
                       ghost requests: seq<seq<seq<byte>>>, ghost replies: seq<seq<seq<byte>>>)
    requires link.kernel.healthy && link.kernel.inbound == Frames(requests)
    requires count == |requests| == |replies| && AllRepresentable(requests)
    requires forall i :: 0 <= i < count ==>
               AnsweredWith(link.kernel.checks, server.codec, server.functions, requests[i], replies[i])
    modifies link.kernel
    ensures link.kernel.inbound == [] && link.kernel.memory == old(link.kernel.memory)
    ensures link.kernel.outbound == old(link.kernel.outbound) + Frames(replies)
  {
    var i := 0;
    while i < count
      invariant i <= count && link.kernel.memory == old(link.kernel.memory)
      invariant link.kernel.inbound == Frames(requests[i..])
      invariant link.kernel.outbound == old(link.kernel.outbound) + Frames(replies[..i])
    {
      NextOf(requests, i);
      assert AnsweredWith(link.kernel.checks, server.codec, server.functions, requests[i], replies[i]);
      OnWireWhole(replies[i]);
      var over, handled := ServeNext(server, link, requests[i..]);
      SentSoFar(old(link.kernel.outbound), replies, i);
      i := i + 1;
    }
    assert replies[..i] == replies;
  }

  /** The client receives as many replies as it sent requests, each with its blocks. */
  method RecvAll<Msg(!new)>(client: ProtoClient<Msg>, count: nat, ghost answers: seq<Answer<Msg>>)
    returns (results: seq<Answer<Msg>>)
    requires Lossless(client.codec) && client.channel.kernel.healthy && count == |answers|
    requires AllRepresentable(AnswerBlocks(client.codec, answers))
    requires client.channel.kernel.inbound == Frames(AnswerBlocks(client.codec, answers))
    modifies client.channel.kernel
    ensures results == answers && client.channel.kernel.inbound == []
  {
    ghost var replies := AnswerBlocks(client.codec, answers);
    results := [];
    var i := 0;
    while i < count
      invariant i <= count && results == answers[..i]
      invariant client.channel.kernel.inbound == Frames(replies[i..])
    {
      ghost var rest := Frames(replies[i + 1..]);
      NextOf(replies, i);
      assert replies[i][1..] == answers[i].output && replies[i][0] == client.codec.serialize(answers[i].response);
      var received := client.Recv(replies[i], rest);
      var reader := received.value.1;
      var ok, output := ReadRest(reader, answers[i].output, rest);
      results := results + [Answer(received.value.0, output)];
      i := i + 1;
    }
  }

  /** Any number of calls sent before the first reply is read: every caller gets the
      response and the output blocks of its own call, in order. */
  method PipelinedCalls<Msg(!new)>(client: ProtoClient<Msg>, server: ProtoServer<Msg>, link: SocketChannel,
                                   calls: seq<Call<Msg>>)
    returns (results: seq<Answer<Msg>>)
    requires Lossless(client.codec) && server.codec == client.codec
    requires client.channel.kernel != link.kernel && client.channel.kernel.inbound == link.kernel.inbound == []
    requires client.channel.kernel.healthy && link.kernel.healthy
    requires AllCallable(link.kernel.checks, client.codec, server.functions, client.channel.kernel.memory, calls)
    modifies client.channel.kernel, link.kernel
    ensures results ==
            Answers(link.kernel.checks, client.codec, server.functions, old(client.channel.kernel.memory), calls)
    ensures client.channel.kernel.inbound == link.kernel.inbound == []
  {
    ghost var memory := client.channel.kernel.memory;
    ghost var checks := link.kernel.checks;
    ghost var requests := Requests(checks, client.codec, server.functions, memory, calls);
    ghost var answers := Answers(checks, client.codec, server.functions, memory, calls);
    ghost var replies := AnswerBlocks(client.codec, answers);
    forall i | 0 <= i < |calls|
      ensures Representable(requests[i]) && Representable(replies[i])
      ensures AnsweredWith(checks, server.codec, server.functions, requests[i], replies[i])
    {
      assert Callable(checks, client.codec, server.functions, memory, calls[i]);
      CallAnswered(checks, client.codec, server.functions, memory, calls[i]);
    }
    var clientMark, serverMark := |client.channel.kernel.outbound|, |link.kernel.outbound|;
    SendAll(client, calls, checks, server.functions);
    Carry(client.channel.kernel, clientMark, link.kernel);
    ServeAll(server, link, |calls|, requests, replies);
    Carry(link.kernel, serverMark, client.channel.kernel);
    results := RecvAll(client, |calls|, answers);
  }
}
