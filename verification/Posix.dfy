/** The environment of the channel code: the process's memory, the two byte streams
    of one connected socket, and system calls that may move fewer bytes than asked. */
module Posix {
  import opened Basics
  import opened Bytes

  /** Largest number of entries one vectored system call accepts. */
  const UIO_MAXIOV: nat := 1024

  datatype Iovec = Iovec(base: nat, len: nat)

  datatype Direction = Incoming | Outgoing

  /** `inbound` is everything the peer sends from now on until it closes; `outbound`
      is everything handed to the kernel so far. */
  datatype World = World(memory: seq<byte>, inbound: seq<byte>, outbound: seq<byte>)

  /** The address of every byte that a buffer list names, in transfer order. */
  function Range(base: nat, len: nat): (r: seq<nat>)
    ensures |r| == len
    ensures forall i :: 0 <= i < len ==> r[i] == base + i
  {
    seq(len, i requires 0 <= i < len => base + i)
  }

  function Addresses(iovs: seq<Iovec>): seq<nat> {
    if iovs == [] then [] else Range(iovs[0].base, iovs[0].len) + Addresses(iovs[1..])
  }

  function Lens(iovs: seq<Iovec>): (r: seq<nat>)
    ensures |r| == |iovs|
    ensures forall i :: 0 <= i < |r| ==> r[i] == iovs[i].len
  {
    seq(|iovs|, i requires 0 <= i < |iovs| => iovs[i].len)
  }

  ghost predicate InBounds(addresses: seq<nat>, size: nat) {
    forall i :: 0 <= i < |addresses| ==> addresses[i] < size
  }

  predicate InMemory(iovs: seq<Iovec>, size: nat) {
    forall i :: 0 <= i < |iovs| ==> iovs[i].base + iovs[i].len <= size
  }

  function Gather(memory: seq<byte>, addresses: seq<nat>): (r: seq<byte>)
    requires InBounds(addresses, |memory|)
    ensures |r| == |addresses|
    ensures forall i :: 0 <= i < |r| ==> r[i] == memory[addresses[i]]
  {
    seq(|addresses|, i requires 0 <= i < |addresses| => memory[addresses[i]])
  }

  function Scatter(memory: seq<byte>, addresses: seq<nat>, data: seq<byte>): (r: seq<byte>)
    requires |addresses| == |data| && InBounds(addresses, |memory|)
    ensures |r| == |memory|
    decreases |addresses|
  {
    if addresses == [] then memory
    else Scatter(memory[addresses[0] := data[0]], addresses[1..], data[1..])
  }

  ghost predicate CanMove(direction: Direction, w: World, addresses: seq<nat>) {
    InBounds(addresses, |w.memory|) && (direction.Incoming? ==> |addresses| <= |w.inbound|)
  }

  /** Moves one byte per address, in order, between memory and the socket. */
  function Move(direction: Direction, w: World, addresses: seq<nat>): (r: World)
    requires CanMove(direction, w, addresses)
    ensures |r.memory| == |w.memory|
  {
    match direction
    case Incoming =>
      World(Scatter(w.memory, addresses, w.inbound[..|addresses|]), w.inbound[|addresses|..], w.outbound)
    case Outgoing =>
      World(w.memory, w.inbound, w.outbound + Gather(w.memory, addresses))
  }

  // ----- Facts about addresses and moves -----

  lemma {:induction false} AddressesAppend(a: seq<Iovec>, b: seq<Iovec>)
    ensures Addresses(a + b) == Addresses(a) + Addresses(b)
  {
    if a == [] {
      assert a + b == b;
    } else {
      assert (a + b)[1..] == a[1..] + b;
      AddressesAppend(a[1..], b);
    }
  }

  lemma {:induction false} AddressesLength(iovs: seq<Iovec>)
    ensures |Addresses(iovs)| == Sum(Lens(iovs))
  {
    if iovs != [] {
      assert Lens(iovs)[1..] == Lens(iovs[1..]);
      AddressesLength(iovs[1..]);
    }
  }

  lemma {:induction false} AddressesInBounds(iovs: seq<Iovec>, size: nat)
    requires InMemory(iovs, size)
    ensures InBounds(Addresses(iovs), size)
  {
    if iovs != [] {
      AddressesInBounds(iovs[1..], size);
    }
  }

  lemma {:induction false} ScatterAppend(memory: seq<byte>, a: seq<nat>, b: seq<nat>, d: seq<byte>, e: seq<byte>)
    requires |a| == |d| && |b| == |e| && InBounds(a, |memory|) && InBounds(b, |memory|)
    ensures InBounds(a + b, |memory|)
    ensures Scatter(memory, a + b, d + e) == Scatter(Scatter(memory, a, d), b, e)
    decreases |a|
  {
    if a == [] {
      assert a + b == b && d + e == e;
    } else {
      assert (a + b)[1..] == a[1..] + b && (d + e)[1..] == d[1..] + e;
      ScatterAppend(memory[a[0] := d[0]], a[1..], b, d[1..], e);
    }
  }

  /** Two moves in a row are one move: nothing is lost, repeated or reordered where a
      transfer is cut short and resumed. */
  lemma MoveCompose(direction: Direction, w: World, a: seq<nat>, b: seq<nat>)
    requires CanMove(direction, w, a) && CanMove(direction, Move(direction, w, a), b)
    ensures CanMove(direction, w, a + b)
    ensures Move(direction, Move(direction, w, a), b) == Move(direction, w, a + b)
  {
    match direction
    case Incoming =>
      var d, e := w.inbound[..|a|], w.inbound[|a|..][..|b|];
      assert w.inbound[..|a + b|] == d + e;
      assert w.inbound[|a|..][|b|..] == w.inbound[|a + b|..];
      ScatterAppend(w.memory, a, b, d, e);
    case Outgoing =>
      assert Gather(w.memory, a + b) == Gather(w.memory, a) + Gather(w.memory, b);
  }

  /** What an incoming move leaves alone, and what it writes where no later byte
      of the same move lands. */
  lemma {:induction false} ScatterAt(memory: seq<byte>, addresses: seq<nat>, data: seq<byte>, x: nat)
    requires |addresses| == |data| && InBounds(addresses, |memory|) && x < |memory|
    requires x !in addresses
    ensures Scatter(memory, addresses, data)[x] == memory[x]
    decreases |addresses|
  {
    if addresses != [] {
      ScatterAt(memory[addresses[0] := data[0]], addresses[1..], data[1..], x);
    }
  }

  lemma {:induction false} ScatterRange(memory: seq<byte>, base: nat, data: seq<byte>)
    requires base + |data| <= |memory|
    ensures Scatter(memory, Range(base, |data|), data) == memory[..base] + data + memory[base + |data|..]
    decreases |data|
  {
    var r := Range(base, |data|);
    if data == [] {
    } else {
      assert r[1..] == Range(base + 1, |data| - 1);
      ScatterRange(memory[base := data[0]], base + 1, data[1..]);
    }
  }

  class Kernel {
    var memory: seq<byte>
    var inbound: seq<byte>
    var outbound: seq<byte>
    /** Whether this socket's system calls never report an error. */
    const healthy: bool
    /** What a failed check does in this process. */
    const checks: Checks

    constructor (memory: seq<byte>, inbound: seq<byte>, healthy: bool, checks: Checks)
      ensures this.memory == memory && this.inbound == inbound && outbound == []
      ensures this.healthy == healthy && this.checks == checks
    {
      this.memory, this.inbound, this.outbound := memory, inbound, [];
      this.healthy, this.checks := healthy, checks;
    }

    /** No error goes by with only a printed line. */
    predicate Reliable() {
      healthy || checks.Stopping?
    }

    function Snapshot(): World
      reads this
    {
      World(memory, inbound, outbound)
    }

    /** `readv`/`writev` on `iovs[start..start+count]`: moves an arbitrary non-empty
        prefix of the offered bytes, or reports end of stream (0) or an error (-1). */
    method Transfer(direction: Direction, iovs: array<Iovec>, start: nat, count: nat) returns (length: int)
      requires start + count <= iovs.Length && InMemory(iovs[start..start + count], |memory|)
      modifies this
      ensures -1 <= length <= |Addresses(iovs[start..start + count])|
      ensures length > 0 ==>
                CanMove(direction, old(Snapshot()), Addresses(iovs[start..start + count])[..length]) &&
                Snapshot() == Move(direction, old(Snapshot()), Addresses(iovs[start..start + count])[..length])
      ensures length <= 0 ==> Snapshot() == old(Snapshot())
      ensures length == 0 ==>
                Addresses(iovs[start..start + count]) == [] || (direction.Incoming? && old(inbound) == [])
      ensures length < 0 ==> !healthy || count > UIO_MAXIOV
    {
      var addresses := Addresses(iovs[start..start + count]);
      AddressesInBounds(iovs[start..start + count], |memory|);
      if !healthy || count > UIO_MAXIOV {
        var failed: bool := *;
        if failed {
          return -1;
        }
      }
      var limit := if direction.Incoming? && |inbound| < |addresses| then |inbound| else |addresses|;
      if limit == 0 {
        return 0;
      }
      length :| 1 <= length <= limit;
      var w := Move(direction, Snapshot(), addresses[..length]);
      memory, inbound, outbound := w.memory, w.inbound, w.outbound;
    }

    /** `read`/`write` on one buffer. */
    method TransferOne(direction: Direction, base: nat, len: nat) returns (length: int)
      requires base + len <= |memory|
      modifies this
      ensures -1 <= length <= len
      ensures length >= 0 ==>
                CanMove(direction, old(Snapshot()), Range(base, length)) &&
                Snapshot() == Move(direction, old(Snapshot()), Range(base, length))
      ensures length < 0 ==> !healthy && Snapshot() == old(Snapshot())
      ensures length == 0 ==> len == 0 || (direction.Incoming? && old(inbound) == []) || !healthy
      ensures length == 0 && direction.Incoming? ==> len == 0 || old(inbound) == []
    {
      var limit := if direction.Incoming? && |inbound| < len then |inbound| else len;
      if !healthy {
        var failed: bool := *;
        if failed {
          return -1;
        }
      }
      if limit == 0 {
        length := 0;
      } else {
        length :| 1 <= length <= limit;
      }
      var w := Move(direction, Snapshot(), Range(base, length));
      memory, inbound, outbound := w.memory, w.inbound, w.outbound;
    }

    /** A local buffer appears at the end of memory. */
    method Push(data: seq<byte>) returns (address: nat)
      modifies this`memory
      ensures address == old(|memory|) && memory == old(memory) + data
    {
      address := |memory|;
      memory := memory + data;
    }

    /** Local buffers from `size` upwards go out of scope. */
    method PopTo(size: nat)
      requires size <= |memory|
      modifies this`memory
      ensures memory == old(memory[..size])
    {
      memory := memory[..size];
    }

    method Store(address: nat, data: seq<byte>)
      requires address + |data| <= |memory|
      modifies this`memory
      ensures memory == old(memory)[..address] + data + old(memory)[address + |data|..]
    {
      memory := memory[..address] + data + memory[address + |data|..];
    }
  }
}
