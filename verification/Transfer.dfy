/** The restartable vectored transfer at the bottom of `readv` and `writev`. */
module Transfer {
  import opened Basics
  import opened Bytes
  import opened Posix

  /** Done: the call returns. Aborted: a failed check stops the process. Spins: at the end
      of the stream the call repeats one step for ever. Confused: an error is counted as
      -1 bytes. `moved` is what had gone through by then. */
  datatype Outcome = Done(size: nat) | Aborted(moved: nat) | Spins(moved: nat) | Confused(moved: nat) {

    function Moved(): nat {
      if Done? then size else moved
    }
  }

  /** What comes of a system call that moves nothing, for good. */
  function Failure(checks: Checks, length: int, moved: nat): Outcome {
    if checks.Stopping? then Aborted(moved) else if length < 0 then Confused(moved) else Spins(moved)
  }

  /** The entries that the first system call offers. */
  function FirstWindow<T>(list: seq<T>, maxIovs: nat): seq<T> {
    list[..if |list| <= maxIovs then |list| else maxIovs]
  }

  /** There is something to move, but the first call would offer no byte of it. */
  predicate Starved(lens: seq<nat>, maxIovs: nat) {
    Sum(lens) > 0 && Sum(FirstWindow(lens, maxIovs)) == 0
  }

  lemma {:induction false} NoBytes(count: nat)
    ensures Sum(seq(count, _ => 0)) == 0
    decreases count
  {
    if count > 0 {
      assert seq(count, _ => 0)[1..] == seq(count - 1, _ => 0);
      NoBytes(count - 1);
    }
  }

  /** One system call takes 1024 entries: one byte behind as many empty ones starves, and
      behind fewer it does not. */
  lemma StarvedIff(count: nat)
    ensures Starved(seq(count, _ => 0) + [1], UIO_MAXIOV) <==> count >= 1024
  {
    var empty: seq<nat> := seq(count, _ => 0);
    var lens := empty + [1];
    NoBytes(count);
    SumAppend(empty, [1]);
    if count < 1024 {
      assert FirstWindow(lens, UIO_MAXIOV) == lens;
    } else {
      NoBytes(1024);
      assert FirstWindow(lens, UIO_MAXIOV) == seq(1024, _ => 0);
    }
  }

  /** With a sound kernel, exactly the transfers of buffers of these lengths complete. */
  predicate Completes(checks: Checks, direction: Direction, lens: seq<nat>, maxIovs: nat, available: nat) {
    (checks.Stopping? ==> !Starved(lens, maxIovs)) && (direction.Incoming? ==> Sum(lens) <= available)
  }

  // ----- The number of entries is passed as an `int` -----

  function IntCount(n: nat): (r: nat)
    ensures r <= n && (n < 0x8000_0000 ==> r == n)
  {
    var low := n % 0x1_0000_0000;
    if low < 0x8000_0000 then low else 0
  }

  /** The count is the value of the `int` whose bits are the low 32 of the size, or, where
      that is negative so that no loop runs, 0. */
  lemma IntCountIs(n: nat, c: int, wraps: int)
    requires -0x8000_0000 <= c < 0x8000_0000 && n == c + wraps * 0x1_0000_0000
    ensures IntCount(n) == if c < 0 then 0 else c
  {
    var low := if c < 0 then c + 0x1_0000_0000 else c;
    assert n % 0x1_0000_0000 == low;
  }

  /** The entries that the transfer sees; none of them if the count comes out negative. */
  function Counted<T>(list: seq<T>): seq<T> {
    list[..IntCount(|list|)]
  }

  /** All bytes are in entries that are counted. */
  predicate Whole(lens: seq<nat>) {
    Sum(Counted(lens)) == Sum(lens)
  }

  // ----- Where a transfer stands in the original buffer list -----

  /** An entry with its first `done` bytes cut off. */
  function Shifted(iov: Iovec, done: nat): Iovec
    requires done <= iov.len
  {
    Iovec(iov.base + done, iov.len - done)
  }

  /** `size` bytes have moved: everything before entry `current` and `done` bytes of
      it, and the list `now` differs from the original only in that entry. */
  ghost predicate At(orig: seq<Iovec>, now: seq<Iovec>, current: nat, done: nat, size: nat) {
    current <= |orig| &&
    if current == |orig| then now == orig && size == Sum(Lens(orig))
    else
      done <= orig[current].len &&
      now == orig[current := Shifted(orig[current], done)] &&
      size == Sum(Lens(orig[..current])) + done
  }

  lemma SplitSum(orig: seq<Iovec>, current: nat)
    requires current < |orig|
    ensures Sum(Lens(orig[..current + 1])) == Sum(Lens(orig[..current])) + orig[current].len
  {
    assert Lens(orig[..current + 1]) == Lens(orig[..current]) + [orig[current].len];
    SumAppend(Lens(orig[..current]), [orig[current].len]);
  }

  lemma NothingLeft(orig: seq<Iovec>, current: nat)
    requires current < |orig|
    ensures Sum(Lens(orig[..current])) + orig[current].len <= Sum(Lens(orig))
  {
    SplitSum(orig, current);
    assert Lens(orig) == Lens(orig[..current + 1]) + Lens(orig[current + 1..]);
    SumAppend(Lens(orig[..current + 1]), Lens(orig[current + 1..]));
  }

  /** The bytes that the shifted remainder of the list names are exactly those of the
      original list that have not moved yet. */
  lemma Remaining(orig: seq<Iovec>, now: seq<Iovec>, current: nat, done: nat, size: nat)
    requires At(orig, now, current, done, size) && current < |orig|
    ensures size <= |Addresses(orig)| && Addresses(now[current..]) == Addresses(orig)[size..]
  {
    var head := orig[..current];
    AddressesAppend(head, orig[current..]);
    assert orig == head + orig[current..];
    AddressesLength(head);
    var r := Range(orig[current].base, orig[current].len);
    assert orig[current..][1..] == orig[current + 1..] && now[current..][1..] == orig[current + 1..];
    assert Range(now[current].base, now[current].len) == r[done..];
  }

  /** What one system call is offered: the next bytes in order, and at least one byte
      once the leading entry is not used up. */
  lemma Offer(orig: seq<Iovec>, now: seq<Iovec>, current: nat, done: nat, size: nat, count: nat)
    requires At(orig, now, current, done, size) && 1 <= count <= |orig| - current
    ensures size <= |Addresses(orig)|
    ensures Addresses(now[current..current + count]) <= Addresses(orig)[size..]
    ensures done < orig[current].len ==> Addresses(now[current..current + count]) != []
  {
    Remaining(orig, now, current, done, size);
    var window, rest := now[current..current + count], now[current + count..];
    assert now[current..] == window + rest;
    AddressesAppend(window, rest);
    assert |Addresses(window)| >= |Range(window[0].base, window[0].len)|;
  }

  method TotalLength(iovs: array<Iovec>) returns (total: nat)
    ensures total == Sum(Lens(iovs[..]))
  {
    var i := 0;
    total := 0;
    while i < iovs.Length
      invariant i <= iovs.Length && total == Sum(Lens(iovs[..][..i]))
    {
      SplitSum(iovs[..], i);
      total := total + iovs[i].len;
      i := i + 1;
    }
    assert iovs[..][..iovs.Length] == iovs[..];
  }

  /** Steps over the entries that the last `length` bytes completed. */
  method SkipCompleted(iovs: array<Iovec>, start: nat, moved: nat) returns (current: nat, length: nat)
    requires start <= iovs.Length
    requires Sum(Lens(iovs[..][..start])) + moved <= Sum(Lens(iovs[..]))
    ensures start <= current <= iovs.Length
    ensures Sum(Lens(iovs[..][..current])) + length == Sum(Lens(iovs[..][..start])) + moved
    ensures current < iovs.Length ==> length < iovs[current].len
    ensures current == iovs.Length ==> length == 0
    ensures start < iovs.Length && moved < iovs[start].len ==> current == start && length == moved
    ensures start < iovs.Length && iovs[start].len <= moved ==> start < current
  {
    current, length := start, moved;
    while current < iovs.Length
      invariant start <= current <= iovs.Length
      invariant Sum(Lens(iovs[..][..current])) + length == Sum(Lens(iovs[..][..start])) + moved
      invariant current == start ==> length == moved
      invariant start < current ==> iovs[start].len <= moved
    {
      if length < iovs[current].len {
        break;
      }
      SplitSum(iovs[..], current);
      length := length - iovs[current].len;
      current := current + 1;
    }
    assert iovs[..][..iovs.Length] == iovs[..];
  }

  /** Un-shifts entry `current`, passes over what is now complete and shifts the entry
      where the transfer will go on. */
  method Reposition(iovs: array<Iovec>, start: nat, cut: nat, length: nat, ghost orig: seq<Iovec>, ghost size: nat)
    returns (current: nat, done: nat)
    requires At(orig, iovs[..], start, cut, size) && start < |orig|
    requires size + length <= Sum(Lens(orig))
    modifies iovs
    ensures At(orig, iovs[..], current, done, size + length)
    ensures current < |orig| ==> done < orig[current].len
    ensures length + cut < orig[start].len ==> current == start && done == length + cut
    ensures orig[start].len <= length + cut ==> start < current
  {
    iovs[start] := Iovec(iovs[start].base - cut, iovs[start].len + cut);
    assert iovs[..] == orig;
    current, done := SkipCompleted(iovs, start, length + cut);
    assert orig[..|orig|] == orig;
    if current < iovs.Length {
      iovs[current] := Iovec(iovs[current].base + done, iovs[current].len - done);
    }
  }

  /** What is known of a transfer of the list `orig`, begun in `w`, after `size` bytes. */
  ghost predicate Underway(direction: Direction, w: World, orig: seq<Iovec>, size: nat, now: World) {
    size <= |Addresses(orig)| &&
    CanMove(direction, w, Addresses(orig)[..size]) &&
    now == Move(direction, w, Addresses(orig)[..size])
  }

  lemma Begin(direction: Direction, w: World, orig: seq<Iovec>)
    ensures Underway(direction, w, orig, 0, w)
    ensures orig != [] ==> At(orig, orig, 0, 0, 0)
    ensures orig == [] ==> At(orig, orig, 0, 0, Sum(Lens(orig)))
  {
    assert Gather(w.memory, []) == [];
    if orig != [] {
      assert orig == orig[0 := Shifted(orig[0], 0)];
    }
  }

  /** A transfer cut short and resumed is one transfer. */
  lemma Resume(direction: Direction, w: World, orig: seq<Iovec>, size: nat, now: World,
               offered: seq<nat>, length: nat)
    requires Underway(direction, w, orig, size, now)
    requires offered <= Addresses(orig)[size..] && length <= |offered|
    requires CanMove(direction, now, offered[..length])
    ensures Underway(direction, w, orig, size + length, Move(direction, now, offered[..length]))
  {
    var all := Addresses(orig);
    assert all[..size] + offered[..length] == all[..size + length];
    MoveCompose(direction, w, all[..size], offered[..length]);
  }

  /** The first call is offered nothing exactly if the list starves. */
  lemma FirstOffer(orig: seq<Iovec>, maxIovs: nat)
    requires Sum(Lens(orig)) > 0
    ensures Addresses(FirstWindow(orig, maxIovs)) == [] <==> Starved(Lens(orig), maxIovs)
  {
    AddressesLength(FirstWindow(orig, maxIovs));
    assert Lens(FirstWindow(orig, maxIovs)) == FirstWindow(Lens(orig), maxIovs);
  }

  /** One system call on what is left of the list. */
  method OneCall(kernel: Kernel, direction: Direction, iovs: array<Iovec>, maxIovs: nat, start: nat, cut: nat,
                 ghost orig: seq<Iovec>, ghost w: World, ghost size: nat)
    returns (length: int)
    requires 1 <= maxIovs <= UIO_MAXIOV && InMemory(orig, |kernel.memory|)
    requires At(orig, iovs[..], start, cut, size) && start < |orig| && size < Sum(Lens(orig))
    requires start == cut == 0 || cut < orig[start].len
    requires Underway(direction, w, orig, size, kernel.Snapshot())
    modifies kernel
    ensures length <= 0 ==> kernel.Snapshot() == old(kernel.Snapshot())
    ensures length < 0 ==> !kernel.healthy
    ensures length == 0 ==> (direction.Incoming? && old(kernel.inbound) == []) || orig[start].len <= cut
    ensures length == 0 && orig[start].len <= cut ==>
              (direction.Incoming? && old(kernel.inbound) == []) || Starved(Lens(orig), maxIovs)
    ensures length > 0 ==> Underway(direction, w, orig, size + length, kernel.Snapshot())
    ensures length > 0 && start == cut == 0 ==> !Starved(Lens(orig), maxIovs)
  {
    var count := if iovs.Length - start <= maxIovs then iovs.Length - start else maxIovs;
    Offer(orig, iovs[..], start, cut, size, count);
    ghost var window := iovs[start..start + count];
    assert iovs[..][start..start + count] == window;
    if start == cut == 0 {
      FirstOffer(orig, maxIovs);
      assert window == FirstWindow(orig, maxIovs);
    }
    length := kernel.Transfer(direction, iovs, start, count);
    if length > 0 {
      Resume(direction, w, orig, size, old(kernel.Snapshot()), Addresses(window), length);
    }
  }

  /** One iteration: a system call and the bookkeeping after it, which a check that only
      prints does not prevent when nothing has moved. It is stuck if the process stops, an
      error spoils the count, or nothing has changed and so never will. */
  method Round(kernel: Kernel, direction: Direction, iovs: array<Iovec>, maxIovs: nat, start: nat, cut: nat,
               ghost orig: seq<Iovec>, ghost w: World, ghost size: nat)
    returns (stuck: bool, length: int, current: nat, done: nat)
    requires 1 <= maxIovs <= UIO_MAXIOV && InMemory(orig, |kernel.memory|)
    requires At(orig, iovs[..], start, cut, size) && start < |orig| && size < Sum(Lens(orig))
    requires start == cut == 0 || cut < orig[start].len
    requires Underway(direction, w, orig, size, kernel.Snapshot())
    modifies kernel, iovs
    ensures stuck ==> length <= 0 && kernel.Snapshot() == old(kernel.Snapshot())
    ensures stuck && length < 0 ==> !kernel.healthy
    ensures stuck && length == 0 ==> (direction.Incoming? && kernel.inbound == [])
                                     || (kernel.checks.Stopping? && start == 0 && Starved(Lens(orig), maxIovs))
    ensures !stuck ==> length > 0 || (length == 0 && kernel.checks.Printing? && start < current)
    ensures !stuck && start == cut == 0 && kernel.checks.Stopping? ==> !Starved(Lens(orig), maxIovs)
    ensures !stuck ==> Underway(direction, w, orig, size + length, kernel.Snapshot())
    ensures !stuck ==> At(orig, iovs[..], current, done, size + length)
    ensures !stuck && current < |orig| ==> done < orig[current].len
  {
    current, done := start, cut;
    length := OneCall(kernel, direction, iovs, maxIovs, start, cut, orig, w, size);
    stuck := length < 0 || (length == 0 && kernel.checks.Stopping?);
    if !stuck {
      AddressesLength(orig);
      current, done := Reposition(iovs, start, cut, length, orig, size);
      stuck := length == 0 && current == start && done == cut;
    }
  }

  /** Moves every byte of the buffer list through as many system calls as it takes.
      The list is shifted in place between calls and is whole again on return. */
  method ReadWriteV(kernel: Kernel, direction: Direction, iovs: array<Iovec>, maxIovs: nat) returns (r: Outcome)
    requires 1 <= maxIovs <= UIO_MAXIOV
    requires InMemory(iovs[..], |kernel.memory|)
    modifies kernel, iovs
    ensures r.Done? ==> r.size == |Addresses(old(iovs[..]))| && iovs[..] == old(iovs[..])
    ensures Underway(direction, old(kernel.Snapshot()), old(iovs[..]), r.Moved(), kernel.Snapshot())
    ensures r.Done? ==> Completes(kernel.checks, direction, Lens(old(iovs[..])), maxIovs, old(|kernel.inbound|))
    ensures (kernel.healthy
             && Completes(kernel.checks, direction, Lens(old(iovs[..])), maxIovs, old(|kernel.inbound|))) ==> r.Done?
    ensures r.Aborted? ==> kernel.checks.Stopping?
    ensures r.Spins? ==> kernel.checks.Printing? && direction.Incoming? && r.moved == old(|kernel.inbound|)
    ensures r.Confused? ==> kernel.checks.Printing? && !kernel.healthy
  {
    ghost var orig := iovs[..];
    ghost var w := kernel.Snapshot();
    ghost var starved := Starved(Lens(orig), maxIovs);
    var total := TotalLength(iovs);
    AddressesLength(orig);
    Begin(direction, w, orig);

    var size: nat, current: nat, done: nat := 0, 0, 0;
    while size < total
      invariant At(orig, iovs[..], current, done, size) && total == Sum(Lens(orig))
      invariant Underway(direction, w, orig, size, kernel.Snapshot())
      invariant current == done == 0 || (current < |orig| ==> done < orig[current].len)
      invariant kernel.checks.Stopping? ==> (current == done == 0 && size == 0) || !starved
      decreases total - size, |orig| - current
    {
      var stuck, length, next, cut := Round(kernel, direction, iovs, maxIovs, current, done, orig, w, size);
      if stuck {
        return Failure(kernel.checks, length, size);
      }
      size, current, done := size + length, next, cut;
    }
    if current < |orig| {
      NothingLeft(orig, current);
    }
    r := Done(size);
  }

  /** `readv` or `writev` on a vector of buffers. */
  method VectoredIO(kernel: Kernel, direction: Direction, list: seq<Iovec>) returns (r: Outcome)
    requires InMemory(list, |kernel.memory|)
    modifies kernel
    ensures Underway(direction, old(kernel.Snapshot()), Counted(list), r.Moved(), kernel.Snapshot())
    ensures r.Done? ==> r.size == |Addresses(Counted(list))| == Sum(Counted(Lens(list)))
    ensures r.Done? ==>
              Completes(kernel.checks, direction, Counted(Lens(list)), UIO_MAXIOV, old(|kernel.inbound|))
    ensures (kernel.healthy
             && Completes(kernel.checks, direction, Counted(Lens(list)), UIO_MAXIOV, old(|kernel.inbound|))) ==> r.Done?
    ensures r.Aborted? ==> kernel.checks.Stopping?
    ensures r.Spins? ==> kernel.checks.Printing? && direction.Incoming? && r.moved == old(|kernel.inbound|)
    ensures r.Confused? ==> kernel.checks.Printing? && !kernel.healthy
  {
    var counted := Counted(list);
    var iovs := new Iovec[|counted|](k requires 0 <= k < |counted| => counted[k]);
    assert iovs[..] == counted && Lens(counted) == Counted(Lens(list));
    AddressesLength(counted);
    r := ReadWriteV(kernel, direction, iovs, UIO_MAXIOV);
  }
}
