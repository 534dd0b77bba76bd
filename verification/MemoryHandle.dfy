/** How many bytes a memory handle allocates for a request. */
module MemoryHandle {
  import opened Bits

  function AllocSize(size: nat): nat {
    if size <= 256 then 256
    else if size <= 512 then 512
    else if size <= 0x1_0000 then MaskUp(size, 1024)
    else size
  }

  lemma Rounded(size: nat)
    requires 512 < size <= 0x1_0000
    ensures IsRoundUp(size, 1024, AllocSize(size)) && AllocSize(size) <= 0x1_0000
  {
    assert IsPow2(1024) by {
      assert IsPow2(16);
      assert IsPow2(128);
    }
    MaskRoundsUp(size, 1024);
    if AllocSize(size) > 0x1_0000 {
      RoundUpLeast(size, 1024, AllocSize(size), 0x1_0000);
    }
  }

  /** No multiple of `a` lies between a number and its round-up. */
  lemma RoundUpLeast(x: nat, a: nat, r: nat, s: nat)
    requires a >= 1 && IsRoundUp(x, a, r) && s % a == 0 && x <= s
    ensures r <= s
  {
    if s < r {
      RoundUpUnique(x, a, r, s);
    }
  }

  /** A block is large enough and a non-empty request wastes less than 1024 bytes; the
      masked sizes are the multiples of 1024 that division rounds up to. */
  lemma EnoughAndTight(size: nat)
    ensures size <= AllocSize(size)
    ensures size > 0 ==> AllocSize(size) < size + 1024
    ensures 512 < size <= 0x1_0000 ==> AllocSize(size) == (size + 1023) / 1024 * 1024
    ensures AllocSize(size) % 256 == 0 || AllocSize(size) == size > 0x1_0000
  {
    if 512 < size <= 0x1_0000 {
      Rounded(size);
      RoundUpUnique(size, 1024, AllocSize(size), (size + 1023) / 1024 * 1024);
    }
  }

  /** Allocating what was allocated allocates the same. */
  lemma Idempotent(size: nat)
    ensures AllocSize(AllocSize(size)) == AllocSize(size)
  {
    if 512 < size <= 0x1_0000 {
      Rounded(size);
      Rounded(AllocSize(size));
      RoundUpUnique(AllocSize(size), 1024, AllocSize(size), AllocSize(AllocSize(size)));
    }
  }

  lemma Monotone(size: nat, size': nat)
    requires size <= size'
    ensures AllocSize(size) <= AllocSize(size')
  {
    EnoughAndTight(size');
    if 512 < size <= 0x1_0000 {
      Rounded(size);
      if size' <= 0x1_0000 {
        Rounded(size');
        RoundUpLeast(size, 1024, AllocSize(size), AllocSize(size'));
      }
    }
  }

  /** The sizes in which blocks are allocated. */
  predicate IsClass(c: nat) {
    c == 256 || c == 512 || (0 < c <= 0x1_0000 && c % 1024 == 0) || c > 0x1_0000
  }

  /** A request gets exactly the least of these sizes that holds it. */
  lemma LeastClass(size: nat)
    ensures IsClass(AllocSize(size)) && size <= AllocSize(size)
    ensures forall c :: IsClass(c) && size <= c ==> AllocSize(size) <= c
    ensures AllocSize(size) ==
            if size <= 256 then 256 else if size <= 512 then 512
            else if size <= 0x1_0000 then (size + 1023) / 1024 * 1024 else size
  {
    EnoughAndTight(size);
    if 512 < size <= 0x1_0000 {
      Rounded(size);
      forall c | IsClass(c) && size <= c ensures AllocSize(size) <= c {
        if c <= 0x1_0000 {
          RoundUpLeast(size, 1024, AllocSize(size), c);
        }
      }
    }
  }
}
