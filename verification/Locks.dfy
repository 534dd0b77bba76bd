/** The reader-writer lock, as what its holders are. */
module Locks {
  import opened Basics

  datatype Holder = Nobody | Somebody(tid: Tid)

  datatype RWLock = RWLock(readers: set<Tid>, writer: Holder) {

    predicate CanLockShared() {
      writer.Nobody?
    }

    predicate CanLock() {
      writer.Nobody? && readers == {}
    }

    function LockShared(t: Tid): RWLock {
      RWLock(readers + {t}, writer)
    }

    function Lock(t: Tid): RWLock {
      RWLock(readers, Somebody(t))
    }

    function Unlock(t: Tid): RWLock {
      RWLock(readers - {t}, if writer == Somebody(t) then Nobody else writer)
    }

    /** Any number of readers or at most one writer. */
    predicate Exclusive() {
      writer.Somebody? ==> readers == {}
    }
  }

  const FREE := RWLock({}, Nobody)
}
