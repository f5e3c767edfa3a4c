/** Option values and the cluster lock modes shared by the lock server and the lock clients. */
module Wrappers {
  datatype Option<+T> = None | Some(value: T)

  /** The bag holding the value of an option, or nothing. */
  function Bag<T>(o: Option<T>): multiset<T> {
    match o
    case None => multiset{}
    case Some(v) => multiset{v}
  }
}

module LockModes {

  datatype Mode = Null | Read | Write | WriteOnly

  predicate CanWrite(mode: Mode) {
    mode == Write || mode == WriteOnly
  }

  /** A lock held in mode `granted` satisfies a local user who asks for `requested`. */
  predicate ModesMatch(granted: Mode, requested: Mode) {
    granted == requested || (granted == Write && requested == Read)
  }

  /** All the local users of a lock are satisfied by the given mode. */
  ghost predicate CountsMatch(granted: Mode, users: multiset<Mode>) {
    forall m: Mode :: users[m] > 0 ==> ModesMatch(granted, m)
  }

  /** The mode that a conflicting grant is reduced to on behalf of a request. */
  function InvalidationMode(granted: Mode, requested: Mode): Mode {
    if granted == Write && requested == Read then Read else Null
  }

  /** An invalidation either keeps a read cache after a write lock or takes everything away. */
  predicate Lowers(from: Mode, to: Mode) {
    to == Null || (from == Write && to == Read)
  }

  /** Two different mounts may hold one lock in these modes at the same time. */
  predicate Coexist(a: Mode, b: Mode) {
    a == Null || b == Null || (a == b && (a == Read || a == WriteOnly))
  }
}
