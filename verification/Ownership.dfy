/** `ScopedFd`: who owns a file descriptor while wrappers are built, moved, released and
    destroyed. */
module Ownership {

  const NONE: int := -1

  class ScopedFd {
    var fd: int

    constructor (fd: int)
      ensures this.fd == fd
    {
      this.fd := fd;
    }

    predicate IsValid()
      reads this
    {
      fd != NONE
    }
  }

  /** What each live wrapper holds. */
  ghost function Holding(live: set<ScopedFd>): map<ScopedFd, int>
    reads live
  {
    map x | x in live :: x.fd
  }

  ghost function Owners(held: map<ScopedFd, int>, fd: int): set<ScopedFd> {
    set x | x in held && held[x] == fd
  }

  function One(b: bool): nat {
    if b then 1 else 0
  }

  /** How the number of owners of `d` changes when a wrapper is set to `fd`. */
  lemma OwnersAfterSet(held: map<ScopedFd, int>, x: ScopedFd, fd: int, d: int)
    ensures |Owners(held[x := fd], d)| == |Owners(held, d)| - One(x in held && held[x] == d) + One(fd == d)
  {
    OwnersAfterDrop(held, x, d);
    var rest := Owners(held - {x}, d);
    assert Owners(held[x := fd], d) == if fd == d then rest + {x} else rest;
  }

  lemma OwnersAfterDrop(held: map<ScopedFd, int>, x: ScopedFd, d: int)
    ensures |Owners(held - {x}, d)| == |Owners(held, d)| - One(x in held && held[x] == d)
  {
    assert Owners(held - {x}, d) == Owners(held, d) - {x};
  }

  function Once(fd: int): multiset<int> {
    if fd == NONE then multiset{} else multiset{fd}
  }

  /** Each time a descriptor was wrapped it is still held by one live wrapper, or was closed
      once, or was released once. */
  ghost predicate Balanced(held: map<ScopedFd, int>, wrapped: multiset<int>, closed: multiset<int>,
                           released: multiset<int>) {
    && wrapped[NONE] == closed[NONE] == released[NONE] == 0
    && forall fd :: fd != NONE ==> wrapped[fd] == closed[fd] + released[fd] + |Owners(held, fd)|
  }

  /** A run of a program: its live wrappers, and how often each descriptor number was wrapped,
      closed and released.  A number may come back once the system hands it out again. */
  class Run {
    ghost var live: set<ScopedFd>
    ghost var wrapped: multiset<int>
    ghost var closed: multiset<int>
    ghost var released: multiset<int>

    ghost predicate Valid()
      reads this, live
    {
      Balanced(Holding(live), wrapped, closed, released)
    }

    constructor ()
      ensures Valid() && live == {} && wrapped == closed == released == multiset{}
    {
      live := {};
      wrapped, closed, released := multiset{}, multiset{}, multiset{};
    }

    /** ScopedFd x(fd), also around -1 or a number used before. */
    method Construct(fd: int) returns (x: ScopedFd)
      requires Valid()
      modifies this
      ensures Valid() && fresh(x) && live == old(live) + {x} && x.fd == fd
      ensures wrapped == old(wrapped) + Once(fd) && closed == old(closed) && released == old(released)
    {
      x := new ScopedFd(fd);
      ghost var was: map<ScopedFd, int> := Holding(live);
      wrapped := wrapped + Once(fd);
      live := live + {x};
      assert Holding(live) == was[x := fd];
      forall d | d != NONE ensures |Owners(was[x := fd], d)| == |Owners(was, d)| + One(d == fd) {
        OwnersAfterSet(was, x, fd, d);
      }
    }

    /** ScopedFd x(std::move(other)). */
    method MoveConstruct(other: ScopedFd) returns (x: ScopedFd)
      requires Valid() && other in live
      modifies this, other
      ensures Valid() && fresh(x) && live == old(live) + {x}
      ensures x.fd == old(other.fd) && other.fd == NONE
      ensures wrapped == old(wrapped) && closed == old(closed) && released == old(released)
    {
      ghost var was: map<ScopedFd, int> := Holding(live);
      ghost var emptied: map<ScopedFd, int> := was[other := NONE];
      x := new ScopedFd(NONE);
      x.fd := other.fd;
      other.fd := NONE;
      live := live + {x};
      assert Holding(live) == emptied[x := x.fd];
      forall d | d != NONE ensures |Owners(emptied[x := x.fd], d)| == |Owners(was, d)| {
        OwnersAfterSet(was, other, NONE, d);
        OwnersAfterSet(emptied, x, x.fd, d);
      }
    }

    /** x = std::move(other), self-move included: what x held is closed, and a self-move
        leaves x empty. */
    method MoveAssign(x: ScopedFd, other: ScopedFd)
      requires Valid() && x in live && other in live
      modifies this, x, other
      ensures Valid() && live == old(live)
      ensures x.fd == if x == other then NONE else old(other.fd)
      ensures other.fd == NONE
      ensures wrapped == old(wrapped) && closed == old(closed) + Once(old(x.fd)) && released == old(released)
    {
      ghost var was: map<ScopedFd, int> := Holding(live);
      ghost var moved: map<ScopedFd, int> := was[x := other.fd];
      if x.IsValid() {
        closed := closed + multiset{x.fd};
      }
      x.fd := other.fd;
      other.fd := NONE;
      assert Holding(live) == moved[other := NONE];
      forall d | d != NONE ensures |Owners(moved[other := NONE], d)| == |Owners(was, d)| - One(was[x] == d) {
        OwnersAfterSet(was, x, was[other], d);
        OwnersAfterSet(moved, other, NONE, d);
      }
    }

    /** Hands the descriptor to the caller without closing it. */
    method Release(x: ScopedFd) returns (fd: int)
      requires Valid() && x in live
      modifies this, x
      ensures Valid() && live == old(live) && x.fd == NONE && fd == old(x.fd)
      ensures wrapped == old(wrapped) && closed == old(closed) && released == old(released) + Once(fd)
    {
      ghost var was: map<ScopedFd, int> := Holding(live);
      fd := NONE;
      if x.IsValid() {
        fd := x.fd;
        x.fd := NONE;
        released := released + multiset{fd};
      }
      assert Holding(live) == was[x := NONE];
      forall d | d != NONE ensures |Owners(was[x := NONE], d)| == |Owners(was, d)| - One(d == fd) {
        OwnersAfterSet(was, x, NONE, d);
      }
    }

    /** The destructor. */
    method Destroy(x: ScopedFd)
      requires Valid() && x in live
      modifies this, x
      ensures Valid() && live == old(live) - {x}
      ensures wrapped == old(wrapped) && closed == old(closed) + Once(old(x.fd)) && released == old(released)
    {
      ghost var was: map<ScopedFd, int> := Holding(live);
      if x.IsValid() {
        var fd := x.fd;
        x.fd := NONE;
        closed := closed + multiset{fd};
      }
      live := live - {x};
      assert Holding(live) == was - {x};
      forall d | d != NONE ensures |Owners(was - {x}, d)| == |Owners(was, d)| - One(was[x] == d) {
        OwnersAfterDrop(was, x, d);
      }
    }

    /** No close() too many, at any moment; and nothing leaks: once every wrapper is gone, every
        wrapped descriptor has been closed or released, as often as it was wrapped. */
    lemma NoLeak()
      requires Valid()
      ensures closed + released <= wrapped
      ensures live == {} ==> wrapped == closed + released
    {
      forall fd ensures (closed + released)[fd] <= wrapped[fd] {
        assert fd != NONE ==> |Owners(Holding(live), fd)| >= 0;
      }
      if live == {} {
        forall fd ensures wrapped[fd] == (closed + released)[fd] {
          assert Owners(Holding(live), fd) == {};
        }
      }
    }
  }
}
