/** `Buffer`: a heap byte array with deep copies, moves and static counters. */
module Buffers {
  import opened Basics

  class Buffer {
    var data: array?<byte>
    var size: nat

    constructor (data: array?<byte>, size: nat)
      ensures this.data == data && this.size == size
    {
      this.data, this.size := data, size;
    }

    ghost predicate Shaped()
      reads this
    {
      if data == null then size == 0 else data.Length == size
    }

    ghost function Contents(): seq<byte>
      requires Shaped()
      reads this, data
    {
      if data == null then [] else data[..]
    }
  }

  ghost predicate Held(live: set<Buffer>, a: array<byte>)
    reads live
  {
    exists b :: b in live && b.data == a
  }

  /** A run of a program over buffers, with every array it allocated and freed. */
  class Run {
    ghost var live: set<Buffer>
    ghost var made: set<array<byte>>
    ghost var freed: set<array<byte>>
    var copies: nat
    var moves: nat

    /** Each allocation is held by exactly one live buffer or has been freed, never both. */
    ghost predicate Valid()
      reads this, live
    {
      && freed <= made
      && (forall b :: b in live ==> b.Shaped() && (b.data != null ==> b.data in made - freed))
      && (forall b, c :: b in live && c in live && b != c && b.data == c.data ==> b.data == null)
      && (forall a :: a in made - freed ==> Held(live, a))
    }

    constructor ()
      ensures Valid() && live == {} && made == freed == {} && copies == moves == 0
    {
      live, made, freed := {}, {}, {};
      copies, moves := 0, 0;
    }

    /** new uint8_t[size]{}: zeroed storage nobody else has. */
    method Allocate(size: nat) returns (a: array<byte>)
      modifies `made
      ensures fresh(a) && a.Length == size && (forall i :: 0 <= i < size ==> a[i] == 0)
      ensures made == old(made) + {a}
    {
      a := new byte[size](_ => 0);
      made := made + {a};
    }

    /** delete[]: a no-op on null, otherwise the storage must not have been freed before. */
    ghost method Delete(a: array?<byte>)
      requires a != null ==> a in made - freed
      modifies `freed
      ensures freed == old(freed) + if a == null then {} else {a}
    {
      if a != null {
        freed := freed + {a};
      }
    }

    /** The byte loop of both copy operations; the two buffers may be the same array. */
    method CopyBytes(from: array?<byte>, to: array<byte>)
      requires from == null ==> to.Length == 0
      requires from != null ==> from.Length == to.Length
      modifies to
      ensures from != null ==> to[..] == old(from[..])
    {
      var n := 0;
      while n < to.Length
        invariant 0 <= n <= to.Length
        invariant from != null ==> (from == to || from[..] == old(from[..])) && to[..n] == old(from[..])[..n]
        invariant from == to ==> to[..] == old(to[..])
      {
        to[n] := from[n];
        n := n + 1;
      }
    }

    method Construct(size: nat) returns (x: Buffer)
      requires Valid()
      modifies this
      ensures Valid() && fresh(x) && live == old(live) + {x}
      ensures x.data != null && fresh(x.data)
      ensures x.size == size && |x.Contents()| == size && forall i :: 0 <= i < size ==> x.Contents()[i] == 0
      ensures made == old(made) + {x.data} && freed == old(freed)
      ensures copies == old(copies) && moves == old(moves)
    {
      var a := Allocate(size);
      x := new Buffer(a, size);
      live := live + {x};
      forall s | s in made - freed ensures Held(live, s) {
        assert s != a ==> old(Held(live, s));
        assert x.data == a;
      }
    }

    /** Deep copy: equal contents in separate storage. */
    method CopyConstruct(other: Buffer) returns (x: Buffer)
      requires Valid() && other in live
      modifies this
      ensures Valid() && fresh(x) && live == old(live) + {x}
      ensures x.data != null && fresh(x.data)
      ensures x.Contents() == other.Contents() == old(other.Contents())
      ensures made == old(made) + {x.data} && freed == old(freed)
      ensures copies == old(copies) + 1 && moves == old(moves)
    {
      var a := Allocate(other.size);
      CopyBytes(other.data, a);
      x := new Buffer(a, other.size);
      live := live + {x};
      copies := copies + 1;
      forall s | s in made - freed ensures Held(live, s) {
        assert s != a ==> old(Held(live, s));
        assert x.data == a;
      }
    }

    /** The first half of copy assignment: the old storage is deleted and replaced by zeros. */
    method Replace(x: Buffer, size: nat)
      requires Valid() && x in live
      modifies this, x
      ensures Valid() && live == old(live)
      ensures x.data != null && fresh(x.data) && x.size == size && x.data.Length == size
      ensures forall i :: 0 <= i < size ==> x.data[i] == 0
      ensures made == old(made) + {x.data}
      ensures freed == old(freed) + if old(x.data) == null then {} else {old(x.data)}
      ensures copies == old(copies) && moves == old(moves)
    {
      Delete(x.data);
      var a := Allocate(size);
      x.data := a;
      x.size := size;
      forall s | s in made - freed ensures Held(live, s) {
        if s == a {
          assert x in live && x.data == a;
        } else {
          assert old(Held(live, s));
          var b :| b in old(live) && old(b.data) == s;
          assert b.data == s;
        }
      }
    }

    /** x = other.  From a distinct buffer this is a deep copy; on itself the old bytes are
        deleted before they are copied, and only zeros remain. */
    method CopyAssign(x: Buffer, other: Buffer)
      requires Valid() && x in live && other in live
      modifies this, x
      ensures Valid() && live == old(live)
      ensures x.data != null && fresh(x.data) && x.size == old(other.size)
      ensures x != other ==> x.Contents() == other.Contents() == old(other.Contents())
      ensures x == other ==> forall i :: 0 <= i < x.size ==> x.Contents()[i] == 0
      ensures x.Contents() == old(other.Contents())
              <==> x != other || forall i :: 0 <= i < |old(other.Contents())| ==> old(other.Contents())[i] == 0
      ensures made == old(made) + {x.data}
      ensures freed == old(freed) + if old(x.data) == null then {} else {old(x.data)}
      ensures copies == old(copies) + 1 && moves == old(moves)
    {
      Replace(x, other.size);
      CopyBytes(other.data, x.data);
      copies := copies + 1;
    }

    /** Steals the storage; the source is left null. */
    method MoveConstruct(other: Buffer) returns (x: Buffer)
      requires Valid() && other in live
      modifies this, other
      ensures Valid() && fresh(x) && live == old(live) + {x}
      ensures x.data == old(other.data) && x.Contents() == old(other.Contents())
      ensures other.data == null && other.size == 0
      ensures made == old(made) && freed == old(freed)
      ensures copies == old(copies) && moves == old(moves) + 1
    {
      x := new Buffer(other.data, other.size);
      other.data, other.size := null, 0;
      live := live + {x};
      moves := moves + 1;
      forall s | s in made - freed ensures Held(live, s) {
        assert old(Held(live, s));
        var b :| b in old(live) && old(b.data) == s;
        assert (if b == other then x else b).data == s;
      }
    }

    /** x = std::move(other); a self-move frees the storage and leaves x null. */
    method MoveAssign(x: Buffer, other: Buffer)
      requires Valid() && x in live && other in live
      modifies this, x, other
      ensures Valid() && live == old(live)
      ensures x.data == if x == other then null else old(other.data)
      ensures x != other ==> x.Contents() == old(other.Contents())
      ensures other.data == null && other.size == 0
      ensures made == old(made)
      ensures freed == old(freed) + if old(x.data) == null then {} else {old(x.data)}
      ensures copies == old(copies) && moves == old(moves) + 1
    {
      Delete(x.data);
      x.data, x.size := other.data, other.size;
      other.data, other.size := null, 0;
      moves := moves + 1;
      forall s | s in made - freed ensures Held(live, s) {
        assert old(Held(live, s));
        var b :| b in old(live) && old(b.data) == s;
        assert (if b == other then x else b).data == s;
      }
    }

    method Destroy(x: Buffer)
      requires Valid() && x in live
      modifies this
      ensures Valid() && live == old(live) - {x} && made == old(made)
      ensures freed == old(freed) + if x.data == null then {} else {x.data}
      ensures copies == old(copies) && moves == old(moves)
    {
      Delete(x.data);
      live := live - {x};
      forall s | s in made - freed ensures Held(live, s) {
        assert old(Held(live, s));
        var b :| b in old(live) && old(b.data) == s;
        assert b in live;
      }
    }

    /** Nothing leaks: once every buffer is gone, every allocation has been freed. */
    lemma NoLeak()
      requires Valid() && live == {}
      ensures made == freed
    {
      forall a | a in made ensures a in freed {
        assert a in made - freed ==> Held(live, a);
      }
    }
  }
}
