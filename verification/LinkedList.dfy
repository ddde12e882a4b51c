/** The singly linked list of ints, as heap nodes.

    `spine` lists the nodes of the chain in order; `freed` lists the nodes handed to
    free(), in call order. */
module LinkedLists {

  class Node {
    var value: int
    var next: Node?

    constructor (value: int, next: Node?)
      ensures this.value == value && this.next == next
    {
      this.value, this.next := value, next;
    }
  }

  ghost function Values(nodes: seq<Node>): seq<int>
    reads nodes
  {
    seq(|nodes|, i requires 0 <= i < |nodes| reads nodes => nodes[i].value)
  }

  /** What the `next` of node `i` must be. */
  ghost function After(nodes: seq<Node>, i: nat): Node? {
    if i + 1 < |nodes| then nodes[i + 1] else null
  }

  /** Following `next` from `head` visits exactly `nodes` and then null. */
  ghost predicate Links(head: Node?, nodes: seq<Node>)
    reads nodes
  {
    && head == (if nodes == [] then null else nodes[0])
    && forall i :: 0 <= i < |nodes| ==> nodes[i].next == After(nodes, i)
  }

  ghost predicate Distinct(nodes: seq<Node>) {
    forall i, j :: 0 <= i < j < |nodes| ==> nodes[i] != nodes[j]
  }

  /** The sequence without element `k`. */
  function Skip<T>(s: seq<T>, k: nat): seq<T>
    requires k < |s|
  {
    s[..k] + s[k + 1..]
  }

  lemma SkipAt<T>(s: seq<T>, k: nat, i: nat)
    requires k < |s| && i < |s| - 1
    ensures Skip(s, k)[i] == s[if i < k then i else i + 1]
  {
  }

  lemma AfterSkip(nodes: seq<Node>, k: nat, i: nat)
    requires k < |nodes| && i < |nodes| - 1
    ensures After(Skip(nodes, k), i) == After(nodes, if i + 1 < k then i else i + 1)
  {
  }

  lemma AfterPush(nodes: seq<Node>, n: Node, i: nat)
    requires i <= |nodes|
    ensures After(nodes + [n], i) == if i + 1 == |nodes| then n else After(nodes, i)
  {
  }

  /** No node occurs twice in the chain, none was freed twice, none is both. */
  ghost predicate Ledger(chain: seq<Node>, freed: seq<Node>) {
    Distinct(chain) && Distinct(freed) && forall n :: n in chain ==> n !in freed
  }

  lemma LedgerFree(chain: seq<Node>, freed: seq<Node>, k: nat)
    requires Ledger(chain, freed) && k < |chain|
    ensures Ledger(Skip(chain, k), freed + [chain[k]])
  {
    var rest := Skip(chain, k);
    forall i | 0 <= i < |rest| ensures rest[i] == chain[if i < k then i else i + 1] && rest[i] != chain[k] {}
    forall n | n in rest ensures n !in freed + [chain[k]] {
      var i :| 0 <= i < |rest| && rest[i] == n;
      assert n in chain;
    }
    var gone := freed + [chain[k]];
    assert chain[k] in chain;
    assert forall i :: 0 <= i < |freed| ==> freed[i] in freed;
    assert Distinct(gone);
  }

  lemma LedgerFreeAll(chain: seq<Node>, freed: seq<Node>)
    requires Ledger(chain, freed)
    ensures Ledger([], freed + chain)
  {
    var all := freed + chain;
    forall i, j | 0 <= i < j < |all| ensures all[i] != all[j] {
      if i < |freed| <= j {
        assert all[j] in chain;
      }
    }
  }

  lemma LedgerNew(chain: seq<Node>, freed: seq<Node>, n: Node)
    requires Ledger(chain, freed) && n !in chain && n !in freed
    ensures Ledger([n] + chain, freed) && Ledger(chain + [n], freed)
  {
  }

  function RemoveFirst(s: seq<int>, v: int): seq<int> {
    if s == [] then [] else if s[0] == v then s[1..] else [s[0]] + RemoveFirst(s[1..], v)
  }

  lemma {:induction false} RemoveFirstAt(s: seq<int>, v: int, k: nat)
    requires k < |s| && s[k] == v && v !in s[..k]
    ensures RemoveFirst(s, v) == Skip(s, k)
  {
    if k == 0 {
    } else {
      assert s[0] == s[..k][0];
      assert s[1..][..k - 1] == s[..k][1..];
      RemoveFirstAt(s[1..], v, k - 1);
      assert s[..k] == [s[0]] + s[1..][..k - 1];
    }
  }

  lemma {:induction false} RemoveFirstAbsent(s: seq<int>, v: int)
    requires v !in s
    ensures RemoveFirst(s, v) == s
  {
    if s == [] {
    } else {
      RemoveFirstAbsent(s[1..], v);
    }
  }

  class LinkedList {
    var head: Node?
    var length: nat

    ghost var spine: seq<Node>
    ghost var freed: seq<Node>

    /** The chain is acyclic, `length` counts its nodes, no node was freed twice, and no
        node still in the chain was freed. */
    ghost predicate Valid()
      reads this, spine
    {
      && Links(head, spine)
      && length == |spine|
      && Ledger(spine, freed)
    }

    ghost function Contents(): seq<int>
      reads this, spine
    {
      Values(spine)
    }

    constructor ()
      ensures Valid() && Contents() == [] && freed == [] && spine == []
    {
      head, length := null, 0;
      spine, freed := [], [];
    }

    method PushFront(value: int)
      requires Valid()
      modifies this
      ensures Valid() && Contents() == [value] + old(Contents()) && freed == old(freed)
      ensures fresh(spine[0]) && spine[1..] == old(spine)
    {
      hide Ledger;
      var n := new Node(value, head);
      LedgerNew(spine, freed, n);
      head := n;
      length := length + 1;
      spine := [n] + spine;
      assert forall i :: 0 < i < |spine| ==> spine[i] == old(spine)[i - 1];
    }

    /** Walks to the last node. */
    method LastNode() returns (last: Node)
      requires Valid() && head != null
      ensures spine != [] && last == spine[|spine| - 1]
    {
      last := head;
      ghost var i := 0;
      while last.next != null
        invariant 0 <= i < |spine| && last == spine[i]
        decreases |spine| - i
      {
        last := last.next;
        i := i + 1;
      }
    }

    method PushBack(value: int)
      requires Valid()
      modifies this, spine
      ensures Valid() && Contents() == old(Contents()) + [value] && freed == old(freed)
      ensures |spine| == |old(spine)| + 1 && spine[..|old(spine)|] == old(spine) && fresh(spine[|old(spine)|])
    {
      assert Distinct(spine);
      hide Ledger;
      var n := new Node(value, null);
      LedgerNew(spine, freed, n);
      if length == 0 {
        head := n;
      } else {
        var last := LastNode();
        last.next := n;
      }
      length := length + 1;
      spine := spine + [n];
      forall i | 0 <= i < |spine|
        ensures spine[i].next == After(spine, i) && spine[i].value == (old(Contents()) + [value])[i]
      {
        AfterPush(old(spine), n, i);
        if i < |old(spine)| {
          assert spine[i] == old(spine)[i];
        }
      }
      assert Contents() == old(Contents()) + [value];
    }

    method PopFront() returns (value: int)
      requires Valid() && Contents() != []
      modifies this
      ensures Valid() && value == old(Contents())[0] && Contents() == Skip(old(Contents()), 0)
      ensures freed == old(freed) + [old(spine)[0]] && spine == Skip(old(spine), 0)
    {
      hide Ledger;
      LedgerFree(spine, freed, 0);
      value := head.value;
      var cur := head;
      head := cur.next;
      freed := freed + [cur];
      length := length - 1;
      spine := Skip(spine, 0);
      forall i | 0 <= i < |spine|
        ensures spine[i].next == After(spine, i) && spine[i].value == Skip(old(Contents()), 0)[i]
      {
        SkipAt(old(spine), 0, i);
        SkipAt(old(Contents()), 0, i);
        AfterSkip(old(spine), 0, i);
      }
      assert Contents() == Skip(old(Contents()), 0);
    }

    method Contains(value: int) returns (found: bool)
      requires Valid()
      ensures found <==> value in Contents()
    {
      var cur := head;
      ghost var i := 0;
      while cur != null
        invariant 0 <= i <= |spine| && cur == if i < |spine| then spine[i] else null
        invariant forall j :: 0 <= j < i ==> Contents()[j] != value
        decreases |spine| - i
      {
        if cur.value == value {
          assert Contents()[i] == value;
          return true;
        }
        cur := cur.next;
        i := i + 1;
      }
      return false;
    }

    method Get(index: nat) returns (value: int)
      requires Valid() && index < |Contents()|
      ensures value == Contents()[index]
    {
      var cur := head;
      for steps := 0 to index
        invariant cur == spine[steps]
      {
        cur := cur.next;
      }
      value := cur.value;
    }

    /** Unlinks and frees the node behind `prev`, which is node `k`. */
    method UnlinkAfter(prev: Node, cur: Node, ghost k: nat)
      requires Valid() && 0 < k < |spine| && cur == spine[k] && prev == spine[k - 1]
      modifies this, prev
      ensures Valid()
      ensures spine == Skip(old(spine), k) && freed == old(freed) + [cur]
      ensures Contents() == Skip(old(Contents()), k)
    {
      assert Distinct(spine);
      hide Ledger;
      LedgerFree(spine, freed, k);
      prev.next := cur.next;
      freed := freed + [cur];
      length := length - 1;
      spine := Skip(spine, k);
      forall i | 0 <= i < |spine|
        ensures spine[i].next == After(spine, i) && spine[i].value == Skip(old(Contents()), k)[i]
      {
        SkipAt(old(spine), k, i);
        SkipAt(old(Contents()), k, i);
        AfterSkip(old(spine), k, i);
      }
      assert Contents() == Skip(old(Contents()), k);
    }

    /** Unlinks and frees the first node that holds `value`. */
    method Remove(value: int) returns (removed: bool)
      requires Valid()
      modifies this, spine
      ensures Valid() && Contents() == RemoveFirst(old(Contents()), value)
      ensures removed <==> value in old(Contents())
      ensures if removed
              then exists k :: 0 <= k < |old(spine)| && freed == old(freed) + [old(spine)[k]]
                               && spine == Skip(old(spine), k)
              else freed == old(freed) && spine == old(spine)
    {
      hide Ledger;
      ghost var was := Contents();
      if length == 0 {
        return false;
      }
      if head.value == value {
        assert was[0] == value;
        RemoveFirstAt(was, value, 0);
        var _ := PopFront();
        return true;
      }
      var prev, cur := head, head.next;
      ghost var i := 1;
      assert head.next == After(spine, 0);
      while cur != null
        invariant 1 <= i <= |spine| && prev == spine[i - 1] && cur == if i < |spine| then spine[i] else null
        invariant forall j :: 0 <= j < i ==> was[j] != value
        decreases |spine| - i
        modifies {}
      {
        assert was[i] == cur.value;
        if cur.value == value {
          break;
        }
        prev := cur;
        cur := cur.next;
        i := i + 1;
      }
      if cur == null {
        RemoveFirstAbsent(was, value);
        return false;
      }
      RemoveFirstAt(was, value, i);
      UnlinkAfter(prev, cur, i);
      return true;
    }

    /** Frees every node of the chain, each exactly once and in order. */
    method Free()
      requires Valid()
      modifies this
      ensures Valid() && Contents() == []
      ensures freed == old(freed) + old(spine)
    {
      hide Ledger;
      LedgerFreeAll(spine, freed);
      var cur := head;
      ghost var i := 0;
      while cur != null
        invariant 0 <= i <= |spine| && cur == if i < |spine| then spine[i] else null
        invariant freed == old(freed) + spine[..i]
        decreases |spine| - i
        modifies `freed
      {
        var prev := cur;
        cur := cur.next;
        freed := freed + [prev];
        i := i + 1;
      }
      assert spine[..i] == spine;
      head, length := null, 0;
      spine := [];
    }
  }
}
