/**
 The sequential behaviour of `threadsafe_list<T>`: a valueless sentinel `head`
 node followed by a chain of nodes, each holding one value and owning its
 successor. The per-node mutexes are not modelled; each method below is the
 walk one thread performs when no other thread touches the list.

 The public view of a list is `Contents`, the values from the first node after
 the sentinel to the last node. `Nodes` is the chain itself, sentinel first,
 and `Repr` is the set of objects the list is made of.
 */
module ThreadsafeList {
  import opened ListSpec

  /** One slot of the chain. The sentinel has no value; every other node has one.
      The value is never reassigned after construction. */
  class Node<T> {
    const data: Option<T>
    var next: Node?<T>

    /** The sentinel: no value, no successor. */
    constructor Sentinel()
      ensures data == None && next == null
    {
      data := None;
      next := null;
    }

    /** A node holding `value`, not yet linked to a successor. */
    constructor (value: T)
      ensures data == Some(value) && next == null
    {
      data := Some(value);
      next := null;
    }
  }

  /** The objects of a chain of nodes. */
  ghost function Objects<T>(nodes: seq<Node<T>>): set<object>
  {
    set n | n in nodes
  }

  /** Each node of `nodes` links to the next one, and the last ends the chain. */
  ghost predicate Linked<T>(nodes: seq<Node<T>>)
    reads Objects(nodes)
  {
    |nodes| > 0 &&
    (forall i :: 0 <= i < |nodes| - 1 ==> nodes[i].next == nodes[i + 1]) &&
    nodes[|nodes| - 1].next == null
  }

  /** No node appears twice in `nodes`, so a linked chain has no cycle. */
  ghost predicate Distinct<T>(nodes: seq<Node<T>>)
  {
    forall i, j :: 0 <= i < j < |nodes| ==> nodes[i] != nodes[j]
  }

  /** The nodes after the first hold `contents`, one value each. */
  ghost predicate Holds<T>(nodes: seq<Node<T>>, contents: seq<T>)
  {
    |nodes| == |contents| + 1 &&
    forall i :: 0 <= i < |contents| ==> nodes[i + 1].data == Some(contents[i])
  }

  /** Dropping node `k + 1` from a chain of distinct nodes that hold `contents`
      drops value `k` from the contents and that one node from the objects. */
  lemma RemoveFromChain<T>(chain: seq<Node<T>>, contents: seq<T>, k: nat)
    requires k + 1 < |chain| && Distinct(chain) && Holds(chain, contents)
    ensures Distinct(chain[..k + 1] + chain[k + 2..])
    ensures Holds(chain[..k + 1] + chain[k + 2..], contents[..k] + contents[k + 1..])
    ensures Objects(chain[..k + 1] + chain[k + 2..]) == Objects(chain) - {chain[k + 1]}
  {
  }

  /** Once node `k` links past node `k + 1` and every other link is as before,
      the chain without node `k + 1` is linked. */
  lemma LinkedAfterUnlink<T>(chain: seq<Node<T>>, k: nat)
    requires k + 1 < |chain|
    requires forall i :: 0 <= i < |chain| - 1 && i != k ==> chain[i].next == chain[i + 1]
    requires chain[|chain| - 1].next == null
    requires chain[k].next == chain[k + 1].next
    ensures Linked(chain[..k + 1] + chain[k + 2..])
  {
  }

  /** One step of `remove_if`'s walk: `c` is the contents with the first `i`
      original values filtered into its first `k` places and the rest of the
      original values untouched after them. Testing original value `i` either
      drops it (a match) or moves it into the filtered prefix. */
  lemma RemovalStep<T>(before: seq<T>, i: nat, c: seq<T>, k: nat, p: T -> bool)
    requires i < |before| && k < |c|
    requires c[..k] == Survivors(before[..i], p) && c[k..] == before[i..]
    ensures c[k] == before[i]
    ensures p(c[k]) ==> (c[..k] + c[k + 1..])[..k] == Survivors(before[..i + 1], p)
    ensures p(c[k]) ==> (c[..k] + c[k + 1..])[k..] == before[i + 1..]
    ensures !p(c[k]) ==> c[..k + 1] == Survivors(before[..i + 1], p)
    ensures !p(c[k]) ==> c[k + 1..] == before[i + 1..]
  {
    assert c[k..][0] == before[i..][0];
    assert before[..i + 1][..i] == before[..i];
    assert c[..k + 1] == c[..k] + [c[k]];
    assert c[k + 1..] == c[k..][1..];
  }

  class ThreadsafeList<T> {
    const head: Node<T>
    ghost var Nodes: seq<Node<T>>
    ghost var Contents: seq<T>
    ghost var Repr: set<object>

    /** The chain starts at the valueless sentinel `head`, holds `Contents`
        after it, and the list is made of itself and its own nodes only. */
    ghost predicate Valid()
      reads this, Repr
    {
      this in Repr &&
      Repr == {this} + Objects(Nodes) &&
      Holds(Nodes, Contents) &&
      Nodes[0] == head && head.data == None &&
      Linked(Nodes) &&
      Distinct(Nodes)
    }

    /** A new list is the sentinel alone. */
    constructor ()
      ensures Valid() && fresh(Repr)
      ensures Contents == [] && Nodes == [head]
    {
      var h := new Node<T>.Sentinel();
      head := h;
      Nodes := [h];
      Contents := [];
      Repr := {this, h};
    }

    /** Splices a new node holding `value` in directly after the sentinel:
        the new node's successor is the old first node. */
    method PushFront(value: T)
      requires Valid()
      modifies Repr
      ensures Valid() && fresh(Repr - old(Repr))
      ensures Contents == [value] + old(Contents)
      ensures head.next != null && fresh(head.next) && head.next.next == old(head.next)
      ensures Nodes[2..] == old(Nodes[1..])
    {
      var n := new Node(value);
      n.next := head.next;
      head.next := n;
      Nodes := [head, n] + Nodes[1..];
      Contents := [value] + Contents;
      Repr := Repr + {n};
      assert Objects(Nodes) == Objects(old(Nodes)) + {n};
    }

    /** Walks the chain from the sentinel to the end, calling the visitor on
        each value. `visited` lists the values the visitor was called with, in
        call order; `state` is what the visitor's state has become. */
    method ForEach<S>(visit: (S, T) -> S, init: S) returns (state: S, visited: seq<T>)
      requires Valid()
      ensures visited == Contents
      ensures state == Visit(visit, init, visited)
    {
      var curr := head;
      ghost var k := 0;
      state, visited := init, [];
      while curr.next != null
        invariant 0 <= k < |Nodes| && curr == Nodes[k]
        invariant curr.next == if k + 1 < |Nodes| then Nodes[k + 1] else null
        invariant visited == Contents[..k]
        invariant state == Visit(visit, init, visited)
        decreases |Nodes| - k
      {
        var next := curr.next;
        assert next.data == Some(Contents[k]);
        var value := next.data.value;
        state := visit(state, value);
        visited := visited + [value];
        curr := next;
        k := k + 1;
      }
      assert Contents[..k] == Contents;
    }

    /** Walks the chain from the sentinel and answers with the first value
        satisfying `p`, or nothing when the walk reaches the end. */
    method FindFirstOf(p: T -> bool) returns (r: Option<T>)
      requires Valid()
      ensures r == FirstMatch(Contents, p)
    {
      var curr := head;
      ghost var k := 0;
      while curr.next != null
        invariant 0 <= k < |Nodes| && curr == Nodes[k]
        invariant curr.next == if k + 1 < |Nodes| then Nodes[k + 1] else null
        invariant forall j :: 0 <= j < k ==> !p(Contents[j])
        decreases |Nodes| - k
      {
        var next := curr.next;
        assert next.data == Some(Contents[k]);
        if p(next.data.value) {
          FirstMatchIsLowest(Contents, p, k);
          return Some(next.data.value);
        }
        curr := next;
        k := k + 1;
      }
      return None;
    }

    /** Walks the chain from the sentinel and unlinks every node whose value
        satisfies `p`. On a match `curr` stays put, so its new successor is
        tested next; otherwise `curr` moves on to the node just tested. */
    method RemoveIf(p: T -> bool)
      requires Valid()
      modifies Repr
      ensures Valid() && Repr <= old(Repr)
      ensures Contents == Survivors(old(Contents), p)
    {
      var curr := head;
      ghost var k := 0;
      ghost var i := 0;
      ghost var before := Contents;
      while curr.next != null
        invariant Valid() && Repr <= old(Repr)
        invariant 0 <= k < |Nodes| && curr == Nodes[k]
        invariant curr.next == if k + 1 < |Nodes| then Nodes[k + 1] else null
        invariant 0 <= i <= |before|
        invariant Contents[..k] == Survivors(before[..i], p)
        invariant Contents[k..] == before[i..]
        decreases |Nodes| - k
      {
        var next := curr.next;
        assert next.data == Some(Contents[k]);
        RemovalStep(before, i, Contents, k, p);
        if p(next.data.value) {
          UnlinkNext(curr, k);
        } else {
          curr := next;
          k := k + 1;
        }
        i := i + 1;
      }
      assert before[..|before|] == before;
    }

    /** Unlinks the node after `curr`, which is `Nodes[k]`: `curr`'s successor
        becomes the unlinked node's successor, and the unlinked node leaves the
        chain, the contents and the footprint. */
    method UnlinkNext(curr: Node<T>, ghost k: nat)
      requires Valid()
      requires k + 1 < |Nodes| && curr == Nodes[k]
      modifies Repr
      ensures Valid() && Repr == old(Repr) - {old(Nodes[k + 1])}
      ensures curr.next == old(Nodes[k + 1].next)
      ensures Nodes == old(Nodes[..k + 1] + Nodes[k + 2..])
      ensures Contents == old(Contents[..k] + Contents[k + 1..])
    {
      var next := curr.next;
      assert next == Nodes[k + 1];
      curr.next := next.next;
      ghost var chain := Nodes;
      forall i | 0 <= i < |chain| - 1 && i != k
        ensures chain[i].next == chain[i + 1]
      {
        assert chain[i] != curr;
      }
      LinkedAfterUnlink(chain, k);
      RemoveFromChain(chain, Contents, k);
      Nodes := Nodes[..k + 1] + Nodes[k + 2..];
      Contents := Contents[..k] + Contents[k + 1..];
      Repr := Repr - {next};
    }
  }
}
