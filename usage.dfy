/**
 A single-threaded client of `ThreadsafeList`, proved from the methods'
 contracts alone: push 3, 1, 4, 1, 5 to the front, walk, search and remove.
 */
module ListUsage {
  import opened ListSpec
  import opened ThreadsafeList

  predicate IsOne(x: int) { x == 1 }
  predicate IsNine(x: int) { x == 9 }
  predicate Never(x: int) { false }

  /** A visitor that counts its calls. */
  function Count<T>(calls: nat, x: T): nat { calls + 1 }

  /** The counting visitor is called once per value. */
  lemma {:induction false} CountingVisitor<T>(s: seq<T>)
    ensures Visit(Count, 0, s) == |s|
    decreases |s|
  {
    if s != [] {
      CountingVisitor(s[..|s| - 1]);
    }
  }

  /** Searching 5, 1, 4, 1, 3 finds the 1 at position 1 and no 9. */
  lemma SearchExample()
    ensures FirstMatch([5, 1, 4, 1, 3], IsOne) == Some(1)
    ensures FirstMatch([5, 1, 4, 1, 3], IsNine) == None
  {
  }

  /** Removing every 1 from 5, 1, 4, 1, 3 leaves 5, 4, 3. */
  lemma RemovalExample()
    ensures Survivors([5, 1, 4, 1, 3], IsOne) == [5, 4, 3]
  {
    SurvivorsFront(3, [], IsOne);
    assert [3] == [3] + [];
    SurvivorsFront(1, [3], IsOne);
    assert [1, 3] == [1] + [3];
    SurvivorsFront(4, [1, 3], IsOne);
    assert [4, 1, 3] == [4] + [1, 3];
    SurvivorsFront(1, [4, 1, 3], IsOne);
    assert [1, 4, 1, 3] == [1] + [4, 1, 3];
    SurvivorsFront(5, [1, 4, 1, 3], IsOne);
    assert [5, 1, 4, 1, 3] == [5] + [1, 4, 1, 3];
  }

  /** Pushes 3, 1, 4, 1, 5 to the front of a new list. */
  method Build() returns (list: ThreadsafeList<int>)
    ensures list.Valid() && fresh(list.Repr) && list.Contents == [5, 1, 4, 1, 3]
  {
    list := BuildThree();
    list.PushFront(1);
    list.PushFront(5);
  }

  /** Pushes 3, 1, 4 to the front of a new list. */
  method BuildThree() returns (list: ThreadsafeList<int>)
    ensures list.Valid() && fresh(list.Repr) && list.Contents == [4, 1, 3]
  {
    list := new ThreadsafeList<int>();
    list.PushFront(3);
    list.PushFront(1);
    list.PushFront(4);
  }

  /** The list walks the pushed values most recent first, calling the visitor
      once per value; the search finds the first 1 and no 9; removing every 1
      leaves 5, 4, 3 in order; removing with a predicate that matches nothing
      changes nothing. */
  method PushFindRemove() returns (order: seq<int>, calls: nat, found1: Option<int>, found9: Option<int>,
                                   afterRemoval: seq<int>, afterNoop: seq<int>)
    ensures order == [5, 1, 4, 1, 3] && calls == 5
    ensures found1 == Some(1) && found9 == None
    ensures afterRemoval == [5, 4, 3]
    ensures afterNoop == afterRemoval
  {
    var list := Build();
    calls, order := list.ForEach(Count, 0);
    CountingVisitor(order);

    found1 := list.FindFirstOf(IsOne);
    found9 := list.FindFirstOf(IsNine);
    SearchExample();

    list.RemoveIf(IsOne);
    RemovalExample();
    var ignored: nat;
    ignored, afterRemoval := list.ForEach(Count, 0);

    list.RemoveIf(Never);
    SurvivorsNoMatch(afterRemoval, Never);
    ignored, afterNoop := list.ForEach(Count, 0);
  }
}
