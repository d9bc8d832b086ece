/**
 The abstract meaning of the list's operations, stated over the sequence of
 values that the chain holds from the first node after the sentinel to the
 last node:
 - `Visit`: the state a visitor reaches after being called on each value in order;
 - `MatchIndex` / `FirstMatch`: the lowest position whose value satisfies a
   predicate, and the value there (or nothing);
 - `Survivors`: the values that `remove_if` leaves, in their original order.
 */
module ListSpec {

  datatype Option<T> = None | Some(value: T)

  /* ---------------------------------------------------------------------
     Visiting
     --------------------------------------------------------------------- */

  /** The state of a visitor that starts in `init` and is called on each
      value of `s` in turn, front to back. */
  function Visit<S, T>(visit: (S, T) -> S, init: S, s: seq<T>): S
    decreases |s|
  {
    if s == [] then init else visit(Visit(visit, init, s[..|s| - 1]), s[|s| - 1])
  }

  /** Visiting a list whose front is `v` first feeds `v` to the visitor and
      then visits the rest: this is what `for_each` sees after `push_front(v)`. */
  lemma {:induction false} VisitFront<S, T>(visit: (S, T) -> S, init: S, v: T, s: seq<T>)
    ensures Visit(visit, init, [v] + s) == Visit(visit, visit(init, v), s)
    decreases |s|
  {
    if s == [] {
      assert ([v] + s)[..|[v] + s| - 1] == [];
    } else {
      var n := |s|;
      assert ([v] + s)[..n] == [v] + s[..n - 1];
      VisitFront(visit, init, v, s[..n - 1]);
    }
  }

  /** Visiting a concatenation visits the first part and carries on with the second. */
  lemma {:induction false} VisitConcat<S, T>(visit: (S, T) -> S, init: S, a: seq<T>, b: seq<T>)
    ensures Visit(visit, init, a + b) == Visit(visit, Visit(visit, init, a), b)
    decreases |b|
  {
    if b == [] {
      assert a + b == a;
    } else {
      var n := |b|;
      assert (a + b)[..|a + b| - 1] == a + b[..n - 1];
      VisitConcat(visit, init, a, b[..n - 1]);
    }
  }

  /** A visitor that records its argument ends with exactly the visited values,
      each once and in order, after whatever it had recorded before. */
  lemma {:induction false} RecordingVisitor<T>(before: seq<T>, s: seq<T>)
    ensures Visit((acc: seq<T>, x: T) => acc + [x], before, s) == before + s
    decreases |s|
  {
    if s != [] {
      var n := |s|;
      RecordingVisitor(before, s[..n - 1]);
      assert before + s[..n - 1] + [s[n - 1]] == before + s;
    }
  }

  /* ---------------------------------------------------------------------
     First match
     --------------------------------------------------------------------- */

  /** The lowest index of `s` whose value satisfies `p`, or `|s|` when none does. */
  function MatchIndex<T>(s: seq<T>, p: T -> bool): (i: nat)
    ensures i <= |s|
    ensures i < |s| ==> p(s[i])
    ensures forall j :: 0 <= j < i ==> !p(s[j])
    decreases |s|
  {
    if s == [] then 0
    else if p(s[0]) then 0
    else 1 + MatchIndex(s[1..], p)
  }

  /** The first value of `s` satisfying `p`, if there is one. */
  function FirstMatch<T>(s: seq<T>, p: T -> bool): (r: Option<T>)
    ensures r.None? <==> forall j :: 0 <= j < |s| ==> !p(s[j])
    ensures r.Some? ==> p(r.value) && r.value in s
  {
    var i := MatchIndex(s, p);
    if i < |s| then Some(s[i]) else None
  }

  /** `FirstMatch` answers with the value at the lowest matching index: any index
      `k` whose value matches, with no match before it, holds the answer. */
  lemma FirstMatchIsLowest<T>(s: seq<T>, p: T -> bool, k: nat)
    requires k < |s| && p(s[k])
    requires forall j :: 0 <= j < k ==> !p(s[j])
    ensures FirstMatch(s, p) == Some(s[k])
  {
  }

  /** Searching a list whose front is `v`: `v` itself if it matches, else the
      first match among the rest. */
  lemma FirstMatchFront<T>(v: T, s: seq<T>, p: T -> bool)
    ensures FirstMatch([v] + s, p) == if p(v) then Some(v) else FirstMatch(s, p)
  {
  }

  /* ---------------------------------------------------------------------
     Removal
     --------------------------------------------------------------------- */

  /** The values of `s` that do not satisfy `p`, in their order in `s`. */
  function Survivors<T>(s: seq<T>, p: T -> bool): (r: seq<T>)
    ensures |r| <= |s|
    ensures forall j :: 0 <= j < |r| ==> !p(r[j])
    decreases |s|
  {
    if s == [] then []
    else
      var rest := Survivors(s[..|s| - 1], p);
      if p(s[|s| - 1]) then rest else rest + [s[|s| - 1]]
  }

  /** A value survives exactly when it was present and does not satisfy `p`. */
  lemma {:induction false} SurvivorsMembership<T>(s: seq<T>, p: T -> bool, x: T)
    ensures x in Survivors(s, p) <==> x in s && !p(x)
    decreases |s|
  {
    if s != [] {
      var n := |s|;
      SurvivorsMembership(s[..n - 1], p, x);
      assert s == s[..n - 1] + [s[n - 1]];
    }
  }

  /** Removal keeps the relative order of the survivors: it acts on each part
      of a concatenation separately. */
  lemma {:induction false} SurvivorsConcat<T>(a: seq<T>, b: seq<T>, p: T -> bool)
    ensures Survivors(a + b, p) == Survivors(a, p) + Survivors(b, p)
    decreases |b|
  {
    if b == [] {
      assert a + b == a;
    } else {
      var n := |b|;
      assert (a + b)[..|a + b| - 1] == a + b[..n - 1];
      SurvivorsConcat(a, b[..n - 1], p);
    }
  }

  /** Removal from a list whose front is `v`. */
  lemma SurvivorsFront<T>(v: T, s: seq<T>, p: T -> bool)
    ensures Survivors([v] + s, p) == (if p(v) then [] else [v]) + Survivors(s, p)
  {
    SurvivorsConcat([v], s, p);
    assert [v][..0] == [];
  }

  /** Removing with a predicate that no value satisfies changes nothing. */
  lemma {:induction false} SurvivorsNoMatch<T>(s: seq<T>, p: T -> bool)
    requires forall j :: 0 <= j < |s| ==> !p(s[j])
    ensures Survivors(s, p) == s
    decreases |s|
  {
    if s != [] {
      var n := |s|;
      SurvivorsNoMatch(s[..n - 1], p);
      assert s[..n - 1] + [s[n - 1]] == s;
    }
  }

  /** Removing twice with the same predicate is the same as removing once. */
  lemma SurvivorsIdempotent<T>(s: seq<T>, p: T -> bool)
    ensures Survivors(Survivors(s, p), p) == Survivors(s, p)
  {
  }

  /** Two removals in a row remove whatever satisfies either predicate. */
  lemma {:induction false} SurvivorsCompose<T>(s: seq<T>, p: T -> bool, q: T -> bool)
    ensures Survivors(Survivors(s, p), q) == Survivors(s, x => p(x) || q(x))
    decreases |s|
  {
    if s != [] {
      var n := |s|;
      var init := s[..n - 1];
      SurvivorsCompose(init, p, q);
      if !p(s[n - 1]) {
        SurvivorsConcat(Survivors(init, p), [s[n - 1]], q);
        assert [s[n - 1]][..0] == [];
      }
    }
  }

  /** Nothing is lost or duplicated: the survivors and the removed values
      together are the original values. */
  lemma {:induction false} SurvivorsPartition<T>(s: seq<T>, p: T -> bool)
    ensures multiset(Survivors(s, p)) + multiset(Survivors(s, x => !p(x))) == multiset(s)
    decreases |s|
  {
    if s != [] {
      var n := |s|;
      SurvivorsPartition(s[..n - 1], p);
      assert s == s[..n - 1] + [s[n - 1]];
    }
  }
}
