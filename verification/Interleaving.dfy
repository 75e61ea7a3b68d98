// Atomic steps run by goroutines in an order nobody fixes.
module Interleaving {
  import opened Basics

  function Run<S, O>(step: (S, O) -> S, s: S, ops: seq<O>): S
    decreases |ops|
  {
    if ops == [] then s else Run(step, step(s, ops[0]), ops[1..])
  }

  ghost predicate Commute<S(!new), O>(step: (S, O) -> S, a: O, b: O)
  {
    forall s :: step(step(s, a), b) == step(step(s, b), a)
  }

  ghost predicate PairwiseCommute<S(!new), O>(step: (S, O) -> S, ops: seq<O>)
  {
    forall i, j :: 0 <= i < j < |ops| ==> Commute(step, ops[i], ops[j])
  }

  lemma RunTwo<S, O>(step: (S, O) -> S, s: S, a: O, b: O, rest: seq<O>)
    ensures Run(step, s, [a] + rest) == Run(step, step(s, a), rest)
    ensures Run(step, s, [a, b] + rest) == Run(step, step(step(s, a), b), rest)
  {
    assert ([a] + rest)[1..] == rest;
    assert ([a, b] + rest)[1..] == [b] + rest;
    assert ([b] + rest)[1..] == rest;
  }

  lemma {:induction false} RunAppend<S, O>(step: (S, O) -> S, s: S, a: seq<O>, b: seq<O>)
    ensures Run(step, s, a + b) == Run(step, Run(step, s, a), b)
    decreases |a|
  {
    if a == [] {
      assert a + b == b;
    } else {
      assert (a + b)[1..] == a[1..] + b;
      RunAppend(step, step(s, a[0]), a[1..], b);
    }
  }

  lemma {:induction false} MoveToFront<S(!new), O>(step: (S, O) -> S, s: S, ops: seq<O>, i: nat)
    requires i < |ops|
    requires forall j :: 0 <= j < i ==> Commute(step, ops[j], ops[i])
    ensures Run(step, s, ops) == Run(step, s, [ops[i]] + Without(ops, i))
    decreases i
  {
    if i == 0 {
      assert [ops[0]] + Without(ops, 0) == ops;
    } else {
      var rest := ops[1..];
      var tail := Without(rest, i - 1);
      assert ops[i] == rest[i - 1];
      forall j | 0 <= j < i - 1
        ensures Commute(step, rest[j], rest[i - 1])
      {
        assert rest[j] == ops[j + 1];
      }
      MoveToFront(step, step(s, ops[0]), rest, i - 1);
      RunTwo(step, step(s, ops[0]), ops[i], ops[i], tail);
      assert Commute(step, ops[0], ops[i]);
      RunTwo(step, s, ops[i], ops[0], tail);
      assert [ops[i]] + Without(ops, i) == [ops[i], ops[0]] + tail;
    }
  }

  lemma CommuteWithout<S(!new), O>(step: (S, O) -> S, ops: seq<O>, i: nat)
    requires i < |ops| && PairwiseCommute(step, ops)
    ensures PairwiseCommute(step, Without(ops, i))
  {
    var r := Without(ops, i);
    forall j, k | 0 <= j < k < |r|
      ensures Commute(step, r[j], r[k])
    {
      assert r[j] == ops[if j < i then j else j + 1];
      assert r[k] == ops[if k < i then k else k + 1];
    }
  }

  // If the steps commute pairwise, every schedule ends in the same state.
  lemma {:induction false} AnyOrder<S(!new), O>(step: (S, O) -> S, s: S, ops: seq<O>, order: seq<O>)
    requires PairwiseCommute(step, ops)
    requires multiset(order) == multiset(ops)
    ensures Run(step, s, order) == Run(step, s, ops)
    decreases |order|
  {
    if order == [] {
      assert |ops| == |multiset(ops)| == 0;
    } else {
      assert order[0] in multiset(order);
      var i :| 0 <= i < |ops| && ops[i] == order[0];
      var rest := Without(ops, i);
      MoveToFront(step, s, ops, i);
      CommuteWithout(step, ops, i);
      assert order == [order[0]] + order[1..];
      assert multiset(order[1..]) == multiset(order) - multiset{order[0]};
      assert multiset(rest) == multiset(ops) - multiset{ops[i]};
      AnyOrder(step, step(s, order[0]), rest, order[1..]);
      RunTwo(step, s, ops[i], ops[i], rest);
    }
  }
}
