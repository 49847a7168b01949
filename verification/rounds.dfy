/** The coordinator of the dining-philosophers simulation: reading the number
    of chopsticks, and the per-round loop that draws random philosopher
    numbers until each of the five has been invited exactly once. The random
    numbers are an input sequence of draws. */
module RoundSelection {
  import opened Wrappers
  import opened SeqFacts
  import Waiter

  /** The number of chopsticks is accepted when it lies in `[5, 10]`. */
  predicate Accepted(n: int)
  {
    Waiter.MinChopsticks <= n <= Waiter.MaxChopsticks
  }

  /** Reads numbers until one is accepted; `None` when the input runs out first. */
  method PromptCapacity(inputs: seq<int>) returns (n: Option<int>)
    ensures n.Some? ==> Accepted(n.value)
    ensures n.Some? ==> exists k :: 0 <= k < |inputs| && inputs[k] == n.value
                         && forall j | 0 <= j < k :: !Accepted(inputs[j])
    ensures n.None? <==> forall j | 0 <= j < |inputs| :: !Accepted(inputs[j])
  {
    var k := 0;
    while k < |inputs| && !Accepted(inputs[k])
      invariant k <= |inputs|
      invariant forall j | 0 <= j < k :: !Accepted(inputs[j])
    {
      k := k + 1;
    }
    if k == |inputs| {
      n := None;
    } else {
      n := Some(inputs[k]);
    }
  }

  /** A completed round: every philosopher number appears exactly once. */
  predicate IsRound(s: seq<int>)
  {
    && |s| == Waiter.Philosophers
    && NoDup(s)
    && forall p | 0 <= p < Waiter.Philosophers :: p in s
  }

  /** Reference definition of the selection list: the distinct draws, in the
      order of their first appearance. */
  function FirstOccurrences(draws: seq<int>): (r: seq<int>)
    ensures NoDup(r)
    ensures forall x :: x in r <==> x in draws
    ensures |r| <= |draws|
  {
    if |draws| == 0 then []
    else
      var d := FirstOccurrences(draws[..|draws| - 1]);
      var x := draws[|draws| - 1];
      assert forall y :: y in draws <==> y in draws[..|draws| - 1] || y == x;
      if x in d then d else d + [x]
  }

  /** Position of the first draw of `x`. */
  function FirstIndex(s: seq<int>, x: int): (k: nat)
    requires x in s
    ensures k < |s| && s[k] == x && x !in s[..k]
  {
    if s[0] == x then 0
    else
      var k := 1 + FirstIndex(s[1..], x);
      assert s[..k] == [s[0]] + s[1..][..k - 1];
      k
  }

  lemma FirstIndexUnique(s: seq<int>, x: int, k: nat)
    requires k < |s| && s[k] == x && x !in s[..k]
    ensures FirstIndex(s, x) == k
  {
  }

  /** The selection list is ordered by first appearance: a number comes
      before another exactly when its first draw comes earlier. */
  lemma {:induction false} FirstOccurrencesOrder(draws: seq<int>)
    ensures forall i, j | 0 <= i < |FirstOccurrences(draws)| && 0 <= j < |FirstOccurrences(draws)| ::
      i < j <==> FirstIndex(draws, FirstOccurrences(draws)[i]) < FirstIndex(draws, FirstOccurrences(draws)[j])
  {
    if |draws| > 0 {
      var last := |draws| - 1;
      var init := draws[..last];
      var d := FirstOccurrences(init);
      FirstOccurrencesOrder(init);
      forall y | y in init
        ensures FirstIndex(draws, y) == FirstIndex(init, y)
      {
        var k := FirstIndex(init, y);
        assert draws[..k] == init[..k];
        FirstIndexUnique(draws, y, k);
      }
      var x := draws[last];
      assert draws[..last] == init;
      var r := FirstOccurrences(draws);
      assert r == if x in d then d else d + [x];
      if x !in d {
        FirstIndexUnique(draws, x, last);
      }
      forall i, j | 0 <= i < |r| && 0 <= j < |r|
        ensures i < j <==> FirstIndex(draws, r[i]) < FirstIndex(draws, r[j])
      {
        if i < |d| {
          assert r[i] == d[i] && d[i] in d && d[i] in init;
          assert FirstIndex(draws, r[i]) == FirstIndex(init, d[i]) < last;
        }
        if j < |d| {
          assert r[j] == d[j] && d[j] in d && d[j] in init;
          assert FirstIndex(draws, r[j]) == FirstIndex(init, d[j]) < last;
        }
        if i < |d| && j < |d| {
          assert i < j <==> FirstIndex(init, d[i]) < FirstIndex(init, d[j]);
        }
        if i == |d| {
          assert r[i] == x && FirstIndex(draws, x) == last;
        }
        if j == |d| {
          assert r[j] == x && FirstIndex(draws, x) == last;
        }
      }
    }
  }

  /** One round of the coordinator's selection loop. It stops when five
      philosophers are selected or the draws run out. */
  method SelectRound(draws: seq<int>) returns (selected: seq<int>, used: nat)
    requires InRange(draws, Waiter.Philosophers)
    ensures used <= |draws|
    ensures selected == FirstOccurrences(draws[..used])
    ensures NoDup(selected) && InRange(selected, Waiter.Philosophers)
    ensures |selected| <= Waiter.Philosophers
    ensures |selected| == Waiter.Philosophers || used == |draws|
    ensures forall k | 0 <= k < used :: |FirstOccurrences(draws[..k])| < Waiter.Philosophers
    ensures IsRound(selected) <==> |selected| == Waiter.Philosophers
  {
    selected := [];
    var count := 0;
    used := 0;
    while count < Waiter.Philosophers && used < |draws|
      invariant used <= |draws|
      invariant selected == FirstOccurrences(draws[..used])
      invariant count == |selected| <= Waiter.Philosophers
      invariant InRange(selected, Waiter.Philosophers)
      invariant StillOpen(draws, used)
    {
      var num := draws[used];
      SelectStep(draws, used, selected);
      StillOpenStep(draws, used);
      if num !in selected {
        AppendInRange(selected, num, Waiter.Philosophers);
        selected := selected + [num];
        count := count + 1;
      }
      used := used + 1;
      Pigeonhole(selected, Waiter.Philosophers);
    }
    RoundWhenFull(selected);
  }

  /** No prefix of the first `used` draws completed a round. */
  ghost predicate StillOpen(draws: seq<int>, used: nat)
    requires used <= |draws|
  {
    forall k | 0 <= k < used :: |FirstOccurrences(draws[..k])| < Waiter.Philosophers
  }

  lemma StillOpenStep(draws: seq<int>, used: nat)
    requires used < |draws| && StillOpen(draws, used)
    requires |FirstOccurrences(draws[..used])| < Waiter.Philosophers
    ensures StillOpen(draws, used + 1)
  {
  }

  /** Distinct philosopher numbers form a round exactly when there are five. */
  lemma RoundWhenFull(s: seq<int>)
    requires NoDup(s) && InRange(s, Waiter.Philosophers)
    ensures IsRound(s) <==> |s| == Waiter.Philosophers
  {
    Pigeonhole(s, Waiter.Philosophers);
  }

  /** One more draw extends the selection list exactly when it is new. */
  lemma SelectStep(draws: seq<int>, used: nat, selected: seq<int>)
    requires used < |draws| && selected == FirstOccurrences(draws[..used])
    ensures FirstOccurrences(draws[..used + 1])
         == if draws[used] in selected then selected else selected + [draws[used]]
  {
    assert draws[..used + 1][..used] == draws[..used];
  }

  /** `draws[lo..hi]` is one round's share of the draws: the selection list
      is `order`, and no earlier cut point had completed the round. */
  ghost predicate Segment(draws: seq<int>, lo: nat, hi: nat, order: seq<int>)
  {
    && lo <= hi <= |draws|
    && order == FirstOccurrences(draws[lo..hi])
    && forall k | lo <= k < hi :: |FirstOccurrences(draws[lo..k])| < Waiter.Philosophers
  }

  /** The coordinator's outer loop: `rounds` rounds, the selection list cleared
      before each. Round `r` consumes the draws between `cuts[r]` and
      `cuts[r + 1]`, and every round but the one where the draws ran out is
      complete. */
  method InviteRounds(draws: seq<int>, rounds: nat) returns (orders: seq<seq<int>>, cuts: seq<nat>)
    requires InRange(draws, Waiter.Philosophers)
    ensures |orders| <= rounds
    ensures |cuts| == |orders| + 1 && cuts[0] == 0
    ensures forall r | 0 <= r < |orders| :: Segment(draws, cuts[r], cuts[r + 1], orders[r])
    ensures forall r | 0 <= r < |orders| :: NoDup(orders[r]) && InRange(orders[r], Waiter.Philosophers)
    ensures forall r | 0 <= r < |orders| - 1 :: IsRound(orders[r])
    ensures |orders| < rounds ==> |orders| > 0 && !IsRound(orders[|orders| - 1]) && cuts[|orders|] == |draws|
    ensures |orders| > 0 && !IsRound(orders[|orders| - 1]) ==> cuts[|orders|] == |draws|
  {
    orders := [];
    cuts := [0];
    var complete := true;
    while |orders| < rounds && complete
      invariant |orders| <= rounds
      invariant |cuts| == |orders| + 1 && cuts[0] == 0 && cuts[|orders|] <= |draws|
      invariant forall r | 0 <= r < |orders| :: Segment(draws, cuts[r], cuts[r + 1], orders[r])
      invariant forall r | 0 <= r < |orders| :: NoDup(orders[r]) && InRange(orders[r], Waiter.Philosophers)
      invariant complete <==> forall r | 0 <= r < |orders| :: IsRound(orders[r])
      invariant forall r | 0 <= r < |orders| - 1 :: IsRound(orders[r])
      invariant !complete ==> cuts[|orders|] == |draws|
    {
      var start := cuts[|orders|];
      var rest := draws[start..];
      assert InRange(rest, Waiter.Philosophers) by {
        assert forall i | 0 <= i < |rest| :: rest[i] == draws[start + i];
      }
      var selected, used := SelectRound(rest);
      RestSegment(draws, start, used, selected);
      assert forall r | 0 <= r < |orders| :: IsRound(orders[r]);
      orders := orders + [selected];
      cuts := cuts + [start + used];
      complete := IsRound(selected);
      assert orders[|orders| - 1] == selected;
    }
  }

  /** A round run on the draws after `start` is the segment from `start`. */
  lemma RestSegment(draws: seq<int>, start: nat, used: nat, selected: seq<int>)
    requires start + used <= |draws|
    requires selected == FirstOccurrences(draws[start..][..used])
    requires forall k | 0 <= k < used :: |FirstOccurrences(draws[start..][..k])| < Waiter.Philosophers
    ensures Segment(draws, start, start + used, selected)
  {
    assert draws[start..][..used] == draws[start..start + used];
    forall k | start <= k < start + used
      ensures |FirstOccurrences(draws[start..k])| < Waiter.Philosophers
    {
      assert draws[start..][..k - start] == draws[start..k];
    }
  }
}
