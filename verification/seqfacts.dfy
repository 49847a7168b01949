/** Facts about sequences shared by the FIFO models. */
module SeqFacts {
  /** Two FIFO steps compose: if each step hands out `taken` and leaves a
      backlog equal to the previous backlog plus what was put in, so does
      the pair. */
  lemma Chain<T>(taken1: seq<T>, taken2: seq<T>, c0: seq<T>, c1: seq<T>, c2: seq<T>, put1: seq<T>, put2: seq<T>)
    requires taken1 + c1 == c0 + put1
    requires taken2 + c2 == c1 + put2
    ensures (taken1 + taken2) + c2 == c0 + (put1 + put2)
  {
    calc {
      (taken1 + taken2) + c2;
      taken1 + (c1 + put2);
      (c0 + put1) + put2;
    }
  }

  predicate NoDup(s: seq<int>)
  {
    forall i, j | 0 <= i < j < |s| :: s[i] != s[j]
  }

  predicate InRange(s: seq<int>, k: int)
  {
    forall i | 0 <= i < |s| :: 0 <= s[i] < k
  }

  lemma NoDupAppend(s: seq<int>, x: int)
    requires NoDup(s) && x !in s
    ensures NoDup(s + [x])
  {
    assert forall i | 0 <= i < |s| :: (s + [x])[i] == s[i];
  }

  lemma AppendInRange(s: seq<int>, x: int, k: int)
    requires InRange(s, k) && 0 <= x < k
    ensures InRange(s + [x], k)
  {
    assert forall i | 0 <= i < |s| :: (s + [x])[i] == s[i];
  }

  lemma NonEmptyRange(s: seq<int>, k: int)
    requires InRange(s, k)
    ensures |s| > 0 ==> k > 0
  {
    if |s| > 0 {
      assert 0 <= s[0] < k;
    }
  }

  /** Removing the occurrence of `k - 1` from distinct numbers below `k`
      leaves distinct numbers below `k - 1`, all taken from `s`. */
  lemma RemoveTop(s: seq<int>, k: int, j: nat)
    requires NoDup(s) && InRange(s, k) && j < |s| && s[j] == k - 1
    ensures var rest := s[..j] + s[j + 1..];
      && |rest| + 1 == |s|
      && NoDup(rest) && InRange(rest, k - 1)
      && forall x :: x in rest ==> x in s
  {
    var rest := s[..j] + s[j + 1..];
    assert forall i | 0 <= i < |rest| :: rest[i] == if i < j then s[i] else s[i + 1];
  }

  /** Pigeonhole: distinct numbers below `k` number at most `k`, and exactly
      `k` of them means every number below `k` is present. */
  lemma {:induction false} Pigeonhole(s: seq<int>, k: nat)
    requires NoDup(s) && InRange(s, k)
    ensures |s| <= k
    ensures |s| == k ==> forall x | 0 <= x < k :: x in s
  {
    if k == 0 {
      NonEmptyRange(s, k);
    } else if k - 1 in s {
      var j :| 0 <= j < |s| && s[j] == k - 1;
      var rest := s[..j] + s[j + 1..];
      RemoveTop(s, k, j);
      Pigeonhole(rest, k - 1);
      if |s| == k {
        assert forall x | 0 <= x < k - 1 :: x in rest;
      }
    } else {
      assert InRange(s, k - 1);
      Pigeonhole(s, k - 1);
    }
  }

  /** Number of `true` entries. */
  function CountTrue(s: seq<bool>): nat
  {
    if |s| == 0 then 0 else CountTrue(s[..|s| - 1]) + (if s[|s| - 1] then 1 else 0)
  }

  lemma {:induction false} CountTrueStop(s: seq<bool>, k: nat)
    requires k < |s| && s[k]
    ensures CountTrue(s[k := false]) + 1 == CountTrue(s)
  {
    var last := |s| - 1;
    if k == last {
      assert s[k := false][..last] == s[..last];
    } else {
      assert s[k := false][..last] == s[..last][k := false];
      CountTrueStop(s[..last], k);
    }
  }

  lemma {:induction false} CountTrueZero(s: seq<bool>)
    ensures CountTrue(s) == 0 <==> forall k | 0 <= k < |s| :: !s[k]
  {
    if |s| > 0 {
      var last := |s| - 1;
      CountTrueZero(s[..last]);
      assert forall k | 0 <= k < last :: s[..last][k] == s[k];
    }
  }

  lemma {:induction false} CountTrueAll(n: nat)
    ensures CountTrue(seq(n, _ => true)) == n
  {
    if n > 0 {
      assert seq(n, _ => true)[..n - 1] == seq(n - 1, _ => true);
      CountTrueAll(n - 1);
    }
  }
}
