/** The prime-counting program: trial division by 6k-1 and 6k+1, the
    "leapfrog" split of array indices among worker threads, and the final
    prime/composite tally. Threads are run one after another; they write
    disjoint indices, so the order does not matter. */
module Primes {
  import opened SeqFacts

  /** The range of the generated values. */
  const Lowest := 100000000
  const Highest := 999999999

  /** Reference definition: `n` has a divisor strictly between 1 and itself. */
  ghost predicate Composite(n: int)
  {
    n > 1 && exists d :: 1 < d < n && n % d == 0
  }

  lemma MulAtLeast(n: int, x: int)
    requires n > 0
    ensures x >= 1 ==> n * x >= n
  {
    if x >= 1 {
      var y := x - 1;
      assert n * x == n * y + n;
      assert n * y >= 0;
    }
  }

  /** Euclidean division is unique: quotient and remainder are determined. */
  lemma DivModUnique(a: int, n: int, q: int, r: int)
    requires n > 0 && 0 <= r < n && a == n * q + r
    ensures a / n == q && a % n == r
  {
    var q' := a / n;
    var r' := a % n;
    assert a == n * q' + r';
    assert n * (q - q') == r' - r;
    assert n * (q' - q) == r - r';
    MulAtLeast(n, q - q');
    MulAtLeast(n, q' - q);
  }

  /** No divisor strictly between 1 and `i`. */
  ghost predicate NoDivisorBelow(n: int, i: int)
  {
    forall d :: 1 < d < i ==> n % d != 0
  }

  /** A multiple of a multiple of `k` is a multiple of `k`. */
  lemma DivisorOfDivisor(n: int, d: int, k: int)
    requires d > 0 && k > 0 && d % k == 0
    ensures n % d == 0 ==> n % k == 0
  {
    if n % d == 0 {
      var q := n / d;
      var r := d / k;
      assert n == d * q;
      assert d == k * r;
      var m := r * q;
      assert d * q == k * m;
      DivModUnique(n, k, m, 0);
    }
  }

  lemma MulMonotone(a: int, b: int, c: int)
    requires b >= 0 && c >= 0
    ensures a >= b ==> a * c >= b * c
  {
    assert a * c - b * c == (a - b) * c;
    if a >= b {
      assert (a - b) * c >= 0;
    }
  }

  lemma MulSign(a: int, b: int)
    requires a > 0
    ensures b <= 0 ==> a * b <= 0
  {
    if b <= 0 {
      MulMonotone(a, 0, -b);
      assert a * (-b) == -(a * b);
    }
  }

  /** The cofactor of a proper divisor is a proper divisor too. */
  lemma Cofactor(n: int, d: int) returns (e: int)
    requires 1 < d < n && n % d == 0
    ensures 1 < e < n && n % e == 0 && d * e == n
  {
    e := n / d;
    assert n == d * e;
    MulSign(d, e);
    assert e != 1;
    MulMonotone(d, 2, e);
    assert n == e * d;
    DivModUnique(n, e, d, 0);
  }

  /** A composite number has a divisor no larger than its square root. */
  lemma NoSmallDivisor(n: int, i: int)
    requires n > 1 && i > 1 && i * i > n
    requires NoDivisorBelow(n, i)
    ensures !Composite(n)
  {
    if Composite(n) {
      var d :| 1 < d < n && n % d == 0;
      var e := Cofactor(n, d);
      assert d >= i && e >= i;
      MulMonotone(d, i, e);
      MulMonotone(e, i, i);
      assert false;
    }
  }

  /** A witness divisor makes a number composite. */
  lemma Witness(n: int, d: int)
    requires 1 < d < n && n % d == 0
    ensures Composite(n)
  {
  }

  lemma SquareBound(i: int, n: int)
    requires i >= 5 && i * i <= n
    ensures i + 2 < n
  {
    MulMonotone(i, 2, i);
  }

  /** One round of the loop: with `n` odd and not a multiple of 3, testing
      `i` and `i + 2` rules out every divisor below `i + 6`. */
  lemma SixStep(n: int, i: int)
    requires i >= 5 && i % 6 == 5 && n % 2 != 0 && n % 3 != 0
    requires n % i != 0 && n % (i + 2) != 0
    requires NoDivisorBelow(n, i)
    ensures NoDivisorBelow(n, i + 6)
  {
    forall d | 1 < d < i + 6
      ensures n % d != 0
    {
      if d == i + 1 || d == i + 3 || d == i + 5 {
        DivisorOfDivisor(n, d, 2);
      } else if d == i + 4 {
        DivisorOfDivisor(n, d, 3);
      }
    }
  }

  /** `isComposite`: trial division skipping multiples of 2 and 3. */
  method IsComposite(n: int) returns (r: bool)
    ensures r <==> Composite(n)
    ensures n <= 3 ==> !r
    ensures n > 3 && (n % 2 == 0 || n % 3 == 0) ==> r
  {
    if n <= 1 {
      return false;
    }
    if n <= 3 {
      NoSmallDivisor(n, 2);
      return false;
    }
    if n % 2 == 0 || n % 3 == 0 {
      Witness(n, if n % 2 == 0 then 2 else 3);
      return true;
    }
    r := TrialDivision(n);
  }

  /** The loop of `isComposite`: candidates `i` and `i + 2` for `i = 5, 11,
      17, ...` while `i * i <= n`. */
  method TrialDivision(n: int) returns (r: bool)
    requires n > 3 && n % 2 != 0 && n % 3 != 0
    ensures r <==> Composite(n)
  {
    var i := 5;
    while i * i <= n
      invariant 5 <= i && i % 6 == 5
      invariant NoDivisorBelow(n, i)
      decreases n - i
    {
      SquareBound(i, n);
      if n % i == 0 || n % (i + 2) == 0 {
        Witness(n, if n % i == 0 then i else i + 2);
        return true;
      }
      SixStep(n, i);
      i := i + 6;
    }
    NoSmallDivisor(n, i);
    return false;
  }

  /** `generateArray`'s element: `abs(100000000 + rand() % 900000000)` for a
      random value `rand` that is never negative. */
  function NineDigit(rand: nat): (v: int)
    ensures Lowest <= v <= Highest
  {
    var x := Lowest + rand % (Highest - Lowest + 1);
    if x < 0 then -x else x
  }

  /** The `(n * k + id) % n == id` arithmetic behind the leapfrog split. */
  lemma LeapfrogIndex(n: int, k: int, id: int)
    requires n >= 1 && 0 <= id < n && k >= 0
    ensures (n * k + id) % n == id && (n * k + id) / n == k
  {
    DivModUnique(n * k + id, n, k, id);
  }

  /** An index with remainder `id` below `size` is among those visited. */
  lemma LeapfrogReaches(n: nat, id: nat, size: nat, visited: seq<nat>, x: nat)
    requires n >= 1 && id < n
    requires forall k | 0 <= k < |visited| :: visited[k] == n * k + id
    requires n * |visited| + id >= size
    requires x < size && x % n == id
    ensures x in visited
  {
    var k := x / n;
    assert x == n * k + id;
    var v := |visited|;
    MulMonotone(k, v, n);
    assert n * k == k * n && n * v == v * n;
    assert k < v;
    assert visited[k] == x;
  }

  /** The indices `id, id + n, id + 2n, ...` below `size` are exactly the
      indices below `size` whose remainder modulo `n` is `id`. */
  lemma LeapfrogMembers(n: nat, id: nat, size: nat, visited: seq<nat>)
    requires n >= 1 && id < n
    requires forall k | 0 <= k < |visited| :: visited[k] == n * k + id < size
    requires n * |visited| + id >= size
    ensures forall x: nat :: x in visited <==> x < size && x % n == id
  {
    forall x: nat
      ensures x in visited <==> x < size && x % n == id
    {
      if x in visited {
        var k :| 0 <= k < |visited| && visited[k] == x;
        LeapfrogIndex(n, k, id);
      }
      if x < size && x % n == id {
        LeapfrogReaches(n, id, size, visited, x);
      }
    }
  }

  /** The worker thread `id` of `n`: visits indices `id, id + n, id + 2n, ...`
      below the array size and stores `isComposite` of each element there. */
  method Worker(numbers: seq<int>, results: seq<bool>, id: nat, n: nat)
    returns (out: seq<bool>, visited: seq<nat>)
    requires n >= 1 && id < n && |results| == |numbers|
    ensures |out| == |results|
    ensures forall k | 0 <= k < |visited| :: visited[k] == n * k + id < |numbers|
    ensures forall x: nat :: x in visited <==> x < |numbers| && x % n == id
    ensures forall i | 0 <= i < |out| && i % n == id :: out[i] == Composite(numbers[i])
    ensures forall i | 0 <= i < |out| && i % n != id :: out[i] == results[i]
  {
    out := results;
    visited := [];
    var counter := 0;
    while true
      invariant |out| == |results| && counter == |visited|
      invariant forall k | 0 <= k < |visited| :: visited[k] == n * k + id < |numbers|
      invariant forall i | 0 <= i < |out| && i in visited :: out[i] == Composite(numbers[i])
      invariant forall i | 0 <= i < |out| && i !in visited :: out[i] == results[i]
      decreases |numbers| - n * counter
    {
      var index := n * counter + id;
      if index >= |numbers| {
        LeapfrogMembers(n, id, |numbers|, visited);
        break;
      }
      var c := IsComposite(numbers[index]);
      out := out[index := c];
      visited := visited + [index];
      assert n * (counter + 1) == n * counter + n;
      counter := counter + 1;
    }
  }

  /** All `n` workers together: every index belongs to exactly one of them
      (the one numbered `index % n`), so every result ends up written. With
      `n == 0` no thread is created and the array keeps whatever it held. */
  method RunWorkers(numbers: seq<int>, garbage: seq<bool>, n: nat) returns (results: seq<bool>)
    requires |garbage| == |numbers|
    ensures |results| == |numbers|
    ensures n >= 1 ==> forall i | 0 <= i < |results| :: results[i] == Composite(numbers[i])
    ensures n == 0 ==> results == garbage
  {
    results := garbage;
    var id := 0;
    while id < n
      invariant id <= n && |results| == |numbers|
      invariant n >= 1 ==> forall i | 0 <= i < |results| && i % n < id :: results[i] == Composite(numbers[i])
      invariant n == 0 ==> results == garbage
    {
      var visited;
      results, visited := Worker(numbers, results, id, n);
      id := id + 1;
    }
  }

  /** The tally loop in `main`: composites are the `true` results, primes the rest. */
  method Tally(results: seq<bool>) returns (numPrime: nat, numComp: nat)
    ensures numComp == CountTrue(results)
    ensures numPrime + numComp == |results|
  {
    numPrime, numComp := 0, 0;
    var i := 0;
    while i < |results|
      invariant i <= |results|
      invariant numComp == CountTrue(results[..i])
      invariant numPrime + numComp == i
    {
      assert results[..i + 1][..i] == results[..i];
      if results[i] {
        numComp := numComp + 1;
      } else {
        numPrime := numPrime + 1;
      }
      i := i + 1;
    }
    assert results[..i] == results;
  }
}
