/** The restaurant: two bounded trays (non-vegan and vegan), each a ring
    buffer of `BufferSize` slots with `in`/`out` indices and a pair of
    counting semaphores, `full` (dishes present) and `empty` (free slots).
    A `sem_wait` that would block is an operation that is not enabled. */
module Trays {
  import opened Wrappers
  import opened SeqFacts

  const BufferSize := 10

  /** A slot holds 0 when empty, otherwise dish 1 or 2. */
  predicate IsDish(d: int)
  {
    d == 1 || d == 2
  }

  /** `rand() % 2 + 1` for a random value that is never negative. */
  function Dish(rand: nat): (d: int)
    ensures IsDish(d)
  {
    rand % 2 + 1
  }

  datatype Tray = Tray(slots: seq<int>, inIdx: nat, outIdx: nat, full: nat, empty: nat)

  /** Number of non-zero slots. */
  function CountNonZero(s: seq<int>): nat
  {
    if |s| == 0 then 0 else CountNonZero(s[..|s| - 1]) + (if s[|s| - 1] != 0 then 1 else 0)
  }

  /** Index `x` taken round the ring once. */
  function Wrap(x: nat): (r: nat)
    requires x < 2 * BufferSize
    ensures r < BufferSize && r == x % BufferSize
  {
    if x >= BufferSize then x - BufferSize else x
  }

  /** How far slot `j` lies after the `out` index, going round the ring. */
  function Offset(out: nat, j: nat): (d: nat)
    requires out < BufferSize && j < BufferSize
    ensures d < BufferSize && Wrap(out + d) == j
  {
    if j >= out then j - out else j + BufferSize - out
  }

  predicate Shape(t: Tray)
  {
    && |t.slots| == BufferSize
    && t.inIdx < BufferSize && t.outIdx < BufferSize
    && t.full + t.empty == BufferSize
    && t.inIdx == Wrap(t.outIdx + t.full)
  }

  /** Exactly the `full` slots from `out` onwards hold a dish. */
  ghost predicate Occupied(t: Tray)
    requires Shape(t)
  {
    forall j | 0 <= j < BufferSize :: t.slots[j] != 0 <==> Offset(t.outIdx, j) < t.full
  }

  ghost predicate DishesOnly(s: seq<int>)
  {
    forall j | 0 <= j < |s| :: s[j] == 0 || IsDish(s[j])
  }

  ghost predicate Inv(t: Tray)
  {
    && Shape(t)
    && Occupied(t)
    && DishesOnly(t.slots)
    && CountNonZero(t.slots) == t.full
  }

  /** The dishes on the tray, oldest first. */
  function Contents(t: Tray): seq<int>
    requires Shape(t)
  {
    seq(t.full, k requires 0 <= k < t.full =>
      t.slots[Wrap(t.outIdx + k)])
  }

  lemma {:induction false} CountZeros(n: nat)
    ensures CountNonZero(seq(n, _ => 0)) == 0
  {
    if n > 0 {
      assert seq(n, _ => 0)[..n - 1] == seq(n - 1, _ => 0);
      CountZeros(n - 1);
    }
  }

  /** Overwriting one slot changes the count by at most one. */
  lemma {:induction false} CountUpdate(s: seq<int>, i: nat, v: int)
    requires i < |s|
    ensures CountNonZero(s[i := v])
         == CountNonZero(s) - (if s[i] != 0 then 1 else 0) + (if v != 0 then 1 else 0)
  {
    var last := |s| - 1;
    if i == last {
      assert s[i := v][..last] == s[..last];
    } else {
      assert s[i := v][..last] == s[..last][i := v];
      CountUpdate(s[..last], i, v);
    }
  }

  /** Initialisation: every slot 0, both indices 0, `empty` at capacity. */
  function NewTray(): (t: Tray)
    ensures Inv(t) && Contents(t) == []
    ensures t.inIdx == 0 && t.outIdx == 0
    ensures forall j | 0 <= j < |t.slots| :: t.slots[j] == 0
  {
    CountZeros(BufferSize);
    Tray(seq(BufferSize, _ => 0), 0, 0, 0, BufferSize)
  }

  /** A chef's step: wait on `empty`, put the dish at `in`, advance `in`,
      post `full`. */
  function Produce(t: Tray, dish: int): (r: Option<Tray>)
    requires Inv(t) && IsDish(dish)
    ensures r.Some? <==> t.empty > 0
    ensures r.Some? ==> Inv(r.value) && Contents(r.value) == Contents(t) + [dish]
    ensures r.Some? ==> r.value.slots[t.inIdx] == dish && r.value.inIdx == (t.inIdx + 1) % BufferSize
    ensures r.Some? ==> r.value.full == t.full + 1
  {
    if t.empty == 0 then None
    else
      var t' := Tray(t.slots[t.inIdx := dish], (t.inIdx + 1) % BufferSize, t.outIdx, t.full + 1, t.empty - 1);
      ProduceKeepsInv(t, dish, t');
      Some(t')
  }

  lemma ProduceKeepsInv(t: Tray, dish: int, t': Tray)
    requires Inv(t) && IsDish(dish) && t.empty > 0
    requires t' == Tray(t.slots[t.inIdx := dish], (t.inIdx + 1) % BufferSize, t.outIdx, t.full + 1, t.empty - 1)
    ensures Inv(t') && Contents(t') == Contents(t) + [dish]
  {
    assert Shape(t');
    ProduceOccupied(t, dish, t');
    CountUpdate(t.slots, t.inIdx, dish);
    ProduceContents(t, dish, t');
  }

  lemma ProduceOccupied(t: Tray, dish: int, t': Tray)
    requires Inv(t) && IsDish(dish) && t.empty > 0
    requires t' == Tray(t.slots[t.inIdx := dish], (t.inIdx + 1) % BufferSize, t.outIdx, t.full + 1, t.empty - 1)
    requires Shape(t')
    ensures Occupied(t') && DishesOnly(t'.slots)
  {
    assert Offset(t.outIdx, t.inIdx) == t.full;
  }

  lemma ProduceContents(t: Tray, dish: int, t': Tray)
    requires Shape(t) && t.empty > 0
    requires t' == Tray(t.slots[t.inIdx := dish], (t.inIdx + 1) % BufferSize, t.outIdx, t.full + 1, t.empty - 1)
    ensures Contents(t') == Contents(t) + [dish]
  {
    var c, c' := Contents(t), Contents(t');
    forall k | 0 <= k < t.full
      ensures c'[k] == c[k]
    {
      assert Wrap(t.outIdx + k) != t.inIdx;
    }
    assert c'[t.full] == dish;
    assert c' == c + [dish];
  }

  /** A customer's step: wait on `full`, take the dish at `out`, clear the
      slot, advance `out`, post `empty`. */
  function Consume(t: Tray): (r: Option<(int, Tray)>)
    requires Inv(t)
    ensures r.Some? <==> t.full > 0
    ensures r.Some? ==> Inv(r.value.1) && Contents(t) == [r.value.0] + Contents(r.value.1)
    ensures r.Some? ==> IsDish(r.value.0) && r.value.0 == t.slots[t.outIdx]
    ensures r.Some? ==> r.value.1.slots[t.outIdx] == 0 && r.value.1.outIdx == (t.outIdx + 1) % BufferSize
    ensures r.Some? ==> r.value.1.empty == t.empty + 1
  {
    if t.full == 0 then None
    else
      var dish := t.slots[t.outIdx];
      var t' := Tray(t.slots[t.outIdx := 0], t.inIdx, (t.outIdx + 1) % BufferSize, t.full - 1, t.empty + 1);
      ConsumeKeepsInv(t, t');
      Some((dish, t'))
  }

  lemma ConsumeKeepsInv(t: Tray, t': Tray)
    requires Inv(t) && t.full > 0
    requires t' == Tray(t.slots[t.outIdx := 0], t.inIdx, (t.outIdx + 1) % BufferSize, t.full - 1, t.empty + 1)
    ensures Inv(t') && Contents(t) == [t.slots[t.outIdx]] + Contents(t')
    ensures IsDish(t.slots[t.outIdx])
  {
    assert Offset(t.outIdx, t.outIdx) == 0;
    assert Shape(t');
    ConsumeOccupied(t, t');
    CountUpdate(t.slots, t.outIdx, 0);
    ConsumeContents(t, t');
  }

  lemma ConsumeOccupied(t: Tray, t': Tray)
    requires Inv(t) && t.full > 0
    requires t' == Tray(t.slots[t.outIdx := 0], t.inIdx, (t.outIdx + 1) % BufferSize, t.full - 1, t.empty + 1)
    requires Shape(t')
    ensures Occupied(t') && DishesOnly(t'.slots)
  {
    forall j | 0 <= j < BufferSize
      ensures t'.slots[j] != 0 <==> Offset(t'.outIdx, j) < t'.full
    {
      if j != t.outIdx {
        assert Offset(t'.outIdx, j) + 1 == Offset(t.outIdx, j);
      }
    }
  }

  lemma ConsumeContents(t: Tray, t': Tray)
    requires Shape(t) && t.full > 0
    requires t' == Tray(t.slots[t.outIdx := 0], t.inIdx, (t.outIdx + 1) % BufferSize, t.full - 1, t.empty + 1)
    requires Shape(t')
    ensures Contents(t) == [t.slots[t.outIdx]] + Contents(t')
  {
    var c, c' := Contents(t), Contents(t');
    assert Wrap(t.outIdx + 0) == t.outIdx;
    var o' := if t.outIdx + 1 < BufferSize then t.outIdx + 1 else 0;
    assert t'.outIdx == o';
    forall k | 0 <= k < t.full - 1
      ensures c'[k] == c[k + 1]
    {
      var j := Wrap(t.outIdx + (k + 1));
      assert Wrap(o' + k) == j != t.outIdx;
      assert c'[k] == t'.slots[j] == t.slots[j] == c[k + 1];
    }
    assert c[1..] == c';
    assert c == [c[0]] + c[1..];
  }

  datatype TrayOp = Put(dish: int) | Take

  /** The dish an operation puts on the tray, if any. */
  function PutOf(op: TrayOp): seq<int>
  {
    if op.Put? then [op.dish] else []
  }

  function Puts(ops: seq<TrayOp>): seq<int>
  {
    if |ops| == 0 then [] else Puts(ops[..|ops| - 1]) + PutOf(ops[|ops| - 1])
  }

  /** One producer or consumer step: the new tray and the dishes it took;
      `None` when the step could not have completed. */
  function StepTray(t: Tray, op: TrayOp): (r: Option<(Tray, seq<int>)>)
    requires Inv(t)
    ensures r.Some? ==> Inv(r.value.0)
    ensures op.Put? ==> (r.Some? <==> IsDish(op.dish) && t.empty > 0)
    ensures op.Take? ==> (r.Some? <==> t.full > 0)
    ensures op.Put? && r.Some? ==> r.value.1 == [] && Contents(r.value.0) == Contents(t) + [op.dish]
    ensures op.Take? && r.Some? ==> |r.value.1| == 1 && Contents(t) == r.value.1 + Contents(r.value.0)
    ensures r.Some? ==> r.value.1 + Contents(r.value.0) == Contents(t) + PutOf(op)
  {
    match op
    case Put(d) =>
      if !IsDish(d) then None
      else (match Produce(t, d)
            case None => None
            case Some(t') => Some((t', [])))
    case Take =>
      match Consume(t)
      case None => None
      case Some(p) => Some((p.1, [p.0]))
  }

  /** Runs producer and consumer steps in order, returning the final tray and
      the dishes taken; `None` when some step could not have completed. */
  function RunTray(t: Tray, ops: seq<TrayOp>): (r: Option<(Tray, seq<int>)>)
    requires Inv(t)
    ensures r.Some? ==> Inv(r.value.0) && |r.value.1| <= |ops|
    decreases |ops|
  {
    if |ops| == 0 then Some((t, []))
    else
      match RunTray(t, ops[..|ops| - 1])
      case None => None
      case Some(p) =>
        match StepTray(p.0, ops[|ops| - 1])
        case None => None
        case Some(q) => Some((q.0, p.1 + q.1))
  }

  /** FIFO: the dishes taken, followed by those still on the tray, are the
      dishes that were on it followed by those put on it, in order. */
  lemma {:induction false} Fifo(t: Tray, ops: seq<TrayOp>)
    requires Inv(t) && RunTray(t, ops).Some?
    ensures RunTray(t, ops).value.1 + Contents(RunTray(t, ops).value.0) == Contents(t) + Puts(ops)
    decreases |ops|
  {
    if |ops| > 0 {
      var init := ops[..|ops| - 1];
      Fifo(t, init);
      var p := RunTray(t, init).value;
      var q := StepTray(p.0, ops[|ops| - 1]).value;
      assert RunTray(t, ops).value == (q.0, p.1 + q.1);
      assert Puts(ops) == Puts(init) + PutOf(ops[|ops| - 1]);
      Chain(p.1, q.1, Contents(t), Contents(p.0), Contents(q.0), Puts(init), PutOf(ops[|ops| - 1]));
    }
  }

  /** Both trays of the restaurant. */
  datatype Restaurant = Restaurant(nonVegan: Tray, vegan: Tray)

  /** The hybrid customer waits until both trays have a dish, then takes one
      from each, freeing one slot in each. */
  function HybridConsume(r: Restaurant): (o: Option<(int, int, Restaurant)>)
    requires Inv(r.nonVegan) && Inv(r.vegan)
    ensures o.Some? <==> r.nonVegan.full > 0 && r.vegan.full > 0
    ensures o.Some? ==> var (nv, v, r') := o.value;
      && Inv(r'.nonVegan) && Inv(r'.vegan)
      && Contents(r.nonVegan) == [nv] + Contents(r'.nonVegan)
      && Contents(r.vegan) == [v] + Contents(r'.vegan)
      && r'.nonVegan.empty == r.nonVegan.empty + 1 && r'.vegan.empty == r.vegan.empty + 1
  {
    if r.nonVegan.full == 0 || r.vegan.full == 0 then None
    else
      var (nv, nvTray) := Consume(r.nonVegan).value;
      var (v, vTray) := Consume(r.vegan).value;
      Some((nv, v, Restaurant(nvTray, vTray)))
  }

  ghost predicate RestaurantInv(r: Restaurant)
  {
    Inv(r.nonVegan) && Inv(r.vegan)
  }

  function Open(): (r: Restaurant)
    ensures RestaurantInv(r)
    ensures Contents(r.nonVegan) == [] && Contents(r.vegan) == []
  {
    Restaurant(NewTray(), NewTray())
  }

  /** One iteration of one of the five threads' loops; the chefs draw their
      dish from `rand`. */
  datatype Actor = Donatello(rand: nat) | NonVeganCustomer | Portecelli(rand: nat) | VeganCustomer | Hybrid

  function Act(r: Restaurant, a: Actor): (o: Option<Restaurant>)
    requires RestaurantInv(r)
    ensures o.Some? ==> RestaurantInv(o.value)
    ensures o.Some? <==> match a
      case Donatello(_) => r.nonVegan.empty > 0
      case Portecelli(_) => r.vegan.empty > 0
      case NonVeganCustomer => r.nonVegan.full > 0
      case VeganCustomer => r.vegan.full > 0
      case Hybrid => r.nonVegan.full > 0 && r.vegan.full > 0
    ensures o.Some? && !a.Donatello? && !a.NonVeganCustomer? && !a.Hybrid? ==> o.value.nonVegan == r.nonVegan
    ensures o.Some? && !a.Portecelli? && !a.VeganCustomer? && !a.Hybrid? ==> o.value.vegan == r.vegan
    ensures o.Some? && a.Donatello? ==> Contents(o.value.nonVegan) == Contents(r.nonVegan) + [Dish(a.rand)]
    ensures o.Some? && a.Portecelli? ==> Contents(o.value.vegan) == Contents(r.vegan) + [Dish(a.rand)]
    ensures o.Some? && (a.NonVeganCustomer? || a.Hybrid?) ==> Contents(o.value.nonVegan) == Contents(r.nonVegan)[1..]
    ensures o.Some? && (a.VeganCustomer? || a.Hybrid?) ==> Contents(o.value.vegan) == Contents(r.vegan)[1..]
  {
    match a
    case Donatello(rand) =>
      (match Produce(r.nonVegan, Dish(rand))
       case None => None
       case Some(t) => Some(r.(nonVegan := t)))
    case Portecelli(rand) =>
      (match Produce(r.vegan, Dish(rand))
       case None => None
       case Some(t) => Some(r.(vegan := t)))
    case NonVeganCustomer =>
      (match Consume(r.nonVegan)
       case None => None
       case Some(p) => Some(r.(nonVegan := p.1)))
    case VeganCustomer =>
      (match Consume(r.vegan)
       case None => None
       case Some(p) => Some(r.(vegan := p.1)))
    case Hybrid =>
      match HybridConsume(r)
      case None => None
      case Some(p) => Some(p.2)
  }

  /** The count loop in `main`: the number of occupied slots of each tray,
      which is the dishes on it. */
  method CountItems(r: Restaurant) returns (nvItems: nat, vItems: nat)
    requires RestaurantInv(r)
    ensures nvItems == r.nonVegan.full == |Contents(r.nonVegan)|
    ensures vItems == r.vegan.full == |Contents(r.vegan)|
  {
    nvItems, vItems := CountSlots(r.nonVegan.slots, r.vegan.slots);
  }

  /** The loop itself: one pass over the slots of both trays. */
  method CountSlots(nv: seq<int>, v: seq<int>) returns (nvItems: nat, vItems: nat)
    requires |nv| == |v| == BufferSize
    ensures nvItems == CountNonZero(nv) && vItems == CountNonZero(v)
  {
    nvItems, vItems := 0, 0;
    var i := 0;
    while i < BufferSize
      invariant i <= BufferSize
      invariant nvItems == CountNonZero(nv[..i])
      invariant vItems == CountNonZero(v[..i])
    {
      assert nv[..i + 1][..i] == nv[..i];
      assert v[..i + 1][..i] == v[..i];
      if nv[i] != 0 {
        nvItems := nvItems + 1;
      }
      if v[i] != 0 {
        vItems := vItems + 1;
      }
      i := i + 1;
    }
    assert nv[..i] == nv;
    assert v[..i] == v;
  }
}
