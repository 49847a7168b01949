/** The cafeteria simulation: a FIFO queue monitor between one producer
    (arriving students) and `Consumers` tables, the parse of the input file,
    the turnaround and waiting-time arithmetic, and the shutdown in which the
    exit thread enqueues one fake customer per table. Waiting inside the
    monitor is an operation that is not enabled; clock readings are inputs. */
module Cafeteria {
  import opened Wrappers
  import opened SeqFacts
  import opened StdString

  /** Number of consumer (table) threads. */
  const Consumers := 4

  datatype Customer = Customer(id: int, eatingTimeLeft: int, arrivalTime: int, fake: bool)

  /** The sentinel the exit thread enqueues. */
  const FakeCustomer := Customer(0, 0, 0, true)

  // ---------------------------------------------------------------------------
  // The queue monitor
  // ---------------------------------------------------------------------------

  /** `add_customer`: push at the back, then signal "non-empty" (always). */
  function AddCustomer(queue: seq<Customer>, c: Customer): (r: (seq<Customer>, bool))
    ensures |r.0| == |queue| + 1 && r.0[..|queue|] == queue && r.0[|queue|] == c
    ensures r.1
  {
    (queue + [c], true)
  }

  /** `get_customer`: enabled only on a non-empty queue; pops the front and
      signals "non-empty" exactly when a customer remains. */
  function GetCustomer(queue: seq<Customer>): (r: Option<(Customer, seq<Customer>, bool)>)
    ensures r.Some? <==> |queue| > 0
    ensures r.Some? ==> [r.value.0] + r.value.1 == queue
    ensures r.Some? ==> (r.value.2 <==> |r.value.1| >= 1)
  {
    if |queue| < 1 then None
    else Some((queue[0], queue[1..], |queue| - 1 >= 1))
  }

  datatype QueueOp = Add(c: Customer) | Get

  function AddedBy(op: QueueOp): seq<Customer>
  {
    if op.Add? then [op.c] else []
  }

  function Added(ops: seq<QueueOp>): seq<Customer>
  {
    if |ops| == 0 then [] else Added(ops[..|ops| - 1]) + AddedBy(ops[|ops| - 1])
  }

  /** Runs monitor calls in order, returning the final queue and the
      customers handed out; `None` when some `get_customer` would wait
      forever. */
  function RunQueue(queue: seq<Customer>, ops: seq<QueueOp>): (r: Option<(seq<Customer>, seq<Customer>)>)
    ensures r.Some? ==> |r.value.1| <= |ops|
    decreases |ops|
  {
    if |ops| == 0 then Some((queue, []))
    else
      match RunQueue(queue, ops[..|ops| - 1])
      case None => None
      case Some(p) =>
        match ops[|ops| - 1]
        case Add(c) => Some((AddCustomer(p.0, c).0, p.1))
        case Get =>
          match GetCustomer(p.0)
          case None => None
          case Some(g) => Some((g.1, p.1 + [g.0]))
  }

  /** Customers are served in arrival order: those handed out, followed by
      those still queued, are the initial queue followed by those added. */
  lemma {:induction false} ServedInArrivalOrder(queue: seq<Customer>, ops: seq<QueueOp>)
    requires RunQueue(queue, ops).Some?
    ensures RunQueue(queue, ops).value.1 + RunQueue(queue, ops).value.0 == queue + Added(ops)
    decreases |ops|
  {
    if |ops| > 0 {
      var init := ops[..|ops| - 1];
      ServedInArrivalOrder(queue, init);
      var p := RunQueue(queue, init).value;
      var r := RunQueue(queue, ops).value;
      assert Added(ops) == Added(init) + AddedBy(ops[|ops| - 1]);
      match ops[|ops| - 1]
      case Add(c) =>
        Chain(p.1, [], queue, p.0, r.0, Added(init), [c]);
      case Get =>
        var g := GetCustomer(p.0).value;
        Chain(p.1, [g.0], queue, p.0, r.0, Added(init), []);
    }
  }

  // ---------------------------------------------------------------------------
  // std::stoi
  // ---------------------------------------------------------------------------

  const IntMin := -0x8000_0000
  const IntMax := 0x7FFF_FFFF

  /** The characters `isspace` accepts in the C locale. */
  predicate IsSpace(c: char)
  {
    c == ' ' || c == '\t' || c == '\n' || c == '\U{0B}' || c == '\U{0C}' || c == '\r'
  }

  predicate IsDigit(c: char)
  {
    '0' <= c <= '9'
  }

  predicate AllDigits(s: string)
  {
    forall i | 0 <= i < |s| :: IsDigit(s[i])
  }

  /** Length of the run of white space at the start of `s`. */
  function SpaceRun(s: string): (n: nat)
    ensures n <= |s|
    ensures n < |s| ==> !IsSpace(s[n])
  {
    if |s| == 0 || !IsSpace(s[0]) then 0 else 1 + SpaceRun(s[1..])
  }

  /** Length of the run of digits at the start of `s`. */
  function DigitRun(s: string): (n: nat)
    ensures n <= |s|
    ensures n < |s| ==> !IsDigit(s[n])
  {
    if |s| == 0 || !IsDigit(s[0]) then 0 else 1 + DigitRun(s[1..])
  }

  /** The decimal value of a string of digits. */
  function DigitsValue(s: string): int
  {
    if |s| == 0 then 0 else DigitsValue(s[..|s| - 1]) * 10 + (s[|s| - 1] as int - '0' as int)
  }

  /** `std::stoi(s)`: optional white space, an optional sign, then at least
      one digit; anything after the digits is ignored. No digits
      (`invalid_argument`) or a value outside `int` (`out_of_range`) throws,
      which ends the program: `None`. */
  function Stoi(s: string): (r: Option<int>)
    ensures r.Some? ==> IntMin <= r.value <= IntMax
  {
    ReadSigned(s[SpaceRun(s)..])
  }

  /** An optional sign followed by digits. */
  function ReadSigned(s: string): (r: Option<int>)
    ensures r.Some? ==> IntMin <= r.value <= IntMax
  {
    if |s| > 0 && s[0] == '-' then
      (match ReadDigits(s[1..])
       case None => None
       case Some(v) => InInt(-v))
    else
      var body := if |s| > 0 && s[0] == '+' then s[1..] else s;
      match ReadDigits(body)
      case None => None
      case Some(v) => InInt(v)
  }

  /** The value of the digits at the start of `s`; `None` when there are none. */
  function ReadDigits(s: string): (r: Option<int>)
    ensures r.None? <==> |s| == 0 || !IsDigit(s[0])
  {
    var d := DigitRun(s);
    if d == 0 then None else Some(DigitsValue(s[..d]))
  }

  /** Values outside `int` are `out_of_range`. */
  function InInt(v: int): (r: Option<int>)
    ensures r.Some? <==> IntMin <= v <= IntMax
    ensures r.Some? ==> r.value == v
  {
    if IntMin <= v <= IntMax then Some(v) else None
  }

  function DigitChar(d: nat): (c: char)
    requires d < 10
    ensures IsDigit(c) && c as int - '0' as int == d
  {
    ('0' as int + d) as char
  }

  /** The decimal digits of `n`, most significant first. */
  function NatDigits(n: nat): (s: string)
    ensures |s| >= 1 && AllDigits(s) && DigitsValue(s) == n
    decreases n
  {
    if n < 10 then [DigitChar(n)]
    else
      var s := NatDigits(n / 10) + [DigitChar(n % 10)];
      assert s[..|s| - 1] == NatDigits(n / 10);
      s
  }

  /** The decimal text of an integer, with a leading `-` when negative. */
  function Decimal(x: int): (s: string)
    ensures |s| >= 1 && ' ' !in s
  {
    if x < 0 then "-" + NatDigits(-x) else NatDigits(x)
  }

  lemma {:induction false} NatDigitsLength(n: nat, bound: nat, k: nat)
    requires n < bound && bound == Pow10(k)
    ensures |NatDigits(n)| <= k + 1
    decreases k
  {
    if n >= 10 && k > 0 {
      NatDigitsLength(n / 10, Pow10(k - 1), k - 1);
    }
  }

  function Pow10(k: nat): (p: nat)
    ensures p >= 1
  {
    if k == 0 then 1 else 10 * Pow10(k - 1)
  }

  /** The text of a 32-bit integer is short. */
  lemma DecimalLength(x: int)
    requires IntMin <= x <= IntMax
    ensures |Decimal(x)| <= 12
  {
    NatDigitsLength(if x < 0 then -x else x, Pow10(10), 10);
  }

  lemma {:induction false} DigitRunOf(ds: string, t: string)
    requires AllDigits(ds) && (|t| == 0 || !IsDigit(t[0]))
    ensures DigitRun(ds + t) == |ds|
    decreases |ds|
  {
    if |ds| > 0 {
      assert (ds + t)[1..] == ds[1..] + t;
      DigitRunOf(ds[1..], t);
    }
  }

  lemma ReadDigitsOf(ds: string, t: string)
    requires |ds| >= 1 && AllDigits(ds)
    requires |t| == 0 || !IsDigit(t[0])
    ensures ReadDigits(ds + t) == Some(DigitsValue(ds))
  {
    DigitRunOf(ds, t);
    assert (ds + t)[..|ds|] == ds;
  }

  /** With no leading white space, `stoi` starts at the sign. */
  lemma StoiNoSpace(s: string)
    requires |s| > 0 && !IsSpace(s[0])
    ensures Stoi(s) == ReadSigned(s)
  {
    assert SpaceRun(s) == 0;
    assert s[0..] == s;
  }

  lemma StoiUnsigned(ds: string, t: string)
    requires |ds| >= 1 && AllDigits(ds) && 0 <= DigitsValue(ds) <= IntMax
    requires |t| == 0 || !IsDigit(t[0])
    ensures Stoi(ds + t) == Some(DigitsValue(ds))
  {
    var s := ds + t;
    assert s[0] == ds[0];
    StoiNoSpace(s);
    ReadDigitsOf(ds, t);
  }

  /** A minus sign followed by text whose leading digits read as `v`. */
  lemma StoiNegative(body: string, v: int)
    requires ReadDigits(body) == Some(v) && IntMin <= -v <= 0
    ensures Stoi("-" + body) == Some(-v)
  {
    var s := "-" + body;
    assert s[0] == '-';
    StoiNoSpace(s);
    assert s[1..] == body;
  }

  /** `stoi` reads back what `Decimal` writes, whatever non-digit text
      follows it. */
  lemma StoiDecimal(x: int, t: string)
    requires IntMin <= x <= IntMax
    requires |t| == 0 || !IsDigit(t[0])
    ensures Stoi(Decimal(x) + t) == Some(x)
  {
    if x < 0 {
      var ds := NatDigits(-x);
      ReadDigitsOf(ds, t);
      StoiNegative(ds + t, -x);
      assert Decimal(x) + t == "-" + (ds + t);
    } else {
      StoiUnsigned(NatDigits(x), t);
    }
  }

  // ---------------------------------------------------------------------------
  // The input file
  // ---------------------------------------------------------------------------

  /** The two fields of a line: the text before and after its first space,
      or the whole line twice when it has none. */
  function Fields(line: string): (string, string)
  {
    match Find(line, ' ')
    case Some(space) => (line[..space], line[space + 1..])
    case None => (line, line)
  }

  /** One line `arrival eating`, parsed as written: the position of the
      first space is stored in an `int`, so `npos` becomes -1, and then
      `substr(0, -1)` and `substr(-1 + 1)` both give the whole line. */
  function ParseLine(line: string): (r: Option<(int, int)>)
    requires |line| < SizeModulus
    ensures r.Some? <==> Stoi(Fields(line).0).Some? && Stoi(Fields(line).1).Some?
    ensures r.Some? ==> r.value == (Stoi(Fields(line).0).value, Stoi(Fields(line).1).value)
  {
    var space := AsInt(Find(line, ' '));
    var first := Substr(line, 0, ToSize(space));
    var second := Substr(line, space + 1, |line|);
    FieldsAsWritten(line);
    match Stoi(first)
    case None => None
    case Some(arrival) =>
      match Stoi(second)
      case None => None
      case Some(eating) => Some((arrival, eating))
  }

  /** The `substr` calls give the two fields whether or not there is a
      space. */
  lemma FieldsAsWritten(line: string)
    requires |line| < SizeModulus
    ensures var space := AsInt(Find(line, ' '));
      && Substr(line, 0, ToSize(space)) == Fields(line).0
      && Substr(line, space + 1, |line|) == Fields(line).1
  {
    var f := Find(line, ' ');
    if f.Some? {
      assert AsInt(f) == f.value && ToSize(f.value) == f.value;
      FieldsAtSpace(line, f.value);
    } else {
      assert AsInt(f) == -1 && ToSize(-1) == SizeModulus - 1;
      FieldsWithoutSpace(line);
    }
  }

  lemma FieldsAtSpace(line: string, space: nat)
    requires Find(line, ' ') == Some(space)
    ensures Substr(line, 0, space) == Fields(line).0
    ensures Substr(line, space + 1, |line|) == Fields(line).1
  {
  }

  lemma FieldsWithoutSpace(line: string)
    requires |line| < SizeModulus && Find(line, ' ') == None
    ensures Substr(line, 0, SizeModulus - 1) == Fields(line).0
    ensures Substr(line, 0, |line|) == Fields(line).1
  {
    assert line[0..] == line;
  }

  /** Every line fits in a `std::string`. */
  predicate Bounded(lines: seq<string>)
  {
    forall m | 0 <= m < |lines| :: |lines[m]| < SizeModulus
  }

  /** The loop in `main` over the lines after the first (which holds the
      unused quantum): read until the first empty line or the end of the
      file, splitting each line into an arrival and an eating time. A line
      that `stoi` rejects throws, which ends the program: `ok` is false. */
  method ReadStudents(lines: seq<string>) returns (arrivals: seq<int>, eatings: seq<int>, ok: bool)
    requires Bounded(lines)
    ensures !ok <==> exists m | 0 <= m < LinesBeforeBlank(lines) :: ParseLine(lines[m]).None?
    ensures ok ==> |arrivals| == |eatings| == LinesBeforeBlank(lines)
    ensures ok ==> forall m | 0 <= m < LinesBeforeBlank(lines) :: ParseLine(lines[m]) == Some((arrivals[m], eatings[m]))
  {
    arrivals, eatings := [], [];
    var i := 0;
    while i < |lines| && |lines[i]| != 0
      invariant i <= LinesBeforeBlank(lines)
      invariant |arrivals| == |eatings| == i
      invariant forall m | 0 <= m < i :: ParseLine(lines[m]) == Some((arrivals[m], eatings[m]))
    {
      var p := ParseLine(lines[i]);
      if p.None? {
        assert i < LinesBeforeBlank(lines);
        return arrivals, eatings, false;
      }
      var a, e := arrivals + [p.value.0], eatings + [p.value.1];
      forall m | 0 <= m < i + 1
        ensures ParseLine(lines[m]) == Some((a[m], e[m]))
      {
        if m < i {
          assert a[m] == arrivals[m] && e[m] == eatings[m];
        }
      }
      arrivals, eatings := a, e;
      i := i + 1;
    }
    assert i == LinesBeforeBlank(lines);
    forall m | 0 <= m < i
      ensures ParseLine(lines[m]).Some?
    {
      assert ParseLine(lines[m]) == Some((arrivals[m], eatings[m]));
    }
    return arrivals, eatings, true;
  }

  /** Number of lines before the first empty one. */
  function LinesBeforeBlank(lines: seq<string>): (n: nat)
    ensures n <= |lines|
    ensures forall m | 0 <= m < n :: |lines[m]| > 0
    ensures n < |lines| ==> |lines[n]| == 0
  {
    if |lines| == 0 || |lines[0]| == 0 then 0 else 1 + LinesBeforeBlank(lines[1..])
  }

  /** The line the simulation expects for one student. */
  function FormatLine(arrival: int, eating: int): string
  {
    Decimal(arrival) + " " + Decimal(eating)
  }

  lemma ParseFormatted(arrival: int, eating: int)
    requires IntMin <= arrival <= IntMax && IntMin <= eating <= IntMax
    ensures |FormatLine(arrival, eating)| < SizeModulus
    ensures ParseLine(FormatLine(arrival, eating)) == Some((arrival, eating))
  {
    var a, e := Decimal(arrival), Decimal(eating);
    DecimalLength(arrival);
    DecimalLength(eating);
    var line := FormatLine(arrival, eating);
    assert line == a + (" " + e);
    FirstSpace(a, e);
    assert Fields(line) == (a, e);
    assert a + [] == a && e + [] == e;
    StoiDecimal(arrival, []);
    StoiDecimal(eating, []);
  }

  /** Joining two space-free texts with a space puts the first space between
      them. */
  lemma FirstSpace(a: string, e: string)
    requires ' ' !in a
    ensures var line := a + (" " + e);
      && Find(line, ' ') == Some(|a|)
      && line[..|a|] == a && line[|a| + 1..] == e
  {
    var line := a + (" " + e);
    assert line[|a|] == ' ' && line[..|a|] == a;
    assert line[|a| + 1..] == e;
  }

  // ---------------------------------------------------------------------------
  // Producer and consumers
  // ---------------------------------------------------------------------------

  /** `producer_function`: student `m` becomes customer `m`, with its eating
      time and the clock reading at its arrival (an input), and is added at
      the back of the queue. */
  method Arrivals(queue: seq<Customer>, eatings: seq<int>, clock: seq<int>) returns (q: seq<Customer>)
    requires |clock| == |eatings|
    ensures |q| == |queue| + |eatings| && q[..|queue|] == queue
    ensures forall m | 0 <= m < |eatings| :: q[|queue| + m] == Customer(m, eatings[m], clock[m], false)
  {
    q := queue;
    var m := 0;
    while m < |eatings|
      invariant m <= |eatings|
      invariant |q| == |queue| + m && q[..|queue|] == queue
      invariant forall k | 0 <= k < m :: q[|queue| + k] == Customer(k, eatings[k], clock[k], false)
    {
      var c := Customer(m, eatings[m], clock[m], false);
      var (q', _) := AddCustomer(q, c);
      q := q';
      m := m + 1;
    }
  }

  /** What a table prints when a customer leaves. */
  datatype Departure = Departure(id: int, turnaround: int, waiting: int)

  /** One pass of `consumer_function`'s loop after `get_customer`: a fake
      customer ends the thread (`None`); a real one eats and leaves, and the
      table reports its turnaround and waiting times from the clock reading
      `finishTime`. */
  function Serve(c: Customer, finishTime: int): (r: Option<Departure>)
    ensures r.None? <==> c.fake
    ensures r.Some? ==> r.value.id == c.id
    ensures r.Some? ==> r.value.turnaround == finishTime - c.arrivalTime
    ensures r.Some? ==> r.value.waiting + c.eatingTimeLeft == r.value.turnaround
  {
    if c.fake then None
    else
      var turnaround := finishTime - c.arrivalTime;
      Some(Departure(c.id, turnaround, turnaround - c.eatingTimeLeft))
  }

  /** When the clock is read just after eating, the waiting time is the time
      spent in the queue, never negative since a customer is seated after it
      arrives. */
  lemma WaitingIsQueueTime(c: Customer, seated: int)
    requires !c.fake && seated >= c.arrivalTime
    ensures Serve(c, seated + c.eatingTimeLeft).value.waiting == seated - c.arrivalTime >= 0
  {
  }

  // ---------------------------------------------------------------------------
  // Shutdown
  // ---------------------------------------------------------------------------

  /** Once every real customer has left, the exit thread adds `fakesLeft`
      more fake customers; `running[k]` says whether table `k` still loops. */
  datatype Closing = Closing(queue: seq<Customer>, fakesLeft: nat, running: seq<bool>)

  /** Only fakes are queued, and there is exactly one queued or still to be
      queued for every table that is still running. */
  ghost predicate ClosingInv(s: Closing)
  {
    && |s.running| == Consumers
    && (forall i | 0 <= i < |s.queue| :: s.queue[i].fake)
    && |s.queue| + s.fakesLeft == CountTrue(s.running)
  }

  /** The moment the exit thread starts adding fakes: the queue is empty and
      all `Consumers` tables wait in `get_customer`. */
  function StartClosing(): (s: Closing)
    ensures ClosingInv(s) && s.fakesLeft == Consumers
  {
    CountTrueAll(Consumers);
    Closing([], Consumers, seq(Consumers, _ => true))
  }

  datatype CloseOp = ExitAdds | TableTakes(k: nat)

  /** One step of the shutdown; `None` when the step is not possible: the
      exit thread has added all its fakes, table `k` has already ended, or
      the queue is empty so `get_customer` waits. */
  function CloseStep(s: Closing, op: CloseOp): (r: Option<Closing>)
    requires ClosingInv(s)
    ensures r.Some? ==> ClosingInv(r.value)
    ensures op.ExitAdds? ==> (r.Some? <==> s.fakesLeft > 0)
    ensures op.TableTakes? ==> (r.Some? <==> op.k < Consumers && s.running[op.k] && |s.queue| > 0)
    ensures op.TableTakes? && r.Some? ==> r.value.running == s.running[op.k := false]
    ensures op.ExitAdds? && r.Some? ==> r.value == Closing(s.queue + [FakeCustomer], s.fakesLeft - 1, s.running)
    ensures op.TableTakes? && r.Some? ==> r.value.queue == s.queue[1..] && r.value.fakesLeft == s.fakesLeft
  {
    match op
    case ExitAdds =>
      if s.fakesLeft == 0 then None
      else Some(Closing(AddCustomer(s.queue, FakeCustomer).0, s.fakesLeft - 1, s.running))
    case TableTakes(k) =>
      if k >= |s.running| || !s.running[k] then None
      else
        match GetCustomer(s.queue)
        case None => None
        case Some(g) =>
          assert g.0 == s.queue[0];
          var running := if g.0.fake then s.running[k := false] else s.running;
          CountTrueStop(s.running, k);
          assert forall i | 0 <= i < |g.1| :: g.1[i] == s.queue[i + 1];
          Some(Closing(g.1, s.fakesLeft, running))
  }

  /** No deadlock during shutdown: while a table still runs, some step is
      possible. */
  lemma ClosingProgress(s: Closing)
    requires ClosingInv(s)
    requires exists k | 0 <= k < Consumers :: s.running[k]
    ensures CloseStep(s, ExitAdds).Some? || exists k | 0 <= k < Consumers :: CloseStep(s, TableTakes(k)).Some?
  {
    CountTrueZero(s.running);
    if s.fakesLeft == 0 {
      var k :| 0 <= k < Consumers && s.running[k];
      assert CloseStep(s, TableTakes(k)).Some?;
    }
  }

  /** When no step is possible, every table has ended and nothing is left. */
  lemma ClosingQuiet(s: Closing)
    requires ClosingInv(s)
    requires CloseStep(s, ExitAdds).None?
    requires forall k | 0 <= k < Consumers :: CloseStep(s, TableTakes(k)).None?
    ensures forall k | 0 <= k < Consumers :: !s.running[k]
    ensures s.queue == [] && s.fakesLeft == 0
  {
    if exists k | 0 <= k < Consumers :: s.running[k] {
      ClosingProgress(s);
    }
    CountTrueZero(s.running);
  }

  /** Runs the shutdown steps in order, returning the final state and the
      tables that took a customer, in order. */
  function RunClosing(s: Closing, ops: seq<CloseOp>): (r: Option<(Closing, seq<int>)>)
    requires ClosingInv(s)
    ensures r.Some? ==> ClosingInv(r.value.0)
    decreases |ops|
  {
    if |ops| == 0 then Some((s, []))
    else
      match RunClosing(s, ops[..|ops| - 1])
      case None => None
      case Some(p) =>
        var op := ops[|ops| - 1];
        match CloseStep(p.0, op)
        case None => None
        case Some(s') => Some((s', p.1 + if op.TableTakes? then [op.k] else []))
  }

  /** Tables that took a customer are distinct, and a table still runs
      exactly when it has not taken one. */
  ghost predicate TakersAgree(s: Closing, takers: seq<int>)
    requires |s.running| == Consumers
  {
    && NoDup(takers)
    && InRange(takers, Consumers)
    && (forall k | 0 <= k < Consumers :: s.running[k] <==> k !in takers)
    && |takers| + CountTrue(s.running) == Consumers
  }

  lemma TakersStep(s: Closing, takers: seq<int>, op: CloseOp, s': Closing)
    requires ClosingInv(s) && TakersAgree(s, takers)
    requires CloseStep(s, op) == Some(s')
    ensures TakersAgree(s', takers + if op.TableTakes? then [op.k] else [])
  {
    if op.TableTakes? {
      var k := op.k;
      assert k !in takers;
      NoDupAppend(takers, k);
      AppendInRange(takers, k, Consumers);
      CountTrueStop(s.running, k);
    } else {
      assert takers + [] == takers;
    }
  }

  /** Starting from `StartClosing`, no table takes twice, and a table is
      still running exactly when it has not taken anything. */
  lemma {:induction false} TakersDistinct(ops: seq<CloseOp>)
    requires RunClosing(StartClosing(), ops).Some?
    ensures var (s, takers) := RunClosing(StartClosing(), ops).value;
      && NoDup(takers)
      && InRange(takers, Consumers)
      && (forall k | 0 <= k < Consumers :: s.running[k] <==> k !in takers)
      && |takers| + CountTrue(s.running) == Consumers
    decreases |ops|
  {
    if |ops| == 0 {
      CountTrueAll(Consumers);
    } else {
      var init := ops[..|ops| - 1];
      TakersDistinct(init);
      var p := RunClosing(StartClosing(), init).value;
      var op := ops[|ops| - 1];
      var s' := CloseStep(p.0, op).value;
      TakersStep(p.0, p.1, op, s');
    }
  }

  /** A completed shutdown: once no step is possible, each of the
      `Consumers` tables took exactly one fake customer and ended. */
  lemma EachTableTakesOneFake(ops: seq<CloseOp>)
    requires RunClosing(StartClosing(), ops).Some?
    requires var s := RunClosing(StartClosing(), ops).value.0;
      && CloseStep(s, ExitAdds).None?
      && forall k | 0 <= k < Consumers :: CloseStep(s, TableTakes(k)).None?
    ensures var (s, takers) := RunClosing(StartClosing(), ops).value;
      && NoDup(takers)
      && (forall k | 0 <= k < Consumers :: k in takers && !s.running[k])
      && |takers| == Consumers
  {
    var (s, takers) := RunClosing(StartClosing(), ops).value;
    TakersDistinct(ops);
    ClosingQuiet(s);
    CountTrueZero(s.running);
  }
}
