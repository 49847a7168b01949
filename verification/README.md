# OS-projects: the sequential core, in Dafny

The C++ programs in this repository are operating-systems exercises. They cover threads, semaphores, barriers and `fork`/`exec`. This project models the sequential logic inside five of them. Each piece is an immutable state machine or a pure function, and the lemmas prove the invariants the programs rely on.

* **Dining philosophers** (`Waiter`, `SemMonitor`, `RoundSelection`). The waiter monitor is a guarded state machine. Its state is the chopstick counter plus each philosopher's phase (`Idle`, `HasLeft`, `Eating`).
  - A left request is enabled only when two chopsticks are free. A right request is enabled when one is free. A return gives back two.
  - Each operation reports which conditions it posts before leaving.
  - The proofs cover conservation (`available + #HasLeft + 2·#Eating == n`), the bounds `0 <= available <= n` in every reachable state, and absence of deadlock.
  - The semaphore construction of the monitor is modelled once, in `SemMonitor`: entry mutex, `next` semaphore, and per-condition semaphores and counts. It is proved to keep exactly one occupancy token, with sleeping signallers taking priority over new entrants.
  - The coordinator's loop draws `rand() % 5` repeatedly, skipping numbers already selected, until every philosopher is selected once. It is modelled over an input sequence of draws.
* **Prime checker** (`Primes`).
  - `isComposite` is proved equal to "has a divisor strictly between 1 and n".
  - The leapfrog split gives thread `id` exactly the indices congruent to `id` modulo `n`, so together the threads write every result.
  - The tally counts every number once.
* **Shell** (`Shell`, with `StdString` for the `std::string` operations). Covers:
  - exact `exit` detection;
  - validation of ordinary lines;
  - the cut at the first `$`;
  - the trimming loops;
  - the split of each side into one or two commands;
  - the `&` background rule.

  Positions from `find`/`rfind` are kept in an `int` and compared with `strlen(..) - 1`, an unsigned `size_t`. The model writes out both conversions: `npos` becomes -1, and that wraps modulo 2^64.
* **Restaurant trays** (`Trays`). Each tray is a ten-slot ring buffer with `in`/`out` indices, and the `full`/`empty` semaphores become counts that guard produce and consume.
  - The invariant says exactly the `full` slots from `out` onwards hold a dish.
  - Each step is proved to act on the tray's contents as a FIFO queue.
  - The count loop in `main` counts exactly the dishes present.
* **FIFO cafeteria** (`Cafeteria`). Covers:
  - the deque monitor, with customers proved to be served in arrival order;
  - the input-file parse, including a model of `std::stoi` and the `npos` case of the line split;
  - customer construction;
  - turnaround and waiting-time arithmetic;
  - the shutdown in which one fake customer per table stops each table exactly once.

A `sem_wait` or condition wait that would block is modelled as an operation that is not enabled (`None` or `Blocked`). Random numbers, clock readings and file lines are inputs.

## Model

| member | source | states |
|---|---|---|
| Waiter.Init | dining-philosophers.cpp:47-63 | `init(n)`: the counter starts at `n`, nobody holds or eats, and the conservation invariant holds for any `n >= 0` |
| Waiter.PostAfterTake | dining-philosophers.cpp:118-128 | after taking a chopstick, "at least one" is posted iff one remains and "at least two" iff two remain |
| Waiter.RequestLeft | dining-philosophers.cpp:105-136 | enabled iff `available >= 2`; takes exactly one, moves the philosopher to `HasLeft`, leaves `available >= 1`, always posts "at least one" |
| Waiter.RequestRight | dining-philosophers.cpp:138-166 | enabled iff `available >= 1`; takes exactly one, so the counter never goes negative; moves the philosopher to `Eating` |
| Waiter.ReturnChopsticks | dining-philosophers.cpp:168-190 | never blocks, adds exactly 2, always posts "at least one", posts "at least two" iff `available >= 2` |
| Waiter.StepPreservesInv | dining-philosophers.cpp:105-190 | every completed operation keeps conservation, the bounds `[0, n]`, and "a lone holder implies a free chopstick" |
| Waiter.RunPreservesInv | dining-philosophers.cpp:217-241 | any sequence of completed left/right/return calls from a valid table ends in a valid table |
| Waiter.ReachableIsSafe | dining-philosophers.cpp:217-241 | in every reachable state `0 <= available <= n` and `available + #HasLeft + 2·#Eating == n` |
| Waiter.OneHolderCanProceed | dining-philosophers.cpp:142-147 | if someone holds one chopstick and nobody eats, `available >= 1`, so that philosopher's right request is enabled |
| Waiter.HolderCanProceed | dining-philosophers.cpp:111-116 | no deadlock: whenever some philosopher is mid-cycle, some mid-cycle philosopher's next operation is enabled |
| Waiter.IdleTableAdmitsAll | dining-philosophers.cpp:111-116 | with everyone idle the whole pool is free and any left request is enabled |
| Waiter.CycleRestores | dining-philosophers.cpp:217-241 | one philosopher's left, right, return cycle on an idle table leaves the table exactly as before |
| SemMonitor.Init | dining-philosophers.cpp:51-62 | entry mutex 1, nothing waiting anywhere, exactly one occupancy token |
| SemMonitor.Enter | dining-philosophers.cpp:108 | entering is enabled iff the entry mutex is positive, and it takes one token |
| SemMonitor.Leave | dining-philosophers.cpp:130-135 | leaving posts `next_sem` iff `next_count > 0`, otherwise the entry mutex; one token is released |
| SemMonitor.WaitBegin | dining-philosophers.cpp:73-83 | `condition_wait` counts the caller as a waiter on that condition, then posts `next_sem` if a signaller sleeps and the entry mutex otherwise; nothing else changes |
| SemMonitor.WaitEnd | dining-philosophers.cpp:84-86 | a waiter resumes only with a post on its condition; it takes that condition's post and stops counting itself, and nothing else changes |
| SemMonitor.Signal | dining-philosophers.cpp:90-103 | `condition_post` with no waiter changes nothing; otherwise it posts that condition alone and the signaller counts itself as sleeping on `next_sem`, and nothing else changes |
| SemMonitor.SignalEnd | dining-philosophers.cpp:99-101 | a sleeping signaller resumes only after a post on `next_sem`; it takes that post and stops counting itself, and nothing else changes |
| SemMonitor.InitInv | dining-philosophers.cpp:47-63 | the initial monitor satisfies the one-token invariant |
| SemMonitor.ApplyPreservesInv | dining-philosophers.cpp:73-135 | every enter, exit, wait, signal and resumption keeps exactly one occupancy token, with each post matched by a counted waiter |
| SemMonitor.MutualExclusion | dining-philosophers.cpp:29-31 | at most one thread runs inside the monitor |
| SemMonitor.TokenNeverLost | dining-philosophers.cpp:73-103 | with nobody inside, some entrant, sleeping signaller or waiter can always take occupancy |
| SemMonitor.SleeperHasPriority | dining-philosophers.cpp:130-135 | while a signaller sleeps, leaving hands over to it and never reopens the entry mutex |
| RoundSelection.PromptCapacity | dining-philosophers.cpp:269-278 | the accepted chopstick count is the first input in `[5, 10]`; none is accepted iff no input is in range |
| RoundSelection.FirstOccurrences | dining-philosophers.cpp:312-318 | the selection list holds each drawn number once, exactly the numbers drawn |
| RoundSelection.FirstOccurrencesOrder | dining-philosophers.cpp:312-318 | the selection list is in invitation order: one number precedes another exactly when its first draw came earlier |
| RoundSelection.SelectStep | dining-philosophers.cpp:312-319 | one draw appends the number iff it is not yet selected |
| RoundSelection.SelectRound | dining-philosophers.cpp:311-321 | the list has no duplicates and at most five entries, and is the draws so far in first-appearance order; it stops at the first draw that completes the five, and a stop with five selected means every philosopher 0..4 is in the list |
| RoundSelection.RoundWhenFull | dining-philosophers.cpp:311 | distinct philosopher numbers form a complete round exactly when there are five of them |
| RoundSelection.InviteRounds | dining-philosophers.cpp:308-326 | round `r` is the first-appearance list of the draws between two cut points, starting where the previous round stopped and stopping at the first complete round; every round before the last is complete, and a run ends on an incomplete round only when the draws have run out |
| Primes.IsComposite | prime-number-check-threads.cpp:26-41 | `isComposite(n)` iff some `d` with `1 < d < n` divides `n`; false for `n <= 3`; true for `n > 3` divisible by 2 or 3 |
| Primes.TrialDivision | prime-number-check-threads.cpp:36-40 | the `6k ± 1` loop finds a divisor iff `n` is composite |
| Primes.SixStep | prime-number-check-threads.cpp:36-38 | after testing `i` and `i + 2`, no divisor lies below `i + 6` |
| Primes.NineDigit | prime-number-check-threads.cpp:56 | every generated number lies in `[100000000, 999999999]` |
| Primes.LeapfrogIndex | prime-number-check-threads.cpp:78 | index `n*k + id` has remainder `id` and quotient `k` |
| Primes.LeapfrogMembers | prime-number-check-threads.cpp:76-84 | the indices `id, id+n, ...` below the size are exactly those below the size congruent to `id` |
| Primes.Worker | prime-number-check-threads.cpp:70-87 | thread `id` visits exactly the indices `≡ id (mod n)`, writes `isComposite` there and nothing elsewhere |
| Primes.RunWorkers | prime-number-check-threads.cpp:113-121 | after all `n >= 1` threads, `results[i] == isComposite(numbers[i])` for every index; with `n == 0` no thread runs and the array is left as it was |
| Primes.Tally | prime-number-check-threads.cpp:123-136 | `numComp` counts the composite results and `numPrime + numComp` equals the number of results |
| Shell.EdgeOfChar | shell-simulator.cpp:190-199 | the first or last `find`/`rfind` position of a character is at an edge iff the line starts or ends with it |
| Shell.RejectedIff | shell-simulator.cpp:189-204 | an ordinary line is rejected iff it is empty or starts or ends with `<`, `>` or the pipe character |
| Shell.TrailingLoopCondition | shell-simulator.cpp:216-217 | the trailing-space loop continues iff the side is empty or ends in a space |
| Shell.AllSpacesSpin | shell-simulator.cpp:216-221 | a side of spaces only is cut down to the empty string, where the loop condition still holds forever |
| Shell.TrimTrailing | shell-simulator.cpp:216-221 | on a side with a non-space, the loop leaves a non-empty prefix ending in a non-space, having removed only spaces |
| Shell.LeadingLoopCondition | shell-simulator.cpp:223-224 | `find(" ") == 0` iff the string starts with a space |
| Shell.TrimLeading | shell-simulator.cpp:223-228 | the leading-space loop leaves a suffix not starting with a space, having removed only spaces |
| Shell.Trim | shell-simulator.cpp:215-243 | a side is cut to a non-empty substring with no space at either end, with only spaces outside it |
| Shell.SplitCommands | shell-simulator.cpp:246-266 | a trimmed side is one command if it has no space; otherwise exactly two, `first + " " + second == side`, with no space in `first` |
| Shell.SplitRoundTrip | shell-simulator.cpp:246-255 | rejoining the commands with one space gives back the side |
| Shell.NormalCommand | shell-simulator.cpp:130-158 | a command is backgrounded iff it contains `&`; then the executed command is the input minus its last two characters (a one-character `&` is kept whole) |
| Shell.ParseLine | shell-simulator.cpp:180-213 | quits iff the line is exactly `exit`; a line without `$` takes the ordinary path; otherwise it is cut at its first `$` |
| Shell.ParseNormal | shell-simulator.cpp:188-204 | an ordinary line is invalid iff empty or starting or ending with a redirection character, and otherwise launched |
| Shell.ParsePipe | shell-simulator.cpp:207-266 | the sides are the text before and after the first `$`; the parse hangs iff a side has no non-space; otherwise each side is trimmed and split |
| Shell.SideRoundTrip | shell-simulator.cpp:215-255 | a side's one or two commands, rejoined, are the side without surrounding spaces |
| Shell.PipeRoundTrip | shell-simulator.cpp:210-266 | both sides of a `$` line parse into one or two commands that rejoin to the trimmed sides |
| Trays.Dish | buffer-restaurant.cpp:146 | `rand() % 2 + 1` is dish 1 or 2 |
| Trays.NewTray | buffer-restaurant.cpp:51-67 | a new tray has every slot 0, `in == out == 0`, no dishes and ten free slots |
| Trays.Produce | buffer-restaurant.cpp:139-161 | enabled iff a slot is free; writes the dish at `in`, advances `in` modulo 10, appends the dish to the contents |
| Trays.ProduceKeepsInv | buffer-restaurant.cpp:146-148 | producing keeps the ring invariant and appends exactly the new dish |
| Trays.ProduceContents | buffer-restaurant.cpp:147-148 | writing at `in` and advancing it appends the dish to the queue read from `out` |
| Trays.Consume | buffer-restaurant.cpp:181-204 | enabled iff a dish is present; returns the dish at `out`, zeroes that slot, advances `out` modulo 10, frees one slot, removes the front of the contents |
| Trays.ConsumeKeepsInv | buffer-restaurant.cpp:188-190 | consuming keeps the ring invariant; the removed dish is 1 or 2 |
| Trays.ConsumeContents | buffer-restaurant.cpp:188-190 | reading at `out`, clearing it and advancing it removes the front of the queue |
| Trays.StepTray | buffer-restaurant.cpp:139-204 | a put is enabled iff the dish is 1 or 2 and a slot is free, takes nothing and appends the dish; a take is enabled iff a dish is present and hands out exactly the front dish |
| Trays.RunTray | buffer-restaurant.cpp:139-204 | any run of completed steps keeps the tray invariant and takes at most one dish per step |
| Trays.Fifo | buffer-restaurant.cpp:139-204 | dishes are consumed in exactly the order they were produced |
| Trays.HybridConsume | buffer-restaurant.cpp:309-349 | enabled iff both trays hold a dish; removes the front dish of each and frees one slot in each |
| Trays.Open | buffer-restaurant.cpp:51-67 | both trays start valid and empty |
| Trays.Act | buffer-restaurant.cpp:133-356 | each of the five threads' steps is enabled exactly under its semaphore waits, keeps both trays valid, leaves the other tray untouched; a chef appends its dish `rand() % 2 + 1`, a customer removes the front dish, and the hybrid customer removes the front of both trays |
| Trays.CountSlots | buffer-restaurant.cpp:104-108 | the loop counts the non-zero slots of each tray |
| Trays.CountItems | buffer-restaurant.cpp:101-108 | the counted items of each tray equal its number of dishes |
| Cafeteria.AddCustomer | fifo-cafeteria-simulation.cpp:147-169 | appends at the back, keeps the rest of the queue, always signals "non-empty" |
| Cafeteria.GetCustomer | fifo-cafeteria-simulation.cpp:111-145 | enabled iff the queue is non-empty; returns the front, removes only it, signals iff a customer remains |
| Cafeteria.RunQueue | fifo-cafeteria-simulation.cpp:111-169 | a run of monitor calls hands out at most one customer per call |
| Cafeteria.ServedInArrivalOrder | fifo-cafeteria-simulation.cpp:111-169 | customers handed out, followed by those still queued, are the initial queue followed by those added, in order |
| Cafeteria.Stoi | fifo-cafeteria-simulation.cpp:331-332 | `stoi` succeeds only with a value inside 32-bit `int` |
| Cafeteria.StoiDecimal | fifo-cafeteria-simulation.cpp:331-332 | `stoi` reads back the decimal text of any `int`, whatever non-digit text follows |
| Cafeteria.FieldsAsWritten | fifo-cafeteria-simulation.cpp:328-330 | the two `substr` calls give the text before and after the first space, or the whole line twice when there is no space |
| Cafeteria.ParseLine | fifo-cafeteria-simulation.cpp:328-332 | a line parses iff both fields pass `stoi`, and the result is the pair of values |
| Cafeteria.ReadStudents | fifo-cafeteria-simulation.cpp:322-341 | lines are read up to the first empty one; the two vectors have equal length, the number of lines read; each entry is that line's pair; failure iff some such line fails `stoi` |
| Cafeteria.ParseFormatted | fifo-cafeteria-simulation.cpp:323-332 | the line `arrival eating` written for any two `int`s parses back to the same pair |
| Cafeteria.Arrivals | fifo-cafeteria-simulation.cpp:199-218 | the `m`-th customer added has id `m`, eating time `eatings[m]`, the arrival clock reading, and is real |
| Cafeteria.Serve | fifo-cafeteria-simulation.cpp:240-265 | a fake customer stops the table; otherwise `turnaround == finish - arrival` and `waiting + eating == turnaround` |
| Cafeteria.WaitingIsQueueTime | fifo-cafeteria-simulation.cpp:249-259 | with the clock read right after eating, the waiting time is the non-negative time spent queued |
| Cafeteria.StartClosing | fifo-cafeteria-simulation.cpp:281-287 | the shutdown starts with an empty queue, four fakes to add and all four tables waiting |
| Cafeteria.CloseStep | fifo-cafeteria-simulation.cpp:242-294 | the exit thread's step is enabled iff fakes remain, appends one fake and counts it off; a table's step is enabled iff it still runs and the queue is non-empty, pops exactly the front, and taking a fake stops exactly that table |
| Cafeteria.ClosingProgress | fifo-cafeteria-simulation.cpp:286-294 | while some table still runs, the exit thread or some table can make a step |
| Cafeteria.ClosingQuiet | fifo-cafeteria-simulation.cpp:286-294 | when no step is possible, every table has stopped and no fake is left |
| Cafeteria.RunClosing | fifo-cafeteria-simulation.cpp:240-294 | any run of shutdown steps keeps "only fakes queued, one per running table" |
| Cafeteria.TakersDistinct | fifo-cafeteria-simulation.cpp:245-247 | no table takes two fakes, and a table still runs iff it has not taken one |
| Cafeteria.EachTableTakesOneFake | fifo-cafeteria-simulation.cpp:287-294 | at the end of the shutdown each of the four tables took exactly one fake and stopped |

## Left out

- Threads, joins, `pthread_barrier`, `sleep`, `chrono` clocks and semaphore wake order are not modelled. Blocking is "not enabled", and clock readings and `rand()` values are inputs. Interleavings of operations are sequences of steps, not concurrent executions.
- The busy-wait loops in the cafeteria's producer and exit threads are not modelled. The shutdown model starts at the point those loops wait for: every real customer has left.
- All floating-point averages and percentages are left out: philosophers' waiting times, the proportion of primes, and the rounding of the cafeteria clock.
- `fork`, `execvp`, `pipe`, `dup2`, `system` and `waitpid` are left out, and so is the command execution in `rightSideCommand`. `Shell.NormalCommand` states what would be launched and whether the parent waits.
- Console and file I/O are left out. The first line of the cafeteria input holds the unused quantum and is skipped.
- The cafeteria's `QueueMonitor` is the same semaphore construction as the waiter's. It is modelled once in `SemMonitor`, and the queue's own state lives in `AddCustomer`/`GetCustomer`.
- Out-of-range accesses to `ids[5]`, `tids[5]` and `sems[5]` in the philosophers' `main`, the reused thread handles in the restaurant, and the stack-allocated fake customers whose address outlives the loop are memory errors. They are not behaviour and are not modelled.
- The hybrid consumer holds the non-vegan mutex while waiting on the vegan tray. This can only delay other threads, and it is not modelled.
- The restaurant's count loop reads the trays without the mutexes. The model counts a consistent tray.
- Lines containing NUL characters are not modelled. `strcmp` and `strlen` stop at the first NUL, while the model compares whole strings.
- `Shell.ParseLine` positions held in 32-bit `int` variables are not truncated. A line must be shorter than 2^64 characters, and lines of 2^31 characters or more would be truncated by the program.
- `Cafeteria.ParseLine` likewise keeps the position of the first space in an unbounded integer. The program stores it in an `int` (fifo-cafeteria-simulation.cpp:318, 328), so a first space at position 2^31 or later would be truncated there and split the line elsewhere; the model splits it at the space.
- `Waiter.PostAfterTake` and `Waiter.ReturnChopsticks` test "at least two" on the counter right after the operation's own update. In the program that test runs after the first `condition_post`, which may already have let a woken waiter take a chopstick; that hand-off timing is not modelled, so the model evaluates the test before any woken waiter runs.
- `Primes.RunWorkers` with `n == 0` leaves the results array as it was; in the program that array is fresh `malloc` memory nobody wrote, so its contents are an input (`garbage`) rather than defined values.
- `Primes.IsComposite` uses unbounded integers. In the program, `i*i` overflows 32 bits only for `n` above 46337², and the generated inputs are nine-digit numbers.
- `Cafeteria.Serve` computes turnaround and waiting times without 32-bit wrap-around. The clock readings are seconds since start, but arrival and eating times come from the input file through `stoi` and can be any `int`, so extreme file values would wrap in the program and not in the model.
- `Cafeteria.Stoi` promises only that its value is in the `int` range. Its exact reading of digits is stated by `Cafeteria.StoiDecimal` and the definition itself. Locale-dependent white space beyond the C locale's six characters is not modelled.
- `RoundSelection.SelectRound` cannot model a random generator that never draws some philosopher. With a finite sequence of draws, running out of draws ends the round incomplete instead of looping forever.
- The per-round `pthread_barrier` of six parties (dining-philosophers.cpp:249, 325) holds the next round's invitations until every philosopher has finished the current round. It is not modelled: `RoundSelection.InviteRounds` treats the rounds as consecutive pieces of the draw sequence and takes the number of rounds (3 in the program) as a parameter.
