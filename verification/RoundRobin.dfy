/**
  How evenly the wrapping round-robin counter deals creates out to the pooled sockets. Every accepted
  create counts, dropped or repeated ones included; deletes do not.
 */
module RoundRobin {
  import opened Wrappers
  import opened Bytes
  import opened PooledEndpoint
  import opened ManagerProtocol
  import opened ManagerTheorems

  // ------------------------------------------------------------------ which socket the k-th create gets

  predicate AcceptedCreate(a: Action) {
    a.StartCreate? && a.ufrag.Some? && a.ufrag.value != [] && a.target.Some?
  }

  /** The socket that action `a`, having led to `m`, put a create on. */
  function ChosenBy(a: Action, m: Manager): seq<nat> {
    if AcceptedCreate(a) && m.request.Pending? then [m.request.socket] else []
  }

  /** The sockets that the creates of a run were put on, in order. */
  function Chosen(capacity: nat, ports: seq<u16>, actions: seq<Action>): seq<nat>
    requires Exec(capacity, ports, actions).Some?
  {
    if actions == [] then []
    else
      var before, a := actions[..|actions| - 1], actions[|actions| - 1];
      Chosen(capacity, ports, before) + ChosenBy(a, Do(capacity, Exec(capacity, ports, before).value, a))
  }

  /** The socket of the `k`-th selection on a counter that wraps at `wrap`. */
  function Selected(k: nat, size: nat, wrap: nat): nat
    requires size > 0 && wrap > 0
  {
    k % wrap % size
  }

  /** The selections so far are those of the counter, which has counted them. */
  ghost predicate DealtOut(m: Manager, chosen: seq<nat>, size: nat)
    requires size > 0
  {
    && |m.pool| == size
    && m.next == |chosen| % USIZE_MODULUS
    && forall k | 0 <= k < |chosen| :: chosen[k] == Selected(k, size, USIZE_MODULUS)
  }

  /** Cancelled or not, the creates of a run are dealt out by the wrapping counter. */
  lemma {:induction false} CreatesAreDealtOut(capacity: nat, ports: seq<u16>, actions: seq<Action>)
    requires ports != [] && Exec(capacity, ports, actions).Some?
    ensures DealtOut(Exec(capacity, ports, actions).value, Chosen(capacity, ports, actions), |ports|)
  {
    if actions == [] {
      RemainderOfLess(0, USIZE_MODULUS);
    } else {
      var before, a := actions[..|actions| - 1], actions[|actions| - 1];
      CreatesAreDealtOut(capacity, ports, before);
      StepDealsOut(capacity, Exec(capacity, ports, before).value, a, Chosen(capacity, ports, before), |ports|);
    }
  }

  lemma StepDealsOut(capacity: nat, m: Manager, a: Action, chosen: seq<nat>, size: nat)
    requires size > 0 && DealtOut(m, chosen, size) && Enabled(capacity, m, a)
    ensures var m' := Do(capacity, m, a);
      DealtOut(m', chosen + ChosenBy(a, m'), size)
  {
    AdvanceCounts(|chosen|);
    CounterMovesOnAcceptance(capacity, m, a);
  }

  lemma RemainderOfLess(n: nat, wrap: nat)
    requires n < wrap
    ensures n % wrap == n
  {
  }

  lemma CounterMovesOnAcceptance(capacity: nat, m: Manager, a: Action)
    requires m.pool != [] && Enabled(capacity, m, a)
    ensures var m' := Do(capacity, m, a);
      && |m'.pool| == |m.pool|
      && if AcceptedCreate(a)
         then m'.next == Advance(m.next) && m'.request.Pending? && m'.request.socket == Pick(m.next, |m.pool|)
         else m'.next == m.next
  {
  }

  lemma AdvanceCounts(n: nat)
    ensures Advance(n % USIZE_MODULUS) == (n + 1) % USIZE_MODULUS
  {
  }

  // ------------------------------------------------------------------ counting residues

  /** How many `k` in `[a, b)` are put on socket `j`. */
  function Load(a: nat, b: nat, j: nat, size: nat, wrap: nat): nat
    requires size > 0 && wrap > 0
    decreases b
  {
    if b <= a then 0
    else Load(a, b - 1, j, size, wrap) + (if Selected(b - 1, size, wrap) == j then 1 else 0)
  }

  function Below(n: nat, j: nat, size: nat): nat
    requires size > 0
  {
    if n == 0 then 0 else Below(n - 1, j, size) + (if (n - 1) % size == j then 1 else 0)
  }

  lemma DivisionIsUnique(n: nat, size: nat, q: nat, r: nat)
    requires n == size * q + r && r < size
    ensures n / size == q && n % size == r
  {
    MultiplesAreApart(size, n / size, q);
    MultiplesAreApart(size, q, n / size);
  }

  lemma {:induction false} MultiplesAreApart(size: nat, x: nat, y: nat)
    ensures x < y ==> size * y >= size * x + size
    decreases y
  {
    if x < y {
      MultiplesAreApart(size, x, y - 1);
      assert size * y == size * (y - 1) + size;
    }
  }

  lemma ShiftedRemainder(start: nat, x: nat, wrap: nat)
    requires x < wrap && start % wrap == 0
    ensures (start + x) % wrap == x
  {
    DivisionIsUnique(start + x, wrap, start / wrap, x);
  }

  lemma DivisionStep(n: nat, size: nat)
    requires size > 0
    ensures if n % size == size - 1
      then (n + 1) / size == n / size + 1 && (n + 1) % size == 0
      else (n + 1) / size == n / size && (n + 1) % size == n % size + 1
  {
    var q, r := n / size, n % size;
    if r == size - 1 {
      assert size * (q + 1) == size * q + size;
      DivisionIsUnique(n + 1, size, q + 1, 0);
    } else {
      DivisionIsUnique(n + 1, size, q, r + 1);
    }
  }

  lemma {:induction false} BelowIsQuotient(n: nat, j: nat, size: nat)
    requires j < size
    ensures Below(n, j, size) == n / size + (if j < n % size then 1 else 0)
  {
    if n > 0 {
      BelowIsQuotient(n - 1, j, size);
      DivisionStep(n - 1, size);
    } else {
      DivisionIsUnique(0, size, 0, 0);
    }
  }

  /** The window lies between two wraps: in the turn of the counter that begins at `start`. */
  predicate WithinTurn(a: nat, b: nat, wrap: nat, start: nat)
    requires wrap > 0
  {
    start % wrap == 0 && start <= a <= b <= start + wrap
  }

  lemma {:induction false} LoadWithinTurn(a: nat, b: nat, j: nat, size: nat, wrap: nat, start: nat)
    requires size > 0 && wrap > 0 && WithinTurn(a, b, wrap, start)
    ensures Load(a, b, j, size, wrap) == Below(b - start, j, size) - Below(a - start, j, size)
    decreases b
  {
    if a < b {
      LoadWithinTurn(a, b - 1, j, size, wrap, start);
      ShiftedRemainder(start, b - 1 - start, wrap);
    }
  }

  predicate Within(x: nat, y: nat, d: nat) {
    x <= y + d && y <= x + d
  }

  /** Between two wraps any window loads the sockets equally, up to one create. */
  lemma BalancedWithinTurn(a: nat, b: nat, i: nat, j: nat, size: nat, wrap: nat, start: nat)
    requires i < size && j < size && wrap > 0 && WithinTurn(a, b, wrap, start)
    ensures Within(Load(a, b, i, size, wrap), Load(a, b, j, size, wrap), 1)
  {
    LoadWithinTurn(a, b, i, size, wrap, start);
    LoadWithinTurn(a, b, j, size, wrap, start);
    BelowIsQuotient(a - start, i, size);
    BelowIsQuotient(a - start, j, size);
    BelowIsQuotient(b - start, i, size);
    BelowIsQuotient(b - start, j, size);
  }

  lemma {:induction false} LoadSplits(a: nat, c: nat, b: nat, j: nat, size: nat, wrap: nat)
    requires size > 0 && wrap > 0 && a <= c <= b
    ensures Load(a, b, j, size, wrap) == Load(a, c, j, size, wrap) + Load(c, b, j, size, wrap)
    decreases b
  {
    if c < b {
      LoadSplits(a, c, b - 1, j, size, wrap);
    }
  }

  /** A window shorter than the counter's range crosses one wrap at most, which costs one create. */
  lemma NearlyBalancedAcrossWrap(a: nat, b: nat, i: nat, j: nat, size: nat, wrap: nat)
    requires i < size && j < size && a <= b < a + wrap
    ensures Within(Load(a, b, i, size, wrap), Load(a, b, j, size, wrap), 2)
  {
    var start := TurnStart(a, wrap);
    var c := start + wrap;
    if b <= c {
      BalancedWithinTurn(a, b, i, j, size, wrap, start);
    } else {
      LoadSplits(a, c, b, i, size, wrap);
      LoadSplits(a, c, b, j, size, wrap);
      BalancedWithinTurn(a, c, i, j, size, wrap, start);
      BalancedWithinTurn(c, b, i, j, size, wrap, c);
    }
  }

  lemma TurnStart(a: nat, wrap: nat) returns (start: nat)
    requires wrap > 0
    ensures start <= a < start + wrap && start % wrap == 0 && (start + wrap) % wrap == 0
  {
    var turn := a / wrap;
    start := wrap * turn;
    DivisionIsUnique(start, wrap, turn, 0);
    assert start + wrap == wrap * (turn + 1);
    DivisionIsUnique(start + wrap, wrap, turn + 1, 0);
  }

  // ------------------------------------------------------------------ when the wrap costs nothing

  lemma RemainderOfRemainder(k: nat, size: nat, wrap: nat)
    requires size > 0 && wrap > 0 && wrap % size == 0
    ensures k % wrap % size == k % size
  {
    var turns, times, r := k / wrap, wrap / size, k % wrap;
    MultiplesRegroup(size, times, turns, r / size);
    DivisionIsUnique(k, size, times * turns + r / size, r % size);
  }

  lemma MultiplesRegroup(size: nat, times: nat, turns: nat, q: nat)
    ensures size * (times * turns + q) == size * times * turns + size * q
  {
    assert size * (times * turns) == size * times * turns;
  }

  lemma {:induction false} LoadWhenDividing(a: nat, b: nat, j: nat, size: nat, wrap: nat)
    requires size > 0 && wrap > 0 && wrap % size == 0 && a <= b
    ensures Load(a, b, j, size, wrap) == Below(b, j, size) - Below(a, j, size)
    decreases b
  {
    if a < b {
      LoadWhenDividing(a, b - 1, j, size, wrap);
      RemainderOfRemainder(b - 1, size, wrap);
    }
  }

  lemma RowStart(n: nat, size: nat)
    requires size > 0
    ensures (n - n % size) / size == n / size && (n - n % size) % size == 0
  {
    DivisionIsUnique(n - n % size, size, n / size, 0);
  }

  lemma LastPartialRow(size: nat, wrap: nat, j: nat)
    requires size > 0 && wrap > 0 && wrap % size != 0 && j < size
    ensures Load(wrap - wrap % size, wrap, j, size, wrap) == if j < wrap % size then 1 else 0
  {
    var r := wrap % size;
    assert WithinTurn(wrap - r, wrap, wrap, 0);
    LoadWithinTurn(wrap - r, wrap, j, size, wrap, 0);
    RowStart(wrap, size);
    BelowIsQuotient(wrap, j, size);
    BelowIsQuotient(wrap - r, j, size);
  }

  /** A window over the wrap that puts two creates on socket 0 and none on another. */
  lemma UnevenWindow(size: nat, wrap: nat) returns (a: nat, j: nat)
    requires size > 0 && wrap > 0 && wrap % size != 0
    ensures j == wrap % size && j < size && a == wrap - j
    ensures Load(a, wrap + 1, 0, size, wrap) == 2 && Load(a, wrap + 1, j, size, wrap) == 0
  {
    j := wrap % size;
    a := wrap - j;
    LastPartialRow(size, wrap, 0);
    LastPartialRow(size, wrap, j);
    FirstAfterWrap(size, wrap);
  }

  lemma FirstAfterWrap(size: nat, wrap: nat)
    requires size > 0 && wrap > 0
    ensures Selected(wrap, size, wrap) == 0
  {
    DivisionIsUnique(wrap, wrap, 1, 0);
    DivisionIsUnique(0, size, 0, 0);
  }

  lemma BalancedWhenDividing(a: nat, b: nat, i: nat, j: nat, size: nat, wrap: nat)
    requires i < size && j < size && wrap > 0 && wrap % size == 0 && a <= b
    ensures Within(Load(a, b, i, size, wrap), Load(a, b, j, size, wrap), 1)
  {
    LoadWhenDividing(a, b, i, size, wrap);
    LoadWhenDividing(a, b, j, size, wrap);
    BelowIsQuotient(a, i, size);
    BelowIsQuotient(a, j, size);
    BelowIsQuotient(b, i, size);
    BelowIsQuotient(b, j, size);
  }

  ghost predicate AlwaysBalanced(size: nat, wrap: nat)
    requires size > 0 && wrap > 0
  {
    forall a: nat, b: nat, i: nat, j: nat | a <= b && i < size && j < size ::
      Within(Load(a, b, i, size, wrap), Load(a, b, j, size, wrap), 1)
  }

  /** Every window is balanced up to one create exactly when the pool size divides the counter's range. */
  lemma BalancedExactlyWhenDividing(size: nat, wrap: nat)
    requires size > 0 && wrap > 0
    ensures AlwaysBalanced(size, wrap) <==> wrap % size == 0
  {
    if wrap % size == 0 {
      forall a: nat, b: nat, i: nat, j: nat | a <= b && i < size && j < size
        ensures Within(Load(a, b, i, size, wrap), Load(a, b, j, size, wrap), 1)
      {
        BalancedWhenDividing(a, b, i, j, size, wrap);
      }
    } else {
      var a, j := UnevenWindow(size, wrap);
      assert !Within(Load(a, wrap + 1, 0, size, wrap), Load(a, wrap + 1, j, size, wrap), 1);
    }
  }

  // ------------------------------------------------------------------ the manager's sockets

  /** How many of the selections `[a, b)` of a run went to socket `j`. */
  function Given(chosen: seq<nat>, a: nat, b: nat, j: nat): nat
    requires b <= |chosen|
    decreases b
  {
    if b <= a then 0 else Given(chosen, a, b - 1, j) + (if chosen[b - 1] == j then 1 else 0)
  }

  lemma {:induction false} GivenIsLoad(chosen: seq<nat>, a: nat, b: nat, j: nat, size: nat, wrap: nat)
    requires size > 0 && wrap > 0 && b <= |chosen|
    requires forall k | 0 <= k < |chosen| :: chosen[k] == Selected(k, size, wrap)
    ensures Given(chosen, a, b, j) == Load(a, b, j, size, wrap)
    decreases b
  {
    if a < b {
      GivenIsLoad(chosen, a, b - 1, j, size, wrap);
    }
  }

  /**
    In any run of the manager, over any window of creates: the sockets differ by at most one create
    between two wraps of the counter, or when the pool size divides the counter's range, and by at
    most two over any window shorter than that range.
   */
  lemma CreatesAreSpreadEvenly(capacity: nat, ports: seq<u16>, actions: seq<Action>, a: nat, b: nat, i: nat, j: nat)
    requires Exec(capacity, ports, actions).Some?
    requires a <= b <= |Chosen(capacity, ports, actions)| && i < |ports| && j < |ports|
    ensures var chosen := Chosen(capacity, ports, actions);
      var x, y := Given(chosen, a, b, i), Given(chosen, a, b, j);
      && (forall start | WithinTurn(a, b, USIZE_MODULUS, start) :: Within(x, y, 1))
      && (USIZE_MODULUS % |ports| == 0 ==> Within(x, y, 1))
      && (b < a + USIZE_MODULUS ==> Within(x, y, 2))
  {
    CreatesAreDealtOut(capacity, ports, actions);
    var chosen, wrap := Chosen(capacity, ports, actions), USIZE_MODULUS;
    GivenIsLoad(chosen, a, b, i, |ports|, wrap);
    GivenIsLoad(chosen, a, b, j, |ports|, wrap);
    forall start | WithinTurn(a, b, wrap, start)
      ensures Within(Given(chosen, a, b, i), Given(chosen, a, b, j), 1)
    {
      BalancedWithinTurn(a, b, i, j, |ports|, wrap, start);
    }
    if wrap % |ports| == 0 {
      BalancedWhenDividing(a, b, i, j, |ports|, wrap);
    }
    if b < a + wrap {
      NearlyBalancedAcrossWrap(a, b, i, j, |ports|, wrap);
    }
  }

  // ------------------------------------------------------------------ runs that reach the wrap

  /** What completes a request chooses no socket and takes nothing from the record. */
  lemma {:induction false} CompletionChoosesNothing(
    capacity: nat, ports: seq<u16>, actions: seq<Action>, longer: seq<Action>)
    requires FollowedByCompletion(actions, longer) && Exec(capacity, ports, longer).Some?
    ensures Exec(capacity, ports, actions).Some?
    ensures Chosen(capacity, ports, longer) == Chosen(capacity, ports, actions)
    ensures Exec(capacity, ports, actions).value.endpoints.Keys <= Exec(capacity, ports, longer).value.endpoints.Keys
    decreases |longer|
  {
    if actions != longer {
      CompletionChoosesNothing(capacity, ports, actions, longer[..|longer| - 1]);
    }
  }

  /** A different session for every number. */
  function Numbered(k: nat): SessionId {
    seq(k, _ => 's')
  }

  /** `n` creates, each for a session of its own and each completed, none dropped. */
  ghost predicate CreatesOnly(capacity: nat, ports: seq<u16>, actions: seq<Action>, n: nat) {
    && Exec(capacity, ports, actions).Some?
    && Exec(capacity, ports, actions).value.request.Idle?
    && |Chosen(capacity, ports, actions)| == n
    && NoCancel(actions)
    && forall k: nat | k < n ::
      (var socket := Chosen(capacity, ports, actions)[k];
       && socket < |ports|
       && Key(ports[socket], Numbered(k)) in Exec(capacity, ports, actions).value.endpoints)
  }

  /** There is a run with any number of completed creates, all of whose sessions are recorded. */
  lemma {:induction false} ManyCreates(capacity: nat, ports: seq<u16>, n: nat) returns (actions: seq<Action>)
    requires capacity > 0 && ports != [] && Distinct(ports)
    ensures CreatesOnly(capacity, ports, actions, n)
  {
    actions := [];
    if n > 0 {
      var before := ManyCreates(capacity, ports, n - 1);
      actions := OneMoreCreate(capacity, ports, before, n - 1);
    }
  }

  lemma OneMoreCreate(capacity: nat, ports: seq<u16>, before: seq<Action>, n: nat) returns (actions: seq<Action>)
    requires capacity > 0 && ports != [] && Distinct(ports) && CreatesOnly(capacity, ports, before, n)
    ensures CreatesOnly(capacity, ports, actions, n + 1)
  {
    var create := StartCreate(Numbered(n), Some([0x61]), Some(SocketAddr([127, 0, 0, 1], 5000)));
    var m := Exec(capacity, ports, before).value;
    ReachableIsInv(capacity, ports, before);
    var started, pending := before + [create], Do(capacity, m, create);
    ExecExtends(capacity, ports, before, create);
    assert started[..|before|] == before;
    actions := RequestsComplete(capacity, ports, started, pending);
    CompletionChoosesNothing(capacity, ports, started, actions);
    ReachableIsInv(capacity, ports, actions);
    assert forall a <- actions :: !a.Cancel? by {
      assert forall k | 0 <= k < |started| :: actions[k] == started[k];
    }
  }

  /** Every window of selections loads the sockets equally, up to one. */
  ghost predicate Even(chosen: seq<nat>, size: nat) {
    forall a: nat, b: nat, i: nat, j: nat | a <= b <= |chosen| && i < size && j < size ::
      Within(Given(chosen, a, b, i), Given(chosen, a, b, j), 1)
  }

  lemma UnevenSelections(chosen: seq<nat>, size: nat, wrap: nat) returns (a: nat, j: nat)
    requires size > 0 && wrap > 0 && wrap % size != 0 && |chosen| > wrap
    requires forall k | 0 <= k < |chosen| :: chosen[k] == Selected(k, size, wrap)
    ensures a <= wrap && j < size
    ensures Given(chosen, a, wrap + 1, 0) == 2 && Given(chosen, a, wrap + 1, j) == 0
    ensures !Even(chosen, size)
  {
    a, j := UnevenWindow(size, wrap);
    GivenIsLoad(chosen, a, wrap + 1, 0, size, wrap);
    GivenIsLoad(chosen, a, wrap + 1, j, size, wrap);
    assert !Within(Given(chosen, a, wrap + 1, 0), Given(chosen, a, wrap + 1, j), 1);
  }

  /** Unless the pool size divides the range, some run puts two creates on socket 0 and none on another. */
  lemma UnevenRun(capacity: nat, ports: seq<u16>) returns (actions: seq<Action>, a: nat, b: nat, j: nat)
    requires capacity > 0 && ports != [] && Distinct(ports) && USIZE_MODULUS % |ports| != 0
    ensures CreatesOnly(capacity, ports, actions, USIZE_MODULUS + 1)
    ensures a <= b == USIZE_MODULUS + 1 && j < |ports|
    ensures var chosen := Chosen(capacity, ports, actions);
      && Given(chosen, a, b, 0) == 2 && Given(chosen, a, b, j) == 0
      && !Even(chosen, |ports|)
  {
    actions := ManyCreates(capacity, ports, USIZE_MODULUS + 1);
    CreatesAreDealtOut(capacity, ports, actions);
    b := USIZE_MODULUS + 1;
    a, j := UnevenSelections(Chosen(capacity, ports, actions), |ports|, USIZE_MODULUS);
  }

  lemma EvenWhenDividing(capacity: nat, ports: seq<u16>, actions: seq<Action>)
    requires ports != [] && USIZE_MODULUS % |ports| == 0 && Exec(capacity, ports, actions).Some?
    ensures Even(Chosen(capacity, ports, actions), |ports|)
  {
    var chosen := Chosen(capacity, ports, actions);
    forall a: nat, b: nat, i: nat, j: nat | a <= b <= |chosen| && i < |ports| && j < |ports|
      ensures Within(Given(chosen, a, b, i), Given(chosen, a, b, j), 1)
    {
      CreatesAreSpreadEvenly(capacity, ports, actions, a, b, i, j);
    }
  }

  /** Every run spreads every window of creates evenly, up to one create, iff the pool size divides the range. */
  lemma RunsAreEvenExactlyWhenDividing(capacity: nat, ports: seq<u16>)
    requires capacity > 0 && ports != [] && Distinct(ports)
    ensures (forall actions | Exec(capacity, ports, actions).Some? :: Even(Chosen(capacity, ports, actions), |ports|))
       <==> USIZE_MODULUS % |ports| == 0
  {
    if USIZE_MODULUS % |ports| == 0 {
      forall actions | Exec(capacity, ports, actions).Some? ensures Even(Chosen(capacity, ports, actions), |ports|) {
        EvenWhenDividing(capacity, ports, actions);
      }
    } else {
      var actions, a, b, j := UnevenRun(capacity, ports);
      assert !Even(Chosen(capacity, ports, actions), |ports|);
    }
  }
}
