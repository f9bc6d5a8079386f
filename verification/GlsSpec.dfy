/** The life of goroutine-local stores as a state machine. Steps of different goroutines, and calls
    made by exit handlers while an exit is in progress, interleave freely; a handler is whatever
    calls happen between its start and the next start, so one that panics is one that stops early. */
module GlsSpec {
  import opened Sequences

  datatype Act<K, D, H> =
    | Set(key: K, data: D)
    | Del(key: K)
    | AtExit(handler: H)
    | Reset
    | Unload

  datatype Step<G, K, D, H> =
    | Call(gp: G, act: Act<K, D, H>)
    | BeginExit(gp: G)
    | RunHandler(gp: G)
    | EndExit(gp: G)

  datatype Entry<K, D, H> = Entry(data: map<K, D>, funcs: seq<H>, done: bool)

  /** What a step is observed to do to stored values and handlers. */
  datatype Event<G, K, D, H> =
    | Stored(gp: G, key: K, data: D)
    | Replaced(gp: G, key: K, data: D)
    | Deleted(gp: G, key: K, data: D)
    | Closed(gp: G, all: map<K, D>)
    | Registered(gp: G, handler: H)
    | Dropped(gp: G)
    | Began(gp: G)
    | Ran(gp: G, handler: H)
    | Ended(gp: G)

  /** frames holds, for each exit in progress, the captured handlers that have not been started. */
  datatype State<G, K, D, H> = State(
    entries: map<G, Entry<K, D, H>>, frames: map<G, seq<H>>, log: seq<Event<G, K, D, H>>)

  ghost function Initial<G, K, D, H>(): State<G, K, D, H> {
    State(map[], map[], [])
  }

  /** The goroutine's entry, or the fresh one that a first write creates. */
  ghost function EntryOf<G, K, D, H>(st: State<G, K, D, H>, gp: G): Entry<K, D, H> {
    if gp in st.entries then st.entries[gp] else Entry(map[], [], false)
  }

  ghost predicate Enabled<G, K, D, H>(st: State<G, K, D, H>, step: Step<G, K, D, H>) {
    match step
    case Call(_, _) => true
    case BeginExit(gp) => gp !in st.frames
    case RunHandler(gp) => gp in st.frames && st.frames[gp] != []
    case EndExit(gp) => gp in st.frames && st.frames[gp] == []
  }

  /** The events of a step, oldest first. */
  ghost function EventsOf<G, K, D, H>(st: State<G, K, D, H>, step: Step<G, K, D, H>): seq<Event<G, K, D, H>>
    requires Enabled(st, step)
  {
    var gp := step.gp;
    var e := EntryOf(st, gp);
    match step
    case Call(_, Set(k, d)) =>
      if k in e.data then [Replaced(gp, k, e.data[k]), Stored(gp, k, d)] else [Stored(gp, k, d)]
    case Call(_, Del(k)) => if k in e.data then [Deleted(gp, k, e.data[k])] else []
    case Call(_, AtExit(h)) => [Registered(gp, h)]
    case Call(_, Reset) => if gp !in st.entries || e.done then [] else [Closed(gp, e.data)]
    case Call(_, Unload) => if gp !in st.entries || e.done then [] else [Dropped(gp), Closed(gp, e.data)]
    case BeginExit(_) => if gp !in st.entries then [] else [Began(gp)]
    case RunHandler(_) => [Ran(gp, st.frames[gp][|st.frames[gp]| - 1])]
    case EndExit(_) => [Closed(gp, e.data), Ended(gp)]
  }

  ghost function After<G, K, D, H>(st: State<G, K, D, H>, step: Step<G, K, D, H>): State<G, K, D, H>
    requires Enabled(st, step)
  {
    var gp := step.gp;
    var e := EntryOf(st, gp);
    var next := st.(log := st.log + EventsOf(st, step));
    match step
    case Call(_, Set(k, d)) => next.(entries := st.entries[gp := e.(data := e.data[k := d])])
    case Call(_, Del(k)) =>
      if gp !in st.entries then next else next.(entries := st.entries[gp := e.(data := e.data - {k})])
    case Call(_, AtExit(h)) => next.(entries := st.entries[gp := e.(funcs := e.funcs + [h])])
    case Call(_, Reset) =>
      if gp !in st.entries || e.done then next else next.(entries := st.entries[gp := e.(data := map[])])
    case Call(_, Unload) => if gp !in st.entries || e.done then next else next.(entries := st.entries - {gp})
    case BeginExit(_) =>
      if gp !in st.entries then next
      else next.(entries := st.entries[gp := e.(funcs := [], done := true)], frames := st.frames[gp := e.funcs])
    case RunHandler(_) => next.(frames := st.frames[gp := st.frames[gp][..|st.frames[gp]| - 1]])
    case EndExit(_) => next.(entries := st.entries - {gp}, frames := st.frames - {gp})
  }

  ghost function Run<G, K, D, H>(st: State<G, K, D, H>, steps: seq<Step<G, K, D, H>>): State<G, K, D, H>
    requires Legal(st, steps)
    decreases |steps|
  {
    if steps == [] then st else Run(After(st, steps[0]), steps[1..])
  }

  ghost predicate Legal<G, K, D, H>(st: State<G, K, D, H>, steps: seq<Step<G, K, D, H>>)
    decreases |steps|
  {
    steps == [] || (Enabled(st, steps[0]) && Legal(After(st, steps[0]), steps[1..]))
  }

  lemma {:induction false} RunSplits<G, K, D, H>(
      st: State<G, K, D, H>, a: seq<Step<G, K, D, H>>, b: seq<Step<G, K, D, H>>)
    ensures Legal(st, a + b) <==> Legal(st, a) && Legal(Run(st, a), b)
    ensures Legal(st, a + b) ==> Run(st, a + b) == Run(Run(st, a), b)
    decreases |a|
  {
    if a == [] {
      assert a + b == b;
    } else {
      assert (a + b)[1..] == a[1..] + b;
      if Enabled(st, a[0]) {
        RunSplits(After(st, a[0]), a[1..], b);
      }
    }
  }

  lemma RunOne<G, K, D, H>(st: State<G, K, D, H>, step: Step<G, K, D, H>)
    requires Enabled(st, step)
    ensures Legal(st, [step]) && Run(st, [step]) == After(st, step)
  {
    assert [step][1..] == [];
  }

  /** An entry is marked done exactly while its goroutine's exit is in progress. */
  ghost predicate Inv<G, K, D, H>(st: State<G, K, D, H>) {
    && (forall gp | gp in st.frames :: gp in st.entries)
    && (forall gp | gp in st.entries :: st.entries[gp].done <==> gp in st.frames)
  }

  lemma StepKeepsInv<G, K, D, H>(st: State<G, K, D, H>, step: Step<G, K, D, H>)
    requires Inv(st) && Enabled(st, step)
    ensures Inv(After(st, step))
  {
  }

  lemma {:induction false} RunKeepsInv<G, K, D, H>(st: State<G, K, D, H>, steps: seq<Step<G, K, D, H>>)
    requires Inv(st) && Legal(st, steps)
    ensures Inv(Run(st, steps))
    decreases |steps|
  {
    if steps != [] {
      StepKeepsInv(st, steps[0]);
      RunKeepsInv(After(st, steps[0]), steps[1..]);
    }
  }

  // ---- Conservation of stored values ----

  /** What the events say about one key of one goroutine. Bad means that a value was stored over one
      still held, or that something was closed, replaced or deleted that was not the value held, or
      that a bulk close left the value out. */
  datatype Slot<D> = Empty | Holds(data: D) | Bad

  ghost function SlotNext<G, K, D, H>(s: Slot<D>, gp: G, key: K, e: Event<G, K, D, H>): Slot<D> {
    if e.gp != gp then s
    else
      match e
      case Stored(_, k, d) => if k != key then s else if s.Empty? then Holds(d) else Bad
      case Replaced(_, k, d) => if k != key then s else if s == Holds(d) then Empty else Bad
      case Deleted(_, k, d) => if k != key then s else if s == Holds(d) then Empty else Bad
      case Closed(_, all) => if s == (if key in all then Holds(all[key]) else Empty) then Empty else Bad
      case _ => s
  }

  /** The slot after the first n events. */
  ghost function SlotUpTo<G, K, D, H>(log: seq<Event<G, K, D, H>>, n: nat, gp: G, key: K): Slot<D>
    requires n <= |log|
  {
    if n == 0 then Empty else SlotNext(SlotUpTo(log, n - 1, gp, key), gp, key, log[n - 1])
  }

  ghost function SlotAt<G, K, D, H>(log: seq<Event<G, K, D, H>>, gp: G, key: K): Slot<D> {
    SlotUpTo(log, |log|, gp, key)
  }

  /** What the goroutine's entry says about the key. */
  ghost function Live<G, K, D, H>(st: State<G, K, D, H>, gp: G, key: K): Slot<D> {
    var data := EntryOf(st, gp).data;
    if key in data then Holds(data[key]) else Empty
  }

  /** The slot automaton applied to a step's one or two events. */
  ghost function SlotOver<G, K, D, H>(s: Slot<D>, gp: G, key: K, es: seq<Event<G, K, D, H>>): Slot<D> {
    if es == [] then s
    else if |es| == 1 then SlotNext(s, gp, key, es[0])
    else SlotNext(SlotNext(s, gp, key, es[0]), gp, key, es[1])
  }

  lemma StepMovesSlot<G, K, D, H>(st: State<G, K, D, H>, step: Step<G, K, D, H>, key: K)
    requires Inv(st) && Enabled(st, step)
    ensures |EventsOf(st, step)| <= 2
    ensures SlotOver(Live(st, step.gp, key), step.gp, key, EventsOf(st, step)) == Live(After(st, step), step.gp, key)
  {
    match step {
      case Call(_, Set(_, _)) =>
      case Call(_, Del(_)) =>
      case Call(_, AtExit(_)) =>
      case Call(_, Reset) =>
      case Call(_, Unload) =>
      case BeginExit(_) =>
      case RunHandler(_) =>
      case EndExit(_) =>
    }
  }

  lemma OthersUntouched<G, K, D, H>(st: State<G, K, D, H>, step: Step<G, K, D, H>, gp: G)
    requires Enabled(st, step) && step.gp != gp
    ensures var st' := After(st, step);
            && (gp in st'.entries <==> gp in st.entries) && EntryOf(st', gp) == EntryOf(st, gp)
            && (gp in st'.frames <==> gp in st.frames) && (gp in st.frames ==> st'.frames[gp] == st.frames[gp])
            && |EventsOf(st, step)| <= 2 && forall i | 0 <= i < |EventsOf(st, step)| :: EventsOf(st, step)[i].gp != gp
  {
  }

  lemma {:induction false} SlotPrefix<G, K, D, H>(
      log: seq<Event<G, K, D, H>>, es: seq<Event<G, K, D, H>>, n: nat, gp: G, key: K)
    requires n <= |log|
    ensures SlotUpTo(log + es, n, gp, key) == SlotUpTo(log, n, gp, key)
  {
    if n > 0 {
      SlotPrefix(log, es, n - 1, gp, key);
    }
  }

  lemma SlotAppend<G, K, D, H>(log: seq<Event<G, K, D, H>>, es: seq<Event<G, K, D, H>>, gp: G, key: K)
    requires |es| <= 2
    ensures SlotAt(log + es, gp, key) == SlotOver(SlotAt(log, gp, key), gp, key, es)
  {
    SlotPrefix(log, es, |log|, gp, key);
    if |es| == 2 {
      assert SlotUpTo(log + es, |log| + 1, gp, key) == SlotNext(SlotAt(log, gp, key), gp, key, es[0]);
    }
  }

  lemma StepConserves<G, K, D, H>(st: State<G, K, D, H>, step: Step<G, K, D, H>, gp: G, key: K)
    requires Inv(st) && Enabled(st, step) && SlotAt(st.log, gp, key) == Live(st, gp, key)
    ensures SlotAt(After(st, step).log, gp, key) == Live(After(st, step), gp, key)
  {
    StepMovesSlot(st, step, key);
    SlotAppend(st.log, EventsOf(st, step), gp, key);
    assert After(st, step).log == st.log + EventsOf(st, step);
    if step.gp != gp {
      OthersUntouched(st, step, gp);
    }
  }

  /** Over every run, what the events account for is what the store holds. In particular no slot goes
      Bad: each stored value ends by exactly one of replacement, deletion and closing. */
  lemma {:induction false} Conservation<G, K, D, H>(st: State<G, K, D, H>, steps: seq<Step<G, K, D, H>>, gp: G, key: K)
    requires Inv(st) && Legal(st, steps) && SlotAt(st.log, gp, key) == Live(st, gp, key)
    ensures SlotAt(Run(st, steps).log, gp, key) == Live(Run(st, steps), gp, key)
    decreases |steps|
  {
    if steps != [] {
      StepConserves(st, steps[0], gp, key);
      StepKeepsInv(st, steps[0]);
      Conservation(After(st, steps[0]), steps[1..], gp, key);
    }
  }

  predicate Stores<G(==), K(==), D, H>(e: Event<G, K, D, H>, gp: G, key: K) {
    e.Stored? && e.gp == gp && e.key == key
  }

  predicate Ends<G(==), K(==), D, H>(e: Event<G, K, D, H>, gp: G, key: K) {
    e.gp == gp && (((e.Replaced? || e.Deleted?) && e.key == key) || (e.Closed? && key in e.all))
  }

  ghost function CountStores<G, K, D, H>(log: seq<Event<G, K, D, H>>, n: nat, gp: G, key: K): nat
    requires n <= |log|
  {
    if n == 0 then 0 else CountStores(log, n - 1, gp, key) + if Stores(log[n - 1], gp, key) then 1 else 0
  }

  ghost function CountEnds<G, K, D, H>(log: seq<Event<G, K, D, H>>, n: nat, gp: G, key: K): nat
    requires n <= |log|
  {
    if n == 0 then 0 else CountEnds(log, n - 1, gp, key) + if Ends(log[n - 1], gp, key) then 1 else 0
  }

  lemma {:induction false} SlotCounts<G, K, D, H>(log: seq<Event<G, K, D, H>>, n: nat, gp: G, key: K)
    requires n <= |log| && SlotUpTo(log, n, gp, key) != Bad
    ensures CountStores(log, n, gp, key)
            == CountEnds(log, n, gp, key) + if SlotUpTo(log, n, gp, key).Holds? then 1 else 0
  {
    if n > 0 {
      SlotCounts(log, n - 1, gp, key);
    }
  }

  /** Counted: over every run from the empty store, the values stored under a key are those replaced,
      deleted and closed there, plus the one still held. */
  lemma StoresBalance<G, K, D, H>(steps: seq<Step<G, K, D, H>>, gp: G, key: K)
    requires Legal(Initial<G, K, D, H>(), steps)
    ensures var st := Run(Initial<G, K, D, H>(), steps);
            CountStores(st.log, |st.log|, gp, key)
            == CountEnds(st.log, |st.log|, gp, key) + if key in EntryOf(st, gp).data then 1 else 0
  {
    Conservation(Initial<G, K, D, H>(), steps, gp, key);
    var log := Run(Initial<G, K, D, H>(), steps).log;
    SlotCounts(log, |log|, gp, key);
  }

  // ---- Exit handlers ----

  ghost function PendingUpTo<G, K, D, H>(log: seq<Event<G, K, D, H>>, n: nat, gp: G): seq<H>
    requires n <= |log|
  {
    if n == 0 then [] else PendingNext(PendingUpTo(log, n - 1, gp), gp, log[n - 1])
  }

  /** The handlers registered since the goroutine's handlers were last dropped, captured or ended. */
  ghost function Pending<G, K, D, H>(log: seq<Event<G, K, D, H>>, gp: G): seq<H> {
    PendingUpTo(log, |log|, gp)
  }

  ghost function RanUpTo<G, K, D, H>(log: seq<Event<G, K, D, H>>, n: nat, gp: G): seq<H>
    requires n <= |log|
  {
    if n == 0 then [] else RanNext(RanUpTo(log, n - 1, gp), gp, log[n - 1])
  }

  /** The handlers of the goroutine that have been run, in the order in which they were. */
  ghost function RanBy<G, K, D, H>(log: seq<Event<G, K, D, H>>, gp: G): seq<H> {
    RanUpTo(log, |log|, gp)
  }

  /** A step's events as Pending sees them. */
  ghost function PendingNext<G, K, D, H>(before: seq<H>, gp: G, e: Event<G, K, D, H>): seq<H> {
    if e.gp != gp then before
    else if e.Registered? then before + [e.handler]
    else if e.Dropped? || e.Began? || e.Ended? then []
    else before
  }

  ghost function RanNext<G, K, D, H>(before: seq<H>, gp: G, e: Event<G, K, D, H>): seq<H> {
    if e.Ran? && e.gp == gp then before + [e.handler] else before
  }

  ghost function PendingOver<G, K, D, H>(before: seq<H>, gp: G, es: seq<Event<G, K, D, H>>): seq<H> {
    if es == [] then before
    else if |es| == 1 then PendingNext(before, gp, es[0])
    else PendingNext(PendingNext(before, gp, es[0]), gp, es[1])
  }

  ghost function RanOver<G, K, D, H>(before: seq<H>, gp: G, es: seq<Event<G, K, D, H>>): seq<H> {
    if es == [] then before
    else if |es| == 1 then RanNext(before, gp, es[0])
    else RanNext(RanNext(before, gp, es[0]), gp, es[1])
  }

  lemma {:induction false} LogPrefix<G, K, D, H>(log: seq<Event<G, K, D, H>>, es: seq<Event<G, K, D, H>>, n: nat, gp: G)
    requires n <= |log|
    ensures RanUpTo(log + es, n, gp) == RanUpTo(log, n, gp)
    ensures PendingUpTo(log + es, n, gp) == PendingUpTo(log, n, gp)
  {
    if n > 0 {
      LogPrefix(log, es, n - 1, gp);
    }
  }

  lemma LogAppend<G, K, D, H>(log: seq<Event<G, K, D, H>>, es: seq<Event<G, K, D, H>>, gp: G)
    requires |es| <= 2
    ensures RanBy(log + es, gp) == RanOver(RanBy(log, gp), gp, es)
    ensures Pending(log + es, gp) == PendingOver(Pending(log, gp), gp, es)
  {
    LogPrefix(log, es, |log|, gp);
    if |es| == 2 {
      assert RanUpTo(log + es, |log| + 1, gp) == RanNext(RanBy(log, gp), gp, es[0]);
      assert PendingUpTo(log + es, |log| + 1, gp) == PendingNext(Pending(log, gp), gp, es[0]);
    }
  }

  lemma StepMovesHandlers<G, K, D, H>(st: State<G, K, D, H>, step: Step<G, K, D, H>, ran: seq<H>)
    requires Inv(st) && Enabled(st, step)
    ensures |EventsOf(st, step)| <= 2
    ensures PendingOver(EntryOf(st, step.gp).funcs, step.gp, EventsOf(st, step))
            == EntryOf(After(st, step), step.gp).funcs
    ensures RanOver(ran, step.gp, EventsOf(st, step))
            == if step.RunHandler? then ran + [st.frames[step.gp][|st.frames[step.gp]| - 1]] else ran
  {
    match step {
      case Call(_, Set(_, _)) =>
      case Call(_, Del(_)) =>
      case Call(_, AtExit(_)) =>
      case Call(_, Reset) =>
      case Call(_, Unload) =>
      case BeginExit(_) =>
      case RunHandler(_) =>
      case EndExit(_) =>
    }
  }

  lemma StepKeepsPending<G, K, D, H>(st: State<G, K, D, H>, step: Step<G, K, D, H>, gp: G)
    requires Inv(st) && Enabled(st, step) && Pending(st.log, gp) == EntryOf(st, gp).funcs
    ensures Pending(After(st, step).log, gp) == EntryOf(After(st, step), gp).funcs
  {
    StepMovesHandlers(st, step, []);
    if step.gp != gp {
      OthersUntouched(st, step, gp);
    }
    LogAppend(st.log, EventsOf(st, step), gp);
    assert After(st, step).log == st.log + EventsOf(st, step);
  }

  lemma StepRuns<G, K, D, H>(st: State<G, K, D, H>, step: Step<G, K, D, H>, gp: G)
    requires Inv(st) && Enabled(st, step)
    ensures RanBy(After(st, step).log, gp)
            == RanBy(st.log, gp) + if step == RunHandler(gp) then [st.frames[gp][|st.frames[gp]| - 1]] else []
  {
    var ran, es := RanBy(st.log, gp), EventsOf(st, step);
    StepMovesHandlers(st, step, ran);
    LogAppend(st.log, es, gp);
    assert After(st, step).log == st.log + es;
    if step.gp != gp {
      OthersUntouched(st, step, gp);
      assert RanOver(ran, gp, es) == ran;
    }
  }

  /** Over every run, the entry holds exactly the registered and not yet dropped or captured handlers. */
  lemma {:induction false} HandlersArePending<G, K, D, H>(st: State<G, K, D, H>, steps: seq<Step<G, K, D, H>>, gp: G)
    requires Inv(st) && Legal(st, steps) && Pending(st.log, gp) == EntryOf(st, gp).funcs
    ensures Pending(Run(st, steps).log, gp) == EntryOf(Run(st, steps), gp).funcs
    decreases |steps|
  {
    if steps != [] {
      StepKeepsPending(st, steps[0], gp);
      StepKeepsInv(st, steps[0]);
      HandlersArePending(After(st, steps[0]), steps[1..], gp);
    }
  }

  lemma Associates<T>(a: seq<T>, b: seq<T>, c: seq<T>)
    ensures (a + b) + c == a + (b + c)
  {
  }

  lemma ReverseFromTheEnd<T>(s: seq<T>, m: nat)
    requires m < |s|
    ensures Reversed(s[m..]) == [s[|s| - 1]] + Reversed(s[..|s| - 1][m..])
  {
  }

  /** A step other than the end of the exit leaves the captured handlers alone or starts the newest. */
  lemma StepInExit<G, K, D, H>(st: State<G, K, D, H>, step: Step<G, K, D, H>, gp: G)
    requires Inv(st) && Enabled(st, step) && gp in st.frames && step != EndExit(gp)
    ensures var st' := After(st, step); var funcs := st.frames[gp];
            && Inv(st') && gp in st'.frames
            && st'.frames[gp] == if step == RunHandler(gp) then funcs[..|funcs| - 1] else funcs
  {
    StepKeepsInv(st, step);
    if step.gp != gp {
      OthersUntouched(st, step, gp);
    }
  }

  /** While an exit is in progress, whatever is called in between: the captured handlers are run from
      the newest back, nothing else is, and the entry stays and stays marked. */
  lemma {:induction false} ExitProgress<G, K, D, H>(st: State<G, K, D, H>, steps: seq<Step<G, K, D, H>>, gp: G)
    requires Inv(st) && Legal(st, steps) && gp in st.frames && EndExit(gp) !in steps
    ensures var st' := Run(st, steps);
            && gp in st'.frames && gp in st'.entries && st'.entries[gp].done
            && st'.frames[gp] <= st.frames[gp]
            && RanBy(st'.log, gp) == RanBy(st.log, gp) + Reversed(st.frames[gp][|st'.frames[gp]|..])
    decreases |steps|
  {
    if steps == [] {
      assert st.frames[gp][|st.frames[gp]|..] == [];
    } else {
      var mid := After(st, steps[0]);
      assert steps[0] != EndExit(gp);
      StepInExit(st, steps[0], gp);
      StepRuns(st, steps[0], gp);
      ExitProgress(mid, steps[1..], gp);
      if steps[0] == RunHandler(gp) {
        var funcs, m := st.frames[gp], |Run(mid, steps[1..]).frames[gp]|;
        ReverseFromTheEnd(funcs, m);
        Associates(RanBy(st.log, gp), [funcs[|funcs| - 1]], Reversed(mid.frames[gp][m..]));
      }
    }
  }

  lemma {:induction false} NoExitWithoutBegin<G, K, D, H>(st: State<G, K, D, H>, steps: seq<Step<G, K, D, H>>, gp: G)
    requires Legal(st, steps) && gp !in st.frames && BeginExit(gp) !in steps
    ensures gp !in Run(st, steps).frames
    decreases |steps|
  {
    if steps != [] {
      assert steps[0] != BeginExit(gp);
      NoExitWithoutBegin(After(st, steps[0]), steps[1..], gp);
    }
  }

  /** No exit begins or ends in these steps. */
  ghost predicate NoExitEdge<G, K, D, H>(steps: seq<Step<G, K, D, H>>) {
    forall i | 0 <= i < |steps| :: !steps[i].BeginExit? && !steps[i].EndExit?
  }

  lemma NoExitEdgeJoins<G, K, D, H>(a: seq<Step<G, K, D, H>>, b: seq<Step<G, K, D, H>>)
    requires NoExitEdge(a) && NoExitEdge(b)
    ensures NoExitEdge(a + b)
  {
  }

  lemma WholeExit<G, K, D, H>(st: State<G, K, D, H>, during: seq<Step<G, K, D, H>>, gp: G)
    requires Inv(st) && Enabled(st, BeginExit(gp)) && Legal(After(st, BeginExit(gp)), during)
    requires Enabled(Run(After(st, BeginExit(gp)), during), EndExit(gp))
    requires BeginExit(gp) !in during && EndExit(gp) !in during
    ensures var st' := After(Run(After(st, BeginExit(gp)), during), EndExit(gp));
            && gp in st.entries && gp !in st'.entries && gp !in st'.frames
            && RanBy(st'.log, gp) == RanBy(st.log, gp) + Reversed(st.entries[gp].funcs)
  {
    var begun := After(st, BeginExit(gp));
    StepRuns(st, BeginExit(gp), gp);
    StepKeepsInv(st, BeginExit(gp));
    if gp !in begun.frames {
      NoExitWithoutBegin(begun, during, gp);
    }
    ExitProgress(begun, during, gp);
    RunKeepsInv(begun, during);
    StepRuns(Run(begun, during), EndExit(gp), gp);
    assert begun.frames[gp][0..] == begun.frames[gp];
  }

  /** A whole exit as one series of steps. */
  lemma ExitRuns<G, K, D, H>(st: State<G, K, D, H>, during: seq<Step<G, K, D, H>>, gp: G)
    requires Inv(st) && Legal(st, [BeginExit(gp)] + during + [EndExit(gp)])
    requires BeginExit(gp) !in during && EndExit(gp) !in during
    ensures gp in st.entries
    ensures RanBy(Run(st, [BeginExit(gp)] + during + [EndExit(gp)]).log, gp)
            == RanBy(st.log, gp) + Reversed(st.entries[gp].funcs)
  {
    RunSplits(st, [BeginExit(gp)] + during, [EndExit(gp)]);
    RunSplits(st, [BeginExit(gp)], during);
    RunOne(st, BeginExit(gp));
    RunOne(Run(After(st, BeginExit(gp)), during), EndExit(gp));
    WholeExit(st, during, gp);
  }

  /** What the log of a whole life accounts for: the values held, counted and one by one, and the
      handlers waiting. */
  ghost predicate Balanced<G(!new), K(!new), D, H>(st: State<G, K, D, H>) {
    && (forall gp, key :: SlotAt(st.log, gp, key) == Live(st, gp, key))
    && (forall gp, key :: CountStores(st.log, |st.log|, gp, key)
                          == CountEnds(st.log, |st.log|, gp, key) + if key in EntryOf(st, gp).data then 1 else 0)
    && (forall gp :: Pending(st.log, gp) == EntryOf(st, gp).funcs)
  }

  lemma RunBalances<G(!new), K(!new), D, H>(steps: seq<Step<G, K, D, H>>)
    requires Legal(Initial<G, K, D, H>(), steps)
    ensures Balanced(Run(Initial<G, K, D, H>(), steps))
  {
    var st := Run(Initial<G, K, D, H>(), steps);
    forall gp, key
      ensures SlotAt(st.log, gp, key) == Live(st, gp, key)
      ensures CountStores(st.log, |st.log|, gp, key)
              == CountEnds(st.log, |st.log|, gp, key) + if key in EntryOf(st, gp).data then 1 else 0
    {
      Conservation(Initial<G, K, D, H>(), steps, gp, key);
      StoresBalance<G, K, D, H>(steps, gp, key);
    }
    forall gp
      ensures Pending(st.log, gp) == EntryOf(st, gp).funcs
    {
      HandlersArePending(Initial<G, K, D, H>(), steps, gp);
    }
  }
}
