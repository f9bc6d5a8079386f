/** What the steps of the state machine mean for the wrappers they mention: the closing that the
    events tell of is the closing that wrappers undergo. */
module GlsClosing {
  import opened GlsSpec
  import opened GlsValue

  /** What a handler does: calls by whichever goroutine happens to run it or runs beside it, up to its
      end or to a panic. */
  datatype Handler<G, K, C> = Handler(id: nat, body: seq<Command<G, K, C>>)

  datatype Command<G, K, C> = Do(gp: G, act: Act<K, DataImpl<C>, Handler<G, K, C>>) | Panic

  /** The wrappers that a handler may store, itself or through the handlers it registers. */
  ghost function WrappersIn<G, K, C>(h: Handler<G, K, C>): set<DataImpl<C>>
    decreases h
  {
    set i, d | 0 <= i < |h.body| && h.body[i].Do? && d in WrappersOf(h.body[i].act) :: d
  }

  ghost function WrappersOf<G, K, C>(act: Act<K, DataImpl<C>, Handler<G, K, C>>): set<DataImpl<C>>
    decreases act
  {
    match act
    case Set(_, d) => {d}
    case AtExit(h) => WrappersIn(h)
    case _ => {}
  }

  ghost predicate EntryWithin<G, K, C>(e: Entry<K, DataImpl<C>, Handler<G, K, C>>, u: set<DataImpl<C>>) {
    && (forall k | k in e.data :: e.data[k] in u)
    && (forall h | h in e.funcs :: WrappersIn(h) <= u)
  }

  /** Every wrapper held, and every one that a handler may still store, is among u. */
  ghost predicate Within<G, K, C>(st: State<G, K, DataImpl<C>, Handler<G, K, C>>, u: set<DataImpl<C>>) {
    && (forall gp | gp in st.entries :: EntryWithin(st.entries[gp], u))
    && (forall gp | gp in st.frames :: forall h | h in st.frames[gp] :: WrappersIn(h) <= u)
  }

  /** The wrappers that may be held after a step. */
  ghost function Known<G, K, C>(
      u: set<DataImpl<C>>, step: Step<G, K, DataImpl<C>, Handler<G, K, C>>): set<DataImpl<C>>
  {
    if step.Call? then u + WrappersOf(step.act) else u
  }

  lemma StepKeepsEntryWithin<G, K, C>(
      st: State<G, K, DataImpl<C>, Handler<G, K, C>>, step: Step<G, K, DataImpl<C>, Handler<G, K, C>>,
      u: set<DataImpl<C>>)
    requires EntryWithin(EntryOf(st, step.gp), u) && Enabled(st, step)
    ensures EntryWithin(EntryOf(After(st, step), step.gp), Known(u, step))
  {
  }

  lemma StepKeepsWithin<G, K, C>(
      st: State<G, K, DataImpl<C>, Handler<G, K, C>>, step: Step<G, K, DataImpl<C>, Handler<G, K, C>>,
      u: set<DataImpl<C>>)
    requires Within(st, u) && Enabled(st, step)
    ensures Within(After(st, step), Known(u, step))
  {
    var st', u' := After(st, step), Known(u, step);
    forall gp | gp in st'.entries
      ensures EntryWithin(st'.entries[gp], u')
    {
      if gp == step.gp {
        StepKeepsEntryWithin(st, step, u);
      } else {
        OthersUntouched(st, step, gp);
      }
    }
    forall gp | gp in st'.frames
      ensures forall h | h in st'.frames[gp] :: WrappersIn(h) <= u'
    {
      if gp == step.gp {
        StepKeepsFrameWithin(st, step, u);
      } else {
        OthersUntouched(st, step, gp);
      }
    }
  }

  lemma StepKeepsFrameWithin<G, K, C>(
      st: State<G, K, DataImpl<C>, Handler<G, K, C>>, step: Step<G, K, DataImpl<C>, Handler<G, K, C>>,
      u: set<DataImpl<C>>)
    requires Within(st, u) && Enabled(st, step) && step.gp in After(st, step).frames
    ensures forall h | h in After(st, step).frames[step.gp] :: WrappersIn(h) <= u
  {
  }

  ghost function Snapshot<C>(u: set<DataImpl<C>>): map<DataImpl<C>, Wrapper<C>>
    reads u
  {
    map d | d in u :: d.View()
  }

  /** Just the wrappers in shut have been shut. */
  ghost predicate JustShut<C>(
      w: map<DataImpl<C>, Wrapper<C>>, w': map<DataImpl<C>, Wrapper<C>>, shut: set<DataImpl<C>>)
  {
    forall d | d in w :: d in w' && w'[d] == if d in shut then w[d].Shut() else w[d]
  }

  /** One of the events from the n-th on is a bulk close that takes in d. */
  ghost predicate ClosedSince<G, K, D, H>(log: seq<Event<G, K, D, H>>, n: nat, d: D) {
    exists i :: n <= i < |log| && log[i].Closed? && d in log[i].all.Values
  }

  /** Between two moments each wrapper was shut if a bulk close took it in, and else left alone. */
  ghost predicate Settled<G, K, C, H>(
      w: map<DataImpl<C>, Wrapper<C>>, w': map<DataImpl<C>, Wrapper<C>>,
      log: seq<Event<G, K, DataImpl<C>, H>>, n: nat)
  {
    forall d | d in w :: d in w' && w'[d] == if ClosedSince(log, n, d) then w[d].Shut() else w[d]
  }

  lemma SinceJoins<G, K, D, H>(log: seq<Event<G, K, D, H>>, log': seq<Event<G, K, D, H>>, n: nat, d: D)
    requires n <= |log| && log <= log'
    ensures ClosedSince(log', n, d) <==> ClosedSince(log, n, d) || ClosedSince(log', |log|, d)
  {
    if ClosedSince(log, n, d) {
      var i :| n <= i < |log| && log[i].Closed? && d in log[i].all.Values;
      assert log'[i] == log[i];
    }
  }

  lemma SettledOn<G, K, C, H>(
      a: map<DataImpl<C>, Wrapper<C>>, b: map<DataImpl<C>, Wrapper<C>>, c: map<DataImpl<C>, Wrapper<C>>,
      log: seq<Event<G, K, DataImpl<C>, H>>, log': seq<Event<G, K, DataImpl<C>, H>>, n: nat)
    requires n <= |log| && log <= log' && Settled(a, b, log, n) && Settled(b, c, log', |log|)
    ensures Settled(a, c, log', n)
  {
    forall d | d in a
      ensures ClosedSince(log', n, d) <==> ClosedSince(log, n, d) || ClosedSince(log', |log|, d)
    {
      SinceJoins(log, log', n, d);
    }
  }

  /** The store has made the steps, and the wrappers have gone along. */
  ghost predicate Made<G, K, C, H>(
      st: State<G, K, DataImpl<C>, H>, w: map<DataImpl<C>, Wrapper<C>>,
      steps: seq<Step<G, K, DataImpl<C>, H>>,
      st': State<G, K, DataImpl<C>, H>, w': map<DataImpl<C>, Wrapper<C>>)
  {
    && Legal(st, steps) && st' == Run(st, steps)
    && st.log <= st'.log && Settled(w, w', st'.log, |st.log|)
  }

  lemma NothingMade<G, K, C, H>(st: State<G, K, DataImpl<C>, H>, w: map<DataImpl<C>, Wrapper<C>>)
    ensures Made(st, w, [], st, w)
  {
  }

  lemma MadeOn<G, K, C, H>(
      st: State<G, K, DataImpl<C>, H>, a: map<DataImpl<C>, Wrapper<C>>, steps: seq<Step<G, K, DataImpl<C>, H>>,
      mid: State<G, K, DataImpl<C>, H>, b: map<DataImpl<C>, Wrapper<C>>, more: seq<Step<G, K, DataImpl<C>, H>>,
      st': State<G, K, DataImpl<C>, H>, c: map<DataImpl<C>, Wrapper<C>>)
    requires Made(st, a, steps, mid, b) && Made(mid, b, more, st', c)
    ensures Made(st, a, steps + more, st', c)
  {
    RunSplits(st, steps, more);
    SettledOn(a, b, c, mid.log, st'.log, |st.log|);
  }

  /** What a step takes out of an entry to close it. */
  ghost function ClosedBy<G, K, D, H>(st: State<G, K, D, H>, step: Step<G, K, D, H>): map<K, D>
    requires Enabled(st, step)
  {
    var e := EntryOf(st, step.gp);
    match step
    case Call(_, Reset) => if e.done then map[] else e.data
    case Call(_, Unload) => if e.done then map[] else e.data
    case EndExit(_) => e.data
    case _ => map[]
  }

  /** A step's bulk close, if there is one, takes in just what the step takes out. */
  lemma StepCloses<G, K, D, H>(st: State<G, K, D, H>, step: Step<G, K, D, H>, d: D)
    requires Enabled(st, step)
    ensures ClosedSince(After(st, step).log, |st.log|, d) <==> d in ClosedBy(st, step).Values
  {
    var es, log := EventsOf(st, step), After(st, step).log;
    assert log == st.log + es;
    EventOfClosing(st, step);
    if d in ClosedBy(st, step).Values {
      var i :| 0 <= i < |es| && es[i].Closed?;
      assert log[|st.log| + i] == es[i];
    }
  }

  /** Closing what a step takes out settles the step. */
  lemma StepMade<G, K, C, H>(
      st: State<G, K, DataImpl<C>, H>, w: map<DataImpl<C>, Wrapper<C>>,
      step: Step<G, K, DataImpl<C>, H>, w': map<DataImpl<C>, Wrapper<C>>)
    requires Enabled(st, step) && JustShut(w, w', ClosedBy(st, step).Values)
    ensures Made(st, w, [step], After(st, step), w')
  {
    RunOne(st, step);
    assert After(st, step).log == st.log + EventsOf(st, step);
    forall d | d in w
      ensures ClosedSince(After(st, step).log, |st.log|, d) <==> d in ClosedBy(st, step).Values
    {
      StepCloses(st, step, d);
    }
  }

  lemma EventOfClosing<G, K, D, H>(st: State<G, K, D, H>, step: Step<G, K, D, H>)
    requires Enabled(st, step)
    ensures forall e | e in EventsOf(st, step) && e.Closed? :: e.all == ClosedBy(st, step)
    ensures ClosedBy(st, step) != map[] ==> exists i :: 0 <= i < |EventsOf(st, step)| && EventsOf(st, step)[i].Closed?
  {
    var es := EventsOf(st, step);
    assert step.EndExit? ==> es[0].Closed?;
    assert step.Call? && step.act.Reset? && es != [] ==> es[0].Closed?;
    assert step.Call? && step.act.Unload? && es != [] ==> es[1].Closed?;
  }

  /** What happens to a store from outside: a call, or the exit of a goroutine. */
  datatype Request<G, K, C> = Request(gp: G, act: Act<K, DataImpl<C>, Handler<G, K, C>>) | Exit(gp: G)

  /** Where a handler's body ends: at its first panic or behind its last call. */
  ghost function BodyEnd<G, K, C>(body: seq<Command<G, K, C>>): (n: nat)
    ensures n <= |body| && (forall i | 0 <= i < n :: body[i].Do?) && (n < |body| ==> body[n].Panic?)
  {
    if body == [] || body[0].Panic? then 0 else 1 + BodyEnd(body[1..])
  }

  /** The first n calls of a body. */
  ghost function CallsUpTo<G, K, C>(body: seq<Command<G, K, C>>, n: nat):
    (r: seq<Step<G, K, DataImpl<C>, Handler<G, K, C>>>)
    requires n <= BodyEnd(body)
    ensures |r| == n && forall i | 0 <= i < n :: r[i] == Call(body[i].gp, body[i].act)
  {
    if n == 0 then [] else CallsUpTo(body, n - 1) + [Call(body[n - 1].gp, body[n - 1].act)]
  }

  /** One handler run to its end or to its panic. */
  ghost function HandlerSteps<G, K, C>(gp: G, h: Handler<G, K, C>): seq<Step<G, K, DataImpl<C>, Handler<G, K, C>>> {
    [RunHandler(gp)] + CallsUpTo(h.body, BodyEnd(h.body))
  }

  /** The handlers from the n-th on, run newest first. */
  ghost function HandlersFrom<G, K, C>(gp: G, funcs: seq<Handler<G, K, C>>, n: nat):
    seq<Step<G, K, DataImpl<C>, Handler<G, K, C>>>
    requires n <= |funcs|
    decreases |funcs| - n
  {
    if n == |funcs| then [] else HandlersFrom(gp, funcs, n + 1) + HandlerSteps(gp, funcs[n])
  }

  /** The newer handlers' steps come first. */
  lemma {:induction false} NewerFirst<G, K, C>(gp: G, funcs: seq<Handler<G, K, C>>, n: nat, i: nat)
    requires n <= i <= |funcs|
    ensures HandlersFrom(gp, funcs, i) <= HandlersFrom(gp, funcs, n)
    decreases i - n
  {
    if i > n {
      NewerFirst(gp, funcs, n + 1, i);
      PrefixOfMore(HandlersFrom(gp, funcs, i), HandlersFrom(gp, funcs, n + 1), HandlerSteps(gp, funcs[n]));
    }
  }

  lemma PrefixOfMore<T>(a: seq<T>, b: seq<T>, c: seq<T>)
    requires a <= b
    ensures a <= b + c
  {
  }

  /** The handler is started at that place, and right behind come the calls of its body in order, up to
      its first panic. */
  ghost predicate StandsAt<G, K, C>(
      steps: seq<Step<G, K, DataImpl<C>, Handler<G, K, C>>>, from: nat, gp: G, h: Handler<G, K, C>)
  {
    && from + 1 + BodyEnd(h.body) <= |steps| && steps[from] == RunHandler(gp)
    && forall j | 0 <= j < BodyEnd(h.body) :: steps[from + 1 + j] == Call(h.body[j].gp, h.body[j].act)
  }

  lemma OwnSteps<G, K, C>(gp: G, h: Handler<G, K, C>, newer: seq<Step<G, K, DataImpl<C>, Handler<G, K, C>>>)
    ensures |newer + HandlerSteps(gp, h)| == |newer| + 1 + BodyEnd(h.body)
    ensures StandsAt(newer + HandlerSteps(gp, h), |newer|, gp, h)
  {
    var calls := CallsUpTo(h.body, BodyEnd(h.body));
    forall j | 0 <= j < BodyEnd(h.body)
      ensures (newer + HandlerSteps(gp, h))[|newer| + 1 + j] == Call(h.body[j].gp, h.body[j].act)
    {
      assert HandlerSteps(gp, h)[1 + j] == calls[j];
    }
  }

  lemma StandsInMore<G, K, C>(
      steps: seq<Step<G, K, DataImpl<C>, Handler<G, K, C>>>, more: seq<Step<G, K, DataImpl<C>, Handler<G, K, C>>>,
      from: nat, gp: G, h: Handler<G, K, C>)
    requires steps <= more && StandsAt(steps, from, gp, h)
    ensures StandsAt(more, from, gp, h)
  {
  }

  /** Each handler stands in the exit right behind the newer ones. */
  lemma HandlerInPlace<G, K, C>(gp: G, funcs: seq<Handler<G, K, C>>, i: nat)
    requires i < |funcs|
    ensures |HandlersFrom(gp, funcs, i)| == |HandlersFrom(gp, funcs, i + 1)| + 1 + BodyEnd(funcs[i].body)
    ensures StandsAt(HandlersFrom(gp, funcs, 0), |HandlersFrom(gp, funcs, i + 1)|, gp, funcs[i])
  {
    var newer := HandlersFrom(gp, funcs, i + 1);
    NewerFirst(gp, funcs, 0, i);
    OwnSteps(gp, funcs[i], newer);
    StandsInMore(HandlersFrom(gp, funcs, i), HandlersFrom(gp, funcs, 0), |newer|, gp, funcs[i]);
  }

  lemma {:induction false} HandlersStayInside<G, K, C>(gp: G, funcs: seq<Handler<G, K, C>>, n: nat)
    requires n <= |funcs|
    ensures NoExitEdge(HandlersFrom(gp, funcs, n))
    decreases |funcs| - n
  {
    if n < |funcs| {
      HandlersStayInside(gp, funcs, n + 1);
      NoExitEdgeJoins(HandlersFrom(gp, funcs, n + 1), HandlerSteps(gp, funcs[n]));
    }
  }

  /** A whole exit whose entry holds these handlers. */
  ghost function ExitSteps<G, K, C>(gp: G, funcs: seq<Handler<G, K, C>>):
    seq<Step<G, K, DataImpl<C>, Handler<G, K, C>>>
  {
    [BeginExit(gp)] + HandlersFrom(gp, funcs, 0) + [EndExit(gp)]
  }

  /** The steps that one request takes. */
  ghost function AnswerTo<G, K, C>(st: State<G, K, DataImpl<C>, Handler<G, K, C>>, r: Request<G, K, C>):
    seq<Step<G, K, DataImpl<C>, Handler<G, K, C>>>
  {
    match r
    case Request(gp, act) => [Call(gp, act)]
    case Exit(gp) => if gp in st.entries then ExitSteps(gp, st.entries[gp].funcs) else []
  }

  /** The steps that a series of requests takes, one after the other. */
  ghost function AnswersTo<G, K, C>(st: State<G, K, DataImpl<C>, Handler<G, K, C>>, rs: seq<Request<G, K, C>>):
    seq<Step<G, K, DataImpl<C>, Handler<G, K, C>>>
    decreases |rs|
  {
    if rs == [] then []
    else
      var first := AnswerTo(st, rs[0]);
      first + if Legal(st, first) then AnswersTo(Run(st, first), rs[1..]) else []
  }

  /** A call is its one step; an exit begins, goes through the handlers of its entry, and ends. */
  lemma AnswerIs<G, K, C>(st: State<G, K, DataImpl<C>, Handler<G, K, C>>, r: Request<G, K, C>)
    ensures r.Request? ==> AnswerTo(st, r) == [Call(r.gp, r.act)]
    ensures r.Exit? && r.gp !in st.entries ==> AnswerTo(st, r) == []
    ensures r.Exit? && r.gp in st.entries ==>
              var steps, inner := AnswerTo(st, r), HandlersFrom(r.gp, st.entries[r.gp].funcs, 0);
              |steps| == |inner| + 2 && steps[0] == BeginExit(r.gp) && steps[|steps| - 1] == EndExit(r.gp)
              && steps[1..|steps| - 1] == inner
  {
  }

  lemma AnswersHead<G, K, C>(st: State<G, K, DataImpl<C>, Handler<G, K, C>>, rs: seq<Request<G, K, C>>)
    requires rs != [] && Legal(st, AnswersTo(st, rs))
    ensures var first := AnswerTo(st, rs[0]);
            && Legal(st, first)
            && var rest := AnswersTo(Run(st, first), rs[1..]);
            && AnswersTo(st, rs) == first + rest && Legal(Run(st, first), rest)
            && Run(st, AnswersTo(st, rs)) == Run(Run(st, first), rest)
  {
    var first, all := AnswerTo(st, rs[0]), AnswersTo(st, rs);
    assert all == first + all[|first|..];
    RunSplits(st, first, all[|first|..]);
  }

  /** Requests are answered one after the other, each in the state that those before it leave. */
  lemma {:induction false} AnswersJoin<G, K, C>(
      st: State<G, K, DataImpl<C>, Handler<G, K, C>>, a: seq<Request<G, K, C>>, r: Request<G, K, C>)
    requires Legal(st, AnswersTo(st, a))
    ensures AnswersTo(st, a + [r]) == AnswersTo(st, a) + AnswerTo(Run(st, AnswersTo(st, a)), r)
    decreases |a|
  {
    if a == [] {
      assert [r][1..] == [] && a + [r] == [r];
    } else {
      AnswersHead(st, a);
      var first := AnswerTo(st, a[0]);
      assert (a + [r])[1..] == a[1..] + [r];
      AnswersJoin(Run(st, first), a[1..], r);
      Associates(first, AnswersTo(Run(st, first), a[1..]), AnswerTo(Run(st, AnswersTo(st, a)), r));
    }
  }

  ghost function WrappersOfAll<G, K, C>(rs: seq<Request<G, K, C>>): set<DataImpl<C>> {
    set i, d | 0 <= i < |rs| && rs[i].Request? && d in WrappersOf(rs[i].act) :: d
  }
}
