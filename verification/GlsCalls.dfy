/** What a run of the store comes to, told by its calls alone: whether a goroutine has an entry, what it
    holds, which handlers wait, and which values have been closed. The log plays no part here. */
module GlsCalls {
  import opened GlsClosing
  import opened GlsSpec
  import opened Sequences

  /** After the first n steps the goroutine has an entry: it has stored or registered something since it
      was last unloaded or ended. */
  ghost predicate HasEntry<G, K, D, H>(steps: seq<Step<G, K, D, H>>, n: nat, gp: G)
    requires n <= |steps|
  {
    if n == 0 then false
    else if steps[n - 1].gp != gp then HasEntry(steps, n - 1, gp)
    else
      match steps[n - 1]
      case Call(_, Set(_, _)) => true
      case Call(_, AtExit(_)) => true
      case Call(_, Unload) => HasEntry(steps, n - 1, gp) && InExit(steps, n - 1, gp)
      case EndExit(_) => false
      case _ => HasEntry(steps, n - 1, gp)
  }

  /** Its exit has begun and not ended. */
  ghost predicate InExit<G, K, D, H>(steps: seq<Step<G, K, D, H>>, n: nat, gp: G)
    requires n <= |steps|
  {
    if n == 0 then false
    else if steps[n - 1].gp != gp then InExit(steps, n - 1, gp)
    else
      match steps[n - 1]
      case BeginExit(_) => HasEntry(steps, n - 1, gp)
      case EndExit(_) => false
      case _ => InExit(steps, n - 1, gp)
  }

  /** The handlers that wait for the goroutine's exit: each call of AtExit adds one behind the others; an
      Unload outside an exit drops them, and an exit takes them when it begins. */
  ghost function Waiting<G, K, D, H>(steps: seq<Step<G, K, D, H>>, n: nat, gp: G): seq<H>
    requires n <= |steps|
  {
    if n == 0 then []
    else if steps[n - 1].gp != gp then Waiting(steps, n - 1, gp)
    else
      match steps[n - 1]
      case Call(_, AtExit(h)) => Waiting(steps, n - 1, gp) + [h]
      case Call(_, Unload) => if InExit(steps, n - 1, gp) then Waiting(steps, n - 1, gp) else []
      case BeginExit(_) => []
      case EndExit(_) => []
      case _ => Waiting(steps, n - 1, gp)
  }

  /** What the goroutine holds. */
  ghost function Held<G, K, D, H>(steps: seq<Step<G, K, D, H>>, n: nat, gp: G): map<K, D>
    requires n <= |steps|
  {
    if n == 0 then map[]
    else if steps[n - 1].gp != gp then Held(steps, n - 1, gp)
    else if ClosesEntry(steps, n - 1) then map[]
    else
      match steps[n - 1]
      case Call(_, Set(k, d)) => Held(steps, n - 1, gp)[k := d]
      case Call(_, Del(k)) => Held(steps, n - 1, gp) - {k}
      case _ => Held(steps, n - 1, gp)
  }

  /** The step closes whatever its goroutine holds: Reset and Unload outside an exit, and an exit's end. */
  ghost predicate ClosesEntry<G, K, D, H>(steps: seq<Step<G, K, D, H>>, i: nat)
    requires i < |steps|
  {
    match steps[i]
    case Call(gp, Reset) => !InExit(steps, i, gp)
    case Call(gp, Unload) => !InExit(steps, i, gp)
    case EndExit(_) => true
    case _ => false
  }

  /** One of the first n steps closes d. */
  ghost predicate ClosedIn<G, K, D, H>(steps: seq<Step<G, K, D, H>>, n: nat, d: D)
    requires n <= |steps|
  {
    exists i :: 0 <= i < n && ClosesEntry(steps, i) && d in Held(steps, i, steps[i].gp).Values
  }

  // ---- What the calls mean, one by one ----

  /** The step ends what is held under the key, or stores something else there. */
  predicate Touches<G, K(==), D, H>(step: Step<G, K, D, H>, key: K) {
    match step
    case Call(_, Set(k, _)) => k == key
    case Call(_, Del(k)) => k == key
    case Call(_, Reset) => true
    case Call(_, Unload) => true
    case EndExit(_) => true
    case _ => false
  }

  /** What has been stored is held until the goroutine stores there again, deletes, resets, unloads or
      exits; what has been deleted or closed stays away until it is stored again. */
  lemma {:induction false} LastTouchDecides<G, K, D, H>(steps: seq<Step<G, K, D, H>>, i: nat, n: nat, key: K)
    requires i < n <= |steps|
    requires forall j | i < j < n && steps[j].gp == steps[i].gp :: !Touches(steps[j], key)
    ensures var held := Held(steps, n, steps[i].gp);
            match steps[i]
            case Call(_, Set(k, d)) => k == key ==> key in held && held[key] == d
            case Call(_, Del(k)) => k == key ==> key !in held
            case _ => ClosesEntry(steps, i) ==> key !in held
  {
    if i < n - 1 {
      LastTouchDecides(steps, i, n - 1, key);
    }
  }

  /** A handler that has been registered waits until the goroutine unloads or exits. */
  lemma {:induction false} RegisteredWaits<G, K, D, H>(steps: seq<Step<G, K, D, H>>, i: nat, n: nat)
    requires i < n <= |steps| && steps[i].Call? && steps[i].act.AtExit?
    requires forall j | i < j < n && steps[j].gp == steps[i].gp ::
               !steps[j].BeginExit? && !steps[j].EndExit? && !(steps[j].Call? && steps[j].act.Unload?)
    ensures steps[i].act.handler in Waiting(steps, n, steps[i].gp)
  {
    if i < n - 1 {
      RegisteredWaits(steps, i, n - 1);
    }
  }

  // ---- The state machine does what the calls say ----

  /** The state says of the goroutine what the first n steps say. */
  ghost predicate Agrees<G, K, D, H>(st: State<G, K, D, H>, steps: seq<Step<G, K, D, H>>, n: nat, gp: G)
    requires n <= |steps|
  {
    && (gp in st.entries <==> HasEntry(steps, n, gp))
    && (gp in st.frames <==> InExit(steps, n, gp))
    && EntryOf(st, gp).done == InExit(steps, n, gp)
    && EntryOf(st, gp).funcs == Waiting(steps, n, gp)
    && EntryOf(st, gp).data == Held(steps, n, gp)
  }

  lemma StepAgrees<G, K, D, H>(st: State<G, K, D, H>, steps: seq<Step<G, K, D, H>>, n: nat, gp: G)
    requires n < |steps| && Enabled(st, steps[n]) && Agrees(st, steps, n, gp)
    ensures Agrees(After(st, steps[n]), steps, n + 1, gp)
  {
    if steps[n].gp != gp {
      OthersUntouched(st, steps[n], gp);
    } else {
      match steps[n] {
        case Call(_, Set(_, _)) =>
        case Call(_, Del(_)) =>
        case Call(_, AtExit(_)) =>
        case Call(_, Reset) =>
        case Call(_, Unload) =>
        case BeginExit(_) =>
        case RunHandler(_) =>
        case EndExit(_) =>
      }
    }
  }

  lemma OneMore<G, K, D, H>(steps: seq<Step<G, K, D, H>>, n: nat)
    requires n < |steps| && Legal(Initial<G, K, D, H>(), steps[..n + 1])
    ensures Legal(Initial<G, K, D, H>(), steps[..n])
    ensures var st := Run(Initial<G, K, D, H>(), steps[..n]);
            Enabled(st, steps[n]) && Run(Initial<G, K, D, H>(), steps[..n + 1]) == After(st, steps[n])
  {
    var s0 := Initial<G, K, D, H>();
    assert steps[..n + 1] == steps[..n] + [steps[n]];
    RunSplits(s0, steps[..n], [steps[n]]);
    assert [steps[n]][1..] == [];
  }

  /** After every run from the empty store, each goroutine has an entry, holds, waits and exits as its
      calls say. */
  lemma {:induction false} RunByCalls<G, K, D, H>(steps: seq<Step<G, K, D, H>>, n: nat, gp: G)
    requires n <= |steps| && Legal(Initial<G, K, D, H>(), steps[..n])
    ensures Agrees(Run(Initial<G, K, D, H>(), steps[..n]), steps, n, gp)
  {
    if n > 0 {
      OneMore(steps, n - 1);
      RunByCalls(steps, n - 1, gp);
      StepAgrees(Run(Initial<G, K, D, H>(), steps[..n - 1]), steps, n - 1, gp);
    }
  }

  /** A value is taken in by a bulk close of the log exactly if one of the calls closes it. */
  lemma {:induction false} ClosedByCalls<G, K, D, H>(steps: seq<Step<G, K, D, H>>, n: nat, d: D)
    requires n <= |steps| && Legal(Initial<G, K, D, H>(), steps[..n])
    ensures ClosedSince(Run(Initial<G, K, D, H>(), steps[..n]).log, 0, d) <==> ClosedIn(steps, n, d)
  {
    if n > 0 {
      OneMore(steps, n - 1);
      ClosedByCalls(steps, n - 1, d);
      RunByCalls(steps, n - 1, steps[n - 1].gp);
      var st := Run(Initial<G, K, D, H>(), steps[..n - 1]);
      ClosedOnce(st, steps[n - 1], d);
      assert ClosedBy(st, steps[n - 1])
             == if ClosesEntry(steps, n - 1) then Held(steps, n - 1, steps[n - 1].gp) else map[];
    }
  }

  lemma ClosedOnce<G, K, D, H>(st: State<G, K, D, H>, step: Step<G, K, D, H>, d: D)
    requires Enabled(st, step)
    ensures ClosedSince(After(st, step).log, 0, d) <==> ClosedSince(st.log, 0, d) || d in ClosedBy(st, step).Values
  {
    StepCloses(st, step, d);
    assert After(st, step).log == st.log + EventsOf(st, step);
    SinceJoins(st.log, After(st, step).log, 0, d);
  }

  /** Every exit, whatever its handlers and other goroutines call meanwhile: each handler registered
      before the exit and not dropped by an Unload is run exactly once, newest first; those registered
      during the exit are not; the entry is gone afterwards. */
  lemma ExitRunsHandlers<G, K, D, H>(
      before: seq<Step<G, K, D, H>>, during: seq<Step<G, K, D, H>>, gp: G)
    requires Legal(Initial<G, K, D, H>(), before + [BeginExit(gp)] + during + [EndExit(gp)])
    requires BeginExit(gp) !in during && EndExit(gp) !in during
    ensures Legal(Initial<G, K, D, H>(), before)
    ensures var st := Run(Initial<G, K, D, H>(), before);
            var st' := Run(Initial<G, K, D, H>(), before + [BeginExit(gp)] + during + [EndExit(gp)]);
            && gp in st.entries && gp !in st'.entries && gp !in st'.frames
            && RanBy(st'.log, gp) == RanBy(st.log, gp) + Reversed(Waiting(before, |before|, gp))
  {
    var s0 := Initial<G, K, D, H>();
    RunSplits(s0, before + [BeginExit(gp)] + during, [EndExit(gp)]);
    RunSplits(s0, before + [BeginExit(gp)], during);
    RunSplits(s0, before, [BeginExit(gp)]);
    var st := Run(s0, before);
    RunKeepsInv(s0, before);
    assert before[..|before|] == before;
    RunByCalls(before, |before|, gp);
    RunOne(st, BeginExit(gp));
    RunOne(Run(After(st, BeginExit(gp)), during), EndExit(gp));
    WholeExit(st, during, gp);
  }
}
