/** The store as the source keeps it: one heap record per goroutine, changed in place. Every method
    is a step, or for an exit a series of steps, of GlsSpec. */
module Gls {
  import opened GlsCalls
  import opened GlsClosing
  import opened GlsSpec
  import opened GlsValue
  import opened Options
  import opened Sequences

  class GlsData<G, K(==), C> {
    var data: map<K, DataImpl<C>>
    var atExitFuncs: seq<Handler<G, K, C>>
    var done: bool

    constructor ()
      ensures data == map[] && atExitFuncs == [] && !done
    {
      data, atExitFuncs, done := map[], [], false;
    }

    ghost function View(): Entry<K, DataImpl<C>, Handler<G, K, C>>
      reads this
    {
      Entry(data, atExitFuncs, done)
    }
  }

  lemma FrameApart<G, H>(frames: map<G, H>, gp: G, h: H)
    ensures frames[gp := h] - {gp} == frames - {gp}
    ensures gp !in frames ==> frames - {gp} == frames
  {
  }

  class Store<G(==), K(==), C> {
    var dataMap: map<G, GlsData<G, K, C>>
    ghost var frames: map<G, seq<Handler<G, K, C>>>
    ghost var log: seq<Event<G, K, DataImpl<C>, Handler<G, K, C>>>
    /** The wrappers that have come into the store, or can through a handler that has. */
    ghost var wrappers: set<DataImpl<C>>
    ghost var records: set<GlsData<G, K, C>>

    /** The store owns its records and no two goroutines share one. */
    ghost predicate Separate()
      reads this`dataMap, this`records
    {
      && (forall g | g in dataMap :: dataMap[g] in records)
      && (forall g, h | g in dataMap && h in dataMap && g != h :: dataMap[g] != dataMap[h])
    }

    ghost function Entries(): map<G, Entry<K, DataImpl<C>, Handler<G, K, C>>>
      requires Separate()
      reads this`dataMap, this`records, records
    {
      map gp | gp in dataMap :: dataMap[gp].View()
    }

    ghost function View(): State<G, K, DataImpl<C>, Handler<G, K, C>>
      requires Separate()
      reads this`dataMap, this`frames, this`log, this`records, records
    {
      State(Entries(), frames, log)
    }

    ghost predicate Valid()
      reads this, records
    {
      Separate() && Inv(View()) && Within(View(), wrappers)
    }

    ghost function Wrappers(): map<DataImpl<C>, Wrapper<C>>
      reads this`wrappers, wrappers
    {
      Snapshot(wrappers)
    }

    /** Brings the log and the known wrappers up to date. */
    ghost method Note(st: State<G, K, DataImpl<C>, Handler<G, K, C>>, step: Step<G, K, DataImpl<C>, Handler<G, K, C>>)
      requires Separate() && Enabled(st, step)
      requires Entries() == After(st, step).entries && frames == After(st, step).frames && log == st.log
      modifies this`log, this`wrappers
      ensures View() == After(st, step)
      ensures wrappers == Known(old(wrappers), step)
    {
      log := log + EventsOf(st, step);
      wrappers := Known(wrappers, step);
    }

    /** Notes the events of a step whose changes have been made, and the wrappers that it brings. */
    ghost method Record(st: State<G, K, DataImpl<C>, Handler<G, K, C>>, step: Step<G, K, DataImpl<C>, Handler<G, K, C>>)
      requires Separate() && Inv(st) && Within(st, wrappers) && Enabled(st, step)
      requires Entries() == After(st, step).entries && frames == After(st, step).frames && log == st.log
      modifies this`log, this`wrappers
      ensures Valid() && View() == After(st, step)
      ensures wrappers == Known(old(wrappers), step)
    {
      StepKeepsInv(st, step);
      StepKeepsWithin(st, step, wrappers);
      Note(st, step);
    }

    constructor ()
      ensures Valid() && records == {} && wrappers == {}
      ensures View() == Initial()
    {
      dataMap, frames, log, wrappers, records := map[], map[], [], {}, {};
    }

    /** Records come only by being created. */
    twostate predicate RecordsAreNew()
      reads this`records
    {
      forall r | r in records :: r in old(records) || fresh(r)
    }

    /** The record for a write, created on first use. */
    method Fetch(gp: G) returns (dm: GlsData<G, K, C>)
      requires Valid()
      modifies this`dataMap, this`records
      ensures gp in dataMap && dataMap[gp] == dm && Separate() && RecordsAreNew()
      ensures forall g | g in old(dataMap) :: g in dataMap && dataMap[g] == old(dataMap)[g]
      ensures Entries() == old(Entries())[gp := EntryOf(old(View()), gp)]
      ensures dm.data == (if gp in old(dataMap) then old(dataMap[gp].data) else map[])
      ensures dm.atExitFuncs == (if gp in old(dataMap) then old(dataMap[gp].atExitFuncs) else [])
    {
      if gp in dataMap {
        dm := dataMap[gp];
      } else {
        dm := new GlsData();
        dataMap, records := dataMap[gp := dm], records + {dm};
      }
    }

    method Get(gp: G, key: K) returns (r: Option<DataImpl<C>>)
      requires Valid()
      ensures r == if gp in dataMap && key in dataMap[gp].data then Some(dataMap[gp].data[key]) else None
      ensures r == match Live(View(), gp, key) case Holds(d) => Some(d) case _ => None
    {
      if gp in dataMap && key in dataMap[gp].data {
        r := Some(dataMap[gp].data[key]);
      } else {
        r := None;
      }
    }

    method IsGlsEnabled(gp: G) returns (b: bool)
      requires Valid()
      ensures (b <==> gp in dataMap) && (b <==> gp in View().entries)
    {
      b := gp in dataMap;
    }

    method PutData(gp: G, dm: GlsData<G, K, C>, data: map<K, DataImpl<C>>)
      requires Separate() && gp in dataMap && dataMap[gp] == dm
      modifies dm`data
      ensures dm.data == data && Entries() == old(Entries())[gp := old(Entries()[gp]).(data := data)]
    {
      dm.data := data;
    }

    method PutFuncs(gp: G, dm: GlsData<G, K, C>, funcs: seq<Handler<G, K, C>>)
      requires Separate() && gp in dataMap && dataMap[gp] == dm
      modifies dm`atExitFuncs
      ensures dm.atExitFuncs == funcs && Entries() == old(Entries())[gp := old(Entries()[gp]).(funcs := funcs)]
    {
      dm.atExitFuncs := funcs;
    }

    /** The records of goroutines whose exit is in progress stay the very same objects. */
    twostate predicate KeepsExiting()
      reads this
    {
      && frames == old(frames)
      && forall g | g in frames :: g in dataMap && g in old(dataMap) && dataMap[g] == old(dataMap)[g]
    }

    method Set(gp: G, key: K, data: DataImpl<C>)
      requires Valid()
      modifies this, records
      ensures Valid() && RecordsAreNew() && KeepsExiting()
      ensures wrappers == old(wrappers) + WrappersOf(Act<K, DataImpl<C>, Handler<G, K, C>>.Set(key, data))
      ensures gp in dataMap
      ensures dataMap[gp].data == (if gp in old(dataMap) then old(dataMap[gp].data) else map[])[key := data]
      ensures View() == After(old(View()), Call(gp, Act.Set(key, data)))
    {
      ghost var st := View();
      var dm := Fetch(gp);
      PutData(gp, dm, dm.data[key := data]);
      Record(st, Call(gp, Act.Set(key, data)));
    }

    method Del(gp: G, key: K)
      requires Valid()
      modifies this, records
      ensures Valid() && records == old(records) && KeepsExiting() && wrappers == old(wrappers)
      ensures dataMap == old(dataMap) && (gp in dataMap ==> dataMap[gp].data == old(dataMap[gp].data) - {key})
      ensures View() == After(old(View()), Call(gp, Act.Del(key)))
    {
      ghost var st := View();
      if gp in dataMap {
        var dm := dataMap[gp];
        PutData(gp, dm, dm.data - {key});
      }
      Record(st, Call(gp, Act.Del(key)));
    }

    method AtExit(gp: G, f: Handler<G, K, C>)
      requires Valid()
      modifies this, records
      ensures Valid() && RecordsAreNew() && KeepsExiting()
      ensures wrappers == old(wrappers) + WrappersOf(Act<K, DataImpl<C>, Handler<G, K, C>>.AtExit(f))
      ensures gp in dataMap
      ensures dataMap[gp].atExitFuncs == (if gp in old(dataMap) then old(dataMap[gp].atExitFuncs) else []) + [f]
      ensures View() == After(old(View()), Call(gp, Act.AtExit(f)))
    {
      ghost var st := View();
      var dm := Fetch(gp);
      PutFuncs(gp, dm, dm.atExitFuncs + [f]);
      Record(st, Call(gp, Act.AtExit(f)));
    }

    /** What Reset or Unload does to the record of an entry that it may empty or take out. */
    method Clear(gp: G, dm: GlsData<G, K, C>, complete: bool)
      requires Separate() && gp in dataMap && dataMap[gp] == dm
      modifies this`dataMap, dm`data
      ensures if complete then gp !in dataMap else gp in dataMap && dm.data == map[]
      ensures Separate() && forall g | g in dataMap :: g in old(dataMap) && dataMap[g] == old(dataMap)[g]
      ensures forall g | g in old(dataMap) && g != gp :: g in dataMap
      ensures Entries() == if complete then old(Entries()) - {gp}
                           else old(Entries())[gp := old(Entries()[gp]).(data := map[])]
    {
      if complete {
        dataMap := dataMap - {gp};
      } else {
        PutData(gp, dm, map[]);
      }
    }

    /** Reset and Unload up to their closing loop. */
    method TakeOut(gp: G, complete: bool) returns (alreadyReset: bool, data: map<K, DataImpl<C>>)
      requires Valid()
      modifies this, records
      ensures Valid() && records == old(records) && KeepsExiting() && wrappers == old(wrappers)
      ensures View() == After(old(View()), Call(gp, if complete then Act.Unload else Act.Reset))
      ensures alreadyReset <==> gp in old(frames)
      ensures !alreadyReset ==> if complete then gp !in dataMap else gp in dataMap ==> dataMap[gp].data == map[]
      ensures data == ClosedBy(old(View()), Call(gp, if complete then Act.Unload else Act.Reset))
      ensures data.Values <= wrappers
    {
      ghost var st := View();
      ghost var step := Call(gp, if complete then Act.Unload else Act.Reset);
      alreadyReset, data := false, map[];
      if gp in dataMap {
        var dm := dataMap[gp];
        if dm.done {
          alreadyReset := true;
        } else {
          data := dm.data;
          Clear(gp, dm, complete);
        }
      }
      Record(st, step);
    }

    /** The closing loop: just the wrappers in the map are shut, each once even if it sits under several
        keys. */
    method CloseTaken(data: map<K, DataImpl<C>>)
      requires Valid() && data.Values <= wrappers
      modifies data.Values
      ensures Valid() && View() == old(View())
      ensures JustShut(old(Wrappers()), Wrappers(), data.Values)
    {
      CloseAll(data);
    }

    /** Reset and Unload: an entry whose exit is in progress is left alone; any other is emptied or
        taken out and each of its wrappers shut, once even if it sits under several keys. */
    method ResetEntry(gp: G, complete: bool) returns (alreadyReset: bool)
      requires Valid()
      modifies this, records, wrappers
      ensures Valid() && records == old(records) && KeepsExiting() && wrappers == old(wrappers)
      ensures alreadyReset <==> gp in old(frames)
      ensures !alreadyReset ==> if complete then gp !in dataMap else gp in dataMap ==> dataMap[gp].data == map[]
      ensures !alreadyReset ==> JustShut(old(Wrappers()), Wrappers(), old(EntryOf(View(), gp)).data.Values)
      ensures View() == After(old(View()), Call(gp, if complete then Act.Unload else Act.Reset))
      ensures var step := Call(gp, if complete then Act.Unload else Act.Reset);
              Made(old(View()), old(Wrappers()), [step], View(), Wrappers())
    {
      ghost var st, w := View(), Wrappers();
      var data;
      alreadyReset, data := TakeOut(gp, complete);
      CloseTaken(data);
      StepMade(st, w, Call(gp, if complete then Act.Unload else Act.Reset), Wrappers());
    }

    /** Any call is its step, and wrappers are shut as the step tells. */
    method Perform(gp: G, act: Act<K, DataImpl<C>, Handler<G, K, C>>)
      requires Valid()
      modifies this, records, wrappers
      ensures Valid() && RecordsAreNew() && KeepsExiting()
      ensures wrappers == old(wrappers) + WrappersOf(act)
      ensures Made(old(View()), old(Wrappers()), [Call(gp, act)], View(), Wrappers())
    {
      ghost var st, w := View(), Wrappers();
      match act {
        case Set(key, data) => Set(gp, key, data);
        case Del(key) => Del(gp, key);
        case AtExit(f) => AtExit(gp, f);
        case Reset => var _ := ResetEntry(gp, false); return;
        case Unload => var _ := ResetEntry(gp, true); return;
      }
      StepMade(st, w, Call(gp, act), Wrappers());
    }

    /** Runs one handler to its end or to its panic, which stops it and nothing else. */
    method SafeRun(f: Handler<G, K, C>)
      requires Valid() && WrappersIn(f) <= wrappers
      modifies this, records, wrappers
      ensures Valid() && RecordsAreNew() && KeepsExiting() && wrappers == old(wrappers)
      ensures Made(old(View()), old(Wrappers()), CallsUpTo(f.body, BodyEnd(f.body)), View(), Wrappers())
    {
      ghost var st, w := View(), Wrappers();
      NothingMade(st, w);
      var i := 0;
      while i < |f.body| && f.body[i].Do?
        invariant 0 <= i <= BodyEnd(f.body)
        invariant Valid() && RecordsAreNew() && KeepsExiting() && wrappers == old(wrappers)
        invariant Made(st, w, CallsUpTo(f.body, i), View(), Wrappers())
      {
        ghost var mid, v := View(), Wrappers();
        Perform(f.body[i].gp, f.body[i].act);
        MadeOn(st, w, CallsUpTo(f.body, i), mid, v, [Call(f.body[i].gp, f.body[i].act)], View(), Wrappers());
        i := i + 1;
      }
    }

    /** What the start of an exit does to the record. */
    method Capture(gp: G, dm: GlsData<G, K, C>) returns (funcs: seq<Handler<G, K, C>>)
      requires Separate() && gp in dataMap && dataMap[gp] == dm
      modifies dm
      ensures funcs == old(dm.atExitFuncs)
      ensures Entries() == old(Entries())[gp := old(Entries()[gp]).(funcs := [], done := true)]
    {
      funcs := dm.atExitFuncs;
      dm.atExitFuncs := [];
      dm.done := true;
    }

    /** The handlers are taken out of the record, which is marked as done. */
    method Mark(gp: G, dm: GlsData<G, K, C>) returns (funcs: seq<Handler<G, K, C>>)
      requires Valid() && gp in dataMap && dataMap[gp] == dm && gp !in frames
      modifies this`frames, this`log, this`wrappers, dm
      ensures Valid() && wrappers == old(wrappers) && funcs == old(dm.atExitFuncs)
      ensures gp in frames && frames[gp] == funcs && frames - {gp} == old(frames)
      ensures View() == After(old(View()), BeginExit(gp))
    {
      ghost var st := View();
      funcs := Capture(gp, dm);
      FrameApart(frames, gp, funcs);
      frames := frames[gp := funcs];
      Record(st, BeginExit(gp));
    }

    method Begin(gp: G) returns (dm: GlsData<G, K, C>, funcs: seq<Handler<G, K, C>>)
      requires Valid() && gp in dataMap && gp !in frames
      modifies this`frames, this`log, this`wrappers, records
      ensures Valid() && dm == dataMap[gp] && wrappers == old(wrappers) && funcs == old(dataMap[gp].atExitFuncs)
      ensures gp in frames && frames[gp] == funcs && frames - {gp} == old(frames)
      ensures Made(old(View()), old(Wrappers()), [BeginExit(gp)], View(), Wrappers())
    {
      ghost var st, w := View(), Wrappers();
      dm := dataMap[gp];
      funcs := Mark(gp, dm);
      StepMade(st, w, BeginExit(gp), Wrappers());
    }

    method StartHandler(ghost gp: G)
      requires Valid() && gp in frames && frames[gp] != []
      modifies this`frames, this`log, this`wrappers
      ensures Valid() && wrappers == old(wrappers)
      ensures gp in frames && frames[gp] == old(frames)[gp][..|old(frames)[gp]| - 1]
      ensures frames - {gp} == old(frames) - {gp}
      ensures Made(old(View()), old(Wrappers()), [RunHandler(gp)], View(), Wrappers())
    {
      ghost var st, w := View(), Wrappers();
      frames := frames[gp := frames[gp][..|frames[gp]| - 1]];
      Record(st, RunHandler(gp));
      StepMade(st, w, RunHandler(gp), Wrappers());
    }

    /** Runs the newest handler left; the exiting goroutine's record stays the same object. */
    method RunNewest(ghost gp: G, f: Handler<G, K, C>)
      requires Valid() && gp in frames && frames[gp] != [] && f == frames[gp][|frames[gp]| - 1]
      modifies this, records, wrappers
      ensures Valid() && RecordsAreNew() && wrappers == old(wrappers)
      ensures gp in frames && frames[gp] == old(frames)[gp][..|old(frames)[gp]| - 1]
      ensures frames - {gp} == old(frames) - {gp}
      ensures gp in dataMap && gp in old(dataMap) && dataMap[gp] == old(dataMap)[gp]
      ensures Made(old(View()), old(Wrappers()), HandlerSteps(gp, f), View(), Wrappers())
    {
      ghost var st, w := View(), Wrappers();
      StartHandler(gp);
      ghost var mid, v := View(), Wrappers();
      SafeRun(f);
      MadeOn(st, w, [RunHandler(gp)], mid, v, CallsUpTo(f.body, BodyEnd(f.body)), View(), Wrappers());
    }

    /** One round of the handler loop, after those from i + 1 on. */
    method RunRound(ghost gp: G, funcs: seq<Handler<G, K, C>>, i: nat,
        ghost st: State<G, K, DataImpl<C>, Handler<G, K, C>>, ghost w: map<DataImpl<C>, Wrapper<C>>)
      requires Valid() && i < |funcs| && gp in frames && frames[gp] == funcs[..i + 1]
      requires Made(st, w, HandlersFrom(gp, funcs, i + 1), View(), Wrappers())
      modifies this, records, wrappers
      ensures Valid() && RecordsAreNew() && wrappers == old(wrappers)
      ensures gp in frames && frames[gp] == funcs[..i] && frames - {gp} == old(frames) - {gp}
      ensures gp in dataMap && gp in old(dataMap) && dataMap[gp] == old(dataMap)[gp]
      ensures Made(st, w, HandlersFrom(gp, funcs, i), View(), Wrappers())
    {
      ghost var mid, v := View(), Wrappers();
      RunNewest(gp, funcs[i]);
      MadeOn(st, w, HandlersFrom(gp, funcs, i + 1), mid, v, HandlerSteps(gp, funcs[i]), View(), Wrappers());
    }

    /** Runs all captured handlers, newest first. */
    method RunHandlers(gp: G, dm: GlsData<G, K, C>, funcs: seq<Handler<G, K, C>>)
      requires Valid() && gp in frames && frames[gp] == funcs && gp in dataMap && dataMap[gp] == dm
      modifies this, records, wrappers
      ensures Valid() && RecordsAreNew() && wrappers == old(wrappers)
      ensures gp in frames && frames[gp] == [] && frames - {gp} == old(frames) - {gp}
      ensures gp in dataMap && dataMap[gp] == dm
      ensures Made(old(View()), old(Wrappers()), HandlersFrom(gp, funcs, 0), View(), Wrappers())
    {
      ghost var st, w := View(), Wrappers();
      NothingMade(st, w);
      var i := |funcs|;
      while i > 0
        invariant 0 <= i <= |funcs|
        invariant Valid() && RecordsAreNew() && wrappers == old(wrappers)
        invariant gp in frames && frames[gp] == funcs[..i] && frames - {gp} == old(frames) - {gp}
        invariant gp in dataMap && dataMap[gp] == dm
        invariant Made(st, w, HandlersFrom(gp, funcs, i), View(), Wrappers())
      {
        i := i - 1;
        RunRound(gp, funcs, i, st, w);
      }
    }

    /** The record goes; what it still holds is left to be closed. */
    method TakeLast(gp: G, dm: GlsData<G, K, C>) returns (data: map<K, DataImpl<C>>)
      requires Valid() && gp in frames && frames[gp] == [] && gp in dataMap && dataMap[gp] == dm
      modifies this`dataMap, this`frames, this`log, this`wrappers
      ensures Valid() && records == old(records) && wrappers == old(wrappers)
      ensures gp !in dataMap && frames == old(frames) - {gp}
      ensures View() == After(old(View()), EndExit(gp))
      ensures data == ClosedBy(old(View()), EndExit(gp)) && data.Values <= wrappers
    {
      ghost var st := View();
      dataMap := dataMap - {gp};
      data := dm.data;
      frames := frames - {gp};
      Record(st, EndExit(gp));
    }

    /** The record goes, and every wrapper it still holds is shut. */
    method End(gp: G, dm: GlsData<G, K, C>)
      requires Valid() && gp in frames && frames[gp] == [] && gp in dataMap && dataMap[gp] == dm
      modifies this, wrappers
      ensures Valid() && records == old(records) && wrappers == old(wrappers)
      ensures gp !in dataMap && frames == old(frames) - {gp}
      ensures JustShut(old(Wrappers()), Wrappers(), old(EntryOf(View(), gp)).data.Values)
      ensures Made(old(View()), old(Wrappers()), [EndExit(gp)], View(), Wrappers())
    {
      ghost var st, w := View(), Wrappers();
      var data := TakeLast(gp, dm);
      CloseTaken(data);
      StepMade(st, w, EndExit(gp), Wrappers());
    }

    /** An exit up to the point where its record goes. */
    method RunUp(gp: G) returns (dm: GlsData<G, K, C>)
      requires Valid() && gp in dataMap && gp !in frames
      modifies this, records, wrappers
      ensures Valid() && RecordsAreNew() && wrappers == old(wrappers)
      ensures gp in frames && frames[gp] == [] && frames - {gp} == old(frames)
      ensures gp in dataMap && dataMap[gp] == dm
      ensures var funcs := old(dataMap[gp].atExitFuncs);
              Made(old(View()), old(Wrappers()), [BeginExit(gp)] + HandlersFrom(gp, funcs, 0), View(), Wrappers())
    {
      ghost var st, w := View(), Wrappers();
      var funcs;
      dm, funcs := Begin(gp);
      ghost var mid, v := View(), Wrappers();
      RunHandlers(gp, dm, funcs);
      MadeOn(st, w, [BeginExit(gp)], mid, v, HandlersFrom(gp, funcs, 0), View(), Wrappers());
    }

    /** The exit of a goroutine, with re-entrant handlers: begin, then for each handler in the entry,
        newest first, its start and the calls that it makes, then end. */
    method ResetAtExit(gp: G)
      requires Valid() && gp !in frames
      modifies this, records, wrappers
      ensures Valid() && RecordsAreNew() && wrappers == old(wrappers)
      ensures frames == old(frames) && gp !in dataMap
      ensures gp !in old(dataMap) ==> View() == old(View()) && Wrappers() == old(Wrappers())
      ensures gp in old(dataMap) ==>
                var funcs := old(dataMap[gp].atExitFuncs);
                && Made(old(View()), old(Wrappers()), ExitSteps(gp, funcs), View(), Wrappers())
                && RanBy(log, gp) == RanBy(old(log), gp) + Reversed(funcs)
    {
      if gp !in dataMap {
        return;
      }
      ghost var st, w, funcs := View(), Wrappers(), dataMap[gp].atExitFuncs;
      var dm := RunUp(gp);
      ghost var mid, v := View(), Wrappers();
      End(gp, dm);
      MadeOn(st, w, [BeginExit(gp)] + HandlersFrom(gp, funcs, 0), mid, v, [EndExit(gp)], View(), Wrappers());
      HandlersStayInside(gp, funcs, 0);
      ExitRuns(st, HandlersFrom(gp, funcs, 0), gp);
    }

    /** One call or one whole exit. */
    method Serve(r: Request<G, K, C>)
      requires Valid() && frames == map[] && (r.Request? ==> WrappersOf(r.act) <= wrappers)
      modifies this, records, wrappers
      ensures Valid() && frames == map[] && wrappers == old(wrappers) && RecordsAreNew()
      ensures r.Exit? ==> r.gp !in dataMap
      ensures r.Request? ==> Made(old(View()), old(Wrappers()), [Call(r.gp, r.act)], View(), Wrappers())
      ensures Made(old(View()), old(Wrappers()), AnswerTo(old(View()), r), View(), Wrappers())
    {
      match r {
        case Request(gp, act) => Perform(gp, act);
        case Exit(gp) =>
          NothingMade(View(), Wrappers());
          ResetAtExit(gp);
      }
    }

    /** Any series of calls and exits is a legal run of the state machine, and which one is known. */
    method ServeAll(rs: seq<Request<G, K, C>>)
      requires Valid() && frames == map[] && WrappersOfAll(rs) <= wrappers
      modifies this, records, wrappers
      ensures Valid() && wrappers == old(wrappers) && RecordsAreNew()
      ensures Made(old(View()), old(Wrappers()), AnswersTo(old(View()), rs), View(), Wrappers())
      decreases |rs|
    {
      ghost var st, w := View(), Wrappers();
      if rs == [] {
        NothingMade(st, w);
        return;
      }
      Serve(rs[0]);
      ghost var mid, v := View(), Wrappers();
      ServeAll(rs[1..]);
      MadeOn(st, w, AnswerTo(st, rs[0]), mid, v, AnswersTo(mid, rs[1..]), View(), Wrappers());
    }

    /** More wrappers become known to the store. */
    ghost method Admit(u: set<DataImpl<C>>)
      requires Valid()
      modifies this`wrappers
      ensures Valid() && wrappers == old(wrappers) + u
    {
      wrappers := wrappers + u;
    }
  }

  /** The life of a store, for every series of calls and exits: it makes exactly the steps that these
      take, handlers' calls included; each goroutine has an entry, holds and waits as its calls say; the
      log accounts for all of it; and each known wrapper has had its closer called, once, if one of the
      calls or exits closes it, and has been left alone otherwise. */
  method Life<G(==, !new), K(==, !new), C>(rs: seq<Request<G, K, C>>, ghost known: set<DataImpl<C>>)
    returns (s: Store<G, K, C>)
    requires WrappersOfAll(rs) <= known
    modifies known
    ensures fresh(s) && s.Valid()
    ensures Legal(Initial(), AnswersTo(Initial(), rs)) && s.View() == Run(Initial(), AnswersTo(Initial(), rs))
    ensures Balanced(s.View())
    ensures var steps := AnswersTo(Initial(), rs); forall gp :: Agrees(s.View(), steps, |steps|, gp)
    ensures forall d | d in known ::
              d.View() == if ClosedSince(s.log, 0, d) then old(d.View()).Shut() else old(d.View())
    ensures var steps := AnswersTo(Initial(), rs);
            forall d | d in known && old(d.closer).Some? && old(d.calls) == 0 ::
              d.calls == if ClosedIn(steps, |steps|, d) then 1 else 0
  {
    s := new Store();
    s.Admit(known);
    ghost var w := s.Wrappers();
    s.ServeAll(rs);
    ghost var steps := AnswersTo(Initial<G, K, DataImpl<C>, Handler<G, K, C>>(), rs);
    RunBalances(steps);
    CallsDecide(steps);
    forall d | d in known
      ensures d.View() == if ClosedSince(s.log, 0, d) then old(d.View()).Shut() else old(d.View())
    {
      assert d in w && s.Wrappers()[d] == d.View();
    }
  }

  lemma CallsDecide<G(!new), K, C>(steps: seq<Step<G, K, DataImpl<C>, Handler<G, K, C>>>)
    requires Legal(Initial(), steps)
    ensures forall gp :: Agrees(Run(Initial(), steps), steps, |steps|, gp)
    ensures forall d :: ClosedSince(Run(Initial(), steps).log, 0, d) <==> ClosedIn(steps, |steps|, d)
  {
    assert steps[..|steps|] == steps;
    forall gp
      ensures Agrees(Run(Initial(), steps), steps, |steps|, gp)
    {
      RunByCalls(steps, |steps|, gp);
    }
    forall d
      ensures ClosedSince(Run(Initial(), steps).log, 0, d) <==> ClosedIn(steps, |steps|, d)
    {
      ClosedByCalls(steps, |steps|, d);
    }
  }
}
