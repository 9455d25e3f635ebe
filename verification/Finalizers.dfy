/**
 How an object is deleted: a reconcile runs one worker per finalizer; the workers share the finalizer list in memory,
 wait until the resources they guard are gone, take their finalizer off the list, and write the list back.
 */
module Finalizers {
  /** What a worker is doing with the finalizer list: taking its finalizer off reads the list and later replaces it. */
  datatype Stage = Waiting | Copied(list: set<string>) | Stored | Sent(list: set<string>) | Finished

  /** `pending` holds the guarded resources that the worker has not seen absent yet. */
  datatype Worker<R> = Worker(pending: set<R>, stage: Stage)

  /** The reconcile under way. `view` is the list the workers are started from, `memory` the list they share. */
  datatype Work<R> = Idle | Normal | Deleting(view: set<string>, memory: set<string>, workers: map<string, Worker<R>>)

  /**
   `finalizers` and `deleting` are stored; `seen` says that the controller has read `deleting`. Each finalizer in
   `guards` belongs to the operator and stands for some resources.
   */
  datatype Object<R> =
    Object(finalizers: set<string>, deleting: bool, seen: bool, guards: map<string, set<R>>, work: Work<R>)

  datatype Event<R> =
    | BeginNormal
    | BeginDeleting(view: set<string>)
    | Start(f: string)
    | See(f: string, r: R)
    | Copy(f: string)
    | Store(f: string)
    | Send(f: string)
    | Answer(f: string)
    | End
    | RequestDeletion
    | EditFinalizers(finalizers: set<string>)
    | EditGuards(guards: map<string, set<R>>)

  predicate Runs<R>(o: Object<R>, f: string) {
    o.work.Deleting? && f in o.work.workers
  }

  /**
   The controller's reads may lag behind: a reconcile can miss the deletion request as long as none has seen it, and
   the list it reads may hold finalizers taken off since. Others may edit the list but leave the operator's finalizers
   alone.
   */
  predicate Legal<R>(o: Object<R>, present: set<R>, e: Event<R>) {
    match e
    case BeginNormal => o.work.Idle? && !o.seen
    case BeginDeleting(view) => o.work.Idle? && o.deleting && o.finalizers * o.guards.Keys <= view
    case Start(f) => o.work.Deleting? && f in o.work.view && f in o.guards && f !in o.work.workers
    case See(f, r) => Runs(o, f) && r !in present
    case Copy(f) => Runs(o, f) && o.work.workers[f] == Worker({}, Waiting) && f in o.work.memory
    case Store(f) => Runs(o, f) && o.work.workers[f].stage.Copied?
    case Send(f) => Runs(o, f) && o.work.workers[f].stage.Stored?
    case Answer(f) => Runs(o, f) && o.work.workers[f].stage.Sent?
    case End => true
    case RequestDeletion => true
    case EditFinalizers(finalizers) => o.finalizers * o.guards.Keys == finalizers * o.guards.Keys
    case EditGuards(guards) => !o.deleting && guards.Keys == o.guards.Keys
  }

  function SetWorker<R>(o: Object<R>, f: string, w: Worker<R>): Object<R>
    requires o.work.Deleting?
  {
    o.(work := o.work.(workers := o.work.workers[f := w]))
  }

  function SetMemory<R>(o: Object<R>, memory: set<string>): Object<R>
    requires o.work.Deleting?
  {
    o.(work := o.work.(memory := memory))
  }

  function Apply<R>(o: Object<R>, present: set<R>, e: Event<R>): Object<R>
    requires Legal(o, present, e)
  {
    match e
    case BeginNormal => o.(work := Normal)
    case BeginDeleting(view) => o.(seen := true, work := Deleting(view, view, map[]))
    case Start(f) => SetWorker(o, f, Worker(o.guards[f], Waiting))
    case See(f, r) => var w := o.work.workers[f]; SetWorker(o, f, w.(pending := w.pending - {r}))
    case Copy(f) => SetWorker(o, f, Worker({}, Copied(o.work.memory)))
    case Store(f) =>
      var list := o.work.workers[f].stage.list;
      SetWorker(SetMemory(o, list - {f}), f, Worker({}, Stored))
    case Send(f) => SetWorker(o, f, Worker({}, Sent(o.work.memory))).(finalizers := o.work.memory)
    case Answer(f) =>
      var list := o.work.workers[f].stage.list;
      SetWorker(SetMemory(o, list), f, Worker({}, Finished))
    case End => o.(work := Idle)
    case RequestDeletion => o.(deleting := true)
    case EditFinalizers(finalizers) => o.(finalizers := finalizers)
    case EditGuards(guards) => o.(guards := guards)
  }

  /******* Safety *******/

  /** The guarded resources are gone, and no reconcile that could create them again runs or will run. */
  ghost predicate Cleared<R>(o: Object<R>, f: string, present: set<R>)
    requires f in o.guards
  {
    o.seen && o.guards[f] !! present
  }

  /** A list without one of the operator's finalizers exists only once that finalizer is cleared. */
  ghost predicate Honest<R>(o: Object<R>, list: set<string>, present: set<R>) {
    forall f :: f in o.guards && f !in list ==> Cleared(o, f, present)
  }

  ghost predicate WorkerSound<R>(o: Object<R>, f: string, w: Worker<R>, present: set<R>) {
    && f in o.guards
    && o.guards[f] * present <= w.pending
    && (!w.stage.Waiting? ==> w.pending == {})
    && (w.stage.Copied? || w.stage.Sent? ==> Honest(o, w.stage.list, present))
  }

  ghost predicate WorkSound<R>(o: Object<R>, present: set<R>) {
    match o.work
    case Idle => true
    case Normal => !o.seen
    case Deleting(view, memory, workers) =>
      && o.seen && Honest(o, view, present) && Honest(o, memory, present)
      && forall f :: f in workers ==> WorkerSound(o, f, workers[f], present)
  }

  ghost predicate Sound<R>(o: Object<R>, present: set<R>) {
    (o.seen ==> o.deleting) && Honest(o, o.finalizers, present) && WorkSound(o, present)
  }

  /** Every event, in whatever order the workers, other writers and the API interleave, keeps the invariant. */
  lemma EventKeepsSound<R>(o: Object<R>, present: set<R>, e: Event<R>)
    requires Sound(o, present) && Legal(o, present, e)
    ensures Sound(Apply(o, present, e), present)
  {
    var o' := Apply(o, present, e);
    match e
    case Start(_) => OthersStaySound(o, o', e.f, present);
    case See(_, _) => OthersStaySound(o, o', e.f, present);
    case Copy(_) => OthersStaySound(o, o', e.f, present);
    case Store(_) =>
      ClearedOnceSeen(o, present, e.f);
      OthersStaySound(o, o', e.f, present);
    case Send(_) => OthersStaySound(o, o', e.f, present);
    case Answer(_) => OthersStaySound(o, o', e.f, present);
    case EditFinalizers(finalizers) =>
      forall f | f in o.guards && f !in finalizers ensures Cleared(o, f, present) {
        assert f !in finalizers * o.guards.Keys;
      }
      SameGuards(o, o', present);
    case BeginDeleting(view) =>
      forall f | f in o.guards && f !in view ensures Cleared(o, f, present) {
        assert f !in o.finalizers * o.guards.Keys;
      }
    case RequestDeletion => SameGuards(o, o', present);
    case EditGuards(_) => SameGuards(o, o', present);
    case _ =>
  }

  /** Once all is seen absent, taking the finalizer off the list is honest. */
  lemma ClearedOnceSeen<R>(o: Object<R>, present: set<R>, f: string)
    requires WorkSound(o, present) && Runs(o, f) && !o.work.workers[f].stage.Waiting?
    ensures f in o.guards && Cleared(o, f, present)
    ensures o.work.workers[f].stage.Copied? ==> Honest(o, o.work.workers[f].stage.list - {f}, present)
  {
    assert WorkerSound(o, f, o.work.workers[f], present);
    forall r | r in o.guards[f] ensures r !in present {
      assert r !in o.guards[f] * present;
    }
  }

  lemma OthersStaySound<R>(o: Object<R>, o': Object<R>, f: string, present: set<R>)
    requires WorkSound(o, present) && o.work.Deleting? && o'.work.Deleting?
    requires o'.guards == o.guards && o'.seen == o.seen
    requires f in o'.work.workers && o'.work.workers == o.work.workers[f := o'.work.workers[f]]
    ensures Runs(o, f) ==> WorkerSound(o, f, o.work.workers[f], present)
    ensures forall g :: g in o'.work.workers && g != f ==> WorkerSound(o', g, o'.work.workers[g], present)
  {
    forall g | g in o'.work.workers && g != f ensures WorkerSound(o', g, o'.work.workers[g], present) {
      assert WorkerSound(o, g, o.work.workers[g], present);
    }
  }

  lemma SameGuards<R>(o: Object<R>, o': Object<R>, present: set<R>)
    requires WorkSound(o, present) && (o.seen ==> o'.guards == o.guards) && o'.seen == o.seen && o'.work == o.work
    ensures WorkSound(o', present)
  {
    if o.work.Deleting? {
      forall f | f in o.work.workers ensures WorkerSound(o', f, o.work.workers[f], present) {
        assert WorkerSound(o, f, o.work.workers[f], present);
      }
    }
  }

  lemma RemovalKeepsSound<R>(o: Object<R>, present: set<R>, fewer: set<R>)
    requires Sound(o, present) && fewer <= present
    ensures Sound(o, fewer)
  {
    if o.work.Deleting? {
      forall f | f in o.work.workers ensures WorkerSound(o, f, o.work.workers[f], fewer) {
        assert WorkerSound(o, f, o.work.workers[f], present);
      }
    }
  }

  /** While a reconcile may still create resources, whatever it creates is guarded. */
  lemma CreationKeepsSound<R>(o: Object<R>, present: set<R>, more: set<R>)
    requires Sound(o, present) && o.work.Normal?
    ensures Sound(o, more)
  {
  }

  /** Without one of its finalizers, an object has none of the resources this one guards. */
  lemma FinalizerGoneLast<R>(o: Object<R>, present: set<R>, f: string)
    requires Sound(o, present) && f in o.guards && f !in o.finalizers
    ensures o.seen && o.deleting && o.guards[f] !! present && !o.work.Normal?
  {
    assert Cleared(o, f, present);
  }

  /******* Progress *******/

  predicate LegalRun<R>(o: Object<R>, present: set<R>, events: seq<Event<R>>)
    decreases |events|
  {
    events == [] || (Legal(o, present, events[0]) && LegalRun(Apply(o, present, events[0]), present, events[1..]))
  }

  function ApplyAll<R>(o: Object<R>, present: set<R>, events: seq<Event<R>>): Object<R>
    requires LegalRun(o, present, events)
    decreases |events|
  {
    if events == [] then o else ApplyAll(Apply(o, present, events[0]), present, events[1..])
  }

  lemma {:induction false} RunsJoin<R>(o: Object<R>, present: set<R>, a: seq<Event<R>>, b: seq<Event<R>>)
    requires LegalRun(o, present, a) && LegalRun(ApplyAll(o, present, a), present, b)
    ensures LegalRun(o, present, a + b)
    ensures ApplyAll(o, present, a + b) == ApplyAll(ApplyAll(o, present, a), present, b)
    decreases |a|
  {
    if a == [] {
      assert a + b == b;
    } else {
      RunsJoin(Apply(o, present, a[0]), present, a[1..], b);
      assert (a + b)[1..] == a[1..] + b;
    }
  }

  lemma Then<R>(o: Object<R>, present: set<R>, e: Event<R>, rest: seq<Event<R>>)
    requires Legal(o, present, e) && LegalRun(Apply(o, present, e), present, rest)
    ensures LegalRun(o, present, [e] + rest)
    ensures ApplyAll(o, present, [e] + rest) == ApplyAll(Apply(o, present, e), present, rest)
  {
    assert ([e] + rest)[1..] == rest;
  }

  lemma {:induction false} SeeAll<R>(o: Object<R>, present: set<R>, f: string) returns (events: seq<Event<R>>)
    requires Runs(o, f) && o.work.workers[f].pending !! present
    ensures LegalRun(o, present, events)
    ensures ApplyAll(o, present, events) == SetWorker(o, f, o.work.workers[f].(pending := {}))
    ensures forall i :: 0 <= i < |events| ==> events[i].See?
    decreases o.work.workers[f].pending
  {
    var w := o.work.workers[f];
    if w.pending == {} {
      events := [];
      assert o.work.workers[f := w] == o.work.workers;
    } else {
      var r :| r in w.pending;
      var next := Apply(o, present, See(f, r));
      var rest := SeeAll(next, present, f);
      Then(o, present, See(f, r), rest);
      events := [See(f, r)] + rest;
      assert next.work.workers[f := w.(pending := {})] == o.work.workers[f := w.(pending := {})];
    }
  }

  lemma TakeOff<R>(o: Object<R>, present: set<R>, f: string) returns (events: seq<Event<R>>)
    requires o.work.Deleting? && o.work.workers == map[f := Worker({}, Waiting)] && f in o.work.memory
    ensures LegalRun(o, present, events)
    ensures ApplyAll(o, present, events) == o.(finalizers := o.work.memory - {f}, work := Idle)
  {
    var o1 := Apply(o, present, Copy(f));
    var o2 := Apply(o1, present, Store(f));
    var o3 := Apply(o2, present, Send(f));
    Then(o3, present, End, []);
    Then(o2, present, Send(f), [End] + []);
    Then(o1, present, Store(f), [Send(f)] + ([End] + []));
    Then(o, present, Copy(f), [Store(f)] + ([Send(f)] + ([End] + [])));
    events := [Copy(f)] + ([Store(f)] + ([Send(f)] + ([End] + [])));
  }

  /** One undisturbed reconcile of an object under deletion can take off any finalizer whose resources are gone. */
  lemma CanTakeOff<R>(o: Object<R>, present: set<R>, f: string) returns (events: seq<Event<R>>)
    requires o.deleting && f in o.finalizers && f in o.guards && o.guards[f] !! present
    ensures LegalRun(o, present, events)
    ensures ApplyAll(o, present, events) == o.(finalizers := o.finalizers - {f}, seen := true, work := Idle)
  {
    var begin := BeginDeleting(o.finalizers);
    var o1 := Apply(o, present, End);
    var o2 := Apply(o1, present, begin);
    var o3 := Apply(o2, present, Start(f));
    var see := SeeAll(o3, present, f);
    var o4 := ApplyAll(o3, present, see);
    assert o4.work.workers == map[f := Worker({}, Waiting)];
    var off := TakeOff(o4, present, f);
    RunsJoin(o3, present, see, off);
    Then(o2, present, Start(f), see + off);
    Then(o1, present, begin, [Start(f)] + (see + off));
    Then(o, present, End, [begin] + ([Start(f)] + (see + off)));
    events := [End] + ([begin] + ([Start(f)] + (see + off)));
  }

  /** Cleanup is never stuck: once the guarded resources are gone, all the operator's finalizers can still come off. */
  lemma {:induction false} CanFinish<R>(o: Object<R>, present: set<R>) returns (events: seq<Event<R>>)
    requires o.deleting && forall f :: f in o.guards ==> o.guards[f] !! present
    ensures LegalRun(o, present, events)
    ensures ApplyAll(o, present, events).finalizers == o.finalizers - o.guards.Keys
    decreases o.finalizers
  {
    if f :| f in o.finalizers && f in o.guards {
      var first := CanTakeOff(o, present, f);
      var o' := ApplyAll(o, present, first);
      var rest := CanFinish(o', present);
      RunsJoin(o, present, first, rest);
      events := first + rest;
      assert o'.finalizers - o.guards.Keys == o.finalizers - o.guards.Keys;
    } else {
      events := [];
    }
  }

  /******* Lost updates *******/

  /**
   The operator's finalizers among those read whose resources are gone: the ones whose workers can get to the list.
   */
  function Clearable<R>(o: Object<R>, view: set<string>, present: set<R>): set<string> {
    set f | f in view && f in o.guards && o.guards[f] !! present
  }

  function Began<R>(o: Object<R>, view: set<string>): Object<R> {
    o.(seen := true, work := Deleting(view, view, map[]))
  }

  ghost predicate OneReconcile<R>(o: Object<R>, view: set<string>, present: set<R>, events: seq<Event<R>>) {
    LegalRun(Began(o, view), present, events) && forall i :: 0 <= i < |events| ==> !events[i].End?
  }

  ghost predicate FinishedIsOff<R>(o: Object<R>) {
    o.work.Deleting? ==>
      forall f :: f in o.work.workers && o.work.workers[f].stage.Finished? ==> f !in o.finalizers && f !in o.work.memory
  }

  /**
   In every schedule of the reconcile, a worker that finishes has its finalizer off the stored list and the shared one.
   */
  ghost predicate RemovalsStick<R(!new)>(o: Object<R>, view: set<string>, present: set<R>) {
    forall events :: OneReconcile(o, view, present, events) ==> FinishedIsOff(ApplyAll(Began(o, view), present, events))
  }

  /**
   Only `f` can get to the list. The lists no longer hold it from the moment that its worker has stored the shared one.
   */
  ghost predicate Alone<R>(o: Object<R>, present: set<R>, f: string) {
    && o.deleting && o.work.Deleting?
    && forall g :: g in o.work.workers ==> AloneWorker(o, present, f, g, o.work.workers[g])
  }

  ghost predicate AloneWorker<R>(o: Object<R>, present: set<R>, f: string, g: string, w: Worker<R>)
    requires o.work.Deleting?
  {
    && g in o.work.view && g in o.guards && (w.stage.Waiting? ==> o.guards[g] * present <= w.pending)
    && (!w.stage.Waiting? ==> g == f)
    && (w.stage.Stored? || w.stage.Sent? || w.stage.Finished? ==> f !in o.work.memory)
    && (w.stage.Sent? ==> f !in w.stage.list && f !in o.finalizers)
    && (w.stage.Finished? ==> f !in o.finalizers)
  }

  lemma AloneStays<R>(o: Object<R>, present: set<R>, f: string, e: Event<R>)
    requires Alone(o, present, f) && Legal(o, present, e) && !e.End?
    requires Clearable(o, o.work.view, present) <= {f}
    ensures var o' := Apply(o, present, e);
            Alone(o', present, f) && o'.guards == o.guards && o'.work.view == o.work.view
  {
    var o' := Apply(o, present, e);
    forall g | g in o'.work.workers ensures AloneWorker(o', present, f, g, o'.work.workers[g]) {
      if g in o.work.workers { assert AloneWorker(o, present, f, g, o.work.workers[g]); }
      if e.Copy? && e.f == g {
        forall r | r in o.guards[g] ensures r !in present { assert r !in o.guards[g] * present; }
        assert g in Clearable(o, o.work.view, present);
      }
      if e.EditFinalizers? && f in o.guards && f !in o.finalizers {
        assert f !in o.finalizers * o.guards.Keys;
      }
    }
  }

  lemma {:induction false} AloneRun<R>(o: Object<R>, present: set<R>, f: string, events: seq<Event<R>>)
    requires Alone(o, present, f) && Clearable(o, o.work.view, present) <= {f}
    requires LegalRun(o, present, events) && forall i :: 0 <= i < |events| ==> !events[i].End?
    ensures FinishedIsOff(ApplyAll(o, present, events))
    decreases |events|
  {
    if events == [] {
      forall g | g in o.work.workers && o.work.workers[g].stage.Finished?
        ensures g !in o.finalizers && g !in o.work.memory
      {
        assert AloneWorker(o, present, f, g, o.work.workers[g]);
      }
    } else {
      AloneStays(o, present, f, events[0]);
      AloneRun(Apply(o, present, events[0]), present, f, events[1..]);
    }
  }

  /** Two workers, `f` and `g`, and the list they share. */
  function Two<R>(o: Object<R>, memory: set<string>, f: string, wf: Worker<R>, g: string, wg: Worker<R>): Object<R>
    requires o.work.Deleting?
  {
    o.(work := o.work.(memory := memory, workers := map[f := wf, g := wg]))
  }

  lemma BothWait<R>(o: Object<R>, present: set<R>, f: string, g: string) returns (events: seq<Event<R>>)
    requires o.work.Deleting? && o.work.workers == map[] && f != g
    requires f in Clearable(o, o.work.view, present) && g in Clearable(o, o.work.view, present)
    ensures LegalRun(o, present, events) && forall i :: 0 <= i < |events| ==> !events[i].End?
    ensures ApplyAll(o, present, events) == Two(o, o.work.memory, f, Worker({}, Waiting), g, Worker({}, Waiting))
  {
    var o1 := Apply(o, present, Start(f));
    var o2 := Apply(o1, present, Start(g));
    var seeF := SeeAll(o2, present, f);
    var o3 := ApplyAll(o2, present, seeF);
    var seeG := SeeAll(o3, present, g);
    assert ApplyAll(o3, present, seeG).work.workers == map[f := Worker({}, Waiting), g := Worker({}, Waiting)];
    RunsJoin(o2, present, seeF, seeG);
    Then(o1, present, Start(g), seeF + seeG);
    Then(o, present, Start(f), [Start(g)] + (seeF + seeG));
    events := [Start(f)] + ([Start(g)] + (seeF + seeG));
  }

  lemma BothStore<R>(o: Object<R>, present: set<R>, f: string, g: string) returns (events: seq<Event<R>>)
    requires o.work.Deleting? && f != g && f in o.work.memory && g in o.work.memory
    requires o.work.workers == map[f := Worker({}, Waiting), g := Worker({}, Waiting)]
    ensures LegalRun(o, present, events) && forall i :: 0 <= i < |events| ==> !events[i].End?
    ensures ApplyAll(o, present, events) == Two(o, o.work.memory - {g}, f, Worker({}, Stored), g, Worker({}, Stored))
  {
    var o1 := Apply(o, present, Copy(f));
    var o2 := Apply(o1, present, Copy(g));
    var o3 := Apply(o2, present, Store(f));
    assert Apply(o3, present, Store(g)).work.workers == map[f := Worker({}, Stored), g := Worker({}, Stored)];
    Then(o3, present, Store(g), []);
    Then(o2, present, Store(f), [Store(g)] + []);
    Then(o1, present, Copy(g), [Store(f)] + ([Store(g)] + []));
    Then(o, present, Copy(f), [Copy(g)] + ([Store(f)] + ([Store(g)] + [])));
    events := [Copy(f)] + ([Copy(g)] + ([Store(f)] + ([Store(g)] + [])));
  }

  lemma BothSend<R>(o: Object<R>, present: set<R>, f: string, g: string) returns (events: seq<Event<R>>)
    requires o.work.Deleting? && f != g
    requires o.work.workers == map[f := Worker({}, Stored), g := Worker({}, Stored)]
    ensures LegalRun(o, present, events) && forall i :: 0 <= i < |events| ==> !events[i].End?
    ensures ApplyAll(o, present, events)
         == Two(o, o.work.memory, f, Worker({}, Finished), g, Worker({}, Finished)).(finalizers := o.work.memory)
  {
    var o1 := Apply(o, present, Send(f));
    var o2 := Apply(o1, present, Answer(f));
    var o3 := Apply(o2, present, Send(g));
    assert Apply(o3, present, Answer(g)).work.workers == map[f := Worker({}, Finished), g := Worker({}, Finished)];
    Then(o3, present, Answer(g), []);
    Then(o2, present, Send(g), [Answer(g)] + []);
    Then(o1, present, Answer(f), [Send(g)] + ([Answer(g)] + []));
    Then(o, present, Send(f), [Answer(f)] + ([Send(g)] + ([Answer(g)] + [])));
    events := [Send(f)] + ([Answer(f)] + ([Send(g)] + ([Answer(g)] + [])));
  }

  /**
   For any object and any two finalizers whose resources are gone, both workers can finish without an error while one of
   the two finalizers is still stored: the second removal was computed from the list before the first.
   */
  lemma RemovalCanBeLost<R>(o: Object<R>, view: set<string>, present: set<R>, f: string, g: string)
    returns (events: seq<Event<R>>)
    requires f != g && f in Clearable(o, view, present) && g in Clearable(o, view, present)
    ensures OneReconcile(o, view, present, events)
    ensures var end := ApplyAll(Began(o, view), present, events);
            && end.finalizers == view - {g} && f in end.finalizers
            && end.work.Deleting? && end.work.workers == map[f := Worker({}, Finished), g := Worker({}, Finished)]
  {
    var o0 := Began(o, view);
    var wait := BothWait(o0, present, f, g);
    var o1 := ApplyAll(o0, present, wait);
    var store := BothStore(o1, present, f, g);
    var o2 := ApplyAll(o1, present, store);
    var send := BothSend(o2, present, f, g);
    RunsJoin(o1, present, store, send);
    RunsJoin(o0, present, wait, store + send);
    events := wait + (store + send);
  }

  /** The removals of one reconcile stick in every schedule if and only if at most one worker can get to the list. */
  lemma RemovalsStickExactly<R(!new)>(o: Object<R>, view: set<string>, present: set<R>)
    requires Legal(o, present, BeginDeleting(view))
    ensures RemovalsStick(o, view, present) <==> |Clearable(o, view, present)| <= 1
  {
    var clearable := Clearable(o, view, present);
    if |clearable| <= 1 {
      var f := if clearable == {} then "" else var x :| x in clearable; x;
      assert clearable <= {f} by {
        forall x | x in clearable ensures x == f { SameWhenOne(clearable, x, f); }
      }
      forall events | OneReconcile(o, view, present, events)
        ensures FinishedIsOff(ApplyAll(Began(o, view), present, events))
      {
        AloneRun(Began(o, view), present, f, events);
      }
    } else {
      var f :| f in clearable;
      assert |clearable - {f}| == |clearable| - 1;
      var g :| g in clearable - {f};
      var events := RemovalCanBeLost(o, view, present, f, g);
      assert !FinishedIsOff(ApplyAll(Began(o, view), present, events));
    }
  }

  lemma SameWhenOne<T>(s: set<T>, x: T, y: T)
    requires |s| <= 1 && x in s && y in s
    ensures x == y
  {
    assert |s - {x}| == |s| - 1;
    assert s - {x} == {};
  }

  /**
   So with all resources gone, one reconcile is sure to do only if it read at most one of the operator's finalizers.
   */
  lemma OneFinalizerAtATime<R(!new)>(o: Object<R>, view: set<string>, present: set<R>)
    requires Legal(o, present, BeginDeleting(view)) && forall f :: f in o.guards ==> o.guards[f] !! present
    ensures RemovalsStick(o, view, present) <==> |view * o.guards.Keys| <= 1
  {
    RemovalsStickExactly(o, view, present);
    assert Clearable(o, view, present) == view * o.guards.Keys;
  }
}
