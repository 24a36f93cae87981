/** The scheduler at the grain of single map operations (src/inference.rs): adding checks two maps before it inserts,
    and taking a job chooses, removes and then inserts, with other tasks in between. */
module SchedulerRace {

  /** How far a task has come with job `id`. */
  datatype Phase =
    | NotPending(id: string)  // adding: the pending map did not have it
    | Unknown(id: string)     // adding: the running map did not have it either
    | Chosen(id: string)      // taking: picked by the scan, or named by another node's claim
    | Taken(id: string)       // taking: removed from the pending map

  /** `inserts` counts insertions into the pending map, `replaced` those of them that overwrote an entry, and
      `claims` the removals that found the entry. */
  datatype State = State(pending: set<string>, running: set<string>, tasks: map<nat, Phase>,
                         inserts: multiset<string>, replaced: multiset<string>, claims: multiset<string>)

  datatype Action =
    | AddCheckPending(task: nat, id: string)
    | AddCheckRunning(task: nat)
    | AddInsert(task: nat)
    | Choose(task: nat, id: string)
    | Remove(task: nat)
    | InsertRunning(task: nat)
    | End(id: string)

  predicate Enabled(s: State, a: Action) {
    match a
    case AddCheckPending(task, _) => task !in s.tasks
    case AddCheckRunning(task) => task in s.tasks && s.tasks[task].NotPending?
    case AddInsert(task) => task in s.tasks && s.tasks[task].Unknown?
    case Choose(task, _) => task !in s.tasks
    case Remove(task) => task in s.tasks && s.tasks[task].Chosen?
    case InsertRunning(task) => task in s.tasks && s.tasks[task].Taken?
    case End(_) => true
  }

  function Step(s: State, a: Action): State
    requires Enabled(s, a)
  {
    match a
    case AddCheckPending(task, id) =>
      if id in s.pending then s else s.(tasks := s.tasks[task := NotPending(id)])
    case AddCheckRunning(task) =>
      var id := s.tasks[task].id;
      if id in s.running then s.(tasks := s.tasks - {task}) else s.(tasks := s.tasks[task := Unknown(id)])
    case AddInsert(task) =>
      var id := s.tasks[task].id;
      s.(tasks := s.tasks - {task}, pending := s.pending + {id}, inserts := s.inserts + multiset{id},
         replaced := if id in s.pending then s.replaced + multiset{id} else s.replaced)
    case Choose(task, id) => s.(tasks := s.tasks[task := Chosen(id)])
    case Remove(task) =>
      var id := s.tasks[task].id;
      if id !in s.pending then s.(tasks := s.tasks - {task})
      else s.(tasks := s.tasks[task := Taken(id)], pending := s.pending - {id}, claims := s.claims + multiset{id})
    case InsertRunning(task) => s.(tasks := s.tasks - {task}, running := s.running + {s.tasks[task].id})
    case End(id) => s.(running := s.running - {id})
  }

  const START := State({}, {}, map[], multiset{}, multiset{}, multiset{})

  ghost predicate IsTrace(s: State, actions: seq<Action>)
    decreases |actions|
  {
    actions != [] ==> Enabled(s, actions[0]) && IsTrace(Step(s, actions[0]), actions[1..])
  }

  ghost function Trace(s: State, actions: seq<Action>): State
    requires IsTrace(s, actions)
    decreases |actions|
  {
    if actions == [] then s else Trace(Step(s, actions[0]), actions[1..])
  }

  /** Every insertion is still pending, was overwritten, or was claimed, and only one of these. */
  ghost predicate Conserved(s: State) {
    forall id :: s.inserts[id] == s.claims[id] + s.replaced[id] + (if id in s.pending then 1 else 0)
  }

  lemma StepConserves(s: State, a: Action)
    requires Conserved(s) && Enabled(s, a)
    ensures Conserved(Step(s, a))
  {
  }

  lemma {:induction false} TraceConserves(s: State, actions: seq<Action>)
    requires Conserved(s) && IsTrace(s, actions)
    ensures Conserved(Trace(s, actions))
    decreases |actions|
  {
    if actions != [] {
      StepConserves(s, actions[0]);
      hide Conserved, Step, Enabled;
      TraceConserves(Step(s, actions[0]), actions[1..]);
    }
  }

  /** In every interleaving a job is claimed at most as often as it was inserted. */
  lemma ClaimsNeverExceedInserts(actions: seq<Action>, id: string)
    requires IsTrace(START, actions)
    ensures Trace(START, actions).claims[id] <= Trace(START, actions).inserts[id]
  {
    TraceConserves(START, actions);
  }

  // ----- what keeps pending and running apart

  predicate Adding(s: State, task: nat, id: string) {
    task in s.tasks && (s.tasks[task] == NotPending(id) || s.tasks[task] == Unknown(id))
  }

  /** A task starts to add a job only when no other task has taken it without having entered it as running. */
  predicate StartsFree(s: State, a: Action) {
    a.AddCheckPending? ==> forall t :: t in s.tasks ==> s.tasks[t] != Taken(a.id)
  }

  /** A task inserts a job only when no other task is adding it. */
  predicate InsertsAlone(s: State, a: Action)
    requires Enabled(s, a)
  {
    a.AddInsert? ==> forall t :: t in s.tasks && t != a.task ==> !Adding(s, t, s.tasks[a.task].id)
  }

  ghost predicate AlwaysStartsFree(s: State, actions: seq<Action>)
    requires IsTrace(s, actions)
    decreases |actions|
  {
    actions != [] ==> StartsFree(s, actions[0]) && AlwaysStartsFree(Step(s, actions[0]), actions[1..])
  }

  ghost predicate AlwaysInsertsAlone(s: State, actions: seq<Action>)
    requires IsTrace(s, actions)
    decreases |actions|
  {
    actions != [] ==> InsertsAlone(s, actions[0]) && AlwaysInsertsAlone(Step(s, actions[0]), actions[1..])
  }

  /** A job is in one place: being added, pending, taken by one task, or running. */
  ghost predicate InOnePlace(s: State) {
    && s.pending !! s.running && s.replaced == multiset{}
    && (forall t :: t in s.tasks && s.tasks[t].NotPending? ==> s.tasks[t].id !in s.pending)
    && (forall t :: t in s.tasks && s.tasks[t].Unknown? ==> s.tasks[t].id !in s.pending + s.running)
    && (forall t :: t in s.tasks && s.tasks[t].Taken? ==> s.tasks[t].id !in s.pending + s.running)
    && (forall t, u :: t in s.tasks && u in s.tasks && t != u && s.tasks[t].Taken? && !s.tasks[u].Chosen? ==>
          s.tasks[t].id != s.tasks[u].id)
  }

  /** A step keeps every job in one place exactly when it keeps the exclusion. */
  lemma StepKeepsPlace(s: State, a: Action)
    requires InOnePlace(s) && Enabled(s, a)
    ensures InOnePlace(Step(s, a)) <==> StartsFree(s, a) && InsertsAlone(s, a)
  {
    if InOnePlace(Step(s, a)) {
      PlaceImpliesExclusion(s, a);
    }
  }

  lemma PlaceImpliesExclusion(s: State, a: Action)
    requires InOnePlace(s) && Enabled(s, a) && InOnePlace(Step(s, a))
    ensures StartsFree(s, a) && InsertsAlone(s, a)
  {
    var t := Step(s, a);
    if a.AddCheckPending? {
      assert a.id !in s.pending ==> t.tasks[a.task] == NotPending(a.id);
      forall u | u in s.tasks ensures s.tasks[u] != Taken(a.id) {
        assert t.tasks[u] == s.tasks[u];
      }
    }
    if a.AddInsert? {
      var id := s.tasks[a.task].id;
      forall u | u in s.tasks && u != a.task ensures !Adding(s, u, id) {
        assert t.tasks[u] == s.tasks[u] && id in t.pending;
      }
    }
  }

  /** Every job is in one place at every moment of the trace. */
  ghost predicate AlwaysInOnePlace(s: State, actions: seq<Action>)
    requires IsTrace(s, actions)
    decreases |actions|
  {
    InOnePlace(s) && (actions != [] ==> AlwaysInOnePlace(Step(s, actions[0]), actions[1..]))
  }

  lemma {:induction false} TraceKeepsPlace(s: State, actions: seq<Action>)
    requires InOnePlace(s) && IsTrace(s, actions)
    ensures AlwaysInOnePlace(s, actions) <==> AlwaysStartsFree(s, actions) && AlwaysInsertsAlone(s, actions)
    ensures AlwaysInOnePlace(s, actions) ==> InOnePlace(Trace(s, actions))
    decreases |actions|
  {
    if actions != [] {
      StepKeepsPlace(s, actions[0]);
      var t := Step(s, actions[0]);
      hide InOnePlace, Step, Enabled, StartsFree, InsertsAlone;
      if InOnePlace(t) {
        TraceKeepsPlace(t, actions[1..]);
      }
    }
  }

  /** In every interleaving: every job is in one place throughout exactly when adds of a job start while nobody has it
      in hand, and insert while nobody else adds it. */
  lemma ExclusionExactly(actions: seq<Action>)
    requires IsTrace(START, actions)
    ensures AlwaysInOnePlace(START, actions) <==>
      AlwaysStartsFree(START, actions) && AlwaysInsertsAlone(START, actions)
  {
    TraceKeepsPlace(START, actions);
  }

  /** Then no job is pending and running, no pending entry is overwritten, and every insertion is claimed or pending. */
  lemma ExclusionSuffices(actions: seq<Action>)
    requires IsTrace(START, actions) && AlwaysStartsFree(START, actions) && AlwaysInsertsAlone(START, actions)
    ensures var s := Trace(START, actions);
            && s.pending !! s.running && s.replaced == multiset{}
            && forall id :: s.inserts[id] == s.claims[id] + (if id in s.pending then 1 else 0)
  {
    TraceKeepsPlace(START, actions);
    TraceConserves(START, actions);
  }

  // ----- each half of the exclusion is needed

  /** Adds one action in front of a trace and keeps track of the exclusion. */
  lemma Chain(s: State, a: Action, t: State, rest: seq<Action>) returns (actions: seq<Action>)
    requires Enabled(s, a) && t == Step(s, a) && IsTrace(t, rest)
    ensures actions == [a] + rest && IsTrace(s, actions) && Trace(s, actions) == Trace(t, rest)
    ensures AlwaysStartsFree(s, actions) <==> StartsFree(s, a) && AlwaysStartsFree(t, rest)
    ensures AlwaysInsertsAlone(s, actions) <==> InsertsAlone(s, a) && AlwaysInsertsAlone(t, rest)
  {
    actions := [a] + rest;
    assert actions[1..] == rest;
  }

  ghost predicate PendingAndRunning(s: State, id: string) { id in s.pending && id in s.running }

  /** Whenever an add starts while another task has the job in hand, the job can end up pending and running. */
  lemma LateStartHarms(s: State, a: Action) returns (rest: seq<Action>)
    requires InOnePlace(s) && Enabled(s, a) && !StartsFree(s, a)
    ensures IsTrace(s, [a] + rest) && PendingAndRunning(Trace(s, [a] + rest), a.id)
  {
    var holder :| holder in s.tasks && s.tasks[holder] == Taken(a.id);
    var s1 := Step(s, a);
    assert s1 == s.(tasks := s.tasks[a.task := NotPending(a.id)]);
    var s2 := Step(s1, AddCheckRunning(a.task));
    assert s2 == s1.(tasks := s1.tasks[a.task := Unknown(a.id)]);
    var s3 := Step(s2, InsertRunning(holder));
    assert s3.tasks[a.task] == Unknown(a.id);
    var s4 := Step(s3, AddInsert(a.task));
    assert Enabled(s1, AddCheckRunning(a.task)) && Enabled(s2, InsertRunning(holder));
    hide InOnePlace, Step, StartsFree, Enabled, AlwaysStartsFree, AlwaysInsertsAlone;
    rest := Chain(s3, AddInsert(a.task), s4, []);
    rest := Chain(s2, InsertRunning(holder), s3, rest);
    rest := Chain(s1, AddCheckRunning(a.task), s2, rest);
    var all := Chain(s, a, s1, rest);
  }

  lemma {:induction false} FreshTask(tasks: map<nat, Phase>) returns (t: nat)
    ensures t !in tasks && forall u :: u in tasks ==> u < t
    decreases |tasks|
  {
    if tasks == map[] {
      t := 0;
    } else {
      var u :| u in tasks;
      assert (tasks - {u}).Keys == tasks.Keys - {u};
      var v := FreshTask(tasks - {u});
      t := if u < v then v else u + 1;
      assert forall w :: w in tasks ==> w == u || w in tasks - {u};
    }
  }

  /** Once a task is about to insert a job that is pending, the insertion can overwrite it, or come after it runs. */
  lemma SecondInsertHarms(s: State, u: nat, id: string) returns (over: seq<Action>, twice: seq<Action>)
    requires u in s.tasks && s.tasks[u] == Unknown(id) && id in s.pending
    ensures IsTrace(s, over) && id in Trace(s, over).replaced
    ensures IsTrace(s, twice) && PendingAndRunning(Trace(s, twice), id)
  {
    var v := FreshTask(s.tasks);
    var s1 := Step(s, Choose(v, id));
    assert s1 == s.(tasks := s.tasks[v := Chosen(id)]);
    var s2 := Step(s1, Remove(v));
    assert s2.tasks == s1.tasks[v := Taken(id)] && s2.tasks[u] == Unknown(id);
    var s3 := Step(s2, InsertRunning(v));
    assert s3.tasks[u] == Unknown(id);
    var s4, t1 := Step(s3, AddInsert(u)), Step(s, AddInsert(u));
    assert Enabled(s, Choose(v, id)) && Enabled(s1, Remove(v)) && Enabled(s2, InsertRunning(v));
    hide Step, Enabled, AlwaysStartsFree, AlwaysInsertsAlone;
    over := Chain(s, AddInsert(u), t1, []);
    twice := Chain(s3, AddInsert(u), s4, []);
    twice := Chain(s2, InsertRunning(v), s3, twice);
    twice := Chain(s1, Remove(v), s2, twice);
    twice := Chain(s, Choose(v, id), s1, twice);
  }

  /** Whenever a task inserts a job while another adds it, the entry can be overwritten, and the job can end up pending
      and running. */
  lemma SharedInsertHarms(s: State, a: Action) returns (over: seq<Action>, twice: seq<Action>)
    requires InOnePlace(s) && Enabled(s, a) && !InsertsAlone(s, a)
    ensures IsTrace(s, [a] + over) && s.tasks[a.task].id in Trace(s, [a] + over).replaced
    ensures IsTrace(s, [a] + twice) && PendingAndRunning(Trace(s, [a] + twice), s.tasks[a.task].id)
  {
    var id, s1 := s.tasks[a.task].id, Step(s, a);
    var u :| u in s.tasks && u != a.task && Adding(s, u, id);
    assert s1.tasks[u] == s.tasks[u] && id in s1.pending && id !in s1.running;
    if s.tasks[u] == Unknown(id) {
      over, twice := SecondInsertHarms(s1, u, id);
    } else {
      var s2 := Step(s1, AddCheckRunning(u));
      assert s2 == s1.(tasks := s1.tasks[u := Unknown(id)]) && Enabled(s1, AddCheckRunning(u));
      over, twice := SecondInsertHarms(s2, u, id);
      hide Step, Enabled, InOnePlace, InsertsAlone, AlwaysStartsFree, AlwaysInsertsAlone;
      over := Chain(s1, AddCheckRunning(u), s2, over);
      twice := Chain(s1, AddCheckRunning(u), s2, twice);
    }
    hide Step, Enabled, InOnePlace, InsertsAlone, AlwaysStartsFree, AlwaysInsertsAlone;
    var all := Chain(s, a, s1, over);
    all := Chain(s, a, s1, twice);
  }

  // ----- instances

  /** From a state in which task 1 may insert and task 2 has passed both checks: the job is inserted, taken and runs,
      and then inserted again. */
  lemma SecondInsert(s: State) returns (actions: seq<Action>)
    requires s.tasks == map[1 := Unknown("j"), 2 := Unknown("j")] && s.pending == {} && s.running == {}
    ensures actions == [AddInsert(1), Choose(3, "j"), Remove(3), InsertRunning(3), AddInsert(2)]
    ensures IsTrace(s, actions) && PendingAndRunning(Trace(s, actions), "j")
    ensures AlwaysStartsFree(s, actions) && !AlwaysInsertsAlone(s, actions)
  {
    var s1 := Step(s, AddInsert(1));
    var s2 := Step(s1, Choose(3, "j"));
    var s3 := Step(s2, Remove(3));
    var s4 := Step(s3, InsertRunning(3));
    var s5 := Step(s4, AddInsert(2));
    assert Adding(s, 2, "j");
    assert !InsertsAlone(s, AddInsert(1));
    hide Step, InsertsAlone, Adding;
    actions := Chain(s4, AddInsert(2), s5, []);
    actions := Chain(s3, InsertRunning(3), s4, actions);
    actions := Chain(s2, Remove(3), s3, actions);
    actions := Chain(s1, Choose(3, "j"), s2, actions);
    actions := Chain(s, AddInsert(1), s1, actions);
  }

  /** Without inserting alone: two adds of one job both pass the checks, and the job is pending again while it runs.
      No add starts while the job is in hand. */
  lemma RacingAddsInsertTwice()
    ensures var actions := [AddCheckPending(1, "j"), AddCheckRunning(1), AddCheckPending(2, "j"), AddCheckRunning(2),
                            AddInsert(1), Choose(3, "j"), Remove(3), InsertRunning(3), AddInsert(2)];
            IsTrace(START, actions) && AlwaysStartsFree(START, actions) && !AlwaysInsertsAlone(START, actions)
            && PendingAndRunning(Trace(START, actions), "j")
  {
    var s1 := Step(START, AddCheckPending(1, "j"));
    var s2 := Step(s1, AddCheckRunning(1));
    var s3 := Step(s2, AddCheckPending(2, "j"));
    var s4 := Step(s3, AddCheckRunning(2));
    assert s4 == START.(tasks := map[1 := Unknown("j"), 2 := Unknown("j")]);
    assert StartsFree(START, AddCheckPending(1, "j")) && StartsFree(s2, AddCheckPending(2, "j"));
    var r := SecondInsert(s4);
    hide Step, IsTrace, Trace, AlwaysStartsFree, AlwaysInsertsAlone, PendingAndRunning, StartsFree;
    r := Chain(s3, AddCheckRunning(2), s4, r);
    r := Chain(s2, AddCheckPending(2, "j"), s3, r);
    r := Chain(s1, AddCheckRunning(1), s2, r);
    r := Chain(START, AddCheckPending(1, "j"), s1, r);
    assert r == [AddCheckPending(1, "j"), AddCheckRunning(1), AddCheckPending(2, "j"), AddCheckRunning(2),
                 AddInsert(1), Choose(3, "j"), Remove(3), InsertRunning(3), AddInsert(2)];
  }

  /** From a state in which task 2 has the job in hand: task 3 starts to add it, the job runs, and task 3 inserts it. */
  lemma LateInsert(s: State) returns (actions: seq<Action>)
    requires s.tasks == map[2 := Taken("j")] && s.pending == {} && s.running == {}
    ensures actions == [AddCheckPending(3, "j"), AddCheckRunning(3), InsertRunning(2), AddInsert(3)]
    ensures IsTrace(s, actions) && PendingAndRunning(Trace(s, actions), "j")
    ensures !AlwaysStartsFree(s, actions) && AlwaysInsertsAlone(s, actions)
  {
    var s1 := Step(s, AddCheckPending(3, "j"));
    var s2 := Step(s1, AddCheckRunning(3));
    var s3 := Step(s2, InsertRunning(2));
    var s4 := Step(s3, AddInsert(3));
    assert s.tasks[2] == Taken("j");
    assert !StartsFree(s, AddCheckPending(3, "j"));
    assert InsertsAlone(s3, AddInsert(3));
    hide Step, StartsFree;
    actions := Chain(s3, AddInsert(3), s4, []);
    actions := Chain(s2, InsertRunning(2), s3, actions);
    actions := Chain(s1, AddCheckRunning(3), s2, actions);
    actions := Chain(s, AddCheckPending(3, "j"), s1, actions);
  }

  const ADDED := State({"j"}, {}, map[], multiset{"j"}, multiset{}, multiset{})

  /** One undisturbed add in front of a trace. */
  lemma AddsAlone(rest: seq<Action>) returns (actions: seq<Action>)
    requires IsTrace(ADDED, rest)
    ensures actions == [AddCheckPending(1, "j"), AddCheckRunning(1), AddInsert(1)] + rest
    ensures IsTrace(START, actions) && Trace(START, actions) == Trace(ADDED, rest)
    ensures AlwaysStartsFree(START, actions) <==> AlwaysStartsFree(ADDED, rest)
    ensures AlwaysInsertsAlone(START, actions) <==> AlwaysInsertsAlone(ADDED, rest)
  {
    var s1 := Step(START, AddCheckPending(1, "j"));
    var s2 := Step(s1, AddCheckRunning(1));
    assert s2.tasks == map[1 := Unknown("j")] && Step(s2, AddInsert(1)) == ADDED;
    hide IsTrace, Trace, AlwaysStartsFree, AlwaysInsertsAlone;
    actions := Chain(s2, AddInsert(1), ADDED, rest);
    actions := Chain(s1, AddCheckRunning(1), s2, actions);
    actions := Chain(START, AddCheckPending(1, "j"), s1, actions);
  }

  /** Without starting free: no two adds overlap, but the second starts while a task has the job in hand between the two
      maps, and the job is pending again while it runs. */
  lemma AddDuringTakeInsertsTwice()
    ensures var actions := [AddCheckPending(1, "j"), AddCheckRunning(1), AddInsert(1), Choose(2, "j"), Remove(2),
                            AddCheckPending(3, "j"), AddCheckRunning(3), InsertRunning(2), AddInsert(3)];
            IsTrace(START, actions) && !AlwaysStartsFree(START, actions) && AlwaysInsertsAlone(START, actions)
            && PendingAndRunning(Trace(START, actions), "j")
  {
    var s1 := Step(ADDED, Choose(2, "j"));
    var s2 := Step(s1, Remove(2));
    assert s2.tasks == map[2 := Taken("j")] && s2.pending == {} && s2.running == {};
    var r := LateInsert(s2);
    hide Step, IsTrace, Trace, AlwaysStartsFree, AlwaysInsertsAlone, PendingAndRunning;
    r := Chain(s1, Remove(2), s2, r);
    r := Chain(ADDED, Choose(2, "j"), s1, r);
    r := AddsAlone(r);
    assert r == [AddCheckPending(1, "j"), AddCheckRunning(1), AddInsert(1), Choose(2, "j"), Remove(2),
                 AddCheckPending(3, "j"), AddCheckRunning(3), InsertRunning(2), AddInsert(3)];
  }
}
