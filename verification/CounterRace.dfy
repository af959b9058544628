/**
 * The client counter under every interleaving of connecting and disconnecting tasks, each cut at
 * its awaits. A connection is a new instance under some session id; several tasks may race to
 * disconnect the same id.
 */
module CounterRace {
  import opened Words
  import opened Wrappers

  type Id = nat
  type Instance = nat
  type Task = nat

  /** A disconnect that has looked the client up and not yet tried to remove it. */
  datatype Lookup = Lookup(id: Id, found: Option<Instance>)

  datatype State = State(
    active: u32,
    clients: map<Id, Instance>,
    adding: map<Instance, Id>,
    looking: map<Task, Lookup>,
    removing: map<Task, Instance>,
    // What follows only records the past.
    next: Instance,
    inserted: set<Id>,
    subtracted: seq<Instance>,
    lost: nat,
    leaked: nat)

  function Initial(): State {
    State(0, map[], map[], map[], map[], 0, {}, [], 0, 0)
  }

  datatype Step =
    | CountClient(id: Id)                // fetch_add, before the insertion is awaited
    | InsertClient(instance: Instance)   // the insertion
    | FindClient(task: Task, id: Id)     // a disconnect looks its client up
    | RemoveClient(task: Task)           // the removal, which only one task can win
    | UncountClient(task: Task)          // fetch_sub by the winner

  function Wrap(x: int): u32 {
    x % 0x1_0000_0000
  }

  predicate Enabled(s: State, step: Step) {
    match step
    case CountClient(_) => true
    case InsertClient(i) => i in s.adding
    case FindClient(t, _) => t !in s.looking && t !in s.removing
    case RemoveClient(t) => t in s.looking
    case UncountClient(t) => t in s.removing
  }

  function Apply(s: State, step: Step): State
    requires Enabled(s, step)
  {
    match step
    case CountClient(id) =>
      s.(active := Wrap(s.active + 1), adding := s.adding[s.next := id], next := s.next + 1)
    case InsertClient(i) =>
      var id := s.adding[i];
      if id in s.clients then s.(adding := s.adding - {i}, lost := s.lost + 1)
      else s.(adding := s.adding - {i}, clients := s.clients[id := i], inserted := s.inserted + {id})
    case FindClient(t, id) =>
      s.(looking := s.looking[t := Lookup(id, if id in s.clients then Some(s.clients[id]) else None)])
    case RemoveClient(t) =>
      var l := s.looking[t];
      var rest := s.(looking := s.looking - {t});
      if l.id !in s.clients then rest
      else if l.found.Some? then
        rest.(clients := s.clients - {l.id}, removing := s.removing[t := s.clients[l.id]])
      else rest.(clients := s.clients - {l.id}, leaked := s.leaked + 1)
    case UncountClient(t) =>
      s.(active := Wrap(s.active - 1), removing := s.removing - {t}, subtracted := s.subtracted + [s.removing[t]])
  }

  // ----- Conservation -----

  /** Who is counted: present, counted but not inserted, removed but not yet subtracted, or lost track of. */
  function Total(s: State): nat {
    Size(s.clients) + Size(s.adding) + Size(s.removing) + s.lost + s.leaked
  }

  function Size<K, V>(m: map<K, V>): nat {
    |m|
  }

  lemma {:induction false} MapSizes<K, V>(m: map<K, V>, k: K, v: V)
    ensures k !in m ==> Size(m[k := v]) == Size(m) + 1
    ensures k in m ==> Size(m - {k}) == Size(m) - 1
  {
    assert m[k := v].Keys == m.Keys + {k};
    assert (m - {k}).Keys == m.Keys - {k};
  }

  ghost predicate Fresh(s: State) {
    && (forall i :: i in s.adding ==> i < s.next)
    && (forall t :: t in s.looking ==> t !in s.removing)
  }

  /** The counter is the number of those counted, in every reachable state of every interleaving. */
  ghost predicate Conserved(s: State) {
    Fresh(s) && s.active == Wrap(Total(s))
  }

  lemma {:induction false} WrapStep(x: int, d: int)
    ensures Wrap(Wrap(x) + d) == Wrap(x + d)
  {
  }

  lemma {:induction false} StepKeepsFresh(s: State, step: Step)
    requires Fresh(s) && Enabled(s, step)
    ensures Fresh(Apply(s, step))
  {
    hide Wrap;
  }

  /** Only counting and uncounting change the total; the other steps move somebody from one place to another. */
  lemma {:induction false} StepTotal(s: State, step: Step)
    requires Fresh(s) && Enabled(s, step)
    ensures Total(Apply(s, step)) ==
      Total(s) + (if step.CountClient? then 1 else if step.UncountClient? then -1 else 0)
  {
    hide Wrap, Size;
    match step
    case CountClient(id) => MapSizes(s.adding, s.next, id);
    case InsertClient(i) => InsertTotal(s, i);
    case FindClient(t, id) =>
    case RemoveClient(t) => RemoveTotal(s, t);
    case UncountClient(t) => MapSizes(s.removing, t, 0);
  }

  lemma {:induction false} InsertTotal(s: State, i: Instance)
    requires i in s.adding
    ensures Total(Apply(s, InsertClient(i))) == Total(s)
  {
    hide Size;
    MapSizes(s.adding, i, 0);
    MapSizes(s.clients, s.adding[i], i);
  }

  lemma {:induction false} RemoveTotal(s: State, t: Task)
    requires Fresh(s) && t in s.looking
    ensures Total(Apply(s, RemoveClient(t))) == Total(s)
  {
    hide Size;
    var l := s.looking[t];
    if l.id in s.clients {
      MapSizes(s.clients, l.id, 0);
      MapSizes(s.removing, t, s.clients[l.id]);
    }
  }

  lemma {:induction false} StepConserves(s: State, step: Step)
    requires Conserved(s) && Enabled(s, step)
    ensures Conserved(Apply(s, step))
  {
    hide Wrap, Total, Fresh;
    StepKeepsFresh(s, step);
    StepTotal(s, step);
    WrapStep(Total(s), 1);
    WrapStep(Total(s), -1);
  }

  /** The counter never goes below zero: whoever is about to subtract is still counted. */
  lemma {:induction false} NoUnderflow(s: State, t: Task)
    requires Conserved(s) && t in s.removing && Total(s) < TWO32
    ensures s.active >= 1 && Apply(s, UncountClient(t)).active == s.active - 1
  {
    assert t in s.removing.Keys;
  }

  // ----- Each client is subtracted at most once -----

  /** Every instance is in one place only. */
  ghost predicate Apart(s: State) {
    && Fresh(s)
    && (forall a, b :: a in s.clients && b in s.clients && a != b ==> s.clients[a] != s.clients[b])
    && (forall a :: a in s.clients ==> s.clients[a] < s.next && s.clients[a] !in s.adding && s.clients[a] !in s.subtracted)
    && (forall t, u :: t in s.removing && u in s.removing && t != u ==> s.removing[t] != s.removing[u])
    && (forall t :: t in s.removing ==>
          s.removing[t] < s.next && s.removing[t] !in s.adding && s.removing[t] !in s.subtracted)
    && (forall a, t :: a in s.clients && t in s.removing ==> s.clients[a] != s.removing[t])
    && (forall i :: i in s.subtracted ==> i < s.next && i !in s.adding)
    && (forall j, k :: 0 <= j < k < |s.subtracted| ==> s.subtracted[j] != s.subtracted[k])
  }

  lemma {:induction false} CountKeepsApart(s: State, id: Id)
    requires Apart(s)
    ensures Apart(Apply(s, CountClient(id)))
  {
    hide Wrap;
  }

  lemma {:induction false} InsertKeepsApart(s: State, i: Instance)
    requires Apart(s) && i in s.adding
    ensures Apart(Apply(s, InsertClient(i)))
  {
    hide Wrap;
  }

  /** A winning removal moves its client from the table to the removals; any other leaves the instances alone. */
  lemma {:induction false} RemoveKeepsApart(s: State, t: Task)
    requires Apart(s) && t in s.looking
    ensures Apart(Apply(s, RemoveClient(t)))
  {
    hide Wrap;
    var l := s.looking[t];
    if l.id in s.clients && l.found.Some? {
      MoveKeepsApart(s, t);
    }
  }

  lemma {:induction false} MoveKeepsApart(s: State, t: Task)
    requires Apart(s) && t in s.looking && s.looking[t].id in s.clients
    ensures var id := s.looking[t].id;
      Apart(s.(looking := s.looking - {t}, clients := s.clients - {id}, removing := s.removing[t := s.clients[id]]))
  {
  }

  lemma {:induction false} UncountKeepsApart(s: State, t: Task)
    requires Apart(s) && t in s.removing
    ensures Apart(Apply(s, UncountClient(t)))
  {
    hide Wrap;
  }

  lemma {:induction false} StepKeepsApart(s: State, step: Step)
    requires Apart(s) && Enabled(s, step)
    ensures Apart(Apply(s, step))
  {
    hide Apart, Apply;
    match step
    case CountClient(id) => CountKeepsApart(s, id);
    case InsertClient(i) => InsertKeepsApart(s, i);
    case FindClient(t, id) => FindKeepsApart(s, t, id);
    case RemoveClient(t) => RemoveKeepsApart(s, t);
    case UncountClient(t) => UncountKeepsApart(s, t);
  }

  lemma {:induction false} FindKeepsApart(s: State, t: Task, id: Id)
    requires Apart(s) && t !in s.looking && t !in s.removing
    ensures Apart(Apply(s, FindClient(t, id)))
  {
    hide Wrap;
  }

  // ----- Nothing is lost track of if disconnects come after insertion -----

  /** Ids are not reused, and a disconnect names an id that was inserted before. */
  predicate Disciplined(s: State, step: Step) {
    match step
    case CountClient(id) => id !in s.inserted && id !in s.adding.Values
    case FindClient(_, id) => id in s.inserted
    case _ => true
  }

  ghost predicate Tracked(s: State) {
    && s.lost == 0 && s.leaked == 0
    && (forall i :: i in s.adding ==> s.adding[i] !in s.inserted)
    && (forall i, j :: i in s.adding && j in s.adding && i != j ==> s.adding[i] != s.adding[j])
    && (forall id :: id in s.clients ==> id in s.inserted)
    && (forall t :: t in s.looking ==> s.looking[t].id in s.inserted)
    && (forall t :: t in s.looking && s.looking[t].found.None? ==> s.looking[t].id !in s.clients)
  }

  lemma {:induction false} StepKeepsTracked(s: State, step: Step)
    requires Tracked(s) && Fresh(s) && Enabled(s, step) && Disciplined(s, step)
    ensures Tracked(Apply(s, step))
  {
    hide Wrap;
  }

  // ----- Runs -----

  ghost predicate IsRun(ss: seq<State>, steps: seq<Step>) {
    && |ss| == |steps| + 1
    && ss[0] == Initial()
    && forall i :: 0 <= i < |steps| ==> Takes(ss[i], steps[i], ss[i + 1])
  }

  ghost predicate Takes(s: State, step: Step, s': State) {
    Enabled(s, step) && s' == Apply(s, step)
  }

  /** Over every interleaving: the counter is conserved and no instance is subtracted twice. */
  lemma {:induction false} RunsConserve(ss: seq<State>, steps: seq<Step>, n: nat)
    requires IsRun(ss, steps) && n < |ss|
    ensures Conserved(ss[n]) && Apart(ss[n])
  {
    hide Conserved, Apart, Apply, Enabled;
    if n == 0 {
      InitialIsFine();
    } else {
      RunsConserve(ss, steps, n - 1);
      assert Takes(ss[n - 1], steps[n - 1], ss[n - 1 + 1]);
      StepConserves(ss[n - 1], steps[n - 1]);
      StepKeepsApart(ss[n - 1], steps[n - 1]);
    }
  }

  lemma {:induction false} InitialIsFine()
    ensures Conserved(Initial()) && Apart(Initial()) && Tracked(Initial())
  {
    hide Conserved, Apart, Tracked;
    InitialConserved();
    InitialApart();
  }

  lemma {:induction false} InitialConserved()
    ensures Conserved(Initial())
  {
    hide Size;
    var s := Initial();
    EmptySize(s.clients);
    EmptySize(s.adding);
    EmptySize(s.removing);
  }

  lemma {:induction false} EmptySize<K, V>(m: map<K, V>)
    requires m == map[]
    ensures Size(m) == 0
  {
  }

  lemma {:induction false} InitialApart()
    ensures Apart(Initial()) && Tracked(Initial())
  {
  }

  ghost predicate DisciplinedRun(ss: seq<State>, steps: seq<Step>) {
    IsRun(ss, steps) && forall i :: 0 <= i < |steps| ==> Disciplined(ss[i], steps[i])
  }

  /**
   * If ids are not reused and disconnects are issued only after insertion, the counter is exactly
   * the clients present, plus adds not yet inserted, plus removals not yet subtracted.
   */
  lemma {:induction false} DisciplinedRunsAreExact(ss: seq<State>, steps: seq<Step>, n: nat)
    requires DisciplinedRun(ss, steps) && n < |ss|
    ensures Tracked(ss[n])
    ensures ss[n].active == Wrap(|ss[n].clients| + |ss[n].adding| + |ss[n].removing|)
  {
    hide Apply, Enabled, Disciplined, Apart, Fresh, Wrap;
    RunsConserve(ss, steps, n);
    if n == 0 {
      InitialIsFine();
    } else {
      DisciplinedRunsAreExact(ss, steps, n - 1);
      RunsConserve(ss, steps, n - 1);
      assert Takes(ss[n - 1], steps[n - 1], ss[n - 1 + 1]);
      StepKeepsTracked(ss[n - 1], steps[n - 1]);
    }
  }

  /**
   * The two branches that lose track of somebody: an insertion under an id that is taken, and a
   * removal by a task that had looked before the client was there.
   */
  predicate Slips(s: State, step: Step) {
    || (step.InsertClient? && step.instance in s.adding && s.adding[step.instance] in s.clients)
    || (step.RemoveClient? && step.task in s.looking && s.looking[step.task].found.None? &&
        s.looking[step.task].id in s.clients)
  }

  lemma {:induction false} StepSlips(s: State, step: Step)
    requires Enabled(s, step)
    ensures var s' := Apply(s, step);
      s'.lost + s'.leaked == s.lost + s.leaked + if Slips(s, step) then 1 else 0
  {
    hide Wrap;
  }

  /** How many steps so far have lost track of somebody. */
  lemma {:induction false} RunSlips(ss: seq<State>, steps: seq<Step>, n: nat)
    requires IsRun(ss, steps) && n < |ss|
    ensures ss[n].lost + ss[n].leaked <= n
    ensures ss[n].lost + ss[n].leaked == 0 <==> forall i :: 0 <= i < n ==> !Slips(ss[i], steps[i])
  {
    hide Apply, Enabled, Slips;
    if n > 0 {
      RunSlips(ss, steps, n - 1);
      assert Takes(ss[n - 1], steps[n - 1], ss[n - 1 + 1]);
      StepSlips(ss[n - 1], steps[n - 1]);
    }
  }

  /**
   * In every interleaving the counter is the clients present, plus adds not yet inserted, plus
   * removals not yet subtracted, if and only if no step so far has taken a slipping branch.
   */
  lemma {:induction false} ExactIffNoSlip(ss: seq<State>, steps: seq<Step>, n: nat)
    requires IsRun(ss, steps) && n < |ss| && n < TWO32
    ensures ss[n].active == Wrap(|ss[n].clients| + |ss[n].adding| + |ss[n].removing|) <==>
      forall i :: 0 <= i < n ==> !Slips(ss[i], steps[i])
  {
    hide Apply, Enabled, Slips, Apart, Fresh, IsRun, Wrap;
    RunsConserve(ss, steps, n);
    RunSlips(ss, steps, n);
    WrapEqual(|ss[n].clients| + |ss[n].adding| + |ss[n].removing|, ss[n].lost + ss[n].leaked);
  }

  lemma {:induction false} WrapEqual(a: int, b: int)
    requires 0 <= b < TWO32
    ensures Wrap(a + b) == Wrap(a) <==> b == 0
  {
  }

  /** Without that discipline a disconnect that looks before the insertion leaves the count one too high for good. */
  lemma {:induction false} EarlyDisconnectLeaks(id: Id, t: Task)
    ensures var s1 := Apply(Initial(), CountClient(id));
      var s2 := Apply(s1, FindClient(t, id));
      var s3 := Apply(s2, InsertClient(0));
      var s4 := Apply(s3, RemoveClient(t));
      && s4.active == 1 && s4.leaked == 1
      && s4.clients == map[] && s4.adding == map[] && s4.looking == map[] && s4.removing == map[]
  {
  }
}
