/** The memo tables of caches and DAGs under concurrency: get_cache_from_cache and get_dag look an
    epoch up under a lock, build without it, and insert under it again (nrghash/nrghash.cpp). */
module MemoTable {

  type Tid = nat

  /** An impl_t: its identity, and the epoch it was built for. */
  datatype Impl = Impl(id: nat, epoch: nat)

  datatype Point =
    | Idle
    | Find(epoch: nat)                 // find under the lock
    | Build(epoch: nat)                // new impl_t, lock not held
    | Insert(epoch: nat, impl: Impl)   // insert, then find, under the lock
    | Returned(epoch: nat, impl: Impl)
    | Threw                            // the progress callback cancelled the build
    | Missing                          // neither inserted nor found: "Could not get"

  datatype State = State(table: map<nat, Impl>, nextId: nat, point: map<Tid, Point>, handed: set<Impl>)

  datatype Action = Call(t: Tid, epoch: nat) | Go(t: Tid, cancelled: bool)

  ghost predicate Init(s: State) {
    s.table == map[] && s.handed == {} && forall t :: t in s.point ==> s.point[t] == Idle
  }

  function Hand(s: State, t: Tid, epoch: nat, impl: Impl): State {
    s.(point := s.point[t := Returned(epoch, impl)], handed := s.handed + {impl})
  }

  function Step(s: State, a: Action): State {
    if a.t !in s.point then s else
      match a
      case Call(t, epoch) =>
        if s.point[t] == Idle || s.point[t].Returned? || s.point[t] == Threw then s.(point := s.point[t := Find(epoch)]) else s
      case Go(t, cancelled) =>
        match s.point[t]
        case Find(epoch) =>
          if epoch in s.table then Hand(s, t, epoch, s.table[epoch]) else s.(point := s.point[t := Build(epoch)])
        case Build(epoch) =>
          if cancelled then s.(point := s.point[t := Threw])
          else s.(point := s.point[t := Insert(epoch, Impl(s.nextId, epoch))], nextId := s.nextId + 1)
        case Insert(epoch, impl) =>
          var inserted := epoch !in s.table;
          var table := if inserted then s.table[epoch := impl] else s.table;
          if inserted then Hand(s.(table := table), t, epoch, impl)
          else if epoch in table then Hand(s, t, epoch, table[epoch])
          else s.(point := s.point[t := Missing])
        case _ => s
  }

  function Run(s: State, actions: seq<Action>): State {
    if actions == [] then s else Step(Run(s, actions[..|actions| - 1]), actions[|actions| - 1])
  }

  /** Everything ever handed out is the table's entry for its epoch. */
  ghost predicate Inv(s: State) {
    && (forall e :: e in s.table ==> s.table[e].epoch == e)
    && (forall i :: i in s.handed ==> i.epoch in s.table && s.table[i.epoch] == i)
    && (forall t :: t in s.point ==> s.point[t] != Missing)
    && (forall t :: t in s.point && s.point[t].Insert? ==> s.point[t].impl.epoch == s.point[t].epoch)
    && (forall t :: t in s.point && s.point[t].Returned? ==>
          s.point[t].impl in s.handed && s.point[t].impl.epoch == s.point[t].epoch)
  }

  lemma {:induction false} StepKeepsInv(s: State, a: Action)
    requires Inv(s)
    ensures Inv(Step(s, a))
  {
  }

  lemma {:induction false} RunKeepsInv(s: State, actions: seq<Action>)
    requires Init(s)
    ensures Inv(Run(s, actions))
  {
    hide Inv, Step;
    if actions == [] {
      InitIsInv(s);
    } else {
      RunKeepsInv(s, actions[..|actions| - 1]);
      StepKeepsInv(Run(s, actions[..|actions| - 1]), actions[|actions| - 1]);
    }
  }

  lemma InitIsInv(s: State)
    requires Init(s)
    ensures Inv(s)
  {
  }

  /** In every interleaving, all callers that ask for an epoch get one and the same object, built for that
      epoch, although several threads may have built one. */
  lemma {:induction false} OneObjectPerEpoch(s: State, actions: seq<Action>, t: Tid, u: Tid)
    requires Init(s)
    requires var n := Run(s, actions);
             t in n.point && u in n.point && n.point[t].Returned? && n.point[u].Returned?
             && n.point[t].epoch == n.point[u].epoch
    ensures var n := Run(s, actions);
            n.point[t].impl == n.point[u].impl && n.point[t].impl.epoch == n.point[t].epoch
  {
    RunKeepsInv(s, actions);
  }

  /** The branch for an object that was neither inserted nor found is dead. */
  lemma {:induction false} NeverMissing(s: State, actions: seq<Action>, t: Tid)
    requires Init(s) && t in Run(s, actions).point
    ensures Run(s, actions).point[t] != Missing
  {
    RunKeepsInv(s, actions);
  }

  lemma {:induction false} HandedStays(s: State, a: Action)
    requires Inv(s)
    ensures s.handed <= Step(s, a).handed
    ensures forall e :: e in s.table ==> e in Step(s, a).table && Step(s, a).table[e] == s.table[e]
  {
  }

  /** Also across time: what was once handed out for an epoch is what is handed out ever after. */
  lemma {:induction false} SameObjectForever(s: State, before: seq<Action>, after: seq<Action>, t: Tid, u: Tid)
    requires Init(s)
    requires var n := Run(s, before); t in n.point && n.point[t].Returned?
    requires var m := Run(Run(s, before), after);
             u in m.point && m.point[u].Returned? && m.point[u].epoch == Run(s, before).point[t].epoch
    ensures Run(Run(s, before), after).point[u].impl == Run(s, before).point[t].impl
  {
    RunKeepsInv(s, before);
    var n := Run(s, before);
    RunGrows(n, after);
  }

  lemma {:induction false} RunGrows(s: State, actions: seq<Action>)
    requires Inv(s)
    ensures Inv(Run(s, actions))
    ensures forall e :: e in s.table ==> e in Run(s, actions).table && Run(s, actions).table[e] == s.table[e]
  {
    hide Inv, Step;
    if actions != [] {
      var last := |actions| - 1;
      RunGrows(s, actions[..last]);
      StepKeepsInv(Run(s, actions[..last]), actions[last]);
      HandedStays(Run(s, actions[..last]), actions[last]);
    }
  }

  // ----- Every call returns -----

  /** How far a call is from its return. */
  function Rank(p: Point): nat {
    match p
    case Find(_) => 3
    case Build(_) => 2
    case Insert(_, _) => 1
    case _ => 0
  }

  /** t is in a call for this epoch, or back from it. */
  predicate Serving(p: Point, epoch: nat) {
    match p
    case Find(e) => e == epoch
    case Build(e) => e == epoch
    case Insert(e, _) => e == epoch
    case Returned(e, _) => e == epoch
    case _ => false
  }

  function OwnSteps(actions: seq<Action>, t: Tid): nat {
    if actions == [] then 0
    else OwnSteps(actions[..|actions| - 1], t) + if actions[|actions| - 1].t == t then 1 else 0
  }

  lemma {:induction false} ServingStep(s: State, t: Tid, epoch: nat, a: Action)
    requires Inv(s) && t in s.point && Serving(s.point[t], epoch) && (a.t == t ==> a == Go(t, false))
    ensures var n := Step(s, a);
      && t in n.point && Serving(n.point[t], epoch)
      && Rank(n.point[t]) <= Rank(s.point[t]) && (a.t == t && Rank(s.point[t]) > 0 ==> Rank(n.point[t]) < Rank(s.point[t]))
  {
    hide Inv;
  }

  lemma {:induction false} ServingRun(s: State, t: Tid, epoch: nat, actions: seq<Action>)
    requires Inv(s) && t in s.point && Serving(s.point[t], epoch)
    requires forall i :: 0 <= i < |actions| && actions[i].t == t ==> actions[i] == Go(t, false)
    ensures var n := Run(s, actions);
      && Inv(n) && t in n.point && Serving(n.point[t], epoch)
      && (Rank(n.point[t]) == 0 || Rank(n.point[t]) + OwnSteps(actions, t) <= Rank(s.point[t]))
  {
    hide Inv, Step, Serving, Rank;
    if actions != [] {
      var last := |actions| - 1;
      ServingRun(s, t, epoch, actions[..last]);
      StepKeepsInv(Run(s, actions[..last]), actions[last]);
      ServingStep(Run(s, actions[..last]), t, epoch, actions[last]);
    }
  }

  /** However the other threads interleave, a call for an epoch returns after at most three steps of its own,
      unless its build is cancelled. */
  lemma {:induction false} CallReturns(s: State, before: seq<Action>, t: Tid, actions: seq<Action>)
    requires Init(s) && t in Run(s, before).point && Run(s, before).point[t].Find?
    requires forall i :: 0 <= i < |actions| && actions[i].t == t ==> actions[i] == Go(t, false)
    requires OwnSteps(actions, t) >= 3
    ensures var n := Run(Run(s, before), actions);
      t in n.point && n.point[t].Returned? && n.point[t].epoch == Run(s, before).point[t].epoch
  {
    RunKeepsInv(s, before);
    var n := Run(s, before);
    ServingRun(n, t, n.point[t].epoch, actions);
    hide Run, OwnSteps, Inv;
  }

  /** An epoch in the table is served from it at once, and nothing is built. */
  lemma HitReturns(s: State, t: Tid, cancelled: bool)
    requires t in s.point && s.point[t].Find? && s.point[t].epoch in s.table
    ensures var n := Step(s, Go(t, cancelled));
      n.point[t] == Returned(s.point[t].epoch, s.table[s.point[t].epoch]) && n.table == s.table && n.nextId == s.nextId
  {
  }

  // ----- Objects are told apart -----

  ghost predicate Distinct(s: State) {
    && (forall e :: e in s.table ==> s.table[e].id < s.nextId)
    && (forall t :: t in s.point && s.point[t].Insert? ==> s.point[t].impl.id < s.nextId)
    && (forall t, u :: t in s.point && u in s.point && t != u && s.point[t].Insert? && s.point[u].Insert? ==>
          s.point[t].impl.id != s.point[u].impl.id)
    && (forall t, e :: t in s.point && s.point[t].Insert? && e in s.table ==> s.point[t].impl.id != s.table[e].id)
    && (forall d, e :: d in s.table && e in s.table && d != e ==> s.table[d].id != s.table[e].id)
  }

  /** t is no longer about to insert, and the table is the same. */
  lemma DistinctWithout(s: State, n: State, t: Tid, p: Point)
    requires Distinct(s) && n.table == s.table && n.nextId == s.nextId && n.point == s.point[t := p] && !p.Insert?
    ensures Distinct(n)
  {
  }

  lemma DistinctBuilt(s: State, n: State, t: Tid, epoch: nat)
    requires Distinct(s) && n.table == s.table && n.nextId == s.nextId + 1
    requires n.point == s.point[t := Insert(epoch, Impl(s.nextId, epoch))]
    ensures Distinct(n)
  {
  }

  lemma DistinctInserted(s: State, n: State, t: Tid, epoch: nat, p: Point)
    requires Distinct(s) && t in s.point && s.point[t].Insert? && n.table == s.table[epoch := s.point[t].impl]
    requires n.nextId == s.nextId && n.point == s.point[t := p] && !p.Insert?
    ensures Distinct(n)
  {
  }

  lemma {:induction false} StepKeepsDistinct(s: State, a: Action)
    requires Distinct(s)
    ensures Distinct(Step(s, a))
  {
    hide Distinct;
    var n := Step(s, a);
    if a.t in s.point && n != s {
      var t, p := a.t, s.point[a.t];
      match a
      case Call(_, epoch) => DistinctWithout(s, n, t, Find(epoch));
      case Go(_, cancelled) =>
        if p.Build? && !cancelled {
          DistinctBuilt(s, n, t, p.epoch);
        } else if p.Insert? && p.epoch !in s.table {
          DistinctInserted(s, n, t, p.epoch, n.point[t]);
        } else {
          DistinctWithout(s, n, t, n.point[t]);
        }
    }
  }

  /** In every run, no two threads have built the same object, and none has built one that is in the table. */
  lemma {:induction false} BuildsAreDistinct(s: State, actions: seq<Action>)
    requires Init(s)
    ensures Distinct(Run(s, actions))
  {
    hide Step;
    if actions != [] {
      hide Distinct;
      BuildsAreDistinct(s, actions[..|actions| - 1]);
      StepKeepsDistinct(Run(s, actions[..|actions| - 1]), actions[|actions| - 1]);
    }
  }
}
