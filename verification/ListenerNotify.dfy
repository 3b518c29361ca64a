/** Notification while callbacks change the table. A run interleaves the table's operations with the
    turns of the notifications under way; callbacks may do anything, including notifying. */
module ListenerNotify {
  import opened Basics
  import opened Keys
  import opened ListenerTree
  import opened Listeners

  /** A notification under way: the list it took at its start, and for each turn already taken
      whether the callback was called. */
  datatype Frame = Frame(key: Path, snapshot: seq<nat>, called: seq<bool>)

  /** The innermost notification is the last one. */
  datatype State = State(table: Table, frames: seq<Frame>)

  datatype Step =
    | AddStep(where: string, data: int)
    | RemoveStep(cnxn: nat)
    | RemoveIfStep(pred: Predicate)
    | NotifyStep(key: string)
      // a listener is added to another table
    | ElsewhereStep
    | TurnStep
    | ReturnStep

  function Ref(store: seq<Record>, l: nat): (r: seq<Record>)
    ensures |r| == |store|
  {
    if l >= |store| then store else store[l := store[l].(refcount := store[l].refcount + 1)]
  }

  function RefAll(store: seq<Record>, ls: seq<nat>): (r: seq<Record>)
    ensures |r| == |store|
    decreases |ls|
  {
    if ls == [] then store else RefAll(Ref(store, ls[0]), ls[1..])
  }

  function UnrefAll(store: seq<Record>, ls: seq<nat>): (r: seq<Record>)
    ensures |r| == |store|
    decreases |ls|
  {
    if ls == [] then store else UnrefAll(Unref(store, ls[0]), ls[1..])
  }

  /** The start of ltable_notify. */
  function Begin(s: State, key: string): State {
    if !ValidKey(key) || s.table.tree.None? then s
    else
      var snapshot := OnTheWay(s.table.tree.value, Components(key));
      State(s.table.(store := RefAll(s.table.store, snapshot)),
            s.frames + [Frame(Components(key), snapshot, [])])
  }

  /** One turn of notify_listener_list. */
  function Turn(s: State): Option<State> {
    if s.frames == [] then None
    else
      var n := |s.frames| - 1;
      var f := s.frames[n];
      var i := |f.called|;
      if i >= |f.snapshot| || f.snapshot[i] >= |s.table.store| then None
      else Some(s.(frames := s.frames[n := f.(called := f.called + [!s.table.store[f.snapshot[i]].removed])]))
  }

  /** The end of ltable_notify. */
  function Return(s: State): Option<State> {
    if s.frames == [] then None
    else
      var n := |s.frames| - 1;
      var f := s.frames[n];
      if |f.called| != |f.snapshot| then None
      else Some(State(s.table.(store := UnrefAll(s.table.store, f.snapshot)), s.frames[..n]))
  }

  function Do(s: State, step: Step): Option<State> {
    match step
    case AddStep(where, data) =>
      var r := Add(s.table, where, data);
      if r.Added? then Some(s.(table := r.table)) else None
    case RemoveStep(cnxn) => Some(s.(table := Remove(s.table, cnxn)))
    case RemoveIfStep(pred) => Some(s.(table := RemoveIf(s.table, pred)))
    case NotifyStep(key) => Some(Begin(s, key))
    case ElsewhereStep => Some(s.(table := Elsewhere(s.table)))
    case TurnStep => Turn(s)
    case ReturnStep => Return(s)
  }

  function DoAll(s: State, steps: seq<Step>): Option<State>
    decreases |steps|
  {
    if steps == [] then Some(s)
    else match DoAll(s, steps[..|steps| - 1])
         case None => None
         case Some(t) => Do(t, steps[|steps| - 1])
  }

  /** Callers add listeners at valid keys. */
  predicate Proper(steps: seq<Step>) {
    forall i :: 0 <= i < |steps| && steps[i].AddStep? ==> ValidKey(steps[i].where)
  }

  // The invariant

  function Held(frames: seq<Frame>): multiset<nat> {
    if frames == [] then multiset{}
    else Held(frames[..|frames| - 1]) + multiset(frames[|frames| - 1].snapshot)
  }

  ghost predicate FrameOk(store: seq<Record>, f: Frame) {
    && NoDup(f.snapshot) && |f.called| <= |f.snapshot|
    && (forall i :: 0 <= i < |f.snapshot| ==> f.snapshot[i] < |store|)
    && (forall i :: 0 <= i < |f.called| && !f.called[i] ==> store[f.snapshot[i]].removed)
  }

  /** Records grow in number and only ever become removed. */
  ghost predicate Aged(a: seq<Record>, b: seq<Record>) {
    |a| <= |b| && forall l :: 0 <= l < |a| ==> b[l].cnxn == a[l].cnxn && (a[l].removed ==> b[l].removed)
  }

  /** Only the counts differ. */
  ghost predicate SameButCounts(a: seq<Record>, b: seq<Record>) {
    |a| == |b| && forall l :: 0 <= l < |a| ==>
      b[l].cnxn == a[l].cnxn && b[l].removed == a[l].removed && b[l].data == a[l].data && b[l].serial == a[l].serial
  }

  lemma CountsDoNotMatter(t: Table, store: seq<Record>)
    requires SameButCounts(t.store, store) && Placed(t) && Slotted(t) && Stamped(t)
    ensures Placed(t.(store := store)) && Slotted(t.(store := store)) && Stamped(t.(store := store))
    ensures Live(t.(store := store)) == Live(t)
  {
    PlacedSame(t, store);
    SlottedSame(t, store);
    hide Placed, Slotted, Index;
  }

  lemma PlacedSame(t: Table, store: seq<Record>)
    requires SameButCounts(t.store, store) && Placed(t)
    ensures Placed(t.(store := store))
  {
    hide At, Index;
  }

  lemma SlottedSame(t: Table, store: seq<Record>)
    requires SameButCounts(t.store, store) && Slotted(t)
    ensures Slotted(t.(store := store))
  {
    hide Index;
    var t1 := t.(store := store);
    forall i | 0 <= i < |t.slots| && t.slots[i].Some? ensures exists l :: Owns(t1, l, i) {
      var l :| Owns(t, l, i);
      assert Owns(t1, l, i);
    }
  }

  ghost predicate RefsOk(store: seq<Record>, held: multiset<nat>) {
    && (forall l :: 0 <= l < |store| ==>
          && store[l].refcount == (if store[l].removed then 0 else 1) + held[l]
          && store[l].freed == if store[l].refcount == 0 then 1 else 0)
    && (forall l :: l in held ==> l < |store|)
  }

  lemma RefOk(store: seq<Record>, held: multiset<nat>, l: nat)
    requires RefsOk(store, held) && l < |store| && !store[l].removed
    ensures RefsOk(Ref(store, l), held + multiset{l}) && SameButCounts(store, Ref(store, l))
  {
  }

  lemma {:induction false} RefAllOk(store: seq<Record>, held: multiset<nat>, ls: seq<nat>)
    requires RefsOk(store, held)
    requires forall l: nat :: l in ls ==> l < |store| && !store[l].removed
    ensures RefsOk(RefAll(store, ls), held + multiset(ls)) && SameButCounts(store, RefAll(store, ls))
    decreases |ls|
  {
    if ls != [] {
      assert ls == [ls[0]] + ls[1..];
      assert forall l :: l in ls[1..] ==> l in ls;
      assert ls[0] in ls;
      RefOk(store, held, ls[0]);
      var next := Ref(store, ls[0]);
      assert forall l: nat :: l in ls[1..] ==> l < |next| && !next[l].removed;
      hide RefsOk, Ref;
      RefAllOk(next, held + multiset{ls[0]}, ls[1..]);
      assert held + multiset(ls) == held + multiset{ls[0]} + multiset(ls[1..]);
    } else {
      assert held + multiset(ls) == held;
    }
  }

  lemma {:induction false} UnrefAllOk(store: seq<Record>, held: multiset<nat>, ls: seq<nat>)
    requires RefsOk(store, held + multiset(ls))
    ensures RefsOk(UnrefAll(store, ls), held) && SameButCounts(store, UnrefAll(store, ls))
    decreases |ls|
  {
    if ls != [] {
      assert ls == [ls[0]] + ls[1..];
      assert held + multiset(ls) == held + multiset(ls[1..]) + multiset{ls[0]};
      UnrefOk(store, held + multiset(ls[1..]), ls[0]);
      UnrefAllOk(Unref(store, ls[0]), held, ls[1..]);
    } else {
      assert held + multiset(ls) == held;
    }
  }

  lemma UnrefOk(store: seq<Record>, held: multiset<nat>, l: nat)
    requires RefsOk(store, held + multiset{l})
    ensures RefsOk(Unref(store, l), held) && SameButCounts(store, Unref(store, l))
  {
    assert l in held + multiset{l};
    forall m | m in held ensures m < |store| { assert m in held + multiset{l}; }
  }

  // What a notification collects

  lemma NoDupJoin(a: seq<nat>, b: seq<nat>)
    requires NoDup(a) && NoDup(b) && forall l :: l in a ==> l !in b
    ensures NoDup(a + b)
  {
    var ab := a + b;
    forall i, j | 0 <= i < j < |ab| ensures ab[i] != ab[j] {
      if i < |a| { assert ab[i] == a[i] && a[i] in a; }
      if j >= |a| { assert ab[j] == b[j - |a|] && b[j - |a|] in b; }
    }
  }

  lemma {:induction false} AncestorsOnce(t: Table, path: Path, k: nat)
    requires Placed(t) && k <= |path| + 1
    ensures NoDup(Ancestors(t.tree, path, k))
  {
    if k > 0 {
      AncestorsOnce(t, path, k - 1);
      var above, here := Ancestors(t.tree, path, k - 1), At(t.tree, path[..k - 1]);
      assert NoDup(here);
      forall l | l in above ensures l !in here {
        AncestorsMember(t.tree, path, k - 1, l);
        var j :| 0 <= j < k - 1 && l in At(t.tree, path[..j]);
        assert |path[..j]| != |path[..k - 1]|;
      }
      NoDupJoin(above, here);
    }
  }

  /** A live listener whose place is on the way to a key. */
  predicate Above(t: Table, path: Path, l: nat) {
    && l < |t.store| && !t.store[l].removed && Index(t.store[l].cnxn) < |t.slots|
    && t.slots[Index(t.store[l].cnxn)].Some? && t.slots[Index(t.store[l].cnxn)].value <= path
  }

  /** The list taken at the start: each live listener on an ancestor of the key, once, and nothing
      else; those of an ancestor come before those below it. */
  lemma CollectsAncestors(t: Table, path: Path)
    requires Placed(t) && t.tree.Some?
    ensures OnTheWay(t.tree.value, path) == Ancestors(t.tree, path, |path| + 1)
    ensures NoDup(OnTheWay(t.tree.value, path))
    ensures forall l: nat :: l in OnTheWay(t.tree.value, path) <==> Above(t, path, l)
  {
    OnTheWayIs(t.tree.value, path);
    AncestorsOnce(t, path, |path| + 1);
    forall l: nat ensures l in OnTheWay(t.tree.value, path) <==> Above(t, path, l) {
      AncestorsMember(t.tree, path, |path| + 1, l);
      if Above(t, path, l) {
        var p := t.slots[Index(t.store[l].cnxn)].value;
        assert p == path[..|p|] && l in At(t.tree, p);
      }
    }
  }

  // Every step keeps the invariant

  ghost predicate FramesOk(store: seq<Record>, frames: seq<Frame>) {
    forall d :: 0 <= d < |frames| ==> FrameOk(store, frames[d])
  }

  ghost predicate StateInv(s: State) {
    Inv(s.table, Held(s.frames)) && Stamped(s.table) && FramesOk(s.table.store, s.frames)
  }

  lemma FramesAge(a: seq<Record>, b: seq<Record>, frames: seq<Frame>)
    requires Aged(a, b) && FramesOk(a, frames)
    ensures FramesOk(b, frames)
  {
    forall d | 0 <= d < |frames| ensures FrameOk(b, frames[d]) { assert FrameOk(a, frames[d]); }
  }

  lemma CountsInv(t: Table, store: seq<Record>, held: multiset<nat>, held1: multiset<nat>)
    requires Inv(t, held) && Stamped(t) && SameButCounts(t.store, store) && RefsOk(store, held1)
    ensures Inv(t.(store := store), held1) && Stamped(t.(store := store))
  {
    CountsDoNotMatter(t, store);
  }

  lemma RefsOf(s: State)
    requires StateInv(s)
    ensures RefsOk(s.table.store, Held(s.frames))
  {
    hide Placed, Slotted, Stamped, TreeOk, FramesOk;
  }

  lemma BeginInv(s: State, key: string)
    requires StateInv(s)
    ensures StateInv(Begin(s, key)) && Aged(s.table.store, Begin(s, key).table.store)
  {
    if ValidKey(key) && s.table.tree.Some? {
      CollectsAncestors(s.table, Components(key));
      hide Inv, Stamped, OnTheWay, ValidKey, Components;
      PushInv(s, Components(key), OnTheWay(s.table.tree.value, Components(key)));
    }
  }

  lemma PushInv(s: State, path: Path, snapshot: seq<nat>)
    requires StateInv(s) && NoDup(snapshot) && forall l: nat :: l in snapshot ==> Above(s.table, path, l)
    ensures var store := RefAll(s.table.store, snapshot);
      Aged(s.table.store, store)
      && StateInv(State(s.table.(store := store), s.frames + [Frame(path, snapshot, [])]))
  {
    var t := s.table;
    var store := RefAll(t.store, snapshot);
    RefsOf(s);
    LiveOnes(t, path, snapshot);
    hide Inv, Stamped, RefsOk, RefAll, FrameOk, SameButCounts, Aged, FramesOk, Above;
    RefAllOk(t.store, Held(s.frames), snapshot);
    CountsAge(t.store, store);
    CountsInv(t, store, Held(s.frames), Held(s.frames) + multiset(snapshot));
    HeldMore(s.frames, Frame(path, snapshot, []));
    FramesAge(t.store, store, s.frames);
    NewFrameOk(store, path, snapshot);
    PushFrameOk(store, s.frames, Frame(path, snapshot, []));
  }

  lemma CountsAge(a: seq<Record>, b: seq<Record>)
    requires SameButCounts(a, b)
    ensures Aged(a, b)
  {
  }

  lemma PushFrameOk(store: seq<Record>, frames: seq<Frame>, f: Frame)
    requires FramesOk(store, frames) && FrameOk(store, f)
    ensures FramesOk(store, frames + [f])
  {
  }

  lemma LiveOnes(t: Table, path: Path, snapshot: seq<nat>)
    requires forall l: nat :: l in snapshot ==> Above(t, path, l)
    ensures forall l: nat :: l in snapshot ==> l < |t.store| && !t.store[l].removed
  {
  }

  lemma HeldMore(frames: seq<Frame>, f: Frame)
    ensures Held(frames + [f]) == Held(frames) + multiset(f.snapshot)
  {
    assert (frames + [f])[..|frames + [f]| - 1] == frames;
  }

  lemma NewFrameOk(store: seq<Record>, path: Path, snapshot: seq<nat>)
    requires NoDup(snapshot) && forall l: nat :: l in snapshot ==> l < |store|
    ensures FrameOk(store, Frame(path, snapshot, []))
  {
    forall i | 0 <= i < |snapshot| ensures snapshot[i] < |store| { assert snapshot[i] in snapshot; }
  }

  lemma HeldSame(a: seq<Frame>, n: nat, f: Frame)
    requires n == |a| - 1 && f.snapshot == a[n].snapshot
    ensures Held(a[n := f]) == Held(a)
  {
    assert a[n := f][..n] == a[..n];
  }

  lemma TurnInv(s: State)
    requires StateInv(s) && Turn(s).Some?
    ensures StateInv(Turn(s).value) && Turn(s).value.table == s.table
  {
    hide Inv, Stamped;
    var n := |s.frames| - 1;
    HeldSame(s.frames, n, Turn(s).value.frames[n]);
    assert FrameOk(s.table.store, s.frames[n]);
  }

  lemma ReturnInv(s: State)
    requires StateInv(s) && Return(s).Some?
    ensures StateInv(Return(s).value) && Aged(s.table.store, Return(s).value.table.store)
  {
    RefsOf(s);
    var n := |s.frames| - 1;
    var f := s.frames[n];
    hide Inv, Stamped, RefsOk, UnrefAll, SameButCounts, Aged;
    UnrefAllOk(s.table.store, Held(s.frames[..n]), f.snapshot);
    var store := UnrefAll(s.table.store, f.snapshot);
    CountsInv(s.table, store, Held(s.frames), Held(s.frames[..n]));
    CountsAge(s.table.store, store);
    FramesAge(s.table.store, store, s.frames);
  }

  lemma RemoveAges(t: Table, cnxn: nat)
    ensures Aged(t.store, Remove(t, cnxn).store)
  {
  }

  lemma {:induction false} RemoveAllAges(t: Table, held: multiset<nat>, cnxns: seq<nat>)
    requires Inv(t, held) && Stamped(t)
    ensures Inv(RemoveAll(t, cnxns), held) && Stamped(RemoveAll(t, cnxns)) && Aged(t.store, RemoveAll(t, cnxns).store)
    decreases |cnxns|
  {
    hide Inv, Stamped, Remove;
    if cnxns != [] {
      RemoveInv(t, held, cnxns[0]);
      RemoveStamped(t, cnxns[0]);
      RemoveAges(t, cnxns[0]);
      RemoveAllAges(Remove(t, cnxns[0]), held, cnxns[1..]);
    }
  }

  lemma AddStepInv(s: State, where: string, data: int)
    requires StateInv(s) && ValidKey(where) && Add(s.table, where, data).Added?
    ensures StateInv(s.(table := Add(s.table, where, data).table))
    ensures Aged(s.table.store, Add(s.table, where, data).table.store)
  {
    AddInv(s.table, Held(s.frames), where, data);
    AddStamped(s.table, where, data);
    AddIs(s.table, where, data);
    hide Placed, Slotted, Stamped, TreeOk, Counted, Add;
    FramesAge(s.table.store, Add(s.table, where, data).table.store, s.frames);
  }

  lemma ElsewhereStepInv(s: State)
    requires StateInv(s)
    ensures StateInv(s.(table := Elsewhere(s.table))) && Aged(s.table.store, Elsewhere(s.table).store)
  {
    hide Inv, Stamped;
    ElsewhereInv(s.table, Held(s.frames));
    FramesAge(s.table.store, Elsewhere(s.table).store, s.frames);
  }

  lemma RemoveStepInv(s: State, cnxn: nat)
    requires StateInv(s)
    ensures StateInv(s.(table := Remove(s.table, cnxn))) && Aged(s.table.store, Remove(s.table, cnxn).store)
  {
    hide Inv, Stamped, Remove;
    RemoveInv(s.table, Held(s.frames), cnxn);
    RemoveStamped(s.table, cnxn);
    RemoveAges(s.table, cnxn);
    FramesAge(s.table.store, Remove(s.table, cnxn).store, s.frames);
  }

  lemma RemoveIfStepInv(s: State, pred: Predicate)
    requires StateInv(s)
    ensures StateInv(s.(table := RemoveIf(s.table, pred))) && Aged(s.table.store, RemoveIf(s.table, pred).store)
  {
    hide Inv, Stamped, RemoveAll;
    if s.table.tree.Some? {
      RemoveAllAges(s.table, Held(s.frames), Dead(s.table.store, InOrder(s.table.tree.value, []), pred));
    }
    FramesAge(s.table.store, RemoveIf(s.table, pred).store, s.frames);
  }

  lemma DoInv(s: State, step: Step)
    requires StateInv(s) && (step.AddStep? ==> ValidKey(step.where)) && Do(s, step).Some?
    ensures StateInv(Do(s, step).value) && Aged(s.table.store, Do(s, step).value.table.store)
  {
    hide StateInv, Add, Remove, RemoveIf, Begin, Turn, Return;
    match step
    case AddStep(where, data) => AddStepInv(s, where, data);
    case RemoveStep(cnxn) => RemoveStepInv(s, cnxn);
    case RemoveIfStep(pred) => RemoveIfStepInv(s, pred);
    case NotifyStep(key) => BeginInv(s, key);
    case ElsewhereStep => ElsewhereStepInv(s);
    case TurnStep => TurnInv(s);
    case ReturnStep => ReturnInv(s);
  }

  /** Every reachable state keeps the invariant. */
  lemma {:induction false} RunInv(s: State, steps: seq<Step>)
    requires StateInv(s) && Proper(steps) && DoAll(s, steps).Some?
    ensures StateInv(DoAll(s, steps).value) && Aged(s.table.store, DoAll(s, steps).value.table.store)
    decreases |steps|
  {
    hide StateInv, Do;
    if steps != [] {
      var n := |steps| - 1;
      RunInv(s, steps[..n]);
      DoInv(DoAll(s, steps[..n]).value, steps[n]);
    }
  }

  // Notification is exact

  /** The notification at depth `d' is still under way after every one of the steps. */
  ghost predicate StaysDeeper(s: State, steps: seq<Step>, d: nat) {
    forall k :: 0 <= k <= |steps| && DoAll(s, steps[..k]).Some? ==> d < |DoAll(s, steps[..k]).value.frames|
  }

  /** Between two moments the notification's list stays and turns are only added; in these, a
      listener that was removed before is skipped, and one that is skipped has been removed. */
  ghost predicate Progress(before: seq<Record>, f: Frame, after: seq<Record>, g: Frame) {
    && g.snapshot == f.snapshot && g.key == f.key && f.called <= g.called
    && forall i :: |f.called| <= i < |g.called| ==>
         && i < |f.snapshot| && f.snapshot[i] < |before| && f.snapshot[i] < |after|
         && (before[f.snapshot[i]].removed ==> !g.called[i])
         && (!g.called[i] ==> after[f.snapshot[i]].removed)
  }

  lemma DoProgress(s: State, step: Step, d: nat)
    requires Do(s, step).Some? && d < |s.frames| && d < |Do(s, step).value.frames|
    requires Aged(s.table.store, Do(s, step).value.table.store)
    ensures Progress(s.table.store, s.frames[d], Do(s, step).value.table.store, Do(s, step).value.frames[d])
  {
    hide Add, Remove, RemoveIf;
  }

  lemma ProgressJoins(a: seq<Record>, f: Frame, b: seq<Record>, g: Frame, c: seq<Record>, h: Frame)
    requires Progress(a, f, b, g) && Progress(b, g, c, h) && Aged(a, b) && Aged(b, c)
    requires FrameOk(a, f)
    ensures Progress(a, f, c, h)
  {
    forall i | |f.called| <= i < |h.called|
      ensures i < |f.snapshot| && f.snapshot[i] < |a| && f.snapshot[i] < |c|
        && (a[f.snapshot[i]].removed ==> !h.called[i]) && (!h.called[i] ==> c[f.snapshot[i]].removed)
    {
      if i < |g.called| {
        assert h.called[i] == g.called[i];
      } else {
        assert f.snapshot[i] < |b| && (b[f.snapshot[i]].removed ==> !h.called[i]);
        assert FrameOk(a, f) && f.snapshot[i] < |a|;
      }
    }
  }

  lemma StaysShorter(s: State, steps: seq<Step>, d: nat)
    requires steps != [] && StaysDeeper(s, steps, d)
    ensures StaysDeeper(s, steps[..|steps| - 1], d)
    ensures DoAll(s, steps).Some? ==>
      d < |DoAll(s, steps).value.frames| && d < |DoAll(s, steps[..|steps| - 1]).value.frames|
  {
    var n := |steps| - 1;
    forall k | 0 <= k <= n ensures steps[..k] == steps[..n][..k] {}
    assert steps[..|steps|] == steps;
  }

  /** While a notification is under way, whatever the callbacks do, it makes progress. */
  lemma {:induction false} RunProgress(s: State, steps: seq<Step>, d: nat)
    requires StateInv(s) && Proper(steps) && DoAll(s, steps).Some? && StaysDeeper(s, steps, d) && d < |s.frames|
    ensures d < |DoAll(s, steps).value.frames|
    ensures Progress(s.table.store, s.frames[d], DoAll(s, steps).value.table.store, DoAll(s, steps).value.frames[d])
    decreases |steps|
  {
    assert FrameOk(s.table.store, s.frames[d]);
    hide StateInv, Do, FrameOk;
    if steps != [] {
      var n := |steps| - 1;
      var before := steps[..n];
      StaysShorter(s, steps, d);
      RunProgress(s, before, d);
      RunInv(s, before);
      var m := DoAll(s, before).value;
      DoInv(m, steps[n]);
      DoProgress(m, steps[n], d);
      var t := DoAll(s, steps).value;
      ProgressJoins(s.table.store, s.frames[d], m.table.store, m.frames[d], t.table.store, t.frames[d]);
    }
  }

  /** Step `k' is the turn of the i-th listener in the list of the notification at depth `d'. */
  ghost predicate TurnAt(s: State, steps: seq<Step>, d: nat, i: nat, k: nat) {
    && k < |steps| && steps[k].TurnStep? && DoAll(s, steps[..k]).Some?
    && var m := DoAll(s, steps[..k]).value;
       |m.frames| == d + 1 && |m.frames[d].called| == i < |m.frames[d].snapshot|
       && m.frames[d].snapshot[i] < |m.table.store|
  }

  /** The listener whose turn step `k' is has been removed by then. */
  ghost predicate RemovedByTurn(s: State, steps: seq<Step>, d: nat, i: nat, k: nat)
    requires TurnAt(s, steps, d, i, k)
  {
    var m := DoAll(s, steps[..k]).value;
    m.table.store[m.frames[d].snapshot[i]].removed
  }

  /** Its turn came, and it was called then exactly if it was not removed before. */
  ghost predicate TurnDecides(s: State, steps: seq<Step>, d: nat, i: nat, called: bool) {
    exists k: nat :: TurnAt(s, steps, d, i, k) && (called <==> !RemovedByTurn(s, steps, d, i, k))
  }

  lemma DoCalls(s: State, step: Step, d: nat)
    requires Do(s, step).Some? && d < |s.frames| && d < |Do(s, step).value.frames|
    ensures var f, g := s.frames[d], Do(s, step).value.frames[d];
      || g.called == f.called
      || (step.TurnStep? && |s.frames| == d + 1 && |f.called| < |f.snapshot|
          && f.snapshot[|f.called|] < |s.table.store|
          && g.called == f.called + [!s.table.store[f.snapshot[|f.called|]].removed])
  {
    hide Add, Remove, RemoveIf;
  }

  lemma TurnEarlier(s: State, steps: seq<Step>, d: nat, i: nat, called: bool)
    requires steps != [] && TurnDecides(s, steps[..|steps| - 1], d, i, called)
    ensures TurnDecides(s, steps, d, i, called)
  {
    var before := steps[..|steps| - 1];
    var k: nat :| TurnAt(s, before, d, i, k) && (called <==> !RemovedByTurn(s, before, d, i, k));
    assert before[..k] == steps[..k];
    assert TurnAt(s, steps, d, i, k) && (RemovedByTurn(s, steps, d, i, k) <==> RemovedByTurn(s, before, d, i, k));
  }

  /** Whatever the callbacks do, each turn that is taken decides by what was removed before it. */
  lemma {:induction false} RunTurns(s: State, steps: seq<Step>, d: nat)
    requires DoAll(s, steps).Some? && StaysDeeper(s, steps, d) && d < |s.frames|
    ensures d < |DoAll(s, steps).value.frames|
    ensures var called := DoAll(s, steps).value.frames[d].called;
      s.frames[d].called <= called
      && forall i :: |s.frames[d].called| <= i < |called| ==> TurnDecides(s, steps, d, i, called[i])
    decreases |steps|
  {
    hide Do, TurnDecides;
    if steps != [] {
      var n := |steps| - 1;
      StaysShorter(s, steps, d);
      RunTurns(s, steps[..n], d);
      var m, t := DoAll(s, steps[..n]).value, DoAll(s, steps).value;
      DoCalls(m, steps[n], d);
      var had, called := m.frames[d].called, t.frames[d].called;
      forall i | |s.frames[d].called| <= i < |called| ensures TurnDecides(s, steps, d, i, called[i]) {
        if i < |had| {
          assert called[i] == had[i];
          TurnEarlier(s, steps, d, i, called[i]);
        } else {
          TurnTaken(s, steps, d, called[i]);
        }
      }
    }
  }

  lemma TurnTaken(s: State, steps: seq<Step>, d: nat, called: bool)
    requires steps != [] && DoAll(s, steps[..|steps| - 1]).Some? && steps[|steps| - 1].TurnStep?
    requires var m := DoAll(s, steps[..|steps| - 1]).value;
      && |m.frames| == d + 1 && |m.frames[d].called| < |m.frames[d].snapshot|
      && m.frames[d].snapshot[|m.frames[d].called|] < |m.table.store|
      && called == !m.table.store[m.frames[d].snapshot[|m.frames[d].called|]].removed
    ensures TurnDecides(s, steps, d, |DoAll(s, steps[..|steps| - 1]).value.frames[d].called|, called)
  {
    var i := |DoAll(s, steps[..|steps| - 1]).value.frames[d].called|;
    assert TurnAt(s, steps, d, i, |steps| - 1);
    assert called <==> !RemovedByTurn(s, steps, d, i, |steps| - 1);
  }

  lemma BeginIs(s: State, key: string)
    requires StateInv(s) && ValidKey(key) && s.table.tree.Some?
    ensures var b := Begin(s, key);
      var f := b.frames[|s.frames|];
      && b.frames == s.frames + [f] && f.called == []
      && f.snapshot == Ancestors(s.table.tree, Components(key), |Components(key)| + 1)
      && NoDup(f.snapshot)
      && forall i :: 0 <= i < |f.snapshot| ==> Above(s.table, Components(key), f.snapshot[i])
  {
    CollectsAncestors(s.table, Components(key));
    hide StateInv, Components, ValidKey;
    var f := Begin(s, key).frames[|s.frames|];
    forall i | 0 <= i < |f.snapshot| ensures Above(s.table, Components(key), f.snapshot[i]) {
      assert f.snapshot[i] in f.snapshot;
    }
  }

  /** From the start of a notification to just before its end, whatever the callbacks do: the list is
      that of the live listeners on the key's ancestors at the start, root first, without repetition;
      a turn is taken for each of them, at which it is called exactly if it was not removed before; and
      none of them has been freed. */
  lemma NotifyIsExact(s: State, key: string, steps: seq<Step>)
    requires StateInv(s) && ValidKey(key) && s.table.tree.Some? && Proper(steps)
    requires var b := Begin(s, key);
      DoAll(b, steps).Some? && StaysDeeper(b, steps, |s.frames|)
      && |DoAll(b, steps).value.frames| == |s.frames| + 1 && Return(DoAll(b, steps).value).Some?
    ensures var t := DoAll(Begin(s, key), steps).value;
      var f := t.frames[|s.frames|];
      && f.snapshot == Ancestors(s.table.tree, Components(key), |Components(key)| + 1)
      && NoDup(f.snapshot) && |f.called| == |f.snapshot|
      && forall i :: 0 <= i < |f.snapshot| ==>
           && Above(s.table, Components(key), f.snapshot[i])
           && f.snapshot[i] < |t.table.store|
           && TurnDecides(Begin(s, key), steps, |s.frames|, i, f.called[i])
           && (f.called[i] || t.table.store[f.snapshot[i]].removed)
           && t.table.store[f.snapshot[i]].freed == 0
  {
    var d := |s.frames|;
    var b := Begin(s, key);
    BeginInv(s, key);
    BeginIs(s, key);
    hide Ancestors, Components, ValidKey, Begin, DoAll, StateInv, Proper;
    RunProgress(b, steps, d);
    RunTurns(b, steps, d);
    RunInv(b, steps);
    hide *;
    InListUnfreed(DoAll(b, steps).value, d);
  }

  lemma InListUnfreed(s: State, d: nat)
    requires StateInv(s) && d < |s.frames|
    ensures var f := s.frames[d];
      forall i :: 0 <= i < |f.snapshot| ==> f.snapshot[i] < |s.table.store| && s.table.store[f.snapshot[i]].freed == 0
  {
    hide Placed, Slotted, Stamped, TreeOk;
    var f := s.frames[d];
    assert FrameOk(s.table.store, f);
    forall i | 0 <= i < |f.snapshot|
      ensures f.snapshot[i] < |s.table.store| && s.table.store[f.snapshot[i]].freed == 0
    {
      HeldMember(s.frames, d, f.snapshot[i]);
    }
  }

  lemma {:induction false} HeldMember(frames: seq<Frame>, d: nat, l: nat)
    requires d < |frames| && l in frames[d].snapshot
    ensures Held(frames)[l] >= 1
  {
    var n := |frames| - 1;
    if d < n { HeldMember(frames[..n], d, l); } else { assert l in multiset(frames[n].snapshot); }
  }

  /** In every reachable state a listener has been freed at most once; it is freed exactly when it is
      removed and in no list of a notification under way. */
  lemma FreedExactlyOnce(s: State, l: nat)
    requires StateInv(s) && l < |s.table.store|
    ensures s.table.store[l].freed <= 1
    ensures s.table.store[l].freed == 1 <==>
      s.table.store[l].removed && forall d :: 0 <= d < |s.frames| ==> l !in s.frames[d].snapshot
  {
    hide Placed, Slotted, Stamped, TreeOk, FramesOk;
    if exists d :: 0 <= d < |s.frames| && l in s.frames[d].snapshot {
      var d :| 0 <= d < |s.frames| && l in s.frames[d].snapshot;
      HeldMember(s.frames, d, l);
    } else {
      NotHeld(s.frames, l);
    }
  }

  lemma {:induction false} NotHeld(frames: seq<Frame>, l: nat)
    requires forall d :: 0 <= d < |frames| ==> l !in frames[d].snapshot
    ensures Held(frames)[l] == 0
  {
    if frames != [] {
      var n := |frames| - 1;
      forall d | 0 <= d < n ensures l !in frames[..n][d].snapshot { assert frames[..n][d] == frames[d]; }
      NotHeld(frames[..n], l);
    }
  }
}
