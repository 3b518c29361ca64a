/** The listener table: a tree of listening points and a flat array of slots that point into it, with
    recycled indices and reference-counted listeners. */
module Listeners {
  import opened Basics
  import opened Keys
  import opened ListenerTree

  /** A listener in memory. `freed' counts the calls of its destroy function, and `serial' the
      allocations of all tables up to its own; the program keeps neither. */
  datatype Record = Record(cnxn: nat, refcount: int, removed: bool, data: int, freed: nat, serial: nat)

  /** A slot of the flat array holds the place of a node, or nothing. */
  datatype Table = Table(
    tree: Option<Node>,
    slots: seq<Option<Path>>,
    nextCnxn: nat,
    recycled: seq<nat>,
    active: int,
    serial: nat,                    // its low byte is the uniqueness byte, which all tables share
    store: seq<Record>)

  const INDICES := 0x100_0000

  /** CNXN_ID_INDEX */
  function Index(cnxn: nat): nat { cnxn % INDICES }

  function NewTable(serial: nat): Table { Table(None, seq(5, _ => None), 1, [], 0, serial, []) }

  /** An allocation in another table. */
  function Elsewhere(t: Table): Table { t.(serial := t.serial + 1) }

  // Adding

  /** ltable_next_cnxn; the assertion that the index fits in 24 bits may fail. */
  function NextCnxn(t: Table): Option<(Table, nat)> {
    var u := (t.serial + 1) % 256;
    if t.recycled != [] then
      Some((t.(serial := t.serial + 1, recycled := t.recycled[1..]), t.recycled[0] + u * INDICES))
    else if t.nextCnxn >= INDICES then None
    else Some((t.(serial := t.serial + 1, nextCnxn := t.nextCnxn + 1), t.nextCnxn + u * INDICES))
  }

  /** g_ptr_array_set_size */
  function Resize(slots: seq<Option<Path>>, n: nat): (r: seq<Option<Path>>)
    ensures |r| == n
  {
    if n <= |slots| then slots[..n] else slots + seq(n - |slots|, _ => None)
  }

  datatype Outcome = Added(table: Table, cnxn: nat) | AssertionFailed | WriteOutOfBounds

  function Max(a: nat, b: nat): nat { if a > b then a else b }

  /** ltable_insert for a listener that is already in the store. */
  function Insert(t: Table, path: Path, l: nat): Outcome
    requires l < |t.store|
  {
    var cnxn := t.store[l].cnxn;
    var root := if t.tree.Some? then t.tree.value else Node("/", [], []);
    var slots := Resize(t.slots, Max(Index(t.nextCnxn), Index(cnxn)));
    if Index(cnxn) >= |slots| then WriteOutOfBounds
    else Added(t.(tree := Some(InsertAt(root, path, l)), slots := slots[Index(cnxn) := Some(path)],
                  active := t.active + 1), cnxn)
  }

  /** gconf_listeners_add; an invalid key is refused after the connection is allocated. */
  function Add(t: Table, where: string, data: int): Outcome {
    match NextCnxn(t)
    case None => AssertionFailed
    case Some(next) =>
      var t1 := next.0.(store := t.store + [Record(next.1, 1, false, data, 0, next.0.serial)]);
      if ValidKey(where) then Insert(t1, Components(where), |t.store|) else Added(t1, next.1)
  }

  // Removing

  function Unref(store: seq<Record>, l: nat): (r: seq<Record>)
    ensures |r| == |store|
  {
    if l >= |store| then store
    else
      var n := store[l].refcount - 1;
      store[l := store[l].(refcount := n, freed := if n == 0 then store[l].freed + 1 else store[l].freed)]
  }

  function FindCnxn(store: seq<Record>, ls: seq<nat>, cnxn: nat): (r: Option<nat>)
    ensures r.Some? ==> r.value in ls && r.value < |store| && store[r.value].cnxn == cnxn
    ensures r.None? ==> forall l :: l in ls && l < |store| ==> store[l].cnxn != cnxn
  {
    if ls == [] then None
    else if ls[0] < |store| && store[ls[0]].cnxn == cnxn then Some(ls[0])
    else FindCnxn(store, ls[1..], cnxn)
  }

  /** The listener that gconf_listeners_remove finds for an id. */
  function Target(t: Table, cnxn: nat): Option<nat> {
    if cnxn == 0 || Index(cnxn) >= |t.slots| || t.slots[Index(cnxn)].None? then None
    else FindCnxn(t.store, At(t.tree, t.slots[Index(cnxn)].value), cnxn)
  }

  /** gconf_listeners_remove */
  function Remove(t: Table, cnxn: nat): Table {
    match Target(t, cnxn)
    case None => t
    case Some(l) =>
      if Index(cnxn) >= |t.slots| || t.slots[Index(cnxn)].None? || t.tree.None? || l >= |t.store| then t
      else
        t.(tree := RemoveAt(t.tree.value, t.slots[Index(cnxn)].value, l),
           slots := t.slots[Index(cnxn) := None],
           recycled := [Index(cnxn)] + t.recycled,
           active := t.active - 1,
           store := Unref(t.store[l := t.store[l].(removed := true)], l))
  }

  type Predicate = (Path, nat, int) -> bool

  /** The connections to remove, as node_remove_func collects them: the last one met comes first. */
  function Dead(store: seq<Record>, met: seq<(Path, nat)>, pred: Predicate): seq<nat> {
    if met == [] then []
    else
      var l := met[0].1;
      var rest := Dead(store, met[1..], pred);
      if l < |store| && pred(met[0].0, store[l].cnxn, store[l].data) then rest + [store[l].cnxn] else rest
  }

  function RemoveAll(t: Table, cnxns: seq<nat>): Table
    decreases |cnxns|
  {
    if cnxns == [] then t else RemoveAll(Remove(t, cnxns[0]), cnxns[1..])
  }

  /** gconf_listeners_remove_if */
  function RemoveIf(t: Table, pred: Predicate): Table {
    if t.tree.None? then t else RemoveAll(t, Dead(t.store, InOrder(t.tree.value, []), pred))
  }

  // The invariant

  /** A listener is in the tree exactly when it is not removed; then its slot points to its node. */
  ghost predicate Placed(t: Table) {
    && (forall p, l {:trigger l in At(t.tree, p)} :: l in At(t.tree, p) ==>
          l < |t.store| && !t.store[l].removed && Index(t.store[l].cnxn) < |t.slots|
          && t.slots[Index(t.store[l].cnxn)] == Some(p))
    && (forall l :: 0 <= l < |t.store| && !t.store[l].removed ==>
          Index(t.store[l].cnxn) < |t.slots| && t.slots[Index(t.store[l].cnxn)].Some?
          && l in At(t.tree, t.slots[Index(t.store[l].cnxn)].value))
    && (forall p :: NoDup(At(t.tree, p)))
  }

  /** The one listener with an index. */
  predicate Owns(t: Table, l: nat, i: nat) {
    l < |t.store| && !t.store[l].removed && Index(t.store[l].cnxn) == i
  }

  /** A used slot has an owner, and only one; used and recycled indices partition 1..nextCnxn-1. */
  ghost predicate Slotted(t: Table) {
    && 1 <= t.nextCnxn < INDICES && |t.slots| >= t.nextCnxn
    && (forall i :: 0 <= i < |t.slots| ==>
          (t.slots[i].Some? <==> 1 <= i < t.nextCnxn && i !in t.recycled)
          && (t.slots[i].Some? ==> exists l :: Owns(t, l, i)))
    && (forall i :: i in t.recycled ==> 1 <= i < t.nextCnxn)
    && NoDup(t.recycled)
    && (forall l, m :: 0 <= l < m < |t.store| && !t.store[l].removed && !t.store[m].removed ==>
          Index(t.store[l].cnxn) != Index(t.store[m].cnxn))
  }

  function Live(t: Table): set<nat> {
    set l | 0 <= l < |t.store| && !t.store[l].removed
  }

  /** References: one of the tree, and those held by notifications under way. */
  ghost predicate Counted(t: Table, held: multiset<nat>) {
    && t.active == |Live(t)|
    && (forall l :: 0 <= l < |t.store| ==>
          && t.store[l].refcount == (if t.store[l].removed then 0 else 1) + held[l]
          && t.store[l].freed == if t.store[l].refcount == 0 then 1 else 0)
    && (forall l :: l in held ==> l < |t.store|)
  }

  ghost predicate Inv(t: Table, held: multiset<nat>) {
    TreeOk(t.tree) && Placed(t) && Slotted(t) && Counted(t, held)
  }

  lemma NewTableInv(serial: nat)
    ensures Inv(NewTable(serial), multiset{}) && Stamped(NewTable(serial))
  {
    assert Live(NewTable(serial)) == {};
  }

  // Adding keeps the invariant

  /** The write to the flat array stays in bounds exactly while an index is recycled or the next one
      is below 0xFFFFFF. */
  lemma AddInBounds(t: Table, held: multiset<nat>, where: string, data: int)
    requires Inv(t, held) && ValidKey(where)
    ensures Add(t, where, data).Added? <==> t.recycled != [] || t.nextCnxn < 0xFF_FFFF
    ensures !Add(t, where, data).Added? <==> Add(t, where, data) == WriteOutOfBounds
  {
    NextCnxnIs(t);
    IndexOf(t.nextCnxn, 0);
    if t.nextCnxn + 1 < INDICES { IndexOf(t.nextCnxn + 1, 0); } else { assert Index(INDICES) == 0; }
    hide Inv, Components, ValidKey, InsertAt, Slotted, Index;
  }

  /** A table after this many additions at the root. */
  function Filled(start: nat, n: nat): Table {
    if n == 0 then NewTable(start)
    else
      var r := Add(Filled(start, n - 1), "/", 0);
      if r.Added? then r.table else Filled(start, n - 1)
  }

  lemma RootIsKey()
    ensures ValidKey("/")
  {
  }

  lemma {:induction false} FilledIs(start: nat, n: nat)
    requires n < 0xFF_FFFF
    ensures Inv(Filled(start, n), multiset{}) && Filled(start, n).recycled == [] && Filled(start, n).nextCnxn == n + 1
  {
    if n == 0 {
      NewTableInv(start);
    } else {
      FilledIs(start, n - 1);
      var t := Filled(start, n - 1);
      RootIsKey();
      hide Inv, TreeOk, Placed, Slotted, Components, ValidKey, Index;
      AddInBounds(t, multiset{}, "/", 0);
      AddInv(t, multiset{}, "/", 0);
      AddIs(t, "/", 0);
      hide Add;
      NothingIn(Filled(start, n).recycled);
    }
  }

  /** The write out of bounds is reached by 0xFFFFFF additions in a row. */
  lemma WriteOutOfBoundsExample(start: nat)
    ensures Add(Filled(start, 0xFF_FFFE), "/", 0) == WriteOutOfBounds
  {
    FilledIs(start, 0xFF_FFFE);
    assert ValidKey("/");
    AddInBounds(Filled(start, 0xFF_FFFE), multiset{}, "/", 0);
    hide Inv, Add;
  }

  lemma IndexOf(i: nat, u: nat)
    requires i < INDICES
    ensures Index(i + u * INDICES) == i
  {
  }

  lemma {:induction false} WithoutIs(ls: seq<nat>, l: nat)
    requires NoDup(ls)
    ensures NoDup(Without(ls, l))
    ensures forall m :: m in Without(ls, l) <==> m in ls && m != l
    ensures |Without(ls, l)| <= |ls|
  {
    if ls != [] {
      WithoutIs(ls[1..], l);
      assert forall m :: m in ls <==> m == ls[0] || m in ls[1..];
      assert ls[0] !in ls[1..];
      if ls[0] != l {
        var rest := Without(ls[1..], l);
        assert NoDup([ls[0]] + rest);
      }
    }
  }

  /** What an addition of a listener at a place does to the parts of the table. */
  ghost predicate AddedTo(t: Table, t1: Table, path: Path, cnxn: nat, data: int) {
    var i := Index(cnxn);
    var l := |t.store|;
    && 1 <= i < t1.nextCnxn < INDICES && cnxn > 0
    && |t1.slots| == t1.nextCnxn
    && t1.slots[i] == Some(path)
    && (forall j :: 0 <= j < |t1.slots| && j != i ==> t1.slots[j] == if j < |t.slots| then t.slots[j] else None)
    && (i >= |t.slots| || t.slots[i].None?)
    && (forall j :: j in t1.recycled <==> j in t.recycled && j != i) && NoDup(t1.recycled)
    && (if t1.nextCnxn == t.nextCnxn then i in t.recycled else t1.nextCnxn == t.nextCnxn + 1 && i == t.nextCnxn)
    && t1.store == t.store + [Record(cnxn, 1, false, data, 0, t.serial + 1)]
    && t1.active == t.active + 1 && t1.serial == t.serial + 1
    && TreeOk(t1.tree)
    && (forall p :: At(t1.tree, p) == if p == path then [l] + At(t.tree, p) else At(t.tree, p))
  }

  lemma InsertedAt(tree: Option<Node>, path: Path, l: nat, p: Path)
    requires TreeOk(tree)
    ensures var root := if tree.Some? then tree.value else Node("/", [], []);
      Here(InsertAt(root, path, l), p) == if p == path then [l] + At(tree, p) else At(tree, p)
  {
    var root := if tree.Some? then tree.value else Node("/", [], []);
    InsertHere(root, path, l, p);
    if tree.None? { NothingHere(root, p); NothingHere(root, path); }
  }

  lemma RootOk(tree: Option<Node>, path: Path, l: nat)
    requires TreeOk(tree)
    ensures TreeOk(Some(InsertAt(if tree.Some? then tree.value else Node("/", [], []), path, l)))
  {
    InsertOk(if tree.Some? then tree.value else Node("/", [], []), path, l);
  }

  /** The connection given out: its index was free. */
  lemma NextCnxnIs(t: Table)
    requires Slotted(t) && NextCnxn(t).Some?
    ensures var r := NextCnxn(t).value;
      var i := Index(r.1);
      && 1 <= i < r.0.nextCnxn <= INDICES && r.1 > 0
      && (i >= |t.slots| || t.slots[i].None?)
      && (forall j :: j in r.0.recycled <==> j in t.recycled && j != i) && NoDup(r.0.recycled)
      && (if r.0.nextCnxn == t.nextCnxn then i in t.recycled else r.0.nextCnxn == t.nextCnxn + 1 && i == t.nextCnxn)
      && r.0 == t.(serial := t.serial + 1, nextCnxn := r.0.nextCnxn, recycled := r.0.recycled)
  {
    var u := (t.serial + 1) % 256;
    if t.recycled != [] {
      assert t.recycled[0] in t.recycled;
      IndexOf(t.recycled[0], u);
      assert t.recycled == [t.recycled[0]] + t.recycled[1..];
    } else {
      IndexOf(t.nextCnxn, u);
    }
  }

  /** The flat array after an addition. */
  lemma SlotsAfter(t: Table, nextCnxn: nat, i: nat, path: Path)
    requires i < nextCnxn < INDICES
    ensures var slots := Resize(t.slots, Max(Index(nextCnxn), i));
      i < |slots| ==>
        && |slots| == nextCnxn
        && forall j :: 0 <= j < |slots| && j != i ==>
             slots[i := Some(path)][j] == if j < |t.slots| then t.slots[j] else None
  {
    IndexOf(nextCnxn, 0);
  }

  lemma AddIs(t: Table, where: string, data: int)
    requires TreeOk(t.tree) && Slotted(t) && ValidKey(where) && Add(t, where, data).Added?
    ensures AddedTo(t, Add(t, where, data).table, Components(where), Add(t, where, data).cnxn, data)
  {
    NextCnxnIs(t);
    var next := NextCnxn(t).value;
    if next.0.nextCnxn < INDICES { SlotsAfter(t, next.0.nextCnxn, Index(next.1), Components(where)); }
    hide InsertAt, ValidKey, Components, Slotted, TreeOk, Index, NextCnxn, Resize, At;
    var path := Components(where);
    var l := |t.store|;
    RootOk(t.tree, path, l);
    forall p { InsertedAt(t.tree, path, l, p); }
  }

  /** Adding keeps the invariant. */
  lemma AddInv(t: Table, held: multiset<nat>, where: string, data: int)
    requires Inv(t, held) && ValidKey(where) && Add(t, where, data).Added?
    ensures Inv(Add(t, where, data).table, held)
  {
    AddIs(t, where, data);
    var r := Add(t, where, data);
    AddPlaced(t, r.table, Components(where), r.cnxn, data);
    AddSlotted(t, r.table, Components(where), r.cnxn, data);
    AddCounted(t, r.table, Components(where), r.cnxn, data, held);
  }

  lemma AddPlaced(t: Table, t1: Table, path: Path, cnxn: nat, data: int)
    requires Placed(t) && Slotted(t) && AddedTo(t, t1, path, cnxn, data)
    ensures Placed(t1)
  {
    hide TreeOk, Index, At;
    forall p, l | l in At(t1.tree, p)
      ensures l < |t1.store| && !t1.store[l].removed && Index(t1.store[l].cnxn) < |t1.slots|
        && t1.slots[Index(t1.store[l].cnxn)] == Some(p)
    {
      if l != |t.store| || p != path { assert l in At(t.tree, p); }
    }
    forall l | 0 <= l < |t1.store| && !t1.store[l].removed
      ensures Index(t1.store[l].cnxn) < |t1.slots| && t1.slots[Index(t1.store[l].cnxn)].Some?
        && l in At(t1.tree, t1.slots[Index(t1.store[l].cnxn)].value)
    {
      if l < |t.store| {
        var p := t.slots[Index(t.store[l].cnxn)].value;
        assert l in At(t.tree, p);
        assert l in At(t1.tree, p);
      }
    }
    forall p ensures NoDup(At(t1.tree, p)) {
      assert |t.store| !in At(t.tree, p);
      assert NoDup(At(t.tree, p));
    }
  }

  lemma AddSlotted(t: Table, t1: Table, path: Path, cnxn: nat, data: int)
    requires Placed(t) && Slotted(t) && AddedTo(t, t1, path, cnxn, data)
    ensures Slotted(t1)
  {
    var i := Index(cnxn);
    assert Owns(t1, |t.store|, i);
    forall j | 0 <= j < |t1.slots| && t1.slots[j].Some? ensures exists l :: Owns(t1, l, j) {
      if j != i {
        var l :| Owns(t, l, j);
        assert Owns(t1, l, j);
      }
    }
    forall l | 0 <= l < |t.store| && !t.store[l].removed ensures Index(t.store[l].cnxn) != i {}
  }

  lemma AddCounted(t: Table, t1: Table, path: Path, cnxn: nat, data: int, held: multiset<nat>)
    requires Counted(t, held) && AddedTo(t, t1, path, cnxn, data)
    ensures Counted(t1, held)
  {
    assert Live(t1) == Live(t) + {|t.store|};
    assert held[|t.store|] == 0;
  }

  /** An invalid key loses an index: it is neither in use nor recycled. */
  lemma InvalidKeyLosesIndex(t: Table, held: multiset<nat>, where: string, data: int)
    requires Inv(t, held) && !ValidKey(where) && Add(t, where, data).Added?
    ensures var r := Add(t, where, data);
      && Index(r.cnxn) !in r.table.recycled && 1 <= Index(r.cnxn) < r.table.nextCnxn
      && (Index(r.cnxn) < |r.table.slots| ==> r.table.slots[Index(r.cnxn)].None?)
      && !Slotted(r.table)
  {
    NextCnxnIs(t);
  }

  // Removing keeps the invariant

  /** An id is accepted exactly when a live listener has it; a stale one changes nothing. */
  lemma TargetIs(t: Table, cnxn: nat)
    requires Placed(t) && Slotted(t)
    ensures match Target(t, cnxn)
      case Some(l) => Owns(t, l, Index(cnxn)) && t.store[l].cnxn == cnxn
      case None => forall l :: 0 <= l < |t.store| && !t.store[l].removed ==> t.store[l].cnxn != cnxn
  {
    if cnxn == 0 {
      forall l | 0 <= l < |t.store| && !t.store[l].removed ensures t.store[l].cnxn != 0 {
        assert t.slots[Index(t.store[l].cnxn)].Some?;
      }
    }
  }

  lemma StaleIdIgnored(t: Table, cnxn: nat)
    requires Placed(t) && Slotted(t)
    ensures Remove(t, cnxn) == t <==> forall l :: 0 <= l < |t.store| && !t.store[l].removed ==> t.store[l].cnxn != cnxn
  {
    TargetIs(t, cnxn);
    if Target(t, cnxn).Some? { assert Remove(t, cnxn).recycled != t.recycled; }
  }

  /** What the removal of a listener does to the parts of the table. */
  ghost predicate RemovedFrom(t: Table, r: Table, l: nat) {
    && l < |t.store| && !t.store[l].removed
    && var i := Index(t.store[l].cnxn);
    && i < |t.slots| && t.slots[i].Some?
    && r.slots == t.slots[i := None] && r.recycled == [i] + t.recycled && r.active == t.active - 1
    && r.nextCnxn == t.nextCnxn && r.serial == t.serial
    && r.store == t.store[l := Record(t.store[l].cnxn, t.store[l].refcount - 1, true, t.store[l].data,
         if t.store[l].refcount == 1 then t.store[l].freed + 1 else t.store[l].freed, t.store[l].serial)]
    && TreeOk(r.tree)
    && (forall p :: At(r.tree, p) == Without(At(t.tree, p), l))
  }

  lemma RemovedAt(t: Table, l: nat, path: Path, p: Path)
    requires TreeOk(t.tree) && t.tree.Some? && Placed(t) && l in At(t.tree, path)
    ensures At(RemoveAt(t.tree.value, path, l), p) == Without(At(t.tree, p), l)
  {
    RemoveHere(t.tree.value, path, l, p);
    if p != path { WithoutOther(At(t.tree, p), l); }
  }

  lemma RemoveIs(t: Table, l: nat)
    requires TreeOk(t.tree) && Placed(t) && Slotted(t) && l < |t.store| && !t.store[l].removed
    ensures RemovedFrom(t, Remove(t, t.store[l].cnxn), l)
  {
    var cnxn := t.store[l].cnxn;
    var i := Index(cnxn);
    TargetIs(t, cnxn);
    var path := t.slots[i].value;
    assert Target(t, cnxn) == Some(l);
    assert l in At(t.tree, path);
    RemoveOk(t.tree.value, path, l);
    forall p { RemovedAt(t, l, path, p); }
  }

  lemma {:induction false} WithoutOther(ls: seq<nat>, l: nat)
    requires l !in ls
    ensures Without(ls, l) == ls
  {
    if ls != [] {
      WithoutOther(ls[1..], l);
      assert ls == [ls[0]] + ls[1..];
    }
  }

  /** Removing keeps the invariant. */
  lemma RemoveInv(t: Table, held: multiset<nat>, cnxn: nat)
    requires Inv(t, held)
    ensures Inv(Remove(t, cnxn), held)
  {
    TargetIs(t, cnxn);
    match Target(t, cnxn)
    case None =>
    case Some(l) =>
      RemoveIs(t, l);
      var r := Remove(t, cnxn);
      RemovePlaced(t, r, l);
      RemoveSlotted(t, r, l);
      RemoveCounted(t, r, l, held);
  }

  lemma RemovePlaced(t: Table, r: Table, l: nat)
    requires Placed(t) && Slotted(t) && RemovedFrom(t, r, l)
    ensures Placed(r)
  {
    forall p ensures NoDup(At(r.tree, p)) && forall m :: m in At(r.tree, p) <==> m in At(t.tree, p) && m != l {
      WithoutIs(At(t.tree, p), l);
    }
    forall p, m | m in At(r.tree, p)
      ensures m < |r.store| && !r.store[m].removed && Index(r.store[m].cnxn) < |r.slots|
        && r.slots[Index(r.store[m].cnxn)] == Some(p)
    {
      assert m in At(t.tree, p) && m != l;
      IndexDiffers(t, l, m);
    }
    forall m | 0 <= m < |r.store| && !r.store[m].removed
      ensures Index(r.store[m].cnxn) < |r.slots| && r.slots[Index(r.store[m].cnxn)].Some?
        && m in At(r.tree, r.slots[Index(r.store[m].cnxn)].value)
    {
      IndexDiffers(t, l, m);
      assert m in At(t.tree, t.slots[Index(t.store[m].cnxn)].value);
    }
  }

  lemma IndexDiffers(t: Table, l: nat, m: nat)
    requires Slotted(t) && l != m
    requires l < |t.store| && !t.store[l].removed && m < |t.store| && !t.store[m].removed
    ensures Index(t.store[l].cnxn) != Index(t.store[m].cnxn)
  {
    if m < l { assert Index(t.store[m].cnxn) != Index(t.store[l].cnxn); }
  }

  lemma RemoveSlotted(t: Table, r: Table, l: nat)
    requires Slotted(t) && RemovedFrom(t, r, l)
    ensures Slotted(r)
  {
    var i := Index(t.store[l].cnxn);
    forall j | 0 <= j < |r.slots| && r.slots[j].Some? ensures exists m :: Owns(r, m, j) {
      var m :| Owns(t, m, j);
      assert Owns(r, m, j);
    }
  }

  lemma RemoveCounted(t: Table, r: Table, l: nat, held: multiset<nat>)
    requires Counted(t, held) && RemovedFrom(t, r, l)
    ensures Counted(r, held)
  {
    assert Live(r) == Live(t) - {l};
  }

  // Removing by a predicate

  /** The members of a list that are not among the dead. */
  function Minus(ls: seq<nat>, dead: set<nat>): seq<nat> {
    if ls == [] then [] else (if ls[0] in dead then [] else [ls[0]]) + Minus(ls[1..], dead)
  }

  lemma {:induction false} MinusWithout(ls: seq<nat>, l: nat, dead: set<nat>)
    requires NoDup(ls)
    ensures Minus(Without(ls, l), dead) == Minus(ls, dead + {l})
  {
    if ls != [] {
      if ls[0] == l {
        assert l !in ls[1..];
        MinusMore(ls[1..], l, dead);
        assert [] + Minus(ls[1..], dead + {l}) == Minus(ls[1..], dead + {l});
      } else {
        MinusWithout(ls[1..], l, dead);
        assert ([ls[0]] + Without(ls[1..], l))[1..] == Without(ls[1..], l);
      }
    }
  }

  lemma {:induction false} MinusMore(ls: seq<nat>, l: nat, dead: set<nat>)
    requires l !in ls
    ensures Minus(ls, dead + {l}) == Minus(ls, dead)
  {
    if ls != [] { MinusMore(ls[1..], l, dead); }
  }

  lemma {:induction false} MinusNone(ls: seq<nat>)
    ensures Minus(ls, {}) == ls
  {
    if ls != [] {
      MinusNone(ls[1..]);
      assert ls == [ls[0]] + ls[1..];
    }
  }

  /** The live listeners with one of these ids. */
  function Having(t: Table, cnxns: seq<nat>): set<nat> {
    set l | 0 <= l < |t.store| && !t.store[l].removed && t.store[l].cnxn in cnxns
  }

  /** Removing several ids takes exactly their listeners out, and keeps the order of the others. */
  lemma {:induction false} RemoveAllIs(t: Table, held: multiset<nat>, cnxns: seq<nat>, p: Path)
    requires Inv(t, held)
    ensures Inv(RemoveAll(t, cnxns), held)
    ensures At(RemoveAll(t, cnxns).tree, p) == Minus(At(t.tree, p), Having(t, cnxns))
    decreases |cnxns|
  {
    if cnxns == [] {
      assert Having(t, cnxns) == {};
      MinusNone(At(t.tree, p));
    } else {
      RemoveInv(t, held, cnxns[0]);
      RemoveAllIs(Remove(t, cnxns[0]), held, cnxns[1..], p);
      RemoveOneOf(t, cnxns, p);
    }
  }

  lemma RemoveOneOf(t: Table, cnxns: seq<nat>, p: Path)
    requires TreeOk(t.tree) && Placed(t) && Slotted(t) && cnxns != []
    ensures var t1 := Remove(t, cnxns[0]);
      Minus(At(t1.tree, p), Having(t1, cnxns[1..])) == Minus(At(t.tree, p), Having(t, cnxns))
  {
    var t1 := Remove(t, cnxns[0]);
    TargetIs(t, cnxns[0]);
    assert forall c :: c in cnxns <==> c == cnxns[0] || c in cnxns[1..];
    match Target(t, cnxns[0])
    case None =>
      assert Having(t, cnxns) == Having(t, cnxns[1..]);
    case Some(l) =>
      RemoveIs(t, l);
      MinusWithout(At(t.tree, p), l, Having(t1, cnxns[1..]));
      HavingAfter(t, t1, l, cnxns);
  }

  lemma HavingAfter(t: Table, t1: Table, l: nat, cnxns: seq<nat>)
    requires Slotted(t) && RemovedFrom(t, t1, l) && cnxns != [] && t.store[l].cnxn == cnxns[0]
    ensures Having(t, cnxns) == Having(t1, cnxns[1..]) + {l}
  {
    assert forall c :: c in cnxns <==> c == cnxns[0] || c in cnxns[1..];
    forall m | m in Having(t, cnxns) && m != l ensures m in Having(t1, cnxns[1..]) { IndexDiffers(t, l, m); }
  }

  lemma {:induction false} DeadIs(store: seq<Record>, met: seq<(Path, nat)>, pred: Predicate, cnxn: nat)
    ensures cnxn in Dead(store, met, pred) <==>
      exists x :: x in met && x.1 < |store| && store[x.1].cnxn == cnxn && pred(x.0, cnxn, store[x.1].data)
  {
    if met != [] {
      DeadIs(store, met[1..], pred, cnxn);
      assert forall x :: x in met <==> x == met[0] || x in met[1..];
    }
  }

  /** What the predicate says of a live listener at its place. */
  predicate Chosen(t: Table, pred: Predicate, p: Path, l: nat) {
    l < |t.store| && pred(p, t.store[l].cnxn, t.store[l].data)
  }

  lemma Met(t: Table, p: Path, l: nat)
    requires TreeOk(t.tree) && t.tree.Some?
    ensures (p, l) in InOrder(t.tree.value, []) <==> l in At(t.tree, p)
  {
    InOrderIs(t.tree.value, [], p, l);
    assert p[0..] == p;
  }

  lemma ChosenIsDead(t: Table, pred: Predicate, p: Path, l: nat)
    requires TreeOk(t.tree) && Placed(t) && Slotted(t) && t.tree.Some? && l in At(t.tree, p)
    ensures Chosen(t, pred, p, l) <==> l in Having(t, Dead(t.store, InOrder(t.tree.value, []), pred))
  {
    var met := InOrder(t.tree.value, []);
    var c := t.store[l].cnxn;
    DeadIs(t.store, met, pred, c);
    Met(t, p, l);
    if c in Dead(t.store, met, pred) {
      var x :| x in met && x.1 < |t.store| && t.store[x.1].cnxn == c && pred(x.0, c, t.store[x.1].data);
      Met(t, x.0, x.1);
      if x.1 != l { IndexDiffers(t, l, x.1); }
    }
  }

  lemma {:induction false} MinusIs(ls: seq<nat>, dead: set<nat>, l: nat)
    ensures l in Minus(ls, dead) <==> l in ls && l !in dead
  {
    if ls != [] { MinusIs(ls[1..], dead, l); }
  }

  /** remove_if keeps the invariant, and removes exactly the listeners that its predicate chooses. */
  lemma RemoveIfIs(t: Table, held: multiset<nat>, pred: Predicate, p: Path, l: nat)
    requires Inv(t, held)
    ensures Inv(RemoveIf(t, pred), held)
    ensures l in At(RemoveIf(t, pred).tree, p) <==> l in At(t.tree, p) && !Chosen(t, pred, p, l)
  {
    if t.tree.Some? {
      var cnxns := Dead(t.store, InOrder(t.tree.value, []), pred);
      RemoveAllIs(t, held, cnxns, p);
      MinusIs(At(t.tree, p), Having(t, cnxns), l);
      if l in At(t.tree, p) { ChosenIsDead(t, pred, p, l); }
    }
  }

  // Ids

  /** The id of each listener carries the low byte of its serial number, and the serial numbers grow. No
      later listener had the index of one that is still live. */
  ghost predicate Stamped(t: Table) {
    && (forall k :: 0 <= k < |t.store| ==>
          t.store[k].cnxn / INDICES == t.store[k].serial % 256 && t.store[k].serial <= t.serial)
    && (forall l, k :: 0 <= l < k < |t.store| ==>
          && t.store[l].serial < t.store[k].serial
          && (!t.store[l].removed ==> Index(t.store[l].cnxn) != Index(t.store[k].cnxn)))
  }

  lemma StampOf(i: nat, u: nat)
    requires i < INDICES
    ensures (i + u * INDICES) / INDICES == u
  {
  }

  lemma AddStamped(t: Table, where: string, data: int)
    requires Placed(t) && Slotted(t) && Stamped(t) && Add(t, where, data).Added?
    ensures Stamped(Add(t, where, data).table)
  {
    NextCnxnIs(t);
    var t1 := Add(t, where, data).table;
    var n := |t.store|;
    var cnxn := NextCnxn(t).value.1;
    NextStamp(t);
    assert t1.store == t.store + [Record(cnxn, 1, false, data, 0, t.serial + 1)] && t1.serial == t.serial + 1;
    forall l | 0 <= l < n && !t.store[l].removed ensures Index(t.store[l].cnxn) != Index(cnxn) {
      assert t.slots[Index(t.store[l].cnxn)].Some?;
    }
  }

  lemma NextStamp(t: Table)
    requires Slotted(t) && NextCnxn(t).Some?
    ensures NextCnxn(t).value.1 / INDICES == (t.serial + 1) % 256
  {
    var u := (t.serial + 1) % 256;
    if t.recycled != [] {
      assert t.recycled[0] in t.recycled;
      StampOf(t.recycled[0], u);
    } else {
      StampOf(t.nextCnxn, u);
    }
  }

  lemma RemoveStamped(t: Table, cnxn: nat)
    requires Stamped(t)
    ensures Stamped(Remove(t, cnxn))
  {
  }

  lemma ElsewhereInv(t: Table, held: multiset<nat>)
    requires Inv(t, held)
    ensures Inv(Elsewhere(t), held) && (Stamped(t) ==> Stamped(Elsewhere(t)))
  {
    ElsewhereSlotted(t);
    assert Live(Elsewhere(t)) == Live(t);
    hide Index, Slotted, TreeOk, At;
  }

  lemma ElsewhereSlotted(t: Table)
    requires Slotted(t)
    ensures Slotted(Elsewhere(t))
  {
    hide Index;
    forall i | 0 <= i < |t.slots| && t.slots[i].Some? ensures exists l :: Owns(Elsewhere(t), l, i) {
      var l :| Owns(t, l, i);
      assert Owns(Elsewhere(t), l, i);
    }
  }

  /** Fewer than 256 allocations apart, counted over all tables, no two listeners have the same id: an
      id kept after its listener is gone removes nothing. */
  lemma StaleIdHarmless(t: Table, k: nat)
    requires Placed(t) && Slotted(t) && Stamped(t)
    requires k < |t.store| && t.store[k].removed && t.serial - t.store[k].serial < 256
    ensures Remove(t, t.store[k].cnxn) == t
  {
    forall l | 0 <= l < |t.store| && !t.store[l].removed ensures t.store[l].cnxn != t.store[k].cnxn {
      if k < l { SameByte(t.store[k].serial, t.store[l].serial - t.store[k].serial); }
    }
    StaleIdIgnored(t, t.store[k].cnxn);
  }

  lemma SameByte(x: nat, d: nat)
    requires 0 < d < 256
    ensures (x + d) % 256 != x % 256
  {
  }
}
