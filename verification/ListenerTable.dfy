/** The listener table as one object, changed in place by the loops of the program. Each method is
    proved against the functions of Listeners and ListenerNotify. */
module ListenerTable {
  import opened Basics
  import opened Keys
  import opened ListenerTree
  import opened Listeners
  import opened ListenerNotify

  /** The walk over the siblings in ltable_insert. */
  method FindSibling(ns: seq<Node>, name: string) returns (across: nat, found: bool)
    ensures across == Scan(ns, name)
    ensures found <==> across < |ns| && Strcmp(ns[across].name, name) == 0
  {
    across, found := 0, false;
    while across < |ns|
      invariant across <= |ns|
      invariant Scan(ns, name) == across + Scan(ns[across..], name)
      invariant !found
    {
      var cmp := Strcmp(ns[across].name, name);
      if cmp == 0 {
        found := true;
        break;
      } else if cmp > 0 {
        break;
      }
      across := across + 1;
    }
  }

  /** Walk down, adding the nodes that are missing. */
  method InsertNode(n: Node, dirnames: Path, l: nat) returns (r: Node)
    ensures r == InsertAt(n, dirnames, l)
    decreases dirnames
  {
    if dirnames == [] {
      return n.(listeners := [l] + n.listeners);
    }
    var across, found := FindSibling(n.children, dirnames[0]);
    if found {
      var child := InsertNode(n.children[across], dirnames[1..], l);
      r := n.(children := n.children[across := child]);
    } else {
      var child := InsertNode(Node(dirnames[0], [], []), dirnames[1..], l);
      r := n.(children := n.children[..across] + [child] + n.children[across..]);
    }
  }

  class ListenerTable {
    var tree: Option<Node>
    var listeners: seq<Option<Path>>
    var activeListeners: int
    var nextCnxn: nat
    var removedIndices: seq<nat>
    var uniqueness: nat             // static in the program: shared by all tables
    var serial: nat                 // the allocations so far; the program keeps the byte alone
    var memory: seq<Record>

    ghost function Abstract(): Table
      reads this
    {
      Table(tree, listeners, nextCnxn, removedIndices, activeListeners, serial, memory)
    }

    ghost predicate Valid(held: multiset<nat>)
      reads this
    {
      Inv(Abstract(), held) && uniqueness == serial % 256
    }

    constructor (start: nat)
      ensures Abstract() == NewTable(start) && Valid(multiset{})
    {
      tree, listeners, activeListeners := None, seq(5, _ => None), 0;
      nextCnxn, removedIndices, uniqueness, memory := 1, [], start % 256, [];
      serial := start;
      new;
      NewTableInv(start);
    }

    /** ltable_next_cnxn, where its assertion holds */
    method AllocateCnxn() returns (cnxn: nat)
      requires removedIndices != [] || nextCnxn < INDICES
      requires uniqueness == serial % 256
      modifies `uniqueness, `serial, `removedIndices, `nextCnxn
      ensures uniqueness == serial % 256
      ensures Listeners.NextCnxn(old(Abstract())) == Some((Abstract(), cnxn))
    {
      uniqueness := (uniqueness + 1) % 256;
      serial := serial + 1;
      var shifted := uniqueness * INDICES;
      if removedIndices != [] {
        cnxn := removedIndices[0] + shifted;
        removedIndices := removedIndices[1..];
      } else {
        nextCnxn := nextCnxn + 1;
        cnxn := nextCnxn - 1 + shifted;
      }
    }

    /** What an addition to another table does to this one: it moves the byte that they share. */
    method AllocatedElsewhere(ghost held: multiset<nat>)
      requires Valid(held)
      modifies `uniqueness, `serial
      ensures Valid(held) && Abstract() == Elsewhere(old(Abstract()))
    {
      hide Inv;
      ghost var after := Elsewhere(Abstract());
      ElsewhereInv(Abstract(), held);
      uniqueness := (uniqueness + 1) % 256;
      serial := serial + 1;
      assert Abstract() == after;
    }

    /** ltable_insert at a valid key */
    method InsertListener(where: string, l: nat)
      requires l < |memory| && ValidKey(where)
      requires Index(memory[l].cnxn) < Max(Index(nextCnxn), Index(memory[l].cnxn))
      modifies `tree, `listeners, `activeListeners
      ensures Insert(old(Abstract()), Components(where), l) == Added(Abstract(), memory[l].cnxn)
    {
      hide InsertAt, Components, Index;
      var cnxn := memory[l].cnxn;
      if tree.None? { tree := Some(Node("/", [], [])); }
      var root := InsertNode(tree.value, Components(where), l);
      tree := Some(root);
      listeners := Resize(listeners, Max(Index(nextCnxn), Index(cnxn)));
      listeners := listeners[Index(cnxn) := Some(Components(where))];
      activeListeners := activeListeners + 1;
    }

    /** gconf_listeners_add: below 2^24 - 1 indices every write is in bounds and the id is new. */
    method AddListener(ghost held: multiset<nat>, where: string, data: int) returns (cnxn: nat)
      requires Valid(held) && ValidKey(where)
      requires removedIndices != [] || nextCnxn < 0xFF_FFFF
      modifies this
      ensures Valid(held)
      ensures Add(old(Abstract()), where, data) == Added(Abstract(), cnxn)
      ensures cnxn != 0 && forall l :: 0 <= l < |old(memory)| && !old(memory)[l].removed ==> old(memory)[l].cnxn != cnxn
    {
      ghost var before := Abstract();
      hide Inv, Components, Index, Listeners.NextCnxn, Add, Insert, Max;
      AddFacts(before, held, where, data);
      cnxn := AllocateCnxn();
      memory := memory + [Record(cnxn, 1, false, data, 0, serial)];
      assert Add(before, where, data) == Insert(Abstract(), Components(where), |before.store|);
      InsertListener(where, |memory| - 1);
    }

    /** gconf_listeners_remove */
    method RemoveListener(ghost held: multiset<nat>, cnxn: nat)
      requires Valid(held)
      modifies this
      ensures Abstract() == Remove(old(Abstract()), cnxn) && Valid(held)
    {
      ghost var before := Abstract();
      RemoveInv(before, held, cnxn);
      TargetIs(before, cnxn);
      if cnxn == 0 { return; }
      var index := Index(cnxn);
      if index >= |listeners| { return; }
      if listeners[index].None? { return; }
      var path := listeners[index].value;
      var found := SearchList(memory, At(tree, path), cnxn);
      if found.None? { return; }
      var l := found.value;
      assert Target(before, cnxn) == Some(l);
      hide Inv, FindCnxn, Target;
      DropListener(index, l);
    }

    /** The end of ltable_remove: take the listener out and make its index free. */
    method DropListener(index: nat, l: nat)
      requires index < |listeners| && listeners[index].Some? && tree.Some? && l < |memory|
      modifies `tree, `listeners, `removedIndices, `activeListeners, `memory
      ensures var t := old(Abstract());
        Abstract() == t.(tree := RemoveAt(t.tree.value, t.slots[index].value, l),
                         slots := t.slots[index := None],
                         recycled := [index] + t.recycled,
                         active := t.active - 1,
                         store := Unref(t.store[l := t.store[l].(removed := true)], l))
    {
      tree := RemoveAt(tree.value, listeners[index].value, l);
      removedIndices := [index] + removedIndices;
      memory := memory[l := memory[l].(removed := true)];
      memory := Unref(memory, l);
      listeners := listeners[index := None];
      activeListeners := activeListeners - 1;
    }

    /** The list that ltable_notify makes on the way down to a key, with a reference to each member. */
    method TakeSnapshot(ghost frames: seq<Frame>, key: string) returns (toNotify: seq<nat>)
      requires StateInv(State(Abstract(), frames)) && ValidKey(key) && tree.Some?
      modifies `memory
      ensures State(Abstract(), frames + [Frame(Components(key), toNotify, [])])
        == Begin(State(old(Abstract()), frames), key)
      ensures StateInv(State(Abstract(), frames + [Frame(Components(key), toNotify, [])]))
    {
      BeginInv(State(Abstract(), frames), key);
      hide StateInv, OnTheWay, ValidKey, Components;
      toNotify := Collect(tree.value, Components(key));
      memory := RefAll(memory, toNotify);
    }
  }

  /** The search of ltable_remove for the listener with an id. */
  method SearchList(store: seq<Record>, ls: seq<nat>, cnxn: nat) returns (found: Option<nat>)
    ensures found == FindCnxn(store, ls, cnxn)
  {
    var tmp := 0;
    while tmp < |ls|
      invariant tmp <= |ls|
      invariant FindCnxn(store, ls, cnxn) == FindCnxn(store, ls[tmp..], cnxn)
    {
      var l := ls[tmp];
      if l < |store| && store[l].cnxn == cnxn { return Some(l); }
      tmp := tmp + 1;
    }
    return None;
  }

  /** The walk over the siblings in ltable_notify. */
  method FindByName(ns: seq<Node>, name: string) returns (child: nat)
    ensures child <= |ns| && FindChild(ns, name) == if child < |ns| then Some(child) else None
  {
    child := 0;
    while child < |ns| && ns[child].name != name
      invariant child <= |ns|
      invariant forall j :: 0 <= j < child ==> ns[j].name != name
    {
      child := child + 1;
    }
    FirstChild(ns, name, child);
  }

  /** The walk of ltable_notify down the tree. */
  method Collect(root: Node, dirs: Path) returns (toNotify: seq<nat>)
    ensures toNotify == OnTheWay(root, dirs)
  {
    toNotify := root.listeners;
    var cur, i := Some(root), 0;
    while i < |dirs| && cur.Some?
      invariant i <= |dirs|
      invariant OnTheWay(root, dirs) == toNotify + (if cur.Some? then Below(cur.value, dirs[i..]) else [])
    {
      var child := FindByName(cur.value.children, dirs[i]);
      assert dirs[i..][0] == dirs[i] && dirs[i..][1..] == dirs[i + 1..];
      if child < |cur.value.children| {
        toNotify := toNotify + cur.value.children[child].listeners;
        cur := Some(cur.value.children[child]);
      } else {
        cur := None;
      }
      i := i + 1;
    }
  }

  /** What is met below a node on the way to a key. */
  function Below(n: Node, path: Path): seq<nat> {
    if path == [] then []
    else match FindChild(n.children, path[0])
         case None => []
         case Some(i) => OnTheWay(n.children[i], path[1..])
  }

  lemma AddSplits(t: Table, where: string, data: int)
    requires ValidKey(where) && NextCnxn(t).Some?
    ensures var next := NextCnxn(t).value;
      var t1 := next.0.(store := t.store + [Record(next.1, 1, false, data, 0, next.0.serial)]);
      && Add(t, where, data) == Insert(t1, Components(where), |t.store|)
      && (Add(t, where, data).Added? ==>
            Index(next.1) < Max(Index(t1.nextCnxn), Index(next.1)) && Add(t, where, data).cnxn == next.1)
  {
  }

  /** What an addition within the bound on indices does. */
  lemma AddFacts(t: Table, held: multiset<nat>, where: string, data: int)
    requires Inv(t, held) && ValidKey(where) && (t.recycled != [] || t.nextCnxn < 0xFF_FFFF)
    ensures t.recycled != [] || t.nextCnxn < INDICES
    ensures NextCnxn(t).Some? && Add(t, where, data).Added?
    ensures Inv(Add(t, where, data).table, held)
    ensures var next := NextCnxn(t).value;
      var t1 := next.0.(store := t.store + [Record(next.1, 1, false, data, 0, next.0.serial)]);
      && Add(t, where, data) == Insert(t1, Components(where), |t.store|)
      && Index(next.1) < Max(Index(t1.nextCnxn), Index(next.1)) && Add(t, where, data).cnxn == next.1
    ensures var cnxn := Add(t, where, data).cnxn;
      cnxn != 0 && forall l :: 0 <= l < |t.store| && !t.store[l].removed ==> t.store[l].cnxn != cnxn
  {
    AddInBounds(t, held, where, data);
    AddInv(t, held, where, data);
    NewId(t, where, data);
    AddSplits(t, where, data);
  }

  lemma NewId(t: Table, where: string, data: int)
    requires TreeOk(t.tree) && Placed(t) && Slotted(t) && ValidKey(where) && Add(t, where, data).Added?
    ensures var cnxn := Add(t, where, data).cnxn;
      cnxn != 0 && forall l :: 0 <= l < |t.store| && !t.store[l].removed ==> t.store[l].cnxn != cnxn
  {
    NextCnxnIs(t);
    var cnxn := Add(t, where, data).cnxn;
    forall l | 0 <= l < |t.store| && !t.store[l].removed ensures t.store[l].cnxn != cnxn {
      assert t.slots[Index(t.store[l].cnxn)].Some?;
    }
  }

  lemma {:induction false} FirstChild(ns: seq<Node>, name: string, i: nat)
    requires i <= |ns| && forall j :: 0 <= j < i ==> ns[j].name != name
    requires i < |ns| ==> ns[i].name == name
    ensures FindChild(ns, name) == if i < |ns| then Some(i) else None
    decreases ns
  {
    if ns != [] && i > 0 { FirstChild(ns[1..], name, i - 1); }
  }
}
