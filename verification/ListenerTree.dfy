/** The tree of listening points: one node per key component, siblings sorted by name. A listener is
    an address in the store. */
module ListenerTree {
  import opened Basics
  import opened Keys

  datatype Node = Node(name: string, listeners: seq<nat>, children: seq<Node>)

  function Strcmp(a: string, b: string): int {
    if a == "" then (if b == "" then 0 else -1)
    else if b == "" then 1
    else if a[0] != b[0] then a[0] as int - b[0] as int
    else Strcmp(a[1..], b[1..])
  }

  lemma {:induction false} StrcmpEqual(a: string, b: string)
    ensures Strcmp(a, b) == 0 <==> a == b
  {
    if a != "" && b != "" {
      StrcmpEqual(a[1..], b[1..]);
      assert a == [a[0]] + a[1..] && b == [b[0]] + b[1..];
    }
  }

  lemma {:induction false} StrcmpTransitive(a: string, b: string, c: string)
    requires Strcmp(a, b) < 0 && Strcmp(b, c) < 0
    ensures Strcmp(a, c) < 0
  {
    if a != "" && a[0] == b[0] == c[0] { StrcmpTransitive(a[1..], b[1..], c[1..]); }
  }

  lemma {:induction false} StrcmpFlip(a: string, b: string)
    ensures Strcmp(a, b) == -Strcmp(b, a)
  {
    if a != "" && b != "" { StrcmpFlip(a[1..], b[1..]); }
  }

  predicate Sorted(ns: seq<Node>) {
    forall i, j :: 0 <= i < j < |ns| ==> Strcmp(ns[i].name, ns[j].name) < 0
  }

  predicate UselessNode(n: Node) { n.listeners == [] && n.children == [] }

  /** Siblings are sorted and no node below is useless. */
  predicate NodeOk(n: Node)
    decreases n
  {
    && Sorted(n.children)
    && forall i :: 0 <= i < |n.children| ==> NodeOk(n.children[i]) && !UselessNode(n.children[i])
  }

  predicate TreeOk(tree: Option<Node>) { tree.Some? ==> NodeOk(tree.value) && !UselessNode(tree.value) }

  /** The child of a name, found by walking the siblings. */
  function FindChild(ns: seq<Node>, name: string): (r: Option<nat>)
    ensures r.Some? ==> r.value < |ns| && ns[r.value].name == name
    ensures r.None? ==> forall i :: 0 <= i < |ns| ==> ns[i].name != name
  {
    if ns == [] then None
    else if ns[0].name == name then Some(0)
    else match FindChild(ns[1..], name)
         case None =>
           assert forall i :: 1 <= i < |ns| ==> ns[i] == ns[1..][i - 1];
           None
         case Some(i) => Some(i + 1)
  }

  lemma SortedFinds(ns: seq<Node>, i: nat)
    requires Sorted(ns) && i < |ns|
    ensures FindChild(ns, ns[i].name) == Some(i)
  {
    var j := FindChild(ns, ns[i].name).value;
    StrcmpEqual(ns[i].name, ns[j].name);
    StrcmpEqual(ns[j].name, ns[i].name);
  }

  /** The listeners listening exactly at a key. */
  function Here(n: Node, path: Path): seq<nat>
    decreases path
  {
    if path == [] then n.listeners
    else match FindChild(n.children, path[0])
         case None => []
         case Some(i) => Here(n.children[i], path[1..])
  }

  function At(tree: Option<Node>, path: Path): seq<nat> {
    if tree.Some? then Here(tree.value, path) else []
  }

  // Inserting

  /** Where the walk over the siblings stops: at the first name that is not smaller. */
  function Scan(ns: seq<Node>, name: string): (i: nat)
    ensures i <= |ns|
    ensures forall j :: 0 <= j < i ==> Strcmp(ns[j].name, name) < 0
    ensures i < |ns| ==> Strcmp(ns[i].name, name) >= 0
  {
    if ns == [] || Strcmp(ns[0].name, name) >= 0 then 0 else Scan(ns[1..], name) + 1
  }

  /** The part of ltable_insert that walks the tree, adding what nodes are missing. */
  function InsertAt(n: Node, path: Path, l: nat): (r: Node)
    ensures r.name == n.name && !UselessNode(r)
    decreases path
  {
    if path == [] then n.(listeners := [l] + n.listeners)
    else
      var i := Scan(n.children, path[0]);
      if i < |n.children| && Strcmp(n.children[i].name, path[0]) == 0 then
        n.(children := n.children[i := InsertAt(n.children[i], path[1..], l)])
      else
        n.(children := n.children[..i] + [InsertAt(Node(path[0], [], []), path[1..], l)] + n.children[i..])
  }

  lemma ScanFinds(ns: seq<Node>, name: string)
    requires Sorted(ns)
    ensures var i := Scan(ns, name);
      FindChild(ns, name) == if i < |ns| && Strcmp(ns[i].name, name) == 0 then Some(i) else None
  {
    var i := Scan(ns, name);
    if i < |ns| && Strcmp(ns[i].name, name) == 0 {
      StrcmpEqual(ns[i].name, name);
      SortedFinds(ns, i);
    } else {
      forall j | 0 <= j < |ns| ensures ns[j].name != name { StrcmpEqual(ns[j].name, name); }
    }
  }

  lemma InsertSorted(ns: seq<Node>, n: Node)
    requires Sorted(ns) && FindChild(ns, n.name) == None
    ensures var i := Scan(ns, n.name); Sorted(ns[..i] + [n] + ns[i..])
  {
    var i := Scan(ns, n.name);
    if i < |ns| { StrcmpEqual(ns[i].name, n.name); StrcmpFlip(ns[i].name, n.name); }
    hide Strcmp, Scan, FindChild, Sorted;
    SplicedSorted(ns, i, n, ns[..i] + [n] + ns[i..]);
  }

  lemma SplicedSorted(ns: seq<Node>, i: nat, n: Node, r: seq<Node>)
    requires Sorted(ns) && i <= |ns|
    requires forall j :: 0 <= j < i ==> Strcmp(ns[j].name, n.name) < 0
    requires i < |ns| ==> Strcmp(n.name, ns[i].name) < 0
    requires |r| == |ns| + 1 && r[i] == n
    requires forall k :: 0 <= k < |r| && k != i ==> r[k] == ns[if k < i then k else k - 1]
    ensures Sorted(r)
  {
    hide Strcmp;
    forall j, k | 0 <= j < k < |r| ensures Strcmp(r[j].name, r[k].name) < 0 {
      if j == i && k > i + 1 { StrcmpTransitive(n.name, ns[i].name, ns[k - 1].name); }
    }
  }

  lemma FindInserted(ns: seq<Node>, n: Node, name: string)
    requires Sorted(ns) && FindChild(ns, n.name) == None
    ensures var i := Scan(ns, n.name);
      FoundIn(ns, i, n, name, ns[..i] + [n] + ns[i..])
  {
    InsertSorted(ns, n);
    var i := Scan(ns, n.name);
    hide Strcmp, Scan, FindChild, Sorted, FoundIn;
    FindSpliced(ns, i, n, name, ns[..i] + [n] + ns[i..]);
  }

  /** What a search finds after `n' was put in at place i. */
  predicate FoundIn(ns: seq<Node>, i: nat, n: Node, name: string, r: seq<Node>) {
    match FindChild(ns, name)
    case Some(j) => name != n.name && FindChild(r, name).Some? && r[FindChild(r, name).value] == ns[j]
    case None => if name == n.name then FindChild(r, name) == Some(i) && i < |r| && r[i] == n else FindChild(r, name) == None
  }

  lemma FindSpliced(ns: seq<Node>, i: nat, n: Node, name: string, r: seq<Node>)
    requires Sorted(r) && i <= |ns| && FindChild(ns, n.name) == None
    requires |r| == |ns| + 1 && r[i] == n
    requires forall k :: 0 <= k < |r| && k != i ==> r[k] == ns[if k < i then k else k - 1]
    ensures FoundIn(ns, i, n, name, r)
  {
    hide Strcmp, Scan, FindChild, Sorted;
    SortedFinds(r, i);
    match FindChild(ns, name)
    case Some(j) =>
      var k := if j < i then j else j + 1;
      assert r[k] == ns[j];
      SortedFinds(r, k);
    case None =>
      forall k | 0 <= k < |r| && k != i ensures r[k].name != name {}
  }

  lemma {:induction false} FindReplaced(ns: seq<Node>, i: nat, n: Node, name: string)
    requires i < |ns| && n.name == ns[i].name
    ensures FindChild(ns[i := n], name) == FindChild(ns, name)
    decreases ns
  {
    if i == 0 {
      assert ns[i := n][1..] == ns[1..];
    } else {
      assert ns[i := n][1..] == ns[1..][i - 1 := n];
      FindReplaced(ns[1..], i - 1, n, name);
    }
  }

  lemma {:induction false} InsertHere(n: Node, path: Path, l: nat, q: Path)
    requires NodeOk(n)
    ensures Here(InsertAt(n, path, l), q) == if q == path then [l] + Here(n, path) else Here(n, q)
    decreases path
  {
    if path != [] {
      ScanFinds(n.children, path[0]);
      if q != [] { assert q == path <==> q[0] == path[0] && q[1..] == path[1..] by { HeadTail(q, path); } }
      match FindChild(n.children, path[0])
      case Some(i) =>
        var child := InsertAt(n.children[i], path[1..], l);
        if q != [] {
          FindReplaced(n.children, i, child, q[0]);
          InsertHere(n.children[i], path[1..], l, q[1..]);
        }
      case None =>
        var leaf := Node(path[0], [], []);
        if q != [] {
          FindInserted(n.children, InsertAt(leaf, path[1..], l), q[0]);
          InsertHere(leaf, path[1..], l, q[1..]);
          NothingHere(leaf, q[1..]);
          NothingHere(leaf, path[1..]);
        }
    }
  }

  lemma NothingHere(n: Node, q: Path)
    requires UselessNode(n)
    ensures Here(n, q) == []
  {
  }

  lemma {:induction false} InsertOk(n: Node, path: Path, l: nat)
    requires NodeOk(n)
    ensures NodeOk(InsertAt(n, path, l))
    decreases path
  {
    if path != [] {
      ScanFinds(n.children, path[0]);
      var i := Scan(n.children, path[0]);
      match FindChild(n.children, path[0])
      case Some(_) =>
        InsertOk(n.children[i], path[1..], l);
        ReplacedOk(n, i, InsertAt(n.children[i], path[1..], l));
      case None =>
        var leaf := Node(path[0], [], []);
        InsertOk(leaf, path[1..], l);
        InsertSorted(n.children, InsertAt(leaf, path[1..], l));
        SplicedOk(n, i, InsertAt(leaf, path[1..], l));
    }
  }

  lemma ReplacedOk(n: Node, i: nat, child: Node)
    requires NodeOk(n) && NodeOk(child) && !UselessNode(child) && i < |n.children| && child.name == n.children[i].name
    ensures NodeOk(n.(children := n.children[i := child]))
  {
    hide Strcmp;
  }

  lemma SplicedOk(n: Node, i: nat, child: Node)
    requires NodeOk(n) && NodeOk(child) && !UselessNode(child) && i <= |n.children|
    requires Sorted(n.children[..i] + [child] + n.children[i..])
    ensures NodeOk(n.(children := n.children[..i] + [child] + n.children[i..]))
  {
    hide Sorted;
    var r := n.children[..i] + [child] + n.children[i..];
    forall k | 0 <= k < |r| ensures NodeOk(r[k]) && !UselessNode(r[k]) {
      if k > i { assert r[k] == n.children[k - 1]; }
    }
  }

  // Removing

  function Prune(n: Node): Option<Node> { if UselessNode(n) then None else Some(n) }

  /** Take a listener from its node, then delete the nodes that this makes useless. */
  function RemoveAt(n: Node, path: Path, l: nat): (r: Option<Node>)
    ensures r.Some? ==> r.value.name == n.name
    decreases path
  {
    if path == [] then Prune(n.(listeners := Without(n.listeners, l)))
    else match FindChild(n.children, path[0])
         case None => Some(n)
         case Some(i) =>
           match RemoveAt(n.children[i], path[1..], l)
           case Some(child) => Some(n.(children := n.children[i := child]))
           case None => Prune(n.(children := n.children[..i] + n.children[i + 1..]))
  }

  lemma FindDeleted(ns: seq<Node>, i: nat, name: string)
    requires Sorted(ns) && i < |ns|
    ensures var r := ns[..i] + ns[i + 1..];
      && Sorted(r)
      && match FindChild(ns, name)
         case None => FindChild(r, name) == None
         case Some(j) =>
           if j == i then FindChild(r, name) == None
           else FindChild(r, name).Some? && r[FindChild(r, name).value] == ns[j]
  {
    var r := ns[..i] + ns[i + 1..];
    forall j, k | 0 <= j < k < |r| ensures Strcmp(r[j].name, r[k].name) < 0 {
      assert r[j] == ns[if j < i then j else j + 1] && r[k] == ns[if k < i then k else k + 1];
    }
    forall k | 0 <= k < |r| ensures r[k].name != ns[i].name {
      assert r[k] == ns[if k < i then k else k + 1];
      StrcmpEqual(r[k].name, ns[i].name);
      StrcmpEqual(ns[i].name, r[k].name);
    }
    match FindChild(ns, name)
    case None =>
      forall k | 0 <= k < |r| ensures r[k].name != name { assert r[k] == ns[if k < i then k else k + 1]; }
    case Some(j) =>
      if j != i {
        var k := if j < i then j else j - 1;
        assert r[k] == ns[j];
        SortedFinds(r, k);
      }
  }

  lemma {:induction false} RemoveHere(n: Node, path: Path, l: nat, q: Path)
    requires NodeOk(n)
    ensures At(RemoveAt(n, path, l), q) == if q == path then Without(Here(n, path), l) else Here(n, q)
    decreases path
  {
    if path == [] {
      if UselessNode(n.(listeners := Without(n.listeners, l))) && q != [] { assert n.children == []; }
    } else {
      if q != [] { HeadTail(q, path); }
      match FindChild(n.children, path[0])
      case None =>
      case Some(i) =>
        if q != [] {
          RemoveHere(n.children[i], path[1..], l, q[1..]);
          FindDeleted(n.children, i, q[0]);
          match RemoveAt(n.children[i], path[1..], l)
          case Some(child) => FindReplaced(n.children, i, child, q[0]);
          case None =>
        }
    }
  }

  lemma DeletedOk(n: Node, i: nat, name: string)
    requires NodeOk(n) && i < |n.children|
    ensures NodeOk(n.(children := n.children[..i] + n.children[i + 1..]))
  {
    FindDeleted(n.children, i, name);
    hide Sorted, Strcmp, FindChild;
  }

  lemma {:induction false} RemoveOk(n: Node, path: Path, l: nat)
    requires NodeOk(n) && !UselessNode(n)
    ensures TreeOk(RemoveAt(n, path, l))
    decreases path
  {
    if path != [] {
      match FindChild(n.children, path[0])
      case None =>
      case Some(i) =>
        RemoveOk(n.children[i], path[1..], l);
        var r := RemoveAt(n.children[i], path[1..], l);
        if r.Some? { ReplacedOk(n, i, r.value); } else { DeletedOk(n, i, path[0]); }
        hide Sorted, NodeOk, FindChild;
    }
  }

  // Walking

  /** The listeners of the nodes met on the way down to a key: those ltable_notify collects. */
  function OnTheWay(n: Node, path: Path): seq<nat>
    decreases path
  {
    n.listeners +
    if path == [] then []
    else match FindChild(n.children, path[0])
         case None => []
         case Some(i) => OnTheWay(n.children[i], path[1..])
  }

  /** The listeners at the first `k' ancestors of a key, the root first. */
  function Ancestors(tree: Option<Node>, path: Path, k: nat): seq<nat>
    requires k <= |path| + 1
  {
    if k == 0 then [] else Ancestors(tree, path, k - 1) + At(tree, path[..k - 1])
  }

  /** The ancestors below the first component are those of the child. */
  lemma {:induction false} AncestorsBelow(n: Node, path: Path, k: nat, i: nat)
    requires path != [] && 1 <= k <= |path| + 1 && FindChild(n.children, path[0]) == Some(i)
    ensures Ancestors(Some(n), path, k) == n.listeners + Ancestors(Some(n.children[i]), path[1..], k - 1)
  {
    if k == 1 {
      assert path[..0] == [];
      assert Ancestors(Some(n), path, 0) == [] == Ancestors(Some(n.children[i]), path[1..], 0);
    } else {
      AncestorsBelow(n, path, k - 1, i);
      assert path[..k - 1][0] == path[0] && path[..k - 1][1..] == path[1..][..k - 2];
    }
  }

  lemma {:induction false} AncestorsEnd(n: Node, path: Path, k: nat)
    requires path != [] && 1 <= k <= |path| + 1 && FindChild(n.children, path[0]) == None
    ensures Ancestors(Some(n), path, k) == n.listeners
  {
    if k == 1 {
      assert path[..0] == [];
      assert Ancestors(Some(n), path, 0) == [];
    } else {
      AncestorsEnd(n, path, k - 1);
      assert path[..k - 1][0] == path[0];
    }
  }

  /** Exactly the listeners of the key's ancestors are met, from the root down. */
  lemma {:induction false} OnTheWayIs(n: Node, path: Path)
    ensures OnTheWay(n, path) == Ancestors(Some(n), path, |path| + 1)
    decreases path
  {
    if path == [] {
      assert path[..0] == [];
      assert Ancestors(Some(n), path, 0) == [];
    } else {
      match FindChild(n.children, path[0])
      case None => AncestorsEnd(n, path, |path| + 1);
      case Some(i) =>
        AncestorsBelow(n, path, |path| + 1, i);
        OnTheWayIs(n.children[i], path[1..]);
    }
  }

  lemma {:induction false} AncestorsMember(tree: Option<Node>, path: Path, k: nat, l: nat)
    requires k <= |path| + 1
    ensures l in Ancestors(tree, path, k) <==> exists j :: 0 <= j < k && l in At(tree, path[..j])
  {
    if k > 0 { AncestorsMember(tree, path, k - 1, l); }
  }

  /** All listening points with their listeners, first child first (G_IN_ORDER). */
  function InOrder(n: Node, path: Path): seq<(Path, nat)>
    decreases n, 1, 0
  {
    if n.children == [] then Pairs(path, n.listeners)
    else
      InOrder(n.children[0], path + [n.children[0].name])
      + Pairs(path, n.listeners)
      + InOrderAll(n, path, 1)
  }

  function InOrderAll(n: Node, path: Path, i: nat): seq<(Path, nat)>
    requires i <= |n.children|
    decreases n, 0, |n.children| - i
  {
    if i == |n.children| then []
    else InOrder(n.children[i], path + [n.children[i].name]) + InOrderAll(n, path, i + 1)
  }

  function Pairs(path: Path, ls: seq<nat>): seq<(Path, nat)> {
    if ls == [] then [] else [(path, ls[0])] + Pairs(path, ls[1..])
  }

  lemma {:induction false} PairsAre(path: Path, ls: seq<nat>, p: Path, l: nat)
    ensures (p, l) in Pairs(path, ls) <==> p == path && l in ls
  {
    if ls != [] { PairsAre(path, ls[1..], p, l); }
  }

  /** The traversal meets exactly the listeners there are. */
  lemma {:induction false} InOrderIs(n: Node, path: Path, p: Path, l: nat)
    requires NodeOk(n)
    ensures (p, l) in InOrder(n, path) <==> path <= p && l in Here(n, p[|path|..])
    decreases n, 1, 0
  {
    PairsAre(path, n.listeners, p, l);
    if n.children == [] {
      assert path <= p && p[|path|..] == [] ==> p == path;
      assert p == path ==> p[|path|..] == [];
    } else {
      ChildIs(n, path, 0, p, l);
      InOrderAllIs(n, path, 1, p, l);
      SplitChild(n, path, p, l);
    }
  }

  predicate BelowChild(n: Node, path: Path, i: nat, p: Path, l: nat)
    requires i < |n.children|
  {
    path <= p && |p| > |path| && p[|path|] == n.children[i].name && l in Here(n.children[i], p[|path| + 1..])
  }

  lemma SplitChild(n: Node, path: Path, p: Path, l: nat)
    requires NodeOk(n)
    ensures path <= p && l in Here(n, p[|path|..]) <==>
      (p == path && l in n.listeners) || exists i :: 0 <= i < |n.children| && BelowChild(n, path, i, p, l)
  {
    if path <= p {
      if p == path { assert p[|path|..] == []; }
      else {
        assert p[|path|..][0] == p[|path|] && p[|path|..][1..] == p[|path| + 1..];
        forall i | 0 <= i < |n.children| ensures FindChild(n.children, n.children[i].name) == Some(i) {
          SortedFinds(n.children, i);
        }
        if l in Here(n, p[|path|..]) {
          var i := FindChild(n.children, p[|path|]).value;
          assert BelowChild(n, path, i, p, l);
        }
      }
    }
  }

  lemma ChildIs(n: Node, path: Path, i: nat, p: Path, l: nat)
    requires NodeOk(n) && i < |n.children|
    ensures (p, l) in InOrder(n.children[i], path + [n.children[i].name]) <==> BelowChild(n, path, i, p, l)
    decreases n, 0, 0
  {
    var down := path + [n.children[i].name];
    InOrderIs(n.children[i], down, p, l);
    assert down <= p <==> path <= p && |p| > |path| && p[|path|] == n.children[i].name by {
      if down <= p { assert p[..|down|] == down; assert p[|path|] == down[|path|]; }
      if path <= p && |p| > |path| && p[|path|] == n.children[i].name {
        assert p[..|down|] == p[..|path|] + [p[|path|]] == down;
      }
    }
  }

  lemma {:induction false} InOrderAllIs(n: Node, path: Path, i: nat, p: Path, l: nat)
    requires NodeOk(n) && i <= |n.children|
    ensures (p, l) in InOrderAll(n, path, i) <==>
      exists j :: i <= j < |n.children| && BelowChild(n, path, j, p, l)
    decreases n, 0, |n.children| - i + 1
  {
    if i < |n.children| {
      ChildIs(n, path, i, p, l);
      InOrderAllIs(n, path, i + 1, p, l);
    }
  }
}
