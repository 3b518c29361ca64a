/** The client: watched directories, the cache, and what happens to both when the server's values
    change, notifications arrive, and directories come and go. */
module Client {
  import opened Basics
  import opened Values
  import opened Keys
  import opened KeyWalk
  import D = Database
  import E = Engine
  import opened ClientDirs

  /** A cached entry (GConfEntry). */
  datatype Entry = Entry(value: Option<Value>, isDefault: bool, isWritable: bool, schemaName: Option<string>)

  type Cache = map<string, Entry>

  /** gconf_value_compare says that two values are the same. */
  datatype Comparison = Comparison(same: (Value, Value) -> bool)
  {
    ghost predicate Reflexive() { forall v :: same(v, v) }

    predicate SameValue(a: Option<Value>, b: Option<Value>) {
      match a
      case None => b.None?
      case Some(x) => b.Some? && same(x, b.value)
    }

    /** gconf_entry_equal of two entries of one key */
    predicate SameEntry(a: Entry, b: Entry) {
      SameValue(a.value, b.value) && a.isDefault == b.isDefault && a.isWritable == b.isWritable
      && a.schemaName == b.schemaName
    }
  }

  // Coherence

  /** The last message under way for a key. */
  function LastFor(q: seq<D.Notify>, key: string): Option<D.Notify> {
    if q == [] then None
    else if LastFor(q[1..], key).Some? then LastFor(q[1..], key)
    else if q[0].key == key then Some(q[0]) else None
  }

  /** The last message under way for a key carries the server's value; a key with none under way is
      cached, if at all, with the server's value. */
  ghost predicate Coherent(cmp: Comparison, cache: Cache, q: seq<D.Notify>, values: map<string, Value>,
                           defaults: map<string, Value>)
  {
    forall key ::
      match LastFor(q, key)
      case Some(m) => m.value == D.Current(values, defaults, key)
      case None => key in cache ==> cmp.SameValue(cache[key].value, D.Current(values, defaults, key))
  }

  /** Messages under way were sent for a registered directory above their key. */
  ghost predicate Sent(dirs: Dirs, q: seq<D.Notify>) {
    forall i :: 0 <= i < |q| ==> Registered(dirs, q[i].dir) && Rooted(q[i].key) && KeyIsBelow(q[i].dir, q[i].key)
  }

  ghost predicate CacheMonitored(dirs: Dirs, cache: Cache) {
    forall key :: key in cache ==> Rooted(key) && Monitored(dirs, key)
  }

  lemma {:induction false} LastForAppend(a: seq<D.Notify>, b: seq<D.Notify>, key: string)
    ensures LastFor(a + b, key) == if LastFor(b, key).Some? then LastFor(b, key) else LastFor(a, key)
  {
    if a == [] {
      assert a + b == b;
    } else {
      assert (a + b)[1..] == a[1..] + b;
      LastForAppend(a[1..], b, key);
    }
  }

  lemma {:induction false} LastForIs(q: seq<D.Notify>, key: string)
    ensures LastFor(q, key).None? <==> forall i :: 0 <= i < |q| ==> q[i].key != key
    ensures LastFor(q, key).Some? ==> LastFor(q, key).value in q && LastFor(q, key).value.key == key
  {
    if q != [] {
      LastForIs(q[1..], key);
      assert forall i :: 1 <= i < |q| ==> q[i] == q[1..][i - 1];
    }
  }

  /** When nothing is under way, the cache holds the server's values. */
  lemma DrainedIsCurrent(cmp: Comparison, cache: Cache, values: map<string, Value>, defaults: map<string, Value>, key: string)
    requires Coherent(cmp, cache, [], values, defaults) && key in cache
    ensures cmp.SameValue(cache[key].value, D.Current(values, defaults, key))
    ensures exists answer :: D.Answers(values, defaults, key, answer) && cmp.SameValue(cache[key].value, answer)
  {
    assert LastFor([], key) == None;
  }

  // Exactly one message

  /** The registered directory above a key, if it has one. */
  ghost predicate Answers(dirs: Dirs, key: string, d: Option<string>) {
    if d.Some? then Registered(dirs, d.value) && KeyIsBelow(d.value, key)
    else forall e :: Registered(dirs, e) ==> !KeyIsBelow(e, key)
  }

  /** A watched key has a registered directory above it, and a key that is not watched has none. */
  lemma WatchedIsAnswered(dirs: Dirs, key: string) returns (d: Option<string>)
    requires AllRooted(dirs) && Topmost(dirs) && Rooted(key)
    ensures Answers(dirs, key, d) && (d.Some? <==> Monitored(dirs, key))
  {
    if e :| e in dirs && KeyIsBelow(e, key) {
      var r := TopAncestor(dirs, e);
      BelowTransitive(r, e, key);
      d := Some(r);
    } else {
      d := None;
    }
  }

  /** What the walk finds at each directory for this client. */
  lemma CountsOnWalk(n: D.Notifications, service: string, dirs: Dirs, byDir: E.ByDir, byId: E.ById, key: string,
                     d: Option<string>)
    requires AllRooted(dirs) && Topmost(dirs) && Linked(dirs, byDir, byId) && E.ServerAgrees(n, service, byDir)
    requires Rooted(key) && Answers(dirs, key, d)
    ensures forall e :: Rooted(e) && KeyIsBelow(e, key) ==> multiset(D.Clients(n, e))[service] == if d == Some(e) then 1 else 0
  {
    TopmostAntichain(dirs);
    forall e | Rooted(e) && KeyIsBelow(e, key)
      ensures multiset(D.Clients(n, e))[service] == if d == Some(e) then 1 else 0
    {
      assert multiset(D.Clients(n, e))[service] == |E.Cnxns(byDir, e)|;
      if Registered(dirs, e) { OneAbove(dirs, e, d.value, key); }
    }
  }

  lemma {:induction false} WalkRooted(s: string, d: string)
    requires Rooted(s) && d in Walk(s)
    ensures Rooted(d)
    decreases |s|
  {
    if d != s && LastSlash(s) != 0 { WalkRooted(s[..LastSlash(s)], d); }
  }

  /** One change of a key other than the root sends a client that watches any directory above it, or
      the key, exactly one message, and one that does not nothing. */
  lemma ExactlyOneMessage(n: D.Notifications, service: string, dirs: Dirs, byDir: E.ByDir, byId: E.ById, key: string,
                          value: Option<Value>) returns (d: Option<string>)
    requires AllRooted(dirs) && Topmost(dirs) && Linked(dirs, byDir, byId) && E.ServerAgrees(n, service, byDir)
    requires ValidKey(key) && key != "/"
    ensures Answers(dirs, key, d) && (d.Some? <==> Monitored(dirs, key))
    ensures D.Received(n, Walk(key), service, key, value) == if d.Some? then [D.Notify(d.value, key, value)] else []
  {
    d := WatchedIsAnswered(dirs, key);
    CountsOnWalk(n, service, dirs, byDir, byId, key, d);
    OnWalk(n, service, key, value, d);
  }

  lemma OnWalk(n: D.Notifications, service: string, key: string, value: Option<Value>, d: Option<string>)
    requires ValidKey(key) && key != "/" && (d.Some? ==> Rooted(d.value) && KeyIsBelow(d.value, key))
    requires forall e :: Rooted(e) && KeyIsBelow(e, key) ==>
      multiset(D.Clients(n, e))[service] == if d == Some(e) then 1 else 0
    ensures D.Received(n, Walk(key), service, key, value) == if d.Some? then [D.Notify(d.value, key, value)] else []
  {
    forall e | e in Walk(key) ensures Rooted(e) && KeyIsBelow(e, key) {
      WalkRooted(key, e);
      WalkIs(key, e);
    }
    WalkIs(key, if d.Some? then d.value else "/");
    hide KeyIsBelow, ValidKey, Walk;
    D.OneMessage(n, Walk(key), service, key, value, d);
  }

  /** And that message makes exactly one callback. */
  lemma ExactlyOneCallback(n: D.Notifications, service: string, dirs: Dirs, byDir: E.ByDir, byId: E.ById, key: string,
                           value: Option<Value>)
    requires AllRooted(dirs) && Topmost(dirs) && Linked(dirs, byDir, byId) && E.ServerAgrees(n, service, byDir)
    requires ValidKey(key) && key != "/"
    ensures E.Callbacks(byDir, D.Received(n, Walk(key), service, key, value)) == if Monitored(dirs, key) then 1 else 0
  {
    var d := ExactlyOneMessage(n, service, dirs, byDir, byId, key, value);
    if d.Some? {
      var q := [D.Notify(d.value, key, value)];
      assert q[1..] == [];
      assert E.Callbacks(byDir, []) == 0;
    }
  }

  // A change at the server keeps coherence

  /** What a client is sent for a change: nothing if it does not watch the key, else messages with the
      new value. */
  ghost predicate Tells(dirs: Dirs, ms: seq<D.Notify>, key: string, value: Option<Value>) {
    && (Monitored(dirs, key) <==> ms != [])
    && Sent(dirs, ms)
    && forall i :: 0 <= i < |ms| ==> ms[i].key == key && ms[i].value == value
  }

  lemma TellsFew(dirs: Dirs, ms: seq<D.Notify>, d: Option<string>, key: string, value: Option<Value>)
    requires Rooted(key) && (d.Some? <==> Monitored(dirs, key))
    requires if d.Some? then Registered(dirs, d.value) && KeyIsBelow(d.value, key) && ms != [] else ms == []
    requires forall i :: 0 <= i < |ms| ==> d == Some(ms[i].dir) && ms[i].key == key && ms[i].value == value
    ensures Tells(dirs, ms, key, value)
  {
  }

  lemma ChangeTells(n: D.Notifications, service: string, dirs: Dirs, byDir: E.ByDir, byId: E.ById, key: string,
                    value: Option<Value>)
    requires AllRooted(dirs) && Topmost(dirs) && Linked(dirs, byDir, byId) && E.ServerAgrees(n, service, byDir)
    requires ValidKey(key)
    ensures Tells(dirs, D.Received(n, Walk(key), service, key, value), key, value)
  {
    if key == "/" {
      RootTells(n, service, dirs, byDir, byId, value);
    } else {
      var d := ExactlyOneMessage(n, service, dirs, byDir, byId, key, value);
      hide AllRooted, Topmost, Linked, E.ServerAgrees, D.Received, Walk;
      TellsFew(dirs, if d.Some? then [D.Notify(d.value, key, value)] else [], d, key, value);
    }
  }

  lemma RootTells(n: D.Notifications, service: string, dirs: Dirs, byDir: E.ByDir, byId: E.ById, value: Option<Value>)
    requires AllRooted(dirs) && Topmost(dirs) && Linked(dirs, byDir, byId) && E.ServerAgrees(n, service, byDir)
    ensures Tells(dirs, D.Received(n, Walk("/"), service, "/", value), "/", value)
  {
    var d := WatchedIsAnswered(dirs, "/");
    CountsOnWalk(n, service, dirs, byDir, byId, "/", d);
    if d.Some? {
      KeyIsBelowIs(d.value, "/");
      KeyOfComponents(d.value);
    }
    hide AllRooted, Topmost, Linked, E.ServerAgrees;
    var k := multiset(D.Clients(n, "/"))[service];
    var m := D.Notify("/", "/", value);
    ReceivedTwice(n, service, value);
    D.RepeatFew(m);
    TellsFew(dirs, if d.Some? then [m] + [m] else [], d, "/", value);
  }

  lemma ReceivedTwice(n: D.Notifications, service: string, value: Option<Value>)
    ensures var one := D.Repeat(D.Notify("/", "/", value), multiset(D.Clients(n, "/"))[service]);
      D.Received(n, Walk("/"), service, "/", value) == one + one
  {
    WalkOfRoot();
    assert Walk("/")[1..] == ["/"] && Walk("/")[1..][1..] == [];
    assert D.Received(n, [], service, "/", value) == [];
    var one := D.Repeat(D.Notify("/", "/", value), multiset(D.Clients(n, "/"))[service]);
    assert D.Received(n, ["/"], service, "/", value) == one + [];
  }

  lemma ChangeCoherent(cmp: Comparison, dirs: Dirs, cache: Cache, q: seq<D.Notify>, ms: seq<D.Notify>,
                       before: map<string, Value>, after: map<string, Value>, defaults: map<string, Value>, key: string)
    requires Coherent(cmp, cache, q, before, defaults) && Sent(dirs, q) && CacheMonitored(dirs, cache)
    requires Tells(dirs, ms, key, D.Current(after, defaults, key))
    requires forall k :: k != key ==> D.Current(after, defaults, k) == D.Current(before, defaults, k)
    ensures Coherent(cmp, cache, q + ms, after, defaults) && Sent(dirs, q + ms)
  {
    forall i | 0 <= i < |q| && q[i].key == key ensures ms != [] { assert Monitored(dirs, key); }
    forall k
      ensures match LastFor(q + ms, k)
        case Some(m) => m.value == D.Current(after, defaults, k)
        case None => k in cache ==> cmp.SameValue(cache[k].value, D.Current(after, defaults, k))
    {
      LastForAppend(q, ms, k);
      LastForIs(ms, k);
      LastForIs(q, k);
    }
  }

  /** Handling the oldest message keeps coherence. */
  lemma DeliverCoherent(cmp: Comparison, cache: Cache, q: seq<D.Notify>, values: map<string, Value>,
                        defaults: map<string, Value>, entry: Entry)
    requires q != [] && Coherent(cmp, cache, q, values, defaults)
    requires cmp.SameValue(entry.value, q[0].value)
    ensures Coherent(cmp, cache[q[0].key := entry], q[1..], values, defaults)
  {
    forall k
      ensures match LastFor(q[1..], k)
        case Some(m) => m.value == D.Current(values, defaults, k)
        case None => k in cache[q[0].key := entry] ==>
          cmp.SameValue(cache[q[0].key := entry][k].value, D.Current(values, defaults, k))
    {
      assert LastFor(q[1..], k).None? && k == q[0].key ==> LastFor(q, k) == Some(q[0]);
    }
  }

  // Changing directories while messages are under way

  /** Watching a directory above one that a message was sent for leaves that message without a
      connection to call. */
  lemma DroppedIsDeaf(dirs: Dirs, name: string, dir: Dir, byDir: E.ByDir, byId: E.ById, m: D.Notify)
    requires Linked(Dropped(dirs, name)[name := dir], byDir, byId)
    requires KeyIsBelow(name, m.dir) && m.dir != name
    ensures E.Callbacks(byDir, [m]) == 0
  {
    assert !Registered(Dropped(dirs, name)[name := dir], m.dir);
    assert [m][1..] == [];
    assert E.Callbacks(byDir, []) == 0;
  }

  /** The messages that still have a connection to call. */
  function Heard(dirs: Dirs, q: seq<D.Notify>): seq<D.Notify> {
    if q == [] then []
    else (if Registered(dirs, q[0].dir) then [q[0]] else []) + Heard(dirs, q[1..])
  }

  ghost predicate AllFrom(q: seq<D.Notify>, key: string, dir: string) {
    forall i :: 0 <= i < |q| && q[i].key == key ==> q[i].dir == dir
  }

  lemma {:induction false} LastHeard(dirs: Dirs, q: seq<D.Notify>, key: string, dir: string)
    requires AllFrom(q, key, dir)
    ensures LastFor(q, key).Some? ==> LastFor(q, key).value.dir == dir
    ensures LastFor(Heard(dirs, q), key) == if Registered(dirs, dir) then LastFor(q, key) else None
  {
    if q != [] {
      LastHeard(dirs, q[1..], key, dir);
      var rest := Heard(dirs, q[1..]);
      if Registered(dirs, q[0].dir) {
        assert ([q[0]] + rest)[1..] == rest;
      } else {
        assert [] + rest == rest;
      }
    }
  }

  /** Whatever is under way, losing the messages for directories that are no longer registered is harmless
      exactly if each cached key whose last message is among them has its value already. */
  lemma DroppedQueue(cmp: Comparison, dirs: Dirs, after: Dirs, cache: Cache, q: seq<D.Notify>,
                     values: map<string, Value>, defaults: map<string, Value>)
    requires AllRooted(dirs) && Antichain(dirs) && Sent(dirs, q) && Coherent(cmp, cache, q, values, defaults)
    ensures Coherent(cmp, cache, Heard(after, q), values, defaults) <==>
      forall key :: key in cache && LastFor(q, key).Some? && !Registered(after, LastFor(q, key).value.dir) ==>
        cmp.SameValue(cache[key].value, LastFor(q, key).value.value)
  {
    forall key
      ensures LastFor(Heard(after, q), key) ==
        if LastFor(q, key).Some? && Registered(after, LastFor(q, key).value.dir) then LastFor(q, key) else None
    {
      if i :| 0 <= i < |q| && q[i].key == key {
        forall j | 0 <= j < |q| && q[j].key == key ensures q[j].dir == q[i].dir {
          OneAbove(dirs, q[i].dir, q[j].dir, key);
        }
        LastHeard(after, q, key, q[i].dir);
      } else {
        LastHeard(after, q, key, "");
      }
      LastForIs(q, key);
    }
  }

  /** Losing the oldest message is harmless exactly when a later one for its key is under way, or the
      key is not cached, or the cached value is the same already. */
  lemma LostMessage(cmp: Comparison, cache: Cache, q: seq<D.Notify>, values: map<string, Value>, defaults: map<string, Value>)
    requires q != [] && Coherent(cmp, cache, q, values, defaults)
    ensures var m := q[0];
      Coherent(cmp, cache, q[1..], values, defaults) <==>
        LastFor(q[1..], m.key).Some? || m.key !in cache || cmp.SameValue(cache[m.key].value, m.value)
  {
    var m := q[0];
    assert LastFor(q[1..], m.key).None? ==> LastFor(q, m.key) == Some(m);
    forall k | k != m.key ensures LastFor(q, k) == LastFor(q[1..], k) {}
  }

  /** So it is when the only message for a cached key brings another value. */
  lemma LostMessageExample(cmp: Comparison, dir: string, key: string, before: Value, after: Value)
    requires cmp.Reflexive() && !cmp.same(before, after)
    ensures var cache: Cache := map[key := Entry(Some(before), false, true, None)];
      var q := [D.Notify(dir, key, Some(after))];
      && Coherent(cmp, cache, q, map[key := after], map[])
      && !Coherent(cmp, cache, q[1..], map[key := after], map[])
  {
    var cache: Cache := map[key := Entry(Some(before), false, true, None)];
    var m := D.Notify(dir, key, Some(after));
    assert [m][1..] == [];
    forall k ensures LastFor([m], k) == if k == key then Some(m) else None {}
    LostMessage(cmp, cache, [m], map[key := after], map[]);
  }
}
