/** The server side of notification: who listens where, the walk that finds whom to tell, and the
    messages under way. Keys and directories are strings. */
module Database {
  import opened Basics
  import opened Values
  import opened Keys
  import opened KeyWalk
  import opened CString

  type Notifications = map<string, seq<string>>

  /** A Notify message: the directory it was found under, the key and its new value. */
  datatype Notify = Notify(dir: string, key: string, value: Option<Value>)

  /** The messages sent to each client and not yet handled, oldest first. */
  type Queues = map<string, seq<Notify>>

  function Clients(n: Notifications, dir: string): seq<string> { if dir in n then n[dir] else [] }

  function Pending(q: Queues, client: string): seq<Notify> { if client in q then q[client] else [] }

  function Post(q: Queues, client: string, m: Notify): Queues { q[client := Pending(q, client) + [m]] }

  function PostEach(q: Queues, clients: seq<string>, m: Notify): Queues
    decreases |clients|
  {
    if clients == [] then q else PostEach(Post(q, clients[0], m), clients[1..], m)
  }

  function PostWalk(q: Queues, n: Notifications, dirs: seq<string>, key: string, value: Option<Value>): Queues
    decreases |dirs|
  {
    if dirs == [] then q
    else PostWalk(PostEach(q, Clients(n, dirs[0]), Notify(dirs[0], key, value)), n, dirs[1..], key, value)
  }

  function Repeat(m: Notify, k: nat): seq<Notify> { if k == 0 then [] else [m] + Repeat(m, k - 1) }

  /** What one client is sent for the directories met on a walk. */
  function Received(n: Notifications, dirs: seq<string>, client: string, key: string, value: Option<Value>): seq<Notify> {
    if dirs == [] then []
    else Repeat(Notify(dirs[0], key, value), multiset(Clients(n, dirs[0]))[client])
         + Received(n, dirs[1..], client, key, value)
  }

  lemma PostIs(q: Queues, client: string, m: Notify, c: string)
    ensures Pending(Post(q, client, m), c) == Pending(q, c) + if client == c then [m] else []
  {
  }

  lemma CountFirst(s: seq<string>, x: string)
    requires s != []
    ensures multiset(s)[x] == (if s[0] == x then 1 else 0) + multiset(s[1..])[x]
  {
    assert s == [s[0]] + s[1..];
  }

  lemma {:induction false} PostEachIs(q: Queues, clients: seq<string>, m: Notify, c: string)
    ensures Pending(PostEach(q, clients, m), c) == Pending(q, c) + Repeat(m, multiset(clients)[c])
    decreases |clients|
  {
    if clients != [] {
      var rest := Repeat(m, multiset(clients[1..])[c]);
      CountFirst(clients, c);
      PostEachIs(Post(q, clients[0], m), clients[1..], m, c);
      PostIs(q, clients[0], m, c);
      assert Repeat(m, multiset(clients)[c]) == (if clients[0] == c then [m] else []) + rest;
      hide Pending, Post, Repeat;
      var before := Pending(q, c);
      if clients[0] == c { assert (before + [m]) + rest == before + ([m] + rest); }
    }
  }

  /** Each client's queue grows by what it is sent, in the order of the walk. */
  lemma {:induction false} PostWalkIs(q: Queues, n: Notifications, dirs: seq<string>, key: string,
                                      value: Option<Value>, c: string)
    ensures Pending(PostWalk(q, n, dirs, key, value), c) == Pending(q, c) + Received(n, dirs, c, key, value)
    decreases |dirs|
  {
    if dirs != [] {
      var q1 := PostEach(q, Clients(n, dirs[0]), Notify(dirs[0], key, value));
      PostEachIs(q, Clients(n, dirs[0]), Notify(dirs[0], key, value), c);
      PostWalkIs(q1, n, dirs[1..], key, value, c);
    }
  }

  lemma {:induction false} PostWalkAppend(q: Queues, n: Notifications, a: seq<string>, d: string, key: string,
                                          value: Option<Value>)
    ensures PostWalk(q, n, a + [d], key, value)
      == PostEach(PostWalk(q, n, a, key, value), Clients(n, d), Notify(d, key, value))
    decreases |a|
  {
    if a == [] {
      assert a + [d] == [d];
      assert [d][1..] == [];
    } else {
      assert (a + [d])[1..] == a[1..] + [d];
      PostWalkAppend(PostEach(q, Clients(n, a[0]), Notify(a[0], key, value)), n, a[1..], d, key, value);
    }
  }

  lemma {:induction false} PostEachAppend(q: Queues, a: seq<string>, c: string, m: Notify)
    ensures PostEach(q, a + [c], m) == Post(PostEach(q, a, m), c, m)
    decreases |a|
  {
    if a == [] {
      assert a + [c] == [c];
      assert [c][1..] == [];
    } else {
      assert (a + [c])[1..] == a[1..] + [c];
      PostEachAppend(Post(q, a[0], m), a[1..], c, m);
    }
  }

  // How many messages

  lemma {:induction false} RepeatIs(m: Notify, k: nat, x: Notify)
    ensures multiset(Repeat(m, k))[x] == if x == m then k else 0
  {
    if k > 0 { RepeatIs(m, k - 1, x); }
  }

  lemma {:induction false} ReceivedNone(n: Notifications, dirs: seq<string>, c: string, key: string,
                                        value: Option<Value>, x: Notify)
    requires x.dir !in dirs || x.key != key || x.value != value
    ensures multiset(Received(n, dirs, c, key, value))[x] == 0
  {
    if dirs != [] {
      RepeatIs(Notify(dirs[0], key, value), multiset(Clients(n, dirs[0]))[c], x);
      ReceivedNone(n, dirs[1..], c, key, value, x);
    }
  }

  lemma {:induction false} ReceivedCount(n: Notifications, dirs: seq<string>, c: string, key: string,
                                         value: Option<Value>, d: string)
    requires NoDup(dirs) && d in dirs
    ensures multiset(Received(n, dirs, c, key, value))[Notify(d, key, value)] == multiset(Clients(n, d))[c]
  {
    var x := Notify(d, key, value);
    RepeatIs(Notify(dirs[0], key, value), multiset(Clients(n, dirs[0]))[c], x);
    if dirs[0] == d {
      assert d !in dirs[1..];
      ReceivedNone(n, dirs[1..], c, key, value, x);
    } else {
      ReceivedCount(n, dirs[1..], c, key, value, d);
    }
  }

  /** A change of a key tells a client once for each time it listens at the key or above it, and
      nothing for other directories. A change of the root key itself tells everything twice. */
  lemma MessagesPerDirectory(n: Notifications, c: string, key: string, value: Option<Value>, d: string)
    requires ValidKey(key) && Rooted(d)
    ensures var sent := multiset(Received(n, Walk(key), c, key, value))[Notify(d, key, value)];
      if !KeyIsBelow(d, key) then sent == 0
      else if key == "/" then sent == 2 * multiset(Clients(n, d))[c]
      else sent == multiset(Clients(n, d))[c]
  {
    assert Rooted(key);
    hide KeyIsBelow, ValidKey, Walk, Rooted;
    WalkIs(key, d);
    if !KeyIsBelow(d, key) {
      ReceivedNone(n, Walk(key), c, key, value, Notify(d, key, value));
    } else if key == "/" {
      var x := Notify("/", key, value);
      var k := multiset(Clients(n, "/"))[c];
      RepeatIs(x, k, x);
      assert Walk(key)[1..] == ["/"] && Walk(key)[1..][1..] == [];
      assert Received(n, [], c, key, value) == [];
      assert Received(n, Walk(key), c, key, value) == Repeat(x, k) + (Repeat(x, k) + []);
    } else {
      ReceivedCount(n, Walk(key), c, key, value, d);
    }
  }

  lemma RepeatFew(m: Notify)
    ensures Repeat(m, 0) == [] && Repeat(m, 1) == [m]
  {
  }

  /** When at most one directory of a walk has the client, once, it is sent at most one message. */
  lemma {:induction false} OneMessage(n: Notifications, dirs: seq<string>, c: string, key: string,
                                      value: Option<Value>, d: Option<string>)
    requires NoDup(dirs) && (d.Some? ==> d.value in dirs)
    requires forall e :: e in dirs ==> multiset(Clients(n, e))[c] == if d == Some(e) then 1 else 0
    ensures Received(n, dirs, c, key, value) == if d.Some? then [Notify(d.value, key, value)] else []
  {
    if dirs != [] {
      assert dirs == [dirs[0]] + dirs[1..] && dirs[0] !in dirs[1..];
      var k := multiset(Clients(n, dirs[0]))[c];
      var m := Notify(dirs[0], key, value);
      RepeatFew(m);
      hide Repeat, Clients, NoDup;
      OneMessage(n, dirs[1..], c, key, value, if d == Some(dirs[0]) then None else d);
    }
  }

  // Adding and removing listeners

  function RemoveFirst(s: seq<string>, x: string): seq<string> {
    if s == [] then [] else if s[0] == x then s[1..] else [s[0]] + RemoveFirst(s[1..], x)
  }

  lemma {:induction false} RemoveFirstCounts(s: seq<string>, x: string, y: string)
    ensures multiset(RemoveFirst(s, x))[y] == if x == y && x in s then multiset(s)[y] - 1 else multiset(s)[y]
  {
    if s != [] {
      assert s == [s[0]] + s[1..];
      if s[0] != x { RemoveFirstCounts(s[1..], x, y); }
    }
  }

  function WithClient(n: Notifications, dir: string, c: string): Notifications { n[dir := [c] + Clients(n, dir)] }

  function WithoutClient(n: Notifications, dir: string, c: string): Notifications {
    var left := RemoveFirst(Clients(n, dir), c);
    if dir !in n then n else if left == [] then n - {dir} else n[dir := left]
  }

  lemma WithClientCounts(n: Notifications, dir: string, c: string, d: string, x: string)
    ensures multiset(Clients(WithClient(n, dir, c), d))[x]
      == multiset(Clients(n, d))[x] + if d == dir && x == c then 1 else 0
  {
    assert multiset([c] + Clients(n, dir)) == multiset{c} + multiset(Clients(n, dir));
  }

  lemma WithoutClientCounts(n: Notifications, dir: string, c: string, d: string, x: string)
    ensures multiset(Clients(WithoutClient(n, dir, c), d))[x]
      == if d == dir && x == c && c in Clients(n, dir) then multiset(Clients(n, d))[x] - 1 else multiset(Clients(n, d))[x]
  {
    RemoveFirstCounts(Clients(n, dir), c, x);
  }

  /** The directories of the walk that are still to be looked up. */
  function ToVisit(name: string, last: bool, stop: bool): seq<string>
    requires Rooted(name)
  {
    if stop then [] else if last then [name] else Walk(name)
  }

  /** One client has so many registrations more at one directory, and all others as many as before. */
  ghost predicate CountsBy(before: Notifications, after: Notifications, dir: string, c: string, more: int) {
    forall d: string, x: string ::
      (multiset(Clients(after, d))[x] == multiset(Clients(before, d))[x] + if d == dir && x == c then more else 0)
  }

  lemma WithClientBy(n: Notifications, dir: string, c: string)
    ensures CountsBy(n, WithClient(n, dir, c), dir, c, 1)
  {
    hide WithClient, Clients;
    forall d: string, x: string
      ensures multiset(Clients(WithClient(n, dir, c), d))[x] == multiset(Clients(n, d))[x] + if d == dir && x == c then 1 else 0
    {
      WithClientCounts(n, dir, c, d, x);
    }
  }

  lemma WithoutClientBy(n: Notifications, dir: string, c: string)
    ensures CountsBy(n, n, dir, c, 0)
    ensures CountsBy(n, WithoutClient(n, dir, c), dir, c, if c in Clients(n, dir) then -1 else 0)
  {
    hide WithoutClient, Clients;
    var more: int := if c in Clients(n, dir) then -1 else 0;
    forall d: string, x: string
      ensures multiset(Clients(WithoutClient(n, dir, c), d))[x] ==
        multiset(Clients(n, d))[x] + if d == dir && x == c then more else 0
    {
      WithoutClientCounts(n, dir, c, d, x);
    }
  }

  /** Cut the directory in the buffer at its last slash; if that is the first character, keep it. */
  method Chop(buffer: array<char>, ghost name: string) returns (atRoot: bool)
    requires Rooted(name) && Holds(buffer, name)
    modifies buffer
    ensures atRoot <==> LastSlash(name) == 0
    ensures Holds(buffer, if atRoot then "/" else name[..LastSlash(name)])
  {
    TextIs(buffer[..], name);
    var dir := Text(buffer[..]);
    var sep := LastSlash(dir);
    atRoot := sep == 0;
    if atRoot {
      buffer[1] := '\0';
    } else {
      buffer[sep] := '\0';
      assert forall c :: c in name[..sep] ==> c in name;
    }
  }

  lemma VisitNone(name: string, last: bool)
    requires Rooted(name)
    ensures ToVisit(name, last, true) == []
  {
  }

  lemma VisitNext(name: string, last: bool)
    requires Rooted(name)
    ensures ToVisit(name, last, false) ==
      [name] + (if last then ToVisit(name, last, true)
                else if LastSlash(name) == 0 then ToVisit("/", true, false)
                else ToVisit(name[..LastSlash(name)], false, false))
  {
  }

  lemma Regroup(done: seq<string>, d: string, rest: seq<string>)
    requires rest != [] && rest[0] == d
    ensures done + rest == (done + [d]) + rest[1..]
  {
  }

  /** The end of a round of the walk. */
  method Advance(dir: array<char>, last: bool, ghost done: seq<string>, ghost name: string)
    returns (last1: bool, stop1: bool, ghost done1: seq<string>, ghost name1: string)
    requires Rooted(name) && Holds(dir, name)
    modifies dir
    ensures Rooted(name1) && Holds(dir, name1)
    ensures done1 == done + [name]
    ensures done1 + ToVisit(name1, last1, stop1) == done + ToVisit(name, last, false)
    ensures stop1 || (!last && (last1 || |name1| < |name|))
  {
    VisitNext(name, last);
    Regroup(done, name, ToVisit(name, last, false));
    done1 := done + [name];
    last1, stop1, name1 := last, last, name;
    if !last {
      last1 := Chop(dir, name);
      name1 := if last1 then "/" else name[..LastSlash(name)];
    }
  }

  class Database {
    var notifications: Notifications
    var queues: Queues
    var values: map<string, Value>
    const defaults: map<string, Value>

    constructor (defaults: map<string, Value>)
      ensures notifications == map[] && queues == map[] && values == map[] && this.defaults == defaults
    {
      notifications, queues, values := map[], map[], map[];
      this.defaults := defaults;
    }

    /** What a query for a key answers. */
    function ValueOf(key: string): (r: Option<Value>)
      reads this
      ensures Answers(values, defaults, key, r)
    {
      Current(values, defaults, key)
    }

    /** database_handle_add_notify */
    method HandleAddNotify(sender: string, namespaceSection: string)
      modifies `notifications
      ensures notifications == WithClient(old(notifications), namespaceSection, sender)
      ensures CountsBy(old(notifications), notifications, namespaceSection, sender, 1)
    {
      WithClientBy(notifications, namespaceSection, sender);
      hide CountsBy;
      if namespaceSection !in notifications {
        notifications := notifications[namespaceSection := []];
      }
      notifications := notifications[namespaceSection := [sender] + notifications[namespaceSection]];
    }

    /** database_handle_remove_notify */
    method HandleRemoveNotify(sender: string, namespaceSection: string) returns (existed: bool)
      modifies `notifications
      ensures notifications == WithoutClient(old(notifications), namespaceSection, sender)
        || (!existed && notifications == old(notifications))
      ensures existed <==> sender in Clients(old(notifications), namespaceSection)
      ensures CountsBy(old(notifications), notifications, namespaceSection, sender, if existed then -1 else 0)
    {
      WithoutClientBy(notifications, namespaceSection, sender);
      hide CountsBy;
      if namespaceSection !in notifications { return false; }
      var clients := notifications[namespaceSection];
      var element := 0;
      while element < |clients| && clients[element] != sender
        invariant element <= |clients|
        invariant sender !in clients[..element]
        invariant RemoveFirst(clients, sender) == clients[..element] + RemoveFirst(clients[element..], sender)
      {
        element := element + 1;
      }
      if element == |clients| {
        assert clients[..element] == clients;
        return false;
      }
      assert clients[element] == sender;
      var left := clients[..element] + clients[element + 1..];
      notifications := if left == [] then notifications - {namespaceSection} else notifications[namespaceSection := left];
      return true;
    }

    /** gconf_database_dbus_notify_listeners */
    method NotifyListeners(key: string, value: Option<Value>)
      requires Rooted(key) && NulFree(key)
      modifies `queues
      ensures queues == PostWalk(old(queues), notifications, Walk(key), key, value)
    {
      var dir := Duplicate(key);
      var last, stop := false, false;
      ghost var done: seq<string> := [];
      ghost var name := key;
      assert queues == PostWalk(old(queues), notifications, done, key, value);
      hide PostWalk, PostEach, Walk, Holds, Text, LastSlash, ToVisit;
      while !stop
        invariant fresh(dir) && Rooted(name) && Holds(dir, name)
        invariant done + ToVisit(name, last, stop) == Walk(key)
        invariant queues == PostWalk(old(queues), notifications, done, key, value)
        decreases !stop, !last, |name|
      {
        HoldsText(dir, name);
        PostToSection(Text(dir[..]), key, value);
        PostWalkAppend(old(queues), notifications, done, name, key, value);
        last, stop, done, name := Advance(dir, last, done, name);
      }
      VisitNone(name, last);
      assert done + [] == done;
    }

    /** The messages for one directory. */
    method PostToSection(dir: string, key: string, value: Option<Value>)
      modifies `queues
      ensures queues == PostEach(old(queues), Clients(notifications, dir), Notify(dir, key, value))
    {
      if dir in notifications {
        var clients := notifications[dir];
        var l := 0;
        while l < |clients|
          invariant l <= |clients|
          invariant queues == PostEach(old(queues), clients[..l], Notify(dir, key, value))
        {
          PostEachAppend(old(queues), clients[..l], clients[l], Notify(dir, key, value));
          assert clients[..l + 1] == clients[..l] + [clients[l]];
          queues := Post(queues, clients[l], Notify(dir, key, value));
          l := l + 1;
        }
        assert clients[..l] == clients;
      }
    }

    /** gconf_database_set; the sources may refuse. */
    method Set(key: string, value: Value, accepted: bool)
      requires Rooted(key) && NulFree(key)
      modifies `values, `queues
      ensures values == if accepted then old(values)[key := value] else old(values)
      ensures queues == if accepted then PostWalk(old(queues), notifications, Walk(key), key, Some(value)) else old(queues)
      ensures accepted ==> Answers(values, defaults, key, Some(value))
      ensures forall k, r :: k != key || !accepted ==>
        (Answers(values, defaults, k, r) <==> Answers(old(values), defaults, k, r))
      ensures Told(old(queues), queues, {key}, values, defaults)
    {
      if accepted {
        values := values[key := value];
        WalkTells(queues, notifications, Walk(key), key, Some(value), values, defaults);
        NotifyListeners(key, Some(value));
      }
    }

    /** gconf_database_unset: the new value is the default. */
    method Unset(key: string, accepted: bool)
      requires Rooted(key) && NulFree(key)
      modifies `values, `queues
      ensures values == if accepted then old(values) - {key} else old(values)
      ensures queues ==
        if accepted then PostWalk(old(queues), notifications, Walk(key), key, Current(values, defaults, key)) else old(queues)
      ensures accepted ==> Answers(values, defaults, key, if key in defaults then Some(defaults[key]) else None)
      ensures forall k, r :: k != key || !accepted ==>
        (Answers(values, defaults, k, r) <==> Answers(old(values), defaults, k, r))
      ensures Told(old(queues), queues, {key}, values, defaults)
    {
      if accepted {
        values := values - {key};
        WalkTells(queues, notifications, Walk(key), key, Current(values, defaults, key), values, defaults);
        NotifyListeners(key, Current(values, defaults, key));
      }
    }

    /** gconf_database_recursive_unset of these keys: all are unset before the first is notified. */
    method RecursiveUnset(keys: seq<string>)
      requires forall i :: 0 <= i < |keys| ==> Rooted(keys[i]) && NulFree(keys[i])
      modifies `values, `queues
      ensures values == old(values) - (set k | k in keys)
      ensures queues == PostKeys(old(queues), notifications, keys, values, defaults)
      ensures forall k :: k in keys ==> Answers(values, defaults, k, if k in defaults then Some(defaults[k]) else None)
      ensures forall k, r :: k !in keys ==> (Answers(values, defaults, k, r) <==> Answers(old(values), defaults, k, r))
      ensures Told(old(queues), queues, (set k | k in keys), values, defaults)
    {
      KeysTell(queues, notifications, keys, (set k | k in keys), values - (set k | k in keys), defaults);
      UnsetAnswers(values, keys, defaults);
      hide Answers, Told, Current;
      values := values - (set k | k in keys);
      NotifyUnset(keys);
    }

    /** The notifications at its end, key by key. */
    method NotifyUnset(keys: seq<string>)
      requires forall i :: 0 <= i < |keys| ==> Rooted(keys[i]) && NulFree(keys[i])
      modifies `queues
      ensures queues == PostKeys(old(queues), notifications, keys, values, defaults)
    {
      hide PostWalk, Current;
      var tmp := 0;
      while tmp < |keys|
        invariant tmp <= |keys|
        invariant PostKeys(queues, notifications, keys[tmp..], values, defaults)
          == PostKeys(old(queues), notifications, keys, values, defaults)
      {
        NotifyListeners(keys[tmp], Current(values, defaults, keys[tmp]));
        tmp := tmp + 1;
      }
    }
  }

  function Current(values: map<string, Value>, defaults: map<string, Value>, key: string): Option<Value> {
    if key in values then Some(values[key]) else if key in defaults then Some(defaults[key]) else None
  }

  /** The answer for a key: what is set, else the default of its schema, else nothing. */
  predicate Answers(values: map<string, Value>, defaults: map<string, Value>, key: string, answer: Option<Value>) {
    && (key in values ==> answer == Some(values[key]))
    && (key !in values && key in defaults ==> answer == Some(defaults[key]))
    && (key !in values && key !in defaults ==> answer == None)
  }

  lemma UnsetAnswers(values: map<string, Value>, keys: seq<string>, defaults: map<string, Value>)
    ensures var left := values - (set k | k in keys);
      && (forall k :: k in keys ==> Answers(left, defaults, k, if k in defaults then Some(defaults[k]) else None))
      && forall k, r :: k !in keys ==> (Answers(left, defaults, k, r) <==> Answers(values, defaults, k, r))
  {
  }

  /** Every message sent in between is about one of these keys, and carries its answer. */
  ghost predicate Told(before: Queues, after: Queues, keys: set<string>, values: map<string, Value>,
                       defaults: map<string, Value>)
  {
    forall c: string ::
      && Pending(before, c) <= Pending(after, c)
      && forall i :: |Pending(before, c)| <= i < |Pending(after, c)| ==>
           Pending(after, c)[i].key in keys && Answers(values, defaults, Pending(after, c)[i].key, Pending(after, c)[i].value)
  }

  lemma {:induction false} RepeatAll(m: Notify, k: nat)
    ensures forall i :: 0 <= i < |Repeat(m, k)| ==> Repeat(m, k)[i] == m
  {
    if k > 0 { RepeatAll(m, k - 1); }
  }

  lemma {:induction false} ReceivedAll(n: Notifications, dirs: seq<string>, client: string, key: string, value: Option<Value>)
    ensures forall m :: m in Received(n, dirs, client, key, value) ==> m.key == key && m.value == value
  {
    if dirs != [] {
      RepeatAll(Notify(dirs[0], key, value), multiset(Clients(n, dirs[0]))[client]);
      ReceivedAll(n, dirs[1..], client, key, value);
    }
  }

  lemma WalkTells(q: Queues, n: Notifications, dirs: seq<string>, key: string, value: Option<Value>,
                  values: map<string, Value>, defaults: map<string, Value>)
    requires Answers(values, defaults, key, value)
    ensures Told(q, PostWalk(q, n, dirs, key, value), {key}, values, defaults)
  {
    hide Answers, PostWalk, Received, Pending;
    var after := PostWalk(q, n, dirs, key, value);
    forall c: string
      ensures Pending(q, c) <= Pending(after, c)
      ensures forall i :: |Pending(q, c)| <= i < |Pending(after, c)| ==>
        Pending(after, c)[i].key in {key} && Answers(values, defaults, Pending(after, c)[i].key, Pending(after, c)[i].value)
    {
      PostWalkIs(q, n, dirs, key, value, c);
      ReceivedAll(n, dirs, c, key, value);
      forall i | |Pending(q, c)| <= i < |Pending(after, c)|
        ensures Pending(after, c)[i].key == key && Pending(after, c)[i].value == value
      {
        assert Pending(after, c)[i] == Received(n, dirs, c, key, value)[i - |Pending(q, c)|];
      }
    }
  }

  lemma ToldMore(a: Queues, b: Queues, c: Queues, k1: set<string>, k2: set<string>, keys: set<string>,
                 values: map<string, Value>, defaults: map<string, Value>)
    requires Told(a, b, k1, values, defaults) && Told(b, c, k2, values, defaults) && k1 <= keys && k2 <= keys
    ensures Told(a, c, keys, values, defaults)
  {
    hide Answers, Pending;
    forall x: string
      ensures Pending(a, x) <= Pending(c, x)
      ensures forall i :: |Pending(a, x)| <= i < |Pending(c, x)| ==>
        Pending(c, x)[i].key in keys && Answers(values, defaults, Pending(c, x)[i].key, Pending(c, x)[i].value)
    {
      forall i | |Pending(a, x)| <= i < |Pending(c, x)|
        ensures Pending(c, x)[i].key in keys && Answers(values, defaults, Pending(c, x)[i].key, Pending(c, x)[i].value)
      {
        if i < |Pending(b, x)| { assert Pending(c, x)[i] == Pending(b, x)[i]; }
      }
    }
  }

  lemma {:induction false} KeysTell(q: Queues, n: Notifications, keys: seq<string>, all: set<string>,
                                    values: map<string, Value>, defaults: map<string, Value>)
    requires forall i :: 0 <= i < |keys| ==> Rooted(keys[i]) && keys[i] in all
    ensures Told(q, PostKeys(q, n, keys, values, defaults), all, values, defaults)
    decreases |keys|
  {
    if keys != [] {
      var first := PostWalk(q, n, Walk(keys[0]), keys[0], Current(values, defaults, keys[0]));
      WalkTells(q, n, Walk(keys[0]), keys[0], Current(values, defaults, keys[0]), values, defaults);
      KeysTell(first, n, keys[1..], all, values, defaults);
      hide Told, Current, PostWalk;
      ToldMore(q, first, PostKeys(first, n, keys[1..], values, defaults), {keys[0]}, all, all, values, defaults);
    }
  }

  function PostKeys(q: Queues, n: Notifications, keys: seq<string>, values: map<string, Value>,
                    defaults: map<string, Value>): Queues
    requires forall i :: 0 <= i < |keys| ==> Rooted(keys[i])
    decreases |keys|
  {
    if keys == [] then q
    else PostKeys(PostWalk(q, n, Walk(keys[0]), keys[0], Current(values, defaults, keys[0])), n, keys[1..], values, defaults)
  }
}
