/** The client library's side of notification: connections by directory and by id, kept in step with
    the server's table. */
module Engine {
  import opened Basics
  import opened Values
  import opened Keys
  import opened KeyWalk
  import opened Database

  type ByDir = map<string, seq<nat>>
  type ById = map<nat, string>

  function Cnxns(byDir: ByDir, dir: string): seq<nat> { if dir in byDir then byDir[dir] else [] }

  /** The two tables list the same connections, each id once, and ids to come are free. */
  ghost predicate TablesAgree(byDir: ByDir, byId: ById, nextId: nat) {
    && nextId > 0
    && (forall d, i :: i in Cnxns(byDir, d) <==> i in byId && byId[i] == d)
    && (forall d :: NoDup(Cnxns(byDir, d)))
    && (forall d :: d in byDir ==> byDir[d] != [])
    && (forall i :: i in byId ==> 0 < i < nextId)
  }

  /** The server lists this client at a directory once for each connection there. */
  ghost predicate ServerAgrees(n: Notifications, service: string, byDir: ByDir) {
    forall d :: multiset(Clients(n, d))[service] == |Cnxns(byDir, d)|
  }

  lemma {:induction false} WithoutIs(s: seq<nat>, x: nat)
    requires NoDup(s)
    ensures NoDup(Without(s, x)) && (forall y :: y in Without(s, x) <==> y in s && y != x)
    ensures |Without(s, x)| == if x in s then |s| - 1 else |s|
  {
    if s != [] {
      WithoutIs(s[1..], x);
      assert s[0] !in s[1..];
      assert forall y :: y in s <==> y == s[0] || y in s[1..];
      if s[0] != x {
        var rest := Without(s[1..], x);
        assert s[0] !in rest;
        forall i, j | 0 <= i < j < |[s[0]] + rest| ensures ([s[0]] + rest)[i] != ([s[0]] + rest)[j] {
          assert ([s[0]] + rest)[j] == rest[j - 1] && rest[j - 1] in rest;
        }
      }
    }
  }

  function Inserted(byDir: ByDir, dir: string, id: nat): ByDir { byDir[dir := [id] + Cnxns(byDir, dir)] }

  function Deleted(byDir: ByDir, dir: string, id: nat): ByDir {
    var left := Without(Cnxns(byDir, dir), id);
    if left == [] then byDir - {dir} else byDir[dir := left]
  }

  lemma NewIdUnused(byDir: ByDir, byId: ById, nextId: nat, dir: string)
    requires TablesAgree(byDir, byId, nextId)
    ensures nextId !in Cnxns(byDir, dir)
  {
    forall i | i in Cnxns(byDir, dir) ensures i < nextId { assert i in byId; }
  }

  lemma InsertAgrees(byDir: ByDir, byId: ById, nextId: nat, dir: string)
    requires TablesAgree(byDir, byId, nextId)
    ensures TablesAgree(Inserted(byDir, dir, nextId), byId[nextId := dir], nextId + 1)
  {
    var byDir1 := Inserted(byDir, dir, nextId);
    forall d ensures NoDup(Cnxns(byDir1, d)) {
      assert NoDup(Cnxns(byDir, d));
      if d == dir {
        var old_ := Cnxns(byDir, dir);
        NewIdUnused(byDir, byId, nextId, dir);
        forall i, j | 0 <= i < j < |[nextId] + old_| ensures ([nextId] + old_)[i] != ([nextId] + old_)[j] {
          assert ([nextId] + old_)[j] == old_[j - 1] && old_[j - 1] in old_;
        }
      }
    }
    forall d, i ensures i in Cnxns(byDir1, d) <==> i in byId[nextId := dir] && byId[nextId := dir][i] == d {
      assert i in Cnxns(byDir, d) <==> i in byId && byId[i] == d;
    }
  }

  lemma DeleteAgrees(byDir: ByDir, byId: ById, nextId: nat, id: nat)
    requires TablesAgree(byDir, byId, nextId) && id in byId
    ensures TablesAgree(Deleted(byDir, byId[id], id), byId - {id}, nextId)
    ensures forall d :: |Cnxns(Deleted(byDir, byId[id], id), d)| == |Cnxns(byDir, d)| - if d == byId[id] then 1 else 0
  {
    var dir := byId[id];
    var byDir1 := Deleted(byDir, dir, id);
    assert id in Cnxns(byDir, dir);
    WithoutIs(Cnxns(byDir, dir), id);
    forall d, i ensures i in Cnxns(byDir1, d) <==> i in byId - {id} && (byId - {id})[i] == d {
      assert i in Cnxns(byDir, d) <==> i in byId && byId[i] == d;
    }
    forall d ensures NoDup(Cnxns(byDir1, d)) { assert NoDup(Cnxns(byDir, d)); }
  }

  lemma AddServerAgrees(n: Notifications, service: string, byDir: ByDir, dir: string, id: nat)
    requires ServerAgrees(n, service, byDir)
    ensures ServerAgrees(WithClient(n, dir, service), service, Inserted(byDir, dir, id))
  {
    var n1, byDir1 := WithClient(n, dir, service), Inserted(byDir, dir, id);
    forall d ensures multiset(Clients(n1, d))[service] == |Cnxns(byDir1, d)| {
      WithClientCounts(n, dir, service, d, service);
      assert multiset(Clients(n, d))[service] == |Cnxns(byDir, d)|;
    }
  }

  lemma RemoveServerAgrees(n: Notifications, service: string, byDir: ByDir, byDir1: ByDir, dir: string)
    requires ServerAgrees(n, service, byDir) && Cnxns(byDir, dir) != []
    requires forall d :: |Cnxns(byDir1, d)| == |Cnxns(byDir, d)| - if d == dir then 1 else 0
    ensures ServerAgrees(WithoutClient(n, dir, service), service, byDir1) && service in Clients(n, dir)
  {
    assert multiset(Clients(n, dir))[service] == |Cnxns(byDir, dir)| > 0;
    assert service in multiset(Clients(n, dir));
    var n1 := WithoutClient(n, dir, service);
    forall d ensures multiset(Clients(n1, d))[service] == |Cnxns(byDir1, d)| {
      WithoutClientCounts(n, dir, service, d, service);
      assert multiset(Clients(n, d))[service] == |Cnxns(byDir, d)|;
    }
  }

  /** Taking back a connection just made leaves nothing of it. */
  lemma InsertUndone(byDir: ByDir, byId: ById, nextId: nat, dir: string)
    requires TablesAgree(byDir, byId, nextId)
    ensures Deleted(Inserted(byDir, dir, nextId), dir, nextId) == byDir && byId[nextId := dir] - {nextId} == byId
    ensures nextId in Cnxns(Inserted(byDir, dir, nextId), dir)
  {
    var before := Cnxns(byDir, dir);
    NewIdUnused(byDir, byId, nextId, dir);
    assert Without([nextId] + before, nextId) == before;
  }

  class Engine {
    const service: string
    const db: Database
    var notifyDirs: ByDir
    var notifyIds: ById
    var nextId: nat

    constructor (service: string, db: Database)
      ensures this.service == service && this.db == db
      ensures notifyDirs == map[] && notifyIds == map[] && nextId == 1
    {
      this.service, this.db := service, db;
      notifyDirs, notifyIds, nextId := map[], map[], 1;
    }

    ghost predicate Valid()
      reads this, db`notifications
    {
      TablesAgree(notifyDirs, notifyIds, nextId) && ServerAgrees(db.notifications, service, notifyDirs)
    }

    /** gconf_cnxn_insert */
    method InsertCnxn(dir: string, id: nat)
      modifies `notifyDirs, `notifyIds
      ensures notifyDirs == Inserted(old(notifyDirs), dir, id) && notifyIds == old(notifyIds)[id := dir]
      ensures Cnxns(notifyDirs, dir) == [id] + Cnxns(old(notifyDirs), dir)
      ensures forall d :: d != dir ==> Cnxns(notifyDirs, d) == Cnxns(old(notifyDirs), d)
    {
      if dir !in notifyDirs { notifyDirs := notifyDirs[dir := []]; }
      notifyDirs := notifyDirs[dir := [id] + notifyDirs[dir]];
      notifyIds := notifyIds[id := dir];
    }

    /** gconf_cnxn_remove */
    method RemoveCnxn(id: nat)
      requires id in notifyIds && notifyIds[id] in notifyDirs
      modifies `notifyDirs, `notifyIds
      ensures notifyDirs == Deleted(old(notifyDirs), old(notifyIds)[id], id) && notifyIds == old(notifyIds) - {id}
    {
      var dir := notifyIds[id];
      notifyIds := notifyIds - {id};
      notifyDirs := notifyDirs[dir := Without(notifyDirs[dir], id)];
      if notifyDirs[dir] == [] { notifyDirs := notifyDirs - {dir}; }
    }

    /** gconf_engine_notify_add; the request to the server may fail, and then nothing stays. */
    method NotifyAdd(dir: string, reachable: bool) returns (id: nat)
      requires Valid()
      modifies this`notifyDirs, this`notifyIds, this`nextId, db`notifications
      ensures Valid() && nextId == old(nextId) + 1
      ensures if reachable then
          id == old(nextId) && notifyDirs == Inserted(old(notifyDirs), dir, id) && notifyIds == old(notifyIds)[id := dir]
          && db.notifications == WithClient(old(db.notifications), dir, service)
        else id == 0 && notifyDirs == old(notifyDirs) && notifyIds == old(notifyIds)
             && db.notifications == old(db.notifications)
    {
      ghost var byDir, byId := notifyDirs, notifyIds;
      InsertAgrees(byDir, byId, nextId, dir);
      id := nextId;
      nextId := nextId + 1;
      InsertCnxn(dir, id);
      AddServerAgrees(db.notifications, service, byDir, dir, id);
      InsertUndone(byDir, byId, id, dir);
      hide TablesAgree, ServerAgrees, Deleted, WithClient, Cnxns;
      if reachable {
        db.HandleAddNotify(service, dir);
      } else {
        assert id in notifyIds && notifyIds[id] == dir;
        RemoveCnxn(id);
        assert notifyIds == byId && notifyDirs == byDir;
        id := 0;
      }
    }

    /** gconf_engine_notify_remove of a connection in use. */
    method NotifyRemove(id: nat)
      requires Valid() && id in notifyIds
      modifies this`notifyDirs, this`notifyIds, db`notifications
      ensures Valid()
      ensures notifyDirs == Deleted(old(notifyDirs), old(notifyIds)[id], id) && notifyIds == old(notifyIds) - {id}
    {
      ghost var byDir, byId, before := notifyDirs, notifyIds, db.notifications;
      var dir := notifyIds[id];
      assert id in Cnxns(byDir, dir);
      DeleteAgrees(byDir, byId, nextId, id);
      RemoveServerAgrees(before, service, byDir, Deleted(byDir, dir, id), dir);
      RemoveCnxn(id);
      hide TablesAgree, ServerAgrees, Deleted, WithoutClient, Cnxns, Clients;
      var existed := db.HandleRemoveNotify(service, dir);
    }

    /** The callbacks that handle_notify makes for a message: each connection found at the message's
        directory is called. */
    method Matches(m: Notify) returns (called: seq<nat>)
      requires Valid()
      ensures called == Cnxns(notifyDirs, m.dir)
    {
      called := [];
      var list := Cnxns(notifyDirs, m.dir);
      var l := 0;
      while l < |list|
        invariant l <= |list| && called == list[..l]
      {
        assert list[l] in list;
        var cnxn := notifyIds[list[l]];
        if cnxn == m.dir { called := called + [list[l]]; }
        l := l + 1;
      }
    }
  }

  /** The callbacks made for a list of messages. */
  function Callbacks(byDir: ByDir, ms: seq<Notify>): nat {
    if ms == [] then 0 else |Cnxns(byDir, ms[0].dir)| + Callbacks(byDir, ms[1..])
  }

  /** The sum over the directories met of the square of the connections there. */
  function Squares(byDir: ByDir, dirs: seq<string>): nat {
    if dirs == [] then 0 else |Cnxns(byDir, dirs[0])| * |Cnxns(byDir, dirs[0])| + Squares(byDir, dirs[1..])
  }

  lemma {:induction false} RepeatCallbacks(byDir: ByDir, m: Notify, k: nat)
    ensures Callbacks(byDir, Repeat(m, k)) == k * |Cnxns(byDir, m.dir)|
  {
    if k > 0 {
      RepeatCallbacks(byDir, m, k - 1);
      assert Repeat(m, k)[1..] == Repeat(m, k - 1);
    }
  }

  lemma {:induction false} CallbacksAppend(byDir: ByDir, a: seq<Notify>, b: seq<Notify>)
    ensures Callbacks(byDir, a + b) == Callbacks(byDir, a) + Callbacks(byDir, b)
  {
    if a == [] {
      assert a + b == b;
    } else {
      assert (a + b)[1..] == a[1..] + b;
      CallbacksAppend(byDir, a[1..], b);
    }
  }

  /** One change of a key makes, for each directory on its walk, as many callbacks as the square of
      the connections made there: connecting twice to one directory is heard four times. */
  lemma {:induction false} CallbacksAreSquares(n: Notifications, service: string, byDir: ByDir, dirs: seq<string>,
                                               key: string, value: Option<Value>)
    requires ServerAgrees(n, service, byDir)
    ensures Callbacks(byDir, Received(n, dirs, service, key, value)) == Squares(byDir, dirs)
  {
    if dirs != [] {
      var k := multiset(Clients(n, dirs[0]))[service];
      CallbacksAreSquares(n, service, byDir, dirs[1..], key, value);
      RepeatCallbacks(byDir, Notify(dirs[0], key, value), k);
      CallbacksAppend(byDir, Repeat(Notify(dirs[0], key, value), k), Received(n, dirs[1..], service, key, value));
    }
  }
}
