/** The directories a client watches: only the topmost ones are registered with the server. */
module ClientDirs {
  import opened Basics
  import opened Keys
  import opened KeyWalk
  import opened Engine

  /** A watched directory; notifyId is 0 while it is not registered. */
  datatype Dir = Dir(notifyId: nat, addCount: nat)

  type Dirs = map<string, Dir>

  predicate Registered(dirs: Dirs, d: string) { d in dirs && dirs[d].notifyId != 0 }

  ghost predicate AllRooted(dirs: Dirs) { forall d :: d in dirs ==> ValidKey(d) }

  /** A directory is registered exactly when no other watched directory is above it. */
  ghost predicate Topmost(dirs: Dirs) {
    forall d :: d in dirs ==> (Registered(dirs, d) <==> forall e :: e in dirs && KeyIsBelow(e, d) ==> e == d)
  }

  /** No registered directory is above another. */
  ghost predicate Antichain(dirs: Dirs) {
    forall d, e :: Registered(dirs, d) && Registered(dirs, e) && KeyIsBelow(d, e) ==> d == e
  }

  ghost predicate Covered(dirs: Dirs, key: string) {
    exists r :: Registered(dirs, r) && KeyIsBelow(r, key)
  }

  ghost predicate Monitored(dirs: Dirs, key: string) {
    exists d :: d in dirs && KeyIsBelow(d, key)
  }

  /** The engine has one connection for each registered directory, and no other. */
  ghost predicate Linked(dirs: Dirs, byDir: ByDir, byId: ById) {
    && (forall d :: Registered(dirs, d) ==>
          Cnxns(byDir, d) == [dirs[d].notifyId] && dirs[d].notifyId in byId && byId[dirs[d].notifyId] == d)
    && (forall d :: !Registered(dirs, d) ==> Cnxns(byDir, d) == [])
  }

  lemma AboveIsShorter(e: string, d: string)
    requires Rooted(e) && Rooted(d) && KeyIsBelow(e, d) && e != d
    ensures |e| < |d|
  {
  }

  /** In a finite set of directories each has a topmost one above it. */
  lemma {:induction false} TopAncestor(dirs: Dirs, d: string) returns (r: string)
    requires AllRooted(dirs) && d in dirs
    ensures r in dirs && KeyIsBelow(r, d) && forall e :: e in dirs && KeyIsBelow(e, r) ==> e == r
    decreases |d|
  {
    if e :| e in dirs && KeyIsBelow(e, d) && e != d {
      AboveIsShorter(e, d);
      r := TopAncestor(dirs, e);
      BelowTransitive(r, e, d);
    } else {
      BelowSelf(d);
      r := d;
    }
  }

  lemma TopmostCovers(dirs: Dirs, d: string)
    requires AllRooted(dirs) && Topmost(dirs) && d in dirs
    ensures Covered(dirs, d)
  {
    var r := TopAncestor(dirs, d);
    assert Registered(dirs, r);
  }

  lemma TopmostAntichain(dirs: Dirs)
    requires Topmost(dirs)
    ensures Antichain(dirs)
  {
  }

  /** A registered antichain that covers everything is what is topmost. */
  lemma CoveredTopmost(dirs: Dirs)
    requires AllRooted(dirs) && Antichain(dirs) && forall d :: d in dirs ==> Covered(dirs, d)
    ensures Topmost(dirs)
  {
    forall d | d in dirs
      ensures Registered(dirs, d) <==> forall e :: e in dirs && KeyIsBelow(e, d) ==> e == d
    {
      forall e | e in dirs && KeyIsBelow(e, d) && Registered(dirs, d) ensures e == d {
        var r :| Registered(dirs, r) && KeyIsBelow(r, e);
        BelowTransitive(r, e, d);
        assert r == d;
        BelowAntisymmetric(d, e);
      }
      var r :| Registered(dirs, r) && KeyIsBelow(r, d);
    }
  }

  /** The registered directories are the topmost ones exactly if none of them is below another and
      together they cover every watched directory. */
  lemma TopmostIs(dirs: Dirs)
    requires AllRooted(dirs)
    ensures Topmost(dirs) <==> Antichain(dirs) && forall d :: d in dirs ==> Covered(dirs, d)
  {
    if Topmost(dirs) {
      forall d | d in dirs ensures Covered(dirs, d) { TopmostCovers(dirs, d); }
    } else if Antichain(dirs) && forall d :: d in dirs ==> Covered(dirs, d) {
      CoveredTopmost(dirs);
    }
  }

  /** At most one registered directory lies above a key. */
  lemma OneAbove(dirs: Dirs, a: string, b: string, key: string)
    requires AllRooted(dirs) && Antichain(dirs) && Rooted(key)
    requires Registered(dirs, a) && Registered(dirs, b) && KeyIsBelow(a, key) && KeyIsBelow(b, key)
    ensures a == b
  {
    AboveLinear(a, b, key);
  }

  /** The directories at or below `name' lose their registration. */
  function Dropped(dirs: Dirs, name: string): Dirs {
    map d | d in dirs :: if KeyIsBelow(name, d) then dirs[d].(notifyId := 0) else dirs[d]
  }

  /** The same while some directories are still to be visited. */
  function PartlyDropped(dirs: Dirs, name: string, remaining: set<string>): Dirs {
    map d | d in dirs :: if d !in remaining && KeyIsBelow(name, d) then dirs[d].(notifyId := 0) else dirs[d]
  }

  /** One visit of setup_overlaps to a directory that is registered. */
  lemma VisitRegistered(dirs: Dirs, name: string, remaining: set<string>, d: string)
    requires AllRooted(dirs) && ValidKey(name) && !Registered(dirs, name) && Registered(dirs, d) && d in remaining
    ensures d in PartlyDropped(dirs, name, remaining) && PartlyDropped(dirs, name, remaining)[d] == dirs[d]
    ensures var now := PartlyDropped(dirs, name, remaining);
      PartlyDropped(dirs, name, remaining - {d}) ==
        if KeyIsBelow(name, d) then now[d := now[d].(notifyId := 0)] else now
    ensures !(KeyIsBelow(d, name) && KeyIsBelow(name, d))
  {
    if KeyIsBelow(d, name) && KeyIsBelow(name, d) { BelowAntisymmetric(d, name); }
  }

  /** One visit to a directory that is not. */
  lemma VisitOther(dirs: Dirs, name: string, remaining: set<string>, d: string)
    requires d in dirs && !Registered(dirs, d) && d in remaining
    ensures d in PartlyDropped(dirs, name, remaining) && PartlyDropped(dirs, name, remaining)[d] == dirs[d]
    ensures PartlyDropped(dirs, name, remaining - {d}) == PartlyDropped(dirs, name, remaining)
  {
    assert dirs[d].(notifyId := 0) == dirs[d];
  }

  lemma AllDropped(dirs: Dirs, name: string)
    ensures PartlyDropped(dirs, name, {}) == Dropped(dirs, name)
  {
  }

  lemma NothingDropped(dirs: Dirs, name: string)
    requires forall d :: Registered(dirs, d) ==> !KeyIsBelow(name, d)
    ensures Dropped(dirs, name) == dirs
  {
    forall d | d in dirs ensures Dropped(dirs, name)[d] == dirs[d] {
      if !Registered(dirs, d) { assert dirs[d].(notifyId := 0) == dirs[d]; }
    }
  }

  /** With a registered directory above, nothing registered is below. */
  lemma NothingBelow(dirs: Dirs, name: string, lower: string)
    requires AllRooted(dirs) && Antichain(dirs) && Rooted(name)
    requires Registered(dirs, lower) && KeyIsBelow(lower, name) && !Registered(dirs, name)
    ensures forall d :: Registered(dirs, d) ==> !KeyIsBelow(name, d)
  {
    forall d | Registered(dirs, d) ensures !KeyIsBelow(name, d) {
      if KeyIsBelow(name, d) {
        BelowTransitive(lower, name, d);
        assert lower == d;
        BelowAntisymmetric(lower, name);
        assert false;
      }
    }
  }

  /** Registering a directory after dropping those below it keeps the antichain and what is covered. */
  lemma RegisterKeeps(dirs: Dirs, name: string, dir: Dir)
    requires AllRooted(dirs) && Antichain(dirs) && ValidKey(name) && dir.notifyId != 0
    requires forall d :: Registered(dirs, d) ==> !KeyIsBelow(d, name)
    ensures var after := Dropped(dirs, name)[name := dir];
      && AllRooted(after) && Antichain(after) && Covered(after, name)
      && forall key :: Rooted(key) && Covered(dirs, key) ==> Covered(after, key)
  {
    var after := Dropped(dirs, name)[name := dir];
    BelowSelf(name);
    assert Registered(after, name);
    forall key | Rooted(key) && Covered(dirs, key) ensures Covered(after, key) {
      var r :| Registered(dirs, r) && KeyIsBelow(r, key);
      if KeyIsBelow(name, r) { BelowTransitive(name, r, key); } else { assert Registered(after, r); }
    }
    forall d, e | Registered(after, d) && Registered(after, e) && KeyIsBelow(d, e) ensures d == e {
      assert d != name ==> Registered(dirs, d);
    }
  }

  // Adding a directory

  /** A directory below a registered one is watched without being registered. */
  lemma AddUnderTopmost(dirs: Dirs, name: string, lower: string, dir: Dir)
    requires AllRooted(dirs) && Topmost(dirs) && ValidKey(name) && name !in dirs && dir.notifyId == 0
    requires Registered(dirs, lower) && KeyIsBelow(lower, name)
    ensures AllRooted(dirs[name := dir]) && Topmost(dirs[name := dir])
  {
    var after := dirs[name := dir];
    TopmostAntichain(dirs);
    NothingBelow(dirs, name, lower);
    forall d | d in after
      ensures Registered(after, d) <==> forall e :: e in after && KeyIsBelow(e, d) ==> e == d
    {
      if d == name {
        assert lower in after && lower != name;
      } else if Registered(dirs, d) {
        assert forall e :: e in after && KeyIsBelow(e, d) ==> e == d;
      } else {
        var e :| e in dirs && KeyIsBelow(e, d) && e != d;
        assert e in after;
      }
    }
  }

  lemma AddTopTopmost(dirs: Dirs, name: string, dir: Dir)
    requires AllRooted(dirs) && Topmost(dirs) && ValidKey(name) && name !in dirs && dir.notifyId != 0
    requires forall d :: Registered(dirs, d) ==> !KeyIsBelow(d, name)
    ensures var after := Dropped(dirs, name)[name := dir];
      AllRooted(after) && Topmost(after)
  {
    var after := Dropped(dirs, name)[name := dir];
    TopmostAntichain(dirs);
    RegisterKeeps(dirs, name, dir);
    forall d | d in after ensures Covered(after, d) {
      if d != name { TopmostCovers(dirs, d); }
    }
    CoveredTopmost(after);
  }

  /** When the registration of a new directory fails, the lower ones are already dropped: the
      invariant is lost exactly when there is a watched directory below. */
  lemma FailedAddLoses(dirs: Dirs, name: string)
    requires AllRooted(dirs) && Topmost(dirs) && ValidKey(name) && name !in dirs
    requires forall d :: Registered(dirs, d) ==> !KeyIsBelow(d, name)
    ensures Topmost(Dropped(dirs, name)) <==> forall d :: d in dirs ==> !KeyIsBelow(name, d)
  {
    var after := Dropped(dirs, name);
    if d :| d in dirs && KeyIsBelow(name, d) {
      TopmostCovers(dirs, d);
      var r :| Registered(dirs, r) && KeyIsBelow(r, d);
      AboveLinear(r, name, d);
      assert KeyIsBelow(name, r) && r in after && !Registered(after, r);
      assert forall e :: e in after && KeyIsBelow(e, r) ==> e == r;
    } else {
      assert after == dirs;
    }
  }

  /** So it is when /a is added above /a/b. */
  lemma FailedAddExample(id: nat)
    requires id != 0
    ensures var dirs: Dirs := map["/a/b" := Dir(id, 1)];
      AllRooted(dirs) && Topmost(dirs) && !Topmost(Dropped(dirs, "/a"))
  {
    var dirs: Dirs := map["/a/b" := Dir(id, 1)];
    ExampleKeys();
    assert |"/a"| == 2 && |"/a/b"| == 4;
    BelowSelf("/a/b");
    hide ValidKey, KeyIsBelow;
    assert "/a" !in dirs && "/a/b" in dirs;
    FailedAddLoses(dirs, "/a");
  }

  // Removing a directory

  lemma RemoveKeeps(dirs: Dirs, name: string)
    requires AllRooted(dirs) && Topmost(dirs)
    ensures AllRooted(dirs - {name}) && Antichain(dirs - {name})
  {
    TopmostAntichain(dirs);
  }

  // Links

  lemma LinkDropped(dirs: Dirs, byDir: ByDir, byId: ById, d: string)
    requires Linked(dirs, byDir, byId) && Registered(dirs, d)
    ensures var id := dirs[d].notifyId;
      id in byId && byId[id] == d
      && Linked(dirs[d := dirs[d].(notifyId := 0)], Deleted(byDir, d, id), byId - {id})
  {
    var id := dirs[d].notifyId;
    assert Without([id], id) == [];
    forall e | Registered(dirs, e) && e != d ensures dirs[e].notifyId != id {}
  }

  lemma LinkAdded(dirs: Dirs, byDir: ByDir, byId: ById, name: string, id: nat, count: nat)
    requires Linked(dirs, byDir, byId) && !Registered(dirs, name) && id !in byId && id != 0
    ensures Linked(dirs[name := Dir(id, count)], Inserted(byDir, name, id), byId[id := name])
  {
  }

  lemma LinkUnregistered(dirs: Dirs, byDir: ByDir, byId: ById, name: string, dir: Dir)
    requires Linked(dirs, byDir, byId) && !Registered(dirs, name) && dir.notifyId == 0
    ensures Linked(dirs[name := dir], byDir, byId) && Linked(dirs - {name}, byDir, byId)
  {
  }
}
