/** Which directories a sync deletes: exactly those in which nothing is left. */
module MarkupSyncPrune {
  import opened Basics
  import opened Values
  import opened MarkupTypes
  import opened MarkupRoundTrip
  import opened MarkupEntries
  import opened MarkupSync
  import opened MarkupSyncLocal
  import opened MarkupSyncInv
  import opened MarkupSyncViews
  import opened MarkupSyncFiles

  /** An entry that a save leaves out. */
  predicate HoldsNothing(e: Entry) { e.value == None && e.schemaName == None && e.localSchemas == [] }

  /** No subdirectory has a file. */
  ghost predicate NoFileBelow(path: Path, disk: Disk) {
    forall name: string :: Visible(name) ==> path + [name] !in disk
  }

  /** All the entries go: they hold nothing and the directory is flagged, or there are none. Entries that
      are not in memory are read from the file when a subdirectory was deleted. */
  ghost predicate EntriesGo(ft: FloatText, d: MDir, path: Path, disk: Disk) {
    if d.entriesLoaded then
      && (forall i :: 0 <= i < |d.entries| ==> HoldsNothing(d.entries[i]))
      && (d.entriesNeedSave || d.entries == [])
    else d.subdirs != [] && FileEntries(ft, path, disk) == []
  }

  /** A sync that comes to this directory leaves nothing in it: all its entries go, and so do all its
      subdirectories. Those that are not in memory are listed when an entry was dropped. */
  ghost predicate Emptied(ft: FloatText, d: MDir, path: Path, disk: Disk)
    decreases d
  {
    && EntriesGo(ft, d, path, disk)
    && if d.subdirsLoaded then forall i :: 0 <= i < |d.subdirs| ==> Goes(ft, d, i, path, disk)
       else d.entries != [] && NoFileBelow(path, disk)
  }

  /** A directory that is known to hold nothing, without a sync coming to it. */
  predicate EmptyAlready(d: MDir) { d.entriesLoaded && d.entries == [] && d.subdirsLoaded && d.subdirs == [] }

  /** This subdirectory of a directory that a sync comes to is deleted. */
  ghost predicate Goes(ft: FloatText, d: MDir, i: nat, path: Path, disk: Disk)
    requires i < |d.subdirs|
    decreases d, 0
  {
    if d.someSubdirNeedsSync && NeedsSync(d.subdirs[i])
    then Emptied(ft, d.subdirs[i], path + [d.subdirs[i].name], disk)
    else EmptyAlready(d.subdirs[i])
  }

  // One directory

  lemma {:induction false} UsefulIsEmpty(es: seq<Entry>)
    ensures Useful(es) == [] <==> forall i :: 0 <= i < |es| ==> Useless(es[i])
    ensures |Useful(es)| <= |es|
  {
    if es != [] {
      UsefulIsEmpty(es[1..]);
      assert forall i :: 0 < i < |es| ==> es[i] == es[1..][i - 1];
    }
  }

  lemma UselessClean(e: Entry)
    ensures Useless(Clean(e)) <==> HoldsNothing(e)
  {
    if e.value == None { AllStay(e, e.localSchemas); }
  }

  lemma {:induction false} AllStay(e: Entry, locals: seq<LocalSchema>)
    requires e.value == None
    ensures KeepLocals(e, locals) == locals
  {
    if locals != [] { AllStay(e, locals[1..]); }
  }

  /** What a save leaves of the entries. */
  lemma SavedEmpty(env: Env, d: MDir, path: Path, disk: Disk)
    requires d.entriesLoaded
    ensures var r := SaveEntries(env, d, path, disk).0;
      && (r.entries == [] <==> EntriesGo(env.floats, d, path, disk))
      && |r.entries| <= |d.entries|
  {
    CleanAllIs(d.entries);
    UsefulIsEmpty(CleanAll(d.entries));
    forall i | 0 <= i < |d.entries| ensures Useless(CleanAll(d.entries)[i]) <==> HoldsNothing(d.entries[i]) {
      UselessClean(d.entries[i]);
    }
  }

  lemma {:induction false} KeptEmpty(ds: seq<MDir>)
    ensures KeepDirs(ds) == [] <==> forall i :: 0 <= i < |ds| ==> UselessDir(ds[i])
    ensures |KeepDirs(ds)| <= |ds|
    ensures |KeepDirs(ds)| == |ds| ==> forall i :: 0 <= i < |ds| ==> !UselessDir(ds[i])
  {
    if ds != [] {
      KeptEmpty(ds[1..]);
      assert forall i :: 0 < i < |ds| ==> ds[i] == ds[1..][i - 1];
    }
  }

  lemma NoChildNames(path: Path, disk: Disk)
    ensures ChildNames(path, disk) == {} <==> NoFileBelow(path, disk)
  {
    forall name: string ensures name in ChildNames(path, disk) <==> path + [name] in disk && Visible(name) {
      ChildNamesMember(path, disk, name);
    }
  }

  lemma {:induction false} NewDirsEmpty(names: seq<string>)
    ensures NewDirs(names) == [] <==> names == []
  {
  }

  lemma ListedEmpty(env: Env, d: MDir, path: Path, disk: Disk)
    requires env.Sound() && !d.subdirsLoaded
    ensures LoadSubdirs(env, d, path, disk).subdirs == [] <==> NoFileBelow(path, disk)
  {
    var names := env.order(ChildNames(path, disk));
    NoChildNames(path, disk);
    assert Lists(names, ChildNames(path, disk));
    NothingIn(names);
    if names != [] { assert names[0] in ChildNames(path, disk); }
  }

  /** What pruning leaves of a directory whose subdirectories were synced. */
  lemma PrunedEmpty(env: Env, d: MDir, path: Path, disk: Disk, dropped: bool)
    requires env.Sound() && (!d.subdirsLoaded ==> d.subdirs == []) && (!d.entriesLoaded ==> d.entries == [])
    ensures var r := Prune(env, d, path, disk, dropped).0;
      UselessDir(r) <==>
        && (if d.entriesLoaded then d.entries == []
            else d.subdirs != [] && FileEntries(env.floats, path, DropDirs(d.subdirs, path, disk)) == [])
        && (if d.subdirsLoaded then forall i :: 0 <= i < |d.subdirs| ==> UselessDir(d.subdirs[i])
            else dropped && NoFileBelow(path, disk))
  {
    KeptEmpty(d.subdirs);
    if !d.subdirsLoaded { ListedEmpty(env, d, path, disk); }
  }

  /** The directory between the sync of its subdirectories and the pruning. */
  function Between(env: Env, d: MDir, path: Path, disk: Disk): (MDir, Disk) {
    var saved := SaveEntries(env, d, path, disk);
    var synced := if !d.someSubdirNeedsSync then (d.subdirs, saved.1) else SyncDirs(env, d.subdirs, path, saved.1);
    (saved.0.(subdirs := synced.0, someSubdirNeedsSync := d.someSubdirNeedsSync && SomeNeedSync(synced.0)), synced.1)
  }

  predicate Dropped(d: MDir, d1: MDir) { d.entriesNeedSave && |d1.entries| < |d.entries| }

  lemma SyncIs(env: Env, d: MDir, path: Path, disk: Disk)
    ensures var mid := Between(env, d, path, disk);
      SyncDir(env, d, path, disk) == Prune(env, mid.0, path, mid.1, Dropped(d, mid.0))
  {
  }

  lemma BetweenEntries(env: Env, d: MDir, path: Path, disk: Disk)
    requires Inv(env.floats, d, path, disk)
    ensures var mid := Between(env, d, path, disk);
      && mid.0.entriesLoaded == d.entriesLoaded && mid.0.subdirsLoaded == d.subdirsLoaded
      && (d.entriesLoaded ==> (mid.0.entries == [] <==> EntriesGo(env.floats, d, path, disk)))
      && (d.entriesLoaded && mid.0.entries == [] ==> (Dropped(d, mid.0) <==> d.entries != []))
      && (!d.entriesLoaded ==> mid.0.entries == [] && d.entries == [] && !d.entriesNeedSave)
      && (!d.subdirsLoaded ==> mid.0.subdirs == [] && d.subdirs == [])
  {
    if d.entriesLoaded { SavedEmpty(env, d, path, disk); }
  }

  lemma BetweenFiles(env: Env, d: MDir, path: Path, disk: Disk)
    requires Inv(env.floats, d, path, disk)
    ensures var mid := Between(env, d, path, disk);
      && (!d.entriesLoaded ==>
            FileEntries(env.floats, path, DropDirs(mid.0.subdirs, path, mid.1)) == FileEntries(env.floats, path, disk))
      && (!d.subdirsLoaded ==> (NoFileBelow(path, mid.1) <==> NoFileBelow(path, disk)))
  {
    var mid := Between(env, d, path, disk);
    if !d.entriesLoaded {
      OwnFile(env, d, path, disk);
      FileEntriesLocal(env.floats, path, disk, DropDirs(mid.0.subdirs, path, mid.1));
    }
    if !d.subdirsLoaded {
      forall name: string ensures path + [name] in mid.1 <==> path + [name] in disk { assert path + [name] != path; }
    }
  }

  /** Nothing is left of a directory after a sync came to it exactly if it is emptied. */
  lemma {:induction false} SyncedEmpty(env: Env, d: MDir, path: Path, disk: Disk)
    requires env.Sound() && GoodFiles(env.floats, disk) && Inv(env.floats, d, path, disk) && ValidPath(path)
    ensures UselessDir(SyncDir(env, d, path, disk).0) <==> Emptied(env.floats, d, path, disk)
    decreases d
  {
    var mid := Between(env, d, path, disk);
    SyncIs(env, d, path, disk);
    BetweenEntries(env, d, path, disk);
    BetweenFiles(env, d, path, disk);
    PrunedEmpty(env, mid.0, path, mid.1, Dropped(d, mid.0));
    ChildrenEmpty(env, d, path, disk);
    hide Inv, SyncDir, SyncDirs, Between, Prune, Goes, UselessDir, NoFileBelow, FileEntries, DropDirs, Dropped, GoodFiles;
  }

  lemma {:induction false} ChildrenEmpty(env: Env, d: MDir, path: Path, disk: Disk)
    requires env.Sound() && GoodFiles(env.floats, disk) && Inv(env.floats, d, path, disk) && ValidPath(path)
    ensures var ds := Between(env, d, path, disk).0.subdirs;
      |ds| == |d.subdirs| && forall i :: 0 <= i < |ds| ==> (UselessDir(ds[i]) <==> Goes(env.floats, d, i, path, disk))
    decreases d, 1
  {
    SyncDirsLength(env, d.subdirs, path, SaveEntries(env, d, path, disk).1);
    forall i | 0 <= i < |d.subdirs|
      ensures UselessDir(Between(env, d, path, disk).0.subdirs[i]) <==> Goes(env.floats, d, i, path, disk)
    {
      ChildEmpty(env, d, path, disk, i);
    }
  }

  lemma {:induction false} ChildEmpty(env: Env, d: MDir, path: Path, disk: Disk, i: nat)
    requires env.Sound() && GoodFiles(env.floats, disk) && Inv(env.floats, d, path, disk) && ValidPath(path)
    requires i < |d.subdirs|
    ensures var saved := SaveEntries(env, d, path, disk);
      var synced := if !d.someSubdirNeedsSync then (d.subdirs, saved.1) else SyncDirs(env, d.subdirs, path, saved.1);
      |synced.0| == |d.subdirs| && (UselessDir(synced.0[i]) <==> Goes(env.floats, d, i, path, disk))
    decreases d, 0
  {
    var saved := SaveEntries(env, d, path, disk).1;
    var q := path + [d.subdirs[i].name];
    if d.someSubdirNeedsSync {
      SyncDirsAt(env, d.subdirs, path, saved, i);
      if NeedsSync(d.subdirs[i]) {
        SaveAgrees(env, d, path, disk, d.subdirs[i].name);
        SyncLocal(env, d.subdirs[i], q, disk, saved);
        assert ValidPath(q);
        SyncedEmpty(env, d.subdirs[i], q, disk);
      }
    }
  }

  // Directories below

  /** A sync of this directory comes to the one at `rel' below it. */
  predicate Comes(d: MDir, rel: Path)
    decreases rel
  {
    rel == [] ||
    (d.someSubdirNeedsSync &&
     match FindDir(d.subdirs, rel[0])
     case None => false
     case Some(i) => i < |d.subdirs| && NeedsSync(d.subdirs[i]) && Comes(d.subdirs[i], rel[1..]))
  }

  lemma {:induction false} FoundIsNamed(d: MDir, rel: Path)
    requires DirAt(d, rel).Some? && rel != []
    ensures !NotNamed(d.subdirs, rel[0])
  {
    FindDirIs(d.subdirs, rel[0]);
  }

  /** What a search finds after the pruning. */
  lemma AfterPrune(env: Env, d: MDir, path: Path, disk: Disk, dropped: bool, rel: Path)
    requires d.subdirsLoaded && DistinctNames(d.subdirs) && rel != []
    ensures var r := Prune(env, d, path, disk, dropped).0;
      match FindDir(d.subdirs, rel[0])
      case None => DirAt(r, rel) == None
      case Some(i) =>
        i < |d.subdirs| && DirAt(r, rel) == if UselessDir(d.subdirs[i]) then None else DirAt(d.subdirs[i], rel[1..])
  {
    FindKept(d.subdirs, rel[0]);
    FindDirIs(d.subdirs, rel[0]);
    hide KeepDirs, DropDirs, UselessDir, FindDir;
    assert Prune(env, d, path, disk, dropped).0.subdirs == KeepDirs(d.subdirs);
  }

  /** A directory that a sync comes to finds in a subdirectory what that one's own sync leaves there. */
  lemma AfterSync(env: Env, d: MDir, path: Path, disk: Disk, i: nat, rel: Path)
    requires env.Sound() && Inv(env.floats, d, path, disk) && ValidPath(path) && rel != []
    requires d.subdirsLoaded && FindDir(d.subdirs, rel[0]) == Some(i) && i < |d.subdirs|
    ensures var r := SyncDir(env, d, path, disk).0;
      var q := path + [rel[0]];
      var sub := if d.someSubdirNeedsSync && NeedsSync(d.subdirs[i]) then SyncDir(env, d.subdirs[i], q, disk).0
                 else d.subdirs[i];
      DirAt(r, rel) == if UselessDir(sub) then None else DirAt(sub, rel[1..])
  {
    var mid := Between(env, d, path, disk);
    SyncIs(env, d, path, disk);
    FindDirIs(d.subdirs, rel[0]);
    BetweenChild(env, d, path, disk, i);
    SameDistinct(d.subdirs, mid.0.subdirs);
    FindSameNames(mid.0.subdirs, d.subdirs, rel[0]);
    hide Between, SyncDir, Prune, UselessDir, FindDir, Inv;
    AfterPrune(env, mid.0, path, mid.1, Dropped(d, mid.0), rel);
  }

  lemma SameDistinct(a: seq<MDir>, b: seq<MDir>)
    requires DistinctNames(a) && SameNames(b, a)
    ensures DistinctNames(b)
  {
  }

  lemma BetweenChild(env: Env, d: MDir, path: Path, disk: Disk, i: nat)
    requires env.Sound() && Inv(env.floats, d, path, disk) && i < |d.subdirs|
    ensures var ds := Between(env, d, path, disk).0.subdirs;
      var q := path + [d.subdirs[i].name];
      && Between(env, d, path, disk).0.subdirsLoaded == d.subdirsLoaded
      && SameNames(ds, d.subdirs)
      && ds[i] == if d.someSubdirNeedsSync && NeedsSync(d.subdirs[i]) then SyncDir(env, d.subdirs[i], q, disk).0
                  else d.subdirs[i]
  {
    var saved := SaveEntries(env, d, path, disk).1;
    var q := path + [d.subdirs[i].name];
    if d.someSubdirNeedsSync {
      SyncDirsNames(env, d.subdirs, path, saved);
      SyncDirsAt(env, d.subdirs, path, saved, i);
      if NeedsSync(d.subdirs[i]) {
        SaveAgrees(env, d, path, disk, d.subdirs[i].name);
        SyncLocal(env, d.subdirs[i], q, disk, saved);
      }
    }
  }

  lemma SyncKeepsName(env: Env, d: MDir, path: Path, disk: Disk)
    ensures SyncDir(env, d, path, disk).0.name == d.name
  {
  }

  lemma {:induction false} SyncDirsNames(env: Env, ds: seq<MDir>, path: Path, disk: Disk)
    ensures SameNames(SyncDirs(env, ds, path, disk).0, ds)
    decreases ds
  {
    if ds != [] {
      var first := SyncOne(env, ds[0], path, disk);
      SyncKeepsName(env, ds[0], path + [ds[0].name], disk);
      SyncDirsNames(env, ds[1..], path, first.1);
      var rest := SyncDirs(env, ds[1..], path, first.1).0;
      forall i | 0 <= i < |ds| ensures ([first.0] + rest)[i].name == ds[i].name {
        if i > 0 { assert ds[i] == ds[1..][i - 1]; }
      }
    }
  }

  /** A subdirectory that goes has no file. */
  lemma GoneFile(env: Env, d: MDir, path: Path, disk: Disk, i: nat)
    requires env.Sound() && GoodFiles(env.floats, disk) && Inv(env.floats, d, path, disk) && ValidPath(path)
    requires i < |d.subdirs| && Goes(env.floats, d, i, path, disk)
    ensures path + [d.subdirs[i].name] !in SyncDir(env, d, path, disk).1
  {
    var mid := Between(env, d, path, disk);
    SyncIs(env, d, path, disk);
    ChildrenEmpty(env, d, path, disk);
    BetweenChild(env, d, path, disk, i);
    DropDirsIs(mid.0.subdirs, path, mid.1, path + [d.subdirs[i].name]);
    assert mid.0.subdirs[i].name == d.subdirs[i].name && UselessDir(mid.0.subdirs[i]);
  }

  /** A subdirectory of a directory that a sync comes to. */
  ghost predicate ChildAt(d: MDir, where: Path, name: string, i: nat) {
    && DirAt(d, where).Some? && i < |DirAt(d, where).value.subdirs|
    && FindDir(DirAt(d, where).value.subdirs, name) == Some(i)
  }

  lemma DeletedHere(env: Env, d: MDir, path: Path, disk: Disk, name: string, i: nat)
    requires env.Sound() && GoodFiles(env.floats, disk) && Inv(env.floats, d, path, disk) && ValidPath(path)
    requires i < |d.subdirs| && FindDir(d.subdirs, name) == Some(i)
    ensures var r := SyncDir(env, d, path, disk);
      var gone := Goes(env.floats, d, i, path, disk);
      && (DirAt(r.0, [name]).Some? <==> !gone)
      && (gone ==> path + [name] !in r.1)
  {
    FindDirIs(d.subdirs, name);
    LoadedList(env.floats, d, path, disk, i);
    AfterSync(env, d, path, disk, i, [name]);
    ChildGoes(env, d, path, disk, i);
    hide Inv, SyncDir, Goes, UselessDir, GoodFiles, FindDir;
    assert [name][1..] == [];
    if Goes(env.floats, d, i, path, disk) { GoneFile(env, d, path, disk, i); }
  }

  /** The subdirectory on the way to a directory that the sync comes to. */
  lemma ComesStep(env: Env, d: MDir, path: Path, disk: Disk, where: Path, name: string, i: nat) returns (k: nat)
    requires Inv(env.floats, d, path, disk) && ValidPath(path) && where != []
    requires Comes(d, where) && ChildAt(d, where, name, i)
    ensures d.subdirsLoaded && DistinctNames(d.subdirs) && d.someSubdirNeedsSync
    ensures k < |d.subdirs| && FindDir(d.subdirs, where[0]) == Some(k) && d.subdirs[k].name == where[0]
    ensures NeedsSync(d.subdirs[k]) && Comes(d.subdirs[k], where[1..]) && ChildAt(d.subdirs[k], where[1..], name, i)
    ensures DirAt(d, where) == DirAt(d.subdirs[k], where[1..])
    ensures var q := path + [where[0]]; Inv(env.floats, d.subdirs[k], q, disk) && ValidPath(q)
  {
    k := FindDir(d.subdirs, where[0]).value;
    FindDirIs(d.subdirs, where[0]);
    LoadedList(env.floats, d, path, disk, k);
  }

  lemma WhereSplits(path: Path, where: Path, name: string)
    requires where != []
    ensures var rel := where + [name];
      var q := path + [where[0]];
      && rel[0] == where[0] && rel[1..] == where[1..] + [name]
      && path + where == q + where[1..] && path + rel == q + rel[1..] && q <= path + rel
  {
  }

  lemma {:induction false} DeletedAt(env: Env, d: MDir, path: Path, disk: Disk, where: Path, name: string, i: nat)
    requires env.Sound() && GoodFiles(env.floats, disk) && Inv(env.floats, d, path, disk) && ValidPath(path)
    requires Comes(d, where) && ChildAt(d, where, name, i)
    ensures var r := SyncDir(env, d, path, disk);
      var gone := Goes(env.floats, DirAt(d, where).value, i, path + where, disk);
      && (DirAt(r.0, where + [name]).Some? <==> !gone)
      && (gone ==> path + (where + [name]) !in r.1)
    decreases where
  {
    var rel := where + [name];
    if where == [] {
      assert rel == [name] && path + where == path;
      DeletedHere(env, d, path, disk, name, i);
    } else {
      var q := path + [where[0]];
      var k := ComesStep(env, d, path, disk, where, name, i);
      WhereSplits(path, where, name);
      hide *;
      DeletedAt(env, d.subdirs[k], q, disk, where[1..], name, i);
      AfterSync(env, d, path, disk, k, rel);
      NothingThere(SyncDir(env, d.subdirs[k], q, disk).0, rel[1..]);
      ChildFile(env, d, path, disk, k, path + rel);
      SameAbsent(path + rel, SyncDir(env, d.subdirs[k], q, disk).1, SyncDir(env, d, path, disk).1);
    }
  }

  lemma SameAbsent(p: Path, a: Disk, b: Disk)
    requires p in b ==> SameFile(p, a, b)
    ensures p !in a ==> p !in b
  {
  }

  lemma LoadedList(ft: FloatText, d: MDir, path: Path, disk: Disk, i: nat)
    requires Inv(ft, d, path, disk) && i < |d.subdirs| && ValidPath(path)
    ensures d.subdirsLoaded && DistinctNames(d.subdirs)
    ensures var q := path + [d.subdirs[i].name]; Inv(ft, d.subdirs[i], q, disk) && ValidPath(q)
  {
  }

  lemma NothingThere(d: MDir, rel: Path)
    requires rel != []
    ensures UselessDir(d) ==> DirAt(d, rel) == None
  {
  }

  /** Whether a subdirectory goes, by what its own sync leaves of it. */
  lemma ChildGoes(env: Env, d: MDir, path: Path, disk: Disk, i: nat)
    requires env.Sound() && GoodFiles(env.floats, disk) && Inv(env.floats, d, path, disk) && ValidPath(path)
    requires i < |d.subdirs|
    ensures var q := path + [d.subdirs[i].name];
      var sub := if d.someSubdirNeedsSync && NeedsSync(d.subdirs[i]) then SyncDir(env, d.subdirs[i], q, disk).0
                 else d.subdirs[i];
      UselessDir(sub) <==> Goes(env.floats, d, i, path, disk)
  {
    BetweenChild(env, d, path, disk, i);
    ChildrenEmpty(env, d, path, disk);
  }

  lemma CleanStep(ft: FloatText, d: MDir, path: Path, disk: Disk, rel: Path) returns (k: nat)
    requires Inv(ft, d, path, disk) && !NeedsSync(d) && DirAt(d, rel).Some? && rel != []
    ensures k < |d.subdirs| && Inv(ft, d.subdirs[k], path + [rel[0]], disk) && !NeedsSync(d.subdirs[k])
    ensures DirAt(d.subdirs[k], rel[1..]) == DirAt(d, rel)
  {
    FindDirIs(d.subdirs, rel[0]);
    k := FindDir(d.subdirs, rel[0]).value;
  }

  lemma OwnFileThere(ft: FloatText, d: MDir, path: Path, disk: Disk)
    requires Inv(ft, d, path, disk) && !NeedsSync(d) && path != []
    ensures path in disk
  {
  }

  lemma RelStep(path: Path, rel: Path)
    requires rel != []
    ensures path + rel == (path + [rel[0]]) + rel[1..]
  {
  }

  /** With nothing left to sync, every directory in memory has a file. */
  lemma {:induction false} InMemoryHasFile(ft: FloatText, d: MDir, path: Path, disk: Disk, rel: Path)
    requires Inv(ft, d, path, disk) && !NeedsSync(d) && DirAt(d, rel).Some? && path + rel != []
    ensures path + rel in disk
    decreases rel
  {
    hide *;
    if rel == [] {
      assert path + rel == path;
      OwnFileThere(ft, d, path, disk);
    } else {
      var k := CleanStep(ft, d, path, disk, rel);
      RelStep(path, rel);
      InMemoryHasFile(ft, d.subdirs[k], path + [rel[0]], disk, rel[1..]);
    }
  }

  lemma FromTop(rel: Path)
    ensures [] + rel == rel
  {
  }

  /** In every directory that a sync comes to, exactly the subdirectories in which nothing is left are
      deleted, in memory and, once it returns TRUE, on disk. */
  lemma EmptyDirsGo(env: Env, root: MDir, disk: Disk, where: Path, name: string, i: nat)
    requires env.Sound() && GoodFiles(env.floats, disk) && Inv(env.floats, root, [], disk) && NeedsSync(root)
    requires Comes(root, where) && ChildAt(root, where, name, i)
    ensures var r := SyncTree(env, root, disk);
      var gone := Goes(env.floats, DirAt(root, where).value, i, where, disk);
      && (DirAt(r.0, where + [name]).Some? <==> !gone)
      && (gone ==> where + [name] !in r.1)
      && (r.2 && !gone ==> where + [name] in r.1)
  {
    var r := SyncTree(env, root, disk);
    assert r.0 == SyncDir(env, root, [], disk).0 && r.1 == SyncDir(env, root, [], disk).1 && (r.2 ==> !NeedsSync(r.0));
    assert ValidPath([]);
    FromTop(where);
    FromTop(where + [name]);
    hide *;
    DeletedAt(env, root, [], disk, where, name, i);
    SyncInv(env, root, [], disk);
    assert where + [name] != [];
    if r.2 && DirAt(r.0, where + [name]).Some? { InMemoryHasFile(env.floats, r.0, [], r.1, where + [name]); }
  }

  /** So a flagged directory without subdirectories whose entries were all unset goes, with its file. */
  lemma UnsetLeafGoes(env: Env, root: MDir, disk: Disk, where: Path, name: string, i: nat)
    requires env.Sound() && GoodFiles(env.floats, disk) && Inv(env.floats, root, [], disk) && NeedsSync(root)
    requires Comes(root, where) && ChildAt(root, where, name, i)
    requires var d := DirAt(root, where).value;
      && d.someSubdirNeedsSync && d.subdirs[i].entriesNeedSave
      && d.subdirs[i].entriesLoaded && (forall e :: e in d.subdirs[i].entries ==> HoldsNothing(e))
      && d.subdirs[i].subdirsLoaded && d.subdirs[i].subdirs == []
    ensures var r := SyncTree(env, root, disk);
      DirAt(r.0, where + [name]) == None && where + [name] !in r.1
  {
    EmptyDirsGo(env, root, disk, where, name, i);
    var d := DirAt(root, where).value;
    hide SyncTree, Inv;
    assert EntriesGo(env.floats, d.subdirs[i], where + [d.subdirs[i].name], disk);
  }

  /** And one with an entry that holds something stays, with its file if the sync returned TRUE. */
  lemma FullDirStays(env: Env, root: MDir, disk: Disk, where: Path, name: string, i: nat, e: Entry)
    requires env.Sound() && GoodFiles(env.floats, disk) && Inv(env.floats, root, [], disk) && NeedsSync(root)
    requires Comes(root, where) && ChildAt(root, where, name, i)
    requires var d := DirAt(root, where).value;
      d.subdirs[i].entriesLoaded && e in d.subdirs[i].entries && !HoldsNothing(e)
    ensures var r := SyncTree(env, root, disk);
      DirAt(r.0, where + [name]).Some? && (r.2 ==> where + [name] in r.1)
  {
    EmptyDirsGo(env, root, disk, where, name, i);
    var d := DirAt(root, where).value;
    hide SyncTree, Inv;
    var j :| 0 <= j < |d.subdirs[i].entries| && d.subdirs[i].entries[j] == e;
    assert !EntriesGo(env.floats, d.subdirs[i], where + [d.subdirs[i].name], disk);
  }
}
