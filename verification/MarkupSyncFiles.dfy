/** When a sync succeeds, what it leaves of each file, and how a fresh tree over the files then answers. */
module MarkupSyncFiles {
  import opened Basics
  import opened Values
  import opened MarkupTypes
  import opened MarkupRoundTrip
  import opened MarkupEntries
  import opened MarkupSync
  import opened MarkupSyncLocal
  import opened MarkupSyncInv
  import opened MarkupSyncViews

  // Success

  /** Every save that a sync of this directory has to make succeeds. */
  predicate AllSaved(env: Env, d: MDir, path: Path)
    decreases d
  {
    && (d.entriesNeedSave ==> env.saves(path))
    && (d.someSubdirNeedsSync ==>
          forall i :: 0 <= i < |d.subdirs| && NeedsSync(d.subdirs[i]) ==>
            AllSaved(env, d.subdirs[i], path + [d.subdirs[i].name]))
  }

  /** A sync leaves nothing to do exactly if all its saves succeed. */
  lemma {:induction false} SyncSucceeds(env: Env, d: MDir, path: Path, disk: Disk)
    ensures !NeedsSync(SyncDir(env, d, path, disk).0) <==> AllSaved(env, d, path)
    decreases d, 1
  {
    if d.someSubdirNeedsSync {
      var saved := SaveEntries(env, d, path, disk);
      SyncDirsSucceed(env, d.subdirs, path, saved.1);
    }
  }

  lemma {:induction false} SyncDirsSucceed(env: Env, ds: seq<MDir>, path: Path, disk: Disk)
    ensures !SomeNeedSync(SyncDirs(env, ds, path, disk).0) <==>
      forall i :: 0 <= i < |ds| && NeedsSync(ds[i]) ==> AllSaved(env, ds[i], path + [ds[i].name])
    decreases ds, 0
  {
    if ds != [] {
      var first := SyncOne(env, ds[0], path, disk);
      var rest := ds[1..];
      if NeedsSync(ds[0]) { SyncSucceeds(env, ds[0], path + [ds[0].name], disk); }
      SyncDirsSucceed(env, rest, path, first.1);
      var others := SyncDirs(env, rest, path, first.1).0;
      assert SyncDirs(env, ds, path, disk).0 == [first.0] + others;
      assert ([first.0] + others)[1..] == others;
      assert forall i :: 0 <= i < |rest| ==> rest[i] == ds[i + 1];
      assert forall i :: 0 < i < |ds| ==> ds[i] == rest[i - 1];
    }
  }

  lemma {:induction false} AllSavesSucceed(env: Env, d: MDir, path: Path)
    requires forall p :: env.saves(p)
    ensures AllSaved(env, d, path)
    decreases d
  {
    forall i | 0 <= i < |d.subdirs| ensures AllSaved(env, d.subdirs[i], path + [d.subdirs[i].name]) {
      AllSavesSucceed(env, d.subdirs[i], path + [d.subdirs[i].name]);
    }
  }

  /** A sync of the tree has nothing to do or makes all its saves. */
  predicate SavesAll(env: Env, root: MDir) { NeedsSync(root) ==> AllSaved(env, root, []) }

  /** Exactly then it returns TRUE. */
  lemma SyncReturnsTrue(env: Env, root: MDir, disk: Disk)
    ensures SyncTree(env, root, disk).2 <==> SavesAll(env, root)
    ensures (forall p :: env.saves(p)) ==> SyncTree(env, root, disk).2
  {
    SyncSucceeds(env, root, [], disk);
    if forall p :: env.saves(p) { AllSavesSucceed(env, root, []); }
  }

  // The files

  /** What happened to the file of a directory: nothing, it is gone, or it has nothing left to clean. */
  ghost predicate Rewritten(ft: FloatText, p: Path, a: Disk, b: Disk) {
    || SameFile(p, a, b)
    || p !in b
    || CleanAll(FileEntries(ft, p, b)) == FileEntries(ft, p, b)
  }

  lemma RewrittenTwice(ft: FloatText, p: Path, a: Disk, b: Disk, c: Disk)
    requires Rewritten(ft, p, a, b) && Rewritten(ft, p, b, c)
    ensures Rewritten(ft, p, a, c)
  {
    if SameFile(p, b, c) { FileEntriesLocal(ft, p, b, c); }
  }

  lemma SaveRewrites(env: Env, d: MDir, path: Path, disk: Disk, p: Path)
    requires env.Sound() && Inv(env.floats, d, path, disk)
    ensures Rewritten(env.floats, p, disk, SaveEntries(env, d, path, disk).1)
  {
    if p == path && d.entriesNeedSave && env.saves(path) {
      TidyClean(d.entries);
      UsefulKeeps(CleanAll(d.entries));
      SavedFileLoads(env, Useful(CleanAll(d.entries)));
    }
  }

  /** A sync writes clean files: any other file is as it was. */
  lemma {:induction false} SyncRewrites(env: Env, d: MDir, path: Path, disk: Disk, p: Path)
    requires env.Sound() && GoodFiles(env.floats, disk) && Inv(env.floats, d, path, disk) && ValidPath(path)
    ensures Rewritten(env.floats, p, disk, SyncDir(env, d, path, disk).1)
    decreases d, 1
  {
    var saved := SaveEntries(env, d, path, disk);
    SaveRewrites(env, d, path, disk, p);
    SaveInv(env, d, path, disk);
    var synced := if !d.someSubdirNeedsSync then (d.subdirs, saved.1) else SyncDirs(env, d.subdirs, path, saved.1);
    if d.someSubdirNeedsSync { SyncDirsRewrite(env, d.subdirs, path, saved.1, p); }
    RewrittenTwice(env.floats, p, disk, saved.1, synced.1);
    DropDirsIs(synced.0, path, synced.1, p);
    RewrittenTwice(env.floats, p, disk, synced.1, DropDirs(synced.0, path, synced.1));
  }

  lemma {:induction false} SyncDirsRewrite(env: Env, ds: seq<MDir>, path: Path, disk: Disk, p: Path)
    requires env.Sound() && GoodFiles(env.floats, disk) && ValidPath(path) && AllInv(env.floats, ds, path, disk)
    ensures Rewritten(env.floats, p, disk, SyncDirs(env, ds, path, disk).1)
    decreases ds, 0
  {
    if ds != [] {
      var rest := ds[1..];
      AllInvTail(env.floats, ds, path, disk);
      var first := SyncOne(env, ds[0], path, disk);
      assert ValidPath(path + [ds[0].name]);
      if NeedsSync(ds[0]) {
        SyncInv(env, ds[0], path + [ds[0].name], disk);
        SyncRewrites(env, ds[0], path + [ds[0].name], disk, p);
      }
      OthersInv(env, ds[0], rest, path, disk);
      SyncDirsRewrite(env, rest, path, first.1, p);
      RewrittenTwice(env.floats, p, disk, first.1, SyncDirs(env, rest, path, first.1).1);
    }
  }

  // One key

  function FileEntry(ft: FloatText, p: Path, disk: Disk, k: string): Option<Entry> {
    Lookup(Some(FileEntries(ft, p, disk)), k)
  }

  predicate NothingToClean(e: Option<Entry>) { e.Some? ==> Clean(e.value) == e.value }

  lemma RewrittenKey(ft: FloatText, p: Path, a: Disk, b: Disk, k: string)
    requires Rewritten(ft, p, a, b) && NothingToClean(FileEntry(ft, p, a, k))
    ensures NothingToClean(FileEntry(ft, p, b, k))
  {
    if SameFile(p, a, b) { FileEntriesLocal(ft, p, a, b); }
    CleanAllFind(FileEntries(ft, p, b), k);
  }

  /** A sync never makes a file that has something to clean. */
  lemma SyncKeepsClean(env: Env, root: MDir, disk: Disk, p: Path, k: string)
    requires env.Sound() && GoodFiles(env.floats, disk) && Inv(env.floats, root, [], disk)
    requires NothingToClean(FileEntry(env.floats, p, disk, k))
    ensures NothingToClean(FileEntry(env.floats, p, SyncTree(env, root, disk).1, k))
  {
    if NeedsSync(root) {
      SyncRewrites(env, root, [], disk, p);
      RewrittenKey(env.floats, p, disk, SyncTree(env, root, disk).1, k);
    }
  }

  lemma {:induction false} DiskEntriesAre(ft: FloatText, path: Path, rel: Path, disk: Disk)
    ensures DiskEntries(ft, path, rel, disk) in {None, Some(FileEntries(ft, path + rel, disk))}
    decreases rel
  {
    if rel == [] {
      assert path + rel == path;
    } else {
      assert path + rel == (path + [rel[0]]) + rel[1..];
      DiskEntriesAre(ft, path + [rel[0]], rel[1..], disk);
    }
  }

  /** Where a sync does not come, there is nothing to clean in memory unless there is in the file. */
  lemma {:induction false} UnreachedIsClean(ft: FloatText, d: MDir, path: Path, disk: Disk, rel: Path, k: string)
    requires Inv(ft, d, path, disk) && !(NeedsSync(d) && Reaches(d, rel))
    requires NothingToClean(FileEntry(ft, path + rel, disk, k))
    ensures NothingToClean(See(ft, d, path, disk, rel, k))
    decreases rel
  {
    if rel == [] {
      assert path + rel == path;
      CleanAllFind(FileEntries(ft, path, disk), k);
      if FileEntry(ft, path, disk, k).Some? { CleanTwice(FileEntry(ft, path, disk, k).value); }
    } else {
      assert path + rel == (path + [rel[0]]) + rel[1..];
      DiskEntriesAre(ft, path, rel, disk);
      FindDirIs(d.subdirs, rel[0]);
      if d.subdirsLoaded && FindDir(d.subdirs, rel[0]).Some? {
        var i := FindDir(d.subdirs, rel[0]).value;
        UnreachedIsClean(ft, d.subdirs[i], path + [rel[0]], disk, rel[1..], k);
      }
    }
  }

  // Directories without a flag

  /** A sync comes to this directory, but has no reason to write its file. */
  predicate Unflagged(d: MDir, rel: Path) { Reaches(d, rel) && !Flagged(d, rel) }

  lemma {:induction false} UnflaggedView(ft: FloatText, d: MDir, path: Path, disk: Disk, rel: Path)
    requires Inv(ft, d, path, disk) && Unflagged(d, rel)
    ensures var now := ViewEntries(ft, d, path, rel, disk);
      now.Some? && FromFile(now.value, FileEntries(ft, path + rel, disk))
    decreases rel
  {
    if rel == [] {
      assert path + rel == path;
    } else {
      assert path + rel == (path + [rel[0]]) + rel[1..];
      FindDirIs(d.subdirs, rel[0]);
      var i := FindDir(d.subdirs, rel[0]).value;
      UnflaggedView(ft, d.subdirs[i], path + [rel[0]], disk, rel[1..]);
    }
  }

  /** Unless it is deleted, the file of a subdirectory is what the sync of that subdirectory alone makes of
      it. */
  lemma ChildFile(env: Env, d: MDir, path: Path, disk: Disk, i: nat, p: Path)
    requires DistinctNames(d.subdirs) && d.someSubdirNeedsSync && i < |d.subdirs| && NeedsSync(d.subdirs[i])
    requires path + [d.subdirs[i].name] <= p
    ensures var q := path + [d.subdirs[i].name];
      var disk1 := SyncDir(env, d, path, disk).1;
      p in disk1 ==> SameFile(p, SyncDir(env, d.subdirs[i], q, disk).1, disk1)
  {
    var q := path + [d.subdirs[i].name];
    var saved := SaveEntries(env, d, path, disk).1;
    var synced := SyncDirs(env, d.subdirs, path, saved);
    DropDirsIs(synced.0, path, synced.1, p);
    SyncDirsAt(env, d.subdirs, path, saved, i);
    SaveAgrees(env, d, path, disk, d.subdirs[i].name);
    SyncLocal(env, d.subdirs[i], q, disk, saved);
    hide SyncDirs, SaveEntries, DropDirs;
    assert SameFile(p, SyncDir(env, d.subdirs[i], q, disk).1, SyncDir(env, d.subdirs[i], q, saved).1);
    assert SameFile(p, synced.1, SyncOne(env, d.subdirs[i], path, saved).1);
  }

  /** That file stays as it is, unless its directory is deleted. */
  lemma {:induction false} UnflaggedFile(env: Env, d: MDir, path: Path, disk: Disk, rel: Path)
    requires Inv(env.floats, d, path, disk) && Unflagged(d, rel)
    ensures var disk1 := SyncDir(env, d, path, disk).1;
      path + rel in disk1 ==> SameFile(path + rel, disk, disk1)
    decreases rel
  {
    if rel == [] {
      assert path + rel == path;
      OwnFile(env, d, path, disk);
    } else {
      var q := path + [rel[0]];
      assert path + rel == q + rel[1..];
      FindDirIs(d.subdirs, rel[0]);
      var i := FindDir(d.subdirs, rel[0]).value;
      UnflaggedFile(env, d.subdirs[i], q, disk, rel[1..]);
      ChildFile(env, d, path, disk, i, path + rel);
    }
  }

  lemma OwnFile(env: Env, d: MDir, path: Path, disk: Disk)
    requires !d.entriesNeedSave
    ensures SameFile(path, disk, SyncDir(env, d, path, disk).1)
  {
    var synced := if !d.someSubdirNeedsSync then (d.subdirs, disk) else SyncDirs(env, d.subdirs, path, disk);
    if d.someSubdirNeedsSync { SyncDirsFrame(env, d.subdirs, path, disk, path); }
    DropDirsIs(synced.0, path, synced.1, path);
  }

  /** There a sync cleans memory alone: it departs from the file, without a flag, exactly if the file has
      something to clean. */
  lemma UnflaggedClean(env: Env, root: MDir, disk: Disk, rel: Path, k: string)
    requires env.Sound() && GoodFiles(env.floats, disk) && Inv(env.floats, root, [], disk) && NeedsSync(root)
    requires Unflagged(root, rel) && rel in SyncTree(env, root, disk).1
    ensures var r := SyncTree(env, root, disk);
      var file := FileEntry(env.floats, rel, r.1, k);
      && SameFile(rel, disk, r.1)
      && (See(env.floats, r.0, [], r.1, rel, k) == file <==> NothingToClean(file))
      && (file.Some? ==> See(env.floats, r.0, [], r.1, rel, k) == Some(Clean(file.value)))
  {
    var r := SyncTree(env, root, disk);
    var file := FileEntry(env.floats, rel, disk, k);
    assert [] + rel == rel;
    UnflaggedFile(env, root, [], disk, rel);
    FileEntriesLocal(env.floats, rel, disk, r.1);
    UnflaggedView(env.floats, root, [], disk, rel);
    CleanAllFind(FileEntries(env.floats, rel, disk), k);
    SyncView(env, root, [], disk, rel, k);
    if file.Some? { CleanTwice(file.value); }
  }

  // Directories with a flag

  /** A sync comes to every directory that has a flag. */
  lemma {:induction false} FlaggedReached(ft: FloatText, d: MDir, path: Path, disk: Disk, rel: Path)
    requires Inv(ft, d, path, disk) && Flagged(d, rel)
    ensures NeedsSync(d) && Reaches(d, rel)
    decreases rel
  {
    if rel != [] {
      FindDirIs(d.subdirs, rel[0]);
      FlaggedReached(ft, d.subdirs[FindDir(d.subdirs, rel[0]).value], path + [rel[0]], disk, rel[1..]);
    }
  }

  /** This file is gone or has nothing to clean. */
  ghost predicate CleanFile(ft: FloatText, p: Path, disk: Disk) {
    p in disk ==> CleanAll(FileEntries(ft, p, disk)) == FileEntries(ft, p, disk)
  }

  lemma OwnFileSaved(env: Env, d: MDir, path: Path, disk: Disk)
    requires env.Sound() && Inv(env.floats, d, path, disk) && d.entriesNeedSave && env.saves(path)
    ensures CleanFile(env.floats, path, SyncDir(env, d, path, disk).1)
  {
    var es := Useful(CleanAll(d.entries));
    var saved := disk[path := FileOf(env, es)];
    TidyClean(d.entries);
    UsefulKeeps(CleanAll(d.entries));
    SavedFileLoads(env, es);
    var synced := if !d.someSubdirNeedsSync then (d.subdirs, saved) else SyncDirs(env, d.subdirs, path, saved);
    if d.someSubdirNeedsSync { SyncDirsFrame(env, d.subdirs, path, saved, path); }
    DropDirsIs(synced.0, path, synced.1, path);
  }

  lemma CleanFileLocal(ft: FloatText, p: Path, a: Disk, b: Disk)
    requires CleanFile(ft, p, a) && (p in b ==> SameFile(p, a, b))
    ensures CleanFile(ft, p, b)
  {
    if p in b { FileEntriesLocal(ft, p, a, b); }
  }

  /** The subdirectory on the way to a directory that has a flag. */
  lemma FlaggedStep(env: Env, d: MDir, path: Path, disk: Disk, rel: Path) returns (i: nat)
    requires Inv(env.floats, d, path, disk) && Flagged(d, rel) && AllSaved(env, d, path) && rel != []
    ensures d.someSubdirNeedsSync && DistinctNames(d.subdirs) && i < |d.subdirs| && d.subdirs[i].name == rel[0]
    ensures NeedsSync(d.subdirs[i]) && Flagged(d.subdirs[i], rel[1..])
    ensures var q := path + [rel[0]]; Inv(env.floats, d.subdirs[i], q, disk) && AllSaved(env, d.subdirs[i], q)
  {
    FindDirIs(d.subdirs, rel[0]);
    i := FindDir(d.subdirs, rel[0]).value;
    FlaggedReached(env.floats, d, path, disk, rel);
  }

  /** With all its saves made, a sync leaves no directory that had a flag with a file to clean. */
  lemma {:induction false} FlaggedFile(env: Env, d: MDir, path: Path, disk: Disk, rel: Path)
    requires env.Sound() && Inv(env.floats, d, path, disk) && Flagged(d, rel) && AllSaved(env, d, path)
    ensures CleanFile(env.floats, path + rel, SyncDir(env, d, path, disk).1)
    decreases rel
  {
    if rel == [] {
      assert path + rel == path;
      OwnFileSaved(env, d, path, disk);
    } else {
      hide *;
      var q := path + [rel[0]];
      assert path + rel == q + rel[1..] && q <= path + rel;
      var i := FlaggedStep(env, d, path, disk, rel);
      FlaggedFile(env, d.subdirs[i], q, disk, rel[1..]);
      ChildFile(env, d, path, disk, i, path + rel);
      CleanFileLocal(env.floats, path + rel, SyncDir(env, d.subdirs[i], q, disk).1, SyncDir(env, d, path, disk).1);
    }
  }

  lemma FlaggedKey(env: Env, root: MDir, disk: Disk, rel: Path, k: string)
    requires env.Sound() && Inv(env.floats, root, [], disk) && Flagged(root, rel) && SavesAll(env, root)
    ensures NothingToClean(FileEntry(env.floats, rel, SyncTree(env, root, disk).1, k))
  {
    FlaggedReached(env.floats, root, [], disk, rel);
    FlaggedFile(env, root, [], disk, rel);
    assert [] + rel == rel;
    CleanAllFind(FileEntries(env.floats, rel, SyncTree(env, root, disk).1), k);
  }

  // Reloading

  lemma EntryPlain(e: Entry)
    requires EntryReadable(e, false)
    ensures MainPlain(e)
  {
  }

  lemma DiskEntryPlain(ft: FloatText, rel: Path, disk: Disk, k: string)
    requires GoodFiles(ft, disk)
    ensures var e := Lookup(DiskEntries(ft, [], rel, disk), k); e.Some? ==> MainPlain(e.value)
  {
    DiskEntriesAre(ft, [], rel, disk);
    assert [] + rel == rel;
    GoodFileTidy(ft, rel, disk);
    var es := FileEntries(ft, rel, disk);
    FindEntryIs(es, k);
    if FindEntry(es, k).Some? { EntryPlain(es[FindEntry(es, k).value]); }
  }

  /** What a fresh tree answers against the one in memory: the same entry, perhaps not cleaned; and so the
      same answer exactly if memory was not cleaned either, or cleaning is harmless for these locales. */
  predicate Reloaded(file: Option<Entry>, now: Option<Entry>, locales: seq<string>) {
    match file
    case None => now == None
    case Some(e) =>
      && (now == file || now == Some(Clean(e)))
      && (NothingToClean(file) || !NothingToClean(now) ==> Answer(file, locales) == Answer(now, locales))
      && (OnePerLocale(e.localSchemas) ==>
            (Answer(file, locales) == Answer(now, locales) <==> !NothingToClean(now) || CleanHarmless(e, locales)))
  }

  /** After a sync that leaves nothing to do, for every key and list of locales. */
  lemma ReloadAnswers(env: Env, root: MDir, disk: Disk, rel: Path, key: string, locales: seq<string>)
    requires GoodFiles(env.floats, disk) && Inv(env.floats, root, [], disk) && !NeedsSync(root)
    ensures Reloaded(See(env.floats, NewDir("/"), [], disk, rel, key), See(env.floats, root, [], disk, rel, key), locales)
  {
    CleanViewIsDisk(env.floats, root, [], rel, disk);
    FreshView(env.floats, "/", [], rel, disk);
    DiskEntryPlain(env.floats, rel, disk, key);
    var file := DiskEntries(env.floats, [], rel, disk);
    if file.Some? {
      CleanAllFind(file.value, key);
      var e := Lookup(file, key);
      if e.Some? {
        CleanTwice(e.value);
        if OnePerLocale(e.value.localSchemas) { CleanKeepsAnswer(e.value, locales); }
      }
    }
  }
}
