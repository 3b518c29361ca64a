/** The markup tree as the program keeps it: one object whose tree and files are changed in place by
    loops over the lists of entries and subdirectories. Each method is proved against the functions
    of MarkupSync. */
module MarkupTree {
  import opened Basics
  import opened Values
  import opened MarkupTypes
  import opened MarkupEntries
  import opened MarkupSync
  import opened MarkupSyncInv
  import opened MarkupSyncViews
  import opened MarkupSyncFiles
  import opened MarkupSyncRuns

  // Loops over lists: kept members are prepended, and the result is reversed

  lemma {:induction false} KeepLocalsAppend(e: Entry, a: seq<LocalSchema>, x: LocalSchema)
    ensures KeepLocals(e, a + [x]) == if StillApplies(e, x) then KeepLocals(e, a) + [x] else KeepLocals(e, a)
  {
    if a == [] {
      assert a + [x] == [x];
    } else {
      assert (a + [x])[1..] == a[1..] + [x];
      KeepLocalsAppend(e, a[1..], x);
    }
  }

  /** clean_old_local_schemas */
  method CleanOldLocalSchemas(entry: Entry) returns (cleaned: Entry)
    ensures cleaned == Clean(entry)
  {
    var kept := [];
    var tmp := 0;
    while tmp < |entry.localSchemas|
      invariant 0 <= tmp <= |entry.localSchemas|
      invariant kept == Reverse(KeepLocals(entry, entry.localSchemas[..tmp]))
    {
      var local := entry.localSchemas[tmp];
      var dead := false;
      if entry.value.Some? && !entry.value.value.SchemaValue? {
        dead := true;
      } else if local.default.Some? && entry.value.Some?
                && entry.value.value.schema.vtype != local.default.value.Type() {
        dead := true;
      }
      assert entry.localSchemas[..tmp + 1] == entry.localSchemas[..tmp] + [local];
      KeepLocalsAppend(entry, entry.localSchemas[..tmp], local);
      ReverseAppend(KeepLocals(entry, entry.localSchemas[..tmp]), local);
      if !dead { kept := [local] + kept; }
      tmp := tmp + 1;
    }
    assert entry.localSchemas[..tmp] == entry.localSchemas;
    ReverseTwice(KeepLocals(entry, entry.localSchemas));
    cleaned := entry.(localSchemas := Reverse(kept));
  }

  lemma {:induction false} CleanAllAt(es: seq<Entry>, i: nat)
    requires i < |es|
    ensures |CleanAll(es)| == |es| && CleanAll(es)[i] == Clean(es[i])
  {
    if i == 0 {
      if |es| > 1 { CleanAllAt(es[1..], 0); } else { assert es[1..] == []; }
    } else {
      CleanAllAt(es[1..], i - 1);
    }
  }

  /** clean_old_local_schemas_recurse of one directory */
  method CleanEntries(entries: seq<Entry>) returns (cleaned: seq<Entry>)
    ensures cleaned == CleanAll(entries)
  {
    cleaned := entries;
    var tmp := 0;
    while tmp < |entries|
      invariant 0 <= tmp <= |entries| == |cleaned|
      invariant forall i :: 0 <= i < tmp ==> cleaned[i] == Clean(entries[i])
      invariant forall i :: tmp <= i < |entries| ==> cleaned[i] == entries[i]
    {
      var e := CleanOldLocalSchemas(cleaned[tmp]);
      cleaned := cleaned[tmp := e];
      tmp := tmp + 1;
    }
    forall i | 0 <= i < |entries| ensures |CleanAll(entries)| == |entries| && CleanAll(entries)[i] == cleaned[i] {
      CleanAllAt(entries, i);
    }
    if entries == [] { assert cleaned == []; }
  }

  lemma {:induction false} UsefulAppend(es: seq<Entry>, e: Entry)
    ensures Useful(es + [e]) == if Useless(e) then Useful(es) else Useful(es) + [e]
  {
    if es == [] {
      assert es + [e] == [e];
    } else {
      assert (es + [e])[1..] == es[1..] + [e];
      UsefulAppend(es[1..], e);
    }
  }

  /** delete_useless_entries */
  method DeleteUselessEntries(entries: seq<Entry>) returns (left: seq<Entry>, someDeleted: bool)
    ensures left == Useful(entries)
    ensures someDeleted <==> |left| < |entries|
  {
    someDeleted := false;
    var kept := [];
    var tmp := 0;
    while tmp < |entries|
      invariant 0 <= tmp <= |entries|
      invariant kept == Reverse(Useful(entries[..tmp]))
      invariant |kept| <= tmp && (someDeleted <==> |kept| < tmp)
    {
      var e := entries[tmp];
      assert entries[..tmp + 1] == entries[..tmp] + [e];
      UsefulAppend(entries[..tmp], e);
      ReverseAppend(Useful(entries[..tmp]), e);
      if e.value == None && e.localSchemas == [] && e.schemaName == None {
        someDeleted := true;
      } else {
        kept := [e] + kept;
      }
      tmp := tmp + 1;
    }
    assert entries[..tmp] == entries;
    ReverseTwice(Useful(entries));
    left := Reverse(kept);
  }

  lemma {:induction false} KeepDirsAppend(ds: seq<MDir>, d: MDir)
    ensures KeepDirs(ds + [d]) == if UselessDir(d) then KeepDirs(ds) else KeepDirs(ds) + [d]
  {
    if ds == [] {
      assert ds + [d] == [d];
    } else {
      assert (ds + [d])[1..] == ds[1..] + [d];
      KeepDirsAppend(ds[1..], d);
    }
  }

  lemma {:induction false} DropDirsAppend(ds: seq<MDir>, d: MDir, path: Path, disk: Disk)
    ensures DropDirs(ds + [d], path, disk) == DropOne(d, path, DropDirs(ds, path, disk))
    decreases ds
  {
    if ds == [] {
      assert ds + [d] == [d];
    } else {
      assert (ds + [d])[1..] == ds[1..] + [d];
      DropDirsAppend(ds[1..], d, path, DropOne(ds[0], path, disk));
    }
  }

  lemma {:induction false} SyncDirsAppend(env: Env, ds: seq<MDir>, d: MDir, path: Path, disk: Disk)
    ensures var before := SyncDirs(env, ds, path, disk);
      var one := if NeedsSync(d) then SyncDir(env, d, path + [d.name], before.1) else (d, before.1);
      SyncDirs(env, ds + [d], path, disk) == (before.0 + [one.0], one.1)
    decreases |ds|
  {
    if ds == [] {
      assert ds + [d] == [d];
      assert SyncDirs(env, ds, path, disk) == ([], disk);
      var one := if NeedsSync(d) then SyncDir(env, d, path + [d.name], disk) else (d, disk);
      assert [d][1..] == [];
      assert SyncDirs(env, [d][1..], path, one.1) == ([], one.1);
      assert [one.0] + [] == [one.0] == [] + [one.0];
    } else {
      assert (ds + [d])[1..] == ds[1..] + [d];
      var first := if NeedsSync(ds[0]) then SyncDir(env, ds[0], path + [ds[0].name], disk) else (ds[0], disk);
      SyncDirsAppend(env, ds[1..], d, path, first.1);
      var rest := SyncDirs(env, ds[1..], path, first.1);
      var one := if NeedsSync(d) then SyncDir(env, d, path + [d.name], rest.1) else (d, rest.1);
      assert [first.0] + (rest.0 + [one.0]) == ([first.0] + rest.0) + [one.0];
    }
  }

  lemma {:induction false} SomeNeedSyncAppend(ds: seq<MDir>, d: MDir)
    ensures SomeNeedSync(ds + [d]) <==> SomeNeedSync(ds) || NeedsSync(d)
  {
    if ds == [] {
      assert ds + [d] == [d];
    } else {
      assert (ds + [d])[1..] == ds[1..] + [d];
      SomeNeedSyncAppend(ds[1..], d);
    }
  }

  class Tree {
    var root: MDir
    var disk: Disk

    constructor (files: Disk)
      ensures root == NewDir("/") && disk == files
    {
      root := NewDir("/");
      disk := files;
    }

    ghost function State(): Source
      reads this
    {
      Source(root, disk)
    }

    /** markup_tree_set_value and its like: change one entry, creating it and its directories. */
    method Edit(env: Env, rel: Path, key: string, edit: MarkupEntries.Edit)
      requires env.Sound() && EditReadable(edit) && ValidPath(rel) && SourceInv(env.floats, State())
      modifies `root
      ensures State() == Do(old(State()), Op.Edit(env, rel, key, edit))
      ensures SourceInv(env.floats, State())
    {
      DoKeepsInv(env.floats, State(), Op.Edit(env, rel, key, edit));
      var r := EditAt(env, root, [], rel, key, edit, disk);
      root := r.0;
    }

    /** delete_useless_subdirs */
    method DeleteUselessSubdirs(subdirs: seq<MDir>, path: Path) returns (left: seq<MDir>, someDeleted: bool)
      modifies `disk
      ensures left == KeepDirs(subdirs) && disk == DropDirs(subdirs, path, old(disk))
      ensures someDeleted <==> |left| < |subdirs|
    {
      someDeleted := false;
      var kept := [];
      var tmp := 0;
      while tmp < |subdirs|
        invariant 0 <= tmp <= |subdirs|
        invariant kept == Reverse(KeepDirs(subdirs[..tmp]))
        invariant disk == DropDirs(subdirs[..tmp], path, old(disk))
        invariant |kept| <= tmp && (someDeleted <==> |kept| < tmp)
      {
        var d := subdirs[tmp];
        assert subdirs[..tmp + 1] == subdirs[..tmp] + [d];
        KeepDirsAppend(subdirs[..tmp], d);
        ReverseAppend(KeepDirs(subdirs[..tmp]), d);
        DropDirsAppend(subdirs[..tmp], d, path, old(disk));
        if d.entriesLoaded && d.entries == [] && d.subdirsLoaded && d.subdirs == [] {
          disk := disk - {path + [d.name]};
          someDeleted := true;
        } else {
          kept := [d] + kept;
        }
        tmp := tmp + 1;
      }
      assert subdirs[..tmp] == subdirs;
      ReverseTwice(KeepDirs(subdirs));
      left := Reverse(kept);
    }

    /** The first half of markup_dir_sync: sanitize the entries and write them out. */
    method SaveOwn(env: Env, d: MDir, path: Path) returns (r: MDir, someUseless: bool)
      modifies `disk
      ensures (r, disk) == SaveEntries(env, d, path, old(disk))
      ensures someUseless <==> d.entriesNeedSave && |r.entries| < |d.entries|
    {
      someUseless := false;
      var entries := CleanEntries(d.entries);
      assert |entries| == |d.entries| by { if d.entries != [] { CleanAllAt(d.entries, 0); } }
      r := d.(entries := entries);
      if d.entriesNeedSave {
        entries, someUseless := DeleteUselessEntries(entries);
        r := r.(entries := entries);
        if env.saves(path) {
          disk := disk[path := FileOf(env, entries)];
          r := r.(entriesNeedSave := false);
        }
      }
    }

    /** The loop of markup_dir_sync over the subdirectories. */
    method SyncSubdirs(env: Env, subdirs: seq<MDir>, path: Path) returns (after: seq<MDir>, oneFailed: bool)
      modifies `disk
      ensures (after, disk) == SyncDirs(env, subdirs, path, old(disk))
      ensures oneFailed <==> SomeNeedSync(after)
      decreases subdirs, 0
    {
      after := [];
      oneFailed := false;
      var tmp := 0;
      while tmp < |subdirs|
        invariant 0 <= tmp <= |subdirs|
        invariant (after, disk) == SyncDirs(env, subdirs[..tmp], path, old(disk))
        invariant oneFailed <==> SomeNeedSync(after)
      {
        var d := subdirs[tmp];
        assert subdirs[..tmp + 1] == subdirs[..tmp] + [d];
        SyncDirsAppend(env, subdirs[..tmp], d, path, old(disk));
        var ok := true;
        if NeedsSync(d) {
          d, ok := SyncOneDir(env, d, path + [d.name]);
        }
        if !ok { oneFailed := true; }
        SomeNeedSyncAppend(after, d);
        after := after + [d];
        tmp := tmp + 1;
      }
      assert subdirs[..tmp] == subdirs;
    }

    /** markup_dir_sync */
    method SyncOneDir(env: Env, d: MDir, path: Path) returns (r: MDir, ok: bool)
      modifies `disk
      ensures (r, disk) == SyncDir(env, d, path, old(disk))
      ensures ok <==> !NeedsSync(r)
      decreases d, 1
    {
      var someUselessEntries, someUselessSubdirs, oneFailed;
      hide SyncDirs, KeepDirs, DropDirs;
      r, someUselessEntries := SaveOwn(env, d, path);
      if d.someSubdirNeedsSync {
        var subdirs;
        subdirs, oneFailed := SyncSubdirs(env, d.subdirs, path);
        r := r.(subdirs := subdirs);
        if !oneFailed { r := r.(someSubdirNeedsSync := false); }
      }
      var left;
      left, someUselessSubdirs := DeleteUselessSubdirs(r.subdirs, path);
      r := r.(subdirs := left);
      if someUselessEntries { r := LoadSubdirs(env, r, path, disk); }
      if someUselessSubdirs { r := LoadEntries(env, r, path, disk); }
      ok := !NeedsSync(r);
    }

    /** markup_tree_sync: TRUE means that every save was made, and that a fresh tree would answer as this one
        does wherever there is nothing to clean. */
    method Sync(env: Env) returns (ok: bool)
      requires env.Sound() && SourceInv(env.floats, State())
      modifies this
      ensures State() == Do(old(State()), Op.Sync(env))
      ensures SourceInv(env.floats, State())
      ensures ok <==> SavesAll(env, old(root))
      ensures ok <==> !NeedsSync(root)
      ensures ok ==> forall rel, key, locales ::
        Reloaded(See(env.floats, NewDir("/"), [], disk, rel, key), See(env.floats, root, [], disk, rel, key), locales)
    {
      DoKeepsInv(env.floats, State(), Op.Sync(env));
      SyncReturnsTrue(env, root, disk);
      ok := true;
      if NeedsSync(root) {
        var r;
        r, ok := SyncOneDir(env, root, []);
        root := r;
      }
      if ok {
        hide Inv, GoodFiles, See, Reloaded, NeedsSync;
        forall rel, key, locales
          ensures Reloaded(See(env.floats, NewDir("/"), [], disk, rel, key), See(env.floats, root, [], disk, rel, key), locales)
        {
          ReloadAnswers(env, root, disk, rel, key, locales);
        }
      }
    }
  }
}
