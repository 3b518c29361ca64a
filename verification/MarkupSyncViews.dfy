/** What a lazy reader sees: unchanged by loading, changed by an edit at one key only, cleaned by a sync
    where that sync comes, and after a successful sync what a fresh tree over the files sees, up to
    cleaning. */
module MarkupSyncViews {
  import opened Basics
  import opened Values
  import opened MarkupTypes
  import opened MarkupParser
  import opened MarkupRoundTrip
  import opened MarkupEntries
  import opened MarkupSync
  import opened MarkupSyncLocal
  import opened MarkupSyncInv

  lemma {:induction false} DiskEntriesLocal(ft: FloatText, path: Path, rel: Path, a: Disk, b: Disk)
    requires rel != [] && AgreeBelow(path + [rel[0]], a, b)
    ensures DiskEntries(ft, path, rel, a) == DiskEntries(ft, path, rel, b)
    decreases rel
  {
    var p := path + [rel[0]];
    assert SameFile(p, a, b);
    if rel[1..] == [] {
      FileEntriesLocal(ft, p, a, b);
    } else {
      AgreeDeeper(p, rel[1], a, b);
      DiskEntriesLocal(ft, p, rel[1..], a, b);
    }
  }

  /** A view depends only on the files at or below its directory. */
  lemma {:induction false} ViewLocal(ft: FloatText, d: MDir, path: Path, rel: Path, a: Disk, b: Disk)
    requires AgreeBelow(path, a, b)
    ensures ViewEntries(ft, d, path, rel, a) == ViewEntries(ft, d, path, rel, b)
    decreases rel
  {
    assert SameFile(path, a, b);
    FileEntriesLocal(ft, path, a, b);
    if rel != [] {
      AgreeDeeper(path, rel[0], a, b);
      DiskEntriesLocal(ft, path, rel, a, b);
      match FindDir(d.subdirs, rel[0])
      case None =>
      case Some(i) =>
        if i < |d.subdirs| { ViewLocal(ft, d.subdirs[i], path + [rel[0]], rel[1..], a, b); }
    }
  }

  /** What is seen in memory against what is in the files. */
  predicate ViewFromFile(now: Option<seq<Entry>>, file: Option<seq<Entry>>) {
    match file
    case None => now == None
    case Some(es) => now.Some? && FromFile(now.value, es)
  }

  /** Where no sync is needed, memory holds what the files hold, cleaned or not. */
  lemma {:induction false} CleanViewIsDisk(ft: FloatText, d: MDir, path: Path, rel: Path, disk: Disk)
    requires Inv(ft, d, path, disk) && !NeedsSync(d)
    ensures ViewFromFile(ViewEntries(ft, d, path, rel, disk), DiskEntries(ft, path, rel, disk))
    decreases rel
  {
    if rel != [] && d.subdirsLoaded {
      FindDirIs(d.subdirs, rel[0]);
      match FindDir(d.subdirs, rel[0])
      case None =>
        var p := path + [rel[0]];
        assert StrictlyBelow(path, p) && p[|path|] == rel[0];
        assert p !in disk;
      case Some(i) => CleanViewIsDisk(ft, d.subdirs[i], path + [rel[0]], rel[1..], disk);
    }
  }

  // Loading

  lemma {:induction false} FindNewDir(names: seq<string>, name: string)
    ensures match FindDir(NewDirs(names), name)
      case None => name !in names
      case Some(i) => name in names && i < |NewDirs(names)| && NewDirs(names)[i] == NewDir(name)
  {
    if names != [] { FindNewDir(names[1..], name); }
  }

  lemma LoadEntriesView(env: Env, d: MDir, path: Path, rel: Path, disk: Disk)
    ensures ViewEntries(env.floats, LoadEntries(env, d, path, disk), path, rel, disk)
      == ViewEntries(env.floats, d, path, rel, disk)
  {
  }

  lemma LoadSubdirsView(env: Env, d: MDir, path: Path, rel: Path, disk: Disk)
    requires env.Sound()
    ensures ViewEntries(env.floats, LoadSubdirs(env, d, path, disk), path, rel, disk)
      == ViewEntries(env.floats, d, path, rel, disk)
  {
    if rel != [] && !d.subdirsLoaded {
      var children := ChildNames(path, disk);
      assert Lists(env.order(children), children);
      FindNewDir(env.order(children), rel[0]);
      ChildNamesMember(path, disk, rel[0]);
      if rel[0] in children {
        FreshView(env.floats, rel[0], path + [rel[0]], rel[1..], disk);
      }
    }
  }

  lemma FreshView(ft: FloatText, name: string, path: Path, rel: Path, disk: Disk)
    ensures ViewEntries(ft, NewDir(name), path, rel, disk) == DiskEntries(ft, path, rel, disk)
  {
  }

  lemma {:induction false} FindUpdated(ds: seq<MDir>, i: nat, sub: MDir, name: string)
    requires i < |ds| && sub.name == ds[i].name
    ensures FindDir(ds[i := sub], name) == FindDir(ds, name)
    decreases ds
  {
    if i == 0 {
      assert ds[i := sub][1..] == ds[1..];
    } else {
      assert ds[i := sub][1..] == ds[1..][i - 1 := sub];
      FindUpdated(ds[1..], i - 1, sub, name);
    }
  }

  /** Looking a directory up keeps the invariant and changes no view. */
  lemma {:induction false} LookInvView(env: Env, d: MDir, path: Path, rel: Path, disk: Disk, seen: Path)
    requires env.Sound() && GoodFiles(env.floats, disk) && Inv(env.floats, d, path, disk)
    ensures var d1 := LookAt(env, d, path, rel, disk);
      && Inv(env.floats, d1, path, disk) && d1.name == d.name && (NeedsSync(d1) <==> NeedsSync(d))
      && ViewEntries(env.floats, d1, path, seen, disk) == ViewEntries(env.floats, d, path, seen, disk)
    decreases rel
  {
    if rel == [] {
      LoadEntriesInv(env, d, path, disk);
      LoadEntriesView(env, d, path, seen, disk);
    } else {
      var d1 := LoadSubdirs(env, d, path, disk);
      LoadSubdirsInv(env, d, path, disk);
      LoadSubdirsView(env, d, path, seen, disk);
      FindDirIs(d1.subdirs, rel[0]);
      match FindDir(d1.subdirs, rel[0])
      case None =>
      case Some(i) => LookBelow(env, d1, path, rel, disk, seen, i);
    }
  }

  lemma {:induction false} LookBelow(env: Env, d: MDir, path: Path, rel: Path, disk: Disk, seen: Path, i: nat)
    requires env.Sound() && GoodFiles(env.floats, disk) && Inv(env.floats, d, path, disk) && d.subdirsLoaded
    requires rel != [] && i < |d.subdirs| && d.subdirs[i].name == rel[0]
    ensures var sub := LookAt(env, d.subdirs[i], path + [rel[0]], rel[1..], disk);
      var d1 := d.(subdirs := d.subdirs[i := sub]);
      && Inv(env.floats, d1, path, disk)
      && ViewEntries(env.floats, d1, path, seen, disk) == ViewEntries(env.floats, d, path, seen, disk)
    decreases rel, 0
  {
    var deeper := if seen == [] then [] else seen[1..];
    LookInvView(env, d.subdirs[i], path + [rel[0]], rel[1..], disk, deeper);
    var sub := LookAt(env, d.subdirs[i], path + [rel[0]], rel[1..], disk);
    ReplaceSubdirInv(env.floats, d, path, disk, i, sub, false);
    if seen != [] {
      FindUpdated(d.subdirs, i, sub, seen[0]);
      FindDirIs(d.subdirs, seen[0]);
    }
  }

  // Changes

  /** The entry under `key' after a change, where `before' is what was there. */
  function Edited(before: Option<Entry>, key: string, edit: Edit): Entry {
    Change(if before.Some? then before.value else Entry(key, None, [], None, None, 0), edit).0
  }

  lemma {:induction false} FindEntryUpdated(es: seq<Entry>, i: nat, e: Entry, key: string)
    requires i < |es| && e.name == es[i].name
    ensures FindEntry(es[i := e], key) == FindEntry(es, key)
    decreases es
  {
    if i == 0 {
      assert es[i := e][1..] == es[1..];
    } else {
      assert es[i := e][1..] == es[1..][i - 1 := e];
      FindEntryUpdated(es[1..], i - 1, e, key);
    }
  }

  lemma EditEntriesLookup(es: seq<Entry>, key: string, edit: Edit, k: string)
    ensures Lookup(Some(EditEntries(es, key, edit).0), k) ==
      if k == key then Some(Edited(Lookup(Some(es), key), key, edit)) else Lookup(Some(es), k)
  {
    FindEntryIs(es, key);
    FindEntryIs(es, k);
    match FindEntry(es, key)
    case None =>
      ChangeKeepsName(Entry(key, None, [], None, None, 0), edit);
      assert ([Edited(None, key, edit)] + es)[1..] == es;
    case Some(i) =>
      ChangeKeepsName(es[i], edit);
      FindEntryUpdated(es, i, Change(es[i], edit).0, k);
  }

  lemma EditHereView(env: Env, d: MDir, path: Path, key: string, edit: Edit, disk: Disk, k: string)
    ensures See(env.floats, EditHere(env, d, path, key, edit, disk).0, path, disk, [], k) ==
      if k == key then Some(Edited(See(env.floats, d, path, disk, [], key), key, edit))
      else See(env.floats, d, path, disk, [], k)
  {
    EditEntriesLookup(LoadEntries(env, d, path, disk).entries, key, edit, k);
  }

  lemma BlankView(ft: FloatText, name: string, path: Path, rel: Path, disk: Disk, k: string)
    ensures Lookup(ViewEntries(ft, BlankDir(name), path, rel, disk), k) == None
  {
  }

  lemma {:induction false} EditKeepsName(env: Env, d: MDir, path: Path, rel: Path, key: string, edit: Edit, disk: Disk)
    ensures EditAt(env, d, path, rel, key, edit, disk).0.name == d.name
  {
  }

  /** The entry a lazy reader finds. */
  function See(ft: FloatText, d: MDir, path: Path, disk: Disk, seen: Path, k: string): Option<Entry> {
    Lookup(ViewEntries(ft, d, path, seen, disk), k)
  }

  /** A change is seen under its own key, and nothing else is. */
  lemma {:induction false} EditView(env: Env, d: MDir, path: Path, rel: Path, key: string, edit: Edit, disk: Disk,
                                    seen: Path, k: string)
    requires env.Sound()
    ensures See(env.floats, EditAt(env, d, path, rel, key, edit, disk).0, path, disk, seen, k) ==
      if seen == rel && k == key then Some(Edited(See(env.floats, d, path, disk, rel, key), key, edit))
      else See(env.floats, d, path, disk, seen, k)
    decreases rel, 1
  {
    if rel == [] {
      EditHereView(env, d, path, key, edit, disk, k);
    } else {
      var d1 := LoadSubdirs(env, d, path, disk);
      LoadSubdirsView(env, d, path, seen, disk);
      LoadSubdirsView(env, d, path, rel, disk);
      FindDirIs(d1.subdirs, rel[0]);
      if seen != [] { HeadTail(seen, rel); }
      match FindDir(d1.subdirs, rel[0])
      case None => EditNewView(env, d1, path, rel, key, edit, disk, seen, k);
      case Some(i) => EditOldView(env, d1, path, rel, key, edit, disk, seen, k, i);
    }
  }

  lemma {:induction false} EditNewView(env: Env, d: MDir, path: Path, rel: Path, key: string, edit: Edit, disk: Disk,
                                       seen: Path, k: string)
    requires env.Sound() && d.subdirsLoaded
    requires rel != [] && FindDir(d.subdirs, rel[0]) == None
    requires seen != [] ==> (seen == rel <==> seen[0] == rel[0] && seen[1..] == rel[1..])
    ensures var r := EditAt(env, BlankDir(rel[0]), path + [rel[0]], rel[1..], key, edit, disk);
      var d1 := d.(subdirs := [r.0] + d.subdirs, someSubdirNeedsSync := d.someSubdirNeedsSync || r.1);
      See(env.floats, d1, path, disk, seen, k) ==
        if seen == rel && k == key then Some(Edited(None, key, edit)) else See(env.floats, d, path, disk, seen, k)
    decreases rel, 0
  {
    var blank := BlankDir(rel[0]);
    var p := path + [rel[0]];
    EditKeepsName(env, blank, p, rel[1..], key, edit, disk);
    var r := EditAt(env, blank, p, rel[1..], key, edit, disk);
    assert ([r.0] + d.subdirs)[1..] == d.subdirs;
    if seen != [] {
      EditView(env, blank, p, rel[1..], key, edit, disk, seen[1..], k);
      BlankView(env.floats, rel[0], p, seen[1..], disk, k);
      BlankView(env.floats, rel[0], p, rel[1..], disk, key);
      FindDirIs(d.subdirs, seen[0]);
    }
  }

  lemma {:induction false} EditOldView(env: Env, d: MDir, path: Path, rel: Path, key: string, edit: Edit, disk: Disk,
                                       seen: Path, k: string, i: nat)
    requires env.Sound() && d.subdirsLoaded
    requires rel != [] && FindDir(d.subdirs, rel[0]) == Some(i)
    requires i < |d.subdirs| && d.subdirs[i].name == rel[0]
    requires seen != [] ==> (seen == rel <==> seen[0] == rel[0] && seen[1..] == rel[1..])
    ensures var r := EditAt(env, d.subdirs[i], path + [rel[0]], rel[1..], key, edit, disk);
      var d1 := d.(subdirs := d.subdirs[i := r.0], someSubdirNeedsSync := d.someSubdirNeedsSync || r.1);
      See(env.floats, d1, path, disk, seen, k) ==
        if seen == rel && k == key then Some(Edited(See(env.floats, d, path, disk, rel, key), key, edit))
        else See(env.floats, d, path, disk, seen, k)
    decreases rel, 0
  {
    var p := path + [rel[0]];
    EditKeepsName(env, d.subdirs[i], p, rel[1..], key, edit, disk);
    var r := EditAt(env, d.subdirs[i], p, rel[1..], key, edit, disk);
    if seen != [] {
      FindUpdated(d.subdirs, i, r.0, seen[0]);
      FindDirIs(d.subdirs, seen[0]);
      EditView(env, d.subdirs[i], p, rel[1..], key, edit, disk, seen[1..], k);
    }
  }

  /** A change queues a sync, and raises flags, unless it unsets the value of an entry that has none. */
  lemma {:induction false} EditQueues(env: Env, d: MDir, path: Path, rel: Path, key: string, edit: Edit, disk: Disk)
    requires env.Sound()
    ensures var before := See(env.floats, d, path, disk, rel, key);
      EditAt(env, d, path, rel, key, edit, disk).1 <==>
        !(edit.UnsetValue? && before.Some? && before.value.value == None)
    decreases rel
  {
    if rel == [] {
      FindEntryIs(LoadEntries(env, d, path, disk).entries, key);
    } else {
      var d1 := LoadSubdirs(env, d, path, disk);
      LoadSubdirsView(env, d, path, rel, disk);
      FindDirIs(d1.subdirs, rel[0]);
      match FindDir(d1.subdirs, rel[0])
      case None =>
        EditQueues(env, BlankDir(rel[0]), path + [rel[0]], rel[1..], key, edit, disk);
        BlankView(env.floats, rel[0], path + [rel[0]], rel[1..], disk, key);
      case Some(i) => EditQueues(env, d1.subdirs[i], path + [rel[0]], rel[1..], key, edit, disk);
    }
  }

  // Syncing

  /** The directory in memory at a relative key. */
  function DirAt(d: MDir, rel: Path): Option<MDir>
    decreases rel
  {
    if rel == [] then Some(d)
    else match FindDir(d.subdirs, rel[0])
         case None => None
         case Some(i) => if i < |d.subdirs| then DirAt(d.subdirs[i], rel[1..]) else None
  }

  predicate Flagged(d: MDir, rel: Path) { DirAt(d, rel).Some? && DirAt(d, rel).value.entriesNeedSave }

  /** A sync of this directory comes to the one at `rel' below it and finds the entries in memory. */
  predicate Reaches(d: MDir, rel: Path)
    decreases rel
  {
    if rel == [] then d.entriesLoaded
    else
      d.someSubdirNeedsSync &&
      match FindDir(d.subdirs, rel[0])
      case None => false
      case Some(i) => i < |d.subdirs| && NeedsSync(d.subdirs[i]) && Reaches(d.subdirs[i], rel[1..])
  }

  /** What a sync of this directory makes of an entry at `rel' below it: where it comes it cleans the entry,
      and if the directory is flagged it drops an entry that then holds nothing. */
  function Synced(d: MDir, rel: Path, e: Option<Entry>): Option<Entry> {
    if !Reaches(d, rel) || e == None then e
    else if Flagged(d, rel) && Useless(Clean(e.value)) then None
    else Some(Clean(e.value))
  }

  /** The same seen from the subdirectory that leads there. */
  lemma SyncedThrough(d: MDir, rel: Path, e: Option<Entry>, i: nat)
    requires rel != [] && i < |d.subdirs| && FindDir(d.subdirs, rel[0]) == Some(i) && d.someSubdirNeedsSync
    ensures Synced(d, rel, e) == if NeedsSync(d.subdirs[i]) then Synced(d.subdirs[i], rel[1..], e) else e
  {
  }

  lemma SyncedElsewhere(d: MDir, rel: Path, e: Option<Entry>)
    requires rel != []
    ensures !d.someSubdirNeedsSync ==> Synced(d, rel, e) == e
    ensures e == None ==> Synced(d, rel, e) == None
  {
  }

  /** Below the directory, its own entries do not matter. */
  lemma SyncedBelow(d: MDir, d1: MDir, rel: Path, e: Option<Entry>)
    requires rel != [] && d1.subdirs == d.subdirs && d1.someSubdirNeedsSync == d.someSubdirNeedsSync
    ensures Synced(d1, rel, e) == Synced(d, rel, e)
  {
  }

  lemma {:induction false} CleanAllFind(es: seq<Entry>, key: string)
    ensures Lookup(Some(CleanAll(es)), key) ==
      match Lookup(Some(es), key) case None => None case Some(e) => Some(Clean(e))
    ensures FindEntry(CleanAll(es), key) == FindEntry(es, key)
  {
    CleanAllIs(es);
    if es != [] { CleanAllFind(es[1..], key); }
  }

  lemma {:induction false} UsefulFind(es: seq<Entry>, key: string)
    requires UniqueKeys(es)
    ensures Lookup(Some(Useful(es)), key) ==
      if Lookup(Some(es), key).Some? && Useless(Lookup(Some(es), key).value) then None else Lookup(Some(es), key)
  {
    FindEntryIs(es, key);
    FindEntryIs(Useful(es), key);
    if es != [] {
      var rest := es[1..];
      UsefulFind(rest, key);
      FindEntryIs(rest, key);
      if Useless(es[0]) {
        assert [] + Useful(rest) == Useful(rest);
      } else {
        assert ([es[0]] + Useful(rest))[1..] == Useful(rest);
      }
    }
  }

  /** Saving settles the directory's own entries if they are in memory. */
  lemma SaveSettles(env: Env, d: MDir, path: Path, disk: Disk, k: string)
    requires env.Sound() && Inv(env.floats, d, path, disk)
    ensures var r := SaveEntries(env, d, path, disk);
      See(env.floats, r.0, path, r.1, [], k) == Synced(d, [], See(env.floats, d, path, disk, [], k))
  {
    TidyClean(d.entries);
    CleanAllFind(d.entries, k);
    UsefulFind(CleanAll(d.entries), k);
    hide Inv, Tidy, CleanAll, Useful, Clean, Useless, FindEntry;
  }

  /** Saving changes no view of another directory. */
  lemma SaveKeepsOthers(env: Env, d: MDir, path: Path, disk: Disk, seen: Path, k: string)
    requires seen != []
    ensures var r := SaveEntries(env, d, path, disk);
      See(env.floats, r.0, path, r.1, seen, k) == See(env.floats, d, path, disk, seen, k)
  {
    var disk1 := SaveEntries(env, d, path, disk).1;
    SaveAgrees(env, d, path, disk, seen[0]);
    DiskEntriesLocal(env.floats, path, seen, disk, disk1);
    match FindDir(d.subdirs, seen[0])
    case None =>
    case Some(i) =>
      if i < |d.subdirs| {
        ViewLocal(env.floats, d.subdirs[i], path + [seen[0]], seen[1..], disk, disk1);
      }
  }

  /** Where a search finds the directory that it found before, if that was kept. */
  predicate FoundKept(ds: seq<MDir>, kept: seq<MDir>, name: string) {
    match FindDir(ds, name)
    case None => FindDir(kept, name) == None
    case Some(i) =>
      i < |ds| && if UselessDir(ds[i]) then FindDir(kept, name) == None
      else FindDir(kept, name).Some? && FindDir(kept, name).value < |kept| && kept[FindDir(kept, name).value] == ds[i]
  }

  lemma FindFirst(ds: seq<MDir>, name: string)
    requires ds != []
    ensures FindDir(ds, name) ==
      if ds[0].name == name then Some(0)
      else match FindDir(ds[1..], name) case None => None case Some(i) => Some(i + 1)
  {
  }

  lemma {:induction false} FindKept(ds: seq<MDir>, name: string)
    requires DistinctNames(ds)
    ensures FoundKept(ds, KeepDirs(ds), name)
  {
    if ds != [] {
      var rest := ds[1..];
      FindKept(rest, name);
      FindDirIs(rest, name);
      FindFirst(ds, name);
      KeptAbsent(rest, name);
      if UselessDir(ds[0]) {
        assert KeepDirs(ds) == KeepDirs(rest);
        hide FindDir, KeepDirs, UselessDir;
      } else {
        assert KeepDirs(ds) == [ds[0]] + KeepDirs(rest);
        hide FindDir, KeepDirs, UselessDir;
        FindFirst([ds[0]] + KeepDirs(rest), name);
        assert ([ds[0]] + KeepDirs(rest))[1..] == KeepDirs(rest);
      }
    }
  }

  lemma KeptAbsent(ds: seq<MDir>, name: string)
    requires FoundKept(ds, KeepDirs(ds), name)
    ensures FindDir(ds, name) == None ==> FindDir(KeepDirs(ds), name) == None
  {
  }

  /** Nothing is seen in a useless directory. */
  lemma UselessView(ft: FloatText, d: MDir, path: Path, disk: Disk, seen: Path, k: string)
    requires UselessDir(d)
    ensures See(ft, d, path, disk, seen, k) == None
  {
  }

  /** The view through a loaded list of subdirectories. */
  lemma ThroughChild(ft: FloatText, d: MDir, path: Path, disk: Disk, seen: Path, k: string, i: nat)
    requires seen != [] && d.subdirsLoaded && i < |d.subdirs| && FindDir(d.subdirs, seen[0]) == Some(i)
    ensures See(ft, d, path, disk, seen, k) == See(ft, d.subdirs[i], path + [seen[0]], disk, seen[1..], k)
  {
  }

  lemma NoChild(ft: FloatText, d: MDir, path: Path, disk: Disk, seen: Path, k: string)
    requires seen != [] && d.subdirsLoaded && FindDir(d.subdirs, seen[0]) == None
    ensures See(ft, d, path, disk, seen, k) == None
  {
  }

  /** Deleting useless subdirectories changes no answer. */
  lemma DropView(ft: FloatText, d: MDir, path: Path, disk: Disk, seen: Path, k: string)
    requires Inv(ft, d, path, disk)
    ensures See(ft, d.(subdirs := KeepDirs(d.subdirs)), path, DropDirs(d.subdirs, path, disk), seen, k)
      == See(ft, d, path, disk, seen, k)
  {
    var disk1 := DropDirs(d.subdirs, path, disk);
    if seen == [] {
      DropDirsIs(d.subdirs, path, disk, path);
      FileEntriesLocal(ft, path, disk, disk1);
    } else if !d.subdirsLoaded {
      assert disk1 == disk;
    } else {
      DropDeepView(ft, d, path, disk, seen, k);
    }
  }

  lemma DropDeepView(ft: FloatText, d: MDir, path: Path, disk: Disk, seen: Path, k: string)
    requires seen != [] && d.subdirsLoaded && DistinctNames(d.subdirs)
    ensures See(ft, d.(subdirs := KeepDirs(d.subdirs)), path, DropDirs(d.subdirs, path, disk), seen, k)
      == See(ft, d, path, disk, seen, k)
  {
    var disk1 := DropDirs(d.subdirs, path, disk);
    var d1 := d.(subdirs := KeepDirs(d.subdirs));
    FindKept(d.subdirs, seen[0]);
    FindDirIs(d.subdirs, seen[0]);
    match FindDir(d.subdirs, seen[0])
    case None =>
      NoChild(ft, d, path, disk, seen, k);
      NoChild(ft, d1, path, disk1, seen, k);
    case Some(i) =>
      ThroughChild(ft, d, path, disk, seen, k, i);
      if UselessDir(d.subdirs[i]) {
        UselessView(ft, d.subdirs[i], path + [seen[0]], disk, seen[1..], k);
        NoChild(ft, d1, path, disk1, seen, k);
      } else {
        ThroughChild(ft, d1, path, disk1, seen, k, FindDir(d1.subdirs, seen[0]).value);
        DropSpares(d.subdirs, path, disk, d.subdirs[i]);
        ViewLocal(ft, d.subdirs[i], path + [seen[0]], seen[1..], disk, disk1);
      }
  }

  lemma PruneView(env: Env, d: MDir, path: Path, disk: Disk, dropped: bool, seen: Path, k: string)
    requires env.Sound() && Inv(env.floats, d, path, disk)
    ensures var r := Prune(env, d, path, disk, dropped);
      See(env.floats, r.0, path, r.1, seen, k) == See(env.floats, d, path, disk, seen, k)
  {
    DropView(env.floats, d, path, disk, seen, k);
    var disk1 := DropDirs(d.subdirs, path, disk);
    var d1 := d.(subdirs := KeepDirs(d.subdirs));
    var d2 := if dropped then LoadSubdirs(env, d1, path, disk1) else d1;
    LoadSubdirsView(env, d1, path, seen, disk1);
    LoadEntriesView(env, d2, path, seen, disk1);
  }

  lemma {:induction false} FindSameNames(a: seq<MDir>, b: seq<MDir>, name: string)
    requires SameNames(a, b)
    ensures FindDir(a, name) == FindDir(b, name)
  {
    if a != [] { FindSameNames(a[1..], b[1..], name); }
  }

  /** A sync, complete or not, changes an entry by cleaning it, or dropping it if that leaves nothing, and
      only where it comes and finds the entries in memory. */
  lemma {:induction false} SyncView(env: Env, d: MDir, path: Path, disk: Disk, seen: Path, k: string)
    requires env.Sound() && GoodFiles(env.floats, disk) && Inv(env.floats, d, path, disk) && ValidPath(path)
    ensures var r := SyncDir(env, d, path, disk);
      See(env.floats, r.0, path, r.1, seen, k) == Synced(d, seen, See(env.floats, d, path, disk, seen, k))
    decreases seen, 2
  {
    var saved := SaveEntries(env, d, path, disk);
    SaveInv(env, d, path, disk);
    var dropped := d.entriesNeedSave && |saved.0.entries| < |d.entries|;
    var synced := if !d.someSubdirNeedsSync then (d.subdirs, saved.1) else SyncDirs(env, d.subdirs, path, saved.1);
    var d1 := saved.0.(
      subdirs := synced.0,
      someSubdirNeedsSync := d.someSubdirNeedsSync && SomeNeedSync(synced.0));
    SyncedInv(env, d, path, disk);
    PruneView(env, d1, path, synced.1, dropped, seen, k);
    if seen == [] {
      SaveSettles(env, d, path, disk, k);
      if d.someSubdirNeedsSync { SyncDirsFrame(env, d.subdirs, path, saved.1, path); }
      FileEntriesLocal(env.floats, path, saved.1, synced.1);
    } else {
      var before := See(env.floats, d, path, disk, seen, k);
      SyncedElsewhere(d, seen, before);
      SyncedBelow(d, saved.0, seen, before);
      SaveKeepsOthers(env, d, path, disk, seen, k);
      if d.someSubdirNeedsSync {
        hide Synced, See, Inv, SyncDirs, Prune;
        SubdirsView(env, saved.0, path, saved.1, seen, k);
      } else {
        assert d1 == saved.0;
      }
    }
  }

  /** The directory between the sync of its subdirectories and the pruning. */
  lemma SyncedInv(env: Env, d: MDir, path: Path, disk: Disk)
    requires env.Sound() && GoodFiles(env.floats, disk) && Inv(env.floats, d, path, disk) && ValidPath(path)
    ensures var saved := SaveEntries(env, d, path, disk);
      var synced := if !d.someSubdirNeedsSync then (d.subdirs, saved.1) else SyncDirs(env, d.subdirs, path, saved.1);
      Inv(env.floats,
          saved.0.(subdirs := synced.0, someSubdirNeedsSync := d.someSubdirNeedsSync && SomeNeedSync(synced.0)),
          path, synced.1)
      && GoodFiles(env.floats, synced.1)
  {
    SaveInv(env, d, path, disk);
    var saved := SaveEntries(env, d, path, disk);
    if d.someSubdirNeedsSync {
      SyncDirsInv(env, d.subdirs, path, saved.1);
      var synced := SyncDirs(env, d.subdirs, path, saved.1);
      SyncDirsFrame(env, d.subdirs, path, saved.1, path);
      forall p | p in synced.1 && StrictlyBelow(path, p) ensures p in saved.1 || !NotNamed(d.subdirs, p[|path|]) {
        if NotNamed(d.subdirs, p[|path|]) { SyncDirsFrame(env, d.subdirs, path, saved.1, p); }
      }
      ResultInv(env.floats, saved.0, path, saved.1, synced.0, synced.1);
    } else {
      assert saved.0.(subdirs := d.subdirs, someSubdirNeedsSync := false) == saved.0;
    }
  }

  lemma {:induction false} SubdirsView(env: Env, d: MDir, path: Path, disk: Disk, seen: Path, k: string)
    requires env.Sound() && GoodFiles(env.floats, disk) && Inv(env.floats, d, path, disk) && ValidPath(path)
    requires d.someSubdirNeedsSync && seen != []
    ensures var synced := SyncDirs(env, d.subdirs, path, disk);
      var d1 := d.(subdirs := synced.0, someSubdirNeedsSync := SomeNeedSync(synced.0));
      See(env.floats, d1, path, synced.1, seen, k) == Synced(d, seen, See(env.floats, d, path, disk, seen, k))
    decreases seen, 1
  {
    FlaggedParts(env.floats, d, path, disk);
    FindDirIs(d.subdirs, seen[0]);
    hide Synced, Inv, DirInv, SyncDirs, SyncOne, See, GoodFiles, ValidPath, FindDir, SomeNeedSync;
    var synced := SyncDirs(env, d.subdirs, path, disk);
    var d1 := d.(subdirs := synced.0, someSubdirNeedsSync := SomeNeedSync(synced.0));
    SyncDirsInv(env, d.subdirs, path, disk);
    FindSameNames(synced.0, d.subdirs, seen[0]);
    match FindDir(d.subdirs, seen[0])
    case None =>
      NoChild(env.floats, d, path, disk, seen, k);
      NoChild(env.floats, d1, path, synced.1, seen, k);
      SyncedElsewhere(d, seen, None);
    case Some(i) =>
      SyncedThrough(d, seen, See(env.floats, d, path, disk, seen, k), i);
      SyncDirsAt(env, d.subdirs, path, disk, i);
      OneView(env, d.subdirs[i], path, seen, disk, synced.1, k);
      ThroughChild(env.floats, d, path, disk, seen, k, i);
      ThroughChild(env.floats, d1, path, synced.1, seen, k, i);
  }

  /** A directory with a subdirectory to sync has its list of subdirectories. */
  lemma FlaggedParts(ft: FloatText, d: MDir, path: Path, disk: Disk)
    requires Inv(ft, d, path, disk) && d.someSubdirNeedsSync && ValidPath(path)
    ensures d.subdirsLoaded && DistinctNames(d.subdirs) && AllInv(ft, d.subdirs, path, disk)
    ensures forall i :: 0 <= i < |d.subdirs| ==>
      Inv(ft, d.subdirs[i], path + [d.subdirs[i].name], disk) && ValidPath(path + [d.subdirs[i].name])
  {
  }

  /** What is seen in one subdirectory before and after all of them are synced. */
  lemma {:induction false} OneView(env: Env, sub: MDir, path: Path, seen: Path, disk: Disk, after: Disk, k: string)
    requires env.Sound() && GoodFiles(env.floats, disk) && ValidPath(path) && seen != [] && sub.name == seen[0]
    requires Inv(env.floats, sub, path + [seen[0]], disk) && ValidPath(path + [seen[0]])
    requires AgreeBelow(path + [seen[0]], after, SyncOne(env, sub, path, disk).1)
    ensures var p := path + [seen[0]];
      See(env.floats, SyncOne(env, sub, path, disk).0, p, after, seen[1..], k) ==
        var before := See(env.floats, sub, p, disk, seen[1..], k);
        if NeedsSync(sub) then Synced(sub, seen[1..], before) else before
    decreases seen, 0
  {
    var p := path + [seen[0]];
    var one := SyncOne(env, sub, path, disk);
    ViewLocal(env.floats, one.0, p, seen[1..], after, one.1);
    hide Inv, ViewEntries, SyncDir, GoodFiles, AgreeBelow, ValidPath;
    if NeedsSync(sub) { SyncView(env, sub, p, disk, seen[1..], k); }
  }
}
