/** The dirty flags never forget a change: the invariant of the tree, kept by every operation. */
module MarkupSyncInv {
  import opened Basics
  import opened Values
  import opened MarkupTypes
  import opened MarkupPrinter
  import opened MarkupParser
  import opened MarkupRoundTrip
  import opened MarkupEntries
  import opened MarkupSync
  import opened MarkupSyncLocal

  ghost predicate UniqueKeys(es: seq<Entry>) {
    forall i, j :: 0 <= i < j < |es| ==> es[i].name != es[j].name
  }

  /** Entries that can be written and read back. */
  ghost predicate Tidy(es: seq<Entry>) { EntriesReadable(es, false) && UniqueKeys(es) }

  /** A file that loads without error, to tidy entries. */
  ghost predicate GoodFile(ft: FloatText, es: seq<Event>) {
    match LoadFile(NO_DIR, false, ft, es)
    case Tree(d) => Tidy(d.entries)
    case _ => false
  }

  /** What is in memory of a directory without a flag: its file, or what a sync made of that. */
  predicate FromFile(es: seq<Entry>, file: seq<Entry>) { es == file || es == CleanAll(file) }

  ghost predicate ValidPath(rel: Path) { forall i :: 0 <= i < |rel| ==> Visible(rel[i]) }

  ghost predicate GoodFiles(ft: FloatText, disk: Disk) {
    forall p :: p in disk ==> GoodFile(ft, disk[p]) && ValidPath(p)
  }

  ghost predicate StrictlyBelow(path: Path, p: Path) { path <= p && p != path }

  /** Every directory below `path' that has a file is in a directory that has one. */
  ghost predicate ClosedBelow(path: Path, disk: Disk) {
    forall p :: p in disk && StrictlyBelow(path, p) ==> p[..|p| - 1] == path || p[..|p| - 1] in disk
  }

  /** Every file below `path' is below one of these subdirectories. */
  ghost predicate Covers(ds: seq<MDir>, path: Path, disk: Disk) {
    forall p :: p in disk && StrictlyBelow(path, p) ==> !NotNamed(ds, p[|path|])
  }

  /** A directory's entries, flags and list of subdirectories agree with the files. */
  ghost predicate DirInv(ft: FloatText, d: MDir, path: Path, disk: Disk) {
    && Tidy(d.entries)
    && (d.entriesNeedSave ==> d.entriesLoaded)
    && (!d.entriesNeedSave ==> path == [] || path in disk)
    && (d.entriesLoaded && !d.entriesNeedSave ==> FromFile(d.entries, FileEntries(ft, path, disk)))
    && (!d.entriesLoaded ==> d.entries == [])
    && (d.someSubdirNeedsSync ==> d.subdirsLoaded)
    && (!d.someSubdirNeedsSync ==> forall i :: 0 <= i < |d.subdirs| ==> !NeedsSync(d.subdirs[i]))
    && DistinctNames(d.subdirs)
    && (forall i :: 0 <= i < |d.subdirs| ==> Visible(d.subdirs[i].name))
    && (if d.subdirsLoaded then Covers(d.subdirs, path, disk)
        else d.subdirs == [] && ClosedBelow(path, disk))
  }

  ghost predicate Inv(ft: FloatText, d: MDir, path: Path, disk: Disk)
    decreases d
  {
    && DirInv(ft, d, path, disk)
    && forall i :: 0 <= i < |d.subdirs| ==> Inv(ft, d.subdirs[i], path + [d.subdirs[i].name], disk)
  }

  lemma CoversLocal(ds: seq<MDir>, path: Path, a: Disk, b: Disk)
    requires AgreeBelow(path, a, b) && Covers(ds, path, a)
    ensures Covers(ds, path, b)
  {
    forall p | p in b && StrictlyBelow(path, p) ensures !NotNamed(ds, p[|path|]) { assert SameFile(p, a, b); }
  }

  lemma ClosedLocal(path: Path, a: Disk, b: Disk)
    requires AgreeBelow(path, a, b) && ClosedBelow(path, a)
    ensures ClosedBelow(path, b)
  {
    forall p | p in b && StrictlyBelow(path, p) ensures p[..|p| - 1] == path || p[..|p| - 1] in b {
      assert SameFile(p, a, b);
      assert path <= p[..|p| - 1];
      assert SameFile(p[..|p| - 1], a, b);
    }
  }

  /** The invariant looks only at the files at or below the directory. */
  lemma {:induction false} InvLocal(ft: FloatText, d: MDir, path: Path, a: Disk, b: Disk)
    requires Inv(ft, d, path, a) && AgreeBelow(path, a, b)
    ensures Inv(ft, d, path, b)
    decreases d
  {
    assert SameFile(path, a, b);
    FileEntriesLocal(ft, path, a, b);
    if d.subdirsLoaded { CoversLocal(d.subdirs, path, a, b); } else { ClosedLocal(path, a, b); }
    forall i | 0 <= i < |d.subdirs| ensures Inv(ft, d.subdirs[i], path + [d.subdirs[i].name], b) {
      AgreeDeeper(path, d.subdirs[i].name, a, b);
      InvLocal(ft, d.subdirs[i], path + [d.subdirs[i].name], a, b);
    }
  }

  // Loading

  lemma {:induction false} NewDirsAre(names: seq<string>)
    ensures |NewDirs(names)| == |names|
    ensures forall i :: 0 <= i < |names| ==> NewDirs(names)[i] == NewDir(names[i])
  {
    if names != [] { NewDirsAre(names[1..]); }
  }

  lemma ClosedDeeper(path: Path, name: string, disk: Disk)
    requires ClosedBelow(path, disk)
    ensures ClosedBelow(path + [name], disk)
  {
    forall p | p in disk && StrictlyBelow(path + [name], p)
      ensures p[..|p| - 1] == path + [name] || p[..|p| - 1] in disk
    {
      Below(path, name, p);
      assert |p[..|p| - 1]| >= |path| + 1;
    }
  }

  /** The directory just below `path' on the way to a file has a file. */
  lemma {:induction false} FirstStep(path: Path, disk: Disk, p: Path)
    requires ClosedBelow(path, disk) && p in disk && StrictlyBelow(path, p)
    ensures path + [p[|path|]] in disk
    decreases |p|
  {
    if |p| == |path| + 1 {
      assert p == path + [p[|path|]];
    } else {
      var parent := p[..|p| - 1];
      assert path <= parent && parent[|path|] == p[|path|] && |parent| > |path|;
      FirstStep(path, disk, parent);
    }
  }

  lemma LoadEntriesInv(env: Env, d: MDir, path: Path, disk: Disk)
    requires GoodFiles(env.floats, disk) && Inv(env.floats, d, path, disk)
    ensures Inv(env.floats, LoadEntries(env, d, path, disk), path, disk)
  {
    if !d.entriesLoaded && path in disk { assert GoodFile(env.floats, disk[path]); }
  }

  /** The listed children of a directory, as load_subdirs makes them. */
  lemma ListedChildren(env: Env, path: Path, disk: Disk)
    requires env.Sound() && GoodFiles(env.floats, disk) && ClosedBelow(path, disk)
    ensures var ds := NewDirs(env.order(ChildNames(path, disk)));
      && DistinctNames(ds) && Covers(ds, path, disk)
      && (forall i :: 0 <= i < |ds| ==>
            Visible(ds[i].name) && ds[i] == NewDir(ds[i].name) && path + [ds[i].name] in disk)
  {
    var children := ChildNames(path, disk);
    var names := env.order(children);
    assert Lists(names, children);
    NewDirsAre(names);
    var ds := NewDirs(names);
    forall i | 0 <= i < |ds| ensures Visible(ds[i].name) && path + [ds[i].name] in disk {
      ChildNamesMember(path, disk, names[i]);
    }
    forall p | p in disk && StrictlyBelow(path, p) ensures !NotNamed(ds, p[|path|]) {
      FirstStep(path, disk, p);
      ChildNamesMember(path, disk, p[|path|]);
      assert ValidPath(p);
      var i :| 0 <= i < |names| && names[i] == p[|path|];
      assert ds[i].name == p[|path|];
    }
  }

  /** load_subdirs lists exactly the directories with a file whose name begins with neither a dot nor a
      percent sign, none of them loaded yet. */
  lemma ListedAre(env: Env, d: MDir, path: Path, disk: Disk, name: string)
    requires env.Sound() && !d.subdirsLoaded
    ensures var ds := LoadSubdirs(env, d, path, disk).subdirs;
      && ((exists i :: 0 <= i < |ds| && ds[i].name == name) <==>
            path + [name] in disk && name != "" && name[0] != '.' && name[0] != '%')
      && forall i :: 0 <= i < |ds| ==> !ds[i].entriesLoaded && !ds[i].subdirsLoaded && !NeedsSync(ds[i])
  {
    var children := ChildNames(path, disk);
    var names := env.order(children);
    assert Lists(names, children);
    NewDirsAre(names);
    ChildNamesMember(path, disk, name);
    if name in names {
      var i :| 0 <= i < |names| && names[i] == name;
      assert NewDirs(names)[i].name == name;
    }
  }

  lemma LoadSubdirsInv(env: Env, d: MDir, path: Path, disk: Disk)
    requires env.Sound() && GoodFiles(env.floats, disk) && Inv(env.floats, d, path, disk)
    ensures Inv(env.floats, LoadSubdirs(env, d, path, disk), path, disk)
    ensures LoadSubdirs(env, d, path, disk).subdirsLoaded
  {
    if !d.subdirsLoaded {
      ListedChildren(env, path, disk);
      var d1 := LoadSubdirs(env, d, path, disk);
      forall i | 0 <= i < |d1.subdirs| ensures Inv(env.floats, d1.subdirs[i], path + [d1.subdirs[i].name], disk) {
        ClosedDeeper(path, d1.subdirs[i].name, disk);
      }
    }
  }

  // Changes

  lemma {:induction false} FindEntryIs(es: seq<Entry>, name: string)
    ensures match FindEntry(es, name)
      case None => forall i :: 0 <= i < |es| ==> es[i].name != name
      case Some(i) => i < |es| && es[i].name == name
  {
    if es != [] { FindEntryIs(es[1..], name); }
  }

  lemma {:induction false} FindDirIs(ds: seq<MDir>, name: string)
    ensures match FindDir(ds, name)
      case None => NotNamed(ds, name)
      case Some(i) => i < |ds| && ds[i].name == name
  {
    if ds != [] { FindDirIs(ds[1..], name); }
  }

  lemma ChangeKeepsName(e: Entry, edit: Edit)
    ensures Change(e, edit).0.name == e.name
  {
  }

  /** A loaded directory may take any tidy entries as long as it is flagged. */
  lemma FlaggedEntriesInv(ft: FloatText, d: MDir, path: Path, disk: Disk, es: seq<Entry>)
    requires Inv(ft, d, path, disk) && d.entriesLoaded && Tidy(es)
    ensures Inv(ft, d.(entries := es, entriesNeedSave := true), path, disk)
  {
  }

  lemma TidyPrepend(es: seq<Entry>, e: Entry)
    requires Tidy(es) && EntryReadable(e, false)
    requires forall i :: 0 <= i < |es| ==> es[i].name != e.name
    ensures Tidy([e] + es)
  {
  }

  lemma TidyUpdate(es: seq<Entry>, i: nat, e: Entry)
    requires Tidy(es) && i < |es| && EntryReadable(e, false) && e.name == es[i].name
    ensures Tidy(es[i := e])
  {
  }

  lemma EditHereInv(env: Env, d: MDir, path: Path, key: string, edit: Edit, disk: Disk)
    requires GoodFiles(env.floats, disk) && Inv(env.floats, d, path, disk) && EditReadable(edit)
    ensures var r := EditHere(env, d, path, key, edit, disk);
      && Inv(env.floats, r.0, path, disk)
      && r.0.name == d.name
      && (r.1 ==> r.0.entriesNeedSave)
      && (!r.1 ==> (NeedsSync(r.0) <==> NeedsSync(d)))
  {
    var d1 := LoadEntries(env, d, path, disk);
    LoadEntriesInv(env, d, path, disk);
    EditEntriesTidy(d1.entries, key, edit);
    FlaggedEntriesInv(env.floats, d1, path, disk, EditEntries(d1.entries, key, edit).0);
  }

  lemma EditEntriesTidy(es: seq<Entry>, key: string, edit: Edit)
    requires Tidy(es) && EditReadable(edit)
    ensures Tidy(EditEntries(es, key, edit).0)
    ensures !EditEntries(es, key, edit).1 ==> EditEntries(es, key, edit).0 == es
  {
    FindEntryIs(es, key);
    match FindEntry(es, key)
    case None =>
      var e := Entry(key, None, [], None, None, 0);
      ChangeReadable(e, edit);
      ChangeKeepsName(e, edit);
      TidyPrepend(es, Change(e, edit).0);
    case Some(i) =>
      ChangeReadable(es[i], edit);
      ChangeKeepsName(es[i], edit);
      TidyUpdate(es, i, Change(es[i], edit).0);
  }

  /** Replacing one subdirectory; the directory must be flagged if the new one needs a sync. */
  lemma ReplaceSubdirInv(ft: FloatText, d: MDir, path: Path, disk: Disk, i: nat, sub: MDir, queued: bool)
    requires Inv(ft, d, path, disk) && i < |d.subdirs| && sub.name == d.subdirs[i].name
    requires Inv(ft, sub, path + [sub.name], disk)
    requires !queued ==> (NeedsSync(sub) ==> NeedsSync(d.subdirs[i]))
    ensures Inv(ft, d.(subdirs := d.subdirs[i := sub], someSubdirNeedsSync := d.someSubdirNeedsSync || queued), path, disk)
  {
    var ds := d.subdirs[i := sub];
    var d1 := d.(subdirs := ds, someSubdirNeedsSync := d.someSubdirNeedsSync || queued);
    SameNamesCover(d.subdirs, ds);
    assert Covers(ds, path, disk) by {
      forall p | p in disk && StrictlyBelow(path, p) ensures !NotNamed(ds, p[|path|]) {
        assert !NotNamed(d.subdirs, p[|path|]);
      }
    }
    assert DirInv(ft, d1, path, disk);
    forall j | 0 <= j < |ds| ensures Inv(ft, ds[j], path + [ds[j].name], disk) {
      if j != i { assert ds[j] == d.subdirs[j]; }
    }
  }

  lemma SameNamesCover(a: seq<MDir>, b: seq<MDir>)
    requires SameNames(a, b)
    ensures forall n :: NotNamed(b, n) ==> NotNamed(a, n)
  {
    forall n | NotNamed(b, n) ensures NotNamed(a, n) {
      forall j | 0 <= j < |a| ensures a[j].name != n { assert a[j].name == b[j].name && b[j].name != n; }
    }
  }

  lemma ConsAll<T>(x: T, xs: seq<T>, P: T -> bool)
    requires P(x) && forall i :: 0 <= i < |xs| ==> P(xs[i])
    ensures forall i :: 0 <= i < |[x] + xs| ==> P(([x] + xs)[i])
  {
  }

  lemma ConsDistinct(d: MDir, ds: seq<MDir>)
    requires DistinctNames(ds) && NotNamed(ds, d.name)
    ensures DistinctNames([d] + ds)
  {
  }

  lemma ConsCovers(d: MDir, ds: seq<MDir>, path: Path, disk: Disk)
    requires Covers(ds, path, disk)
    ensures Covers([d] + ds, path, disk)
  {
    forall p | p in disk && StrictlyBelow(path, p) ensures !NotNamed([d] + ds, p[|path|]) {
      assert !NotNamed(ds, p[|path|]);
      var j :| 0 <= j < |ds| && ds[j].name == p[|path|];
      assert ([d] + ds)[j + 1].name == p[|path|];
    }
  }

  lemma PrependSubdirInv(ft: FloatText, d: MDir, path: Path, disk: Disk, sub: MDir)
    requires Inv(ft, d, path, disk) && d.subdirsLoaded && NotNamed(d.subdirs, sub.name) && Visible(sub.name)
    requires Inv(ft, sub, path + [sub.name], disk)
    ensures Inv(ft, d.(subdirs := [sub] + d.subdirs, someSubdirNeedsSync := true), path, disk)
  {
    ConsAll(sub, d.subdirs, (x: MDir) => Visible(x.name));
    ConsDistinct(sub, d.subdirs);
    ConsCovers(sub, d.subdirs, path, disk);
    ghost var holds := (x: MDir) => Inv(ft, x, path + [x.name], disk);
    ConsAll(sub, d.subdirs, holds);
    var d1 := d.(subdirs := [sub] + d.subdirs, someSubdirNeedsSync := true);
    assert DirInv(ft, d1, path, disk);
    forall i | 0 <= i < |d1.subdirs| ensures Inv(ft, d1.subdirs[i], path + [d1.subdirs[i].name], disk) {
      assert holds(d1.subdirs[i]);
    }
  }

  /** Setting, unsetting and naming a schema keep the invariant: every changed directory is flagged,
      and so are all its ancestors. */
  lemma {:induction false} EditInv(env: Env, d: MDir, path: Path, rel: Path, key: string, edit: Edit, disk: Disk)
    requires env.Sound() && GoodFiles(env.floats, disk) && Inv(env.floats, d, path, disk)
    requires EditReadable(edit) && ValidPath(rel)
    ensures var r := EditAt(env, d, path, rel, key, edit, disk);
      && Inv(env.floats, r.0, path, disk)
      && r.0.name == d.name
      && (r.1 ==> NeedsSync(r.0))
      && (!r.1 ==> (NeedsSync(r.0) <==> NeedsSync(d)))
    decreases rel, 1
  {
    if rel == [] {
      EditHereInv(env, d, path, key, edit, disk);
    } else {
      var d1 := LoadSubdirs(env, d, path, disk);
      LoadSubdirsInv(env, d, path, disk);
      assert d1.someSubdirNeedsSync == d.someSubdirNeedsSync && d1.entriesNeedSave == d.entriesNeedSave;
      FindDirIs(d1.subdirs, rel[0]);
      match FindDir(d1.subdirs, rel[0])
      case None => EditInNew(env, d1, path, rel, key, edit, disk);
      case Some(i) => EditInOld(env, d1, path, rel, key, edit, disk, i);
    }
  }

  lemma {:induction false} EditInOld(env: Env, d: MDir, path: Path, rel: Path, key: string, edit: Edit, disk: Disk, i: nat)
    requires env.Sound() && GoodFiles(env.floats, disk) && Inv(env.floats, d, path, disk)
    requires EditReadable(edit) && ValidPath(rel) && rel != [] && i < |d.subdirs| && d.subdirs[i].name == rel[0]
    ensures var r := EditAt(env, d.subdirs[i], path + [rel[0]], rel[1..], key, edit, disk);
      Inv(env.floats, d.(subdirs := d.subdirs[i := r.0], someSubdirNeedsSync := d.someSubdirNeedsSync || r.1), path, disk)
    decreases rel, 0
  {
    EditInv(env, d.subdirs[i], path + [rel[0]], rel[1..], key, edit, disk);
    var r := EditAt(env, d.subdirs[i], path + [rel[0]], rel[1..], key, edit, disk);
    ReplaceSubdirInv(env.floats, d, path, disk, i, r.0, r.1);
  }

  function BlankDir(name: string): MDir {
    NewDir(name).(entriesLoaded := true, subdirsLoaded := true, entriesNeedSave := true)
  }

  lemma {:induction false} EditInNew(env: Env, d: MDir, path: Path, rel: Path, key: string, edit: Edit, disk: Disk)
    requires env.Sound() && GoodFiles(env.floats, disk) && Inv(env.floats, d, path, disk)
    requires EditReadable(edit) && ValidPath(rel) && rel != [] && d.subdirsLoaded && NotNamed(d.subdirs, rel[0])
    ensures var r := EditAt(env, BlankDir(rel[0]), path + [rel[0]], rel[1..], key, edit, disk);
      r.1 && Inv(env.floats, d.(subdirs := [r.0] + d.subdirs, someSubdirNeedsSync := true), path, disk)
    decreases rel, 0
  {
    BlankInv(env.floats, d, path, rel[0], disk);
    EditInv(env, BlankDir(rel[0]), path + [rel[0]], rel[1..], key, edit, disk);
    EditNewQueues(env, BlankDir(rel[0]), path + [rel[0]], rel[1..], key, edit, disk);
    PrependSubdirInv(env.floats, d, path, disk, EditAt(env, BlankDir(rel[0]), path + [rel[0]], rel[1..], key, edit, disk).0);
  }

  /** A directory that is on neither disk nor in memory starts out empty and loaded. */
  lemma BlankInv(ft: FloatText, d: MDir, path: Path, name: string, disk: Disk)
    requires Inv(ft, d, path, disk) && d.subdirsLoaded && NotNamed(d.subdirs, name)
    ensures Inv(ft, BlankDir(name), path + [name], disk)
  {
    forall p | p in disk ensures !StrictlyBelow(path + [name], p) {
      if StrictlyBelow(path, p) { assert !NotNamed(d.subdirs, p[|path|]); }
      NotBelow(path, name, p);
    }
  }

  lemma EditNewQueues(env: Env, d: MDir, path: Path, rel: Path, key: string, edit: Edit, disk: Disk)
    requires d.entriesLoaded && d.entries == [] && d.subdirsLoaded && d.subdirs == []
    ensures EditAt(env, d, path, rel, key, edit, disk).1
    decreases rel
  {
    if rel != [] {
      EditNewQueues(env, BlankDir(rel[0]), path + [rel[0]], rel[1..], key, edit, disk);
    }
  }

  // Syncing

  /** What was saved is what is loaded. */
  lemma SavedFileLoads(env: Env, es: seq<Entry>)
    requires env.Sound() && EntriesReadable(es, false)
    ensures LoadFile(NO_DIR, false, env.floats, FileOf(env, es)) == Tree(Dir("", es, []))
  {
    var d := Dir("", es, []);
    LoadPrinted(env.floats, NO_DIR, d, false, FileOf(env, es));
    FileFixed(d, false);
    assert Reverse(NO_DIR.subdirs) + [] == [];
  }

  lemma {:induction false} CleanAllIs(es: seq<Entry>)
    ensures |CleanAll(es)| == |es| && forall i :: 0 <= i < |es| ==> CleanAll(es)[i] == Clean(es[i])
  {
    if es != [] { CleanAllIs(es[1..]); }
  }

  lemma TidyClean(es: seq<Entry>)
    requires Tidy(es)
    ensures Tidy(CleanAll(es)) && CleanAll(CleanAll(es)) == CleanAll(es)
  {
    CleanAllIs(es);
    CleanAllIs(CleanAll(es));
    forall i | 0 <= i < |es|
      ensures EntryReadable(CleanAll(es)[i], false) && CleanAll(CleanAll(es))[i] == CleanAll(es)[i]
      ensures CleanAll(es)[i].name == es[i].name
    {
      CleanReadable(es[i]);
      CleanTwice(es[i]);
    }
  }

  lemma {:induction false} UsefulKeeps(es: seq<Entry>)
    requires Tidy(es) && CleanAll(es) == es
    ensures Tidy(Useful(es)) && CleanAll(Useful(es)) == Useful(es)
    ensures forall e :: e in Useful(es) ==> e in es && !Useless(e)
    ensures |Useful(es)| <= |es|
  {
    if es != [] {
      CleanAllIs(es);
      var rest := es[1..];
      CleanAllIs(rest);
      assert CleanAll(rest) == rest by {
        forall i | 0 <= i < |rest| ensures CleanAll(rest)[i] == rest[i] { assert rest[i] == es[i + 1]; }
      }
      UsefulKeeps(rest);
      if !Useless(es[0]) {
        var kept := Useful(rest);
        forall i | 0 <= i < |kept| ensures kept[i].name != es[0].name {
          assert kept[i] in rest;
        }
        TidyPrepend(kept, es[0]);
        assert ([es[0]] + kept)[1..] == kept;
      } else {
        assert [] + Useful(rest) == Useful(rest);
      }
    }
  }

  lemma GoodFileTidy(ft: FloatText, path: Path, disk: Disk)
    requires GoodFiles(ft, disk)
    ensures Tidy(FileEntries(ft, path, disk))
  {
    if path in disk { assert GoodFile(ft, disk[path]); }
  }

  /** Saving touches only the directory's own file. */
  lemma SaveAgrees(env: Env, d: MDir, path: Path, disk: Disk, name: string)
    ensures AgreeBelow(path + [name], disk, SaveEntries(env, d, path, disk).1)
  {
  }

  /** Writing a good file keeps the invariant of a directory whose entries it holds. */
  lemma WriteInv(env: Env, d: MDir, path: Path, disk: Disk, es: seq<Entry>)
    requires env.Sound() && Inv(env.floats, d, path, disk) && d.entriesLoaded && Tidy(es)
    ensures Inv(env.floats, d.(entries := es, entriesNeedSave := false), path, disk[path := FileOf(env, es)])
  {
    var disk1 := disk[path := FileOf(env, es)];
    var d1 := d.(entries := es, entriesNeedSave := false);
    SavedFileLoads(env, es);
    assert FileEntries(env.floats, path, disk1) == es;
    if d.subdirsLoaded {
      forall p | p in disk1 && StrictlyBelow(path, p) ensures !NotNamed(d.subdirs, p[|path|]) { assert p in disk; }
    } else {
      forall p | p in disk1 && StrictlyBelow(path, p) ensures p[..|p| - 1] == path || p[..|p| - 1] in disk1 {
        assert p in disk;
      }
    }
    assert DirInv(env.floats, d1, path, disk1);
    forall i | 0 <= i < |d.subdirs| ensures Inv(env.floats, d.subdirs[i], path + [d.subdirs[i].name], disk1) {
      InvLocal(env.floats, d.subdirs[i], path + [d.subdirs[i].name], disk, disk1);
    }
  }

  /** Cleaning a directory in memory. */
  lemma CleanedInv(ft: FloatText, d: MDir, path: Path, disk: Disk)
    requires GoodFiles(ft, disk) && Inv(ft, d, path, disk) && !d.entriesNeedSave
    ensures Inv(ft, d.(entries := CleanAll(d.entries)), path, disk)
  {
    TidyClean(d.entries);
    GoodFileTidy(ft, path, disk);
    TidyClean(FileEntries(ft, path, disk));
    assert DirInv(ft, d.(entries := CleanAll(d.entries)), path, disk);
  }

  lemma SaveInv(env: Env, d: MDir, path: Path, disk: Disk)
    requires env.Sound() && GoodFiles(env.floats, disk) && Inv(env.floats, d, path, disk) && ValidPath(path)
    ensures var r := SaveEntries(env, d, path, disk);
      && Inv(env.floats, r.0, path, r.1) && GoodFiles(env.floats, r.1)
      && r.0 == d.(entries := r.0.entries, entriesNeedSave := r.0.entriesNeedSave)
      && (r.0.entriesNeedSave ==> d.entriesNeedSave)
  {
    if !d.entriesNeedSave {
      CleanedInv(env.floats, d, path, disk);
    } else {
      TidyClean(d.entries);
      UsefulKeeps(CleanAll(d.entries));
      var es := Useful(CleanAll(d.entries));
      if env.saves(path) {
        WriteInv(env, d, path, disk, es);
        SavedFileLoads(env, es);
        var disk1 := disk[path := FileOf(env, es)];
        forall p | p in disk1 ensures GoodFile(env.floats, disk1[p]) && ValidPath(p) {
          if p != path { assert p in disk; }
        }
      } else {
        FlaggedEntriesInv(env.floats, d, path, disk, es);
      }
    }
  }

  /** The subdirectories of `path', each with its invariant. */
  ghost predicate AllInv(ft: FloatText, ds: seq<MDir>, path: Path, disk: Disk) {
    && DistinctNames(ds)
    && forall i :: 0 <= i < |ds| ==> Visible(ds[i].name) && Inv(ft, ds[i], path + [ds[i].name], disk)
  }

  lemma AllInvLocal(ft: FloatText, ds: seq<MDir>, path: Path, a: Disk, b: Disk)
    requires AllInv(ft, ds, path, a)
    requires forall i :: 0 <= i < |ds| ==> AgreeBelow(path + [ds[i].name], a, b)
    ensures AllInv(ft, ds, path, b)
  {
    forall i | 0 <= i < |ds| ensures Inv(ft, ds[i], path + [ds[i].name], b) {
      InvLocal(ft, ds[i], path + [ds[i].name], a, b);
    }
  }

  /** New files below `path' belong to its subdirectories. */
  ghost predicate OnlyAdds(ds: seq<MDir>, path: Path, a: Disk, b: Disk) {
    forall p :: p in b && StrictlyBelow(path, p) ==> p in a || !NotNamed(ds, p[|path|])
  }

  /** After the first subdirectory is synced, the others still have their invariants. */
  lemma OthersInv(env: Env, d: MDir, rest: seq<MDir>, path: Path, disk: Disk)
    requires AllInv(env.floats, rest, path, disk) && NotNamed(rest, d.name)
    ensures AllInv(env.floats, rest, path, SyncOne(env, d, path, disk).1)
  {
    var disk1 := SyncOne(env, d, path, disk).1;
    forall i | 0 <= i < |rest| ensures AgreeBelow(path + [rest[i].name], disk, disk1) {
      SiblingSafe(env, d, path, disk, rest[i].name);
      AgreeFlip(path + [rest[i].name], disk1, disk);
    }
    AllInvLocal(env.floats, rest, path, disk, disk1);
  }

  /** After the others are synced, the first still has its invariant. */
  lemma FirstInv(env: Env, d: MDir, rest: seq<MDir>, path: Path, disk: Disk)
    requires Inv(env.floats, d, path + [d.name], disk) && NotNamed(rest, d.name)
    ensures Inv(env.floats, d, path + [d.name], SyncDirs(env, rest, path, disk).1)
  {
    var disk1 := SyncDirs(env, rest, path, disk).1;
    SiblingsSafe(env, rest, path, disk, d.name);
    AgreeFlip(path + [d.name], disk1, disk);
    InvLocal(env.floats, d, path + [d.name], disk, disk1);
  }

  ghost predicate SameNames(a: seq<MDir>, b: seq<MDir>) {
    |a| == |b| && forall i :: 0 <= i < |a| ==> a[i].name == b[i].name
  }

  /** Syncing the subdirectories keeps each one's invariant. */
  lemma {:induction false} SyncDirsInv(env: Env, ds: seq<MDir>, path: Path, disk: Disk)
    requires env.Sound() && GoodFiles(env.floats, disk) && ValidPath(path) && AllInv(env.floats, ds, path, disk)
    ensures var r := SyncDirs(env, ds, path, disk);
      GoodFiles(env.floats, r.1) && AllInv(env.floats, r.0, path, r.1) && SameNames(r.0, ds)
    decreases ds, 0
  {
    if ds != [] {
      var rest := ds[1..];
      AllInvTail(env.floats, ds, path, disk);
      var first := SyncOne(env, ds[0], path, disk);
      assert ValidPath(path + [ds[0].name]);
      if NeedsSync(ds[0]) { SyncInv(env, ds[0], path + [ds[0].name], disk); }
      OthersInv(env, ds[0], rest, path, disk);
      SyncDirsInv(env, rest, path, first.1);
      var others := SyncDirs(env, rest, path, first.1);
      FirstInv(env, first.0, rest, path, first.1);
      JoinSynced(env.floats, first.0, others.0, ds, path, others.1);
    }
  }

  lemma JoinSynced(ft: FloatText, first: MDir, others: seq<MDir>, ds: seq<MDir>, path: Path, disk: Disk)
    requires ds != [] && first.name == ds[0].name && SameNames(others, ds[1..])
    requires Visible(first.name) && NotNamed(ds[1..], first.name)
    requires AllInv(ft, others, path, disk) && Inv(ft, first, path + [first.name], disk)
    ensures AllInv(ft, [first] + others, path, disk) && SameNames([first] + others, ds)
  {
    SameNamesCover(others, ds[1..]);
    SameNamesCover(ds[1..], others);
    AllInvCons(ft, first, others, path, disk);
    forall i | 0 <= i < |ds| ensures ([first] + others)[i].name == ds[i].name {
      if i > 0 { assert ds[1..][i - 1] == ds[i]; }
    }
  }

  lemma AgreeFlip(path: Path, a: Disk, b: Disk)
    requires AgreeBelow(path, a, b)
    ensures AgreeBelow(path, b, a)
  {
    forall q: Path | path <= q ensures SameFile(q, b, a) { assert SameFile(q, a, b); }
  }

  lemma AllInvCons(ft: FloatText, d: MDir, ds: seq<MDir>, path: Path, disk: Disk)
    requires AllInv(ft, ds, path, disk) && Inv(ft, d, path + [d.name], disk) && Visible(d.name)
    requires NotNamed(ds, d.name)
    ensures AllInv(ft, [d] + ds, path, disk)
  {
    ConsDistinct(d, ds);
    ghost var holds := (x: MDir) => Visible(x.name) && Inv(ft, x, path + [x.name], disk);
    ConsAll(d, ds, holds);
    forall i | 0 <= i < |[d] + ds|
      ensures Visible(([d] + ds)[i].name) && Inv(ft, ([d] + ds)[i], path + [([d] + ds)[i].name], disk)
    {
      assert holds(([d] + ds)[i]);
    }
  }

  lemma AllInvTail(ft: FloatText, ds: seq<MDir>, path: Path, disk: Disk)
    requires ds != [] && AllInv(ft, ds, path, disk)
    ensures AllInv(ft, ds[1..], path, disk) && NotNamed(ds[1..], ds[0].name)
    ensures Visible(ds[0].name) && Inv(ft, ds[0], path + [ds[0].name], disk)
  {
    assert forall i :: 0 <= i < |ds[1..]| ==> ds[1..][i] == ds[i + 1];
  }

  lemma {:induction false} KeepDirsAre(ds: seq<MDir>)
    ensures |KeepDirs(ds)| <= |ds|
    ensures forall d :: d in KeepDirs(ds) <==> d in ds && !UselessDir(d)
  {
    if ds != [] { KeepDirsAre(ds[1..]); }
  }

  lemma {:induction false} KeepDirsDistinct(ds: seq<MDir>)
    requires DistinctNames(ds)
    ensures DistinctNames(KeepDirs(ds))
  {
    if ds != [] {
      var rest := ds[1..];
      KeepDirsDistinct(rest);
      KeepDirsAre(rest);
      var kept := KeepDirs(rest);
      forall j | 0 <= j < |kept| ensures kept[j].name != ds[0].name { assert kept[j] in rest; }
    }
  }

  /** Dropping removes exactly the files of useless subdirectories. */
  lemma {:induction false} DropDirsIs(ds: seq<MDir>, path: Path, disk: Disk, p: Path)
    ensures p in DropDirs(ds, path, disk) <==>
      p in disk && forall i :: 0 <= i < |ds| && UselessDir(ds[i]) ==> p != path + [ds[i].name]
    ensures p in DropDirs(ds, path, disk) ==> DropDirs(ds, path, disk)[p] == disk[p]
    decreases ds
  {
    if ds != [] { DropDirsIs(ds[1..], path, DropOne(ds[0], path, disk), p); }
  }

  /** A kept subdirectory's files are not touched by the deletion of others. */
  lemma DropSpares(ds: seq<MDir>, path: Path, disk: Disk, d: MDir)
    requires DistinctNames(ds) && d in ds && !UselessDir(d)
    ensures AgreeBelow(path + [d.name], disk, DropDirs(ds, path, disk))
  {
    forall q: Path | path + [d.name] <= q ensures SameFile(q, disk, DropDirs(ds, path, disk)) {
      DropDirsIs(ds, path, disk, q);
      Below(path, d.name, q);
    }
  }

  /** After the deletion every file below `path' is still below a kept subdirectory. */
  lemma DropCovers(ft: FloatText, ds: seq<MDir>, path: Path, disk: Disk)
    requires AllInv(ft, ds, path, disk) && Covers(ds, path, disk)
    ensures Covers(KeepDirs(ds), path, DropDirs(ds, path, disk))
  {
    KeepDirsAre(ds);
    forall p | p in DropDirs(ds, path, disk) && StrictlyBelow(path, p)
      ensures !NotNamed(KeepDirs(ds), p[|path|])
    {
      DropDirsIs(ds, path, disk, p);
      assert !NotNamed(ds, p[|path|]);
      var j :| 0 <= j < |ds| && ds[j].name == p[|path|];
      KeptIfFile(ft, ds[j], path, disk, p);
      assert ds[j] in KeepDirs(ds);
      var k :| 0 <= k < |KeepDirs(ds)| && KeepDirs(ds)[k] == ds[j];
    }
  }

  /** A useless directory has no file below its own. */
  lemma KeptIfFile(ft: FloatText, d: MDir, path: Path, disk: Disk, p: Path)
    requires Inv(ft, d, path + [d.name], disk)
    requires p in disk && StrictlyBelow(path, p) && p[|path|] == d.name
    ensures UselessDir(d) ==> p == path + [d.name]
  {
    var q := path + [d.name];
    assert q <= p;
    if p != q && d.subdirsLoaded {
      assert StrictlyBelow(q, p);
      assert !NotNamed(d.subdirs, p[|q|]);
    }
  }

  lemma PruneInv(env: Env, d: MDir, path: Path, disk: Disk, dropped: bool)
    requires env.Sound() && GoodFiles(env.floats, disk) && Inv(env.floats, d, path, disk)
    ensures var r := Prune(env, d, path, disk, dropped);
      && Inv(env.floats, r.0, path, r.1) && GoodFiles(env.floats, r.1)
      && r.0.name == d.name && (NeedsSync(r.0) <==> NeedsSync(d))
  {
    var disk1 := DropDirs(d.subdirs, path, disk);
    var d1 := d.(subdirs := KeepDirs(d.subdirs));
    forall p ensures p in disk1 ==> p in disk && disk1[p] == disk[p] { DropDirsIs(d.subdirs, path, disk, p); }
    DroppedInv(env.floats, d, path, disk);
    var d2 := if dropped then LoadSubdirs(env, d1, path, disk1) else d1;
    LoadSubdirsInv(env, d1, path, disk1);
    LoadEntriesInv(env, d2, path, disk1);
  }

  lemma DroppedInv(ft: FloatText, d: MDir, path: Path, disk: Disk)
    requires Inv(ft, d, path, disk)
    ensures Inv(ft, d.(subdirs := KeepDirs(d.subdirs)), path, DropDirs(d.subdirs, path, disk))
  {
    var disk1 := DropDirs(d.subdirs, path, disk);
    var kept := KeepDirs(d.subdirs);
    var d1 := d.(subdirs := kept);
    KeepDirsAre(d.subdirs);
    KeepDirsDistinct(d.subdirs);
    DropDirsIs(d.subdirs, path, disk, path);
    FileEntriesLocal(ft, path, disk, disk1);
    if d.subdirsLoaded { DropCovers(ft, d.subdirs, path, disk); }
    forall i | 0 <= i < |kept|
      ensures Visible(kept[i].name) && !(!d.someSubdirNeedsSync && NeedsSync(kept[i]))
      ensures Inv(ft, kept[i], path + [kept[i].name], disk1)
    {
      assert kept[i] in d.subdirs;
      DropSpares(d.subdirs, path, disk, kept[i]);
      InvLocal(ft, kept[i], path + [kept[i].name], disk, disk1);
    }
    assert DirInv(ft, d1, path, disk1);
  }

  lemma {:induction false} SomeNeedSyncIs(ds: seq<MDir>)
    ensures SomeNeedSync(ds) <==> exists i :: 0 <= i < |ds| && NeedsSync(ds[i])
  {
    if ds != [] {
      SomeNeedSyncIs(ds[1..]);
      if NeedsSync(ds[0]) {
      } else if SomeNeedSync(ds[1..]) {
        var i :| 0 <= i < |ds| - 1 && NeedsSync(ds[1..][i]);
        assert NeedsSync(ds[i + 1]);
      } else {
        assert forall i :: 0 < i < |ds| ==> ds[i] == ds[1..][i - 1];
      }
    }
  }

  /** Putting the synced subdirectories back. */
  lemma ResultInv(ft: FloatText, d: MDir, path: Path, a: Disk, ds: seq<MDir>, b: Disk)
    requires Inv(ft, d, path, a) && d.someSubdirNeedsSync && AllInv(ft, ds, path, b)
    requires SameNames(ds, d.subdirs)
    requires SameFile(path, a, b) && OnlyAdds(d.subdirs, path, a, b)
    ensures Inv(ft, d.(subdirs := ds, someSubdirNeedsSync := SomeNeedSync(ds)), path, b)
  {
    SomeNeedSyncIs(ds);
    FileEntriesLocal(ft, path, a, b);
    SameNamesCover(d.subdirs, ds);
    forall p | p in b && StrictlyBelow(path, p) ensures !NotNamed(ds, p[|path|]) {
      assert p in a || !NotNamed(d.subdirs, p[|path|]);
      if p in a { assert !NotNamed(d.subdirs, p[|path|]); }
    }
    assert DirInv(ft, d.(subdirs := ds, someSubdirNeedsSync := SomeNeedSync(ds)), path, b);
  }

  /** A sync keeps the invariant and the soundness of the files, whichever saves fail. */
  lemma {:induction false} SyncInv(env: Env, d: MDir, path: Path, disk: Disk)
    requires env.Sound() && GoodFiles(env.floats, disk) && Inv(env.floats, d, path, disk) && ValidPath(path)
    ensures var r := SyncDir(env, d, path, disk);
      Inv(env.floats, r.0, path, r.1) && GoodFiles(env.floats, r.1) && r.0.name == d.name
    decreases d, 1
  {
    SaveInv(env, d, path, disk);
    var saved := SaveEntries(env, d, path, disk);
    var dropped := d.entriesNeedSave && |saved.0.entries| < |d.entries|;
    var synced := if !d.someSubdirNeedsSync then (d.subdirs, saved.1) else SyncDirs(env, d.subdirs, path, saved.1);
    var d1 := saved.0.(
      subdirs := synced.0,
      someSubdirNeedsSync := d.someSubdirNeedsSync && SomeNeedSync(synced.0));
    if d.someSubdirNeedsSync {
      SyncDirsInv(env, d.subdirs, path, saved.1);
      SyncDirsFrame(env, d.subdirs, path, saved.1, path);
      forall p | p in synced.1 && StrictlyBelow(path, p) ensures p in saved.1 || !NotNamed(d.subdirs, p[|path|]) {
        if NotNamed(d.subdirs, p[|path|]) { SyncDirsFrame(env, d.subdirs, path, saved.1, p); }
      }
      ResultInv(env.floats, saved.0, path, saved.1, synced.0, synced.1);
    } else {
      assert d1 == saved.0;
    }
    PruneInv(env, d1, path, synced.1, dropped);
  }
}
