/** Syncing a merged subtree (markup_dir_sync and save_tree with save_as_subtree): one main file, and one
    more for each locale with descriptions. The error of a locale file is dropped on its way out. */
module MarkupMergedSync {
  import opened Basics
  import opened Values
  import opened MarkupTypes
  import opened MarkupPrinter
  import opened MarkupEntries
  import opened MarkupLocaleFiles
  import opened MarkupLocales
  import opened MarkupLocaleAnswers
  import R = MarkupRoundTrip
  import S = MarkupSync
  import I = MarkupSyncInv
  import V = MarkupSyncViews

  // What a sync makes of the tree in memory

  /** clean_old_local_schemas_recurse */
  function Cleaned(d: Dir): Dir
    decreases d, 1
  {
    Dir(d.name, S.CleanAll(d.entries), CleanedDirs(d.subdirs))
  }

  function CleanedDirs(ds: seq<Dir>): seq<Dir>
    decreases ds, 0
  {
    if ds == [] then [] else [Cleaned(ds[0])] + CleanedDirs(ds[1..])
  }

  /** delete_useless_entries_recurse */
  function Useful(d: Dir): Dir
    decreases d, 1
  {
    Dir(d.name, S.Useful(d.entries), UsefulDirs(d.subdirs))
  }

  function UsefulDirs(ds: seq<Dir>): seq<Dir>
    decreases ds, 0
  {
    if ds == [] then [] else [Useful(ds[0])] + UsefulDirs(ds[1..])
  }

  predicate Empty(d: Dir) { d.entries == [] && d.subdirs == [] }

  /** delete_useless_subdirs_recurse */
  function Pruned(d: Dir): Dir
    decreases d, 1
  {
    Dir(d.name, d.entries, PrunedDirs(d.subdirs))
  }

  function PrunedDirs(ds: seq<Dir>): seq<Dir>
    decreases ds, 0
  {
    if ds == [] then []
    else (if Empty(Pruned(ds[0])) then [] else [Pruned(ds[0])]) + PrunedDirs(ds[1..])
  }

  lemma {:induction false} FindNames(ds: seq<Dir>, name: string)
    ensures match FindSubdir(ds, name)
      case None => forall i :: 0 <= i < |ds| ==> ds[i].name != name
      case Some(i) => i < |ds| && ds[i].name == name
  {
    if ds != [] { FindNames(ds[1..], name); }
  }

  /** Where a search finds the directory that it found before, if that was kept. */
  predicate FoundPruned(ds: seq<Dir>, pruned: seq<Dir>, name: string) {
    match FindSubdir(ds, name)
    case None => FindSubdir(pruned, name) == None
    case Some(i) =>
      i < |ds| &&
      if Empty(Pruned(ds[i])) then FindSubdir(pruned, name) == None
      else FindSubdir(pruned, name).Some? && FindSubdir(pruned, name).value < |pruned|
           && pruned[FindSubdir(pruned, name).value] == Pruned(ds[i])
  }

  lemma FindFirst(ds: seq<Dir>, name: string)
    requires ds != []
    ensures FindSubdir(ds, name) ==
      if ds[0].name == name then Some(0)
      else match FindSubdir(ds[1..], name) case None => None case Some(i) => Some(i + 1)
  {
  }

  lemma PrunedFirst(ds: seq<Dir>)
    requires ds != []
    ensures Pruned(ds[0]).name == ds[0].name
    ensures PrunedDirs(ds) ==
      if Empty(Pruned(ds[0])) then PrunedDirs(ds[1..]) else [Pruned(ds[0])] + PrunedDirs(ds[1..])
  {
  }

  lemma {:induction false} FindPruned(ds: seq<Dir>, name: string)
    requires DistinctDirs(ds)
    ensures FoundPruned(ds, PrunedDirs(ds), name)
  {
    if ds != [] {
      var rest := ds[1..];
      FindPruned(rest, name);
      FindNames(rest, name);
      FindFirst(ds, name);
      PrunedFirst(ds);
      hide FindSubdir, PrunedDirs, Pruned, Empty;
      if !Empty(Pruned(ds[0])) {
        FindFirst([Pruned(ds[0])] + PrunedDirs(rest), name);
        assert ([Pruned(ds[0])] + PrunedDirs(rest))[1..] == PrunedDirs(rest);
      }
    }
  }

  /** Dropping useless directories hides no entry. */
  lemma {:induction false} PrunedAt(d: Dir, rel: seq<string>, key: string)
    requires Unique(d)
    ensures EntryAt(Pruned(d), rel, key) == EntryAt(d, rel, key)
    decreases |rel|
  {
    if rel != [] {
      FindPruned(d.subdirs, rel[0]);
      match FindSubdir(d.subdirs, rel[0])
      case None =>
      case Some(i) => PrunedAt(d.subdirs[i], rel[1..], key);
    }
  }

  /** A function of entries alone keeps the subdirectories where they are. */
  lemma {:induction false} CleanedFind(ds: seq<Dir>, name: string)
    ensures FindSubdir(CleanedDirs(ds), name) == FindSubdir(ds, name) && |CleanedDirs(ds)| == |ds|
    ensures forall i :: 0 <= i < |ds| ==> CleanedDirs(ds)[i] == Cleaned(ds[i])
  {
    if ds != [] {
      CleanedFind(ds[1..], name);
      assert CleanedDirs(ds)[1..] == CleanedDirs(ds[1..]);
    }
  }

  lemma {:induction false} UsefulFind(ds: seq<Dir>, name: string)
    ensures FindSubdir(UsefulDirs(ds), name) == FindSubdir(ds, name) && |UsefulDirs(ds)| == |ds|
    ensures forall i :: 0 <= i < |ds| ==> UsefulDirs(ds)[i] == Useful(ds[i])
  {
    if ds != [] {
      UsefulFind(ds[1..], name);
      assert UsefulDirs(ds)[1..] == UsefulDirs(ds[1..]);
    }
  }

  lemma {:induction false} CleanedAt(d: Dir, rel: seq<string>, key: string)
    ensures EntryAt(Cleaned(d), rel, key) ==
      match EntryAt(d, rel, key) case None => None case Some(e) => Some(Clean(e))
    decreases |rel|
  {
    if rel == [] {
      V.CleanAllFind(d.entries, key);
      I.CleanAllIs(d.entries);
    } else {
      CleanedFind(d.subdirs, rel[0]);
      FindNames(d.subdirs, rel[0]);
      match FindSubdir(d.subdirs, rel[0])
      case None =>
      case Some(i) => CleanedAt(d.subdirs[i], rel[1..], key);
    }
  }

  lemma {:induction false} UsefulAt(d: Dir, rel: seq<string>, key: string)
    requires Unique(d)
    ensures EntryAt(Useful(d), rel, key) ==
      if EntryAt(d, rel, key).Some? && Useless(EntryAt(d, rel, key).value) then None else EntryAt(d, rel, key)
    decreases |rel|
  {
    if rel == [] {
      V.UsefulFind(d.entries, key);
    } else {
      UsefulFind(d.subdirs, rel[0]);
      FindNames(d.subdirs, rel[0]);
      match FindSubdir(d.subdirs, rel[0])
      case None =>
      case Some(i) => UsefulAt(d.subdirs[i], rel[1..], key);
    }
  }

  lemma {:induction false} CleanedUnique(d: Dir)
    requires Unique(d)
    ensures Unique(Cleaned(d))
  {
    I.CleanAllIs(d.entries);
    CleanedFind(d.subdirs, "");
    forall i | 0 <= i < |d.subdirs| ensures Unique(CleanedDirs(d.subdirs)[i]) { CleanedUnique(d.subdirs[i]); }
  }

  lemma {:induction false} UsefulMembers(es: seq<Entry>, e: Entry)
    requires e in S.Useful(es)
    ensures e in es
  {
    if es != [] && e in S.Useful(es[1..]) { UsefulMembers(es[1..], e); }
  }

  lemma {:induction false} UsefulNames(es: seq<Entry>)
    requires DistinctEntries(es)
    ensures DistinctEntries(S.Useful(es))
  {
    if es != [] {
      var rest := S.Useful(es[1..]);
      UsefulNames(es[1..]);
      if Useless(es[0]) {
        assert [] + rest == rest;
      } else {
        forall i | 0 <= i < |rest| ensures rest[i].name != es[0].name { UsefulMembers(es[1..], rest[i]); }
      }
    }
  }

  lemma {:induction false} UsefulUnique(d: Dir)
    requires Unique(d)
    ensures Unique(Useful(d))
  {
    UsefulNames(d.entries);
    UsefulFind(d.subdirs, "");
    forall i | 0 <= i < |d.subdirs| ensures Unique(UsefulDirs(d.subdirs)[i]) { UsefulUnique(d.subdirs[i]); }
  }

  // The files

  type Saves = Option<string> -> bool

  /** The locales that save_tree comes to know while it writes the main file: if that fails, perhaps not
      all of them. */
  ghost predicate Table(d: Dir, locales: seq<string>, saves: Saves) {
    && NoDup(locales)
    && (forall l :: l in locales ==> HasFile(d, l))
    && (saves(None) ==> forall l :: HasFile(d, l) ==> l in locales)
  }

  /** The locale files after those that could be written were. */
  ghost predicate Rewritten(d: Dir, locales: seq<string>, saves: Saves, before: map<string, seq<Event>>,
                            after: map<string, seq<Event>>)
  {
    && (forall l :: l in after <==> l in before || (l in locales && saves(Some(l))))
    && (forall l :: l in after ==> after[l] == if l in locales && saves(Some(l)) then LocaleFile(d, l) else before[l])
  }

  lemma OneRewritten(d: Dir, locales: seq<string>, i: nat, saves: Saves, before: map<string, seq<Event>>,
                     mid: map<string, seq<Event>>)
    requires i < |locales| && Rewritten(d, locales[..i], saves, before, mid)
    ensures Rewritten(d, locales[..i + 1], saves, before,
                      if saves(Some(locales[i])) then mid[locales[i] := LocaleFile(d, locales[i])] else mid)
  {
    hide LocaleFile;
    assert locales[..i + 1] == locales[..i] + [locales[i]];
  }

  class MergedDir {
    var dir: Dir                        // with everything below it loaded
    var entriesNeedSave: bool
    var someSubdirNeedsSync: bool
    var main: seq<Event>
    var files: map<string, seq<Event>>

    constructor (dir: Dir, main: seq<Event>, files: map<string, seq<Event>>)
      ensures this.dir == dir && this.main == main && this.files == files
      ensures entriesNeedSave && !someSubdirNeedsSync
    {
      this.dir, this.main, this.files := dir, main, files;
      entriesNeedSave, someSubdirNeedsSync := true, false;
    }

    predicate NeedsSync()
      reads this
    {
      entriesNeedSave || someSubdirNeedsSync
    }

    /** save_tree, with the loop of other_locales_foreach over the table of locales: an error is only
        remembered there if one was remembered before, and so none ever is. */
    method SaveTree(ft: FloatText, saves: Saves, locales: seq<string>) returns (failed: bool)
      requires Table(dir, locales, saves)
      modifies `main, `files
      ensures failed <==> !saves(None)
      ensures main == if saves(None) then FileEvents(ft, dir, true) else old(main)
      ensures Rewritten(dir, locales, saves, old(files), files)
    {
      failed := !saves(None);
      if saves(None) { main := FileEvents(ft, dir, true); }
      var firstError: Option<string> := None;
      var i := 0;
      while i < |locales|
        invariant 0 <= i <= |locales| && firstError == None
        invariant Rewritten(dir, locales[..i], saves, old(files), files)
        modifies `files
      {
        var locale := locales[i];
        OneRewritten(dir, locales, i, saves, old(files), files);
        hide Rewritten, LocaleFile, Table;
        if saves(Some(locale)) {
          files := files[locale := LocaleFile(dir, locale)];
        } else if firstError != None {
          firstError := Some(locale);
        }
        i := i + 1;
      }
      assert locales[..i] == locales;
      hide *;
      if firstError != None && !failed { failed := true; }
    }

    /** markup_dir_sync of a merged subtree: it returns TRUE exactly if the main file was saved, whatever
        became of the others, and then no flag is left. */
    method Sync(ft: FloatText, saves: Saves, locales: seq<string>) returns (ok: bool)
      requires NeedsSync() ==> Table(Useful(Cleaned(dir)), locales, saves)
      modifies this
      ensures ok <==> !NeedsSync()
      ensures ok <==> (old(NeedsSync()) ==> saves(None))
      ensures dir == Pruned(if old(NeedsSync()) then Useful(Cleaned(old(dir))) else Cleaned(old(dir)))
      ensures if old(NeedsSync())
        then main == (if saves(None) then FileEvents(ft, Useful(Cleaned(old(dir))), true) else old(main))
             && Rewritten(Useful(Cleaned(old(dir))), locales, saves, old(files), files)
        else main == old(main) && files == old(files)
    {
      dir := Cleaned(dir);
      if entriesNeedSave || someSubdirNeedsSync {
        dir := Useful(dir);
        var failed := SaveTree(ft, saves, locales);
        if !failed { entriesNeedSave, someSubdirNeedsSync := false, false; }
      }
      dir := Pruned(dir);
      ok := !(entriesNeedSave || someSubdirNeedsSync);
    }
  }

  /** After a sync that wrote the main file, every locale file is the one to write exactly if each that was
      not saved was there already. */
  lemma AllWritten(d: Dir, locales: seq<string>, saves: Saves, before: map<string, seq<Event>>,
                   after: map<string, seq<Event>>)
    requires Table(d, locales, saves) && saves(None) && Rewritten(d, locales, saves, before, after)
    ensures (forall l :: HasFile(d, l) ==> l in after && after[l] == LocaleFile(d, l)) <==>
      (forall l :: HasFile(d, l) && !saves(Some(l)) ==> l in before && before[l] == LocaleFile(d, l))
  {
    forall l | HasFile(d, l)
      ensures (l in after && after[l] == LocaleFile(d, l)) <==>
        (saves(Some(l)) || (l in before && before[l] == LocaleFile(d, l)))
    {
      assert l in locales;
    }
  }

  lemma RewrittenFiles(d: Dir, locales: seq<string>, saves: Saves, before: map<string, seq<Event>>,
                       after: map<string, seq<Event>>)
    requires Table(d, locales, saves) && Rewritten(d, locales, saves, before, after) && FilesOf(d, before)
    ensures FilesOf(d, after)
  {
    hide HasFile, LocaleFile, R.NoBlank;
  }

  /** This answer is the one of the entry exactly if what these files say of it is enough. */
  ghost predicate ComesBack(files: map<string, seq<Event>>, e: Entry, wanted: seq<string>, r: Option<Value>) {
    OnePerLocale(e.localSchemas) && MainPlain(e) ==>
      forall all :: Listed(files, all) ==> (r == EntryValue(e, wanted) <==> AnswerKept(all, e, wanted))
  }

  /** Ask a fresh tree over the files of a tree: the answer is the one before exactly if what those files say
      of the entry is enough. */
  method AskFresh(ghost d: Dir, ft: FloatText, name: string, main: seq<Event>, files: map<string, seq<Event>>,
                  rel: seq<string>, key: string, wanted: seq<string>)
    returns (r: Option<Value>)
    requires ft.Faithful() && Unique(d) && R.RereadDir(d).Some? && d.name == name
    requires main == FileEvents(ft, d, true) && FilesOf(d, files) && EntryAt(d, rel, key).Some?
    ensures ComesBack(files, EntryAt(d, rel, key).value, wanted, r)
  {
    hide *;
    var loaded := new MergedTree(ft, d, name, main, files);
    r := loaded.GetValue(rel, key, wanted);
    ghost var e := EntryAt(d, rel, key).value;
    assert R.RereadEntry(e, true).Some? && forall all :: Listed(files, all) ==> r == EntryValue(LoadedEntry(e, all), wanted);
    ItComesBack(d, files, e, wanted, r);
  }

  lemma ItComesBack(d: Dir, files: map<string, seq<Event>>, e: Entry, wanted: seq<string>, r: Option<Value>)
    requires FilesOf(d, files) && R.RereadEntry(e, true).Some?
    requires forall all :: Listed(files, all) ==> r == EntryValue(LoadedEntry(e, all), wanted)
    ensures ComesBack(files, e, wanted, r)
  {
    hide FilesOf, Listed, R.RereadEntry, LoadedEntry, EntryValue, AnswerKept, OnePerLocale, MainPlain, NoDup;
    if OnePerLocale(e.localSchemas) && MainPlain(e) {
      forall all | Listed(files, all) ensures r == EntryValue(e, wanted) <==> AnswerKept(all, e, wanted) {
        ListedNotC(d, files, all);
        AnswerComesBack(e, all, wanted);
      }
    }
  }

  /** Sync a merged subtree and ask a fresh tree over its files: after TRUE the answer is the one in memory
      exactly if what the files that were written say of it is enough. */
  method SyncAndReload(m: MergedDir, ft: FloatText, saves: Saves, locales: seq<string>, rel: seq<string>,
                       key: string, wanted: seq<string>)
    returns (ok: bool, now: Option<Value>, reloaded: Option<Value>)
    requires ft.Faithful() && m.NeedsSync() && Unique(m.dir)
    requires Table(Useful(Cleaned(m.dir)), locales, saves) && FilesOf(Useful(Cleaned(m.dir)), m.files)
    requires R.RereadDir(Useful(Cleaned(m.dir))).Some? && EntryAt(Useful(Cleaned(m.dir)), rel, key).Some?
    modifies m
    ensures (ok <==> saves(None)) && (ok <==> !m.NeedsSync())
    ensures var e := EntryAt(old(Useful(Cleaned(m.dir))), rel, key).value;
      && now == EntryValue(e, wanted)
      && Rewritten(old(Useful(Cleaned(m.dir))), locales, saves, old(m.files), m.files)
      && (ok ==> ComesBack(m.files, e, wanted, reloaded))
  {
    ghost var tree := Useful(Cleaned(m.dir));
    ghost var before := m.files;
    TreeFacts(m.dir, rel, key);
    var name := m.dir.name;
    hide *;
    ok := m.Sync(ft, saves, locales);
    RewrittenFiles(tree, locales, saves, before, m.files);
    now := EntryValue(EntryAt(m.dir, rel, key).value, wanted);
    reloaded := now;
    if ok { reloaded := AskFresh(tree, ft, name, m.main, m.files, rel, key, wanted); }
  }

  lemma TreeFacts(d: Dir, rel: seq<string>, key: string)
    requires Unique(d)
    ensures var tree := Useful(Cleaned(d));
      Unique(tree) && tree.name == d.name && EntryAt(Pruned(tree), rel, key) == EntryAt(tree, rel, key)
  {
    RenamedNot(d);
    CleanedUnique(d);
    UsefulUnique(Cleaned(d));
    PrunedAt(Useful(Cleaned(d)), rel, key);
  }

  lemma RenamedNot(d: Dir)
    ensures Useful(Cleaned(d)).name == d.name
  {
  }

  lemma ListedNotC(d: Dir, files: map<string, seq<Event>>, all: seq<string>)
    requires FilesOf(d, files) && Listed(files, all)
    ensures NoDup(all) && "C" !in all
  {
    NoFileForC(d);
  }

  // A locale file that could not be written

  const FOREIGN := Entry(
    "k", Some(SchemaValue(Schema(TInt, TInvalid, TInvalid, TInvalid, None, None, None, None, None))),
    [LocalSchema("de", Some("kurz"), Some("lang"), None)], None, None, 0)

  const FOREIGN_DIR := Dir("d", [FOREIGN], [])

  lemma ForeignIs()
    ensures Useful(Cleaned(FOREIGN_DIR)) == FOREIGN_DIR && Unique(FOREIGN_DIR) && R.RereadDir(FOREIGN_DIR).Some?
    ensures EntryAt(FOREIGN_DIR, [], "k") == Some(FOREIGN)
    ensures OnePerLocale(FOREIGN.localSchemas) && MainPlain(FOREIGN) && !AnswerKept([], FOREIGN, ["de"])
  {
    var ls := FOREIGN.localSchemas[0];
    assert |"C"| == 1 && |"de"| == 2;
    assert [ls][1..] == [] && FOREIGN.localSchemas == [ls] && [FOREIGN][1..] == [];
    assert Clean(FOREIGN) == FOREIGN && !Useless(FOREIGN);
    assert S.CleanAll([FOREIGN][1..]) == [] && S.CleanAll([FOREIGN]) == [FOREIGN];
    assert S.Useful([FOREIGN][1..]) == [] && S.Useful([FOREIGN]) == [FOREIGN];
    assert CleanedDirs([]) == [] && UsefulDirs([]) == [];
    BestOfOne(FOREIGN.localSchemas, "de");
    LocalForRest([ls], "de");
    assert R.RereadEntries([FOREIGN][1..], true) == Some([]);
    assert R.RereadDirs([]) == Some([]);
    assert R.RereadEntry(FOREIGN, true).Some?;
  }

  lemma ForeignTable(saves: Saves)
    ensures Table(FOREIGN_DIR, ["de"], saves)
  {
    assert |"C"| == 1 && |"de"| == 2;
    assert FullFor(FOREIGN.localSchemas[0], "de") && Described(FOREIGN_DIR.entries[0], "de");
  }

  /** The sync returns TRUE, the description is gone after a reload, and no later sync writes it. */
  method MissedLocale(ft: FloatText) returns (ok: bool, now: Option<Value>, reloaded: Option<Value>, written: bool)
    requires ft.Faithful()
    ensures ok && reloaded != now && !written
  {
    var saves: Saves := o => o == None;
    var m := new MergedDir(FOREIGN_DIR, [], map[]);
    ForeignIs();
    ForeignTable(saves);
    hide Cleaned, Useful, Unique, Table, R.RereadDir, EntryAt, OnePerLocale, MainPlain, AnswerKept, HasFile, LocaleFile;
    assert FilesOf(FOREIGN_DIR, m.files);
    ok, now, reloaded := SyncAndReload(m, ft, saves, ["de"], [], "k", ["de"]);
    assert "de" !in m.files && Listed(m.files, []);
    var again := m.Sync(ft, o => true, []);
    written := "de" in m.files;
  }
}
