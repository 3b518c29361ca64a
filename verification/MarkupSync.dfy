/** The lazily loaded tree of one markup source, its dirty flags, and the files below it (an unmerged
    tree: one %gconf.xml per directory). */
module MarkupSync {
  import opened Basics
  import opened Values
  import opened MarkupTypes
  import opened MarkupPrinter
  import opened MarkupParser
  import opened MarkupRoundTrip
  import opened MarkupEntries

  /** The %gconf.xml files, by directory. */
  type Disk = map<Path, seq<Event>>

  /** A directory in memory. */
  datatype MDir = MDir(
    name: string,
    entries: seq<Entry>,
    subdirs: seq<MDir>,
    entriesLoaded: bool,
    entriesNeedSave: bool,
    subdirsLoaded: bool,
    someSubdirNeedsSync: bool)

  /** What the file system and the C library decide: the text of doubles, which saves succeed during
      a sync, and the order in which a directory is listed. */
  datatype Env = Env(floats: FloatText, saves: Path -> bool, order: set<string> -> seq<string>)
  {
    ghost predicate Sound() {
      && floats.Faithful()
      && forall s: set<string> :: Lists(order(s), s)
    }
  }

  /** A listing names every member once. */
  ghost predicate Lists(names: seq<string>, s: set<string>) {
    && (forall n :: n in s <==> n in names)
    && (forall i, j :: 0 <= i < j < |names| ==> names[i] != names[j])
  }

  /** A name that load_subdirs does not skip. */
  predicate Visible(name: string) { name != "" && name[0] != '.' && name[0] != '%' }

  function ChildNames(path: Path, disk: Disk): set<string> {
    set p | p in disk && |p| == |path| + 1 && p[..|path|] == path && Visible(p[|path|]) :: p[|path|]
  }

  lemma ChildNamesMember(path: Path, disk: Disk, name: string)
    ensures name in ChildNames(path, disk) <==> path + [name] in disk && Visible(name)
  {
    var p := path + [name];
    assert p[..|path|] == path && p[|path|] == name;
    if name in ChildNames(path, disk) {
      var q :| q in disk && |q| == |path| + 1 && q[..|path|] == path && q[|path|] == name;
      assert q == p;
    }
  }

  // Loading

  const NO_DIR := Dir("", [], [])

  /** What loading the file of a directory gives; a directory without a file is empty. */
  function FileEntries(ft: FloatText, path: Path, disk: Disk): seq<Entry> {
    if path !in disk then []
    else match LoadFile(NO_DIR, false, ft, disk[path])
         case Tree(d) => d.entries
         case _ => []
  }

  function NewDir(name: string): MDir { MDir(name, [], [], false, false, false, false) }

  function NewDirs(names: seq<string>): seq<MDir> {
    if names == [] then [] else [NewDir(names[0])] + NewDirs(names[1..])
  }

  /** load_entries */
  function LoadEntries(env: Env, d: MDir, path: Path, disk: Disk): MDir {
    if d.entriesLoaded then d
    else d.(entriesLoaded := true, entries := FileEntries(env.floats, path, disk))
  }

  /** load_subdirs */
  function LoadSubdirs(env: Env, d: MDir, path: Path, disk: Disk): MDir {
    if d.subdirsLoaded then d
    else d.(subdirsLoaded := true, subdirs := NewDirs(env.order(ChildNames(path, disk))))
  }

  function FindDir(ds: seq<MDir>, name: string): Option<nat> {
    if ds == [] then None
    else if ds[0].name == name then Some(0)
    else match FindDir(ds[1..], name)
         case None => None
         case Some(i) => Some(i + 1)
  }

  function FindEntry(es: seq<Entry>, name: string): Option<nat> {
    if es == [] then None
    else if es[0].name == name then Some(0)
    else match FindEntry(es[1..], name)
         case None => None
         case Some(i) => Some(i + 1)
  }

  // Changes

  /** Ensure the entry and change it; false if there was nothing to do. */
  function EditEntries(es: seq<Entry>, key: string, edit: Edit): (seq<Entry>, bool) {
    match FindEntry(es, key)
    case None => ([Change(Entry(key, None, [], None, None, 0), edit).0] + es, true)
    case Some(i) =>
      if i >= |es| || !Change(es[i], edit).1 then (es, false)
      else (es[i := Change(es[i], edit).0], true)
  }

  /** The changed directory with its flag; true if a sync was queued. */
  function EditHere(env: Env, d: MDir, path: Path, key: string, edit: Edit, disk: Disk): (MDir, bool) {
    var d1 := LoadEntries(env, d, path, disk);
    var r := EditEntries(d1.entries, key, edit);
    (d1.(entries := r.0, entriesNeedSave := d1.entriesNeedSave || r.1), r.1)
  }

  /** Ensure the directory `rel' below `d' and the entry in it, then change the entry; ancestors of
      the changed directory get some_subdir_needs_sync. */
  function EditAt(env: Env, d: MDir, path: Path, rel: Path, key: string, edit: Edit, disk: Disk): (MDir, bool)
    decreases rel
  {
    if rel == [] then EditHere(env, d, path, key, edit, disk)
    else
      var d1 := LoadSubdirs(env, d, path, disk);
      match FindDir(d1.subdirs, rel[0])
      case None =>
        var blank := NewDir(rel[0]).(entriesLoaded := true, subdirsLoaded := true, entriesNeedSave := true);
        var r := EditAt(env, blank, path + [rel[0]], rel[1..], key, edit, disk);
        (d1.(subdirs := [r.0] + d1.subdirs, someSubdirNeedsSync := d1.someSubdirNeedsSync || r.1), r.1)
      case Some(i) =>
        if i >= |d1.subdirs| then (d1, false)
        else
          var r := EditAt(env, d1.subdirs[i], path + [rel[0]], rel[1..], key, edit, disk);
          (d1.(subdirs := d1.subdirs[i := r.0], someSubdirNeedsSync := d1.someSubdirNeedsSync || r.1), r.1)
  }

  /** Look up the directory `rel' and load its entries, creating nothing. */
  function LookAt(env: Env, d: MDir, path: Path, rel: Path, disk: Disk): MDir
    decreases rel
  {
    if rel == [] then LoadEntries(env, d, path, disk)
    else
      var d1 := LoadSubdirs(env, d, path, disk);
      match FindDir(d1.subdirs, rel[0])
      case None => d1
      case Some(i) =>
        if i >= |d1.subdirs| then d1
        else d1.(subdirs := d1.subdirs[i := LookAt(env, d1.subdirs[i], path + [rel[0]], rel[1..], disk)])
  }

  // Syncing

  predicate NeedsSync(d: MDir) { d.entriesNeedSave || d.someSubdirNeedsSync }

  function CleanAll(es: seq<Entry>): seq<Entry> {
    if es == [] then [] else [Clean(es[0])] + CleanAll(es[1..])
  }

  /** delete_useless_entries */
  function Useful(es: seq<Entry>): seq<Entry> {
    if es == [] then [] else (if Useless(es[0]) then [] else [es[0]]) + Useful(es[1..])
  }

  predicate UselessDir(d: MDir) {
    d.entriesLoaded && d.entries == [] && d.subdirsLoaded && d.subdirs == []
  }

  /** delete_useless_subdirs, in memory */
  function KeepDirs(ds: seq<MDir>): seq<MDir> {
    if ds == [] then [] else (if UselessDir(ds[0]) then [] else [ds[0]]) + KeepDirs(ds[1..])
  }

  function DropOne(d: MDir, path: Path, disk: Disk): Disk {
    if UselessDir(d) then disk - {path + [d.name]} else disk
  }

  /** delete_useless_subdirs, on disk */
  function DropDirs(ds: seq<MDir>, path: Path, disk: Disk): Disk {
    if ds == [] then disk else DropDirs(ds[1..], path, DropOne(ds[0], path, disk))
  }

  function FileOf(env: Env, es: seq<Entry>): seq<Event> { FileEvents(env.floats, Dir("", es, []), false) }

  /** The part of markup_dir_sync that saves the directory's own entries. */
  function SaveEntries(env: Env, d: MDir, path: Path, disk: Disk): (MDir, Disk) {
    var d1 := d.(entries := CleanAll(d.entries));
    if !d.entriesNeedSave then (d1, disk)
    else
      var d2 := d1.(entries := Useful(d1.entries));
      if env.saves(path) then (d2.(entriesNeedSave := false), disk[path := FileOf(env, d2.entries)])
      else (d2, disk)
  }

  /** The part that deletes useless subdirectories and loads what is needed to judge this one. */
  function Prune(env: Env, d: MDir, path: Path, disk: Disk, entriesDropped: bool): (MDir, Disk) {
    var disk1 := DropDirs(d.subdirs, path, disk);
    var d1 := d.(subdirs := KeepDirs(d.subdirs));
    var d2 := if entriesDropped then LoadSubdirs(env, d1, path, disk1) else d1;
    var d3 := if |d1.subdirs| < |d.subdirs| then LoadEntries(env, d2, path, disk1) else d2;
    (d3, disk1)
  }

  /** markup_dir_sync; it returns TRUE exactly when the result does not need a sync. */
  function SyncDir(env: Env, d: MDir, path: Path, disk: Disk): (MDir, Disk)
    decreases d, 1
  {
    var saved := SaveEntries(env, d, path, disk);
    var entriesDropped := d.entriesNeedSave && |saved.0.entries| < |d.entries|;
    var synced :=
      if !d.someSubdirNeedsSync then (d.subdirs, saved.1) else SyncDirs(env, d.subdirs, path, saved.1);
    var d1 := saved.0.(
      subdirs := synced.0,
      someSubdirNeedsSync := d.someSubdirNeedsSync && SomeNeedSync(synced.0));
    Prune(env, d1, path, synced.1, entriesDropped)
  }

  function SyncDirs(env: Env, ds: seq<MDir>, path: Path, disk: Disk): (seq<MDir>, Disk)
    decreases ds, 0
  {
    if ds == [] then ([], disk)
    else
      var first := if NeedsSync(ds[0]) then SyncDir(env, ds[0], path + [ds[0].name], disk) else (ds[0], disk);
      var rest := SyncDirs(env, ds[1..], path, first.1);
      ([first.0] + rest.0, rest.1)
  }

  function SomeNeedSync(ds: seq<MDir>): bool {
    ds != [] && (NeedsSync(ds[0]) || SomeNeedSync(ds[1..]))
  }

  /** markup_tree_sync */
  function SyncTree(env: Env, root: MDir, disk: Disk): (MDir, Disk, bool) {
    if NeedsSync(root) then
      var r := SyncDir(env, root, [], disk);
      (r.0, r.1, !NeedsSync(r.0))
    else (root, disk, true)
  }

  // What a lazy reader sees

  function DiskEntries(ft: FloatText, path: Path, rel: Path, disk: Disk): Option<seq<Entry>>
    decreases rel
  {
    if rel == [] then Some(FileEntries(ft, path, disk))
    else if Visible(rel[0]) && path + [rel[0]] in disk then DiskEntries(ft, path + [rel[0]], rel[1..], disk)
    else None
  }

  function ViewEntries(ft: FloatText, d: MDir, path: Path, rel: Path, disk: Disk): Option<seq<Entry>>
    decreases rel
  {
    if rel == [] then Some(if d.entriesLoaded then d.entries else FileEntries(ft, path, disk))
    else if !d.subdirsLoaded then DiskEntries(ft, path, rel, disk)
    else match FindDir(d.subdirs, rel[0])
         case None => None
         case Some(i) =>
           if i < |d.subdirs| then ViewEntries(ft, d.subdirs[i], path + [rel[0]], rel[1..], disk) else None
  }

  function Lookup(es: Option<seq<Entry>>, key: string): Option<Entry> {
    match es
    case None => None
    case Some(s) =>
      match FindEntry(s, key)
      case None => None
      case Some(i) => if i < |s| then Some(s[i]) else None
  }

  /** The answers about a key: the value for a locale list, and the schema name. */
  function Answer(e: Option<Entry>, locales: seq<string>): (Option<Value>, Option<string>) {
    match e
    case None => (None, None)
    case Some(x) => (EntryValue(x, locales), x.schemaName)
  }
}
