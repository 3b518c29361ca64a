/** Whole runs of one markup source: changes, queries and syncs in any order, where any save of any
    sync may fail. */
module MarkupSyncRuns {
  import opened Basics
  import opened Values
  import opened MarkupTypes
  import opened MarkupRoundTrip
  import opened MarkupEntries
  import opened MarkupSync
  import opened MarkupSyncLocal
  import opened MarkupSyncInv
  import opened MarkupSyncViews
  import opened MarkupSyncFiles

  datatype Op =
    | Edit(env: Env, rel: Path, key: string, edit: MarkupEntries.Edit)
    | Query(env: Env, rel: Path)
    | Sync(env: Env)

  datatype Source = Source(root: MDir, disk: Disk)

  function Do(s: Source, op: Op): Source {
    match op
    case Edit(env, rel, key, edit) => s.(root := EditAt(env, s.root, [], rel, key, edit, s.disk).0)
    case Query(env, rel) => s.(root := LookAt(env, s.root, [], rel, s.disk))
    case Sync(env) => var r := SyncTree(env, s.root, s.disk); Source(r.0, r.1)
  }

  function DoAll(s: Source, ops: seq<Op>): Source
    decreases |ops|
  {
    if ops == [] then s else Do(DoAll(s, ops[..|ops| - 1]), ops[|ops| - 1])
  }

  /** What the file system and the callers may do. */
  ghost predicate Allowed(ft: FloatText, op: Op) {
    && op.env.Sound() && op.env.floats == ft
    && (op.Edit? ==> EditReadable(op.edit) && ValidPath(op.rel))
  }

  ghost predicate SourceInv(ft: FloatText, s: Source) {
    GoodFiles(ft, s.disk) && Inv(ft, s.root, [], s.disk)
  }

  lemma Fresh(ft: FloatText, disk: Disk)
    requires GoodFiles(ft, disk) && ClosedBelow([], disk)
    ensures SourceInv(ft, Source(NewDir("/"), disk))
  {
  }

  lemma DoKeepsInv(ft: FloatText, s: Source, op: Op)
    requires SourceInv(ft, s) && Allowed(ft, op)
    ensures SourceInv(ft, Do(s, op))
  {
    match op
    case Edit(env, rel, key, edit) => EditInv(env, s.root, [], rel, key, edit, s.disk);
    case Query(env, rel) => LookInvView(env, s.root, [], rel, s.disk, []);
    case Sync(env) => if NeedsSync(s.root) { SyncInv(env, s.root, [], s.disk); }
  }

  lemma {:induction false} RunKeepsInv(ft: FloatText, s: Source, ops: seq<Op>)
    requires SourceInv(ft, s) && forall i :: 0 <= i < |ops| ==> Allowed(ft, ops[i])
    ensures SourceInv(ft, DoAll(s, ops))
    decreases |ops|
  {
    if ops != [] {
      var n := |ops| - 1;
      RunKeepsInv(ft, s, ops[..n]);
      DoKeepsInv(ft, DoAll(s, ops[..n]), ops[n]);
    }
  }

  // The flags never forget a change

  /** A loaded directory that differs from its file, and not only because a sync has cleaned it in memory,
      is flagged, and so are all directories above it. */
  lemma {:induction false} FlagsRemember(ft: FloatText, d: MDir, path: Path, rel: Path, disk: Disk)
    requires Inv(ft, d, path, disk) && DirAt(d, rel).Some?
    requires DirAt(d, rel).value.entriesLoaded
    requires !FromFile(DirAt(d, rel).value.entries, FileEntries(ft, path + rel, disk))
    ensures DirAt(d, rel).value.entriesNeedSave
    ensures forall j :: 0 <= j < |rel| ==> DirAt(d, rel[..j]).Some? && DirAt(d, rel[..j]).value.someSubdirNeedsSync
    decreases rel
  {
    if rel == [] {
      assert path + rel == path;
    } else {
      FindDirIs(d.subdirs, rel[0]);
      var i := FindDir(d.subdirs, rel[0]).value;
      assert path + rel == (path + [rel[0]]) + rel[1..];
      FlagsRemember(ft, d.subdirs[i], path + [rel[0]], rel[1..], disk);
      if rel[1..] != [] { assert rel[1..][..0] == []; }
      assert NeedsSync(d.subdirs[i]);
      forall j | 0 <= j < |rel|
        ensures DirAt(d, rel[..j]).Some? && DirAt(d, rel[..j]).value.someSubdirNeedsSync
      {
        if j > 0 { assert rel[..j][0] == rel[0] && rel[..j][1..] == rel[1..][..j - 1]; }
      }
    }
  }

  // What a key holds

  /** The value, the local schemas and the schema name. */
  datatype Facts = Facts(value: Option<Value>, localSchemas: seq<LocalSchema>, schemaName: Option<string>)

  const NOTHING := Facts(None, [], None)

  function FactsOf(e: Option<Entry>): Facts {
    match e
    case None => NOTHING
    case Some(x) => Facts(x.value, x.localSchemas, x.schemaName)
  }

  /** An entry that holds just this. */
  function Holding(f: Facts): Entry { Entry("", f.value, f.localSchemas, f.schemaName, None, 0) }

  function AnswerOf(f: Facts, locales: seq<string>): (Option<Value>, Option<string>) {
    Answer(Some(Holding(f)), locales)
  }

  function Apply(f: Facts, edit: MarkupEntries.Edit): Facts { FactsOf(Some(Change(Holding(f), edit).0)) }

  function Settle(f: Facts): Facts { FactsOf(Some(Clean(Holding(f)))) }

  predicate Concerns(op: Op, rel: Path, key: string) { op.Edit? && op.rel == rel && op.key == key }

  /** This operation is a sync that comes to the directory and finds its entries in memory. */
  predicate Cleans(s: Source, op: Op, rel: Path) { op.Sync? && NeedsSync(s.root) && Reaches(s.root, rel) }

  /** A key as the changes to it and the syncs that come to it determine it. */
  function Held(f: Facts, s: Source, ops: seq<Op>, rel: Path, key: string): Facts
    decreases |ops|
  {
    if ops == [] then f
    else
      var n := |ops| - 1;
      var before := Held(f, s, ops[..n], rel, key);
      if Concerns(ops[n], rel, key) then Apply(before, ops[n].edit)
      else if Cleans(DoAll(s, ops[..n]), ops[n], rel) then Settle(before)
      else before
  }

  /** A key as the changes to it and all the syncs in between determine it. */
  function Expected(f: Facts, ops: seq<Op>, rel: Path, key: string): Facts
    decreases |ops|
  {
    if ops == [] then f
    else
      var n := |ops| - 1;
      var before := Expected(f, ops[..n], rel, key);
      if Concerns(ops[n], rel, key) then Apply(before, ops[n].edit)
      else if ops[n].Sync? then Settle(before)
      else before
  }

  /** A key as its callers left it. */
  function CallersLeft(f: Facts, ops: seq<Op>, rel: Path, key: string): Facts
    decreases |ops|
  {
    if ops == [] then f
    else
      var n := |ops| - 1;
      var before := CallersLeft(f, ops[..n], rel, key);
      if Concerns(ops[n], rel, key) then Apply(before, ops[n].edit) else before
  }

  lemma ApplyIs(e: Entry, edit: MarkupEntries.Edit)
    ensures FactsOf(Some(Change(e, edit).0)) == Apply(FactsOf(Some(e)), edit)
  {
  }

  lemma {:induction false} KeepSame(e: Entry, f: Entry, locals: seq<LocalSchema>)
    requires e.value == f.value
    ensures KeepLocals(e, locals) == KeepLocals(f, locals)
  {
    if locals != [] { KeepSame(e, f, locals[1..]); }
  }

  lemma SettleIs(e: Entry)
    ensures FactsOf(Some(Clean(e))) == Settle(FactsOf(Some(e)))
  {
    KeepSame(e, Holding(FactsOf(Some(e))), e.localSchemas);
  }

  lemma SyncedFacts(d: MDir, rel: Path, e: Option<Entry>)
    ensures FactsOf(Synced(d, rel, e)) == if Reaches(d, rel) then Settle(FactsOf(e)) else FactsOf(e)
  {
    if e.Some? { SettleIs(e.value); }
  }

  lemma CleanFacts(e: Option<Entry>)
    requires NothingToClean(e)
    ensures Settle(FactsOf(e)) == FactsOf(e)
  {
    if e.Some? { SettleIs(e.value); }
  }

  lemma AnswerIs(e: Option<Entry>, locales: seq<string>)
    ensures Answer(e, locales) == AnswerOf(FactsOf(e), locales)
  {
  }

  lemma DoFacts(ft: FloatText, s: Source, op: Op, rel: Path, key: string)
    requires SourceInv(ft, s) && Allowed(ft, op)
    ensures var before := FactsOf(See(ft, s.root, [], s.disk, rel, key));
      FactsOf(See(ft, Do(s, op).root, [], Do(s, op).disk, rel, key)) ==
        if Concerns(op, rel, key) then Apply(before, op.edit)
        else if Cleans(s, op, rel) then Settle(before)
        else before
  {
    var before := See(ft, s.root, [], s.disk, rel, key);
    hide Inv, GoodFiles, SyncDir, ViewEntries, EditReadable, Reaches;
    match op
    case Edit(env, r, k, edit) =>
      EditView(env, s.root, [], r, k, edit, s.disk, rel, key);
      ApplyIs(if before.Some? then before.value else Entry(key, None, [], None, None, 0), edit);
    case Query(env, r) => LookInvView(env, s.root, [], r, s.disk, rel);
    case Sync(env) =>
      if NeedsSync(s.root) {
        SyncView(env, s.root, [], s.disk, rel, key);
        SyncedFacts(s.root, rel, before);
      }
  }

  /** In any run, whatever saves fail, a key holds what the changes to it left, cleaned by each sync that
      comes to its directory and finds it in memory. */
  lemma {:induction false} RunFacts(ft: FloatText, s: Source, ops: seq<Op>, rel: Path, key: string)
    requires SourceInv(ft, s) && forall i :: 0 <= i < |ops| ==> Allowed(ft, ops[i])
    ensures var t := DoAll(s, ops);
      FactsOf(See(ft, t.root, [], t.disk, rel, key)) ==
      Held(FactsOf(See(ft, s.root, [], s.disk, rel, key)), s, ops, rel, key)
    decreases |ops|
  {
    if ops != [] {
      var n := |ops| - 1;
      RunFacts(ft, s, ops[..n], rel, key);
      RunKeepsInv(ft, s, ops[..n]);
      DoFacts(ft, DoAll(s, ops[..n]), ops[n], rel, key);
    }
  }

  /** Where the file has nothing to clean, every sync may count as one that cleans; and the file stays so. */
  lemma CleanStep(ft: FloatText, s: Source, op: Op, rel: Path, key: string)
    requires SourceInv(ft, s) && Allowed(ft, op) && NothingToClean(FileEntry(ft, rel, s.disk, key))
    ensures var before := FactsOf(See(ft, s.root, [], s.disk, rel, key));
      FactsOf(See(ft, Do(s, op).root, [], Do(s, op).disk, rel, key)) ==
        if Concerns(op, rel, key) then Apply(before, op.edit) else if op.Sync? then Settle(before) else before
    ensures NothingToClean(FileEntry(ft, rel, Do(s, op).disk, key))
  {
    DoFacts(ft, s, op, rel, key);
    if op.Sync? {
      hide Inv, GoodFiles, SyncDir, ViewEntries, FileEntry, SyncTree;
      SyncKeepsClean(op.env, s.root, s.disk, rel, key);
      if !Cleans(s, op, rel) {
        assert [] + rel == rel;
        UnreachedIsClean(ft, s.root, [], s.disk, rel, key);
        CleanFacts(See(ft, s.root, [], s.disk, rel, key));
      }
    }
  }

  lemma {:induction false} CleanRun(ft: FloatText, s: Source, ops: seq<Op>, rel: Path, key: string)
    requires SourceInv(ft, s) && forall i :: 0 <= i < |ops| ==> Allowed(ft, ops[i])
    requires NothingToClean(FileEntry(ft, rel, s.disk, key))
    ensures var t := DoAll(s, ops);
      && NothingToClean(FileEntry(ft, rel, t.disk, key))
      && FactsOf(See(ft, t.root, [], t.disk, rel, key)) ==
         Expected(FactsOf(See(ft, s.root, [], s.disk, rel, key)), ops, rel, key)
    decreases |ops|
  {
    if ops != [] {
      var n := |ops| - 1;
      CleanRun(ft, s, ops[..n], rel, key);
      RunKeepsInv(ft, s, ops[..n]);
      CleanStep(ft, DoAll(s, ops[..n]), ops[n], rel, key);
    }
  }

  // Durability

  /** Once a sync returns TRUE, a fresh tree over the files finds what is in memory, or what became of it
      by cleaning; where that makes no difference it answers every key as memory does. */
  lemma SyncedReloads(ft: FloatText, s: Source, ops: seq<Op>, env: Env, rel: Path, key: string, locales: seq<string>)
    requires SourceInv(ft, s) && forall i :: 0 <= i < |ops| ==> Allowed(ft, ops[i])
    requires Allowed(ft, Sync(env))
    ensures var t := DoAll(s, ops);
      var r := SyncTree(env, t.root, t.disk);
      && (r.2 <==> SavesAll(env, t.root))
      && (r.2 ==> Reloaded(See(ft, NewDir("/"), [], r.1, rel, key), See(ft, r.0, [], r.1, rel, key), locales))
  {
    RunKeepsInv(ft, s, ops);
    var t := DoAll(s, ops);
    DoKeepsInv(ft, t, Sync(env));
    var r := SyncTree(env, t.root, t.disk);
    SyncReturnsTrue(env, t.root, t.disk);
    if r.2 { ReloadAnswers(env, r.0, r.1, rel, key, locales); }
  }

  /** Where that sync comes and finds the entries in memory, the answers are the same exactly if cleaning
      what the file holds is harmless for the locales asked for. */
  lemma ReachedReloads(ft: FloatText, s: Source, ops: seq<Op>, env: Env, rel: Path, key: string, locales: seq<string>)
    requires SourceInv(ft, s) && forall i :: 0 <= i < |ops| ==> Allowed(ft, ops[i])
    requires Allowed(ft, Sync(env)) && Cleans(DoAll(s, ops), Sync(env), rel)
    ensures var t := DoAll(s, ops);
      var r := SyncTree(env, t.root, t.disk);
      var file, now := See(ft, NewDir("/"), [], r.1, rel, key), See(ft, r.0, [], r.1, rel, key);
      r.2 ==>
        && (file.Some? <==> now.Some?)
        && (file.Some? && OnePerLocale(file.value.localSchemas) ==>
              (Answer(file, locales) == Answer(now, locales) <==> CleanHarmless(file.value, locales)))
  {
    SyncedReloads(ft, s, ops, env, rel, key, locales);
    RunKeepsInv(ft, s, ops);
    var t := DoAll(s, ops);
    SyncView(env, t.root, [], t.disk, rel, key);
    var before := See(ft, t.root, [], t.disk, rel, key);
    if before.Some? { CleanTwice(before.value); }
  }

  lemma PathStep(path: Path, rel: Path)
    requires rel != []
    ensures path + rel == (path + [rel[0]]) + rel[1..]
    ensures StrictlyBelow(path, path + rel) && (path + rel)[|path|] == rel[0]
  {
  }

  lemma PartVisible(ft: FloatText, disk: Disk, p: Path, i: nat)
    requires GoodFiles(ft, disk) && p in disk && i < |p|
    ensures Visible(p[i])
  {
    assert ValidPath(p);
  }

  /** The way to a file goes through directories that have one. */
  lemma DiskStep(ft: FloatText, path: Path, rel: Path, disk: Disk)
    requires GoodFiles(ft, disk) && ClosedBelow(path, disk) && path + rel in disk && rel != []
    ensures Visible(rel[0]) && path + [rel[0]] in disk && ClosedBelow(path + [rel[0]], disk)
    ensures path + rel == (path + [rel[0]]) + rel[1..]
  {
    hide *;
    PathStep(path, rel);
    ClosedDeeper(path, rel[0], disk);
    FirstStep(path, disk, path + rel);
    PartVisible(ft, disk, path + rel, |path|);
  }

  lemma {:induction false} DiskIsFile(ft: FloatText, path: Path, rel: Path, disk: Disk)
    requires GoodFiles(ft, disk) && ClosedBelow(path, disk) && path + rel in disk
    ensures DiskEntries(ft, path, rel, disk) == Some(FileEntries(ft, path + rel, disk))
    decreases rel
  {
    hide GoodFiles, ClosedBelow, FileEntries, Visible;
    if rel == [] {
      assert path + rel == path;
    } else {
      DiskStep(ft, path, rel, disk);
      DiskIsFile(ft, path + [rel[0]], rel[1..], disk);
    }
  }

  lemma DiskEntryIsFileEntry(ft: FloatText, rel: Path, disk: Disk, key: string)
    requires GoodFiles(ft, disk) && ClosedBelow([], disk)
    ensures FileEntry(ft, rel, disk, key) == Lookup(DiskEntries(ft, [], rel, disk), key)
  {
    assert [] + rel == rel;
    if rel in disk { DiskIsFile(ft, [], rel, disk); } else { DiskEntriesAre(ft, [], rel, disk); }
  }

  /** Durability: after any run from the files, with any failed saves on the way, a sync that returns TRUE
      leaves files from which a key answers as its changes and the syncs left it, if its file had nothing to
      clean at first. */
  lemma ChangesAreDurable(ft: FloatText, disk: Disk, ops: seq<Op>, env: Env, rel: Path, key: string,
                          locales: seq<string>)
    requires GoodFiles(ft, disk) && ClosedBelow([], disk)
    requires forall i :: 0 <= i < |ops| ==> Allowed(ft, ops[i])
    requires Allowed(ft, Sync(env)) && NothingToClean(Lookup(DiskEntries(ft, [], rel, disk), key))
    ensures var t := DoAll(Source(NewDir("/"), disk), ops);
      var r := SyncTree(env, t.root, t.disk);
      && (r.2 <==> SavesAll(env, t.root))
      && (r.2 ==>
            Answer(See(ft, NewDir("/"), [], r.1, rel, key), locales)
              == AnswerOf(Settle(Expected(FactsOf(Lookup(DiskEntries(ft, [], rel, disk), key)), ops, rel, key)), locales))
  {
    var s := Source(NewDir("/"), disk);
    Fresh(ft, disk);
    DiskEntryIsFileEntry(ft, rel, disk, key);
    FreshView(ft, "/", [], rel, disk);
    CleanRun(ft, s, ops, rel, key);
    RunKeepsInv(ft, s, ops);
    var t := DoAll(s, ops);
    CleanStep(ft, t, Sync(env), rel, key);
    SyncReturnsTrue(env, t.root, t.disk);
    SyncedReloads(ft, s, ops, env, rel, key, locales);
    var r := SyncTree(env, t.root, t.disk);
    if r.2 {
      ReloadSees(ft, r.1, rel, key);
      hide Inv, GoodFiles, SyncDir, ViewEntries, DoAll, Settle, See, FileEntry, DiskEntries;
      AnswerIs(See(ft, r.0, [], r.1, rel, key), locales);
    }
  }

  /** What was changed since the directory was saved last is durable from any sound files: its key answers
      as the changes and the syncs left it. */
  lemma FlaggedIsDurable(ft: FloatText, s: Source, ops: seq<Op>, env: Env, rel: Path, key: string,
                         locales: seq<string>)
    requires SourceInv(ft, s) && forall i :: 0 <= i < |ops| ==> Allowed(ft, ops[i])
    requires Allowed(ft, Sync(env)) && Flagged(DoAll(s, ops).root, rel)
    ensures var t := DoAll(s, ops);
      var r := SyncTree(env, t.root, t.disk);
      && (r.2 <==> SavesAll(env, t.root))
      && (r.2 ==>
            Answer(See(ft, NewDir("/"), [], r.1, rel, key), locales)
              == AnswerOf(Settle(Held(FactsOf(See(ft, s.root, [], s.disk, rel, key)), s, ops, rel, key)), locales))
  {
    RunKeepsInv(ft, s, ops);
    RunFacts(ft, s, ops, rel, key);
    SyncedReloads(ft, s, ops, env, rel, key, locales);
    var t := DoAll(s, ops);
    var r := SyncTree(env, t.root, t.disk);
    if r.2 {
      FlaggedReached(ft, t.root, [], t.disk, rel);
      FlaggedKey(env, t.root, t.disk, rel, key);
      DoFacts(ft, t, Sync(env), rel, key);
      ReloadSees(ft, r.1, rel, key);
      hide Inv, GoodFiles, SyncDir, ViewEntries, DoAll, Settle, See, FileEntry, DiskEntries, Flagged, Reaches, Held, SavesAll;
      AnswerIs(See(ft, r.0, [], r.1, rel, key), locales);
    }
  }

  lemma ReloadSees(ft: FloatText, disk: Disk, rel: Path, key: string)
    requires NothingToClean(FileEntry(ft, rel, disk, key))
    ensures NothingToClean(See(ft, NewDir("/"), [], disk, rel, key))
  {
    FreshView(ft, "/", [], rel, disk);
    DiskEntriesAre(ft, [], rel, disk);
    assert [] + rel == rel;
  }

  // The last change of a key

  /** The change number i concerns this key, and no later one does. */
  predicate LastChange(ops: seq<Op>, i: nat, rel: Path, key: string) {
    && i < |ops| && Concerns(ops[i], rel, key)
    && forall j :: i < j < |ops| ==> !Concerns(ops[j], rel, key)
  }

  /** What holds right after the last change, and is not affected by cleaning, holds at the end. */
  lemma {:induction false} HeldSinceLast(f: Facts, s: Source, ops: seq<Op>, rel: Path, key: string, i: nat)
    requires LastChange(ops, i, rel, key)
    ensures var left := Apply(Held(f, s, ops[..i], rel, key), ops[i].edit);
      var end := Held(f, s, ops, rel, key);
      end.value == left.value && end.schemaName == left.schemaName && (left.localSchemas == [] ==> end.localSchemas == [])
    decreases |ops|
  {
    hide Apply, Cleans, Concerns, DoAll;
    var n := |ops| - 1;
    if i < n {
      var before := ops[..n];
      assert before[..i] == ops[..i] && before[i] == ops[i];
      assert LastChange(before, i, rel, key) by { assert forall j :: i < j < n ==> before[j] == ops[j]; }
      HeldSinceLast(f, s, before, rel, key, i);
      SettleParts(Held(f, s, before, rel, key));
      hide Settle;
      assert !Concerns(ops[n], rel, key);
    }
  }

  lemma SettleParts(f: Facts)
    ensures Settle(f).value == f.value && Settle(f).schemaName == f.schemaName
    ensures f.localSchemas == [] ==> Settle(f).localSchemas == []
  {
  }

  /** A key whose value is not a schema at the end answers that value from the files after a sync that
      returned TRUE, from any sound files, stale or not; and in any case the schema name is the same. */
  lemma PlainIsDurable(ft: FloatText, s: Source, ops: seq<Op>, env: Env, rel: Path, key: string, locales: seq<string>)
    requires SourceInv(ft, s) && forall i :: 0 <= i < |ops| ==> Allowed(ft, ops[i])
    requires Allowed(ft, Sync(env))
    ensures var held := Held(FactsOf(See(ft, s.root, [], s.disk, rel, key)), s, ops, rel, key);
      var t := DoAll(s, ops);
      var r := SyncTree(env, t.root, t.disk);
      var answer := Answer(See(ft, NewDir("/"), [], r.1, rel, key), locales);
      && (r.2 <==> SavesAll(env, t.root))
      && (r.2 ==> answer.1 == held.schemaName)
      && (r.2 && (held.value.Some? ==> !held.value.value.SchemaValue?) ==> answer.0 == held.value)
  {
    RunFacts(ft, s, ops, rel, key);
    RunKeepsInv(ft, s, ops);
    SyncedReloads(ft, s, ops, env, rel, key, locales);
    var t := DoAll(s, ops);
    DoFacts(ft, t, Sync(env), rel, key);
    var r := SyncTree(env, t.root, t.disk);
    hide Inv, GoodFiles, SyncDir, ViewEntries, DoAll, See, Held, SavesAll;
    if r.2 {
      SameAnswers(See(ft, NewDir("/"), [], r.1, rel, key), See(ft, r.0, [], r.1, rel, key), locales);
    }
  }

  lemma SameAnswers(file: Option<Entry>, now: Option<Entry>, locales: seq<string>)
    requires Reloaded(file, now, locales)
    ensures Answer(file, locales).1 == FactsOf(now).schemaName
    ensures (FactsOf(now).value.Some? ==> !FactsOf(now).value.value.SchemaValue?) ==>
      Answer(file, locales).0 == FactsOf(now).value
  {
  }

  /** What was set last is what the files answer, when it is not a schema. */
  lemma LastSetIsDurable(ft: FloatText, s: Source, ops: seq<Op>, env: Env, rel: Path, key: string, i: nat,
                         v: Value, now: int32, locales: seq<string>)
    requires SourceInv(ft, s) && forall i :: 0 <= i < |ops| ==> Allowed(ft, ops[i])
    requires Allowed(ft, Sync(env)) && LastChange(ops, i, rel, key)
    requires !v.SchemaValue? && ops[i].edit == SetValue(v, now)
    ensures var t := DoAll(s, ops);
      var r := SyncTree(env, t.root, t.disk);
      && (r.2 <==> SavesAll(env, t.root))
      && (r.2 ==> Answer(See(ft, NewDir("/"), [], r.1, rel, key), locales).0 == Some(v))
  {
    var f := FactsOf(See(ft, s.root, [], s.disk, rel, key));
    HeldSinceLast(f, s, ops, rel, key, i);
    PlainSet(Holding(Held(f, s, ops[..i], rel, key)), v, now, locales);
    hide Inv, GoodFiles, SyncTree, See, DoAll, Held, SavesAll, Answer, LastChange;
    PlainIsDurable(ft, s, ops, env, rel, key, locales);
  }

  /** What was unset last has no value in the files. */
  lemma LastUnsetIsDurable(ft: FloatText, s: Source, ops: seq<Op>, env: Env, rel: Path, key: string, i: nat,
                           now: int32, locales: seq<string>)
    requires SourceInv(ft, s) && forall i :: 0 <= i < |ops| ==> Allowed(ft, ops[i])
    requires Allowed(ft, Sync(env)) && LastChange(ops, i, rel, key) && ops[i].edit == UnsetValue(None, now)
    ensures var t := DoAll(s, ops);
      var r := SyncTree(env, t.root, t.disk);
      && (r.2 <==> SavesAll(env, t.root))
      && (r.2 ==> Answer(See(ft, NewDir("/"), [], r.1, rel, key), locales).0 == None)
  {
    var f := FactsOf(See(ft, s.root, [], s.disk, rel, key));
    HeldSinceLast(f, s, ops, rel, key, i);
    ValueUnset(Holding(Held(f, s, ops[..i], rel, key)), None, now, locales);
    hide Inv, GoodFiles, SyncTree, See, DoAll, Held, SavesAll, Answer, LastChange;
    PlainIsDurable(ft, s, ops, env, rel, key, locales);
  }

  /** The schema name that was set last is the one in the files. */
  lemma LastNameIsDurable(ft: FloatText, s: Source, ops: seq<Op>, env: Env, rel: Path, key: string, i: nat,
                          name: Option<string>, now: int32, locales: seq<string>)
    requires SourceInv(ft, s) && forall i :: 0 <= i < |ops| ==> Allowed(ft, ops[i])
    requires Allowed(ft, Sync(env)) && LastChange(ops, i, rel, key) && ops[i].edit == SetSchemaName(name, now)
    ensures var t := DoAll(s, ops);
      var r := SyncTree(env, t.root, t.disk);
      && (r.2 <==> SavesAll(env, t.root))
      && (r.2 ==> Answer(See(ft, NewDir("/"), [], r.1, rel, key), locales).1 == name)
  {
    var f := FactsOf(See(ft, s.root, [], s.disk, rel, key));
    HeldSinceLast(f, s, ops, rel, key, i);
    SchemaNamed(Holding(Held(f, s, ops[..i], rel, key)), name, now);
    hide Inv, GoodFiles, SyncTree, See, DoAll, Held, SavesAll, Answer, LastChange;
    PlainIsDurable(ft, s, ops, env, rel, key, locales);
  }

  function LocaleOf(sc: Schema): string { if sc.locale.Some? then sc.locale.value else "C" }

  predicate SameTypes(a: Schema, b: Schema) {
    && a.vtype == b.vtype && a.listType == b.listType && a.carType == b.carType && a.cdrType == b.cdrType
    && a.owner == b.owner
  }

  /** The facts of a key hold what was set with this schema. */
  predicate HoldsSchema(f: Facts, sc: Schema) {
    && f.value.Some? && f.value.value.SchemaValue? && SameTypes(f.value.value.schema, sc)
    && LocalFor(f.localSchemas, LocaleOf(sc)) == Some(LocalSchema(LocaleOf(sc), sc.shortDesc, sc.longDesc, sc.default))
  }

  lemma {:induction false} KeptFirst(e: Entry, locals: seq<LocalSchema>, locale: string)
    requires LocalFor(locals, locale).Some? && StillApplies(e, LocalFor(locals, locale).value)
    ensures LocalFor(KeepLocals(e, locals), locale) == LocalFor(locals, locale)
  {
    if locals != [] {
      LocalForRest(locals, locale);
      var kept := KeepLocals(e, locals);
      if locals[0].locale != locale { KeptFirst(e, locals[1..], locale); }
      if StillApplies(e, locals[0]) {
        LocalForRest(kept, locale);
        assert kept[1..] == KeepLocals(e, locals[1..]);
      } else {
        assert kept == KeepLocals(e, locals[1..]);
      }
    }
  }

  lemma SettleHolds(f: Facts, sc: Schema)
    requires HoldsSchema(f, sc) && (sc.default.Some? ==> sc.default.value.Type() == sc.vtype)
    ensures HoldsSchema(Settle(f), sc)
  {
    KeptFirst(Holding(f), f.localSchemas, LocaleOf(sc));
  }

  lemma ApplyHolds(f: Facts, sc: Schema, now: int32)
    ensures HoldsSchema(Apply(f, SetValue(SchemaValue(sc), now)), sc)
  {
    var locals := f.localSchemas;
    var ls := LocalSchema(LocaleOf(sc), sc.shortDesc, sc.longDesc, sc.default);
    FindLocalBound(locals, ls.locale);
    match FindLocal(locals, ls.locale)
    case None => LocalForRest([ls] + locals, ls.locale);
    case Some(i) => PutFor(locals, i, ls);
  }

  lemma {:induction false} PutFor(locals: seq<LocalSchema>, i: nat, ls: LocalSchema)
    requires FindLocal(locals, ls.locale) == Some(i) && i < |locals|
    ensures LocalFor(locals[i := ls], ls.locale) == Some(ls)
  {
    LocalForRest(locals[i := ls], ls.locale);
    if locals[0].locale != ls.locale {
      assert locals[i := ls][1..] == locals[1..][i - 1 := ls];
      PutFor(locals[1..], i - 1, ls);
    }
  }

  lemma {:induction false} ExpectedSinceLast(f: Facts, ops: seq<Op>, rel: Path, key: string, i: nat, sc: Schema, now: int32)
    requires LastChange(ops, i, rel, key) && ops[i].edit == SetValue(SchemaValue(sc), now)
    requires sc.default.Some? ==> sc.default.value.Type() == sc.vtype
    ensures HoldsSchema(Expected(f, ops, rel, key), sc)
    decreases |ops|
  {
    var n := |ops| - 1;
    var before := Expected(f, ops[..n], rel, key);
    if i == n {
      ApplyHolds(before, sc, now);
    } else {
      ExpectedSinceLast(f, ops[..n], rel, key, i, sc, now);
      if ops[n].Sync? { SettleHolds(before, sc); }
    }
  }

  /** The schema that was set last, with a default of its own type, is what the files answer for its locale. */
  lemma LastSchemaIsDurable(ft: FloatText, disk: Disk, ops: seq<Op>, env: Env, rel: Path, key: string, i: nat,
                            sc: Schema, now: int32)
    requires GoodFiles(ft, disk) && ClosedBelow([], disk)
    requires forall i :: 0 <= i < |ops| ==> Allowed(ft, ops[i])
    requires Allowed(ft, Sync(env)) && NothingToClean(Lookup(DiskEntries(ft, [], rel, disk), key))
    requires LastChange(ops, i, rel, key) && ops[i].edit == SetValue(SchemaValue(sc), now)
    requires sc.default.Some? ==> sc.default.value.Type() == sc.vtype
    ensures var t := DoAll(Source(NewDir("/"), disk), ops);
      var r := SyncTree(env, t.root, t.disk);
      && (r.2 <==> SavesAll(env, t.root))
      && (r.2 ==> AnswersSchema(Answer(See(ft, NewDir("/"), [], r.1, rel, key), [LocaleOf(sc)]).0, sc))
  {
    var f := FactsOf(Lookup(DiskEntries(ft, [], rel, disk), key));
    ExpectedSinceLast(f, ops, rel, key, i, sc, now);
    SettleHolds(Expected(f, ops, rel, key), sc);
    HeldIsAnswered(Settle(Expected(f, ops, rel, key)), sc);
    hide *;
    ChangesAreDurable(ft, disk, ops, env, rel, key, [LocaleOf(sc)]);
  }

  /** The schema with everything that it says. */
  predicate AnswersSchema(answer: Option<Value>, sc: Schema) {
    && answer.Some? && answer.value.SchemaValue?
    && SameTypes(answer.value.schema, sc)
    && answer.value.schema.locale == Some(LocaleOf(sc))
    && (sc.default.Some? ==> answer.value.schema.default == sc.default)
    && (sc.shortDesc.Some? ==> answer.value.schema.shortDesc == sc.shortDesc)
    && (sc.longDesc.Some? ==> answer.value.schema.longDesc == sc.longDesc)
  }

  lemma HeldIsAnswered(f: Facts, sc: Schema)
    requires HoldsSchema(f, sc)
    ensures AnswersSchema(AnswerOf(f, [LocaleOf(sc)]).0, sc)
  {
    assert [LocaleOf(sc)][1..] == [];
  }

  // When the syncs lose nothing

  /** Every default is of the type that the schema has. */
  predicate Fits(f: Facts) {
    forall i :: 0 <= i < |f.localSchemas| ==> StillApplies(Holding(f), f.localSchemas[i])
  }

  lemma {:induction false} AllKept(e: Entry, locals: seq<LocalSchema>)
    ensures KeepLocals(e, locals) == locals <==> forall i :: 0 <= i < |locals| ==> StillApplies(e, locals[i])
    ensures |KeepLocals(e, locals)| <= |locals|
  {
    if locals != [] {
      AllKept(e, locals[1..]);
      assert locals == [locals[0]] + locals[1..];
      if !StillApplies(e, locals[0]) { assert |KeepLocals(e, locals)| < |locals|; }
    }
  }

  lemma SettleFits(f: Facts)
    ensures Settle(f) == f <==> Fits(f)
  {
    AllKept(Holding(f), f.localSchemas);
  }

  /** Whenever there is a sync, what the callers left fits. */
  predicate FitsAtSyncs(f: Facts, ops: seq<Op>, rel: Path, key: string) {
    forall n :: 0 <= n < |ops| && ops[n].Sync? ==> Fits(CallersLeft(f, ops[..n], rel, key))
  }

  /** Then the syncs change nothing. */
  lemma {:induction false} SyncsLoseNothing(f: Facts, ops: seq<Op>, rel: Path, key: string)
    requires FitsAtSyncs(f, ops, rel, key)
    ensures Expected(f, ops, rel, key) == CallersLeft(f, ops, rel, key)
    decreases |ops|
  {
    if ops != [] {
      var n := |ops| - 1;
      forall m | 0 <= m < n && ops[..n][m].Sync? ensures Fits(CallersLeft(f, ops[..n][..m], rel, key)) {
        assert ops[..n][..m] == ops[..m] && ops[..n][m] == ops[m];
      }
      SyncsLoseNothing(f, ops[..n], rel, key);
      if ops[n].Sync? { SettleFits(CallersLeft(f, ops[..n], rel, key)); }
    }
  }

  lemma {:induction false} LeftPlain(f: Facts, ops: seq<Op>, rel: Path, key: string)
    requires OnePerLocale(f.localSchemas) && MainPlain(Holding(f))
    ensures var left := CallersLeft(f, ops, rel, key);
      OnePerLocale(left.localSchemas) && MainPlain(Holding(left))
    decreases |ops|
  {
    if ops != [] {
      var n := |ops| - 1;
      LeftPlain(f, ops[..n], rel, key);
      if Concerns(ops[n], rel, key) {
        ChangeKeepsOnePerLocale(Holding(CallersLeft(f, ops[..n], rel, key)), ops[n].edit);
      }
    }
  }

  /** The durable answer is what the callers last put there exactly if cleaning that is harmless for the
      locales asked for. */
  lemma CallersChangesAreDurable(ft: FloatText, disk: Disk, ops: seq<Op>, env: Env, rel: Path, key: string,
                                 locales: seq<string>)
    requires GoodFiles(ft, disk) && ClosedBelow([], disk)
    requires forall i :: 0 <= i < |ops| ==> Allowed(ft, ops[i])
    requires Allowed(ft, Sync(env))
    requires var f := FactsOf(Lookup(DiskEntries(ft, [], rel, disk), key));
      FitsAtSyncs(f, ops, rel, key) && OnePerLocale(f.localSchemas)
    requires NothingToClean(Lookup(DiskEntries(ft, [], rel, disk), key))
    ensures var left := CallersLeft(FactsOf(Lookup(DiskEntries(ft, [], rel, disk), key)), ops, rel, key);
      var t := DoAll(Source(NewDir("/"), disk), ops);
      var r := SyncTree(env, t.root, t.disk);
      && (r.2 <==> SavesAll(env, t.root))
      && (r.2 ==>
            ((Answer(See(ft, NewDir("/"), [], r.1, rel, key), locales) == AnswerOf(left, locales))
              <==> CleanHarmless(Holding(left), locales)))
  {
    var f := FactsOf(Lookup(DiskEntries(ft, [], rel, disk), key));
    ChangesAreDurable(ft, disk, ops, env, rel, key, locales);
    SyncsLoseNothing(f, ops, rel, key);
    DiskEntryPlain(ft, rel, disk, key);
    LeftPlain(f, ops, rel, key);
    var left := CallersLeft(f, ops, rel, key);
    hide SavesAll, See, DoAll, SyncTree, DiskEntries, GoodFiles, ClosedBelow, FitsAtSyncs, CleanHarmless, Answer, Expected, CallersLeft;
    CleanKeepsAnswer(Holding(left), locales);
    SettledAnswer(left, locales);
  }

  lemma SettledAnswer(f: Facts, locales: seq<string>)
    ensures AnswerOf(Settle(f), locales) == (EntryValue(Clean(Holding(f)), locales), f.schemaName)
  {
  }

  // One type for a key is enough

  predicate EditOfType(edit: MarkupEntries.Edit, t: VType) {
    edit.SetValue? && edit.v.SchemaValue? ==>
      edit.v.schema.vtype == t && (edit.v.schema.default.Some? ==> edit.v.schema.default.value.Type() == t)
  }

  predicate FactsOfType(f: Facts, t: VType) {
    && (f.value.Some? && f.value.value.SchemaValue? ==> f.value.value.schema.vtype == t)
    && (f.value.Some? && !f.value.value.SchemaValue? ==> f.localSchemas == [])
    && forall i :: 0 <= i < |f.localSchemas| && f.localSchemas[i].default.Some? ==>
         f.localSchemas[i].default.value.Type() == t
  }

  lemma ApplyOfType(f: Facts, edit: MarkupEntries.Edit, t: VType)
    requires FactsOfType(f, t) && EditOfType(edit, t)
    ensures FactsOfType(Apply(f, edit), t)
  {
    match edit
    case SetValue(v, _) =>
      if v.SchemaValue? { FindLocalBound(f.localSchemas, if v.schema.locale.Some? then v.schema.locale.value else "C"); }
    case UnsetValue(locale, _) => if locale.Some? { FindLocalBound(f.localSchemas, locale.value); }
    case _ =>
  }

  /** A key whose schemas are all set with one type, each default of that type, always fits. */
  lemma {:induction false} OneTypeFits(f: Facts, ops: seq<Op>, rel: Path, key: string, t: VType)
    requires FactsOfType(f, t)
    requires forall i :: 0 <= i < |ops| && Concerns(ops[i], rel, key) ==> EditOfType(ops[i].edit, t)
    ensures FactsOfType(CallersLeft(f, ops, rel, key), t)
    ensures Fits(CallersLeft(f, ops, rel, key)) && FitsAtSyncs(f, ops, rel, key)
    decreases |ops|
  {
    if ops == [] {
    } else {
      var n := |ops| - 1;
      OneTypeFits(f, ops[..n], rel, key, t);
      if Concerns(ops[n], rel, key) { ApplyOfType(CallersLeft(f, ops[..n], rel, key), ops[n].edit, t); }
      forall m | 0 <= m < |ops| && ops[m].Sync? ensures Fits(CallersLeft(f, ops[..m], rel, key)) {
        if m < n { assert ops[..n][m] == ops[m] && ops[..n][..m] == ops[..m]; }
      }
    }
  }

  /** What a caller put there is there after a sync that returned TRUE, for every key whose schemas keep
      one type, and every key without schemas. */
  lemma OneTypeIsDurable(ft: FloatText, disk: Disk, ops: seq<Op>, env: Env, rel: Path, key: string,
                         locales: seq<string>, t: VType)
    requires GoodFiles(ft, disk) && ClosedBelow([], disk)
    requires forall i :: 0 <= i < |ops| ==> Allowed(ft, ops[i])
    requires Allowed(ft, Sync(env))
    requires FactsOfType(FactsOf(Lookup(DiskEntries(ft, [], rel, disk), key)), t)
    requires forall i :: 0 <= i < |ops| && Concerns(ops[i], rel, key) ==> EditOfType(ops[i].edit, t)
    ensures var left := CallersLeft(FactsOf(Lookup(DiskEntries(ft, [], rel, disk), key)), ops, rel, key);
      var end := DoAll(Source(NewDir("/"), disk), ops);
      var r := SyncTree(env, end.root, end.disk);
      && (r.2 <==> SavesAll(env, end.root))
      && (r.2 ==> Answer(See(ft, NewDir("/"), [], r.1, rel, key), locales) == AnswerOf(left, locales))
  {
    var f := FactsOf(Lookup(DiskEntries(ft, [], rel, disk), key));
    OneTypeFits(f, [], rel, key, t);
    SettleFits(f);
    FitIsClean(Lookup(DiskEntries(ft, [], rel, disk), key));
    ChangesAreDurable(ft, disk, ops, env, rel, key, locales);
    OneTypeFits(f, ops, rel, key, t);
    SyncsLoseNothing(f, ops, rel, key);
    SettleFits(CallersLeft(f, ops, rel, key));
  }

  lemma FitIsClean(e: Option<Entry>)
    requires Settle(FactsOf(e)) == FactsOf(e)
    ensures NothingToClean(e)
  {
    if e.Some? { SettleIs(e.value); }
  }

  // Where a sync loses something

  const INT_SCHEMA := Schema(TInt, TInvalid, TInvalid, TInvalid, Some("C"), Some("short"), None, None, Some(IntValue(1)))
  const STRING_SCHEMA := Schema(TString, TInvalid, TInvalid, TInvalid, Some("de"), None, None, None, None)

  /** A schema is set with a default, then again for another locale with another type. */
  function TwoEdits(env: Env, rel: Path, key: string, now: int32): seq<Op> {
    [Edit(env, rel, key, SetValue(SchemaValue(INT_SCHEMA), now)),
     Edit(env, rel, key, SetValue(SchemaValue(STRING_SCHEMA), now))]
  }

  lemma TwoEditsLeave(env: Env, rel: Path, key: string, now: int32)
    ensures var left := CallersLeft(NOTHING, TwoEdits(env, rel, key, now), rel, key);
      && Expected(NOTHING, TwoEdits(env, rel, key, now), rel, key) == left
      && left.value == Some(SchemaValue(MainSchema(Some(SchemaValue(MainSchema(None, INT_SCHEMA))), STRING_SCHEMA)))
      && left.schemaName == None
      && left.localSchemas ==
           [LocalSchema("de", None, None, None), LocalSchema("C", Some("short"), None, Some(IntValue(1)))]
  {
    var ops := TwoEdits(env, rel, key, now);
    var c := LocalSchema("C", Some("short"), None, Some(IntValue(1)));
    assert ops[..1] == [ops[0]] && [ops[0]][..0] == [];
    assert PutLocal([], INT_SCHEMA) == [c];
    var first := Facts(Some(SchemaValue(MainSchema(None, INT_SCHEMA))), [c], None);
    assert CallersLeft(NOTHING, ops[..1], rel, key) == first;
    assert ops[..1][..0] == [] && Expected(NOTHING, ops[..1], rel, key) == first;
    assert [c][1..] == [] && |"C"| == 1 && |"de"| == 2;
    assert FindLocal([c], "de") == None;
    assert ops[..2] == ops && ops[..2][..1] == ops[..1];
    assert PutLocal([c], STRING_SCHEMA) == [LocalSchema("de", None, None, None)] + [c];
  }

  /** The description that the first one set is lost by a sync that returns TRUE, although both may be set. */
  lemma TwoEditsLose(ft: FloatText, disk: Disk, env: Env, rel: Path, key: string, now: int32)
    requires GoodFiles(ft, disk) && ClosedBelow([], disk) && Allowed(ft, Sync(env)) && ValidPath(rel)
    requires Lookup(DiskEntries(ft, [], rel, disk), key) == None && forall p :: env.saves(p)
    ensures var ops := TwoEdits(env, rel, key, now);
      var left := CallersLeft(NOTHING, ops, rel, key);
      var t := DoAll(Source(NewDir("/"), disk), ops);
      var r := SyncTree(env, t.root, t.disk);
      && Allowed(ft, ops[0]) && Allowed(ft, ops[1])
      && r.2 && Answer(See(ft, NewDir("/"), [], r.1, rel, key), ["C"]) != AnswerOf(left, ["C"])
  {
    hide *;
    var ops := TwoEdits(env, rel, key, now);
    var left := CallersLeft(NOTHING, ops, rel, key);
    TwoEditsLeave(env, rel, key, now);
    TwoEditsAllowed(ft, env, rel, key, now);
    NoEntry();
    ChangesAreDurable(ft, disk, ops, env, rel, key, ["C"]);
    var t := DoAll(Source(NewDir("/"), disk), ops);
    SyncReturnsTrue(env, t.root, t.disk);
    SettledAnswer(left, ["C"]);
    TwoEditsHarm(left);
  }

  lemma TwoEditsAllowed(ft: FloatText, env: Env, rel: Path, key: string, now: int32)
    requires Allowed(ft, Sync(env)) && ValidPath(rel)
    ensures var ops := TwoEdits(env, rel, key, now); |ops| == 2 && Allowed(ft, ops[0]) && Allowed(ft, ops[1])
  {
  }

  lemma NoEntry()
    ensures FactsOf(None) == NOTHING && NothingToClean(None)
  {
  }

  lemma TwoEditsHarm(left: Facts)
    requires left.value == Some(SchemaValue(MainSchema(Some(SchemaValue(MainSchema(None, INT_SCHEMA))), STRING_SCHEMA)))
    requires left.localSchemas ==
      [LocalSchema("de", None, None, None), LocalSchema("C", Some("short"), None, Some(IntValue(1)))]
    ensures EntryValue(Clean(Holding(left)), ["C"]) != EntryValue(Holding(left), ["C"])
    ensures AnswerOf(left, ["C"]) == (EntryValue(Holding(left), ["C"]), left.schemaName)
  {
    var c := left.localSchemas[1];
    assert left.localSchemas[1..] == [c] && [c][1..] == [] && ["C"][1..] == [];
    assert |"C"| == 1 && |"de"| == 2;
    LocalForRest(left.localSchemas, "C");
    LocalForRest([c], "C");
    assert BestLocal(left.localSchemas, ["C"]) == Some(c);
    assert !StillApplies(Holding(left), c);
    CleanKeepsAnswer(Holding(left), ["C"]);
  }

  // A file that was not cleaned when it was written

  const STALE := Entry(
    "k",
    Some(SchemaValue(Schema(TString, TInvalid, TInvalid, TInvalid, None, None, None, None, None))),
    [LocalSchema("C", Some("short"), None, Some(IntValue(1)))],
    None, None, 0)

  function StaleDisk(env: Env): Disk { map[[] := FileOf(env, [STALE])] }

  /** The root is looked at, and something is set below it. */
  function StaleOps(env: Env, v: Value, now: int32): seq<Op> {
    [Query(env, []), Edit(env, ["a"], "x", SetValue(v, now))]
  }

  lemma StaleIs()
    ensures EntryReadable(STALE, false) && Tidy([STALE]) && Clean(STALE) == STALE.(localSchemas := [])
    ensures OnePerLocale(STALE.localSchemas) && MainPlain(STALE) && !CleanHarmless(STALE, ["C"])
    ensures Lookup(Some([STALE]), "k") == Some(STALE)
  {
    var c := STALE.localSchemas[0];
    assert STALE.localSchemas[1..] == [] && ["C"][1..] == [] && |"C"| == 1;
    LocalForRest(STALE.localSchemas, "C");
    assert LocalFor(STALE.localSchemas, "C") == Some(c);
    assert BestLocal(STALE.localSchemas, ["C"]) == Some(c);
    assert !StillApplies(STALE, c);
  }

  lemma StaleSource(ft: FloatText, env: Env)
    requires Allowed(ft, Sync(env))
    ensures GoodFiles(ft, StaleDisk(env)) && ClosedBelow([], StaleDisk(env))
    ensures FileEntries(ft, [], StaleDisk(env)) == [STALE]
  {
    StaleIs();
    SavedFileLoads(env, [STALE]);
  }

  /** Nothing is listed below the root. */
  lemma StaleListed(env: Env, d: MDir)
    requires env.Sound() && d.subdirs == [] && !d.subdirsLoaded
    ensures LoadSubdirs(env, d, [], StaleDisk(env)).subdirs == []
  {
    var names := env.order(ChildNames([], StaleDisk(env)));
    assert ChildNames([], StaleDisk(env)) == {};
    assert Lists(names, {});
    NothingIn(names);
  }

  lemma StaleRun(env: Env, v: Value, now: int32)
    ensures var s := Source(NewDir("/"), StaleDisk(env));
      DoAll(s, StaleOps(env, v, now)) == Do(Do(s, StaleOps(env, v, now)[0]), StaleOps(env, v, now)[1])
  {
    var ops := StaleOps(env, v, now);
    var s := Source(NewDir("/"), StaleDisk(env));
    assert ops[..1][..0] == [] && ops[..1][0] == ops[0];
    assert DoAll(s, ops[..1][..0]) == s && DoAll(s, ops[..1]) == Do(s, ops[0]);
  }

  /** The sync finds the root without a flag, its entries in memory and something to save below it. */
  lemma StaleReached(ft: FloatText, env: Env, v: Value, now: int32)
    requires Allowed(ft, Sync(env))
    ensures var t := DoAll(Source(NewDir("/"), StaleDisk(env)), StaleOps(env, v, now));
      t.disk == StaleDisk(env) && NeedsSync(t.root) && Unflagged(t.root, [])
  {
    StaleRun(env, v, now);
    var d := NewDir("/").(entriesLoaded := true, entries := FileEntries(env.floats, [], StaleDisk(env)));
    StaleListed(env, d);
    hide DoAll, FileEntries, StaleDisk, FileOf, Allowed;
    EditNewQueues(env, BlankDir("a"), ["a"], [], "x", SetValue(v, now), StaleDisk(env));
    assert [] + ["a"] == ["a"] && ["a"][1..] == [];
  }

  /** A sync that returns TRUE leaves memory and file different, and an answer that changes on reload. */
  lemma StaleFileDeparts(ft: FloatText, env: Env, v: Value, now: int32)
    requires Allowed(ft, Sync(env)) && ValueReadable(v) && !v.SchemaValue? && forall p :: env.saves(p)
    ensures var ops := StaleOps(env, v, now);
      var t := DoAll(Source(NewDir("/"), StaleDisk(env)), ops);
      var r := SyncTree(env, t.root, t.disk);
      var file, memory := See(ft, NewDir("/"), [], r.1, [], "k"), See(ft, r.0, [], r.1, [], "k");
      && GoodFiles(ft, StaleDisk(env)) && ClosedBelow([], StaleDisk(env))
      && Allowed(ft, ops[0]) && Allowed(ft, ops[1])
      && r.2 && file == Some(STALE) && memory == Some(STALE.(localSchemas := []))
      && Answer(file, ["C"]) != Answer(memory, ["C"])
  {
    hide *;
    var ops := StaleOps(env, v, now);
    var s := Source(NewDir("/"), StaleDisk(env));
    StaleSource(ft, env);
    StaleAllowed(ft, env, v, now);
    StaleReached(ft, env, v, now);
    Fresh(ft, s.disk);
    RunKeepsInv(ft, s, ops);
    StaleSync(ft, env, DoAll(s, ops));
  }

  lemma StaleAllowed(ft: FloatText, env: Env, v: Value, now: int32)
    requires Allowed(ft, Sync(env)) && ValueReadable(v) && !v.SchemaValue?
    ensures var ops := StaleOps(env, v, now); |ops| == 2 && Allowed(ft, ops[0]) && Allowed(ft, ops[1])
  {
    assert Visible("a");
  }

  lemma StaleSync(ft: FloatText, env: Env, t: Source)
    requires Allowed(ft, Sync(env)) && SourceInv(ft, t) && forall p :: env.saves(p)
    requires t.disk == StaleDisk(env) && NeedsSync(t.root) && Unflagged(t.root, [])
    ensures var r := SyncTree(env, t.root, t.disk);
      var file, memory := See(ft, NewDir("/"), [], r.1, [], "k"), See(ft, r.0, [], r.1, [], "k");
      && r.2 && file == Some(STALE) && memory == Some(STALE.(localSchemas := []))
      && Answer(file, ["C"]) != Answer(memory, ["C"])
  {
    StaleIs();
    StaleSource(ft, env);
    var r := SyncTree(env, t.root, t.disk);
    SyncReturnsTrue(env, t.root, t.disk);
    OwnFile(env, t.root, [], t.disk);
    FileEntriesLocal(ft, [], t.disk, r.1);
    UnflaggedClean(env, t.root, t.disk, [], "k");
    CleanKeepsAnswer(STALE, ["C"]);
    assert See(ft, NewDir("/"), [], r.1, [], "k") == FileEntry(ft, [], r.1, "k");
  }
}
