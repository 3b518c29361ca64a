/** A sync of a directory looks at, and changes, nothing but the files at or below it. */
module MarkupSyncLocal {
  import opened Basics
  import opened Values
  import opened MarkupTypes
  import opened MarkupParser
  import opened MarkupRoundTrip
  import opened MarkupEntries
  import opened MarkupSync

  ghost predicate SameFile(p: Path, a: Disk, b: Disk) {
    (p in a <==> p in b) && (p in a ==> a[p] == b[p])
  }

  /** The two disks hold the same files at `path' and below. */
  ghost predicate AgreeBelow(path: Path, a: Disk, b: Disk) {
    forall p: Path :: path <= p ==> SameFile(p, a, b)
  }

  /** The two disks hold the same files everywhere else. */
  ghost predicate AgreeOutside(path: Path, a: Disk, b: Disk) {
    forall p: Path :: !(path <= p) ==> SameFile(p, a, b)
  }

  lemma AgreeDeeper(path: Path, name: string, a: Disk, b: Disk)
    requires AgreeBelow(path, a, b)
    ensures AgreeBelow(path + [name], a, b)
  {
    forall p: Path | path + [name] <= p ensures SameFile(p, a, b) { assert path <= p; }
  }

  lemma ChildNamesLocal(path: Path, a: Disk, b: Disk)
    requires AgreeBelow(path, a, b)
    ensures ChildNames(path, a) == ChildNames(path, b)
  {
    forall n ensures n in ChildNames(path, a) <==> n in ChildNames(path, b) {
      ChildNamesMember(path, a, n);
      ChildNamesMember(path, b, n);
      assert path <= path + [n];
      assert SameFile(path + [n], a, b);
    }
  }

  lemma FileEntriesLocal(ft: FloatText, path: Path, a: Disk, b: Disk)
    requires SameFile(path, a, b)
    ensures FileEntries(ft, path, a) == FileEntries(ft, path, b)
  {
  }

  lemma LoadLocal(env: Env, d: MDir, path: Path, a: Disk, b: Disk)
    requires AgreeBelow(path, a, b)
    ensures LoadEntries(env, d, path, a) == LoadEntries(env, d, path, b)
    ensures LoadSubdirs(env, d, path, a) == LoadSubdirs(env, d, path, b)
  {
    assert SameFile(path, a, b);
    FileEntriesLocal(env.floats, path, a, b);
    ChildNamesLocal(path, a, b);
  }

  lemma {:induction false} DropLocal(ds: seq<MDir>, path: Path, a: Disk, b: Disk)
    requires AgreeBelow(path, a, b)
    ensures AgreeBelow(path, DropDirs(ds, path, a), DropDirs(ds, path, b))
    decreases ds
  {
    if ds != [] {
      var a1, b1 := DropOne(ds[0], path, a), DropOne(ds[0], path, b);
      forall q: Path | path <= q ensures SameFile(q, a1, b1) { assert SameFile(q, a, b); }
      DropLocal(ds[1..], path, a1, b1);
    }
  }

  lemma SaveLocal(env: Env, d: MDir, path: Path, a: Disk, b: Disk)
    requires AgreeBelow(path, a, b)
    ensures SaveEntries(env, d, path, a).0 == SaveEntries(env, d, path, b).0
    ensures AgreeBelow(path, SaveEntries(env, d, path, a).1, SaveEntries(env, d, path, b).1)
  {
    forall q: Path | path <= q
      ensures SameFile(q, SaveEntries(env, d, path, a).1, SaveEntries(env, d, path, b).1)
    {
      assert SameFile(q, a, b);
    }
  }

  lemma PruneLocal(env: Env, d: MDir, path: Path, a: Disk, b: Disk, dropped: bool)
    requires AgreeBelow(path, a, b)
    ensures Prune(env, d, path, a, dropped).0 == Prune(env, d, path, b, dropped).0
    ensures AgreeBelow(path, Prune(env, d, path, a, dropped).1, Prune(env, d, path, b, dropped).1)
  {
    DropLocal(d.subdirs, path, a, b);
    var a1, b1 := DropDirs(d.subdirs, path, a), DropDirs(d.subdirs, path, b);
    var d1 := d.(subdirs := KeepDirs(d.subdirs));
    LoadLocal(env, d1, path, a1, b1);
    LoadLocal(env, if dropped then LoadSubdirs(env, d1, path, a1) else d1, path, a1, b1);
  }

  /** What a sync does to a directory depends only on the files at or below it. */
  lemma {:induction false} SyncLocal(env: Env, d: MDir, path: Path, a: Disk, b: Disk)
    requires AgreeBelow(path, a, b)
    ensures SyncDir(env, d, path, a).0 == SyncDir(env, d, path, b).0
    ensures AgreeBelow(path, SyncDir(env, d, path, a).1, SyncDir(env, d, path, b).1)
    decreases d, 1
  {
    SaveLocal(env, d, path, a, b);
    var sa, sb := SaveEntries(env, d, path, a), SaveEntries(env, d, path, b);
    var dropped := d.entriesNeedSave && |sa.0.entries| < |d.entries|;
    var ra := if !d.someSubdirNeedsSync then (d.subdirs, sa.1) else SyncDirs(env, d.subdirs, path, sa.1);
    var rb := if !d.someSubdirNeedsSync then (d.subdirs, sb.1) else SyncDirs(env, d.subdirs, path, sb.1);
    if d.someSubdirNeedsSync { SyncDirsLocal(env, d.subdirs, path, sa.1, sb.1); }
    var d1 := sa.0.(subdirs := ra.0, someSubdirNeedsSync := d.someSubdirNeedsSync && SomeNeedSync(ra.0));
    PruneLocal(env, d1, path, ra.1, rb.1, dropped);
  }

  /** One step of SyncDirs. */
  function SyncOne(env: Env, d: MDir, path: Path, disk: Disk): (MDir, Disk) {
    if NeedsSync(d) then SyncDir(env, d, path + [d.name], disk) else (d, disk)
  }

  lemma {:induction false} SyncDirsLocal(env: Env, ds: seq<MDir>, path: Path, a: Disk, b: Disk)
    requires AgreeBelow(path, a, b)
    ensures SyncDirs(env, ds, path, a).0 == SyncDirs(env, ds, path, b).0
    ensures AgreeBelow(path, SyncDirs(env, ds, path, a).1, SyncDirs(env, ds, path, b).1)
    decreases ds, 0
  {
    if ds != [] {
      var fa, fb := SyncOne(env, ds[0], path, a), SyncOne(env, ds[0], path, b);
      if NeedsSync(ds[0]) {
        var p := path + [ds[0].name];
        AgreeDeeper(path, ds[0].name, a, b);
        SyncLocal(env, ds[0], p, a, b);
        SyncFrame(env, ds[0], p, a);
        SyncFrame(env, ds[0], p, b);
        forall q: Path | path <= q ensures SameFile(q, fa.1, fb.1) {
          assert SameFile(q, a, b);
          if p <= q { assert SameFile(q, fa.1, fb.1); } else { assert SameFile(q, a, fa.1) && SameFile(q, b, fb.1); }
        }
      }
      SyncDirsLocal(env, ds[1..], path, fa.1, fb.1);
    }
  }

  lemma NotBelow(path: Path, name: string, p: Path)
    requires !(path <= p) || |p| <= |path| || p[|path|] != name
    ensures !(path + [name] <= p)
  {
  }

  lemma Below(path: Path, name: string, p: Path)
    requires path + [name] <= p
    ensures path <= p && |p| > |path| && p[|path|] == name
  {
  }

  /** Sibling `name' is not among these directories. */
  ghost predicate NotNamed(ds: seq<MDir>, name: string) {
    forall i :: 0 <= i < |ds| ==> ds[i].name != name
  }

  /** Files that a pass over the subdirectories `ds' of `path' leaves alone. */
  ghost predicate Untouched(ds: seq<MDir>, path: Path, p: Path) {
    !(path <= p) || p == path || NotNamed(ds, p[|path|])
  }

  lemma {:induction false} DropFrame(ds: seq<MDir>, path: Path, disk: Disk, p: Path)
    requires |p| != |path| + 1 || p[..|path|] != path
      || (forall i :: 0 <= i < |ds| && UselessDir(ds[i]) ==> ds[i].name != p[|path|])
    ensures SameFile(p, disk, DropDirs(ds, path, disk))
    decreases ds
  {
    if ds != [] {
      var q := path + [ds[0].name];
      assert q[..|path|] == path && q[|path|] == ds[0].name;
      var disk1 := DropOne(ds[0], path, disk);
      assert SameFile(p, disk, disk1);
      DropFrame(ds[1..], path, disk1, p);
    }
  }

  /** A sync changes only files at or below its directory. */
  lemma {:induction false} SyncFrame(env: Env, d: MDir, path: Path, disk: Disk)
    ensures AgreeOutside(path, disk, SyncDir(env, d, path, disk).1)
    decreases d, 1
  {
    var saved := SaveEntries(env, d, path, disk);
    var synced := if !d.someSubdirNeedsSync then (d.subdirs, saved.1) else SyncDirs(env, d.subdirs, path, saved.1);
    forall p: Path | !(path <= p) ensures SameFile(p, disk, SyncDir(env, d, path, disk).1) {
      if d.someSubdirNeedsSync { SyncDirsFrame(env, d.subdirs, path, saved.1, p); }
      assert SameFile(p, saved.1, synced.1);
      assert |p| != |path| + 1 || p[..|path|] != path;
      DropFrame(synced.0, path, synced.1, p);
    }
  }

  lemma {:induction false} SyncDirsFrame(env: Env, ds: seq<MDir>, path: Path, disk: Disk, p: Path)
    requires Untouched(ds, path, p)
    ensures SameFile(p, disk, SyncDirs(env, ds, path, disk).1)
    decreases ds, 0
  {
    if ds != [] {
      var first := SyncOne(env, ds[0], path, disk);
      var q := path + [ds[0].name];
      if NeedsSync(ds[0]) {
        SyncFrame(env, ds[0], q, disk);
        NotBelow(path, ds[0].name, p);
      }
      assert SameFile(p, disk, first.1);
      SyncDirsFrame(env, ds[1..], path, first.1, p);
    }
  }

  ghost predicate DistinctNames(ds: seq<MDir>) {
    forall i, j :: 0 <= i < j < |ds| ==> ds[i].name != ds[j].name
  }

  /** Syncing one subdirectory leaves the files of its siblings alone. */
  lemma SiblingSafe(env: Env, d: MDir, path: Path, disk: Disk, name: string)
    requires name != d.name
    ensures AgreeBelow(path + [name], SyncOne(env, d, path, disk).1, disk)
  {
    if NeedsSync(d) {
      SyncFrame(env, d, path + [d.name], disk);
      forall q: Path | path + [name] <= q ensures SameFile(q, SyncOne(env, d, path, disk).1, disk) {
        Below(path, name, q);
        NotBelow(path, d.name, q);
        assert SameFile(q, disk, SyncDir(env, d, path + [d.name], disk).1);
      }
    }
  }

  lemma SiblingsSafe(env: Env, ds: seq<MDir>, path: Path, disk: Disk, name: string)
    requires NotNamed(ds, name)
    ensures AgreeBelow(path + [name], SyncDirs(env, ds, path, disk).1, disk)
  {
    forall q: Path | path + [name] <= q ensures SameFile(q, SyncDirs(env, ds, path, disk).1, disk) {
      Below(path, name, q);
      SyncDirsFrame(env, ds, path, disk, q);
    }
  }

  lemma SyncOneLocal(env: Env, d: MDir, path: Path, a: Disk, b: Disk)
    requires AgreeBelow(path + [d.name], a, b)
    ensures SyncOne(env, d, path, a).0 == SyncOne(env, d, path, b).0
    ensures AgreeBelow(path + [d.name], SyncOne(env, d, path, a).1, SyncOne(env, d, path, b).1)
  {
    if NeedsSync(d) { SyncLocal(env, d, path + [d.name], a, b); }
  }

  /** Each subdirectory is synced as if it were alone. */
  lemma {:induction false} SyncDirsAt(env: Env, ds: seq<MDir>, path: Path, disk: Disk, i: nat)
    requires DistinctNames(ds) && i < |ds|
    ensures |SyncDirs(env, ds, path, disk).0| == |ds|
    ensures SyncDirs(env, ds, path, disk).0[i] == SyncOne(env, ds[i], path, disk).0
    ensures AgreeBelow(path + [ds[i].name], SyncDirs(env, ds, path, disk).1, SyncOne(env, ds[i], path, disk).1)
    decreases ds
  {
    SyncDirsLength(env, ds, path, disk);
    var first := SyncOne(env, ds[0], path, disk);
    var rest := ds[1..];
    if i == 0 {
      SiblingsSafe(env, rest, path, first.1, ds[0].name);
    } else {
      SyncDirsAt(env, rest, path, first.1, i - 1);
      assert rest[i - 1] == ds[i];
      SiblingSafe(env, ds[0], path, disk, ds[i].name);
      SyncOneLocal(env, ds[i], path, first.1, disk);
      AgreeJoin(path + [ds[i].name], SyncDirs(env, rest, path, first.1).1,
                SyncOne(env, ds[i], path, first.1).1, SyncOne(env, ds[i], path, disk).1);
    }
  }

  lemma AgreeJoin(p: Path, a: Disk, b: Disk, c: Disk)
    requires AgreeBelow(p, a, b) && AgreeBelow(p, b, c)
    ensures AgreeBelow(p, a, c)
  {
    forall q: Path | p <= q ensures SameFile(q, a, c) { assert SameFile(q, a, b) && SameFile(q, b, c); }
  }

  lemma SyncDirsLength(env: Env, ds: seq<MDir>, path: Path, disk: Disk)
    ensures |SyncDirs(env, ds, path, disk).0| == |ds|
    decreases ds
  {
    if ds != [] { SyncDirsLength(env, ds[1..], path, SyncOne(env, ds[0], path, disk).1); }
  }
}
