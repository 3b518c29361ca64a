/** The cache of the XML backend: directories read from disk, a negative cache of those that are not
    there, and the sync that saves the changed ones and deletes the empty ones until none is left. */
module XmlCache {
  import opened Basics
  import opened Values
  import opened Keys
  import opened KeyWalk
  import opened XmlFiles

  /** A cached directory without a pending sync holds what is on disk. */
  ghost predicate Faithful(d: XDir, content: Content) {
    && (!d.loaded ==> d.entries == map[])
    && (d.loaded && !d.dirty ==> d.entries == content)
  }

  /** The cache, but for one directory just deleted (`gone'), holds directories that are on disk; the
      negative cache holds none, but for those just created (`made'). */
  ghost predicate Fits(cache: map<string, XDir>, nonexistent: set<string>, disk: Files, gone: set<string>, made: set<string>) {
    && Closed(disk)
    && (forall k :: k in cache && k !in gone ==> k in disk && Faithful(cache[k], disk[k]))
    && (forall k :: k in gone ==> k !in disk && Rooted(k))
    && (forall k :: k in nonexistent && k in disk ==> k in made)
  }

  /** More directories may be cached, clean and not yet read, and a parent may know of one more. */
  ghost predicate Grown(before: map<string, XDir>, after: map<string, XDir>) {
    && (forall k :: k in before ==> k in after && after[k] == before[k].(subdirs := after[k].subdirs))
    && (forall k :: k in after && k !in before ==> after[k] == NEW_DIR.(subdirs := after[k].subdirs))
  }

  /** The values of a directory: those in the cache if its file was read, otherwise those in the file. */
  function ValuesOf(cache: map<string, XDir>, disk: Files, k: string): Content {
    if k in cache && cache[k].loaded then cache[k].entries
    else if k in disk then disk[k]
    else map[]
  }

  /** No directory's values change, and a file that was written holds them. */
  ghost predicate KeepsValues(cache0: map<string, XDir>, disk0: Files, cache: map<string, XDir>, disk: Files) {
    forall k: string ::
      && ValuesOf(cache, disk, k) == ValuesOf(cache0, disk0, k)
      && (k in disk ==> (k in disk0 && disk[k] == disk0[k]) || disk[k] == ValuesOf(cache0, disk0, k))
  }

  lemma KeepsTwice(c0: map<string, XDir>, d0: Files, c1: map<string, XDir>, d1: Files, c2: map<string, XDir>, d2: Files)
    requires KeepsValues(c0, d0, c1, d1) && KeepsValues(c1, d1, c2, d2)
    ensures KeepsValues(c0, d0, c2, d2)
  {
    hide ValuesOf;
    forall k: string
      ensures ValuesOf(c2, d2, k) == ValuesOf(c0, d0, k)
      ensures k in d2 ==> (k in d0 && d2[k] == d0[k]) || d2[k] == ValuesOf(c0, d0, k)
    {
      assert ValuesOf(c2, d2, k) == ValuesOf(c1, d1, k) && ValuesOf(c1, d1, k) == ValuesOf(c0, d0, k);
    }
  }

  /** Looking directories up, and making the root, changes no value. */
  lemma GrownKeeps(c0: map<string, XDir>, d0: Files, c1: map<string, XDir>, d1: Files)
    requires Grown(c0, c1) && (d1 == d0 || ("/" !in d0 && "/" !in c0 && d1 == d0["/" := map[]]))
    ensures KeepsValues(c0, d0, c1, d1)
  {
  }

  /** Looking up and making directories changes no value. */
  lemma LookedUpKeeps(c0: map<string, XDir>, d0: Files, c1: map<string, XDir>, d1: Files)
    requires Grown(c0, c1)
    requires forall k :: k in d0 ==> k in d1 && d1[k] == d0[k]
    requires forall k :: k in d1 && k !in d0 ==> d1[k] == map[]
    ensures forall k: string :: ValuesOf(c1, d1, k) == ValuesOf(c0, d0, k)
  {
  }

  /** What the values and the files after a sync are, seen from before it. */
  ghost predicate Durable(cache0: map<string, XDir>, disk0: Files, cache: map<string, XDir>, disk: Files) {
    && (forall k :: k in disk0 && k !in disk ==>
          ValuesOf(cache0, disk0, k) == map[] && (k != "/" ==> Children(disk, k) == {}))
    && (forall k :: k in disk0 && k in disk && (k in cache0 ==> !cache0[k].dirty) ==> disk[k] == disk0[k])
    && (forall k: string :: OnDisk(disk, k, ValuesOf(cache0, disk0, k)) || Pending(cache, k, ValuesOf(cache0, disk0, k)))
  }

  /** The file of a directory holds these values; a directory without any may have no file. */
  predicate OnDisk(disk: Files, k: string, values: Content) { if k in disk then disk[k] == values else values == map[] }

  /** These values are in the cache, and still to be saved. */
  predicate Pending(cache: map<string, XDir>, k: string, values: Content) {
    k in cache && cache[k].loaded && cache[k].dirty && cache[k].entries == values
  }

  lemma KeptIsDurable(cache0: map<string, XDir>, disk0: Files, cache: map<string, XDir>, nonexistent: set<string>,
                      disk: Files)
    requires forall k :: k in cache0 ==> k in disk0 && Faithful(cache0[k], disk0[k])
    requires Fits(cache, nonexistent, disk, {}, {}) && KeepsValues(cache0, disk0, cache, disk)
    ensures Durable(cache0, disk0, cache, disk)
  {
    forall k | k in disk0 && k !in disk
      ensures ValuesOf(cache0, disk0, k) == map[] && (k != "/" ==> Children(disk, k) == {})
    {
      assert ValuesOf(cache, disk, k) == ValuesOf(cache0, disk0, k);
      if k != "/" { Childless(disk, k); }
    }
  }

  lemma Childless(disk: Files, k: string)
    requires Closed(disk) && k !in disk && k != "/"
    ensures Children(disk, k) == {}
  {
    assert forall c :: c in disk && Rooted(c) && c != "/" ==> Parent(c) != k;
  }

  lemma SavedKeeps(cache: map<string, XDir>, disk: Files, key: string)
    requires key in cache && cache[key].loaded && key in disk
    ensures KeepsValues(cache, disk, cache[key := cache[key].(dirty := false)], disk[key := cache[key].entries])
  {
  }

  lemma DeletedKeeps(cache: map<string, XDir>, disk: Files, key: string)
    requires key in cache && cache[key].loaded && cache[key].entries == map[]
    ensures KeepsValues(cache, disk, cache[key := cache[key].(dirty := false)], disk - {key})
  {
  }

  /** The parent of a key is believed not to exist. */
  predicate Forgotten(key: string, cache: map<string, XDir>, nonexistent: set<string>) {
    Rooted(key) && key != "/" && Parent(key) in nonexistent && Parent(key) !in cache
  }

  class XmlCache {
    var cache: map<string, XDir>
    var nonexistent: set<string>
    var disk: Files                 // the directories on disk
    var fileless: set<string>       // those of them that a sync could not delete, although it did their files

    ghost predicate Valid()
      reads this
    {
      Fits(cache, nonexistent, disk, {}, {}) && fileless == {}
    }

    /** In the middle of a sync: a directory without file is still cached, so nobody looks for it. */
    ghost predicate Syncing()
      reads this
    {
      Fits(cache, nonexistent, disk, {}, {}) && fileless <= cache.Keys
    }

    constructor (files: Files)
      requires Closed(files)
      ensures Valid() && cache == map[] && nonexistent == {} && disk == files
    {
      cache, nonexistent, disk, fileless := map[], {}, files, {};
    }

    /** cache_lookup, in the middle of other operations. */
    method LookupWithin(key: string, create: bool, ghost gone: set<string>, ghost made: set<string>) returns (found: bool)
      requires Rooted(key) && Fits(cache, nonexistent, disk, gone, made)
      requires create ==> made == {} && forall k :: k in gone ==> |k| > |key| || key in cache
      modifies `cache, `nonexistent, `disk
      ensures Fits(cache, nonexistent, disk, gone, made) && Grown(old(cache), cache)
      ensures key in old(cache) ==> found && cache == old(cache) && disk == old(disk) && nonexistent == old(nonexistent)
      ensures found ==> key in cache
      ensures !create ==> disk == old(disk)
      ensures !create ==> (found <==> key in old(cache) || (key !in old(nonexistent) && key in old(disk)))
      ensures create && key !in old(cache) ==> found && disk == Ensured(old(disk), key)
      ensures !found ==> cache == old(cache) && key in nonexistent
      ensures create && key !in old(cache) && key !in old(disk) && Forgotten(key, old(cache), old(nonexistent)) ==>
        cache == old(cache)[key := NEW_DIR]
      decreases |key|, if key in cache then 0 else 1, 2
    {
      if key in cache { return true; }
      if key in nonexistent {
        if !create { return false; }
      } else {
        if key in disk {
          cache := cache[key := NEW_DIR];
          AddToParent(key, gone, made);
          return true;
        }
        if !create {
          nonexistent := nonexistent + {key};
          return false;
        }
      }
      CreateDir(key, gone);
      return true;
    }

    /** The end of cache_lookup: make the directory on disk, cache it and forget that it was missing. */
    method CreateDir(key: string, ghost gone: set<string>)
      requires Rooted(key) && Fits(cache, nonexistent, disk, gone, {}) && key !in cache
      requires forall k :: k in gone ==> |k| > |key|
      modifies `cache, `nonexistent, `disk
      ensures Fits(cache, nonexistent, disk, gone, {}) && Grown(old(cache), cache) && key in cache
      ensures disk == Ensured(old(disk), key)
      ensures Forgotten(key, old(cache), old(nonexistent)) ==> cache == old(cache)[key := NEW_DIR]
      decreases |key|, 1, 0
    {
      ghost var before := disk;
      EnsuredIs(disk, key);
      disk := Ensured(disk, key);
      cache := cache[key := NEW_DIR];
      EnsuredFits(old(cache), nonexistent, before, key, gone);
      AddToParent(key, gone, Chain(key));
      UnsetNonexistent(key);
    }

    /** cache_unset_nonexistent */
    method UnsetNonexistent(key: string)
      requires Rooted(key)
      modifies this`nonexistent
      ensures nonexistent == old(nonexistent) - Chain(key)
      decreases |key|
    {
      nonexistent := nonexistent - {key};
      if key == "/" { return; }
      UnsetNonexistent(Parent(key));
    }

    /** cache_add_to_parent */
    method AddToParent(key: string, ghost gone: set<string>, ghost made: set<string>)
      requires Rooted(key) && key in cache && Fits(cache, nonexistent, disk, gone, made)
      modifies `cache, `nonexistent, `disk
      ensures Fits(cache, nonexistent, disk, gone, made) && Grown(old(cache), cache) && disk == old(disk)
      ensures Parent(key) != key && Parent(key) in cache && !cache[Parent(key)].needRescan ==>
        key in cache[Parent(key)].subdirs
      ensures Forgotten(key, old(cache), old(nonexistent)) ==> cache == old(cache)
      decreases |key|, 0, 3
    {
      var parent := Parent(key);
      var found := LookupWithin(parent, false, gone, made);
      if !found || parent == key { return; }
      if !cache[parent].needRescan {
        cache := cache[parent := cache[parent].(subdirs := cache[parent].subdirs + {key})];
      }
    }

    /** cache_lookup: without creation it succeeds exactly for the directories on disk, and with creation
        it makes the directory and its missing ancestors. */
    method Lookup(key: string, create: bool) returns (found: bool)
      requires Valid() && Rooted(key)
      modifies `cache, `nonexistent, `disk
      ensures Valid() && Grown(old(cache), cache)
      ensures !create ==> disk == old(disk) && (found <==> key in disk)
      ensures create ==> found && disk == Ensured(old(disk), key)
      ensures if found then key in cache else cache == old(cache) && key in nonexistent
      ensures create && key !in old(disk) && Forgotten(key, old(cache), old(nonexistent)) ==>
        cache == old(cache)[key := NEW_DIR]
      ensures forall k: string :: ValuesOf(cache, disk, k) == ValuesOf(old(cache), old(disk), k)
    {
      if create { EnsuredIs(disk, key); }
      found := LookupWithin(key, create, {}, {});
      LookedUpKeeps(old(cache), old(disk), cache, disk);
    }

    // Directories in use

    /** dir_load_doc and dir_rescan_subdirs, where they are still to be done. A listing finds the
        subdirectories with a file. */
    method Prepare(key: string, rescan: bool)
      requires Syncing() && key in cache && key !in fileless
      modifies this`cache
      ensures Syncing() && cache == old(cache)[key := Prepared(old(cache)[key], key, disk - fileless, rescan)]
    {
      var d := cache[key];
      if !d.loaded { d := d.(loaded := true, entries := disk[key]); }
      if rescan && d.needRescan { d := d.(needRescan := false, subdirs := Children(disk - fileless, key)); }
      cache := cache[key := d];
    }

    /** dir_set_value in a directory looked up before */
    method SetValue(key: string, name: string, value: Value)
      requires Valid() && key in cache
      modifies this`cache
      ensures Valid()
      ensures var d := Prepared(old(cache)[key], key, disk, false);
        cache == old(cache)[key := d.(entries := d.entries[name := value], dirty := true)]
      ensures ValuesOf(cache, disk, key) == ValuesOf(old(cache), disk, key)[name := value]
      ensures forall k: string :: k != key ==> ValuesOf(cache, disk, k) == ValuesOf(old(cache), disk, k)
    {
      assert disk - fileless == disk;
      PreparedLoads(cache, nonexistent, disk, fileless, key);
      hide Fits, Prepared, Children;
      Prepare(key, false);
      EditedFits(cache, nonexistent, disk, key, cache[key].entries[name := value]);
      cache := cache[key := cache[key].(entries := cache[key].entries[name := value], dirty := true)];
    }

    /** dir_unset_value */
    method UnsetValue(key: string, name: string)
      requires Valid() && key in cache
      modifies this`cache
      ensures Valid()
      ensures var d := Prepared(old(cache)[key], key, disk, false);
        cache == old(cache)[key := if name in d.entries then d.(entries := d.entries - {name}, dirty := true) else d]
      ensures ValuesOf(cache, disk, key) == ValuesOf(old(cache), disk, key) - {name}
      ensures forall k: string :: k != key ==> ValuesOf(cache, disk, k) == ValuesOf(old(cache), disk, k)
    {
      assert disk - fileless == disk;
      PreparedLoads(cache, nonexistent, disk, fileless, key);
      hide Fits, Prepared, Children;
      Prepare(key, false);
      EditedFits(cache, nonexistent, disk, key, cache[key].entries - {name});
      if name in cache[key].entries {
        cache := cache[key := cache[key].(entries := cache[key].entries - {name}, dirty := true)];
      }
    }

    /** dir_get_value in a directory looked up before */
    method GetValue(key: string, name: string) returns (value: Option<Value>)
      requires Valid() && key in cache
      modifies this`cache
      ensures Valid() && KeepsValues(old(cache), disk, cache, disk)
      ensures if name in ValuesOf(cache, disk, key) then value == Some(ValuesOf(cache, disk, key)[name]) else value == None
    {
      assert disk - fileless == disk;
      Prepare(key, false);
      value := if name in cache[key].entries then Some(cache[key].entries[name]) else None;
    }

    /** cache_clean: some directories without a pending sync leave the cache. */
    method Clean(old_: set<string>)
      requires Valid()
      modifies this`cache
      ensures Valid() && cache == map k | k in old(cache) && (k !in old_ || old(cache)[k].dirty) :: old(cache)[k]
      ensures KeepsValues(old(cache), disk, cache, disk)
    {
      cache := map k | k in cache && (k !in old_ || cache[k].dirty) :: cache[k];
    }

    // Syncing

    /** The part of dir_sync that deletes a useless directory. `stuck' says that its file is gone but
        rmdir failed. */
    method DeleteUseless(key: string) returns (stuck: bool)
      requires Syncing() && key in cache && key !in fileless && Rooted(key)
      requires cache[key].loaded && cache[key].entries == map[] && cache[key].subdirs == {}
      modifies this`cache, this`disk, this`fileless
      ensures stuck <==> key != "/" && Children(old(disk), key) != {}
      ensures OnlyAt(old(cache), cache, key) && key in old(disk)
      ensures fileless == if stuck then old(fileless) + {key} else old(fileless)
      ensures if stuck then disk == old(disk) && cache == old(cache)
        else disk == old(disk) - {key} && cache == old(cache)[key := old(cache)[key].(dirty := false)]
             && Fits(cache, nonexistent, disk, {key}, {})
    {
      if key != "/" { OccupiedIs(disk, key); }
      stuck := key != "/" && Children(disk, key) != {};
      if stuck {
        fileless := fileless + {key};
      } else {
        DeleteClosed(disk, key);
        disk := disk - {key};
        cache := cache[key := cache[key].(dirty := false)];
      }
    }

    /** The part of dir_sync that writes the file. */
    method SaveDir(key: string, saves: string -> bool) returns (ok: bool)
      requires Syncing() && key in cache && cache[key].loaded
      modifies this`cache, this`disk
      ensures Syncing() && disk.Keys == old(disk).Keys && OnlyAt(old(cache), cache, key) && key in cache
      ensures ok <==> saves(key)
      ensures if ok then key in disk && disk == old(disk)[key := old(cache)[key].entries]
                         && cache == old(cache)[key := old(cache)[key].(dirty := false)]
        else disk == old(disk) && cache == old(cache)
    {
      ok := saves(key);
      if ok {
        disk := disk[key := cache[key].entries];
        cache := cache[key := cache[key].(dirty := false)];
      }
    }

    /** dir_sync: save the directory, or delete it if it is useless. Deleting gets stuck exactly when the
        list of subdirectories misses one that is there. Either way the values stay what they were, and
        unless it succeeds the directory is still pending. */
    method DirSync(key: string, saves: string -> bool) returns (ok: bool, deleted: bool, stuck: bool)
      requires Syncing() && key in cache && key !in fileless && Rooted(key)
      modifies this`cache, this`disk, this`fileless
      ensures stuck <==> Lagging(key, old(cache)[key], old(disk), old(fileless))
      ensures OnlyAt(old(cache), cache, key) && key in cache
      ensures fileless == if stuck then old(fileless) + {key} else old(fileless)
      ensures (ok ==> !stuck) && (deleted ==> ok && !stuck)
      ensures deleted ==> key in old(disk) && disk == old(disk) - {key} && Fits(cache, nonexistent, disk, {key}, {})
      ensures !deleted ==> Syncing() && disk.Keys == old(disk).Keys && (ok <==> !cache[key].dirty)
      ensures KeepsValues(old(cache), old(disk), cache, disk)
      ensures deleted ==> ValuesOf(cache, disk, key) == map[]
      ensures deleted <==> old(cache)[key].dirty && !stuck && Useless(key, old(cache)[key], old(disk), old(fileless))
      ensures ok <==>
        (old(cache)[key].dirty ==>
           if Useless(key, old(cache)[key], old(disk), old(fileless)) then !stuck else saves(key))
    {
      NothingKept(cache, disk);
      assert key in disk;
      hide Fits, Prepared, Children, Rooted, KeepsValues, ValuesOf;
      if !cache[key].dirty { return true, false, false; }
      ghost var c0, d0 := cache, disk;
      PreparedKeeps(cache[key], key, disk - fileless);
      PreparedValues(c0, d0, key, disk - fileless);
      Prepare(key, true);
      ghost var c1 := cache;
      ok, deleted, stuck := SyncPrepared(key, saves);
      KeepsTwice(c0, d0, c1, d0, cache, disk);
    }

    /** The same, for a directory whose file is read and whose subdirectories are listed. */
    method SyncPrepared(key: string, saves: string -> bool) returns (ok: bool, deleted: bool, stuck: bool)
      requires Syncing() && key in cache && key !in fileless && Rooted(key) && cache[key].loaded
      modifies this`cache, this`disk, this`fileless
      ensures stuck <==>
        old(cache)[key].entries == map[] && old(cache)[key].subdirs == {} && key != "/" && Children(old(disk), key) != {}
      ensures OnlyAt(old(cache), cache, key) && key in cache
      ensures fileless == if stuck then old(fileless) + {key} else old(fileless)
      ensures (ok ==> !stuck) && (deleted ==> ok && !stuck)
      ensures deleted ==> key in old(disk) && disk == old(disk) - {key} && Fits(cache, nonexistent, disk, {key}, {})
      ensures !deleted ==> Syncing() && disk.Keys == old(disk).Keys
      ensures KeepsValues(old(cache), old(disk), cache, disk)
      ensures deleted ==> ValuesOf(cache, disk, key) == map[]
      ensures deleted <==> !stuck && old(cache)[key].entries == map[] && old(cache)[key].subdirs == {}
      ensures !deleted && !stuck ==> (ok <==> saves(key))
      ensures cache[key].dirty <==> old(cache)[key].dirty && !ok
    {
      NothingKept(cache, disk);
      assert key in disk;
      hide Fits, Children, Rooted, KeepsValues;
      if cache[key].entries == map[] && cache[key].subdirs == {} {
        DeletedKeeps(cache, disk, key);
        stuck := DeleteUseless(key);
        ok, deleted := !stuck, !stuck;
      } else {
        SavedKeeps(cache, disk, key);
        deleted, stuck := false, false;
        ok := SaveDir(key, saves);
      }
    }

    /** cache_remove_from_parent: the parent is loaded, and created if need be, to tell it. */
    method RemoveFromParent(key: string)
      requires Rooted(key) && key in cache && Fits(cache, nonexistent, disk, {key}, {})
      requires Parent(key) != "/" ==> Parent(key) in disk
      modifies `cache, `nonexistent, `disk
      ensures Fits(cache, nonexistent, disk, {key}, {})
      ensures forall k :: k in old(cache) ==> k in cache
      ensures disk == old(disk) || (key != "/" && "/" !in old(disk) && disk == old(disk)["/" := map[]])
      ensures Parent(key) != key ==>
        && Parent(key) in cache && cache[Parent(key)].dirty
        && (!cache[Parent(key)].needRescan ==> key !in cache[Parent(key)].subdirs)
      ensures KeepsValues(old(cache), old(disk), cache, disk)
      ensures forall k :: k in old(cache) && old(cache)[k].dirty ==> cache[k].dirty
    {
      var parent := Parent(key);
      if key != "/" { EnsuredParent(disk, parent); }
      var found := LookupWithin(parent, true, {key}, {});
      GrownKeeps(old(cache), old(disk), cache, disk);
      if !found || parent == key { return; }
      var p := cache[parent].(dirty := true);
      if !p.needRescan { p := p.(subdirs := p.subdirs - {key}); }
      cache := cache[parent := p];
    }

    /** cache_sync_foreach */
    method SyncOne(key: string, saves: string -> bool) returns (ok: bool, deleted: bool, stuck: bool)
      requires Syncing() && key in cache && key !in fileless && Rooted(key)
      modifies this
      ensures Syncing()
      ensures stuck <==> Lagging(key, old(cache)[key], old(disk), old(fileless))
      ensures fileless == if stuck then old(fileless) + {key} else old(fileless)
      ensures (ok ==> !stuck) && (deleted ==> ok && Measure(disk) < Measure(old(disk)))
      ensures deleted ==> forall k :: k in old(cache) && k != key ==> k in cache
      ensures !deleted ==> disk.Keys == old(disk).Keys && OnlyAt(old(cache), cache, key)
      ensures !deleted ==> key in cache && (ok <==> !cache[key].dirty)
      ensures KeepsValues(old(cache), old(disk), cache, disk)
      ensures deleted ==> forall k :: k in old(cache) && k != key && old(cache)[k].dirty ==> cache[k].dirty
      ensures deleted <==> old(cache)[key].dirty && !stuck && Useless(key, old(cache)[key], old(disk), old(fileless))
      ensures ok <==>
        (old(cache)[key].dirty ==>
           if Useless(key, old(cache)[key], old(disk), old(fileless)) then !stuck else saves(key))
    {
      ghost var c0, d0 := cache, disk;
      hide Fits, Lagging, Measure, Parent, Rooted, KeepsValues, ValuesOf, Useless, Children, OnlyAt;
      ParentThere(cache, nonexistent, disk, key);
      ok, deleted, stuck := DirSync(key, saves);
      if deleted {
        ghost var c1, d1 := cache, disk;
        DropDir(key, old(disk));
        OthersStay(c0, c1, cache, key);
        KeepsTwice(c0, d0, c1, d1, cache, disk);
      }
    }

    /** The end of cache_sync_foreach for a directory that was deleted. */
    method DropDir(key: string, ghost before: Files)
      requires Rooted(key) && key in cache && Fits(cache, nonexistent, disk, {key}, {})
      requires Parent(key) != "/" ==> Parent(key) in disk
      requires key in before && disk == before - {key} && ValuesOf(cache, disk, key) == map[]
      modifies `cache, `nonexistent, `disk
      ensures Fits(cache, nonexistent, disk, {}, {}) && Measure(disk) < Measure(before)
      ensures forall k :: k in old(cache) && k != key ==> k in cache
      ensures forall k :: k in old(cache) && k != key && old(cache)[k].dirty ==> cache[k].dirty
      ensures KeepsValues(old(cache), old(disk), cache, disk)
    {
      ghost var mid := disk;
      ghost var c0 := cache;
      hide Fits, Measure, Parent, Rooted, KeepsValues, ValuesOf;
      RemoveFromParent(key);
      MeasureDrops(before, mid, disk, key);
      ghost var c1, d1 := cache, disk;
      ForgottenKeeps(c0, mid, c1, d1, nonexistent, key);
      Forget(key);
    }

    /** A deleted directory leaves the cache for the negative cache. */
    method Forget(key: string)
      requires Fits(cache, nonexistent, disk, {key}, {})
      modifies this`cache, this`nonexistent
      ensures Fits(cache, nonexistent, disk, {}, {}) && cache == old(cache) - {key}
    {
      cache := cache - {key};
      nonexistent := nonexistent + {key};
    }

    /** One pass of cache_sync over the directories cached at its start, in any order. It goes on after a
        failure. */
    method Pass(saves: string -> bool) returns (failed: bool, deletedSome: bool)
      requires Valid()
      modifies this
      ensures Syncing() && (fileless != {} ==> failed)
      ensures if deletedSome then Measure(disk) < Measure(old(disk)) else Measure(disk) == Measure(old(disk))
      ensures !deletedSome && !failed ==> AllClean(cache)
      ensures KeepsValues(old(cache), old(disk), cache, disk)
      ensures failed ==> fileless != {} || Refused(cache, {}, saves)
    {
      failed, deletedSome := false, false;
      var list := cache.Keys;
      NothingKept(cache, disk);
      while list != {}
        invariant Syncing() && list <= cache.Keys && list !! fileless && (fileless != {} ==> failed)
        invariant if deletedSome then Measure(disk) < Measure(old(disk)) else disk.Keys == old(disk).Keys
        invariant !deletedSome && !failed ==> CleanBut(cache, list)
        invariant KeepsValues(old(cache), old(disk), cache, disk)
        invariant failed ==> fileless != {} || Refused(cache, list, saves)
        decreases |list|
      {
        var key :| key in list;
        ghost var c1, d1 := cache, disk;
        CachedRooted(cache, nonexistent, disk, key);
        hide Fits, KeepsValues, Refused, CleanBut, Measure, Useless, Lagging, Rooted, ValuesOf, AllClean;
        var ok, deleted, stuck := SyncOne(key, saves);
        SameMeasure(old(disk), d1);
        SameMeasure(d1, disk);
        StillRefused(c1, cache, list, saves, key, deleted);
        if !deleted { OneCleaner(c1, cache, list, key); }
        list := list - {key};
        KeepsTwice(old(cache), old(disk), c1, d1, cache, disk);
        if !ok { failed := true; }
        if deleted { deletedSome := true; }
      }
    }

    /** cache_sync. The repetition ends, because each repeated pass took at least one directory from disk
        and brought back at most the root. On success nothing is pending, the cache holds what is on disk,
        no directory was left without its file, and the values of every directory are in its file. In any
        case no value is lost, and it fails only for a directory that got stuck or a save that was refused. */
    method Sync(saves: string -> bool) returns (ok: bool)
      requires Valid()
      modifies this
      ensures Syncing() && (fileless != {} ==> !ok)
      ensures ok ==> Valid() && AllClean(cache)
      ensures ok ==> forall k :: k in cache ==> k in disk && (cache[k].loaded ==> cache[k].entries == disk[k])
      ensures Durable(old(cache), old(disk), cache, disk)
      ensures ok ==> forall k: string :: OnDisk(disk, k, ValuesOf(old(cache), old(disk), k))
      ensures !ok ==> fileless != {} || Refused(cache, {}, saves)
      ensures (forall k :: saves(k)) ==> (ok <==> fileless == {})
    {
      ghost var c0, d0 := cache, disk;
      assert forall k :: k in c0 ==> k in d0 && Faithful(c0[k], d0[k]);
      var failed, deletedSome := Pass(saves);
      while !failed && deletedSome
        invariant Syncing() && (fileless != {} ==> failed)
        invariant !deletedSome && !failed ==> AllClean(cache)
        invariant KeepsValues(c0, d0, cache, disk)
        invariant failed ==> fileless != {} || Refused(cache, {}, saves)
        decreases Measure(disk), deletedSome
      {
        hide Fits, Measure, AllClean, KeepsValues, Refused;
        ghost var c1, d1 := cache, disk;
        failed, deletedSome := Pass(saves);
        KeepsTwice(c0, d0, c1, d1, cache, disk);
      }
      ok := !failed;
      hide Fits, KeepsValues, Durable, ValuesOf, Faithful;
      CleanIsDisk(cache, nonexistent, disk);
      KeptIsDurable(c0, d0, cache, nonexistent, disk);
      if ok { CleanIsDurable(c0, d0, cache, disk); }
    }
  }

  /** A save was refused, and what it was to write is still pending. */
  ghost predicate Refused(cache: map<string, XDir>, list: set<string>, saves: string -> bool) {
    exists k :: k in cache && k !in list && cache[k].dirty && !saves(k)
  }

  lemma CachedRooted(cache: map<string, XDir>, nonexistent: set<string>, disk: Files, key: string)
    requires Fits(cache, nonexistent, disk, {}, {}) && key in cache
    ensures Rooted(key)
  {
  }

  /** No sync is pending but for these directories. */
  ghost predicate CleanBut(cache: map<string, XDir>, list: set<string>) {
    forall k :: k in cache && k !in list ==> !cache[k].dirty
  }

  lemma OneCleaner(before: map<string, XDir>, after: map<string, XDir>, list: set<string>, key: string)
    requires OnlyAt(before, after, key) && key in after
    ensures CleanBut(before, list) && !after[key].dirty ==> CleanBut(after, list - {key})
  {
  }

  /** What was refused stays so, and this directory may have been refused now. */
  lemma StillRefused(before: map<string, XDir>, after: map<string, XDir>, list: set<string>, saves: string -> bool,
                     key: string, deleted: bool)
    requires key in list
    requires if deleted
      then forall k :: k in before && k != key ==> k in after && (before[k].dirty ==> after[k].dirty)
      else OnlyAt(before, after, key)
    ensures Refused(before, list, saves) ==> Refused(after, list - {key}, saves)
    ensures key in after && after[key].dirty && !saves(key) ==> Refused(after, list - {key}, saves)
  {
    if Refused(before, list, saves) {
      var k :| k in before && k !in list && before[k].dirty && !saves(k);
      assert k in after && after[k].dirty;
    }
  }

  lemma NothingKept(cache: map<string, XDir>, disk: Files)
    ensures KeepsValues(cache, disk, cache, disk)
  {
  }

  lemma CleanIsDurable(cache0: map<string, XDir>, disk0: Files, cache: map<string, XDir>, disk: Files)
    requires AllClean(cache) && Durable(cache0, disk0, cache, disk)
    ensures forall k: string :: OnDisk(disk, k, ValuesOf(cache0, disk0, k))
  {
  }

  /** A deleted directory without values leaves the cache. */
  lemma ForgottenKeeps(c0: map<string, XDir>, d0: Files, c1: map<string, XDir>, d1: Files, nonexistent: set<string>, key: string)
    requires KeepsValues(c0, d0, c1, d1) && ValuesOf(c0, d0, key) == map[] && Fits(c1, nonexistent, d1, {key}, {})
    ensures KeepsValues(c0, d0, c1 - {key}, d1)
  {
    assert key !in d1;
  }

  /** Reading a file changes no value. */
  lemma PreparedValues(cache: map<string, XDir>, disk: Files, key: string, listed: Files)
    requires key in cache && key in listed && key in disk && listed[key] == disk[key]
    ensures KeepsValues(cache, disk, cache[key := Prepared(cache[key], key, listed, true)], disk)
  {
  }

  /** No sync is pending. */
  ghost predicate AllClean(cache: map<string, XDir>) { forall k :: k in cache ==> !cache[k].dirty }

  lemma CleanIsDisk(cache: map<string, XDir>, nonexistent: set<string>, disk: Files)
    requires Fits(cache, nonexistent, disk, {}, {})
    ensures AllClean(cache) ==> forall k :: k in cache ==> k in disk && (cache[k].loaded ==> cache[k].entries == disk[k])
  {
  }

  /** Only one directory of the cache has changed. */
  ghost predicate OnlyAt(before: map<string, XDir>, after: map<string, XDir>, key: string) {
    after.Keys == before.Keys && forall k :: k in before && k != key ==> after[k] == before[k]
  }

  lemma ParentThere(cache: map<string, XDir>, nonexistent: set<string>, disk: Files, key: string)
    requires Fits(cache, nonexistent, disk, {}, {}) && key in cache && Rooted(key)
    ensures Parent(key) != "/" ==> Parent(key) in disk - {key}
  {
  }

  lemma OthersStay(c0: map<string, XDir>, c1: map<string, XDir>, c2: map<string, XDir>, key: string)
    requires OnlyAt(c0, c1, key)
    requires forall k :: k in c1 && k != key ==> k in c2
    requires forall k :: k in c1 && k != key && c1[k].dirty ==> c2[k].dirty
    ensures forall k :: k in c0 && k != key ==> k in c2
    ensures forall k :: k in c0 && k != key && c0[k].dirty ==> c2[k].dirty
  {
  }

  /** A directory as it is used: its file read, and its subdirectories listed if that is asked for. */
  function Prepared(d: XDir, key: string, disk: Files, rescan: bool): XDir {
    var d1 := if d.loaded || key !in disk then d else d.(loaded := true, entries := disk[key]);
    if rescan && d.needRescan then d1.(needRescan := false, subdirs := Children(disk, key)) else d1
  }

  /** A directory without values and without subdirectories that it knows of. */
  predicate Useless(key: string, d: XDir, disk: Files, fileless: set<string>) {
    var used := Prepared(d, key, disk - fileless, true);
    used.entries == map[] && used.subdirs == {}
  }

  lemma PreparedKeeps(d: XDir, key: string, disk: Files)
    requires key in disk
    ensures Prepared(d, key, disk, true).loaded && Prepared(d, key, disk, true).dirty == d.dirty
  {
  }

  /** A directory that looks empty but is not: its list of subdirectories was made before one of them
      was, and it was not told; or the ones that are there have lost their files in the same sync. */
  predicate Lagging(key: string, d: XDir, disk: Files, fileless: set<string>) {
    && d.dirty && key != "/" && Children(disk, key) != {}
    && Prepared(d, key, disk - fileless, true).subdirs == {} && Prepared(d, key, disk - fileless, true).entries == map[]
  }

  /** Directories on disk, each but the root counted twice. */
  function Measure(disk: Files): nat {
    2 * |disk.Keys - {"/"}| + if "/" in disk then 1 else 0
  }

  lemma PreparedLoads(cache: map<string, XDir>, nonexistent: set<string>, disk: Files, fileless: set<string>, key: string)
    requires Fits(cache, nonexistent, disk, {}, {}) && fileless == {} && key in cache
    ensures var d := Prepared(cache[key], key, disk, false);
      disk - fileless == disk && d.loaded && d.entries == ValuesOf(cache, disk, key)
  {
    assert disk - fileless == disk;
  }

  /** A directory whose file was read may take any values, as long as it is dirty. */
  lemma EditedFits(cache: map<string, XDir>, nonexistent: set<string>, disk: Files, key: string, entries: Content)
    requires Fits(cache, nonexistent, disk, {}, {}) && key in cache && cache[key].loaded
    ensures Fits(cache[key := cache[key].(entries := entries, dirty := true)], nonexistent, disk, {}, {})
  {
  }

  lemma SameMeasure(a: Files, b: Files)
    ensures a.Keys == b.Keys ==> Measure(a) == Measure(b)
  {
  }

  lemma MeasureDrops(before: Files, mid: Files, after: Files, key: string)
    requires key in before && mid == before - {key}
    requires after == mid || (key != "/" && "/" !in mid && after == mid["/" := map[]])
    ensures Measure(after) < Measure(before)
  {
    if key == "/" {
      assert mid.Keys - {"/"} == before.Keys - {"/"};
    } else {
      assert mid.Keys - {"/"} == (before.Keys - {"/"}) - {key};
      assert after.Keys - {"/"} == mid.Keys - {"/"};
    }
  }

  lemma EnsuredFits(cache: map<string, XDir>, nonexistent: set<string>, disk: Files, key: string, gone: set<string>)
    requires Rooted(key) && Fits(cache, nonexistent, disk, gone, {}) && key !in cache
    requires forall k :: k in gone ==> |k| > |key|
    ensures Fits(cache[key := NEW_DIR], nonexistent, Ensured(disk, key), gone, Chain(key))
  {
    EnsuredIs(disk, key);
    forall k | k in gone ensures k !in Chain(key) { if k in Chain(key) { ChainIs(key, k); } }
  }

  // How a directory gets stuck

  lemma ExampleParents()
    ensures Parent("/a") == "/" && Parent("/a/b") == "/a" && Parent("/a/b/c") == "/a/b"
  {
    assert "/a"[0] == '/' && "/a/b"[2] == '/' && "/a/b/c"[4] == '/';
    assert LastSlash("/a") == 0 && LastSlash("/a/b") == 2 && LastSlash("/a/b/c") == 4;
    assert "/a/b"[..2] == "/a" && "/a/b/c"[..4] == "/a/b";
  }

  const EMPTY_LISTED := XDir(true, map[], {}, false, false)

  lemma ExampleFiles()
    ensures var files: Files := map["/" := map[], "/a" := map[]];
      && Closed(files) && Children(files, "/a") == {}
      && "/a/b" in Ensured(files, "/a/b/c") && "/a" in Ensured(files, "/a/b/c")
      && "/a/b/c" !in files && "/a/b" !in files && "/a" in files
  {
    ExampleParents();
    var files: Files := map["/" := map[], "/a" := map[]];
    forall k | k in files ensures Parent(k) == "/" {}
    assert Ensured(files, "/a/b") == files["/a/b" := map[]];
  }

  /** /a is listed while it has no subdirectory. */
  method ListEmpty() returns (c: XmlCache)
    ensures fresh(c) && c.Valid() && "/a" in c.cache && c.cache["/a"] == EMPTY_LISTED
    ensures c.disk == map["/" := map[], "/a" := map[]]
  {
    ExampleFiles();
    hide Children, Ensured, Closed;
    c := new XmlCache(map["/" := map[], "/a" := map[]]);
    var found := c.Lookup("/a", false);
    assert c.disk - c.fileless == c.disk;
    c.Prepare("/a", true);
  }

  /** /a/b is looked up in vain, then /a/b/c is made. */
  method MakeBelow(c: XmlCache)
    requires c.Valid() && "/a" in c.cache && c.cache["/a"] == EMPTY_LISTED
    requires c.disk == map["/" := map[], "/a" := map[]]
    modifies c
    ensures c.Valid() && "/a" in c.cache && c.cache["/a"] == EMPTY_LISTED
    ensures "/a/b" in c.disk && "/a" in c.disk
  {
    ExampleFiles();
    ExampleParents();
    NotCached(c.cache, c.nonexistent, c.disk, "/a/b");
    hide Fits, Children, Ensured, Closed, Parent;
    var found := c.Lookup("/a/b", false);
    assert Forgotten("/a/b/c", c.cache, c.nonexistent);
    found := c.Lookup("/a/b/c", true);
  }

  lemma NotCached(cache: map<string, XDir>, nonexistent: set<string>, disk: Files, key: string)
    requires Fits(cache, nonexistent, disk, {}, {}) && key !in disk
    ensures key !in cache
  {
  }

  /** A reachable cache in which deleting a directory gets stuck: the parent of the new directory is
      believed missing, so nobody tells /a that it has a subdirectory now; when the last value of /a
      goes, its file is deleted and its directory cannot be. */
  method StuckExample(value: Value, saves: string -> bool) returns (c: XmlCache, stuck: bool)
    ensures stuck && "/a" in c.cache && c.fileless == {"/a"}
  {
    c := ListEmpty();
    MakeBelow(c);
    ExampleParents();
    assert "/a/b" in Children(c.disk, "/a");
    hide Fits, Children, Parent;
    c.SetValue("/a", "key", value);
    assert c.cache["/a"].entries == map["key" := value];
    c.UnsetValue("/a", "key");
    assert Lagging("/a", c.cache["/a"], c.disk, c.fileless);
    var ok, deleted;
    ok, deleted, stuck := c.SyncOne("/a", saves);
  }
}
