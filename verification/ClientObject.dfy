/** GConfClient as an object over its engine and the server: each operation keeps the watched
    directories registered at the top, the cache within them, and the cache coherent. Directories are
    visited in any order. */
module ClientObject {
  import opened Basics
  import opened Values
  import opened Keys
  import opened KeyWalk
  import opened CString
  import D = Database
  import E = Engine
  import opened ClientDirs
  import opened Client

  class GConfClient {
    const engine: E.Engine
    const comparison: Comparison
    var dirs: Dirs
    var cache: Cache
    var notifyList: seq<string>

    constructor (engine: E.Engine, comparison: Comparison)
      requires engine.Valid() && engine.notifyDirs == map[] && comparison.Reflexive()
      requires D.Pending(engine.db.queues, engine.service) == []
      ensures this.engine == engine && this.comparison == comparison
      ensures dirs == map[] && cache == map[] && notifyList == []
      ensures Valid() && CoherentNow()
    {
      this.engine, this.comparison := engine, comparison;
      dirs, cache, notifyList := map[], map[], [];
    }

    function Queue(): seq<D.Notify>
      reads engine.db`queues
    {
      D.Pending(engine.db.queues, engine.service)
    }

    /** The directories agree with the engine and the server. */
    ghost predicate DirsValid()
      reads this`dirs, engine, engine.db`notifications
    {
      engine.Valid() && AllRooted(dirs) && Linked(dirs, engine.notifyDirs, engine.notifyIds)
      && comparison.Reflexive()
    }

    ghost predicate Valid()
      reads this, engine, engine.db
    {
      DirsValid() && Topmost(dirs) && CacheMonitored(dirs, cache) && forall d :: d in dirs ==> dirs[d].addCount > 0
    }

    ghost predicate CoherentNow()
      reads this, engine, engine.db
    {
      Coherent(comparison, cache, Queue(), engine.db.values, engine.db.defaults) && Sent(dirs, Queue())
    }

    // Directories

    /** Take the registration from one directory. */
    method Unregister(d: string)
      requires DirsValid() && Registered(dirs, d)
      modifies this`dirs, engine`notifyDirs, engine`notifyIds, engine.db`notifications
      ensures DirsValid() && dirs == old(dirs)[d := old(dirs)[d].(notifyId := 0)]
    {
      LinkDropped(dirs, engine.notifyDirs, engine.notifyIds, d);
      hide Linked, E.TablesAgree, E.ServerAgrees, E.Deleted;
      engine.NotifyRemove(dirs[d].notifyId);
      dirs := dirs[d := dirs[d].(notifyId := 0)];
    }

    /** setup_overlaps: find the registered directory above a new one; without it, drop those below.
        The assertion of the debugging build, that a second one is never found, holds. */
    method SetupOverlaps(dirname: string) returns (lower: Option<string>)
      requires DirsValid() && Antichain(dirs) && ValidKey(dirname) && !Registered(dirs, dirname)
      modifies this`dirs, engine`notifyDirs, engine`notifyIds, engine.db`notifications
      ensures DirsValid()
      ensures lower.Some? ==> Registered(dirs, lower.value) && KeyIsBelow(lower.value, dirname) && dirs == old(dirs)
      ensures lower.None? ==> (forall d :: Registered(old(dirs), d) ==> !KeyIsBelow(d, dirname))
      ensures lower.None? ==> dirs == Dropped(old(dirs), dirname)
    {
      lower := None;
      ghost var before := dirs;
      var remaining := dirs.Keys;
      StartOverlaps(before, dirname);
      assert AllRooted(before);
      hide DirsValid, PartlyDropped, Dropped, FoundSoFar, KeyIsBelow, ValidKey, Antichain, AllRooted, Registered;
      while remaining != {}
        invariant DirsValid() && remaining <= before.Keys
        invariant dirs == PartlyDropped(before, dirname, remaining)
        invariant FoundSoFar(before, dirname, remaining, lower)
        decreases |remaining|
      {
        var d :| d in remaining;
        lower := Visit(before, dirname, remaining, d, lower);
        remaining := remaining - {d};
      }
      EndOverlaps(before, dirname, lower);
    }

    /** foreach_setup_overlap */
    method Visit(ghost before: Dirs, dirname: string, ghost remaining: set<string>, d: string, lower: Option<string>)
      returns (lower1: Option<string>)
      requires DirsValid() && AllRooted(before) && Antichain(before) && ValidKey(dirname) && !Registered(before, dirname)
      requires d in remaining && remaining <= before.Keys && dirs == PartlyDropped(before, dirname, remaining)
      requires FoundSoFar(before, dirname, remaining, lower)
      modifies this`dirs, engine`notifyDirs, engine`notifyIds, engine.db`notifications
      ensures DirsValid() && dirs == PartlyDropped(before, dirname, remaining - {d})
      ensures FoundSoFar(before, dirname, remaining - {d}, lower1)
    {
      lower1 := lower;
      VisitOne(before, dirname, remaining, d, lower);
      hide DirsValid, KeyIsBelow, PartlyDropped, ValidKey, AllRooted, Antichain, FoundSoFar;
      if lower.None? && dirs[d].notifyId != 0 && KeyIsBelow(d, dirname) {
        lower1 := Some(d);
      } else if dirs[d].notifyId != 0 && KeyIsBelow(dirname, d) {
        Unregister(d);
      }
    }

    /** Put a new directory in the table, registered if nothing above it is. */
    method Register(dirname: string, reachable: bool) returns (id: nat)
      requires DirsValid() && ValidKey(dirname) && !Registered(dirs, dirname)
      modifies this`dirs, engine`notifyDirs, engine`notifyIds, engine`nextId, engine.db`notifications
      ensures DirsValid()
      ensures if reachable then
          id != 0 && dirs == old(dirs)[dirname := Dir(id, if dirname in old(dirs) then old(dirs)[dirname].addCount else 0)]
        else id == 0 && dirs == old(dirs)
    {
      var count := if dirname in dirs then dirs[dirname].addCount else 0;
      LinkAdded(dirs, engine.notifyDirs, engine.notifyIds, dirname, engine.nextId, count);
      hide Linked, E.ServerAgrees, E.Inserted, KeyIsBelow;
      id := engine.NotifyAdd(dirname, reachable);
      if reachable { dirs := dirs[dirname := Dir(id, count)]; }
    }

    /** Put a new directory in the table without registering it. */
    method Watch(dirname: string)
      requires DirsValid() && ValidKey(dirname) && dirname !in dirs
      modifies this`dirs
      ensures DirsValid() && dirs == old(dirs)[dirname := Dir(0, 0)]
    {
      LinkUnregistered(dirs, engine.notifyDirs, engine.notifyIds, dirname, Dir(0, 0));
      dirs := dirs[dirname := Dir(0, 0)];
    }

    /** The new entry of gconf_client_add_dir in the table; false if the registration fails. */
    method InsertDir(dirname: string, reachable: bool) returns (ok: bool)
      requires DirsValid() && Topmost(dirs) && ValidKey(dirname) && dirname !in dirs
      modifies this`dirs, engine`notifyDirs, engine`notifyIds, engine`nextId, engine.db`notifications
      ensures DirsValid() && (reachable ==> ok)
      ensures ok ==> Topmost(dirs) && OneMore(old(dirs), dirs, dirname)
      ensures !ok ==> dirs == Dropped(old(dirs), dirname)
      ensures !ok ==> (Topmost(dirs) <==> forall d :: d in old(dirs) ==> !KeyIsBelow(dirname, d))
    {
      ghost var before := dirs;
      assert AllRooted(before);
      TopmostAntichain(dirs);
      var overlap := SetupOverlaps(dirname);
      hide DirsValid, Topmost, Antichain, KeyIsBelow, ValidKey, AllRooted, Dropped, OneMore;
      if overlap.Some? {
        AddUnderTopmost(before, dirname, overlap.value, Dir(0, 0));
        WatchOneMore(before, dirname);
        Watch(dirname);
        ok := true;
      } else {
        ok := InsertTop(before, dirname, reachable);
      }
    }

    /** The case of no registered directory above. */
    method InsertTop(ghost before: Dirs, dirname: string, reachable: bool) returns (ok: bool)
      requires DirsValid() && AllRooted(before) && Topmost(before) && ValidKey(dirname) && dirname !in before
      requires (forall d :: Registered(before, d) ==> !KeyIsBelow(d, dirname)) && dirs == Dropped(before, dirname)
      modifies this`dirs, engine`notifyDirs, engine`notifyIds, engine`nextId, engine.db`notifications
      ensures DirsValid() && (reachable ==> ok)
      ensures ok ==> Topmost(dirs) && OneMore(before, dirs, dirname)
      ensures !ok ==> dirs == Dropped(before, dirname)
      ensures !ok ==> (Topmost(dirs) <==> forall d :: d in before ==> !KeyIsBelow(dirname, d))
    {
      FailedAddLoses(before, dirname);
      DropOneMore(before, dirname);
      hide DirsValid, Topmost, Antichain, KeyIsBelow, ValidKey, AllRooted, Dropped, OneMore;
      var id := Register(dirname, reachable);
      ok := id != 0;
      if ok { AddTopTopmost(before, dirname, Dir(id, 0)); }
    }

    /** gconf_client_add_dir. `preloaded' are the keys found at or below the directory by the preload,
        if any. When the registration fails nothing is added, but lower directories have lost theirs:
        the directories stay registered at the top exactly if there are none. */
    method AddDir(dirname: string, reachable: bool, preloaded: seq<string>) returns (ok: bool)
      requires Valid() && ValidKey(dirname)
      requires forall i :: 0 <= i < |preloaded| ==> Rooted(preloaded[i]) && KeyIsBelow(dirname, preloaded[i])
      modifies this`dirs, this`cache, engine`notifyDirs, engine`notifyIds, engine`nextId, engine.db`notifications
      ensures reachable || dirname in old(dirs) ==> ok
      ensures ok ==> Valid() && CountedMore(old(dirs), dirs, dirname)
      ensures ok && old(CoherentNow() && Queue() == []) ==> CoherentNow()
      ensures !ok ==> DirsValid() && cache == old(cache) && dirs == Dropped(old(dirs), dirname)
      ensures !ok ==> (Topmost(dirs) <==> forall d :: d in old(dirs) ==> !KeyIsBelow(dirname, d))
    {
      ghost var before := dirs;
      ok := true;
      if dirname !in dirs { ok := AddNewDir(dirname, reachable, preloaded); }
      if ok {
        CountsMore(before, dirs, dirname);
        hide DirsValid, Topmost, CacheMonitored, CoherentNow, OneMore, CountedMore, KeyIsBelow, ValidKey, Dropped;
        Count(dirname);
      }
    }

    /** The part of gconf_client_add_dir for a directory that is not watched yet. */
    method AddNewDir(dirname: string, reachable: bool, preloaded: seq<string>) returns (ok: bool)
      requires Valid() && ValidKey(dirname) && dirname !in dirs
      requires forall i :: 0 <= i < |preloaded| ==> Rooted(preloaded[i]) && KeyIsBelow(dirname, preloaded[i])
      modifies this`dirs, this`cache, engine`notifyDirs, engine`notifyIds, engine`nextId, engine.db`notifications
      ensures DirsValid() && (reachable ==> ok)
      ensures ok ==> Topmost(dirs) && CacheMonitored(dirs, cache) && OneMore(old(dirs), dirs, dirname)
      ensures ok && old(CoherentNow() && Queue() == []) ==> CoherentNow()
      ensures !ok ==> cache == old(cache) && dirs == Dropped(old(dirs), dirname)
      ensures !ok ==> (Topmost(dirs) <==> forall d :: d in old(dirs) ==> !KeyIsBelow(dirname, d))
    {
      ghost var before := dirs;
      hide Topmost, Linked, AllRooted, E.TablesAgree, E.ServerAgrees, KeyIsBelow, ValidKey, Dropped, Coherent;
      ok := InsertDir(dirname, reachable);
      if ok {
        KeptMonitored(before, dirs, cache);
        BelowSelf(dirname);
        assert old(CoherentNow() && Queue() == []) ==> CoherentNow();
        Preload(dirname, preloaded);
      }
    }

    /** One more addition of a watched directory. */
    method Count(dirname: string)
      requires DirsValid() && Topmost(dirs) && CacheMonitored(dirs, cache) && dirname in dirs
      modifies this`dirs
      ensures DirsValid() && Topmost(dirs) && CacheMonitored(dirs, cache)
      ensures dirs == old(dirs)[dirname := old(dirs)[dirname].(addCount := old(dirs)[dirname].addCount + 1)]
      ensures old(CoherentNow()) ==> CoherentNow()
    {
      ghost var now := dirs;
      dirs := dirs[dirname := dirs[dirname].(addCount := dirs[dirname].addCount + 1)];
      CountOnly(now, dirs, engine.notifyDirs, engine.notifyIds);
      KeptMonitored(now, dirs, cache);
    }

    /** gconf_client_preload of an added directory: the keys are cached with the server's values, and the
        others stay as they were. */
    method Preload(dirname: string, keys: seq<string>)
      requires dirname in dirs && CacheMonitored(dirs, cache) && comparison.Reflexive()
      requires forall i :: 0 <= i < |keys| ==> Rooted(keys[i]) && KeyIsBelow(dirname, keys[i])
      modifies this`cache
      ensures CacheMonitored(dirs, cache)
      ensures old(CoherentNow()) ==> CoherentNow()
      ensures Preloaded(comparison, engine.db.values, engine.db.defaults, old(cache), cache, keys)
    {
      hide CacheMonitored, CoherentNow, KeyIsBelow, Rooted, Preloaded;
      CacheEntries(keys);
    }

    /** cache_entry_list_destructively */
    method CacheEntries(keys: seq<string>)
      requires CacheMonitored(dirs, cache) && comparison.Reflexive()
      requires forall i :: 0 <= i < |keys| ==> Rooted(keys[i]) && Monitored(dirs, keys[i])
      modifies this`cache
      ensures CacheMonitored(dirs, cache)
      ensures old(CoherentNow()) ==> CoherentNow()
      ensures Preloaded(comparison, engine.db.values, engine.db.defaults, old(cache), cache, keys)
    {
      hide CacheMonitored, CoherentNow, Monitored, Rooted, Preloaded;
      var tmp := 0;
      assert keys[..0] == [];
      NothingPreloaded(comparison, engine.db.values, engine.db.defaults, cache);
      while tmp < |keys|
        invariant tmp <= |keys| && CacheMonitored(dirs, cache)
        invariant old(CoherentNow()) ==> CoherentNow()
        invariant Preloaded(comparison, engine.db.values, engine.db.defaults, old(cache), cache, keys[..tmp])
      {
        ghost var mid := cache;
        CachePair(keys[tmp]);
        OnePreloaded(comparison, engine.db.values, engine.db.defaults, old(cache), mid, cache, keys, tmp);
        tmp := tmp + 1;
      }
      assert keys[..tmp] == keys;
    }

    /** gconf_client_all_entries, once the server has answered: the keys it found in a directory are cached
        if the directory is watched. */
    method AllEntries(dirname: string, keys: seq<string>)
      requires Valid() && ValidKey(dirname) && NulFree(dirname)
      requires forall i :: 0 <= i < |keys| ==> Rooted(keys[i]) && KeyIsBelow(dirname, keys[i])
      modifies this`cache
      ensures Valid() && (old(CoherentNow()) ==> CoherentNow())
      ensures if Monitored(dirs, dirname)
        then Preloaded(comparison, engine.db.values, engine.db.defaults, old(cache), cache, keys)
        else cache == old(cache)
    {
      hide Topmost, CacheMonitored, CoherentNow, KeyIsBelow, ValidKey, Rooted, Preloaded, Linked;
      var monitored := KeyBeingMonitored(dirname);
      if monitored {
        MonitoredBelow(dirs, dirname, keys);
        CacheEntries(keys);
      }
    }

    /** One entry of cache_entry_list_destructively */
    method CachePair(key: string)
      requires CacheMonitored(dirs, cache) && comparison.Reflexive()
      requires Rooted(key) && Monitored(dirs, key)
      modifies this`cache
      ensures CacheMonitored(dirs, cache)
      ensures old(CoherentNow()) ==> CoherentNow()
      ensures exists e :: cache == old(cache)[key := e] && comparison.SameValue(e.value, engine.db.ValueOf(key))
    {
      var value := engine.db.ValueOf(key);
      if old(CoherentNow()) { ReadCoherent(comparison, cache, Queue(), engine.db.values, engine.db.defaults, key); }
      hide Monitored, Coherent, Sent, KeyIsBelow;
      var changed := CacheEntry(key, Entry(value, key !in engine.db.values, true, None), false);
    }

    /** gconf_client_cache: the new entry replaces one that is not equal to it. */
    method CacheEntry(key: string, newEntry: Entry, preserveSchemaName: bool) returns (changed: bool)
      requires comparison.Reflexive()
      modifies this`cache
      ensures changed <==> key !in old(cache) || !comparison.SameEntry(old(cache)[key], newEntry)
      ensures exists e :: cache == old(cache)[key := e] && comparison.SameValue(e.value, newEntry.value)
      ensures cache ==
        if !changed then old(cache)
        else if key in old(cache) && preserveSchemaName
        then old(cache)[key := newEntry.(schemaName := old(cache)[key].schemaName)]
        else old(cache)[key := newEntry]
    {
      if key in cache {
        changed := !comparison.SameEntry(cache[key], newEntry);
        if changed {
          var entry := newEntry;
          if preserveSchemaName { entry := entry.(schemaName := cache[key].schemaName); }
          cache := cache[key := entry];
          SameSelf(comparison, entry.value);
        } else {
          assert cache == cache[key := cache[key]];
        }
      } else {
        cache := cache[key := newEntry];
        SameSelf(comparison, newEntry.value);
        changed := true;
      }
    }

    /** key_being_monitored: whether some watched directory is above a key, found by chopping it. */
    method KeyBeingMonitored(key: string) returns (monitored: bool)
      requires AllRooted(dirs) && ValidKey(key) && NulFree(key)
      ensures monitored <==> Monitored(dirs, key)
    {
      var parent := Duplicate(key);
      ghost var name := key;
      ghost var seen: seq<string> := [];
      var last := false;
      monitored := false;
      while true
        invariant fresh(parent) && Rooted(name) && Holds(parent, name)
        invariant seen + D.ToVisit(name, last, false) == Walk(key)
        invariant forall d :: d in seen ==> d !in dirs
        decreases !last, |name|
      {
        HoldsText(parent, name);
        D.VisitNext(name, last);
        D.Regroup(seen, name, D.ToVisit(name, last, false));
        if Text(parent[..]) in dirs {
          monitored := true;
          WalkIs(key, name);
          assert name in Walk(key);
          break;
        }
        seen := seen + [name];
        if last {
          assert seen + [] == seen == Walk(key);
          forall d | d in dirs ensures !KeyIsBelow(d, key) { WalkIs(key, d); }
          break;
        }
        last := D.Chop(parent, name);
        name := if last then "/" else name[..LastSlash(name)];
      }
    }

    /** The value for a key: from the cache, or else from the server; it is cached if the key is watched. */
    method Get(key: string, isWritable: bool, schemaName: Option<string>) returns (entry: Entry)
      requires Valid() && ValidKey(key) && NulFree(key)
      modifies this`cache
      ensures Valid() && (old(CoherentNow()) ==> CoherentNow())
      ensures if key in old(cache) then entry == old(cache)[key] && cache == old(cache)
        else D.Answers(engine.db.values, engine.db.defaults, key, entry.value)
             && cache == if Monitored(dirs, key) then old(cache)[key := entry] else old(cache)
    {
      if key in cache { return cache[key]; }
      entry := Entry(engine.db.ValueOf(key), key !in engine.db.values, isWritable, schemaName);
      var monitored := KeyBeingMonitored(key);
      if monitored { Remember(key, entry); }
    }

    /** Put an entry just read into the cache. */
    method Remember(key: string, entry: Entry)
      requires Valid() && Rooted(key) && Monitored(dirs, key) && entry.value == engine.db.ValueOf(key)
      modifies this`cache
      ensures Valid() && (old(CoherentNow()) ==> CoherentNow())
      ensures cache == old(cache)[key := entry]
    {
      SameSelf(comparison, entry.value);
      if CoherentNow() { ReadCoherent(comparison, cache, Queue(), engine.db.values, engine.db.defaults, key); }
      hide DirsValid, Topmost, Monitored, Coherent;
      cache := cache[key := entry];
    }

    /** One directory of foreach_add_notifies; false if its registration fails. */
    method Reconsider(d: string, reachable: bool) returns (ok: bool)
      requires DirsValid() && Antichain(dirs) && d in dirs
      modifies this`dirs, engine`notifyDirs, engine`notifyIds, engine`nextId, engine.db`notifications
      ensures DirsValid() && SameCounts(old(dirs), dirs) && (reachable ==> ok)
      ensures ok ==> Antichain(dirs) && Covered(dirs, d)
      ensures ok ==> forall key :: Rooted(key) && Covered(old(dirs), key) ==> Covered(dirs, key)
      ensures !ok ==> !Covered(dirs, d)
      ensures !reachable ==> (ok <==> Covered(old(dirs), d)) && (ok ==> dirs == old(dirs))
    {
      ghost var before := dirs;
      BelowSelf(d);
      assert AllRooted(before) && ValidKey(d);
      if dirs[d].notifyId != 0 {
        assert Registered(dirs, d);
        return true;
      }
      var overlap := SetupOverlaps(d);
      DropUncovers(before, d);
      hide DirsValid, KeyIsBelow, ValidKey, Dropped, AllRooted, Antichain;
      if overlap.Some? { return true; }
      DropCounts(before, d);
      var id := Register(d, reachable);
      ok := id != 0;
      if ok { RegisterKeeps(before, d, Dir(id, before[d].addCount)); }
    }

    /** The end of gconf_client_real_remove_dir: register what has become topmost, in any order; an
        error stops it. Without a server the directories end up registered at the top exactly if each of
        them was covered before. */
    method ReAddNotifies(reachable: bool)
      requires DirsValid() && Antichain(dirs)
      modifies this`dirs, engine`notifyDirs, engine`notifyIds, engine`nextId, engine.db`notifications
      ensures DirsValid() && SameCounts(old(dirs), dirs)
      ensures reachable ==> Topmost(dirs)
      ensures !reachable ==> (Topmost(dirs) <==> AllCovered(old(dirs)))
    {
      ghost var before := dirs;
      var remaining := dirs.Keys;
      var ok := true;
      assert AllRooted(dirs);
      while remaining != {} && ok
        invariant DirsValid() && SameCounts(before, dirs) && remaining <= before.Keys
        invariant reachable ==> ok
        invariant ok ==> Antichain(dirs) && CoveredExcept(dirs, remaining)
        invariant !reachable && ok ==> dirs == before
        invariant !ok ==> !AllCovered(before) && !AllCovered(dirs)
        decreases |remaining|
      {
        var d :| d in remaining;
        ghost var now := dirs;
        hide DirsValid, Antichain, AllRooted, Covered;
        ok := Reconsider(d, reachable);
        if ok { CoverOne(now, dirs, remaining, d); }
        remaining := remaining - {d};
      }
      TopmostIs(dirs);
    }

    /** gconf_client_real_remove_dir */
    method RealRemoveDir(dirname: string, reachable: bool)
      requires DirsValid() && Topmost(dirs) && CacheMonitored(dirs, cache) && dirname in dirs
      modifies this`dirs, this`cache, engine`notifyDirs, engine`notifyIds, engine`nextId, engine.db`notifications
      ensures DirsValid() && CacheMonitored(dirs, cache) && SameCounts(old(dirs) - {dirname}, dirs)
      ensures cache == Outside(old(cache), dirname)
      ensures reachable ==> Topmost(dirs)
      ensures !reachable ==> (Topmost(dirs) <==> AllCovered(old(dirs) - {dirname}))
    {
      ghost var before := dirs;
      RemoveKeeps(dirs, dirname);
      if dirs[dirname].notifyId != 0 { Unregister(dirname); }
      LinkUnregistered(dirs, engine.notifyDirs, engine.notifyIds, dirname, dirs[dirname]);
      dirs := dirs - {dirname};
      assert dirs == before - {dirname};
      cache := Outside(cache, dirname);
      OutsideMonitored(before, old(cache), dirname);
      hide DirsValid, Topmost, Antichain, AllCovered;
      ReAddNotifies(reachable);
      KeptMonitored(before - {dirname}, dirs, cache);
    }

    /** gconf_client_remove_dir. Without a server the other directories stay registered at the top exactly
        if none of them was covered by the removed one alone. */
    method RemoveDir(dirname: string, reachable: bool)
      requires Valid()
      modifies this`dirs, this`cache, engine`notifyDirs, engine`notifyIds, engine`nextId, engine.db`notifications
      ensures DirsValid() && CacheMonitored(dirs, cache) && CountedLess(old(dirs), dirs, dirname)
      ensures cache ==
        if dirname in old(dirs) && old(dirs)[dirname].addCount == 1 then Outside(old(cache), dirname) else old(cache)
      ensures reachable ==> Valid()
      ensures !reachable ==>
        (Valid() <==> (dirname in old(dirs) && old(dirs)[dirname].addCount == 1 ==> AllCovered(old(dirs) - {dirname})))
      ensures old(CoherentNow() && Queue() == []) ==> CoherentNow()
    {
      ghost var before := dirs;
      if dirname !in dirs {
        NotRemoved(dirs, dirname);
      } else if dirs[dirname].addCount > 1 {
        LessByOne(dirs, dirname);
        Uncount(dirname);
      } else {
        RemoveLast(dirname, reachable);
      }
      LessPositive(before, dirs, dirname);
    }

    /** The last addition of a watched directory taken back. */
    method RemoveLast(dirname: string, reachable: bool)
      requires Valid() && dirname in dirs && dirs[dirname].addCount == 1
      modifies this`dirs, this`cache, engine`notifyDirs, engine`notifyIds, engine`nextId, engine.db`notifications
      ensures DirsValid() && CacheMonitored(dirs, cache) && CountedLess(old(dirs), dirs, dirname)
      ensures cache == Outside(old(cache), dirname)
      ensures reachable ==> Topmost(dirs)
      ensures !reachable ==> (Topmost(dirs) <==> AllCovered(old(dirs) - {dirname}))
      ensures old(CoherentNow() && Queue() == []) ==> CoherentNow()
    {
      ghost var before := dirs;
      Uncount(dirname);
      ghost var mid := dirs;
      assert mid - {dirname} == before - {dirname};
      hide DirsValid, Topmost, CacheMonitored, CoherentNow, CountedLess, SameCounts, AllCovered;
      RemoveQuietly(dirname, reachable);
      LessAfterRemoval(before, mid, dirs, dirname);
    }

    /** gconf_client_real_remove_dir while nothing is under way. */
    method RemoveQuietly(dirname: string, reachable: bool)
      requires DirsValid() && Topmost(dirs) && CacheMonitored(dirs, cache) && dirname in dirs
      modifies this`dirs, this`cache, engine`notifyDirs, engine`notifyIds, engine`nextId, engine.db`notifications
      ensures DirsValid() && CacheMonitored(dirs, cache) && SameCounts(old(dirs) - {dirname}, dirs)
      ensures cache == Outside(old(cache), dirname)
      ensures reachable ==> Topmost(dirs)
      ensures !reachable ==> (Topmost(dirs) <==> AllCovered(old(dirs) - {dirname}))
      ensures old(CoherentNow() && Queue() == []) ==> CoherentNow()
    {
      hide DirsValid, Topmost, CacheMonitored, Coherent, SameCounts, Outside, AllCovered;
      RealRemoveDir(dirname, reachable);
      OutsideCoherent(comparison, old(cache), Queue(), engine.db.values, engine.db.defaults, dirname);
    }

    /** One addition of a watched directory taken back. */
    method Uncount(dirname: string)
      requires Valid() && dirname in dirs
      modifies this`dirs
      ensures DirsValid() && Topmost(dirs) && CacheMonitored(dirs, cache)
      ensures dirs == old(dirs)[dirname := old(dirs)[dirname].(addCount := old(dirs)[dirname].addCount - 1)]
      ensures old(CoherentNow()) ==> CoherentNow()
    {
      ghost var before := dirs;
      dirs := dirs[dirname := dirs[dirname].(addCount := dirs[dirname].addCount - 1)];
      CountOnly(before, dirs, engine.notifyDirs, engine.notifyIds);
      KeptMonitored(before, dirs, cache);
    }

    // Changes of values

    /** A value set at the server, by any client. */
    method ServerSet(key: string, value: Value, accepted: bool)
      requires Valid() && ValidKey(key) && NulFree(key)
      modifies engine.db`values, engine.db`queues
      ensures Valid() && (old(CoherentNow()) ==> CoherentNow())
      ensures engine.db.values == if accepted then old(engine.db.values)[key := value] else old(engine.db.values)
      ensures engine.db.queues ==
        if accepted then D.PostWalk(old(engine.db.queues), engine.db.notifications, Walk(key), key, Some(value))
        else old(engine.db.queues)
      ensures D.Told(old(engine.db.queues), engine.db.queues, {key}, engine.db.values, engine.db.defaults)
      ensures accepted ==> D.Answers(engine.db.values, engine.db.defaults, key, Some(value))
    {
      ghost var before, q, queues := engine.db.values, Queue(), engine.db.queues;
      engine.db.Set(key, value, accepted);
      if accepted && old(CoherentNow()) { Follow(before, q, queues, key); }
    }

    /** A value unset at the server, by any client. */
    method ServerUnset(key: string, accepted: bool)
      requires Valid() && ValidKey(key) && NulFree(key)
      modifies engine.db`values, engine.db`queues
      ensures Valid() && (old(CoherentNow()) ==> CoherentNow())
      ensures engine.db.values == if accepted then old(engine.db.values) - {key} else old(engine.db.values)
      ensures engine.db.queues ==
        if accepted then D.PostWalk(old(engine.db.queues), engine.db.notifications, Walk(key), key, engine.db.ValueOf(key))
        else old(engine.db.queues)
      ensures D.Told(old(engine.db.queues), engine.db.queues, {key}, engine.db.values, engine.db.defaults)
      ensures accepted ==> D.Answers(engine.db.values, engine.db.defaults, key,
                                     if key in engine.db.defaults then Some(engine.db.defaults[key]) else None)
    {
      ghost var before, q, queues := engine.db.values, Queue(), engine.db.queues;
      engine.db.Unset(key, accepted);
      if accepted && old(CoherentNow()) { Follow(before, q, queues, key); }
    }

    lemma Follow(before: map<string, Value>, q: seq<D.Notify>, queues: D.Queues, key: string)
      requires Valid() && ValidKey(key) && q == D.Pending(queues, engine.service)
      requires Coherent(comparison, cache, q, before, engine.db.defaults) && Sent(dirs, q)
      requires forall k :: k != key ==> (k in before <==> k in engine.db.values) && (k in before ==> before[k] == engine.db.values[k])
      requires engine.db.queues == D.PostWalk(queues, engine.db.notifications, Walk(key), key, engine.db.ValueOf(key))
      ensures CoherentNow()
    {
      var value := engine.db.ValueOf(key);
      var ms := D.Received(engine.db.notifications, Walk(key), engine.service, key, value);
      D.PostWalkIs(queues, engine.db.notifications, Walk(key), key, value, engine.service);
      ChangeTells(engine.db.notifications, engine.service, dirs, engine.notifyDirs, engine.notifyIds, key, value);
      ChangeCoherent(comparison, dirs, cache, q, ms, before, engine.db.values, engine.db.defaults, key);
    }

    /** gconf_client_set: afterwards a read of the key asks the server. */
    method Set(key: string, value: Value, accepted: bool)
      requires Valid() && ValidKey(key) && NulFree(key)
      modifies this`cache, engine.db`values, engine.db`queues
      ensures Valid() && (old(CoherentNow()) ==> CoherentNow())
      ensures engine.db.values == if accepted then old(engine.db.values)[key := value] else old(engine.db.values)
      ensures engine.db.queues ==
        if accepted then D.PostWalk(old(engine.db.queues), engine.db.notifications, Walk(key), key, Some(value))
        else old(engine.db.queues)
      ensures D.Told(old(engine.db.queues), engine.db.queues, {key}, engine.db.values, engine.db.defaults)
      ensures accepted ==> D.Answers(engine.db.values, engine.db.defaults, key, Some(value))
      ensures cache == if accepted then old(cache) - {key} else old(cache)
    {
      ServerSet(key, value, accepted);
      if accepted { Evict({key}); }
    }

    /** gconf_client_unset */
    method Unset(key: string, accepted: bool)
      requires Valid() && ValidKey(key) && NulFree(key)
      modifies this`cache, engine.db`values, engine.db`queues
      ensures Valid() && (old(CoherentNow()) ==> CoherentNow())
      ensures engine.db.values == if accepted then old(engine.db.values) - {key} else old(engine.db.values)
      ensures engine.db.queues ==
        if accepted then D.PostWalk(old(engine.db.queues), engine.db.notifications, Walk(key), key, engine.db.ValueOf(key))
        else old(engine.db.queues)
      ensures D.Told(old(engine.db.queues), engine.db.queues, {key}, engine.db.values, engine.db.defaults)
      ensures accepted ==> D.Answers(engine.db.values, engine.db.defaults, key,
                                     if key in engine.db.defaults then Some(engine.db.defaults[key]) else None)
      ensures cache == if accepted then old(cache) - {key} else old(cache)
    {
      ServerUnset(key, accepted);
      if accepted { Evict({key}); }
    }

    /** gconf_client_recursive_unset of what the server finds at and below a key. The test for what to
        evict has its arguments the other way round: everything goes but the key's proper ancestors,
        so in particular all that was unset. */
    method RecursiveUnset(key: string, keys: seq<string>)
      requires Valid() && ValidKey(key)
      requires forall i :: 0 <= i < |keys| ==> ValidKey(keys[i]) && NulFree(keys[i]) && KeyIsBelow(key, keys[i])
      modifies this`cache, engine.db`values, engine.db`queues
      ensures Valid() && (old(CoherentNow()) ==> CoherentNow())
      ensures engine.db.values == old(engine.db.values) - (set k | k in keys)
      ensures D.Told(old(engine.db.queues), engine.db.queues, (set k | k in keys), engine.db.values, engine.db.defaults)
      ensures forall k :: k in keys ==>
        D.Answers(engine.db.values, engine.db.defaults, k,
                  if k in engine.db.defaults then Some(engine.db.defaults[k]) else None)
      ensures forall k :: k in cache <==> k in old(cache) && KeyIsBelow(k, key) && k != key
      ensures forall i :: 0 <= i < |keys| ==> keys[i] !in cache
    {
      UnsetKeys(keys);
      hide DirsValid, Topmost, CacheMonitored, Coherent, KeyIsBelow, ValidKey;
      forall i | 0 <= i < |keys| && KeyIsBelow(keys[i], key) ensures keys[i] == key { BelowAntisymmetric(key, keys[i]); }
      Evict(set k | k in cache && (!KeyIsBelow(k, key) || k == key));
    }

    /** Several keys unset at the server. */
    method UnsetKeys(keys: seq<string>)
      requires Valid() && forall i :: 0 <= i < |keys| ==> ValidKey(keys[i]) && NulFree(keys[i])
      modifies engine.db`values, engine.db`queues
      ensures Valid() && (old(CoherentNow()) ==> CoherentNow())
      ensures engine.db.values == old(engine.db.values) - (set k | k in keys)
      ensures D.Told(old(engine.db.queues), engine.db.queues, (set k | k in keys), engine.db.values, engine.db.defaults)
      ensures forall k :: k in keys ==>
        D.Answers(engine.db.values, engine.db.defaults, k,
                  if k in engine.db.defaults then Some(engine.db.defaults[k]) else None)
    {
      ghost var before, queues := engine.db.values, engine.db.queues;
      hide Topmost, CacheMonitored, Coherent, KeyIsBelow, ValidKey;
      engine.db.RecursiveUnset(keys);
      if old(CoherentNow()) {
        UnsetAllCoherent(comparison, dirs, cache, engine.notifyDirs, engine.notifyIds, engine.db.notifications,
                         engine.service, queues, keys, before, engine.db.values, engine.db.defaults);
      }
    }

    method Evict(keys: set<string>)
      requires Valid()
      modifies this`cache
      ensures Valid() && cache == old(cache) - keys
      ensures old(CoherentNow()) ==> CoherentNow()
    {
      hide DirsValid, Topmost, Registered, KeyIsBelow;
      cache := cache - keys;
    }

    /** The next message arrives: exactly one connection matches it, and its callback puts the value in
        the cache and queues a notification of the listeners if that changed the entry. */
    method Deliver() returns (called: seq<nat>)
      requires Valid() && CoherentNow() && Queue() != []
      modifies this`cache, this`notifyList, engine.db`queues
      ensures Valid() && CoherentNow()
      ensures Queue() == old(Queue())[1..]
      ensures |called| == 1
      ensures var m := old(Queue())[0];
        && m.key in cache && comparison.SameValue(cache[m.key].value, m.value)
        && !cache[m.key].isDefault && cache[m.key].isWritable
        && cache[m.key].schemaName == (if m.key in old(cache) then old(cache)[m.key].schemaName else None)
        && (forall k :: k != m.key ==> (k in cache <==> k in old(cache)) && (k in cache ==> cache[k] == old(cache)[k]))
        && cache == AfterMessage(comparison, old(cache), m)
        && notifyList == if Unchanged(comparison, old(cache), m) then old(notifyList) else [m.key] + old(notifyList)
    {
      var m := Queue()[0];
      ghost var q := Queue();
      assert Registered(dirs, m.dir);
      assert Monitored(dirs, m.key);
      called := engine.Matches(m);
      engine.db.queues := engine.db.queues[engine.service := Queue()[1..]];
      NotifyFromServer(m);
      MessageLeaves(comparison, old(cache), m);
      ghost var entry :| cache == old(cache)[m.key := entry] && comparison.SameValue(entry.value, m.value);
      DeliverCoherent(comparison, old(cache), q, engine.db.values, engine.db.defaults, entry);
    }

    /** notify_from_server_callback; the entry of a message carries the value alone. */
    method NotifyFromServer(m: D.Notify)
      requires comparison.Reflexive()
      modifies this`cache, this`notifyList
      ensures exists e :: cache == old(cache)[m.key := e] && comparison.SameValue(e.value, m.value)
      ensures cache == AfterMessage(comparison, old(cache), m)
      ensures notifyList == if Unchanged(comparison, old(cache), m) then old(notifyList) else [m.key] + old(notifyList)
    {
      var changed := CacheEntry(m.key, Entry(m.value, false, true, None), true);
      if changed { notifyList := [m.key] + notifyList; }
    }
  }

  /** What is below a watched key is watched. */
  lemma MonitoredBelow(dirs: Dirs, dirname: string, keys: seq<string>)
    requires AllRooted(dirs) && ValidKey(dirname) && Monitored(dirs, dirname)
    requires forall i :: 0 <= i < |keys| ==> Rooted(keys[i]) && KeyIsBelow(dirname, keys[i])
    ensures forall i :: 0 <= i < |keys| ==> Monitored(dirs, keys[i])
  {
    var d :| d in dirs && KeyIsBelow(d, dirname);
    forall i | 0 <= i < |keys| ensures Monitored(dirs, keys[i]) { BelowTransitive(d, dirname, keys[i]); }
  }

  /** These keys are cached with the server's values, the others are as they were. */
  ghost predicate Preloaded(cmp: Comparison, values: map<string, Value>, defaults: map<string, Value>,
                            before: Cache, after: Cache, keys: seq<string>)
  {
    && after.Keys == before.Keys + (set k | k in keys)
    && (forall k :: k in keys ==> k in after && cmp.SameValue(after[k].value, D.Current(values, defaults, k)))
    && (forall k :: k in before && k !in keys ==> k in after && after[k] == before[k])
  }

  lemma NothingPreloaded(cmp: Comparison, values: map<string, Value>, defaults: map<string, Value>, cache: Cache)
    ensures Preloaded(cmp, values, defaults, cache, cache, [])
  {
  }

  lemma OnePreloaded(cmp: Comparison, values: map<string, Value>, defaults: map<string, Value>,
                     before: Cache, mid: Cache, after: Cache, keys: seq<string>, i: nat)
    requires i < |keys| && Preloaded(cmp, values, defaults, before, mid, keys[..i])
    requires exists e ::
      after == mid[keys[i] := e] && cmp.SameValue(e.value, D.Current(values, defaults, keys[i]))
    ensures Preloaded(cmp, values, defaults, before, after, keys[..i + 1])
  {
    assert keys[..i + 1] == keys[..i] + [keys[i]];
  }

  /** What setup_overlaps has found among the directories visited. */
  ghost predicate FoundSoFar(dirs: Dirs, name: string, remaining: set<string>, lower: Option<string>) {
    if lower.Some? then Registered(dirs, lower.value) && KeyIsBelow(lower.value, name) && lower.value !in remaining
    else forall d :: Registered(dirs, d) && d !in remaining ==> !KeyIsBelow(d, name)
  }

  lemma StartOverlaps(dirs: Dirs, name: string)
    ensures PartlyDropped(dirs, name, dirs.Keys) == dirs && FoundSoFar(dirs, name, dirs.Keys, None)
  {
  }

  lemma EndOverlaps(dirs: Dirs, name: string, lower: Option<string>)
    requires AllRooted(dirs) && Antichain(dirs) && ValidKey(name) && !Registered(dirs, name)
    requires FoundSoFar(dirs, name, {}, lower)
    ensures var after := PartlyDropped(dirs, name, {});
      if lower.Some? then Registered(after, lower.value) && KeyIsBelow(lower.value, name) && after == dirs
      else (forall d :: Registered(dirs, d) ==> !KeyIsBelow(d, name)) && after == Dropped(dirs, name)
  {
    AllDropped(dirs, name);
    if lower.Some? {
      NothingBelow(dirs, name, lower.value);
      NothingDropped(dirs, name);
    }
  }

  /** A second registered directory above the name is never met. */
  lemma VisitOne(dirs: Dirs, name: string, remaining: set<string>, d: string, lower: Option<string>)
    requires AllRooted(dirs) && Antichain(dirs) && ValidKey(name) && !Registered(dirs, name) && d in remaining && remaining <= dirs.Keys
    requires FoundSoFar(dirs, name, remaining, lower)
    ensures d in PartlyDropped(dirs, name, remaining) && PartlyDropped(dirs, name, remaining)[d] == dirs[d]
    ensures var now, next := PartlyDropped(dirs, name, remaining), PartlyDropped(dirs, name, remaining - {d});
      && (Registered(dirs, d) && KeyIsBelow(name, d) ==> next == now[d := now[d].(notifyId := 0)])
      && (!(Registered(dirs, d) && KeyIsBelow(name, d)) ==> next == now)
    ensures Registered(dirs, d) && KeyIsBelow(d, name) ==>
      !KeyIsBelow(name, d) && lower.None? && FoundSoFar(dirs, name, remaining - {d}, Some(d))
    ensures !(Registered(dirs, d) && KeyIsBelow(d, name)) ==> FoundSoFar(dirs, name, remaining - {d}, lower)
  {
    if Registered(dirs, d) {
      VisitRegistered(dirs, name, remaining, d);
      if lower.Some? && KeyIsBelow(d, name) { OneAbove(dirs, d, lower.value, name); }
    } else {
      VisitOther(dirs, name, remaining, d);
    }
  }

  /** A new directory in the table, not counted yet. */
  ghost predicate OneMore(before: Dirs, after: Dirs, name: string) {
    && after.Keys == before.Keys + {name} && after[name].addCount == 0
    && forall d :: d in before && d != name ==> after[d].addCount == before[d].addCount
  }

  /** The table after one successful addition. */
  ghost predicate CountedMore(before: Dirs, after: Dirs, name: string) {
    && after.Keys == before.Keys + {name}
    && forall d :: d in after ==>
         after[d].addCount == (if d in before then before[d].addCount else 0) + if d == name then 1 else 0
  }

  lemma CountsMore(before: Dirs, mid: Dirs, name: string)
    requires if name in before then mid == before else OneMore(before, mid, name)
    requires forall d :: d in before ==> before[d].addCount > 0
    ensures name in mid
    ensures var after := mid[name := mid[name].(addCount := mid[name].addCount + 1)];
      CountedMore(before, after, name) && forall d :: d in after ==> after[d].addCount > 0
  {
  }

  lemma WatchOneMore(before: Dirs, name: string)
    requires name !in before
    ensures OneMore(before, before[name := Dir(0, 0)], name)
  {
  }

  lemma DropOneMore(before: Dirs, name: string)
    requires name !in before
    ensures forall id :: OneMore(before, Dropped(before, name)[name := Dir(id, 0)], name)
    ensures name !in Dropped(before, name) && !Registered(Dropped(before, name), name)
  {
  }

  lemma SameSelf(cmp: Comparison, v: Option<Value>)
    requires cmp.Reflexive()
    ensures cmp.SameValue(v, v)
  {
  }

  /** Reading a key into the cache keeps coherence. */
  lemma ReadCoherent(cmp: Comparison, cache: Cache, q: seq<D.Notify>, values: map<string, Value>,
                     defaults: map<string, Value>, key: string)
    requires cmp.Reflexive() && Coherent(cmp, cache, q, values, defaults)
    ensures forall e: Entry :: cmp.SameValue(e.value, D.Current(values, defaults, key)) ==>
      Coherent(cmp, cache[key := e], q, values, defaults)
  {
    forall e: Entry | cmp.SameValue(e.value, D.Current(values, defaults, key))
      ensures Coherent(cmp, cache[key := e], q, values, defaults)
    {
      forall k
        ensures match LastFor(q, k)
          case Some(m) => m.value == D.Current(values, defaults, k)
          case None => k in cache[key := e] ==> cmp.SameValue(cache[key := e][k].value, D.Current(values, defaults, k))
      {
      }
    }
  }

  lemma KeptMonitored(before: Dirs, after: Dirs, cache: Cache)
    requires CacheMonitored(before, cache) && before.Keys <= after.Keys
    ensures CacheMonitored(after, cache)
  {
    forall key | key in cache ensures Monitored(after, key) {
      var d :| d in before && KeyIsBelow(d, key);
      assert d in after.Keys;
    }
  }

  lemma CountOnly(a: Dirs, b: Dirs, byDir: E.ByDir, byId: E.ById)
    requires a.Keys == b.Keys && forall d :: d in a ==> b[d].notifyId == a[d].notifyId
    requires AllRooted(a) && Topmost(a) && Linked(a, byDir, byId)
    ensures AllRooted(b) && Topmost(b) && Linked(b, byDir, byId)
  {
  }

  /** The entry of a message carries the value alone, writable and not a default; it changes nothing
      if the cached entry equals it. */
  predicate Unchanged(cmp: Comparison, cache: Cache, m: D.Notify) {
    m.key in cache && cmp.SameEntry(cache[m.key], Entry(m.value, false, true, None))
  }

  /** The cache after a message: an entry that changed is replaced, and keeps its schema name. */
  function AfterMessage(cmp: Comparison, cache: Cache, m: D.Notify): Cache {
    if Unchanged(cmp, cache, m) then cache
    else cache[m.key := Entry(m.value, false, true, if m.key in cache then cache[m.key].schemaName else None)]
  }

  /** Afterwards the entry is writable and not a default, and has the schema name it had before. */
  lemma MessageLeaves(cmp: Comparison, cache: Cache, m: D.Notify)
    ensures m.key in AfterMessage(cmp, cache, m)
    ensures var now := AfterMessage(cmp, cache, m)[m.key];
      !now.isDefault && now.isWritable && now.schemaName == if m.key in cache then cache[m.key].schemaName else None
  {
  }

  /** A cached entry with a schema name or the default flag never equals the entry of a message, so
      listeners are told of a change even when the value is the same. */
  lemma SpuriousChange(cmp: Comparison, cache: Cache, m: D.Notify)
    requires m.key in cache && cmp.SameValue(cache[m.key].value, m.value)
    ensures !Unchanged(cmp, cache, m) <==>
      cache[m.key].schemaName.Some? || cache[m.key].isDefault || !cache[m.key].isWritable
  {
  }

  // Removing directories

  ghost predicate SameCounts(a: Dirs, b: Dirs) {
    a.Keys == b.Keys && forall d :: d in a ==> b[d].addCount == a[d].addCount
  }

  lemma DropCounts(dirs: Dirs, name: string)
    requires name in dirs
    ensures forall id :: SameCounts(dirs, Dropped(dirs, name)[name := Dir(id, dirs[name].addCount)])
    ensures SameCounts(dirs, Dropped(dirs, name))
    ensures name in Dropped(dirs, name) && Dropped(dirs, name)[name].addCount == dirs[name].addCount
  {
  }

  /** Each watched directory has a registered one at or above it. */
  ghost predicate AllCovered(dirs: Dirs) {
    forall d :: d in dirs ==> Covered(dirs, d)
  }

  /** Dropping registrations covers nothing. */
  lemma DropUncovers(dirs: Dirs, name: string)
    requires name in dirs
    ensures name in Dropped(dirs, name)
    ensures Covered(Dropped(dirs, name), name) ==> Covered(dirs, name)
  {
  }

  ghost predicate CoveredExcept(dirs: Dirs, remaining: set<string>) {
    forall d :: d in dirs && d !in remaining ==> Covered(dirs, d)
  }

  lemma CoverOne(before: Dirs, after: Dirs, remaining: set<string>, d: string)
    requires AllRooted(before) && before.Keys == after.Keys && CoveredExcept(before, remaining) && Covered(after, d)
    requires forall key :: Rooted(key) && Covered(before, key) ==> Covered(after, key)
    ensures CoveredExcept(after, remaining - {d})
  {
    forall e | e in after && e !in remaining - {d} ensures Covered(after, e) {
      assert e in before.Keys;
    }
  }

  /** clear_dir_cache_foreach: the entries that are not below a directory. */
  function Outside(cache: Cache, name: string): Cache {
    map k | k in cache && !KeyIsBelow(name, k) :: cache[k]
  }

  lemma OutsideMonitored(dirs: Dirs, cache: Cache, name: string)
    requires CacheMonitored(dirs, cache)
    ensures CacheMonitored(dirs - {name}, Outside(cache, name))
  {
    forall k | k in Outside(cache, name) ensures Monitored(dirs - {name}, k) {
      var d :| d in dirs && KeyIsBelow(d, k);
      assert d in dirs - {name};
    }
  }

  lemma OutsideCoherent(cmp: Comparison, cache: Cache, q: seq<D.Notify>, values: map<string, Value>,
                        defaults: map<string, Value>, name: string)
    ensures Coherent(cmp, cache, q, values, defaults) ==> Coherent(cmp, Outside(cache, name), q, values, defaults)
  {
  }

  /** The table after one removal: the directory is gone once it was removed as often as added. */
  ghost predicate CountedLess(before: Dirs, after: Dirs, name: string) {
    && (forall d :: d in after <==> d in before && (d != name || before[name].addCount > 1))
    && forall d :: d in after ==> before[d].addCount == after[d].addCount + if d == name then 1 else 0
  }

  lemma LessByOne(before: Dirs, name: string)
    requires name in before && before[name].addCount > 1
    ensures CountedLess(before, before[name := before[name].(addCount := before[name].addCount - 1)], name)
  {
  }

  lemma NotRemoved(dirs: Dirs, name: string)
    requires name !in dirs
    ensures CountedLess(dirs, dirs, name)
  {
  }

  lemma LessPositive(before: Dirs, after: Dirs, name: string)
    requires CountedLess(before, after, name) && forall d :: d in before ==> before[d].addCount > 0
    ensures forall d :: d in after ==> after[d].addCount > 0
  {
  }

  lemma LessAfterRemoval(before: Dirs, mid: Dirs, after: Dirs, name: string)
    requires name in before && before[name].addCount == 1 && mid == before[name := before[name].(addCount := 0)]
    requires SameCounts(mid - {name}, after)
    ensures CountedLess(before, after, name)
  {
    assert forall d :: d in after <==> d in (mid - {name}).Keys;
  }

  // Unsetting many keys

  lemma OneKeyFirst(before: map<string, Value>, after: map<string, Value>, defaults: map<string, Value>, keys: seq<string>)
    requires keys != [] && after == before - (set k | k in keys)
    ensures after == (before - {keys[0]}) - (set k | k in keys[1..])
    ensures D.Current(after, defaults, keys[0]) == D.Current(before - {keys[0]}, defaults, keys[0])
  {
    assert forall k :: k in keys <==> k == keys[0] || k in keys[1..];
  }

  lemma UnsetOneCoherent(cmp: Comparison, dirs: Dirs, cache: Cache, byDir: E.ByDir, byId: E.ById,
      n: D.Notifications, service: string, queues: D.Queues, key: string,
      before: map<string, Value>, defaults: map<string, Value>)
    requires AllRooted(dirs) && Topmost(dirs) && Linked(dirs, byDir, byId) && E.ServerAgrees(n, service, byDir)
    requires ValidKey(key) && CacheMonitored(dirs, cache)
    requires Coherent(cmp, cache, D.Pending(queues, service), before, defaults) && Sent(dirs, D.Pending(queues, service))
    ensures var value := D.Current(before - {key}, defaults, key);
      var q := D.Pending(D.PostWalk(queues, n, Walk(key), key, value), service);
      Coherent(cmp, cache, q, before - {key}, defaults) && Sent(dirs, q)
  {
    var value := D.Current(before - {key}, defaults, key);
    D.PostWalkIs(queues, n, Walk(key), key, value, service);
    ChangeTells(n, service, dirs, byDir, byId, key, value);
    ChangeCoherent(cmp, dirs, cache, D.Pending(queues, service), D.Received(n, Walk(key), service, key, value),
                   before, before - {key}, defaults, key);
  }

  lemma {:induction false} UnsetAllCoherent(cmp: Comparison, dirs: Dirs, cache: Cache, byDir: E.ByDir, byId: E.ById,
      n: D.Notifications, service: string, queues: D.Queues, keys: seq<string>,
      before: map<string, Value>, after: map<string, Value>, defaults: map<string, Value>)
    requires AllRooted(dirs) && Topmost(dirs) && Linked(dirs, byDir, byId) && E.ServerAgrees(n, service, byDir)
    requires forall i :: 0 <= i < |keys| ==> ValidKey(keys[i]) && Rooted(keys[i])
    requires CacheMonitored(dirs, cache) && after == before - (set k | k in keys)
    requires Coherent(cmp, cache, D.Pending(queues, service), before, defaults) && Sent(dirs, D.Pending(queues, service))
    ensures var q := D.Pending(D.PostKeys(queues, n, keys, after, defaults), service);
      Coherent(cmp, cache, q, after, defaults) && Sent(dirs, q)
    decreases |keys|
  {
    if keys == [] {
      assert after == before;
    } else {
      var key := keys[0];
      var mid := before - {key};
      OneKeyFirst(before, after, defaults, keys);
      UnsetOneCoherent(cmp, dirs, cache, byDir, byId, n, service, queues, key, before, defaults);
      hide AllRooted, Topmost, Linked, E.ServerAgrees, ValidKey, Coherent, Sent, CacheMonitored, Walk, D.PostWalk, D.Current;
      var queues1 := D.PostWalk(queues, n, Walk(key), key, D.Current(mid, defaults, key));
      UnsetAllCoherent(cmp, dirs, cache, byDir, byId, n, service, queues1, keys[1..], mid, after, defaults);
    }
  }

  /** So it is for any key whose schema name was cached: the same value is news. */
  lemma SpuriousExample(cmp: Comparison, dir: string, key: string, value: Value, schemaName: string)
    requires cmp.Reflexive()
    ensures var cache: Cache := map[key := Entry(Some(value), false, true, Some(schemaName))];
      !Unchanged(cmp, cache, D.Notify(dir, key, Some(value)))
  {
    SpuriousChange(cmp, map[key := Entry(Some(value), false, true, Some(schemaName))], D.Notify(dir, key, Some(value)));
  }
}
