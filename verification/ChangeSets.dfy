/** Change sets: commits that may stop at any key, what is left of them, and their reversal. */
module ChangeSets {
  import opened Basics
  import opened Values

  type Store = map<string, Value>

  /** The value to set for each key, or None to unset it. */
  type Changes = map<string, Option<Value>>

  function Get(store: Store, key: string): Option<Value> { if key in store then Some(store[key]) else None }

  /** What a key holds once the changes to the keys `done' are made. */
  function Holds(store: Store, cs: Changes, done: set<string>, key: string): Option<Value> {
    if key in cs && key in done then cs[key] else Get(store, key)
  }

  function Apply(store: Store, cs: Changes, done: set<string>): Store {
    map k | k in store.Keys + cs.Keys && Holds(store, cs, done, k).Some? :: Holds(store, cs, done, k).value
  }

  lemma ApplyGet(store: Store, cs: Changes, done: set<string>, key: string)
    ensures Get(Apply(store, cs, done), key) == Holds(store, cs, done, key)
  {
  }

  lemma SameStore(a: Store, b: Store)
    requires forall k :: Get(a, k) == Get(b, k)
    ensures a == b
  {
    forall k ensures k in a <==> k in b { assert Get(a, k) == Get(b, k); }
    forall k | k in a ensures a[k] == b[k] { assert Get(a, k) == Get(b, k); }
  }

  /** gconf_engine_reverse_change_set: the changes that bring back what there is now; a key that cannot
      be read counts as one without a value. */
  function Reversal(store: Store, cs: Changes, readable: string -> bool): Changes {
    map k | k in cs && !(Read(store, readable, k).None? && cs[k].None?) :: Read(store, readable, k)
  }

  function Read(store: Store, readable: string -> bool, key: string): Option<Value> {
    if readable(key) then Get(store, key) else None
  }

  /** A key that reverting does not bring back: it has a value that could not be read, and the commit
      reached it, or was to set it. */
  predicate LostByRevert(store: Store, cs: Changes, done: set<string>, readable: string -> bool, key: string) {
    key in cs && !readable(key) && key in store && (key in done || cs[key].Some?)
  }

  /** A reverse set taken before a commit restores the state, wherever the commit stopped, exactly if no
      key is lost for want of reading it. */
  lemma RevertRestores(store: Store, cs: Changes, done: set<string>, readable: string -> bool)
    ensures var rs := Reversal(store, cs, readable);
      Apply(Apply(store, cs, done), rs, rs.Keys) == store <==>
        forall k :: k in cs ==> !LostByRevert(store, cs, done, readable, k)
  {
    var rs := Reversal(store, cs, readable);
    var mid := Apply(store, cs, done);
    var after := Apply(mid, rs, rs.Keys);
    forall k ensures Get(after, k) == if k in rs then rs[k] else Holds(store, cs, done, k) {
      ApplyGet(mid, rs, rs.Keys, k);
      ApplyGet(store, cs, done, k);
    }
    if forall k :: k in cs ==> !LostByRevert(store, cs, done, readable, k) {
      forall k ensures Get(after, k) == Get(store, k) {
        if k in cs { assert !LostByRevert(store, cs, done, readable, k); }
      }
      SameStore(after, store);
    } else {
      var k :| k in cs && LostByRevert(store, cs, done, readable, k);
      assert Get(after, k) == None && Get(store, k).Some?;
    }
  }

  /** So it is for a key that could not be read and was set. */
  lemma RevertLosesExample(key: string, before: Value, after: Value)
    ensures var store: Store := map[key := before];
      var cs: Changes := map[key := Some(after)];
      var rs := Reversal(store, cs, k => false);
      Apply(Apply(store, cs, {key}), rs, rs.Keys) == map[]
  {
    var store: Store := map[key := before];
    var cs: Changes := map[key := Some(after)];
    assert Reversal(store, cs, k => false) == map[key := None];
  }

  /** With every key readable, reverting always restores. */
  lemma RevertAlwaysRestores(store: Store, cs: Changes, done: set<string>, readable: string -> bool)
    requires forall k :: k in cs ==> readable(k)
    ensures var rs := Reversal(store, cs, readable); Apply(Apply(store, cs, done), rs, rs.Keys) == store
  {
    RevertRestores(store, cs, done, readable);
  }

  /** The changes that are left when the committed ones are removed complete the commit. */
  lemma LeftoverCompletes(store: Store, cs: Changes, done: set<string>)
    ensures var left := cs - done;
      Apply(Apply(store, cs, done), left, left.Keys) == Apply(store, cs, cs.Keys)
  {
    var left := cs - done;
    var mid := Apply(store, cs, done);
    forall k ensures Get(Apply(mid, left, left.Keys), k) == Get(Apply(store, cs, cs.Keys), k) {
      ApplyGet(mid, left, left.Keys, k);
      ApplyGet(store, cs, done, k);
      ApplyGet(store, cs, cs.Keys, k);
    }
    SameStore(Apply(mid, left, left.Keys), Apply(store, cs, cs.Keys));
  }

  lemma ApplyOne(store: Store, cs: Changes, done: set<string>, key: string)
    requires key in cs
    ensures Apply(store, cs, done + {key}) ==
      match cs[key]
      case Some(v) => Apply(store, cs, done)[key := v]
      case None => Apply(store, cs, done) - {key}
  {
    var before := Apply(store, cs, done);
    var after := match cs[key] case Some(v) => before[key := v] case None => before - {key};
    forall k ensures Get(Apply(store, cs, done + {key}), k) == Get(after, k) {
      ApplyGet(store, cs, done + {key}, k);
      ApplyGet(store, cs, done, k);
    }
    SameStore(Apply(store, cs, done + {key}), after);
  }

  lemma ApplyNone(store: Store, cs: Changes)
    ensures Apply(store, cs, {}) == store
  {
    forall k ensures Get(Apply(store, cs, {}), k) == Get(store, k) { ApplyGet(store, cs, {}, k); }
    SameStore(Apply(store, cs, {}), store);
  }

  /** The database behind an engine; it may refuse to change a key. */
  class Engine {
    var values: Store

    constructor (values: Store)
      ensures this.values == values
    {
      this.values := values;
    }

    /** gconf_engine_set or gconf_engine_unset */
    method Change(key: string, value: Option<Value>, refuses: set<string>) returns (ok: bool)
      modifies this
      ensures ok <==> key !in refuses
      ensures values == if !ok then old(values) else
        match value
        case Some(v) => old(values)[key := v]
        case None => old(values) - {key}
    {
      ok := key !in refuses;
      if ok {
        match value
        case Some(v) => values := values[key := v];
        case None => values := values - {key};
      }
    }
  }

  class ChangeSet {
    var hash: Changes
    var inForeach: nat

    constructor ()
      ensures hash == map[] && inForeach == 0
    {
      hash, inForeach := map[], 0;
    }

    method Set(key: string, value: Value)
      modifies this`hash
      ensures hash == old(hash)[key := Some(value)]
    {
      hash := hash[key := Some(value)];
    }

    method Unset(key: string)
      modifies this`hash
      ensures hash == old(hash)[key := None]
    {
      hash := hash[key := None];
    }

    /** gconf_change_set_remove; refused while the set is being visited */
    method Remove(key: string)
      modifies this`hash
      ensures hash == if inForeach == 0 then old(hash) - {key} else old(hash)
    {
      if inForeach == 0 { hash := hash - {key}; }
    }

    /** gconf_engine_commit_change_set, in any order: it stops at the first key that is refused. */
    method Commit(conf: Engine, removeCommitted: bool, refuses: set<string>) returns (ok: bool, ghost committed: set<string>)
      requires inForeach == 0
      modifies this, conf
      ensures conf.values == Apply(old(conf.values), old(hash), committed)
      ensures committed <= old(hash).Keys && inForeach == 0
      ensures forall k :: k in committed ==> k !in refuses
      ensures ok <==> forall k :: k in old(hash) ==> k !in refuses
      ensures ok ==> committed == old(hash).Keys
      ensures hash == if removeCommitted then old(hash) - committed else old(hash)
    {
      var done;
      ok, done := VisitAll(conf, refuses);
      committed := done;
      hide Apply;
      if removeCommitted { RemoveAll(done); }
    }

    method RemoveAll(removeList: set<string>)
      requires inForeach == 0
      modifies this`hash
      ensures hash == old(hash) - removeList
    {
      var tmp := removeList;
      while tmp != {}
        invariant tmp <= removeList
        invariant hash == old(hash) - (removeList - tmp)
        decreases |tmp|
      {
        var key :| key in tmp;
        Remove(key);
        tmp := tmp - {key};
      }
    }

    /** The visit of every change by commit_foreach. */
    method VisitAll(conf: Engine, refuses: set<string>) returns (ok: bool, committed: set<string>)
      requires inForeach == 0
      modifies this`inForeach, conf
      ensures conf.values == Apply(old(conf.values), hash, committed) && inForeach == 0
      ensures committed <= hash.Keys
      ensures forall k :: k in committed ==> k !in refuses
      ensures ok <==> forall k :: k in hash ==> k !in refuses
      ensures ok ==> committed == hash.Keys
    {
      ok, committed := true, {};
      inForeach := inForeach + 1;
      ghost var cs, before := hash, conf.values;
      ApplyNone(before, cs);
      hide Apply, Holds;
      var todo := hash.Keys;
      ghost var refused := "";
      while todo != {}
        invariant todo <= cs.Keys && inForeach == 1 && hash == cs
        invariant conf.values == Apply(before, cs, committed)
        invariant if ok then committed == cs.Keys - todo else committed <= cs.Keys && refused in cs && refused in refuses
        invariant forall k :: k in committed ==> k !in refuses
        decreases |todo|
      {
        var key :| key in todo;
        todo := todo - {key};
        if ok {
          ok := CommitOne(conf, key, refuses, before, committed);
          if ok {
            committed := committed + {key};
          } else {
            refused := key;
          }
        }
      }
      inForeach := inForeach - 1;
    }

    /** commit_foreach */
    method CommitOne(conf: Engine, key: string, refuses: set<string>, ghost before: Store, ghost committed: set<string>)
      returns (ok: bool)
      requires key in hash && conf.values == Apply(before, hash, committed)
      modifies conf
      ensures ok <==> key !in refuses
      ensures conf.values == Apply(before, hash, if ok then committed + {key} else committed)
    {
      ApplyOne(before, hash, committed, key);
      hide Apply;
      ok := conf.Change(key, hash[key], refuses);
    }

    /** gconf_engine_reverse_change_set */
    method ReverseOf(conf: Engine, readable: string -> bool) returns (revertSet: ChangeSet)
      ensures fresh(revertSet) && revertSet.inForeach == 0
      ensures revertSet.hash == Reversal(conf.values, hash, readable)
    {
      revertSet := new ChangeSet();
      var todo := hash.Keys;
      while todo != {}
        invariant todo <= hash.Keys && fresh(revertSet) && revertSet.inForeach == 0
        invariant forall k :: k in revertSet.hash <==> k in Reversal(conf.values, hash, readable) && k !in todo
        invariant forall k :: k in revertSet.hash ==> revertSet.hash[k] == Reversal(conf.values, hash, readable)[k]
        decreases |todo|
      {
        var key :| key in todo;
        todo := todo - {key};
        var oldValue := Read(conf.values, readable, key);
        if oldValue.None? && hash[key].None? {
        } else if oldValue.None? {
          revertSet.Unset(key);
        } else {
          revertSet.Set(key, oldValue.value);
        }
      }
    }
  }

  /** Taking the reverse, committing until something refuses, then committing the reverse: the engine is
      as before, if the reverse is not refused and every key could be read. */
  method CommitAndRevert(conf: Engine, cs: ChangeSet, readable: string -> bool,
                         refuses: set<string>, refusesLater: set<string>) returns (reverted: bool)
    requires cs.inForeach == 0 && forall k :: k in cs.hash ==> readable(k)
    modifies conf, cs
    ensures reverted ==> conf.values == old(conf.values)
    ensures refusesLater == {} ==> reverted
  {
    var rs := cs.ReverseOf(conf, readable);
    ghost var before, changes := conf.values, cs.hash;
    ghost var done, undone;
    var ok;
    ok, done := cs.Commit(conf, false, refuses);
    reverted, undone := rs.Commit(conf, false, refusesLater);
    RevertAlwaysRestores(before, changes, done, readable);
  }

  /** Committing what is left of a commit that stopped reaches the state of a full one. */
  method CommitInTwo(conf: Engine, cs: ChangeSet, refuses: set<string>, refusesLater: set<string>) returns (ok: bool)
    requires cs.inForeach == 0
    modifies conf, cs
    ensures ok ==> conf.values == Apply(old(conf.values), old(cs.hash), old(cs.hash).Keys) && cs.hash == map[]
    ensures refusesLater == {} ==> ok
  {
    ghost var before, changes := conf.values, cs.hash;
    ghost var first, second;
    ok, first := cs.Commit(conf, true, refuses);
    ok, second := cs.Commit(conf, true, refusesLater);
    LeftoverCompletes(before, changes, first);
  }
}
