/** The directories of an XML source on disk, and what the cache knows of one of them. */
module XmlFiles {
  import opened Basics
  import opened Values
  import opened Keys
  import opened KeyWalk

  /** The values stored in one directory's file. */
  type Content = map<string, Value>

  /** The directories that have a file. */
  type Files = map<string, Content>

  /** A directory in the cache: whether its file is read, the values, the subdirectories it knows of (as
      keys), whether these must be listed again, and whether a sync is pending. */
  datatype XDir = XDir(loaded: bool, entries: Content, subdirs: set<string>, needRescan: bool, dirty: bool)

  const NEW_DIR := XDir(false, map[], {}, true, false)

  /** gconf_key_directory */
  function Parent(key: string): (r: string)
    requires Rooted(key)
    ensures Rooted(r) && |r| <= |key| && (key != "/" ==> |r| < |key| && KeyIsBelow(r, key))
    ensures key == "/" ==> r == "/"
  {
    var i := LastSlash(key);
    if i == 0 then "/" else key[..i]
  }

  /** What is above a key is above its parent. */
  lemma AboveParent(above: string, key: string)
    requires Rooted(above) && Rooted(key) && KeyIsBelow(above, key) && above != key
    ensures KeyIsBelow(above, Parent(key))
  {
    if above != "/" {
      var i := LastSlash(key);
      assert key[|above|] == '/';
      assert i >= |above|;
      assert above <= key[..i];
      assert i > |above| ==> key[..i][|above|] == '/';
    }
  }

  ghost predicate AllRooted(files: Files) { forall k :: k in files ==> Rooted(k) }

  /** The parent of every directory below the root's own children has a file. */
  ghost predicate Closed(files: Files) {
    AllRooted(files) && forall k :: k in files && k != "/" && Parent(k) != "/" ==> Parent(k) in files
  }

  /** The subdirectories that a listing finds. */
  function Children(files: Files, key: string): set<string> {
    set k | k in files && Rooted(k) && k != "/" && Parent(k) == key
  }

  /** They are what lies directly below the directory: below it, and below nothing in between. */
  lemma ChildrenAre(files: Files, key: string, k: string)
    requires Rooted(key) && Rooted(k)
    ensures k in Children(files, key) <==>
      k in files && k != key && KeyIsBelow(key, k)
      && forall above :: Rooted(above) && above != k && KeyIsBelow(above, k) ==> KeyIsBelow(above, key)
  {
    if k != "/" {
      forall above | Rooted(above) && above != k && KeyIsBelow(above, k) ensures KeyIsBelow(above, Parent(k)) {
        AboveParent(above, k);
      }
      assert Parent(k) != k && KeyIsBelow(Parent(k), k);
      if k != key && KeyIsBelow(key, k) && KeyIsBelow(Parent(k), key) {
        AboveParent(key, k);
        BelowAntisymmetric(key, Parent(k));
      }
    }
  }

  /** rmdir fails in a directory that is not empty. */
  ghost predicate Occupied(files: Files, key: string) {
    exists k :: k in files && k != key && KeyIsBelow(key, k)
  }

  lemma {:induction false} ChildOnTheWay(files: Files, key: string, k: string)
    requires Closed(files) && Rooted(key) && key != "/" && k in files && k != key && KeyIsBelow(key, k)
    ensures Children(files, key) != {}
    decreases |k|
  {
    if Parent(k) == key {
      assert k in Children(files, key);
    } else {
      AboveParent(key, k);
      if Parent(k) == "/" { BelowAntisymmetric(key, "/"); }
      ChildOnTheWay(files, key, Parent(k));
    }
  }

  /** A directory is occupied exactly when it has a subdirectory with a file. */
  lemma OccupiedIs(files: Files, key: string)
    requires Closed(files) && Rooted(key) && key != "/"
    ensures Occupied(files, key) <==> Children(files, key) != {}
  {
    if k :| k in files && k != key && KeyIsBelow(key, k) { ChildOnTheWay(files, key, k); }
    if Children(files, key) != {} {
      var k :| k in Children(files, key);
      assert KeyIsBelow(key, k);
    }
  }

  /** create_fs_dir: a missing directory is made after its missing ancestors. */
  function Ensured(files: Files, key: string): Files
    requires Rooted(key)
    decreases |key|
  {
    if key in files then files
    else if key == "/" then files[key := map[]]
    else Ensured(files, Parent(key))[key := map[]]
  }

  /** A key and its ancestors. */
  function Chain(key: string): set<string>
    requires Rooted(key)
    decreases |key|
  {
    if key == "/" then {key} else {key} + Chain(Parent(key))
  }

  lemma {:induction false} ChainIs(key: string, k: string)
    requires Rooted(key) && k in Chain(key)
    ensures Rooted(k) && |k| <= |key|
    decreases |key|
  {
    if key != "/" && k != key { ChainIs(Parent(key), k); }
  }

  /** Creating a directory keeps what there is, and makes at most it and its ancestors. */
  lemma {:induction false} EnsuredIs(files: Files, key: string)
    requires Closed(files) && Rooted(key)
    ensures var after := Ensured(files, key);
      && key in after && Closed(after)
      && (forall k :: k in files ==> k in after && after[k] == files[k])
      && (forall k :: k in after && k !in files ==> k in Chain(key) && after[k] == map[])
    decreases |key|
  {
    if key !in files && key != "/" { EnsuredIs(files, Parent(key)); }
  }

  /** With every parent but the root on disk, creating the parent of an existing directory makes at most
      the root. */
  lemma EnsuredParent(files: Files, key: string)
    requires Closed(files) && Rooted(key) && (key == "/" || key in files)
    ensures Ensured(files, key) == if key in files then files else files["/" := map[]]
  {
  }

  lemma DeleteClosed(files: Files, key: string)
    requires Closed(files) && Rooted(key) && (key == "/" || !Occupied(files, key))
    ensures Closed(files - {key})
  {
    forall k | k in files - {key} && k != "/" && Parent(k) != "/" ensures Parent(k) in files - {key} {
      assert Parent(k) == key ==> KeyIsBelow(key, k);
    }
  }
}
