/** Walking from a key up to the root by chopping its string at the last slash. */
module KeyWalk {
  import opened Basics
  import opened Keys

  // Ancestors

  lemma BelowSelf(key: string)
    ensures KeyIsBelow(key, key)
  {
  }

  lemma BelowTransitive(a: string, b: string, c: string)
    requires Rooted(a) && Rooted(b) && Rooted(c) && KeyIsBelow(a, b) && KeyIsBelow(b, c)
    ensures KeyIsBelow(a, c)
  {
    KeyIsBelowIs(a, b);
    KeyIsBelowIs(b, c);
    KeyIsBelowIs(a, c);
  }

  lemma BelowAntisymmetric(a: string, b: string)
    requires Rooted(a) && Rooted(b) && KeyIsBelow(a, b) && KeyIsBelow(b, a)
    ensures a == b
  {
    KeyIsBelowIs(a, b);
    KeyIsBelowIs(b, a);
    KeyOfComponents(a);
    KeyOfComponents(b);
    assert Components(a) == Components(b);
  }

  /** Two directories above one key are comparable. */
  lemma AboveLinear(a: string, b: string, key: string)
    requires Rooted(a) && Rooted(b) && Rooted(key) && KeyIsBelow(a, key) && KeyIsBelow(b, key)
    ensures KeyIsBelow(a, b) || KeyIsBelow(b, a)
  {
    KeyIsBelowIs(a, key);
    KeyIsBelowIs(b, key);
    KeyIsBelowIs(a, b);
    KeyIsBelowIs(b, a);
    var p, q, k := Components(a), Components(b), Components(key);
    assert p == k[..|p|] && q == k[..|q|];
    if |p| <= |q| { assert p == q[..|p|]; } else { assert q == p[..|q|]; }
  }

  // Chopping

  /** strrchr for a slash in a string that has one. */
  function LastSlash(s: string): (i: nat)
    requires Rooted(s)
    ensures i < |s| && s[i] == '/' && forall j :: i < j < |s| ==> s[j] != '/'
  {
    LastSlashBefore(s, |s| - 1)
  }

  function LastSlashBefore(s: string, n: nat): (i: nat)
    requires Rooted(s) && n < |s| && forall j :: n < j < |s| ==> s[j] != '/'
    ensures i <= n && s[i] == '/' && forall j :: i < j < |s| ==> s[j] != '/'
  {
    if s[n] == '/' then n else LastSlashBefore(s, n - 1)
  }

  /** The directories looked up for a key: the key itself, then after each chop what is left, and at
      the end the root. */
  function Walk(s: string): seq<string>
    requires Rooted(s)
    decreases |s|
  {
    [s] + if LastSlash(s) == 0 then ["/"] else Walk(s[..LastSlash(s)])
  }

  lemma JoinLast(path: Path, name: string)
    requires path != []
    ensures JoinParts(path + [name]) == JoinParts(path) + "/" + name
  {
    if |path| == 1 {
      assert (path + [name])[1..] == [name];
    } else {
      assert (path + [name])[1..] == path[1..] + [name];
      JoinLast(path[1..], name);
      var tail := JoinParts(path[1..]);
      assert path[0] + "/" + (tail + "/" + name) == (path[0] + "/" + tail) + "/" + name;
    }
  }

  lemma KeyOfLonger(path: Path, name: string)
    ensures KeyOf(path + [name]) == (if path == [] then "" else KeyOf(path)) + "/" + name
  {
    if path != [] {
      JoinLast(path, name);
      assert "/" + (JoinParts(path) + "/" + name) == ("/" + JoinParts(path)) + "/" + name;
    } else {
      assert path + [name] == [name];
    }
  }

  lemma LastSlashOf(s: string, front: string, name: string)
    requires SlashFree(name) && Rooted(s) && s == front + "/" + name
    ensures LastSlash(s) == |front| && s[..LastSlash(s)] == front
  {
    assert s[|front|] == '/';
    forall j | |front| < j < |s| ensures s[j] != '/' { assert s[j] == name[j - |front| - 1]; }
  }

  /** The last slash of a key is before its last component. */
  lemma LastSlashIs(path: Path, name: string)
    requires SlashFree(name)
    ensures var key := KeyOf(path + [name]);
      LastSlash(key) == |key| - |name| - 1 && key[..LastSlash(key)] == if path == [] then "" else KeyOf(path)
  {
    KeyOfLonger(path, name);
    hide KeyOf, LastSlash;
    LastSlashOf(KeyOf(path + [name]), if path == [] then "" else KeyOf(path), name);
  }

  /** The keys of the first k, k-1, ..., 1 components, then the root. */
  function Prefixes(path: Path, k: nat): seq<string>
    requires k <= |path|
  {
    if k == 0 then ["/"] else [KeyOf(path[..k])] + Prefixes(path, k - 1)
  }

  lemma {:induction false} WalkIsPrefixes(path: Path, k: nat)
    requires 1 <= k <= |path| && AllValid(path)
    ensures Walk(KeyOf(path[..k])) == Prefixes(path, k)
  {
    var front, name := path[..k - 1], path[k - 1];
    assert path[..k] == front + [name];
    assert ValidName(name);
    LastSlashIs(front, name);
    if k > 1 {
      WalkIsPrefixes(path, k - 1);
      assert KeyOf(front) != "";
    }
  }

  lemma {:induction false} PrefixesAre(path: Path, k: nat, d: string)
    requires k <= |path| && AllValid(path)
    ensures d in Prefixes(path, k) <==> exists j :: 0 <= j <= k && d == KeyOf(path[..j])
  {
    if k > 0 { PrefixesAre(path, k - 1, d); } else { assert path[..0] == []; }
  }

  lemma KeyOfInjective(a: Path, b: Path)
    requires AllValid(a) && AllValid(b) && KeyOf(a) == KeyOf(b)
    ensures a == b
  {
    ComponentsOfKey(a);
    ComponentsOfKey(b);
  }

  lemma {:induction false} PrefixesDistinct(path: Path, k: nat)
    requires k <= |path| && AllValid(path)
    ensures NoDup(Prefixes(path, k))
  {
    if k == 0 {
    } else {
      hide KeyOf, NoDup, ValidName;
      PrefixesDistinct(path, k - 1);
      var rest := Prefixes(path, k - 1);
      forall d | d in rest ensures d != KeyOf(path[..k]) {
        PrefixesAre(path, k - 1, d);
        var j :| 0 <= j <= k - 1 && d == KeyOf(path[..j]);
        if d == KeyOf(path[..k]) { KeyOfInjective(path[..j], path[..k]); }
      }
      DistinctCons(KeyOf(path[..k]), rest);
    }
  }

  lemma DistinctCons(x: string, s: seq<string>)
    requires NoDup(s) && x !in s
    ensures NoDup([x] + s)
  {
    forall i, j | 0 <= i < j < |[x] + s| ensures ([x] + s)[i] != ([x] + s)[j] {
      assert ([x] + s)[j] == s[j - 1] && s[j - 1] in s;
    }
  }

  lemma WalkOfRoot()
    ensures Walk("/") == ["/", "/"]
  {
  }

  lemma WalkFrom(path: Path)
    requires path != [] && AllValid(path)
    ensures Walk(KeyOf(path)) == Prefixes(path, |path|)
  {
    assert path[..|path|] == path;
    WalkIsPrefixes(path, |path|);
  }

  lemma PrefixesAreAbove(path: Path, d: string)
    requires AllValid(path) && Rooted(d)
    ensures d in Prefixes(path, |path|) <==> KeyIsBelow(d, KeyOf(path))
  {
    hide Prefixes, KeyIsBelow, KeyOf, Components;
    PrefixesAre(path, |path|, d);
    KeyIsBelowIs(d, KeyOf(path));
    ComponentsOfKey(path);
    KeyOfComponents(d);
    if Components(d) <= path { assert Components(d) == path[..|Components(d)|]; }
    if d in Prefixes(path, |path|) {
      var j :| 0 <= j <= |path| && d == KeyOf(path[..j]);
      ComponentsOfKey(path[..j]);
    }
  }

  /** The walk from a valid key meets exactly the directories above it and the key itself: each once,
      except that a walk that starts at the root meets the root twice. */
  lemma WalkIs(key: string, d: string)
    requires ValidKey(key) && Rooted(d)
    ensures d in Walk(key) <==> KeyIsBelow(d, key)
    ensures key != "/" ==> NoDup(Walk(key))
    ensures key == "/" ==> Walk(key) == ["/", "/"]
  {
    ValidKeyIs(key);
    KeyOfComponents(key);
    var path := Components(key);
    PrefixesAreAbove(path, d);
    if key == "/" {
      WalkOfRoot();
    } else {
      hide Prefixes, Walk, KeyIsBelow, ValidKey, NoDup;
      WalkFrom(path);
      PrefixesDistinct(path, |path|);
    }
  }
}
