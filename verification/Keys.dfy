/** Keys as strings, and as the lists of their components. */
module Keys {
  import opened Basics

  const FORBIDDEN := " \t\r\n\"$&<>,+=#!()'|{}[]?~`;%\\"

  /** A character that a component may hold. */
  predicate Allowed(c: char) { c as int <= 127 && c !in FORBIDDEN && c != '/' }

  predicate ValidName(name: string) {
    name != "" && name[0] != '.' && forall i :: 0 <= i < |name| ==> Allowed(name[i])
  }

  /** g_strsplit at slashes, for a string that is not empty. */
  function Parts(s: string): (r: Path)
    ensures r != []
  {
    if s == "" then [""]
    else if s[0] == '/' then [""] + Parts(s[1..])
    else var rest := Parts(s[1..]); [[s[0]] + rest[0]] + rest[1..]
  }

  function JoinParts(ps: Path): string
    requires ps != []
  {
    if |ps| == 1 then ps[0] else ps[0] + "/" + JoinParts(ps[1..])
  }

  /** Keys start with a slash. */
  predicate Rooted(key: string) { key != "" && key[0] == '/' }

  function Components(key: string): Path
    requires Rooted(key)
  {
    if key == "/" then [] else Parts(key[1..])
  }

  function KeyOf(path: Path): (key: string)
    ensures Rooted(key)
  {
    if path == [] then "/" else "/" + JoinParts(path)
  }

  predicate SlashFree(s: string) { forall i :: 0 <= i < |s| ==> s[i] != '/' }

  lemma JoinEmptyFirst(rest: Path)
    requires rest != []
    ensures JoinParts([""] + rest) == "/" + JoinParts(rest)
  {
    assert ([""] + rest)[1..] == rest;
    assert "" + "/" == "/";
  }

  lemma JoinLongerFirst(c: char, rest: Path)
    requires rest != []
    ensures JoinParts([[c] + rest[0]] + rest[1..]) == [c] + JoinParts(rest)
  {
    var all := [[c] + rest[0]] + rest[1..];
    assert all[1..] == rest[1..];
    if |rest| > 1 {
      var tail := "/" + JoinParts(rest[1..]);
      assert ([c] + rest[0]) + "/" + JoinParts(rest[1..]) == [c] + (rest[0] + "/" + JoinParts(rest[1..]));
    }
  }

  lemma {:induction false} JoinOfParts(s: string)
    ensures JoinParts(Parts(s)) == s
  {
    if s != "" {
      hide JoinParts;
      JoinOfParts(s[1..]);
      if s[0] == '/' { JoinEmptyFirst(Parts(s[1..])); } else { JoinLongerFirst(s[0], Parts(s[1..])); }
      assert s == [s[0]] + s[1..];
    }
  }

  lemma {:induction false} PartsOfOne(s: string)
    requires SlashFree(s)
    ensures Parts(s) == [s]
  {
    if s != "" {
      assert forall i :: 0 <= i < |s[1..]| ==> s[1..][i] == s[i + 1];
      PartsOfOne(s[1..]);
      assert s == [s[0]] + s[1..];
    }
  }

  lemma {:induction false} PartsAfter(s: string, t: string)
    requires SlashFree(s)
    ensures Parts(s + "/" + t) == [s] + Parts(t)
  {
    if s == "" {
      assert (s + "/" + t)[1..] == t;
    } else {
      assert forall i :: 0 <= i < |s[1..]| ==> s[1..][i] == s[i + 1];
      PartsAfter(s[1..], t);
      assert (s + "/" + t)[1..] == s[1..] + "/" + t;
      assert s == [s[0]] + s[1..];
    }
  }

  lemma {:induction false} PartsOfJoin(ps: Path)
    requires ps != [] && forall i :: 0 <= i < |ps| ==> SlashFree(ps[i])
    ensures Parts(JoinParts(ps)) == ps
  {
    if |ps| == 1 {
      PartsOfOne(ps[0]);
    } else {
      PartsOfJoin(ps[1..]);
      PartsAfter(ps[0], JoinParts(ps[1..]));
    }
  }

  /** A key is spelled by its components. */
  lemma KeyOfComponents(key: string)
    requires Rooted(key)
    ensures KeyOf(Components(key)) == key
  {
    if key != "/" {
      JoinOfParts(key[1..]);
      assert key == "/" + key[1..];
    }
  }

  /** Components spelled as a key are found again. */
  lemma ComponentsOfKey(path: Path)
    requires forall i :: 0 <= i < |path| ==> ValidName(path[i])
    ensures Components(KeyOf(path)) == path
  {
    if path != [] {
      forall i | 0 <= i < |path| ensures SlashFree(path[i]) {}
      PartsOfJoin(path);
      assert KeyOf(path)[1..] == JoinParts(path);
      if |path| == 1 { assert path[0] != ""; }
    }
  }

  // gconf_valid_key

  /** The loop of gconf_valid_key from some point on. */
  predicate ScanKey(s: string, sawSlash: bool) {
    if s == "" then !sawSlash
    else if sawSlash && (s[0] == '/' || s[0] == '.') then false
    else if s[0] == '/' then ScanKey(s[1..], true)
    else s[0] as int <= 127 && s[0] !in FORBIDDEN && ScanKey(s[1..], false)
  }

  /** gconf_valid_key */
  predicate ValidKey(key: string) { Rooted(key) && (key == "/" || ScanKey(key, false)) }

  method CheckKey(key: string) returns (valid: bool)
    ensures valid <==> ValidKey(key)
  {
    if |key| == 0 || key[0] != '/' { return false; }
    if |key| == 1 { return true; }
    var s, justSawSlash := 0, false;
    while s < |key|
      invariant 0 <= s <= |key|
      invariant ScanKey(key, false) <==> ScanKey(key[s..], justSawSlash)
    {
      if justSawSlash && (key[s] == '/' || key[s] == '.') { return false; }
      if key[s] == '/' {
        justSawSlash := true;
      } else {
        justSawSlash := false;
        if key[s] as int > 127 { return false; }
        var inv := 0;
        while inv < |FORBIDDEN|
          invariant 0 <= inv <= |FORBIDDEN|
          invariant key[s] !in FORBIDDEN[..inv]
        {
          if FORBIDDEN[inv] == key[s] { return false; }
          inv := inv + 1;
        }
        assert FORBIDDEN[..inv] == FORBIDDEN;
      }
      s := s + 1;
    }
    return !justSawSlash;
  }

  predicate AllAllowed(s: string) { forall i :: 0 <= i < |s| ==> Allowed(s[i]) }

  predicate AllValid(ps: Path) { forall i :: 0 <= i < |ps| ==> ValidName(ps[i]) }

  lemma {:induction false} ScanSplits(s: string, sawSlash: bool)
    ensures ScanKey(s, sawSlash) <==>
      (if sawSlash then AllValid(Parts(s)) else AllAllowed(Parts(s)[0]) && AllValid(Parts(s)[1..]))
  {
    if s == "" {
      assert Parts(s)[0] == "";
    } else {
      var rest := Parts(s[1..]);
      if s[0] == '/' {
        ScanSplits(s[1..], true);
        assert Parts(s)[0] == "" && Parts(s)[1..] == rest;
      } else {
        ScanSplits(s[1..], false);
        var first := [s[0]] + rest[0];
        assert Parts(s)[0] == first && Parts(s)[1..] == rest[1..];
        assert AllAllowed(first) <==> Allowed(s[0]) && AllAllowed(rest[0]) by {
          if AllAllowed(first) {
            assert first[0] == s[0];
            forall i | 0 <= i < |rest[0]| ensures Allowed(rest[0][i]) { assert first[i + 1] == rest[0][i]; }
          }
        }
        assert AllValid(Parts(s)) <==> ValidName(first) && AllValid(rest[1..]) by {
          if ValidName(first) && AllValid(rest[1..]) {
            forall i | 0 <= i < |Parts(s)| ensures ValidName(Parts(s)[i]) {
              if i > 0 { assert Parts(s)[i] == rest[1..][i - 1]; }
            }
          }
          if AllValid(Parts(s)) {
            forall i | 0 <= i < |rest[1..]| ensures ValidName(rest[1..][i]) { assert rest[1..][i] == Parts(s)[i + 1]; }
            assert Parts(s)[0] == first;
          }
        }
      }
    }
  }

  /** Exactly the keys whose components are valid names are valid. */
  lemma ValidKeyIs(key: string)
    ensures ValidKey(key) <==> Rooted(key) && AllValid(Components(key))
  {
    if Rooted(key) && key != "/" {
      ScanSplits(key[1..], true);
    }
  }

  // gconf_key_is_below

  predicate StartsAt(above: string, below: string) {
    above <= below && (|below| == |above| || below[|above|] == '/')
  }

  predicate KeyIsBelow(above: string, below: string) { above == "/" || StartsAt(above, below) }

  lemma {:induction false} StartsAtIs(above: string, below: string)
    ensures StartsAt(above, below) <==> Parts(above) <= Parts(below)
  {
    if above == "" {
      if below != "" && below[0] != '/' { assert Parts(below)[0] != ""; }
    } else if below == "" || below[0] != above[0] {
      var first, other := Parts(above)[0], Parts(below)[0];
      assert above[0] != '/' ==> first != "" && first[0] == above[0];
      assert above[0] == '/' ==> first == "" && |Parts(above)| > 1;
      assert below != "" && below[0] != '/' ==> other != "" && other[0] == below[0];
    } else {
      var a, b := above[1..], below[1..];
      StartsAtIs(a, b);
      var pa, pb := Parts(a), Parts(b);
      assert StartsAt(above, below) <==> StartsAt(a, b) by {
        assert above == [above[0]] + a && below == [below[0]] + b;
      }
      assert pa <= pb <==> pa[0] == pb[0] && pa[1..] <= pb[1..] by {
        assert pa == [pa[0]] + pa[1..] && pb == [pb[0]] + pb[1..];
      }
      if above[0] == '/' {
        assert Parts(above) == [""] + pa && Parts(below) == [""] + pb;
        assert Parts(above)[1..] == pa && Parts(below)[1..] == pb;
      } else {
        var fa, fb := [above[0]] + pa[0], [above[0]] + pb[0];
        assert fa[1..] == pa[0] && fb[1..] == pb[0];
        assert Parts(above) == [fa] + pa[1..] && Parts(below) == [fb] + pb[1..];
        assert Parts(above)[1..] == pa[1..] && Parts(below)[1..] == pb[1..];
      }
    }
  }

  /** The test on strings is the component-wise ancestor test. */
  lemma KeyIsBelowIs(above: string, below: string)
    requires Rooted(above) && Rooted(below)
    ensures KeyIsBelow(above, below) <==> Components(above) <= Components(below)
  {
    if above != "/" && below != "/" {
      StartsAtIs(above[1..], below[1..]);
      assert above == "/" + above[1..] && below == "/" + below[1..];
    }
  }

  // Examples of keys

  lemma KeyOfValid(path: Path)
    requires AllValid(path)
    ensures ValidKey(KeyOf(path))
  {
    ComponentsOfKey(path);
    ValidKeyIs(KeyOf(path));
  }

  lemma LettersAllowed(c: char)
    requires 'a' <= c <= 'z' || c == '-'
    ensures Allowed(c)
  {
    forall i | 0 <= i < |FORBIDDEN| ensures FORBIDDEN[i] != c {}
  }

  lemma ValidNames()
    ensures ValidName("a") && ValidName("b") && ValidName("a-c")
  {
    LettersAllowed('a');
    LettersAllowed('b');
    LettersAllowed('c');
    LettersAllowed('-');
    hide Allowed;
  }

  lemma ExampleKeys()
    ensures ValidKey("/a/b") && ValidKey("/a") && ValidKey("/a-c")
    ensures KeyIsBelow("/a", "/a/b") && !KeyIsBelow("/a/b", "/a")
  {
    ValidNames();
    assert "/a"[..2] == "/a/b"[..2] && "/a/b"[2] == '/';
    hide ValidName, ValidKey;
    KeyOfValid(["a", "b"]);
    KeyOfValid(["a"]);
    KeyOfValid(["a-c"]);
    assert ["a", "b"][1..] == ["b"];
    assert KeyOf(["a"]) == "/a" && KeyOf(["a-c"]) == "/a-c";
    assert KeyOf(["a", "b"]) == "/" + ("a" + "/" + "b") == "/a/b";
  }
}
