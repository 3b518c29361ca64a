/** The order in which the XML cache syncs its directories (dircmp). */
module XmlOrder {
  import opened Basics
  import opened Keys
  import opened KeyWalk

  /** dircmp */
  function Dircmp(a: string, b: string): int {
    if KeyIsBelow(a, b) then 1
    else if KeyIsBelow(b, a) then -1
    else FirstDifference(a, b)
  }

  /** The loop that passes over what is common; the end of a string counts as 0. */
  function FirstDifference(a: string, b: string): int {
    if a == "" && b == "" then 0
    else if a == "" then -1
    else if b == "" then 1
    else if a[0] == b[0] then FirstDifference(a[1..], b[1..])
    else if a[0] < b[0] then -1 else 1
  }

  /** A key with the root spelled as nothing. */
  function Spelled(key: string): string { if key == "/" then "" else key }

  /** Where a key ends, a slash sorts before it and any other character after it. */
  function Compare(a: string, b: string): int {
    if a == "" && b == "" then 0
    else if a == "" then (if b[0] == '/' then 1 else -1)
    else if b == "" then (if a[0] == '/' then -1 else 1)
    else if a[0] == b[0] then Compare(a[1..], b[1..])
    else if a[0] < b[0] then -1 else 1
  }

  lemma {:induction false} CompareIs(a: string, b: string)
    requires a != b
    ensures Compare(a, b) == if StartsAt(a, b) then 1 else if StartsAt(b, a) then -1 else FirstDifference(a, b)
  {
    if a != "" && b != "" {
      assert a == [a[0]] + a[1..] && b == [b[0]] + b[1..];
      if a[0] == b[0] {
        CompareIs(a[1..], b[1..]);
        assert StartsAt(a, b) <==> StartsAt(a[1..], b[1..]);
        assert StartsAt(b, a) <==> StartsAt(b[1..], a[1..]);
      } else {
        assert !(a <= b) && !(b <= a);
      }
    }
  }

  /** On distinct keys dircmp is this comparison. */
  lemma DircmpIsCompare(a: string, b: string)
    requires Rooted(a) && Rooted(b) && a != b
    ensures Dircmp(a, b) == Compare(Spelled(a), Spelled(b))
  {
    CompareIs(Spelled(a), Spelled(b));
    if a != "/" && b == "/" { assert |a| > 1; assert !(a <= b); }
    if b != "/" && a == "/" { assert |b| > 1; assert !(b <= a); }
  }

  /** Every descendant comes before its ancestors. */
  lemma DescendantsFirst(above: string, below: string)
    requires Rooted(above) && Rooted(below) && above != below && KeyIsBelow(above, below)
    ensures Dircmp(below, above) < 0 && Dircmp(above, below) > 0
  {
    if KeyIsBelow(below, above) { BelowAntisymmetric(above, below); }
  }

  lemma {:induction false} CompareTotal(a: string, b: string)
    ensures Compare(a, b) == -Compare(b, a)
    ensures Compare(a, b) == 0 <==> a == b
  {
    if a != "" && b != "" {
      assert a == [a[0]] + a[1..] && b == [b[0]] + b[1..];
      if a[0] == b[0] { CompareTotal(a[1..], b[1..]); }
    }
  }

  /** Two distinct keys are never equal in the order, and the order of two does not depend on which is
      asked about first. */
  lemma DircmpTotal(a: string, b: string)
    requires Rooted(a) && Rooted(b) && a != b
    ensures Dircmp(a, b) != 0 && (Dircmp(a, b) < 0 <==> Dircmp(b, a) > 0)
  {
    DircmpIsCompare(a, b);
    DircmpIsCompare(b, a);
    CompareTotal(Spelled(a), Spelled(b));
  }

  // Cycles

  /** Three strings part at one place: the first has a slash there, the second ends, and the third has
      a character that sorts before a slash. */
  predicate Parts3(a: string, b: string, c: string) {
    if a != "" && b != "" && c != "" && a[0] == b[0] == c[0] then Parts3(a[1..], b[1..], c[1..])
    else a != "" && a[0] == '/' && b == "" && c != "" && c[0] < '/'
  }

  predicate Cycle(a: string, b: string, c: string) {
    Compare(a, b) < 0 && Compare(b, c) < 0 && Compare(c, a) < 0
  }

  lemma {:induction false} CycleIs(a: string, b: string, c: string)
    ensures Cycle(a, b, c) <==> Parts3(a, b, c) || Parts3(b, c, a) || Parts3(c, a, b)
  {
    if a != "" && b != "" && c != "" && a[0] == b[0] == c[0] { CycleIs(a[1..], b[1..], c[1..]); }
  }

  lemma {:induction false} Parts3Is(a: string, b: string, c: string)
    ensures Parts3(a, b, c) <==> (b + "/" <= a && b <= c && |c| > |b| && c[|b|] < '/')
  {
    if b != "" && a != "" && c != "" && a[0] == b[0] == c[0] {
      Parts3Is(a[1..], b[1..], c[1..]);
      assert a == [a[0]] + a[1..] && b == [b[0]] + b[1..] && c == [c[0]] + c[1..];
      assert b + "/" <= a <==> b[1..] + "/" <= a[1..] by {
        assert b + "/" == [b[0]] + (b[1..] + "/");
      }
      assert b <= c <==> b[1..] <= c[1..];
    } else if b == "" {
      assert "" + "/" == "/";
    } else {
      assert (b + "/")[0] == b[0];
      assert b + "/" <= a ==> a != "" && a[0] == b[0];
      assert b <= c ==> c != "" && c[0] == b[0];
    }
  }

  /** Three keys are in a cycle exactly when, in some rotation, the first is below the second, and the
      third continues the second's last component with a character that sorts before a slash, like '-'
      or '.'. */
  lemma DircmpCycles(a: string, b: string, c: string)
    requires Rooted(a) && Rooted(b) && Rooted(c) && a != b && b != c && a != c
    ensures (Dircmp(a, b) < 0 && Dircmp(b, c) < 0 && Dircmp(c, a) < 0) <==>
      Twisted(a, b, c) || Twisted(b, c, a) || Twisted(c, a, b)
  {
    DircmpIsCompare(a, b);
    DircmpIsCompare(b, c);
    DircmpIsCompare(c, a);
    CycleIs(Spelled(a), Spelled(b), Spelled(c));
    TwistedIs(a, b, c);
    TwistedIs(b, c, a);
    TwistedIs(c, a, b);
  }

  predicate Twisted(a: string, b: string, c: string) {
    b != "/" && b + "/" <= a && b <= c && |c| > |b| && c[|b|] < '/'
  }

  lemma TwistedIs(a: string, b: string, c: string)
    requires Rooted(a) && Rooted(b) && Rooted(c) && a != b && b != c
    ensures Twisted(a, b, c) <==> Parts3(Spelled(a), Spelled(b), Spelled(c))
  {
    Parts3Is(Spelled(a), Spelled(b), Spelled(c));
    if b == "/" { assert !Parts3(Spelled(a), "", Spelled(c)); }
    if b != "/" {
      assert |b| > 1;
      assert b + "/" <= a ==> |a| > 1;
    }
  }

  /** Characters that all sort above the slash. */
  predicate SortsAbove(key: string) { forall i :: 0 <= i < |key| ==> key[i] >= '/' }

  /** On distinct keys without such characters dircmp is transitive, so a strict total order. */
  lemma DircmpTransitive(a: string, b: string, c: string)
    requires Rooted(a) && Rooted(b) && Rooted(c) && a != b && b != c && a != c
    requires SortsAbove(a) && SortsAbove(b) && SortsAbove(c)
    requires Dircmp(a, b) < 0 && Dircmp(b, c) < 0
    ensures Dircmp(a, c) < 0
  {
    DircmpCycles(a, b, c);
    DircmpTotal(c, a);
    DircmpTotal(a, c);
  }

  /** A cycle of three valid keys. */
  lemma CycleExample()
    ensures ValidKey("/a/b") && ValidKey("/a") && ValidKey("/a-c")
    ensures Dircmp("/a/b", "/a") < 0 && Dircmp("/a", "/a-c") < 0 && Dircmp("/a-c", "/a/b") < 0
  {
    ExampleKeys();
    hide ValidKey, Dircmp;
    assert "/a" + "/" <= "/a/b";
    assert Twisted("/a/b", "/a", "/a-c");
    DircmpCycles("/a/b", "/a", "/a-c");
  }
}
