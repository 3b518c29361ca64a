/** Locale names and the names to fall back to: language[_territory][.codeset][@modifier]. */
module Locale {
  import opened Basics
  import opened CString

  // Components

  /** strchr from a position on; the length of the string stands for NULL. */
  function Find(s: string, from: nat, c: char): (i: nat)
    requires from <= |s|
    ensures from <= i <= |s| && (i < |s| ==> s[i] == c) && forall j :: from <= j < i ==> s[j] != c
    decreases |s| - from
  {
    if from == |s| || s[from] == c then from else Find(s, from + 1, c)
  }

  /** The components with their marks; a component that is absent is empty. */
  datatype Parts = Parts(language: string, territory: string, codeset: string, modifier: string)
  {
    /** The mask of the components that are there: codeset 1, territory 2, modifier 4. */
    function Mask(): nat {
      (if codeset != "" then 1 else 0) + (if territory != "" then 2 else 0) + if modifier != "" then 4 else 0
    }

    /** The name with the components of a mask. */
    function Name(mask: nat): string {
      language + (if HasTerritory(mask) then territory else "") + (if HasCodeset(mask) then codeset else "")
      + if HasModifier(mask) then modifier else ""
    }
  }

  predicate HasCodeset(mask: nat) { mask % 2 == 1 }
  predicate HasTerritory(mask: nat) { (mask / 2) % 2 == 1 }
  predicate HasModifier(mask: nat) { (mask / 4) % 2 == 1 }

  /** (i & ~mask) == 0, for masks below 8 */
  predicate Within(i: nat, mask: nat) {
    (HasCodeset(i) ==> HasCodeset(mask)) && (HasTerritory(i) ==> HasTerritory(mask)) && (HasModifier(i) ==> HasModifier(mask))
  }

  /** explode_locale */
  function Explode(locale: string): Parts {
    var n := |locale|;
    var uscore := Find(locale, 0, '_');
    var dot := Find(locale, if uscore < n then uscore else 0, '.');
    var at := Find(locale, if dot < n then dot else if uscore < n then uscore else 0, '@');
    var dotEnd := if dot < n then dot else at;
    var uscoreEnd := if uscore < n then uscore else dotEnd;
    Parts(locale[..uscoreEnd],
          if uscore < n then locale[uscore..dotEnd] else "",
          if dot < n then locale[dot..at] else "",
          if at < n then locale[at..] else "")
  }

  lemma CutAndJoin(s: string, i: nat, j: nat, k: nat)
    requires i <= j <= k <= |s|
    ensures s[..i] + s[i..j] + s[j..k] + s[k..] == s
  {
    assert s[..i] + s[i..j] == s[..j];
    assert s[..j] + s[j..k] == s[..k];
    assert s[..k] + s[k..] == s;
  }

  /** The components make up the name exactly, each begins with its mark, and each mark is the first one that
      is found from where the component before it begins. */
  lemma ExplodePartitions(locale: string)
    ensures var p := Explode(locale);
      && p.language + p.territory + p.codeset + p.modifier == locale
      && (p.territory != "" ==> p.territory[0] == '_') && (p.codeset != "" ==> p.codeset[0] == '.')
      && (p.modifier != "" ==> p.modifier[0] == '@')
      && '_' !in p.language
      && (p.territory == "" ==> '_' !in locale)
      && '.' !in (if p.territory != "" then p.territory else p.language)
      && (p.codeset == "" ==> '.' !in p.modifier)
      && '@' !in (if p.codeset != "" then p.codeset else if p.territory != "" then p.territory else p.language)
  {
    ExplodeMarks(locale);
    ExplodeParts(locale);
  }

  lemma NotBefore(s: string, from: nat, to: nat, c: char)
    requires from <= |s| && from <= to <= Find(s, from, c)
    ensures c !in s[from..to]
  {
  }

  /** Where the components are cut off. */
  lemma ExplodeMarks(locale: string)
    ensures var p := Explode(locale);
      && '.' !in (if p.territory != "" then p.territory else p.language)
      && (p.codeset == "" ==> '.' !in p.modifier)
      && '@' !in (if p.codeset != "" then p.codeset else if p.territory != "" then p.territory else p.language)
  {
    var n := |locale|;
    var uscore := Find(locale, 0, '_');
    var fromDot := if uscore < n then uscore else 0;
    var dot := Find(locale, fromDot, '.');
    var fromAt := if dot < n then dot else fromDot;
    var at := Find(locale, fromAt, '@');
    var dotEnd := if dot < n then dot else at;
    NotBefore(locale, fromDot, dotEnd, '.');
    NotBefore(locale, fromAt, at, '@');
    if dot == n { NotBefore(locale, fromDot, n, '.'); TailOf(locale, fromDot, at, '.'); }
  }

  lemma TailOf(s: string, from: nat, at: nat, c: char)
    requires from <= at <= |s| && c !in s[from..|s|]
    ensures c !in s[at..]
  {
    assert forall j :: at <= j < |s| ==> s[j] == s[from..|s|][j - from];
  }

  lemma ExplodeParts(locale: string)
    ensures var p := Explode(locale);
      && p.language + p.territory + p.codeset + p.modifier == locale
      && (p.territory != "" ==> p.territory[0] == '_') && (p.codeset != "" ==> p.codeset[0] == '.')
      && (p.modifier != "" ==> p.modifier[0] == '@')
      && '_' !in p.language
      && (p.territory == "" ==> '_' !in locale)
  {
    var n := |locale|;
    var uscore := Find(locale, 0, '_');
    var dot := Find(locale, if uscore < n then uscore else 0, '.');
    var at := Find(locale, if dot < n then dot else if uscore < n then uscore else 0, '@');
    var dotEnd := if dot < n then dot else at;
    var uscoreEnd := if uscore < n then uscore else dotEnd;
    assert uscoreEnd <= dotEnd <= at;
    CutAndJoin(locale, uscoreEnd, dotEnd, at);
    if uscore == n { assert locale[uscoreEnd..dotEnd] == ""; }
    if dot == n { assert locale[dotEnd..at] == ""; }
    if at == n { assert locale[at..] == ""; }
  }

  // Variants

  /** The loop of compute_locale_variants from some mask down to 0. */
  function VariantsFrom(p: Parts, i: nat): seq<string> {
    (if Within(i, p.Mask()) then [p.Name(i)] else []) + if i == 0 then [] else VariantsFrom(p, i - 1)
  }

  function Variants(locale: string): seq<string> {
    var p := Explode(locale);
    VariantsFrom(p, p.Mask())
  }

  /** With or without one more component. */
  function Both(with: seq<string>, part: string, without: seq<string>): seq<string> {
    if part == "" then without else with + without
  }

  /** The variants by component, most specific first: those with the modifier before those without,
      among these those with the territory first, and among these those with the codeset first. */
  function ByComponent(p: Parts): seq<string> {
    Both(WithModifier(p, p.modifier), p.modifier, WithModifier(p, ""))
  }

  function WithModifier(p: Parts, m: string): seq<string> {
    Both(WithTerritory(p, p.territory, m), p.territory, WithTerritory(p, "", m))
  }

  function WithTerritory(p: Parts, t: string, m: string): seq<string> {
    Both([p.language + t + p.codeset + m], p.codeset, [p.language + t + "" + m])
  }

  /** The names of all masks of a set of components. */
  lemma NamesOf(p: Parts)
    ensures p.Name(0) == p.language + "" + "" + ""
    ensures p.Name(1) == p.language + "" + p.codeset + ""
    ensures p.Name(2) == p.language + p.territory + "" + ""
    ensures p.Name(3) == p.language + p.territory + p.codeset + ""
    ensures p.Name(4) == p.language + "" + "" + p.modifier
    ensures p.Name(5) == p.language + "" + p.codeset + p.modifier
    ensures p.Name(6) == p.language + p.territory + "" + p.modifier
    ensures p.Name(7) == p.language + p.territory + p.codeset + p.modifier
  {
  }

  lemma CountDown(p: Parts, i: nat)
    ensures VariantsFrom(p, i) ==
      (if Within(i, p.Mask()) then [p.Name(i)] else []) + if i == 0 then [] else VariantsFrom(p, i - 1)
  {
  }

  /** The masks below 4, those without the modifier. */
  lemma LowerMasks(p: Parts)
    ensures VariantsFrom(p, p.Mask() % 4) == WithModifier(p, "")
    ensures p.modifier != "" ==> VariantsFrom(p, 3) == WithModifier(p, "")
  {
    NamesOf(p);
    CountDown(p, 0);
    CountDown(p, 1);
    CountDown(p, 2);
    CountDown(p, 3);
    hide VariantsFrom;
  }

  /** The names with the modifier, by what other components there are. */
  function Upper(p: Parts): seq<string> {
    if p.territory != "" then
      if p.codeset != "" then [p.Name(7), p.Name(6), p.Name(5), p.Name(4)] else [p.Name(6), p.Name(4)]
    else if p.codeset != "" then [p.Name(5), p.Name(4)] else [p.Name(4)]
  }

  lemma UpperIs(p: Parts)
    ensures Upper(p) == WithModifier(p, p.modifier)
  {
    NamesOf(p);
  }

  lemma WithinUpper(p: Parts)
    requires p.modifier != ""
    ensures Within(4, p.Mask()) && (Within(5, p.Mask()) <==> p.codeset != "") && (Within(6, p.Mask()) <==> p.territory != "")
    ensures Within(7, p.Mask()) <==> p.codeset != "" && p.territory != ""
    ensures p.Mask() == 4 + (if p.codeset != "" then 1 else 0) + if p.territory != "" then 2 else 0
  {
  }

  lemma Stack(rest: seq<string>, n4: string, n5: string, n6: string, n7: string, b5: bool, b6: bool,
              v5: seq<string>, v6: seq<string>, v7: seq<string>)
    requires v5 == (if b5 then [n5] else []) + ([n4] + rest)
    requires v6 == (if b6 then [n6] else []) + v5
    requires v7 == (if b5 && b6 then [n7] else []) + v6
    ensures b5 && b6 ==> v7 == [n7, n6, n5, n4] + rest
    ensures !b5 && b6 ==> v6 == [n6, n4] + rest
    ensures b5 && !b6 ==> v5 == [n5, n4] + rest
  {
  }

  lemma UpperMasks(p: Parts)
    requires p.modifier != ""
    ensures VariantsFrom(p, p.Mask()) == Upper(p) + VariantsFrom(p, 3)
  {
    CountDown(p, 4);
    CountDown(p, 5);
    CountDown(p, 6);
    CountDown(p, 7);
    WithinUpper(p);
    hide VariantsFrom, Within;
    Stack(VariantsFrom(p, 3), p.Name(4), p.Name(5), p.Name(6), p.Name(7), p.codeset != "", p.territory != "",
          VariantsFrom(p, 5), VariantsFrom(p, 6), VariantsFrom(p, 7));
  }

  /** Counting the masks down visits exactly the sets of components that are there, most specific
      first. */
  lemma VariantsAre(p: Parts)
    ensures VariantsFrom(p, p.Mask()) == ByComponent(p)
  {
    LowerMasks(p);
    UpperIs(p);
    if p.modifier != "" { UpperMasks(p); }
    hide VariantsFrom, WithModifier, Upper;
  }

  /** A name with some of its components left out. */
  ghost predicate Picked(p: Parts, v: string, t: string, c: string, m: string) {
    t in {"", p.territory} && c in {"", p.codeset} && m in {"", p.modifier} && v == p.language + t + c + m
  }

  /** Every variant is the name with some of its components left out, and every such name is one. */
  lemma VariantsMember(p: Parts, v: string)
    ensures v in VariantsFrom(p, p.Mask()) <==>
      exists t, c, m :: Picked(p, v, t, c, m)
  {
    VariantsAre(p);
    hide VariantsFrom;
    MemberByComponent(p, v);
  }

  lemma MemberByComponent(p: Parts, v: string)
    ensures v in ByComponent(p) <==>
      exists t, c, m :: Picked(p, v, t, c, m)
  {
    if v in ByComponent(p) {
      var m := if v in WithModifier(p, p.modifier) then p.modifier else "";
      assert v in WithModifier(p, m);
      var t := if v in WithTerritory(p, p.territory, m) then p.territory else "";
      assert v in WithTerritory(p, t, m);
      var c := if v == p.language + t + p.codeset + m then p.codeset else "";
      assert Picked(p, v, t, c, m);
    }
    if t, c, m :| Picked(p, v, t, c, m) {
      assert v in WithTerritory(p, t, m);
      assert v in WithModifier(p, m);
    }
  }

  lemma {:induction false} VariantsEnds(p: Parts)
    ensures var vs := VariantsFrom(p, p.Mask());
      && vs != [] && vs[0] == p.language + p.territory + p.codeset + p.modifier
      && vs[|vs| - 1] == p.language
  {
    VariantsAre(p);
    assert p.language + "" + "" + "" == p.language;
  }

  /** compute_locale_variants: count the masks up, prepending. */
  method ComputeLocaleVariants(locale: string) returns (retval: seq<string>)
    ensures retval == Variants(locale)
  {
    var p := Explode(locale);
    var mask := p.Mask();
    retval := [];
    var i := 0;
    while i <= mask
      invariant 0 <= i <= mask + 1
      invariant retval == if i == 0 then [] else VariantsFrom(p, i - 1)
    {
      if Within(i, mask) {
        retval := [p.Name(i)] + retval;
      } else {
        assert [] + retval == retval;
      }
      i := i + 1;
    }
  }

  // Lists of names

  /** The names in a colon-separated list; empty ones are passed over. */
  function Names(s: string): seq<string>
    decreases |s|
  {
    if s == "" then []
    else if s[0] == ':' then Names(s[1..])
    else [s[..Find(s, 0, ':')]] + Names(s[Find(s, 0, ':')..])
  }

  function AllVariants(names: seq<string>): seq<string> {
    if names == [] then [] else Variants(names[0]) + AllVariants(names[1..])
  }

  /** gconf_split_locale */
  function Split(locale: Option<string>): seq<string> {
    var names := Names(if locale.Some? then locale.value else "C");
    AllVariants(names) + if "C" in names then [] else ["C"]
  }

  lemma {:induction false} AllVariantsMember(names: seq<string>, v: string)
    ensures v in AllVariants(names) <==> exists i :: 0 <= i < |names| && v in Variants(names[i])
  {
    if names != [] {
      AllVariantsMember(names[1..], v);
      assert forall i :: 1 <= i < |names| ==> names[i] == names[1..][i - 1];
      assert forall i :: 0 <= i < |names[1..]| ==> names[1..][i] == names[i + 1];
    }
  }

  /** The result holds "C", and for each name in the list its variants. */
  lemma SplitMember(locale: Option<string>, v: string)
    ensures var names := Names(if locale.Some? then locale.value else "C");
      v in Split(locale) <==> v == "C" || exists i :: 0 <= i < |names| && v in Variants(names[i])
  {
    var names := Names(if locale.Some? then locale.value else "C");
    AllVariantsMember(names, v);
    PlainC();
    hide Variants, Names, AllVariants;
  }

  lemma PlainC()
    ensures "C" in Variants("C")
  {
    ExplodePartitions("C");
    VariantsEnds(Explode("C"));
  }

  lemma {:induction false} AllVariantsAppend(names: seq<string>, name: string)
    ensures AllVariants(names + [name]) == AllVariants(names) + Variants(name)
  {
    if names == [] {
      assert names + [name] == [name];
      assert [name][1..] == [];
    } else {
      assert (names + [name])[1..] == names[1..] + [name];
      AllVariantsAppend(names[1..], name);
    }
  }

  lemma {:induction false} FindFrom(s: string, i: nat, c: char)
    requires i <= |s| && forall j :: 0 <= j < i ==> s[j] != c
    requires i < |s| ==> s[i] == c
    ensures Find(s, 0, c) == i
  {
  }

  /** One name of the list is at the front of what is left. */
  lemma NextName(s: string, pos: nat, end: nat)
    requires pos < end <= |s| && s[pos] != ':' && (forall j :: pos <= j < end ==> s[j] != ':') && (end < |s| ==> s[end] == ':')
    ensures Names(s[pos..]) == [s[pos..end]] + Names(s[end..])
  {
    var t := s[pos..];
    FindFrom(t, end - pos, ':');
    assert t[..end - pos] == s[pos..end] && t[end - pos..] == s[end..];
  }

  lemma SkipColon(s: string, pos: nat)
    requires pos < |s| && s[pos] == ':'
    ensures Names(s[pos..]) == Names(s[pos + 1..])
  {
    assert s[pos..][1..] == s[pos + 1..];
  }

  /** gconf_split_locale with its scratch buffer: every write stays within strlen + 1, because a name and
      its end take the place of a name and the colon after it. */
  method SplitLocale(locale: Option<string>) returns (vector: seq<string>)
    ensures vector == Split(locale) && vector != []
  {
    var s := if locale.Some? then locale.value else "C";
    var memory := new char[|s| + 1];
    var used: nat, pos: nat := 0, 0;
    var list: seq<string> := [];
    var cLocaleDefined := false;
    ghost var done: seq<string> := [];
    StartNames(s);
    hide Names, AllVariants, Variants;
    while pos < |s|
      invariant pos <= |s| && used <= pos + 1 && (pos < |s| && s[pos] != ':' ==> used <= pos)
      invariant done + Names(s[pos..]) == Names(s)
      invariant list == AllVariants(done) && (cLocaleDefined <==> "C" in done)
      decreases |s| - pos
    {
      pos := SkipColons(s, pos);
      if pos < |s| {
        var name;
        ghost var start := pos;
        name, pos, used := CopyName(s, pos, memory, used);
        NextName(s, start, pos);
        AllVariantsAppend(done, name);
        MoveName(done, name, Names(s[pos..]));
        done := done + [name];
        if name == "C" { cLocaleDefined := true; }
        var variants := ComputeLocaleVariants(name);
        list := list + variants;
      }
    }
    EndNames(s, pos, done);
    vector := list + if cLocaleDefined then [] else ["C"];
    SplitMember(locale, "C");
  }

  lemma StartNames(s: string)
    ensures [] + Names(s[0..]) == Names(s) && AllVariants([]) == []
  {
    assert s[0..] == s;
  }

  lemma EndNames(s: string, pos: nat, done: seq<string>)
    requires pos == |s| && done + Names(s[pos..]) == Names(s)
    ensures done == Names(s)
  {
    assert s[pos..] == "" && done + [] == done;
  }

  lemma MoveName(done: seq<string>, name: string, rest: seq<string>)
    ensures done + ([name] + rest) == (done + [name]) + rest
  {
  }

  method SkipColons(s: string, from: nat) returns (pos: nat)
    requires from <= |s|
    ensures from <= pos <= |s| && (pos < |s| ==> s[pos] != ':') && Names(s[pos..]) == Names(s[from..])
    ensures from < |s| && s[from] == ':' ==> pos > from
  {
    pos := from;
    while pos < |s| && s[pos] == ':'
      invariant from <= pos <= |s| && Names(s[pos..]) == Names(s[from..])
      invariant from < |s| && s[from] == ':' && pos == from ==> s[pos] == ':'
      decreases |s| - pos
    {
      SkipColon(s, pos);
      pos := pos + 1;
    }
  }

  /** Copy a name into the scratch buffer. */
  method CopyName(s: string, from: nat, memory: array<char>, at: nat) returns (name: string, pos: nat, used: nat)
    requires at <= from < |s| && memory.Length == |s| + 1 && s[from] != ':'
    modifies memory
    ensures from < pos <= |s| && (forall j :: from <= j < pos ==> s[j] != ':') && (pos < |s| ==> s[pos] == ':')
    ensures name == s[from..pos] && used == at + (pos - from) + 1 <= memory.Length
    ensures memory[at..used] == name + ['\0'] && memory[..at] == old(memory[..at])
  {
    pos, used := from, at;
    while pos < |s| && s[pos] != ':'
      invariant from <= pos <= |s| && used == at + (pos - from)
      invariant forall j :: from <= j < pos ==> s[j] != ':'
      invariant forall j :: at <= j < used ==> memory[j] == s[from + j - at]
      invariant forall j :: 0 <= j < at ==> memory[j] == old(memory[j])
      decreases |s| - pos
    {
      memory[used] := s[pos];
      used, pos := used + 1, pos + 1;
    }
    memory[used] := '\0';
    name := memory[at..used];
    used := used + 1;
  }
}
