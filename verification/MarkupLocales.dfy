/** Loading the descriptions of other locales on demand (load_subtree, ensure_schema_descs_loaded,
    markup_entry_get_value), and what becomes of a tree that was written to a main file and one file
    per locale. */
module MarkupLocales {
  import opened Basics
  import opened Values
  import opened MarkupTypes
  import opened MarkupPrinter
  import opened MarkupEntries
  import opened MarkupLocaleFiles
  import M = MarkupParser
  import R = MarkupRoundTrip
  import S = MarkupSync

  // The tree after the main file and some locale files

  function LoadedEntry(e: Entry, order: seq<string>): Entry
    requires R.RereadEntry(e, true).Some?
  {
    if order == [] then R.RereadEntry(e, true).value
    else MergeEntry(LoadedEntry(e, order[..|order| - 1]), e, order[|order| - 1])
  }

  function LoadedDir(d: Dir, order: seq<string>): (r: Dir)
    requires R.RereadDir(d).Some?
    ensures SameShape(r, d)
    decreases order
  {
    RereadShape(d);
    if order == [] then R.RereadDir(d).value
    else
      var before := LoadedDir(d, order[..|order| - 1]);
      MergeKeepsShape(before, d, order[|order| - 1]);
      MergeDir(before, d, order[|order| - 1])
  }

  lemma {:induction false} RereadShape(d: Dir)
    requires R.RereadDir(d).Some?
    ensures SameShape(R.RereadDir(d).value, d)
    decreases d, 1
  {
    RereadEntriesAt(d.entries);
    RereadShapes(d.subdirs);
  }

  lemma {:induction false} RereadShapes(ds: seq<Dir>)
    requires R.RereadDirs(ds).Some?
    ensures SameShapes(R.RereadDirs(ds).value, ds)
    ensures forall i :: 0 <= i < |ds| ==> R.RereadDir(ds[i]) == Some(R.RereadDirs(ds).value[i])
    decreases ds, 0
  {
    if ds != [] {
      RereadShape(ds[0]);
      RereadShapes(ds[1..]);
    }
  }

  lemma {:induction false} RereadEntriesAt(es: seq<Entry>)
    requires R.RereadEntries(es, true).Some?
    ensures |R.RereadEntries(es, true).value| == |es|
    ensures SameEntries(R.RereadEntries(es, true).value, es)
    ensures forall i :: 0 <= i < |es| ==> R.RereadEntry(es[i], true) == Some(R.RereadEntries(es, true).value[i])
  {
    if es != [] { RereadEntriesAt(es[1..]); }
  }

  lemma {:induction false} MergeDirsAt(ds: seq<Dir>, from: seq<Dir>, locale: string)
    requires SameShapes(ds, from)
    ensures forall i :: 0 <= i < |ds| ==> MergeDirs(ds, from, locale)[i] == MergeDir(ds[i], from[i], locale)
  {
    if from != [] { MergeDirsAt(ds[1..], from[1..], locale); }
  }

  /** What is loaded into a tree is loaded into each of its parts. */
  lemma {:induction false} LoadedParts(d: Dir, order: seq<string>)
    requires R.RereadDir(d).Some?
    ensures forall i :: 0 <= i < |d.entries| ==>
      R.RereadEntry(d.entries[i], true).Some? && LoadedDir(d, order).entries[i] == LoadedEntry(d.entries[i], order)
    ensures forall i :: 0 <= i < |d.subdirs| ==>
      R.RereadDir(d.subdirs[i]).Some? && LoadedDir(d, order).subdirs[i] == LoadedDir(d.subdirs[i], order)
  {
    RereadEntriesAt(d.entries);
    RereadShapes(d.subdirs);
    if order != [] {
      var before := order[..|order| - 1];
      LoadedParts(d, before);
      MergeDirsAt(LoadedDir(d, before).subdirs, d.subdirs, order[|order| - 1]);
    }
  }

  lemma LoadOneMore(d: Dir, order: seq<string>, locale: string)
    requires R.RereadDir(d).Some?
    ensures LoadedDir(d, order + [locale]) == MergeDir(LoadedDir(d, order), d, locale)
  {
    var longer := order + [locale];
    assert longer[..|longer| - 1] == order;
  }

  // Finding an entry

  function EntryAt(d: Dir, rel: seq<string>, key: string): Option<Entry>
    decreases |rel|
  {
    if rel == [] then
      match S.FindEntry(d.entries, key)
      case None => None
      case Some(i) => if i < |d.entries| then Some(d.entries[i]) else None
    else
      match FindSubdir(d.subdirs, rel[0])
      case None => None
      case Some(i) => if i < |d.subdirs| then EntryAt(d.subdirs[i], rel[1..], key) else None
  }

  lemma {:induction false} SameFind(a: seq<Entry>, b: seq<Entry>, name: string)
    requires SameEntries(a, b)
    ensures S.FindEntry(a, name) == S.FindEntry(b, name)
  {
    if a != [] { SameFind(a[1..], b[1..], name); }
  }

  lemma {:induction false} SameFindDir(a: seq<Dir>, b: seq<Dir>, name: string)
    requires SameShapes(a, b)
    ensures FindSubdir(a, name) == FindSubdir(b, name)
  {
    if a != [] { SameFindDir(a[1..], b[1..], name); }
  }

  lemma {:induction false} LoadedAt(d: Dir, rel: seq<string>, key: string, order: seq<string>)
    requires R.RereadDir(d).Some? && EntryAt(d, rel, key).Some?
    ensures R.RereadEntry(EntryAt(d, rel, key).value, true).Some?
    ensures EntryAt(LoadedDir(d, order), rel, key) == Some(LoadedEntry(EntryAt(d, rel, key).value, order))
    decreases |rel|
  {
    LoadedParts(d, order);
    var now := LoadedDir(d, order);
    if rel == [] {
      SameFind(now.entries, d.entries, key);
    } else {
      SameFindDir(now.subdirs, d.subdirs, rel[0]);
      LoadedAt(d.subdirs[FindSubdir(d.subdirs, rel[0]).value], rel[1..], key, order);
    }
  }

  lemma {:induction false} DescribedHasFile(d: Dir, rel: seq<string>, key: string, locale: string)
    requires EntryAt(d, rel, key).Some? && Described(EntryAt(d, rel, key).value, locale)
    ensures HasFile(d, locale)
    decreases |rel|
  {
    if rel == [] {
      assert Described(d.entries[S.FindEntry(d.entries, key).value], locale);
    } else {
      var i := FindSubdir(d.subdirs, rel[0]).value;
      DescribedHasFile(d.subdirs[i], rel[1..], key, locale);
    }
  }

  // One local schema through all of that

  lemma {:induction false} FindAppend(locals: seq<LocalSchema>, x: LocalSchema, locale: string)
    ensures LocalFor(locals + [x], locale) ==
      if LocalFor(locals, locale).Some? then LocalFor(locals, locale)
      else if x.locale == locale then Some(x) else None
  {
    if locals == [] {
      assert locals + [x] == [x];
    } else {
      assert (locals + [x])[1..] == locals[1..] + [x];
      FindAppend(locals[1..], x, locale);
      FindLocalBound(locals, locale);
      FindLocalBound(locals[1..], locale);
      FindLocalBound(locals + [x], locale);
      FindLocalBound(locals[1..] + [x], locale);
    }
  }

  lemma {:induction false} FindUpdated(locals: seq<LocalSchema>, i: nat, x: LocalSchema, locale: string)
    requires i < |locals| && x.locale == locals[i].locale
    ensures FindLocal(locals[i := x], locale) == FindLocal(locals, locale)
  {
    if i > 0 {
      assert locals[i := x][1..] == locals[1..][i - 1 := x];
      FindUpdated(locals[1..], i - 1, x, locale);
    } else {
      assert locals[0 := x][1..] == locals[1..];
    }
  }

  /** What a merge leaves for each locale. */
  lemma MergedFor(locals: seq<LocalSchema>, ls: LocalSchema, locale: string)
    ensures LocalFor(MergeLocal(locals, ls), locale) ==
      if locale != ls.locale then LocalFor(locals, locale)
      else match LocalFor(locals, locale)
           case None => Some(ls)
           case Some(had) => Some(had.(shortDesc := ls.shortDesc, longDesc := None))
  {
    FindLocalBound(locals, ls.locale);
    FindLocalBound(locals, locale);
    match FindLocal(locals, ls.locale)
    case None => FindAppend(locals, ls, locale);
    case Some(i) =>
      FindUpdated(locals, i, locals[i].(shortDesc := ls.shortDesc, longDesc := None), locale);
  }

  /** No local schema of this locale has a default. */
  predicate NoDefault(locals: seq<LocalSchema>, locale: string) {
    forall i :: 0 <= i < |locals| && locals[i].locale == locale ==> locals[i].default == None
  }

  /** What the main file keeps of a local schema. */
  function MainLocal(ls: LocalSchema): Option<LocalSchema>
    requires R.RereadOptValue(ls.default).Some?
  {
    var default := R.RereadOptValue(ls.default).value;
    if ls.locale == "C" then
      Some(LocalSchema("C", ls.shortDesc, R.RereadLongDesc(ls.longDesc), default))
    else if ls.default == None then None
    else Some(LocalSchema(ls.locale, None, None, default))
  }

  lemma {:induction false} MainFor(locals: seq<LocalSchema>, locale: string)
    requires R.RereadLocals(locals, true).Some?
    requires OnePerLocale(locals) || locale == "C" || NoDefault(locals, locale)
    ensures var was := LocalFor(locals, locale);
      && (was.Some? ==> R.RereadOptValue(was.value.default).Some?)
      && LocalFor(R.RereadLocals(locals, true).value, locale)
         == if was == None then None else MainLocal(was.value)
  {
    if locals != [] {
      LocalForRest(locals, locale);
      MainFor(locals[1..], locale);
      var first := R.RereadLocal(locals[0], locals[0].locale == "C").value;
      var rest := R.RereadLocals(locals[1..], true).value;
      if first == [] {
        assert first + rest == rest;
        if locals[0].locale == locale { LocalForNone(locals[1..], locale); AllDropped(locals[1..], locale); }
      } else {
        LocalForRest(first + rest, locale);
        assert (first + rest)[1..] == rest;
      }
    }
  }

  /** A locale that has no default left has nothing left in the main file. */
  lemma {:induction false} AllDropped(locals: seq<LocalSchema>, locale: string)
    requires R.RereadLocals(locals, true).Some? && locale != "C" && NoDefault(locals, locale)
    ensures LocalFor(R.RereadLocals(locals, true).value, locale) == None
  {
    if locals != [] {
      AllDropped(locals[1..], locale);
      var first := R.RereadLocal(locals[0], locals[0].locale == "C").value;
      var rest := R.RereadLocals(locals[1..], true).value;
      if first == [] {
        assert first + rest == rest;
      } else {
        LocalForRest(first + rest, locale);
        assert (first + rest)[1..] == rest;
      }
    }
  }

  /** The local schema of a locale after the main file and then the files of `order'. */
  function LoadedLocal(main: Option<LocalSchema>, file: Option<LocalSchema>): Option<LocalSchema> {
    if file == None then main
    else if main == None then file
    else Some(main.value.(shortDesc := file.value.shortDesc, longDesc := None))
  }

  lemma LastIsNew(order: seq<string>)
    requires order != [] && NoDup(order)
    ensures var before, last := order[..|order| - 1], order[|order| - 1];
      NoDup(before) && last !in before && forall l :: l in order <==> l in before || l == last
  {
    var before, last := order[..|order| - 1], order[|order| - 1];
    assert order == before + [last];
  }

  lemma {:induction false} LoadedFor(e: Entry, order: seq<string>, locale: string)
    requires IsSchema(e) && R.RereadEntry(e, true).Some? && NoDup(order)
    ensures IsSchema(LoadedEntry(e, order)) && LoadedEntry(e, order).value == R.RereadValue(e.value.value)
    ensures LocalFor(LoadedEntry(e, order).localSchemas, locale) ==
      LoadedLocal(LocalFor(R.RereadLocals(e.localSchemas, true).value, locale),
                  if locale in order then FileDesc(e, locale) else None)
  {
    if order != [] {
      var before, last := order[..|order| - 1], order[|order| - 1];
      LoadedFor(e, before, locale);
      LastIsNew(order);
      LocalForNone(e.localSchemas, last);
      hide NoDup, FindLocal, R.RereadEntry, R.RereadLocals, R.RereadValue;
      if FileDesc(e, last).Some? {
        MergedFor(LoadedEntry(e, before).localSchemas, FileDesc(e, last).value, locale);
      }
    }
  }

  /** What a local schema needs to come back unchanged. */
  predicate Survives(ls: LocalSchema, fileLoaded: bool) {
    && (ls.default.Some? ==> R.ValueReadable(ls.default.value))
    && (if ls.locale == "C" then ls.longDesc.Some? ==> !Blank(ls.longDesc.value)
        else if !fileLoaded then ls.default.Some? && ls.shortDesc == None && ls.longDesc == None
        else if ls.default.Some? then ls.longDesc == None
        else ls.longDesc.Some? ==> !Blank(ls.longDesc.value))
  }

  /** A local schema comes back from the files exactly then: in particular one of another locale with
      both a default and a long description loses the description. */
  lemma LocalSurvives(e: Entry, order: seq<string>, locale: string)
    requires IsSchema(e) && R.RereadEntry(e, true).Some? && NoDup(order) && "C" !in order
    requires OnePerLocale(e.localSchemas) && LocalFor(e.localSchemas, locale).Some?
    ensures LocalFor(LoadedEntry(e, order).localSchemas, locale) == LocalFor(e.localSchemas, locale)
      <==> Survives(LocalFor(e.localSchemas, locale).value, locale in order)
  {
    LocalForNone(e.localSchemas, locale);
    LoadedFor(e, order, locale);
    MainFor(e.localSchemas, locale);
    var ls := LocalFor(e.localSchemas, locale).value;
    if ls.default.Some? { R.ValueFixed(ls.default.value); }
  }

  // Answers

  /** Everything the entry says can be written: values readable, long descriptions not blank, and other
      locales than "C" have no default and a full description. */
  predicate Localizable(e: Entry) {
    && (e.value.Some? ==> R.ValueReadable(e.value.value))
    && forall i :: 0 <= i < |e.localSchemas| ==> LocalWritable(e.localSchemas[i])
  }

  predicate LocalWritable(ls: LocalSchema) {
    && (ls.default.Some? ==> ls.locale == "C" && R.ValueReadable(ls.default.value))
    && (ls.longDesc.Some? ==> !Blank(ls.longDesc.value))
    && (ls.locale != "C" ==> ls.shortDesc.Some? && ls.longDesc.Some?)
  }

  /** Once its file is loaded, or if there is none, a locale says what it said before. */
  lemma WritableKept(d: Dir, rel: seq<string>, key: string, order: seq<string>, locale: string)
    requires R.RereadDir(d).Some? && NoDup(order) && "C" !in order
    requires EntryAt(d, rel, key).Some?
    requires locale in order || !HasFile(d, locale)
    requires var e := EntryAt(d, rel, key).value;
      Localizable(e) && IsSchema(e) && R.RereadEntry(e, true).Some?
    ensures var e := EntryAt(d, rel, key).value;
      LocalFor(LoadedEntry(e, order).localSchemas, locale) == LocalFor(e.localSchemas, locale)
  {
    var e := EntryAt(d, rel, key).value;
    LocalForNone(e.localSchemas, locale);
    LoadedFor(e, order, locale);
    MainFor(e.localSchemas, locale);
    if LocalFor(e.localSchemas, locale).Some? {
      var ls := LocalFor(e.localSchemas, locale).value;
      var i :| 0 <= i < |e.localSchemas| && e.localSchemas[i] == ls;
      assert LocalWritable(e.localSchemas[i]);
      if ls.default.Some? { R.ValueFixed(ls.default.value); }
      if locale != "C" && locale !in order {
        assert Described(e, locale);
        DescribedHasFile(d, rel, key, locale);
      }
    }
  }

  /** The long description that stands in when a locale has none. */
  function StandIn(e: Entry): Option<string>
    requires IsSchema(e)
  {
    var c := LocalFor(e.localSchemas, "C");
    Fallback(None, if c.Some? then c.value.longDesc else None, e.value.value.schema.longDesc)
  }

  function LongDescOf(answer: Option<Value>): Option<string> {
    if answer.Some? && answer.value.SchemaValue? then answer.value.schema.longDesc else None
  }

  lemma BestOfOne(locals: seq<LocalSchema>, locale: string)
    ensures BestLocal(locals, [locale]) == LocalFor(locals, locale)
  {
    assert [locale][1..] == [];
  }

  /** With every locale loaded that is asked for, the same locale is the best one as before. */
  lemma {:induction false} BestLoaded(e: Entry, order: seq<string>, locales: seq<string>)
    requires IsSchema(e) && R.RereadEntry(e, true).Some? && OnePerLocale(e.localSchemas)
    requires NoDup(order) && "C" !in order
    requires forall l :: l in locales && LocalFor(e.localSchemas, l).Some? ==> l == "C" || l in order
    ensures var best := BestLocal(e.localSchemas, locales);
      BestLocal(LoadedEntry(e, order).localSchemas, locales) ==
        if best == None then None else LocalFor(LoadedEntry(e, order).localSchemas, best.value.locale)
  {
    if locales != [] {
      var l := locales[0];
      assert l in locales;
      LocalForNone(e.localSchemas, l);
      LoadedFor(e, order, l);
      MainFor(e.localSchemas, l);
      assert LocalFor(LoadedEntry(e, order).localSchemas, l).Some? <==> LocalFor(e.localSchemas, l).Some?;
      BestLoaded(e, order, locales[1..]);
    }
  }

  /** Asked for a list of locales whose files are loaded, a reloaded schema gives another long
      description than before exactly if the best locale is not "C" and has both a default and a long
      description, and what stands in for it differs. */
  lemma LongDescLost(e: Entry, order: seq<string>, locales: seq<string>)
    requires IsSchema(e) && R.RereadEntry(e, true).Some? && R.ValueReadable(e.value.value)
    requires NoDup(order) && "C" !in order && OnePerLocale(e.localSchemas)
    requires forall i :: 0 <= i < |e.localSchemas| && e.localSchemas[i].longDesc.Some? ==>
      !Blank(e.localSchemas[i].longDesc.value)
    requires forall l :: l in locales && LocalFor(e.localSchemas, l).Some? ==> l == "C" || l in order
    ensures LongDescOf(EntryValue(LoadedEntry(e, order), locales)) != LongDescOf(EntryValue(e, locales))
      <==> var best := BestLocal(e.localSchemas, if locales == [] then ["C"] else locales);
           best.Some? && LosesLongDesc(e, best.value)
  {
    var wanted := if locales == [] then ["C"] else locales;
    BestLoaded(e, order, wanted);
    BestIsFor(e.localSchemas, wanted);
    var best := BestLocal(e.localSchemas, wanted);
    LoadedFor(e, order, "C");
    LocalForNone(e.localSchemas, "C");
    MainFor(e.localSchemas, "C");
    if best.Some? {
      LocalForNone(e.localSchemas, best.value.locale);
      LoadedFor(e, order, best.value.locale);
      MainFor(e.localSchemas, best.value.locale);
    }
    R.ValueFixed(e.value.value);
  }

  predicate LosesLongDesc(e: Entry, ls: LocalSchema)
    requires IsSchema(e)
  {
    ls.locale != "C" && ls.default.Some? && ls.longDesc.Some? && StandIn(e) != ls.longDesc
  }

  lemma {:induction false} BestIsFor(locals: seq<LocalSchema>, locales: seq<string>)
    ensures var best := BestLocal(locals, locales);
      best.Some? ==> best.value.locale in locales && LocalFor(locals, best.value.locale) == best
  {
    if locales != [] {
      LocalForNone(locals, locales[0]);
      BestIsFor(locals, locales[1..]);
    }
  }

  const LOSING := Entry(
    "k", Some(SchemaValue(Schema(TInt, TInvalid, TInvalid, TInvalid, None, None, None, None, None))),
    [LocalSchema("de", Some("kurz"), Some("lang"), Some(IntValue(1)))], None, None, 0)

  /** Such an entry: a default and both descriptions in one other locale. */
  lemma LongDescLostExample()
    ensures Described(LOSING, "de") && R.RereadEntry(LOSING, true).Some?
    ensures LongDescOf(EntryValue(LOSING, ["de"])) == Some("lang")
    ensures LongDescOf(EntryValue(LoadedEntry(LOSING, ["de"]), ["de"])) == None
  {
    var ls := LOSING.localSchemas[0];
    assert |"C"| == 1 && |"de"| == 2;
    assert FullFor(ls, "de") && "de" != "C";
    assert [ls][1..] == [] && LOSING.localSchemas == [ls];
    BestOfOne(LOSING.localSchemas, "de");
    LocalForRest([ls], "de");
    LocalForRest([ls], "C");
    assert LocalFor([ls], "C") == None;
    assert R.RereadOptValue(Some(IntValue(1))) == Some(Some(IntValue(1)));
    var main := R.RereadEntry(LOSING, true).value;
    assert main.localSchemas == [LocalSchema("de", None, None, Some(IntValue(1)))];
    assert ["de"][..0] == [];
    var loaded := LoadedEntry(LOSING, ["de"]);
    assert loaded.localSchemas == [LocalSchema("de", Some("kurz"), None, Some(IntValue(1)))];
    BestOfOne(loaded.localSchemas, "de");
    LocalForRest(loaded.localSchemas, "de");
    LocalForRest(loaded.localSchemas, "C");
  }

  lemma {:induction false} BestAppend(locals: seq<LocalSchema>, a: seq<string>, b: seq<string>)
    ensures BestLocal(locals, a + b) ==
      if BestLocal(locals, a).Some? then BestLocal(locals, a) else BestLocal(locals, b)
  {
    if a == [] {
      assert a + b == b;
    } else {
      assert (a + b)[1..] == a[1..] + b;
      BestAppend(locals, a[1..], b);
    }
  }

  lemma BestNext(locals: seq<LocalSchema>, wanted: seq<string>, i: nat)
    requires i < |wanted|
    ensures BestLocal(locals, wanted[..i + 1]) ==
      if BestLocal(locals, wanted[..i]).Some? then BestLocal(locals, wanted[..i]) else LocalFor(locals, wanted[i])
    ensures BestLocal(locals, wanted[..i]).Some? ==> BestLocal(locals, wanted) == BestLocal(locals, wanted[..i])
  {
    BestAppend(locals, wanted[..i], [wanted[i]]);
    BestOfOne(locals, wanted[i]);
    assert wanted[..i + 1] == wanted[..i] + [wanted[i]];
    BestAppend(locals, wanted[..i], wanted[i..]);
    assert wanted == wanted[..i] + wanted[i..];
  }

  // On demand

  /** One scan over the local schemas of an entry, for the wanted locale and for "C". */
  method ScanLocals(locals: seq<LocalSchema>, locale: string, best0: Option<LocalSchema>, c0: Option<LocalSchema>)
    returns (best: Option<LocalSchema>, c: Option<LocalSchema>)
    ensures best == if best0.Some? then best0 else LocalFor(locals, locale)
    ensures c == if c0.Some? then c0 else LocalFor(locals, "C")
  {
    best, c := best0, c0;
    var tmp := 0;
    assert locals[0..] == locals;
    while tmp < |locals|
      invariant 0 <= tmp <= |locals|
      invariant (if best.Some? then best else LocalFor(locals[tmp..], locale))
        == if best0.Some? then best0 else LocalFor(locals, locale)
      invariant (if c.Some? then c else LocalFor(locals[tmp..], "C"))
        == if c0.Some? then c0 else LocalFor(locals, "C")
    {
      var lsi := locals[tmp];
      LocalForRest(locals[tmp..], locale);
      LocalForRest(locals[tmp..], "C");
      assert locals[tmp..][1..] == locals[tmp + 1..];
      if c == None && lsi.locale == "C" {
        c := Some(lsi);
        if best.Some? { break; }
      }
      if best == None && locale == lsi.locale {
        best := Some(lsi);
        if c.Some? { break; }
      }
      tmp := tmp + 1;
    }
  }

  /** Files that were written for locales of a tree, whatever their layout. */
  ghost predicate FilesOf(d: Dir, files: map<string, seq<Event>>) {
    forall locale :: locale in files ==>
      HasFile(d, locale) && R.NoBlank(files[locale]) == R.NoBlank(LocaleFile(d, locale))
  }

  /** One for each locale that save_tree found. */
  ghost predicate Complete(d: Dir, files: map<string, seq<Event>>) {
    forall locale: string :: HasFile(d, locale) ==> locale in files
  }

  lemma MainLoads(ft: FloatText, d: Dir, main: seq<Event>)
    requires ft.Faithful() && R.RereadDir(d).Some?
    requires R.NoBlank(main) == R.NoBlank(FileEvents(ft, d, true))
    ensures R.LoadFile(Dir(d.name, [], []), true, ft, main) == M.Tree(LoadedDir(d, []))
  {
    R.LoadPrinted(ft, Dir(d.name, [], []), d, true, main);
    var read := R.RereadDir(d).value;
    assert R.RereadFile(d, true) == Some(read);
    assert Reverse([]) + read.subdirs == read.subdirs;
  }

  /** A merged tree in memory, over the files that were written for `original'. */
  class MergedTree {
    ghost const original: Dir
    const files: map<string, seq<Event>>
    var root: Dir
    var availableLocalDescs: map<string, bool>
    var allLocalDescsLoaded: bool
    ghost var order: seq<string>        // the locales loaded so far

    ghost predicate Valid()
      reads this
    {
      && Unique(original) && R.RereadDir(original).Some? && FilesOf(original, files)
      && root == LoadedDir(original, order)
      && NoDup(order)
      && availableLocalDescs.Keys == files.Keys
      && (forall locale :: locale in order <==> locale in availableLocalDescs && availableLocalDescs[locale])
      && (allLocalDescsLoaded ==> forall locale :: locale in availableLocalDescs ==> availableLocalDescs[locale])
    }

    /** load_subtree: read the main file and list the others. */
    constructor (ft: FloatText, ghost d: Dir, name: string, main: seq<Event>, files: map<string, seq<Event>>)
      requires ft.Faithful() && Unique(d) && R.RereadDir(d).Some? && d.name == name
      requires R.NoBlank(main) == R.NoBlank(FileEvents(ft, d, true)) && FilesOf(d, files)
      ensures Valid() && original == d && this.files == files && order == []
    {
      hide FilesOf, Unique, R.LoadFile, R.NoBlank, FileEvents, LoadedDir, R.RereadDir, SameShape;
      MainLoads(ft, d, main);
      var loaded := R.LoadFile(Dir(name, [], []), true, ft, main);
      root := if loaded.Tree? then loaded.root else Dir(name, [], []);
      original := d;
      this.files := files;
      order := [];
      availableLocalDescs := map locale | locale in files :: false;
      allLocalDescsLoaded := files == map[];
    }

    /** load_schema_descs_for_locale */
    method LoadSchemaDescsForLocale(locale: string)
      requires Valid() && locale in availableLocalDescs && !availableLocalDescs[locale]
      modifies this`root, this`availableLocalDescs, this`order
      ensures Valid() && order == old(order) + [locale]
      ensures availableLocalDescs == old(availableLocalDescs)[locale := true]
    {
      hide Unique, R.RereadDir, LoadedDir, HasFile, LocaleFile, ReadLocale, SameShape;
      FileNotEmpty(original, locale);
      ReadLocaleFile(root, original, locale, files[locale]);
      var loaded := ReadLocale(root, locale, files[locale]);
      LoadOneMore(original, order, locale);
      if loaded.Tree? { root := loaded.root; }
      order := order + [locale];
      availableLocalDescs := availableLocalDescs[locale := true];
    }

    /** ensure_schema_descs_loaded for one locale */
    method EnsureSchemaDescsLoaded(locale: string)
      requires Valid()
      modifies this
      ensures Valid()
      ensures old(order) <= order
      ensures locale in order || locale !in files
    {
      hide Unique, R.RereadDir, LoadedDir, HasFile, LocaleFile;
      if allLocalDescsLoaded { return; }
      if locale !in availableLocalDescs { return; }
      if availableLocalDescs[locale] { return; }
      LoadSchemaDescsForLocale(locale);
      var anyUnloaded := exists l :: l in availableLocalDescs && !availableLocalDescs[l];
      if !anyUnloaded { allLocalDescsLoaded := true; }
    }

    /** ensure_schema_descs_loaded without a locale: all that are left, in any order. */
    method EnsureAllSchemaDescsLoaded()
      requires Valid()
      modifies this
      ensures Valid() && allLocalDescsLoaded
      ensures forall locale :: locale in files ==> locale in order
    {
      hide Unique, R.RereadDir, LoadedDir, HasFile, LocaleFile, SameShape;
      if allLocalDescsLoaded { return; }
      var left := availableLocalDescs.Keys;
      while left != {}
        invariant Valid() && !allLocalDescsLoaded && left <= availableLocalDescs.Keys
        invariant forall locale :: locale in availableLocalDescs && locale !in left ==> availableLocalDescs[locale]
        decreases |left|
      {
        var locale :| locale in left;
        left := left - {locale};
        if !availableLocalDescs[locale] { LoadSchemaDescsForLocale(locale); }
      }
      allLocalDescsLoaded := true;
    }

    /** markup_entry_get_value: although the descriptions are in other files and only those needed are
        read, the answer is that of the tree with all files loaded; for an entry of which everything can
        be written, and if every file was, it is that of the tree that was written. */
    method GetValue(rel: seq<string>, key: string, locales: seq<string>) returns (r: Option<Value>)
      requires Valid() && EntryAt(original, rel, key).Some?
      modifies this
      ensures Valid() && R.RereadEntry(EntryAt(original, rel, key).value, true).Some?
      ensures forall all :: Listed(files, all) ==>
        && r == EntryValue(LoadedEntry(EntryAt(original, rel, key).value, all), locales)
        && Answers(LoadedEntry(EntryAt(original, rel, key).value, all), locales, r)
      ensures Localizable(EntryAt(original, rel, key).value) && Complete(original, files) ==>
        && r == EntryValue(EntryAt(original, rel, key).value, locales)
        && Answers(EntryAt(original, rel, key).value, locales, r)
    {
      ghost var e := EntryAt(original, rel, key).value;
      LoadedAt(original, rel, key, order);
      var entry := EntryAt(root, rel, key).value;
      ghost var all := Enumerate(files.Keys);
      LoadedValue(e, order);
      LoadedValue(e, all);
      AnswersAgree(original, files, rel, key, all, locales);
      if entry.value == None { return None; }
      if !entry.value.value.SchemaValue? { return entry.value; }
      SchemaLoaded(e);
      hide LoadedEntry, LoadedDir, EntryAt, Localizable, Localize, BestLocal, LocalFor, Listed, Complete, R.RereadEntry;
      var best, c := FindBest(e, all, rel, key, if locales == [] then ["C"] else locales);
      return Some(SchemaValue(Localize(entry.value.value.schema, best, c)));
    }

    /** The loop of markup_entry_get_value over the locales. */
    method FindBest(ghost e: Entry, ghost all: seq<string>, rel: seq<string>, key: string, locales: seq<string>)
      returns (best: Option<LocalSchema>, c: Option<LocalSchema>)
      requires Valid() && EntryAt(original, rel, key) == Some(e) && IsSchema(e) && locales != []
      requires R.RereadEntry(e, true).Some? && Listed(files, all)
      modifies this
      ensures Valid()
      ensures best == BestLocal(LoadedEntry(e, all).localSchemas, locales)
      ensures c == LocalFor(LoadedEntry(e, all).localSchemas, "C")
    {
      hide *;
      best, c := None, None;
      var i := 0;
      ghost var complete := LoadedEntry(e, all).localSchemas;
      NothingTried(complete, locales);
      while i < |locales| && (best == None || c == None)
        invariant Valid() && 0 <= i <= |locales|
        invariant best == BestLocal(complete, locales[..i])
        invariant c == if i == 0 then None else LocalFor(complete, "C")
      {
        var locals := EnsureAndList(e, all, rel, key, locales[i]);
        BestNext(complete, locales, i);
        best, c := ScanLocals(locals, locales[i], best, c);
        i := i + 1;
      }
      if i < |locales| { BestNext(complete, locales, i); } else { assert locales[..i] == locales; }
    }

    /** Load the descriptions for a locale and list the local schemas of an entry: those of "C" and of
        the locale are as if all files were loaded. */
    method EnsureAndList(ghost e: Entry, ghost all: seq<string>, rel: seq<string>, key: string, locale: string)
      returns (locals: seq<LocalSchema>)
      requires Valid() && EntryAt(original, rel, key) == Some(e) && IsSchema(e)
      requires R.RereadEntry(e, true).Some? && Listed(files, all)
      modifies this
      ensures Valid()
      ensures LocalFor(locals, locale) == LocalFor(LoadedEntry(e, all).localSchemas, locale)
      ensures LocalFor(locals, "C") == LocalFor(LoadedEntry(e, all).localSchemas, "C")
    {
      EnsureSchemaDescsLoaded(locale);
      NoFileForC(original);
      assert (locale in order <==> locale in files) && "C" !in files && "C" !in order;
      hide LocalFor, LoadedEntry, LoadedDir, EntryAt, HasFile, R.RereadEntry, R.RereadDir, Unique, SameShape;
      LoadedAt(original, rel, key, order);
      LoadedAlike(e, order, all, locale);
      LoadedAlike(e, order, all, "C");
      locals := EntryAt(root, rel, key).value.localSchemas;
    }
  }

  lemma NothingTried(locals: seq<LocalSchema>, locales: seq<string>)
    ensures BestLocal(locals, locales[..0]) == None
  {
  }

  lemma {:induction false} NoFileForC(d: Dir)
    ensures !HasFile(d, "C")
  {
    if HasFile(d, "C") { FileNotEmpty(d, "C"); }
  }

  /** The locales that have a file, in some order. */
  ghost predicate Listed(files: map<string, seq<Event>>, all: seq<string>) {
    NoDup(all) && forall locale :: locale in all <==> locale in files
  }

  lemma {:induction false} Enumerate(s: set<string>) returns (all: seq<string>)
    ensures NoDup(all) && forall x :: x in all <==> x in s
    decreases |s|
  {
    if s == {} {
      all := [];
    } else {
      var x :| x in s;
      var rest := Enumerate(s - {x});
      all := [x] + rest;
    }
  }

  /** A locale that is loaded, or has no file, is as if all were loaded. */
  lemma LoadedAlike(e: Entry, order: seq<string>, all: seq<string>, locale: string)
    requires IsSchema(e) && R.RereadEntry(e, true).Some? && NoDup(order) && NoDup(all)
    requires locale in order <==> locale in all
    ensures LocalFor(LoadedEntry(e, order).localSchemas, locale) == LocalFor(LoadedEntry(e, all).localSchemas, locale)
  {
    LoadedFor(e, order, locale);
    LoadedFor(e, all, locale);
  }

  lemma {:induction false} SameFor(a: seq<LocalSchema>, b: seq<LocalSchema>, locales: seq<string>)
    requires forall l :: LocalFor(a, l) == LocalFor(b, l)
    ensures BestLocal(a, locales) == BestLocal(b, locales)
  {
    if locales != [] { SameFor(a, b, locales[1..]); }
  }

  lemma {:induction false} LoadedValue(e: Entry, order: seq<string>)
    requires R.RereadEntry(e, true).Some?
    ensures LoadedEntry(e, order).value == R.RereadEntry(e, true).value.value
  {
    if order != [] { LoadedValue(e, order[..|order| - 1]); }
  }

  lemma SchemaLoaded(e: Entry)
    requires R.RereadEntry(e, true).Some? && IsSchema(R.RereadEntry(e, true).value)
    ensures IsSchema(e)
  {
  }

  /** The order does not matter; and where everything can be written, nothing is lost. */
  lemma AnswersAgree(d: Dir, files: map<string, seq<Event>>, rel: seq<string>, key: string, all: seq<string>,
                     locales: seq<string>)
    requires R.RereadDir(d).Some? && EntryAt(d, rel, key).Some? && FilesOf(d, files) && Listed(files, all)
    requires R.RereadEntry(EntryAt(d, rel, key).value, true).Some?
    ensures var e := EntryAt(d, rel, key).value;
      && (forall other :: Listed(files, other) ==>
            && EntryValue(LoadedEntry(e, other), locales) == EntryValue(LoadedEntry(e, all), locales)
            && Answers(LoadedEntry(e, other), locales, EntryValue(LoadedEntry(e, all), locales)))
      && (Localizable(e) && Complete(d, files) ==>
            && EntryValue(LoadedEntry(e, all), locales) == EntryValue(e, locales)
            && Answers(e, locales, EntryValue(LoadedEntry(e, all), locales)))
  {
    var e := EntryAt(d, rel, key).value;
    forall other | Listed(files, other)
      ensures EntryValue(LoadedEntry(e, other), locales) == EntryValue(LoadedEntry(e, all), locales)
      ensures Answers(LoadedEntry(e, other), locales, EntryValue(LoadedEntry(e, all), locales))
    {
      AnyOrder(e, all, other, locales);
      EntryValueAnswers(LoadedEntry(e, other), locales);
    }
    EntryValueAnswers(e, locales);
    if Localizable(e) && Complete(d, files) {
      NoFileForC(d);
      WritableAnswer(d, rel, key, all, locales);
    }
  }

  lemma AnyOrder(e: Entry, all: seq<string>, other: seq<string>, locales: seq<string>)
    requires R.RereadEntry(e, true).Some? && NoDup(all) && NoDup(other) && forall l :: l in all <==> l in other
    ensures EntryValue(LoadedEntry(e, other), locales) == EntryValue(LoadedEntry(e, all), locales)
  {
    LoadedValue(e, all);
    LoadedValue(e, other);
    if IsSchema(e) {
      var a, b := LoadedEntry(e, all).localSchemas, LoadedEntry(e, other).localSchemas;
      forall l ensures LocalFor(a, l) == LocalFor(b, l) { LoadedAlike(e, other, all, l); }
      hide LocalFor, LoadedEntry;
      SameFor(a, b, if locales == [] then ["C"] else locales);
    }
  }

  lemma WritableAnswer(d: Dir, rel: seq<string>, key: string, all: seq<string>, locales: seq<string>)
    requires R.RereadDir(d).Some? && EntryAt(d, rel, key).Some? && NoDup(all) && "C" !in all
    requires forall l :: HasFile(d, l) ==> l in all
    requires R.RereadEntry(EntryAt(d, rel, key).value, true).Some? && Localizable(EntryAt(d, rel, key).value)
    ensures var e := EntryAt(d, rel, key).value; EntryValue(LoadedEntry(e, all), locales) == EntryValue(e, locales)
  {
    var e := EntryAt(d, rel, key).value;
    PlainValue(e, all);
    if IsSchema(e) {
      var a := LoadedEntry(e, all).localSchemas;
      forall l ensures LocalFor(a, l) == LocalFor(e.localSchemas, l) { WritableKept(d, rel, key, all, l); }
      hide LocalFor, LoadedEntry;
      SameFor(a, e.localSchemas, if locales == [] then ["C"] else locales);
    }
  }

  /** A readable value is not changed by the files. */
  lemma {:induction false} PlainValue(e: Entry, order: seq<string>)
    requires R.RereadEntry(e, true).Some? && (e.value.Some? ==> R.ValueReadable(e.value.value))
    ensures LoadedEntry(e, order).value == e.value
  {
    if order == [] {
      if e.value.Some? { R.ValueFixed(e.value.value); }
    } else {
      PlainValue(e, order[..|order| - 1]);
    }
  }
}
