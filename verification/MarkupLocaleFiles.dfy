/** The files that hold the descriptions of one other locale (%gconf-tree-LOCALE.xml): what the writer
    puts in them for a merged tree, and what the reader does with them to a tree already in memory.

    While such a file is read, a directory on the stack is a frame with its index in its parent; the
    frame of an unknown directory has none and is thrown away when its element ends. */
module MarkupLocaleFiles {
  import opened Basics
  import opened Values
  import opened MarkupTypes
  import opened MarkupPrinter
  import opened MarkupEntries
  import M = MarkupParser
  import R = MarkupRoundTrip
  import S = MarkupSync

  // Writing

  /** write_entry for a locale: nothing for an entry without that locale. */
  function LocaleEntry(e: Entry, locale: string): seq<Event> {
    match LocalFor(e.localSchemas, locale)
    case None => []
    case Some(ls) =>
      [Start(TagEntry, [(AtName, e.name)])] + LocalElement(ls) + [End(TagEntry)]
  }

  /** write_local_schema_info in a locale file: no locale attribute and no default. */
  function LocalElement(ls: LocalSchema): seq<Event> {
    [Start(TagLocalSchema, OptAttr(AtShortDesc, ls.shortDesc))]
    + LongDescElement(ls.longDesc)
    + [End(TagLocalSchema)]
  }

  function LocaleEntries(es: seq<Entry>, locale: string): seq<Event> {
    if es == [] then [] else LocaleEntry(es[0], locale) + LocaleEntries(es[1..], locale)
  }

  /** init_is_dir_empty_flags: nothing at or below the directory has that locale. */
  predicate DirEmpty(d: Dir, locale: string) {
    && (forall i :: 0 <= i < |d.entries| ==> LocalFor(d.entries[i].localSchemas, locale) == None)
    && (forall i :: 0 <= i < |d.subdirs| ==> DirEmpty(d.subdirs[i], locale))
  }

  /** write_dir for a locale. */
  function LocaleDir(d: Dir, locale: string): seq<Event>
    decreases d, 1
  {
    if DirEmpty(d, locale) then []
    else
      [Start(TagDir, [(AtName, d.name)])]
      + (LocaleEntries(d.entries, locale) + LocaleDirs(d.subdirs, locale))
      + [End(TagDir)]
  }

  function LocaleDirs(ds: seq<Dir>, locale: string): seq<Event>
    decreases ds, 0
  {
    if ds == [] then [] else LocaleDir(ds[0], locale) + LocaleDirs(ds[1..], locale)
  }

  /** save_tree_with_locale for another locale. */
  function LocaleFile(d: Dir, locale: string): seq<Event> {
    if d.entries == [] && d.subdirs == [] then []
    else
      [Start(TagGconf, [])]
      + (LocaleEntries(d.entries, locale) + LocaleDirs(d.subdirs, locale))
      + [End(TagGconf)]
  }

  predicate FullFor(ls: LocalSchema, locale: string) {
    ls.locale == locale && ls.shortDesc.Some? && ls.longDesc.Some?
  }

  /** get_non_c_desc_locales: the locales other than "C" with a full description somewhere. */
  predicate Described(e: Entry, locale: string) {
    locale != "C" && exists i :: 0 <= i < |e.localSchemas| && FullFor(e.localSchemas[i], locale)
  }

  /** save_tree writes a file for the locale. */
  predicate HasFile(d: Dir, locale: string) {
    || (exists i :: 0 <= i < |d.entries| && Described(d.entries[i], locale))
    || (exists i :: 0 <= i < |d.subdirs| && HasFile(d.subdirs[i], locale))
  }

  /** The entry is in the directory or below it. */
  ghost predicate Contains(d: Dir, e: Entry)
    decreases d
  {
    e in d.entries || exists i :: 0 <= i < |d.subdirs| && Contains(d.subdirs[i], e)
  }

  /** A local schema with both descriptions, of this locale. */
  predicate FullyDescribes(ls: LocalSchema, locale: string) {
    ls.locale == locale && ls.shortDesc.Some? && ls.longDesc.Some?
  }

  /** A locale gets a file exactly if it is not "C" and some entry has both descriptions in it: one of them
      alone gets none. */
  lemma {:induction false} HasFileIs(d: Dir, locale: string)
    ensures HasFile(d, locale) <==>
      locale != "C" && exists e, ls :: Contains(d, e) && ls in e.localSchemas && FullyDescribes(ls, locale)
    decreases d
  {
    forall i | 0 <= i < |d.subdirs|
      ensures HasFile(d.subdirs[i], locale) <==>
        locale != "C" && exists e, ls :: Contains(d.subdirs[i], e) && ls in e.localSchemas && FullyDescribes(ls, locale)
    {
      HasFileIs(d.subdirs[i], locale);
    }
    if i :| 0 <= i < |d.entries| && Described(d.entries[i], locale) {
      var j :| 0 <= j < |d.entries[i].localSchemas| && FullFor(d.entries[i].localSchemas[j], locale);
      var ls := d.entries[i].localSchemas[j];
      assert Contains(d, d.entries[i]) && ls in d.entries[i].localSchemas && FullyDescribes(ls, locale);
    }
    if i :| 0 <= i < |d.subdirs| && HasFile(d.subdirs[i], locale) {
      var e, ls :| Contains(d.subdirs[i], e) && ls in e.localSchemas && FullyDescribes(ls, locale);
      assert Contains(d, e);
    }
    if locale != "C" {
      if e, ls :| Contains(d, e) && ls in e.localSchemas && FullyDescribes(ls, locale) {
        if e in d.entries {
          var j :| 0 <= j < |e.localSchemas| && e.localSchemas[j] == ls;
          assert FullFor(e.localSchemas[j], locale);
          assert Described(e, locale);
        }
      }
    }
  }

  // Reading

  datatype State = StartState | GconfState | DirState | EntryState | LocalSchemaState | LongDescState

  datatype Frame = Frame(dir: Dir, index: Option<nat>)

  /** ParseInfo while parsing_local_descs. The current entry is an index into the top directory. */
  datatype Info = Info(
    states: List<State>,
    frames: List<Frame>,
    root: Option<Dir>,
    current: Option<nat>,
    descs: seq<LocalSchema>,
    locale: string)

  datatype Outcome = Go(info: Info) | Rejected | Aborted
  {
    predicate IsFailure() { !Go? }
    function PropagateFailure(): Outcome requires IsFailure() { this }
    function Extract(): Info requires Go? { info }
  }

  function Init(root: Dir, locale: string): Info {
    Info(Cons(StartState, Nil), Cons(Frame(root, None), Nil), None, None, [], locale)
  }

  function Push(info: Info, s: State): Info { info.(states := Cons(s, info.states)) }

  function Pop(info: Info): Info {
    if info.states.Nil? then info else info.(states := info.states.tail)
  }

  /** parse_entry_element: an unknown entry leaves no current entry. */
  function StartEntry(info: Info, attrs: seq<Attr>): Outcome {
    if info.current.Some? || info.frames.Nil? then Aborted
    else if !M.Locates(attrs, {AtName}) || M.AttrValue(attrs, AtName) == None then Rejected
    else
      var found := S.FindEntry(info.frames.head.dir.entries, M.AttrValue(attrs, AtName).value);
      Go(Push(info, EntryState).(current := found))
  }

  function FindSubdir(ds: seq<Dir>, name: string): Option<nat> {
    if ds == [] then None
    else if ds[0].name == name then Some(0)
    else match FindSubdir(ds[1..], name)
         case None => None
         case Some(i) => Some(i + 1)
  }

  /** parse_dir_element: an unknown directory is a dummy. */
  function StartDir(info: Info, attrs: seq<Attr>): Outcome {
    if info.frames.Nil? then Aborted
    else if !M.Locates(attrs, {AtName}) || M.AttrValue(attrs, AtName) == None then Rejected
    else
      var name := M.AttrValue(attrs, AtName).value;
      var parent := info.frames.head.dir;
      var found := FindSubdir(parent.subdirs, name);
      var frame :=
        if found.Some? && found.value < |parent.subdirs| then Frame(parent.subdirs[found.value], found)
        else Frame(Dir(name, [], []), None);
      Go(Push(info, DirState).(frames := Cons(frame, info.frames)))
  }

  /** parse_local_schema_element */
  function StartLocalSchema(info: Info, attrs: seq<Attr>): Outcome {
    if !M.Locates(attrs, {AtShortDesc}) then Rejected
    else
      var ls := LocalSchema(info.locale, M.AttrValue(attrs, AtShortDesc), None, None);
      Go(Push(info, LocalSchemaState).(descs := [ls] + info.descs))
  }

  /** parse_local_schema_child_element: no defaults here. */
  function StartLocalSchemaChild(info: Info, tag: Tag): Outcome {
    if info.descs == [] then Aborted
    else if tag == TagLongDesc && info.descs[0].longDesc == None then Go(Push(info, LongDescState))
    else Rejected
  }

  /** start_element_handler */
  function StartElement(info: Info, tag: Tag, attrs: seq<Attr>): Outcome {
    if info.states.Nil? then Aborted
    else match info.states.head
         case StartState => if tag == TagGconf && attrs == [] then Go(Push(info, GconfState)) else Rejected
         case GconfState => StartInDir(info, tag, attrs)
         case DirState => StartInDir(info, tag, attrs)
         case EntryState => if tag == TagLocalSchema then StartLocalSchema(info, attrs) else Rejected
         case LocalSchemaState => StartLocalSchemaChild(info, tag)
         case LongDescState => Rejected
  }

  function StartInDir(info: Info, tag: Tag, attrs: seq<Attr>): Outcome {
    if tag == TagEntry then StartEntry(info, attrs)
    else if tag == TagDir then StartDir(info, attrs)
    else Rejected
  }

  /** A local schema read from a locale file is put into an entry. One that the entry already has for
      the locale gets the short description, and then, as long description, the field that was emptied
      when the short one was taken out of it. */
  function MergeLocal(locals: seq<LocalSchema>, ls: LocalSchema): seq<LocalSchema> {
    match FindLocal(locals, ls.locale)
    case None => locals + [ls]
    case Some(i) =>
      if i < |locals| then locals[i := locals[i].(shortDesc := ls.shortDesc, longDesc := None)] else locals
  }

  function MergeInto(e: Entry, ls: LocalSchema): Entry {
    if IsSchema(e) then e.(localSchemas := MergeLocal(e.localSchemas, ls)) else e
  }

  /** </entry> */
  function EndEntry(info: Info): Outcome {
    if info.descs == [] then Go(Pop(info.(current := None)))
    else if |info.descs| != 1 || info.frames.Nil? then Aborted
    else
      var cleared := info.(current := None, descs := []);
      var d := info.frames.head.dir;
      if info.current.Some? && info.current.value < |d.entries| then
        var i := info.current.value;
        var merged := d.(entries := d.entries[i := MergeInto(d.entries[i], info.descs[0])]);
        Go(Pop(WithTop(cleared, merged)))
      else Go(Pop(cleared))
  }

  /** The directory on top of the stack, changed in place. */
  function WithTop(info: Info, d: Dir): Info {
    if info.frames.Nil? then info
    else info.(frames := Cons(info.frames.head.(dir := d), info.frames.tail))
  }

  /** </dir> and </gconf> */
  function EndDir(info: Info): Outcome {
    if info.frames.Nil? then Aborted
    else
      var done, rest := info.frames.head, info.frames.tail;
      match rest
      case Nil => Go(Pop(info.(frames := Nil, root := Some(done.dir))))
      case Cons(Frame(parent, up), above) =>
        var kept :=
          if done.index.Some? && done.index.value < |parent.subdirs|
          then parent.(subdirs := parent.subdirs[done.index.value := done.dir]) else parent;
        Go(Pop(info.(frames := Cons(Frame(kept, up), above))))
  }

  /** end_element_handler */
  function EndElement(info: Info): Outcome {
    if info.states.Nil? then Aborted
    else match info.states.head
         case StartState => Go(info)
         case EntryState => EndEntry(info)
         case DirState => EndDir(info)
         case GconfState => EndDir(info)
         case LocalSchemaState => Go(Pop(info))
         case LongDescState => Go(Pop(info))
  }

  /** text_handler */
  function TextRun(info: Info, text: string): Outcome {
    if Blank(text) then Go(info)
    else if info.states.Nil? || info.states.head.StartState? then Aborted
    else if info.states.head.LongDescState? then
      if info.descs == [] then Aborted
      else Go(info.(descs := [info.descs[0].(longDesc := Some(text))] + info.descs[1..]))
    else Rejected
  }

  function Step(info: Info, e: Event): Outcome {
    match e
    case Start(tag, attrs) => StartElement(info, tag, attrs)
    case End(_) => EndElement(info)
    case Text(t) => TextRun(info, t)
  }

  function Run(info: Info, es: seq<Event>): Outcome
    decreases es
  {
    if es == [] then Go(info)
    else
      var next :- Step(info, es[0]);
      Run(next, es[1..])
  }

  /** parse_tree of a locale file into the tree in memory. */
  function ReadLocale(root: Dir, locale: string, es: seq<Event>): M.ParseResult {
    match Run(Init(root, locale), es)
    case Rejected => M.ParseError
    case Aborted => M.ParseAbort
    case Go(info) => if info.root == None then M.ParseError else M.Tree(info.root.value)
  }

  // What reading does to a tree of the same shape

  /** The same names in the same places. */
  predicate SameEntries(a: seq<Entry>, b: seq<Entry>) {
    |a| == |b| && forall i :: 0 <= i < |a| ==> a[i].name == b[i].name
  }

  predicate SameShape(a: Dir, b: Dir)
    decreases b
  {
    && a.name == b.name
    && SameEntries(a.entries, b.entries)
    && |a.subdirs| == |b.subdirs|
    && forall i :: 0 <= i < |b.subdirs| ==> SameShape(a.subdirs[i], b.subdirs[i])
  }

  predicate SameShapes(a: seq<Dir>, b: seq<Dir>) {
    |a| == |b| && forall i :: 0 <= i < |a| ==> SameShape(a[i], b[i])
  }

  /** No name occurs twice in a directory: every tree the database can build or load lazily. */
  predicate Unique(d: Dir) {
    && DistinctEntries(d.entries) && DistinctDirs(d.subdirs)
    && forall i :: 0 <= i < |d.subdirs| ==> Unique(d.subdirs[i])
  }

  predicate DistinctEntries(es: seq<Entry>) {
    forall i, j :: 0 <= i < j < |es| ==> es[i].name != es[j].name
  }

  predicate DistinctDirs(ds: seq<Dir>) {
    forall i, j :: 0 <= i < j < |ds| ==> ds[i].name != ds[j].name
  }

  /** The descriptions of one locale that its file holds for an entry. */
  function FileDesc(e: Entry, locale: string): Option<LocalSchema> {
    match LocalFor(e.localSchemas, locale)
    case None => None
    case Some(ls) => Some(LocalSchema(locale, ls.shortDesc, R.RereadLongDesc(ls.longDesc), None))
  }

  /** The entry `e' of the tree in memory after the file written for `from' was read. */
  function MergeEntry(e: Entry, from: Entry, locale: string): Entry {
    match FileDesc(from, locale)
    case None => e
    case Some(ls) => MergeInto(e, ls)
  }

  function MergeEntries(es: seq<Entry>, from: seq<Entry>, locale: string): seq<Entry>
    requires |es| == |from|
  {
    seq(|es|, i requires 0 <= i < |es| => MergeEntry(es[i], from[i], locale))
  }

  function MergeDir(d: Dir, from: Dir, locale: string): Dir
    requires SameShape(d, from)
    decreases from, 1
  {
    Dir(d.name, MergeEntries(d.entries, from.entries, locale), MergeDirs(d.subdirs, from.subdirs, locale))
  }

  function MergeDirs(ds: seq<Dir>, from: seq<Dir>, locale: string): (r: seq<Dir>)
    requires SameShapes(ds, from)
    ensures |r| == |ds|
    decreases from, 0
  {
    if from == [] then []
    else [MergeDir(ds[0], from[0], locale)] + MergeDirs(ds[1..], from[1..], locale)
  }

  lemma {:induction false} MergeKeepsShape(d: Dir, from: Dir, locale: string)
    requires SameShape(d, from)
    ensures SameShape(MergeDir(d, from, locale), from)
    decreases from, 1
  {
    MergesKeepShape(d.subdirs, from.subdirs, locale);
  }

  lemma {:induction false} MergesKeepShape(ds: seq<Dir>, from: seq<Dir>, locale: string)
    requires SameShapes(ds, from)
    ensures SameShapes(MergeDirs(ds, from, locale), from)
    decreases from, 0
  {
    if from != [] {
      MergeKeepsShape(ds[0], from[0], locale);
      MergesKeepShape(ds[1..], from[1..], locale);
    }
  }

  // The reader does exactly that

  function Then(o: Outcome, es: seq<Event>): Outcome {
    match o
    case Go(info) => Run(info, es)
    case other => other
  }

  lemma {:induction false} RunConcat(info: Info, a: seq<Event>, b: seq<Event>)
    ensures Run(info, a + b) == Then(Run(info, a), b)
    decreases a
  {
    if a == [] {
      assert a + b == b;
    } else {
      assert (a + b)[1..] == a[1..] + b;
      match Step(info, a[0])
      case Go(next) => RunConcat(next, a[1..], b);
      case _ =>
    }
  }

  lemma RunOne(info: Info, e: Event)
    ensures Run(info, [e]) == Step(info, e)
  {
    match Step(info, e)
    case Go(next) => assert Run(next, []) == Go(next); assert [e][1..] == [];
    case _ =>
  }

  /** An element whose start, content and end are known. */
  lemma RunElement(info: Info, start: Event, kids: seq<Event>, end: Event, inside: Info, full: Info, after: Info)
    requires Step(info, start) == Go(inside)
    requires Run(inside, kids) == Go(full)
    requires Step(full, end) == Go(after)
    ensures Run(info, [start] + kids + [end]) == Go(after)
  {
    RunConcat(info, [start] + kids, [end]);
    RunConcat(info, [start], kids);
    RunOne(info, start);
    RunOne(full, end);
  }

  /** Just inside a directory. */
  predicate DirOpen(info: Info) {
    && info.states.Cons? && (info.states.head.GconfState? || info.states.head.DirState?)
    && info.frames.Cons? && info.current == None && info.descs == []
  }

  lemma NameAttr(name: string)
    ensures M.Locates([(AtName, name)], {AtName}) && M.AttrValue([(AtName, name)], AtName) == Some(name)
  {
    M.AttrCons((AtName, name), [], AtName, {AtName});
    assert [(AtName, name)] == [(AtName, name)] + [];
  }

  lemma ShortAttr(s: Option<string>)
    ensures M.Locates(OptAttr(AtShortDesc, s), {AtShortDesc}) && M.AttrValue(OptAttr(AtShortDesc, s), AtShortDesc) == s
  {
    if s.Some? {
      M.AttrCons((AtShortDesc, s.value), [], AtShortDesc, {AtShortDesc});
      assert [(AtShortDesc, s.value)] == [(AtShortDesc, s.value)] + [];
    }
  }

  /** The content of <local_schema>. */
  lemma LongDescRun(info: Info, longDesc: Option<string>)
    requires info.states.Cons? && info.states.head.LocalSchemaState?
    requires |info.descs| == 1 && info.descs[0].longDesc == None
    ensures Run(info, LongDescElement(longDesc)) ==
      Go(info.(descs := [info.descs[0].(longDesc := R.RereadLongDesc(longDesc))]))
  {
    var after := info.(descs := [info.descs[0].(longDesc := R.RereadLongDesc(longDesc))]);
    match longDesc
    case None => assert info.descs == after.descs;
    case Some(s) =>
      var inside := Push(info, LongDescState);
      var full := Push(after, LongDescState);
      if s == "" || Blank(s) { assert info.descs == after.descs; }
      if s != "" { RunOne(inside, Text(s)); }
      assert Run(inside, TextEvents(s)) == Go(full);
      RunElement(info, Start(TagLongDesc, []), TextEvents(s), End(TagLongDesc), inside, full, after);
  }

  lemma LocalRun(info: Info, ls: LocalSchema)
    requires info.states.Cons? && info.states.head.EntryState? && info.descs == []
    ensures Run(info, LocalElement(ls)) ==
      Go(info.(descs := [LocalSchema(info.locale, ls.shortDesc, R.RereadLongDesc(ls.longDesc), None)]))
  {
    var attrs := OptAttr(AtShortDesc, ls.shortDesc);
    ShortAttr(ls.shortDesc);
    var inside := Push(info, LocalSchemaState).(descs := [LocalSchema(info.locale, ls.shortDesc, None, None)]);
    assert [LocalSchema(info.locale, ls.shortDesc, None, None)] + info.descs == inside.descs;
    LongDescRun(inside, ls.longDesc);
    var full := inside.(descs := [inside.descs[0].(longDesc := R.RereadLongDesc(ls.longDesc))]);
    RunElement(info, Start(TagLocalSchema, attrs), LongDescElement(ls.longDesc), End(TagLocalSchema),
               inside, full, Pop(full));
  }

  /** <entry> of an entry that is at index `i' of the directory in memory. */
  lemma EntryRun(info: Info, e: Entry, i: nat)
    requires DirOpen(info)
    requires S.FindEntry(info.frames.head.dir.entries, e.name) == Some(i) && i < |info.frames.head.dir.entries|
    ensures var d := info.frames.head.dir;
      Run(info, LocaleEntry(e, info.locale))
      == Go(WithTop(info, d.(entries := d.entries[i := MergeEntry(d.entries[i], e, info.locale)])))
  {
    var d := info.frames.head.dir;
    match LocalFor(e.localSchemas, info.locale)
    case None =>
      assert d.entries[i := d.entries[i]] == d.entries;
    case Some(ls) =>
      NameAttr(e.name);
      var inside := Push(info, EntryState).(current := Some(i));
      LocalRun(inside, ls);
      var desc := LocalSchema(info.locale, ls.shortDesc, R.RereadLongDesc(ls.longDesc), None);
      var full := inside.(descs := [desc]);
      var after := WithTop(info, d.(entries := d.entries[i := MergeInto(d.entries[i], desc)]));
      assert EndEntry(full) == Go(after);
      RunElement(info, Start(TagEntry, [(AtName, e.name)]), LocalElement(ls), End(TagEntry), inside, full, after);
  }

  lemma {:induction false} FindAfter(done: seq<Entry>, rest: seq<Entry>, name: string)
    requires rest != [] && rest[0].name == name
    requires forall i :: 0 <= i < |done| ==> done[i].name != name
    ensures S.FindEntry(done + rest, name) == Some(|done|)
  {
    if done != [] {
      assert (done + rest)[1..] == done[1..] + rest;
      FindAfter(done[1..], rest, name);
    } else {
      assert done + rest == rest;
    }
  }

  /** The entries of a directory, of which those in `done' have been dealt with. */
  lemma {:induction false} EntriesRun(info: Info, es: seq<Entry>, done: seq<Entry>, rest: seq<Entry>)
    requires DirOpen(info) && info.frames.head.dir.entries == done + rest
    requires SameEntries(rest, es) && DistinctEntries(es)
    requires forall i, j :: 0 <= i < |done| && 0 <= j < |es| ==> done[i].name != es[j].name
    ensures Run(info, LocaleEntries(es, info.locale))
      == Go(WithTop(info, info.frames.head.dir.(entries := done + MergeEntries(rest, es, info.locale))))
    decreases es
  {
    var d := info.frames.head.dir;
    if es == [] {
      assert done + MergeEntries(rest, es, info.locale) == done + rest;
    } else {
      var merged := MergeEntry(rest[0], es[0], info.locale);
      var now := done + [merged];
      var next := WithTop(info, d.(entries := d.entries[|done| := merged]));
      OneEntryDone(done, rest, es, merged, info.locale);
      hide Step, Run, LocaleEntry, MergeEntry, MergeEntries, S.FindEntry, DistinctEntries, SameEntries;
      EntryRun(info, es[0], |done|);
      EntriesRun(next, es[1..], now, rest[1..]);
      RunConcat(info, LocaleEntry(es[0], info.locale), LocaleEntries(es[1..], info.locale));
    }
  }

  lemma OneEntryDone(done: seq<Entry>, rest: seq<Entry>, es: seq<Entry>, merged: Entry, locale: string)
    requires es != [] && SameEntries(rest, es) && DistinctEntries(es)
    requires forall i, j :: 0 <= i < |done| && 0 <= j < |es| ==> done[i].name != es[j].name
    requires merged == MergeEntry(rest[0], es[0], locale)
    ensures S.FindEntry(done + rest, es[0].name) == Some(|done|)
    ensures (done + rest)[|done|] == rest[0]
    ensures (done + rest)[|done| := merged] == done + [merged] + rest[1..]
    ensures SameEntries(rest[1..], es[1..]) && DistinctEntries(es[1..])
    ensures var now := done + [merged];
      forall i, j :: 0 <= i < |now| && 0 <= j < |es[1..]| ==> now[i].name != es[1..][j].name
    ensures done + [merged] + MergeEntries(rest[1..], es[1..], locale) == done + MergeEntries(rest, es, locale)
  {
    assert rest[0].name == es[0].name == merged.name;
    FindAfter(done, rest, es[0].name);
    var left := MergeEntries(rest[1..], es[1..], locale);
    assert MergeEntries(rest, es, locale) == [merged] + left;
    assert done + [merged] + left == done + ([merged] + left);
  }

  /** A directory that is not written is one the file does not change. */
  lemma {:induction false} EmptyMerge(d: Dir, from: Dir, locale: string)
    requires SameShape(d, from) && DirEmpty(from, locale)
    ensures MergeDir(d, from, locale) == d
    decreases from, 1
  {
    assert MergeEntries(d.entries, from.entries, locale) == d.entries;
    EmptyMerges(d.subdirs, from.subdirs, locale);
  }

  lemma {:induction false} EmptyMerges(ds: seq<Dir>, from: seq<Dir>, locale: string)
    requires SameShapes(ds, from) && forall i :: 0 <= i < |from| ==> DirEmpty(from[i], locale)
    ensures MergeDirs(ds, from, locale) == ds
    decreases from, 0
  {
    if from != [] {
      EmptyMerge(ds[0], from[0], locale);
      EmptyMerges(ds[1..], from[1..], locale);
    }
  }

  lemma {:induction false} FindDirAfter(done: seq<Dir>, rest: seq<Dir>, name: string)
    requires rest != [] && rest[0].name == name
    requires forall i :: 0 <= i < |done| ==> done[i].name != name
    ensures FindSubdir(done + rest, name) == Some(|done|)
  {
    if done != [] {
      assert (done + rest)[1..] == done[1..] + rest;
      FindDirAfter(done[1..], rest, name);
    } else {
      assert done + rest == rest;
    }
  }

  /** The content of a directory. */
  lemma {:induction false} KidsRun(info: Info, from: Dir)
    requires DirOpen(info) && SameShape(info.frames.head.dir, from) && Unique(from)
    ensures Run(info, LocaleEntries(from.entries, info.locale) + LocaleDirs(from.subdirs, info.locale))
      == Go(WithTop(info, MergeDir(info.frames.head.dir, from, info.locale)))
    decreases from, 0
  {
    var d := info.frames.head.dir;
    assert d.entries == [] + d.entries && d.subdirs == [] + d.subdirs;
    EntriesRun(info, from.entries, [], d.entries);
    var es := MergeEntries(d.entries, from.entries, info.locale);
    assert [] + es == es;
    var half := WithTop(info, d.(entries := es));
    DirsRun(half, from.subdirs, [], d.subdirs);
    var ds := MergeDirs(d.subdirs, from.subdirs, info.locale);
    assert [] + ds == ds;
    RunConcat(info, LocaleEntries(from.entries, info.locale), LocaleDirs(from.subdirs, info.locale));
  }

  /** <dir> of a directory that is at index `i' of its parent in memory. */
  lemma {:induction false} DirRun(info: Info, from: Dir, i: nat)
    requires DirOpen(info) && Unique(from)
    requires var d := info.frames.head.dir;
      FindSubdir(d.subdirs, from.name) == Some(i) && i < |d.subdirs| && SameShape(d.subdirs[i], from)
    ensures var d := info.frames.head.dir;
      Run(info, LocaleDir(from, info.locale))
      == Go(WithTop(info, d.(subdirs := d.subdirs[i := MergeDir(d.subdirs[i], from, info.locale)])))
    decreases from, 1
  {
    var d := info.frames.head.dir;
    var merged := MergeDir(d.subdirs[i], from, info.locale);
    var after := WithTop(info, d.(subdirs := d.subdirs[i := merged]));
    if DirEmpty(from, info.locale) {
      EmptyMerge(d.subdirs[i], from, info.locale);
      assert d.subdirs[i := d.subdirs[i]] == d.subdirs;
    } else {
      NameAttr(from.name);
      var inside := Push(info, DirState).(frames := Cons(Frame(d.subdirs[i], Some(i)), info.frames));
      var kids := LocaleEntries(from.entries, info.locale) + LocaleDirs(from.subdirs, info.locale);
      KidsRun(inside, from);
      var full := WithTop(inside, merged);
      assert EndDir(full) == Go(after);
      RunElement(info, Start(TagDir, [(AtName, from.name)]), kids, End(TagDir), inside, full, after);
    }
  }

  lemma {:induction false} DirsRun(info: Info, from: seq<Dir>, done: seq<Dir>, rest: seq<Dir>)
    requires DirOpen(info) && info.frames.head.dir.subdirs == done + rest
    requires SameShapes(rest, from) && DistinctDirs(from) && forall i :: 0 <= i < |from| ==> Unique(from[i])
    requires forall i, j :: 0 <= i < |done| && 0 <= j < |from| ==> done[i].name != from[j].name
    ensures Run(info, LocaleDirs(from, info.locale))
      == Go(WithTop(info, info.frames.head.dir.(subdirs := done + MergeDirs(rest, from, info.locale))))
    decreases from, 0
  {
    var d := info.frames.head.dir;
    if from == [] {
      assert done + MergeDirs(rest, from, info.locale) == done + rest;
    } else {
      var merged := MergeDir(rest[0], from[0], info.locale);
      var now := done + [merged];
      var next := WithTop(info, d.(subdirs := d.subdirs[|done| := merged]));
      OneDirDone(done, rest, from, merged, info.locale);
      hide Step, Run, LocaleDir, MergeDir, MergeDirs, FindSubdir, Unique, SameShape, DistinctDirs;
      DirRun(info, from[0], |done|);
      DirsRun(next, from[1..], now, rest[1..]);
      RunConcat(info, LocaleDir(from[0], info.locale), LocaleDirs(from[1..], info.locale));
    }
  }

  lemma OneDirDone(done: seq<Dir>, rest: seq<Dir>, from: seq<Dir>, merged: Dir, locale: string)
    requires from != [] && SameShapes(rest, from) && DistinctDirs(from)
    requires forall i, j :: 0 <= i < |done| && 0 <= j < |from| ==> done[i].name != from[j].name
    requires merged == MergeDir(rest[0], from[0], locale)
    ensures FindSubdir(done + rest, from[0].name) == Some(|done|)
    ensures (done + rest)[|done|] == rest[0]
    ensures (done + rest)[|done| := merged] == done + [merged] + rest[1..]
    ensures SameShapes(rest[1..], from[1..]) && DistinctDirs(from[1..])
    ensures var now := done + [merged];
      forall i, j :: 0 <= i < |now| && 0 <= j < |from[1..]| ==> now[i].name != from[1..][j].name
    ensures done + [merged] + MergeDirs(rest[1..], from[1..], locale) == done + MergeDirs(rest, from, locale)
  {
    assert rest[0].name == from[0].name == merged.name;
    FindDirAfter(done, rest, from[0].name);
    var left := MergeDirs(rest[1..], from[1..], locale);
    assert MergeDirs(rest, from, locale) == [merged] + left;
    assert done + [merged] + left == done + ([merged] + left);
  }

  lemma {:induction false} RunNoBlank(info: Info, es: seq<Event>)
    ensures Run(info, es) == Run(info, R.NoBlank(es))
    decreases es
  {
    if es != [] && Step(info, es[0]).Go? {
      RunNoBlank(Step(info, es[0]).info, es[1..]);
      if !(es[0].Text? && Blank(es[0].text)) {
        assert R.NoBlank(es)[0] == es[0] && R.NoBlank(es)[1..] == R.NoBlank(es[1..]);
      }
    } else if es != [] {
      assert R.NoBlank(es)[0] == es[0];
    }
  }

  /** Reading any layout of the file written for a locale of `from' into a tree of the same shape
      changes exactly the entries that have the locale. */
  lemma ReadLocaleFile(d: Dir, from: Dir, locale: string, layout: seq<Event>)
    requires SameShape(d, from) && Unique(from)
    requires LocaleFile(from, locale) != []
    requires R.NoBlank(layout) == R.NoBlank(LocaleFile(from, locale))
    ensures ReadLocale(d, locale, layout) == M.Tree(MergeDir(d, from, locale))
  {
    var info := Init(d, locale);
    var inside := Push(info, GconfState);
    var kids := LocaleEntries(from.entries, locale) + LocaleDirs(from.subdirs, locale);
    RunNoBlank(info, layout);
    RunNoBlank(info, LocaleFile(from, locale));
    KidsRun(inside, from);
    var full := WithTop(inside, MergeDir(d, from, locale));
    RunElement(info, Start(TagGconf, []), kids, End(TagGconf), inside, full,
               info.(frames := Nil, root := Some(MergeDir(d, from, locale))));
  }

  /** A file is only written if some entry is in it. */
  lemma {:induction false} FileNotEmpty(d: Dir, locale: string)
    requires HasFile(d, locale)
    ensures LocaleFile(d, locale) != [] && locale != "C"
  {
    if forall i :: 0 <= i < |d.entries| ==> !Described(d.entries[i], locale) {
      var i :| 0 <= i < |d.subdirs| && HasFile(d.subdirs[i], locale);
      FileNotEmpty(d.subdirs[i], locale);
    }
  }
}
