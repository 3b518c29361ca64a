/** While every value element carries a type, the value stack, the directory stack and the current
    entry mirror the state stack: no assertion of the reader fails and everything unwinds. */
module MarkupMirror {
  import opened Basics
  import opened Values
  import opened MarkupTypes
  import opened MarkupParser

  /** Which element may be open directly inside which. */
  predicate Nests(s: State, below: List<State>) {
    match s
    case StartState => below.Nil?
    case GconfState => below == Cons(StartState, Nil)
    case DirState => below.Cons? && HoldsEntries(below.head)
    case EntryState => below.Cons? && HoldsEntries(below.head)
    case LocalSchemaState => below.Cons? && below.head.EntryState?
    case LongDescState => below.Cons? && below.head.LocalSchemaState?
    case DefaultState => below.Cons? && below.head.LocalSchemaState?
    case StringState => below.Cons? && (HoldsChildren(below.head) || IsItem(below.head))
    case _ => below.Cons? && HoldsChildren(below.head)
  }

  predicate HoldsEntries(s: State) { s.GconfState? || s.DirState? }
  predicate HoldsChildren(s: State) { s.EntryState? || s.DefaultState? }
  predicate IsItem(s: State) { s.LiState? || s.CarState? || s.CdrState? }

  predicate WellStacked(states: List<State>) {
    states.Cons? && Nests(states.head, states.tail) && (states.tail.Nil? || WellStacked(states.tail))
  }

  function Length<T>(l: List<T>): nat {
    match l
    case Nil => 0
    case Cons(_, tail) => 1 + Length(tail)
  }

  /** How many directories are open. */
  function DirDepth(states: List<State>): nat {
    match states
    case Nil => 0
    case Cons(s, below) => (if s.DirState? || s.StartState? then 1 else 0) + DirDepth(below)
  }

  /** Where the item of kind `s' that was last hung below `holder' is. */
  function ItemPointer(info: ParseInfo, s: State, holder: Pointer): Option<Pointer> {
    match Deref(info, holder)
    case None => None
    case Some(v) =>
      if s.CarState? && v.PairValue? && v.car.Some? then Some(Pointer(holder.owner, holder.path + [Selector.Car]))
      else if s.CdrState? && v.PairValue? && v.cdr.Some? then Some(Pointer(holder.owner, holder.path + [Selector.Cdr]))
      else if s.LiState? && v.ListValue? && v.elems != []
      then Some(Pointer(holder.owner, holder.path + [Elem(|v.elems| - 1)]))
      else None
  }

  const ENTRY_POINTER := Pointer(OfEntry, [])
  const DEFAULT_POINTER := Pointer(OfDefault, [])

  /** The value stack that the open elements call for, if there is one. */
  function Expected(info: ParseInfo, states: List<State>): Option<List<Pointer>> {
    match states
    case Nil => Some(Nil)
    case Cons(s, tail) =>
      var below := Expected(info, tail);
      if below == None then None
      else if s.EntryState? then
        if info.currentEntry == None then None
        else if info.currentEntry.value.value == None then Some(Nil)
        else Some(Cons(ENTRY_POINTER, Nil))
      else if s.DefaultState? then
        if info.localSchemas == [] || info.localSchemas[0].default == None then None
        else Some(Cons(DEFAULT_POINTER, below.value))
      else if IsItem(s) then
        if below.value.Nil? then None
        else match ItemPointer(info, s, below.value.head)
             case None => None
             case Some(p) => Some(Cons(p, below.value))
      else below
  }

  predicate InEntry(states: List<State>) {
    states.Cons? && !(states.head.StartState? || HoldsEntries(states.head))
  }

  predicate InLocalSchema(states: List<State>) {
    states.Cons? && (states.head.LocalSchemaState? || InLocalSchema(states.tail))
  }

  /** The current entry and the local schemas agree with the open elements. */
  predicate EntryMirrors(info: ParseInfo) {
    && (info.currentEntry.Some? <==> InEntry(info.states))
    && (info.currentEntry.Some? ==> info.currentEntry.value.localSchemas == [])
    && (info.localSchemas != [] ==>
          info.currentEntry.Some? && info.currentEntry.value.value.Some?
          && info.currentEntry.value.value.value.SchemaValue?)
    && (InLocalSchema(info.states) ==> info.localSchemas != [])
  }

  /** The stacks agree with the open elements. */
  predicate Mirrors(info: ParseInfo) {
    && WellStacked(info.states)
    && Expected(info, info.states) == Some(info.valueStack)
    && (if info.dirStack.Nil? then info.states == Cons(StartState, Nil) && info.root.Some?
        else Length(info.dirStack) == DirDepth(info.states))
    && EntryMirrors(info)
    && (info.states.head.StringState? ==>
          info.valueStack.Cons? && Deref(info, info.valueStack.head).Some?
          && Deref(info, info.valueStack.head).value.StringValue?)
  }

  /** The elements that hold a value of their own. */
  predicate IsValueTag(t: Tag) { t == TagLi || t == TagCar || t == TagCdr || t == TagDefault }

  predicate Typed(e: Event) {
    e.Start? && IsValueTag(e.tag) ==> AttrValue(e.attrs, AtType).Some?
  }

  /** Outside an entry only directories are open, and the value stack is empty. */
  lemma OutsideEntries(info: ParseInfo, states: List<State>)
    requires WellStacked(states) && !InEntry(states)
    ensures Expected(info, states) == Some(Nil)
    ensures !InLocalSchema(states)
  {
    if states.tail.Cons? { OutsideEntries(info, states.tail); }
  }

  lemma StartEntryMirrors(info: ParseInfo, attrs: seq<Attr>)
    requires Mirrors(info) && info.dirStack.Cons? && HoldsEntries(info.states.head)
    ensures StartEntry(info, attrs) != Aborted
    ensures StartEntry(info, attrs).Go? ==>
      Mirrors(StartEntry(info, attrs).info) && StartEntry(info, attrs).info.states.tail == info.states
  {
    hide Locates, AttrValue, ParseValue;
    if StartEntry(info, attrs).Go? {
      OutsideEntries(info, info.states);
      OutsideEntries(StartEntry(info, attrs).info, info.states);
    }
  }

  lemma StartDirMirrors(info: ParseInfo, attrs: seq<Attr>)
    requires Mirrors(info) && info.dirStack.Cons? && HoldsEntries(info.states.head)
    ensures StartDir(info, attrs) != Aborted
    ensures StartDir(info, attrs).Go? ==>
      Mirrors(StartDir(info, attrs).info) && StartDir(info, attrs).info.states.tail == info.states
  {
    if StartDir(info, attrs).Go? {
      var next := StartDir(info, attrs).info;
      OutsideEntries(info, info.states);
      OutsideEntries(next, next.states);
    }
  }

  lemma StartLocalSchemaMirrors(info: ParseInfo, attrs: seq<Attr>)
    requires Mirrors(info) && info.states.head.EntryState?
    ensures StartLocalSchema(info, attrs) != Aborted
    ensures StartLocalSchema(info, attrs).Go? ==>
      Mirrors(StartLocalSchema(info, attrs).info)
      && StartLocalSchema(info, attrs).info.states.tail == info.states
  {
    if StartLocalSchema(info, attrs).Go? {
      OutsideEntries(info, info.states.tail);
      OutsideEntries(StartLocalSchema(info, attrs).info, info.states.tail);
    }
  }

  lemma StartLocalSchemaChildMirrors(info: ParseInfo, tag: Tag, attrs: seq<Attr>)
    requires Mirrors(info) && info.states.head.LocalSchemaState?
    ensures StartLocalSchemaChild(info, tag, attrs) != Aborted
    ensures StartLocalSchemaChild(info, tag, attrs).Go? ==>
      (Mirrors(StartLocalSchemaChild(info, tag, attrs).info) <==> Typed(Start(tag, attrs)))
      && StartLocalSchemaChild(info, tag, attrs).info.states.tail == info.states
  {
    if StartLocalSchemaChild(info, tag, attrs).Go? {
      if tag == TagDefault {
        StartDefaultMirrors(info, attrs);
      } else {
        StartLongDescMirrors(info);
      }
    }
  }

  lemma StartLongDescMirrors(info: ParseInfo)
    requires Mirrors(info) && info.states.head.LocalSchemaState?
    ensures Mirrors(Push(info, LongDescState))
  {
    AroundHolder(info, info.states.tail);
    AroundHolder(Push(info, LongDescState), info.states.tail);
  }

  lemma StartDefaultMirrors(info: ParseInfo, attrs: seq<Attr>)
    requires Mirrors(info) && info.states.head.LocalSchemaState? && StartLocalSchemaChild(info, TagDefault, attrs).Go?
    ensures Mirrors(StartLocalSchemaChild(info, TagDefault, attrs).info) <==> AttrValue(attrs, AtType).Some?
  {
    hide Locates;
    var next := StartLocalSchemaChild(info, TagDefault, attrs).info;
    assert WellStacked(info.states.tail);
    AroundHolder(info, info.states.tail);
    AroundHolder(next, info.states.tail);
    assert Expected(next, info.states) == Some(info.valueStack);
  }

  /** The value stack an open entry calls for. */
  function EntryStack(info: ParseInfo): Option<List<Pointer>> {
    if info.currentEntry == None then None
    else if info.currentEntry.value.value == None then Some(Nil)
    else Some(Cons(ENTRY_POINTER, Nil))
  }

  /** What is open around an element that may hold items: an entry, or a default inside one. */
  lemma AroundHolder(info: ParseInfo, states: List<State>)
    requires WellStacked(states) && HoldsChildren(states.head)
    ensures InLocalSchema(states) <==> states.head.DefaultState?
    ensures InEntry(states)
    ensures states.head.EntryState? ==> Expected(info, states) == EntryStack(info)
    ensures states.head.DefaultState? ==>
      Expected(info, states) ==
        if EntryStack(info) == None || info.localSchemas == [] || info.localSchemas[0].default == None
        then None else Some(Cons(DEFAULT_POINTER, EntryStack(info).value))
  {
    if states.head.EntryState? {
      OutsideEntries(info, states.tail);
    } else {
      var entry := states.tail.tail;
      assert WellStacked(states.tail);
      assert WellStacked(entry);
      OutsideEntries(info, entry.tail);
    }
  }

  /** An item without a value of its own leaves the value stack one short. */
  lemma ItemWithoutValue(info: ParseInfo, s: State)
    requires Mirrors(info) && IsItem(s)
    ensures !Mirrors(Push(info, s))
  {
    var next := Push(info, s);
    SameEntrySameExpected(info, next, info.states);
  }

  /** The expected value stack depends on the current entry and the local schemas only. */
  lemma SameEntrySameExpected(a: ParseInfo, b: ParseInfo, states: List<State>)
    requires a.currentEntry == b.currentEntry && a.localSchemas == b.localSchemas
    ensures Expected(a, states) == Expected(b, states)
  {
    if states.Cons? { SameEntrySameExpected(a, b, states.tail); }
  }

  /** Hanging an item below the value on top of the stack. */
  lemma AttachMirrors(info: ParseInfo, s: State, parent: Value, sel: Selector, v: Value)
    requires Mirrors(info) && HoldsChildren(info.states.head) && info.valueStack.Cons? && IsItem(s)
    requires Deref(info, info.valueStack.head).Some?
    requires Deref(info, info.valueStack.head).value.SchemaValue? ==> parent.SchemaValue?
    requires s.LiState? ==> parent.ListValue? && parent.elems != [] && sel == Elem(|parent.elems| - 1)
    requires s.CarState? ==> parent.PairValue? && parent.car.Some? && sel == Selector.Car
    requires s.CdrState? ==> parent.PairValue? && parent.cdr.Some? && sel == Selector.Cdr
    ensures Mirrors(Attach(Push(info, s), info.valueStack.head, parent, sel, v).info)
  {
    AttachStored(info, s, parent, sel, v);
    var next := Attach(Push(info, s), info.valueStack.head, parent, sel, v).info;
    hide Store, SetOwner, OwnerValue, Follow, Replace;
    assert Expected(next, next.states) == Some(next.valueStack);
  }

  lemma AttachStored(info: ParseInfo, s: State, parent: Value, sel: Selector, v: Value)
    requires Mirrors(info) && HoldsChildren(info.states.head) && info.valueStack.Cons? && IsItem(s)
    requires Deref(info, info.valueStack.head).Some?
    requires Deref(info, info.valueStack.head).value.SchemaValue? ==> parent.SchemaValue?
    ensures var p := info.valueStack.head;
      var next := Attach(Push(info, s), p, parent, sel, v).info;
      && Deref(next, p) == Some(parent) && Expected(next, info.states) == Some(info.valueStack) && EntryMirrors(next)
      && next.states == Cons(s, info.states) && next.dirStack == info.dirStack
      && next.valueStack == Cons(Pointer(p.owner, p.path + [sel]), info.valueStack)
  {
    var p := info.valueStack.head;
    var next := Attach(Push(info, s), p, parent, sel, v).info;
    AroundHolder(info, info.states);
    AroundHolder(next, info.states);
    assert p.path == [];
  }

  lemma StartLiMirrors(info: ParseInfo, attrs: seq<Attr>)
    requires Mirrors(info) && HoldsChildren(info.states.head) && info.valueStack.Cons?
    ensures StartLi(info, attrs) != Aborted
    ensures StartLi(info, attrs).Go? ==>
      (Mirrors(StartLi(info, attrs).info) <==> Typed(Start(TagLi, attrs)))
      && StartLi(info, attrs).info.states.tail == info.states
  {
    AroundHolder(info, info.states);
    var pv := ParseValue(attrs, info.floats);
    if pv.NoValue? {
      ItemWithoutValue(info, LiState);
    } else if pv.Parsed? && StartLi(info, attrs).Go? {
      var list := Deref(info, info.valueStack.head).value;
      AttachMirrors(info, LiState, list.(elems := list.elems + [pv.v]), Elem(|list.elems|), pv.v);
    }
  }

  lemma StartCarCdrMirrors(info: ParseInfo, isCar: bool, attrs: seq<Attr>)
    requires Mirrors(info) && HoldsChildren(info.states.head) && info.valueStack.Cons?
    ensures StartCarCdr(info, isCar, attrs) != Aborted
    ensures StartCarCdr(info, isCar, attrs).Go? ==>
      (Mirrors(StartCarCdr(info, isCar, attrs).info) <==> Typed(Start(if isCar then TagCar else TagCdr, attrs)))
      && StartCarCdr(info, isCar, attrs).info.states.tail == info.states
  {
    AroundHolder(info, info.states);
    var pv := ParseValue(attrs, info.floats);
    if pv.NoValue? {
      ItemWithoutValue(info, if isCar then CarState else CdrState);
    } else if pv.Parsed? && StartCarCdr(info, isCar, attrs).Go? {
      var pair := Deref(info, info.valueStack.head).value;
      if isCar {
        AttachMirrors(info, CarState, pair.(car := Some(pv.v)), Selector.Car, pv.v);
      } else {
        AttachMirrors(info, CdrState, pair.(cdr := Some(pv.v)), Selector.Cdr, pv.v);
      }
    }
  }

  /** The top of the value stack while an item is open: one step below its holder. */
  lemma ItemOnTop(info: ParseInfo, s: List<State>)
    requires WellStacked(s) && IsItem(s.head) && Expected(info, s) == Some(info.valueStack)
    ensures info.valueStack.Cons? && info.valueStack.tail.Cons?
    ensures var p, holder := info.valueStack.head, info.valueStack.tail.head;
      && (holder == ENTRY_POINTER || holder == DEFAULT_POINTER)
      && ItemPointer(info, s.head, holder) == Some(p)
      && p.owner == holder.owner && |p.path| == 1
  {
    AroundHolder(info, s.tail);
    var p, holder := info.valueStack.head, info.valueStack.tail.head;
    assert ItemPointer(info, s.head, holder) == Some(p) && holder.path == [];
  }

  /** Storing a string where the top of the value stack points to one. */
  lemma StoreMirrors(info: ParseInfo, x: Value, s: List<State>)
    requires Mirrors(info) && info.valueStack.Cons?
    requires Deref(info, info.valueStack.head).Some? && Deref(info, info.valueStack.head).value.StringValue?
    requires x.StringValue?
    requires s == if info.states.head.StringState? then info.states.tail else info.states
    requires HoldsChildren(s.head) || IsItem(s.head)
    ensures var next := Store(info, info.valueStack.head, x);
      Deref(next, info.valueStack.head) == Some(x)
      && Expected(next, s) == Some(info.valueStack) && EntryMirrors(next)
  {
    var p := info.valueStack.head;
    var next := Store(info, p, x);
    if HoldsChildren(s.head) {
      AroundHolder(info, s);
      AroundHolder(next, s);
    } else {
      StoreInItem(info, x, s);
    }
  }

  /** A write one step below an owner that is there keeps the pointer to the place, and everything else
      that the mirror looks at. */
  lemma StoreBelow(info: ParseInfo, s: State, holder: Pointer, x: Value)
    requires EntryMirrors(info) && InEntry(info.states) && IsItem(s)
    requires holder == ENTRY_POINTER || holder == DEFAULT_POINTER
    requires ItemPointer(info, s, holder).Some?
    ensures var p := ItemPointer(info, s, holder).value;
      var next := Store(info, p, x);
      && Deref(next, p) == Some(x) && ItemPointer(next, s, holder) == Some(p)
      && EntryMirrors(next) && EntryStack(next) == EntryStack(info)
      && next.states == info.states && next.valueStack == info.valueStack
      && (next.localSchemas != [] <==> info.localSchemas != [])
      && (next.localSchemas != [] ==>
            (next.localSchemas[0].default == None <==> info.localSchemas[0].default == None))
  {
    var p := ItemPointer(info, s, holder).value;
    assert holder.path == [] && holder.path + [p.path[0]] == [p.path[0]];
    StoreChild(info, p, x);
    OneStep(OwnerValue(info, p.owner).value, p.path[0], x);
    hide Store, Replace, Follow;
  }

  lemma StoreInItem(info: ParseInfo, x: Value, s: List<State>)
    requires WellStacked(s) && IsItem(s.head) && Expected(info, s) == Some(info.valueStack)
    requires EntryMirrors(info) && InEntry(info.states)
    requires Deref(info, info.valueStack.head).Some?
    ensures var next := Store(info, info.valueStack.head, x);
      Deref(next, info.valueStack.head) == Some(x)
      && Expected(next, s) == Some(info.valueStack) && EntryMirrors(next)
  {
    ItemOnTop(info, s);
    StoreBelow(info, s.head, info.valueStack.tail.head, x);
    AroundHolder(info, s.tail);
    AroundHolder(Store(info, info.valueStack.head, x), s.tail);
    hide Store, Deref, ItemPointer, EntryMirrors, EntryStack, Nests, InEntry, InLocalSchema;
  }

  lemma StartStringMirrors(info: ParseInfo)
    requires Mirrors(info) && info.valueStack.Cons?
    requires HoldsChildren(info.states.head) || IsItem(info.states.head)
    ensures StartString(info) != Aborted
    ensures StartString(info).Go? ==>
      Mirrors(StartString(info).info) && StartString(info).info.states.tail == info.states
  {
    TopIsLive(info, info.states);
    if StartString(info).Go? {
      StoreMirrors(info, StringValue(Some("")), info.states);
      StringOpens(info, Store(info, info.valueStack.head, StringValue(Some(""))));
    }
  }

  lemma StringOpens(info: ParseInfo, stored: ParseInfo)
    requires Mirrors(info) && info.valueStack.Cons?
    requires HoldsChildren(info.states.head) || IsItem(info.states.head)
    requires stored == Store(info, info.valueStack.head, StringValue(Some("")))
    requires Deref(stored, info.valueStack.head) == Some(StringValue(Some("")))
    requires Expected(stored, info.states) == Some(info.valueStack) && EntryMirrors(stored)
    ensures Mirrors(Push(stored, StringState))
    ensures Store(Push(info, StringState), info.valueStack.head, StringValue(Some(""))) == Push(stored, StringState)
  {
    SameEntrySameExpected(stored, Push(stored, StringState), info.states);
  }

  /** The top of the value stack points to a value. */
  lemma TopIsLive(info: ParseInfo, s: List<State>)
    requires Mirrors(info) && info.valueStack.Cons? && s == info.states
    requires HoldsChildren(s.head) || IsItem(s.head)
    ensures Deref(info, info.valueStack.head).Some?
  {
    if HoldsChildren(s.head) {
      AroundHolder(info, s);
    } else {
      ItemOnTop(info, s);
      var p := info.valueStack.head;
      assert p.path == [p.path[0]];
      var v := OwnerValue(info, p.owner).value;
      OneStep(v, p.path[0], v);
    }
  }

  /** A start tag: no assertion fails, and the stacks still mirror the open elements exactly when
      the element carries a type if it is one that holds a value. */
  lemma StartMirrors(info: ParseInfo, tag: Tag, attrs: seq<Attr>)
    requires Mirrors(info) && info.dirStack.Cons?
    ensures StartElement(info, tag, attrs) != Aborted
    ensures StartElement(info, tag, attrs).Go? ==>
      (Mirrors(StartElement(info, tag, attrs).info) <==> Typed(Start(tag, attrs)))
      && StartElement(info, tag, attrs).info.states.tail == info.states
  {
    hide Locates, AttrValue, ParseValue, StartEntry, StartDir, StartLocalSchemaChild, StartValueChild;
    match info.states.head
    case StartState =>
      var next := Push(info, GconfState);
      assert WellStacked(next.states);
      OutsideEntries(next, next.states);
      OutsideEntries(info, info.states);
    case GconfState => StartEntryMirrors(info, attrs); StartDirMirrors(info, attrs);
    case DirState => StartEntryMirrors(info, attrs); StartDirMirrors(info, attrs);
    case StringState =>
    case LongDescState =>
    case LocalSchemaState => StartLocalSchemaChildMirrors(info, tag, attrs);
    case _ => StartValueChildMirrors(info, tag, attrs);
  }

  lemma StartValueChildMirrors(info: ParseInfo, tag: Tag, attrs: seq<Attr>)
    requires Mirrors(info) && info.dirStack.Cons?
    requires HoldsChildren(info.states.head) || IsItem(info.states.head)
    ensures var next := StartValueChild(info, info.states.head, tag, attrs);
      next != Aborted
      && (next.Go? ==> (Mirrors(next.info) <==> Typed(Start(tag, attrs))) && next.info.states.tail == info.states)
  {
    var s := info.states.head;
    if StartValueChild(info, s, tag, attrs) != Rejected {
      ValueOnTop(info);
      match tag
      case TagStringValue => StartStringMirrors(info);
      case TagLocalSchema => StartLocalSchemaMirrors(info, attrs);
      case TagLi => StartLiMirrors(info, attrs);
      case TagCar => StartCarCdrMirrors(info, true, attrs);
      case TagCdr => StartCarCdrMirrors(info, false, attrs);
      case _ =>
    }
  }

  /** Unless the current entry has no value, there is one on the value stack. */
  lemma ValueOnTop(info: ParseInfo)
    requires Mirrors(info) && (HoldsChildren(info.states.head) || IsItem(info.states.head))
    requires info.states.head.EntryState? ==> info.currentEntry.value.value.Some?
    ensures info.valueStack.Cons?
    ensures info.states.head.EntryState? ==> PeekValue(info) == Some(ENTRY_POINTER)
  {
    if IsItem(info.states.head) { ItemOnTop(info, info.states); } else { AroundHolder(info, info.states); }
  }

  lemma TextMirrors(info: ParseInfo, text: string)
    requires Mirrors(info) && (info.states.head.StartState? ==> Blank(text))
    ensures TextRun(info, text) != Aborted
    ensures TextRun(info, text).Go? ==>
      Mirrors(TextRun(info, text).info) && TextRun(info, text).info.states == info.states
  {
    if !Blank(text) && info.states.head.StringState? {
      StoreMirrors(info, StringValue(Some(text)), info.states.tail);
    } else if !Blank(text) && info.states.head.LongDescState? {
      assert WellStacked(info.states.tail) && InLocalSchema(info.states.tail);
      var next := TextRun(info, text).info;
      LongDescOnly(info, next, info.states);
    }
  }

  /** Descriptions do not bear on the expected value stack. */
  lemma LongDescOnly(a: ParseInfo, b: ParseInfo, states: List<State>)
    requires a.currentEntry == b.currentEntry && a.localSchemas != [] && b.localSchemas != []
    requires a.localSchemas[0].default == b.localSchemas[0].default
    ensures Expected(a, states) == Expected(b, states)
  {
    if states.Cons? { LongDescOnly(a, b, states.tail); }
  }

  lemma SomeDirOpen(states: List<State>)
    requires WellStacked(states) && !InEntry(states)
    ensures DirDepth(states) > 0
  {
    if states.tail.Cons? { SomeDirOpen(states.tail); }
  }

  lemma EndItemMirrors(info: ParseInfo)
    requires Mirrors(info) && IsItem(info.states.head)
    ensures Mirrors(Pop(PopValue(info)))
  {
    AroundHolder(info, info.states.tail);
    SameEntrySameExpected(info, Pop(PopValue(info)), info.states.tail);
  }

  lemma EndEntryMirrors(info: ParseInfo)
    requires Mirrors(info) && info.states.head.EntryState?
    ensures EndEntry(info).Go? && Mirrors(EndEntry(info).info) && EndEntry(info).info.states == info.states.tail
  {
    AroundHolder(info, info.states);
    OutsideEntries(EndEntry(info).info, info.states.tail);
  }

  lemma EndDirMirrors(info: ParseInfo)
    requires Mirrors(info) && HoldsEntries(info.states.head)
    ensures EndDir(info).Go? && Mirrors(EndDir(info).info) && EndDir(info).info.states == info.states.tail
  {
    assert WellStacked(info.states.tail);
    OutsideEntries(info, info.states);
    OutsideEntries(EndDir(info).info, info.states.tail);
    if info.states.head.GconfState? {
      assert DirDepth(info.states) == 1 && Length(info.dirStack.tail) == 0;
      assert info.dirStack.tail.Nil?;
    } else {
      SomeDirOpen(info.states.tail);
      assert Length(info.dirStack.tail) == DirDepth(info.states.tail);
      assert info.dirStack.tail.Cons?;
    }
  }

  lemma EndDefaultMirrors(info: ParseInfo)
    requires Mirrors(info) && info.states.head.DefaultState?
    ensures EndDefault(info).Go? && Mirrors(EndDefault(info).info) && EndDefault(info).info.states == info.states.tail
  {
    AroundHolder(info, info.states);
    SameEntrySameExpected(info, EndDefault(info).info, info.states.tail);
  }

  lemma PopMirrors(info: ParseInfo)
    requires Mirrors(info)
    requires info.states.head.LocalSchemaState? || info.states.head.LongDescState? || info.states.head.StringState?
    ensures Mirrors(Pop(info))
  {
    assert WellStacked(info.states.tail);
    SameEntrySameExpected(info, Pop(info), info.states.tail);
  }

  /** An end tag never fails an assertion and keeps the mirror. */
  lemma EndMirrors(info: ParseInfo)
    requires Mirrors(info) && info.states.tail.Cons?
    ensures EndElement(info).Go?
    ensures Mirrors(EndElement(info).info) && EndElement(info).info.states == info.states.tail
  {
    assert WellStacked(info.states.tail);
    match info.states.head
    case StartState => assert false;
    case EntryState => EndEntryMirrors(info);
    case DirState => EndDirMirrors(info);
    case GconfState => EndDirMirrors(info);
    case DefaultState => EndDefaultMirrors(info);
    case LiState => EndItemMirrors(info);
    case CarState => EndItemMirrors(info);
    case CdrState => EndItemMirrors(info);
    case LocalSchemaState => PopMirrors(info);
    case LongDescState => PopMirrors(info);
    case StringState => PopMirrors(info);
  }

  // Whole documents

  /** An element with its children, as the tokenizer guarantees them: properly nested. */
  datatype Node = Element(tag: Tag, attrs: seq<Attr>, children: seq<Node>) | Chars(text: string)

  function Flatten(n: Node): seq<Event>
    decreases n, 1
  {
    match n
    case Chars(t) => [Text(t)]
    case Element(tag, attrs, children) => [Start(tag, attrs)] + FlattenAll(children) + [End(tag)]
  }

  function FlattenAll(ns: seq<Node>): seq<Event>
    decreases ns, 0
  {
    if ns == [] then [] else Flatten(ns[0]) + FlattenAll(ns[1..])
  }

  /** A properly nested element leaves the stacks as it found them. */
  lemma {:induction false} NodeMirrors(info: ParseInfo, n: Node)
    requires Mirrors(info) && info.dirStack.Cons?
    requires n.Chars? ==> !info.states.head.StartState?
    requires forall i :: 0 <= i < |Flatten(n)| ==> Typed(Flatten(n)[i])
    ensures Run(info, Flatten(n)) != Aborted
    ensures Run(info, Flatten(n)).Go? ==>
      Mirrors(Run(info, Flatten(n)).info) && Run(info, Flatten(n)).info.states == info.states
    decreases n, 1
  {
    match n
    case Chars(t) =>
      TextMirrors(info, t);
      RunOne(info, Text(t));
    case Element(tag, attrs, children) =>
      var es := Flatten(n);
      assert Typed(es[0]) && es[0] == Start(tag, attrs);
      StartMirrors(info, tag, attrs);
      RunConcat(info, [Start(tag, attrs)], FlattenAll(children) + [End(tag)]);
      assert es == [Start(tag, attrs)] + (FlattenAll(children) + [End(tag)]);
      RunOne(info, Start(tag, attrs));
      if Step(info, Start(tag, attrs)).Go? {
        var inside := Step(info, Start(tag, attrs)).info;
        RunConcat(inside, FlattenAll(children), [End(tag)]);
        forall i | 0 <= i < |FlattenAll(children)| ensures Typed(FlattenAll(children)[i]) {
          assert FlattenAll(children)[i] == es[i + 1];
        }
        assert inside.states.tail == info.states;
        assert WellStacked(inside.states) && info.states.Cons?;
        NodesMirror(inside, children);
        if Run(inside, FlattenAll(children)).Go? {
          var filled := Run(inside, FlattenAll(children)).info;
          RunOne(filled, End(tag));
          EndMirrors(filled);
        }
      }
  }

  lemma {:induction false} NodesMirror(info: ParseInfo, ns: seq<Node>)
    requires Mirrors(info) && info.states.tail.Cons?
    requires forall i :: 0 <= i < |FlattenAll(ns)| ==> Typed(FlattenAll(ns)[i])
    ensures Run(info, FlattenAll(ns)) != Aborted
    ensures Run(info, FlattenAll(ns)).Go? ==>
      Mirrors(Run(info, FlattenAll(ns)).info) && Run(info, FlattenAll(ns)).info.states == info.states
    decreases ns, 0
  {
    if ns != [] {
      var es := FlattenAll(ns);
      forall i | 0 <= i < |Flatten(ns[0])| ensures Typed(Flatten(ns[0])[i]) { assert Flatten(ns[0])[i] == es[i]; }
      forall i | 0 <= i < |FlattenAll(ns[1..])| ensures Typed(FlattenAll(ns[1..])[i]) {
        assert FlattenAll(ns[1..])[i] == es[|Flatten(ns[0])| + i];
      }
      NodeMirrors(info, ns[0]);
      RunConcat(info, Flatten(ns[0]), FlattenAll(ns[1..]));
      if Run(info, Flatten(ns[0])).Go? {
        NodesMirror(Run(info, Flatten(ns[0])).info, ns[1..]);
      }
    }
  }

  /** Every document in which each value element carries a type is read without a failed assertion,
      and once it is read every stack has unwound. */
  lemma DocumentUnwinds(root: Dir, allowSubdirs: bool, ft: FloatText, document: Node)
    requires document.Element?
    requires forall i :: 0 <= i < |Flatten(document)| ==> Typed(Flatten(document)[i])
    ensures var read := Run(Init(root, allowSubdirs, ft), Flatten(document));
      && read != Aborted
      && (read.Go? ==>
            && read.info.states == Cons(StartState, Nil) && read.info.dirStack == Nil
            && read.info.valueStack == Nil && read.info.localSchemas == []
            && read.info.currentEntry == None && read.info.root.Some?)
  {
    var info := Init(root, allowSubdirs, ft);
    FreshMirrors(info);
    NodeMirrors(info, document);
    var read := Run(info, Flatten(document));
    if read.Go? {
      OutsideEntries(read.info, read.info.states);
      RootCloses(info, document);
    }
  }

  lemma FreshMirrors(info: ParseInfo)
    requires info.states == Cons(StartState, Nil) && info.currentEntry == None
    requires info.valueStack == Nil && info.localSchemas == []
    requires info.dirStack.Cons? && info.dirStack.tail == Nil
    ensures Mirrors(info)
  {
    assert WellStacked(info.states);
    OutsideEntries(info, info.states);
    assert DirDepth(info.states) == 1 && Length(info.dirStack) == 1;
  }

  /** Only </gconf> empties the directory stack, and a document element is <gconf>. */
  lemma RootCloses(info: ParseInfo, document: Node)
    requires Mirrors(info) && info.states == Cons(StartState, Nil) && info.dirStack.Cons?
    requires document.Element? && Run(info, Flatten(document)).Go?
    requires forall i :: 0 <= i < |Flatten(document)| ==> Typed(Flatten(document)[i])
    ensures Run(info, Flatten(document)).info.dirStack == Nil
  {
    var Element(tag, attrs, children) := document;
    var es := Flatten(document);
    assert es == [Start(tag, attrs)] + (FlattenAll(children) + [End(tag)]);
    RunConcat(info, [Start(tag, attrs)], FlattenAll(children) + [End(tag)]);
    RunOne(info, Start(tag, attrs));
    StartMirrors(info, tag, attrs);
    var inside := Step(info, Start(tag, attrs)).info;
    forall i | 0 <= i < |FlattenAll(children)| ensures Typed(FlattenAll(children)[i]) {
      assert FlattenAll(children)[i] == es[i + 1];
    }
    assert Typed(es[0]) && es[0] == Start(tag, attrs);
    NodesMirror(inside, children);
    RunConcat(inside, FlattenAll(children), [End(tag)]);
    var filled := Run(inside, FlattenAll(children)).info;
    RunOne(filled, End(tag));
    GconfEndEmptiesDirStack(filled);
  }

  lemma GconfEndEmptiesDirStack(info: ParseInfo)
    requires Mirrors(info) && info.states == Cons(GconfState, Cons(StartState, Nil))
    ensures EndElement(info).Go? && EndElement(info).info.dirStack == Nil
  {
    assert DirDepth(info.states) == 1;
    assert Length(info.dirStack.tail) == 0;
  }

  /** Without the types an assertion can fail: <default/> in a local schema. */
  lemma UntypedDefaultAborts(root: Dir, allowSubdirs: bool, ft: FloatText)
    ensures var entryAttrs := [(AtName, "k"), (AtType, "schema"), (AtStype, "int")];
      Run(Init(root, allowSubdirs, ft), Flatten(Untyped(entryAttrs))) == Aborted
  {
    var entryAttrs := [(AtName, "k"), (AtType, "schema"), (AtStype, "int")];
    FlattenUntyped(entryAttrs);
    RunUntyped(Init(root, allowSubdirs, ft), entryAttrs);
    RunConcat(Init(root, allowSubdirs, ft), UntypedEvents(entryAttrs), [End(TagLocalSchema), End(TagEntry), End(TagGconf)]);
  }

  /** A document with a default without a type. */
  function Untyped(entryAttrs: seq<Attr>): Node {
    Element(TagGconf, [], [Element(TagEntry, entryAttrs,
      [Element(TagLocalSchema, [(AtLocale, "C")], [Element(TagDefault, [], [])])])])
  }

  function UntypedEvents(entryAttrs: seq<Attr>): seq<Event> {
    [Start(TagGconf, []), Start(TagEntry, entryAttrs), Start(TagLocalSchema, [(AtLocale, "C")]),
     Start(TagDefault, []), End(TagDefault)]
  }

  lemma FlattenUntyped(entryAttrs: seq<Attr>)
    ensures Flatten(Untyped(entryAttrs)) == UntypedEvents(entryAttrs) + [End(TagLocalSchema), End(TagEntry), End(TagGconf)]
  {
    var es := UntypedEvents(entryAttrs);
    var defaultElement := Element(TagDefault, [], []);
    var schema := Element(TagLocalSchema, [(AtLocale, "C")], [defaultElement]);
    var entry := Element(TagEntry, entryAttrs, [schema]);
    assert FlattenAll([defaultElement]) == [Start(TagDefault, []), End(TagDefault)];
    assert FlattenAll([schema]) == es[2..] + [End(TagLocalSchema)];
    assert FlattenAll([entry]) == es[1..] + [End(TagLocalSchema), End(TagEntry)];
  }

  lemma RunUntyped(info: ParseInfo, entryAttrs: seq<Attr>)
    requires info.states == Cons(StartState, Nil) && info.dirStack.Cons? && info.currentEntry == None
    requires info.localSchemas == [] && info.valueStack == Nil
    requires entryAttrs == [(AtName, "k"), (AtType, "schema"), (AtStype, "int")]
    ensures Run(info, UntypedEvents(entryAttrs)) == Aborted
  {
    var es := UntypedEvents(entryAttrs);
    var i1 := Push(info, GconfState);
    assert Step(info, es[0]) == Go(i1);
    var i2 := EntryForDefault(i1, entryAttrs);
    DefaultEndAborts(i2);
    RunConcat(i1, [es[1]], es[2..]);
    RunOne(i1, es[1]);
    RunConcat(info, [es[0]], es[1..]);
    RunOne(info, es[0]);
    hide Step, Run;
    assert es[1..] == [es[1]] + es[2..] && es == [es[0]] + es[1..];
  }

  lemma DefaultEndAborts(info: ParseInfo)
    requires info.states.Cons? && info.states.head == EntryState
    requires info.currentEntry.Some? && info.currentEntry.value.value.Some?
    requires info.currentEntry.value.value.value.SchemaValue?
    requires PeekValue(info) == Some(ENTRY_POINTER)
    ensures Run(info, [Start(TagLocalSchema, [(AtLocale, "C")]), Start(TagDefault, []), End(TagDefault)]) == Aborted
  {
    var attrs := [(AtLocale, "C")];
    assert attrs[1..] == [] && AttrValue(attrs, AtLocale) == Some("C");
    assert Locates(attrs, {AtLocale, AtShortDesc});
    var es := [Start(TagLocalSchema, attrs), Start(TagDefault, []), End(TagDefault)];
    assert Step(info, es[0]).Go?;
    var inSchema := Step(info, es[0]).info;
    var inDefault := Push(inSchema, DefaultState);
    assert Step(inSchema, es[1]) == Go(inDefault);
    assert Step(inDefault, es[2]) == Aborted;
    RunConcat(inSchema, [es[1]], [es[2]]);
    RunOne(inSchema, es[1]);
    RunOne(inDefault, es[2]);
    RunConcat(info, [es[0]], es[1..]);
    RunOne(info, es[0]);
    assert es[1..] == [es[1]] + [es[2]] && es == [es[0]] + es[1..];
  }

  lemma EntryForDefault(info: ParseInfo, attrs: seq<Attr>) returns (next: ParseInfo)
    requires info.states.Cons? && info.states.head == GconfState
    requires info.dirStack.Cons? && info.currentEntry == None
    requires attrs == [(AtName, "k"), (AtType, "schema"), (AtStype, "int")]
    ensures Step(info, Start(TagEntry, attrs)) == Go(next)
    ensures next.states == Cons(EntryState, info.states) && next.valueStack == Cons(ENTRY_POINTER, info.valueStack)
    ensures next.currentEntry.Some? && next.currentEntry.value.value.Some?
    ensures next.currentEntry.value.value.value.SchemaValue? && next.localSchemas == info.localSchemas
  {
    EntryAttrs(attrs);
    TypeNameRoundTrip(TSchema);
    TypeNameRoundTrip(TInt);
    hide AttrValue, Locates, TypeFromName;
    assert ParseTyped(TSchema, attrs, info.floats).Parsed?;
    next := Step(info, Start(TagEntry, attrs)).info;
  }

  function ExampleAttr(n: AttrName): Option<string> {
    if n == AtName then Some("k")
    else if n == AtType then Some(TypeName(TSchema))
    else if n == AtStype then Some(TypeName(TInt))
    else None
  }

  /** What is read from the attributes of an entry that holds a schema. */
  lemma EntryAttrs(attrs: seq<Attr>)
    requires attrs == [(AtName, "k"), (AtType, "schema"), (AtStype, "int")]
    ensures Locates(attrs, VALUE_ATTRS)
    ensures forall n :: AttrValue(attrs, n) == ExampleAttr(n)
  {
    var name, typ, stype := (AtName, "k"), (AtType, "schema"), (AtStype, "int");
    assert attrs == [name] + ([typ] + ([stype] + []));
    forall n ensures AttrValue(attrs, n) ==
      if n == AtName then Some(name.1) else if n == AtType then Some(typ.1)
      else if n == AtStype then Some(stype.1) else None
    {
      AttrCons(stype, [], n, VALUE_ATTRS);
      AttrCons(typ, [stype] + [], n, VALUE_ATTRS);
      AttrCons(name, [typ] + ([stype] + []), n, VALUE_ATTRS);
    }
    AttrCons(stype, [], AtType, VALUE_ATTRS);
    AttrCons(stype, [], AtName, VALUE_ATTRS);
    AttrCons(typ, [stype] + [], AtName, VALUE_ATTRS);
    AttrCons(name, [typ] + ([stype] + []), AtName, VALUE_ATTRS);
  }
}
