/** The markup reader as the program keeps it: one object whose stacks are pushed and popped in place by
    the handlers of the tokenizer's events. Each handler is proved against the functions of
    MarkupParser. */
module MarkupReader {
  import opened Basics
  import opened Decimal
  import opened Values
  import opened MarkupTypes
  import opened MarkupParser
  import opened MarkupPrinter
  import opened MarkupMirror
  import A = MarkupAborts
  import R = MarkupRoundTrip

  /** A handler ends well, sets a GError, or fails an assertion. */
  datatype Status = Fine | Failed | Crashed

  /** The status and the new state that an outcome stands for. */
  ghost predicate Shows(o: Outcome, status: Status, after: ParseInfo) {
    match o
    case Go(info) => status == Fine && after == info
    case Rejected => status == Failed
    case Aborted => status == Crashed
  }

  /** locate_attributes: every name is known and none comes twice. */
  method LocateAttributes(attrs: seq<Attr>, known: set<AttrName>) returns (ok: bool)
    ensures ok <==> Locates(attrs, known)
  {
    var i := 0;
    var seen: set<AttrName> := {};
    assert attrs[0..] == attrs;
    while i < |attrs|
      invariant 0 <= i <= |attrs|
      invariant Locates(attrs, known) <==> Locates(attrs[i..], known) && Unseen(seen, attrs[i..])
      decreases |attrs| - i
    {
      LocateOne(attrs[i..], known, seen);
      assert attrs[i..][1..] == attrs[i + 1..] && attrs[i..][0] == attrs[i];
      if attrs[i].0 !in known || attrs[i].0 in seen { return false; }
      seen := seen + {attrs[i].0};
      i := i + 1;
    }
    return true;
  }

  ghost predicate Unseen(seen: set<AttrName>, attrs: seq<Attr>) {
    forall n :: n in seen ==> AttrValue(attrs, n) == None
  }

  lemma LocateOne(attrs: seq<Attr>, known: set<AttrName>, seen: set<AttrName>)
    requires attrs != []
    ensures Locates(attrs, known) && Unseen(seen, attrs) <==>
      attrs[0].0 in known && attrs[0].0 !in seen
      && Locates(attrs[1..], known) && Unseen(seen + {attrs[0].0}, attrs[1..])
  {
    if Locates(attrs, known) && Unseen(seen, attrs) {
      forall n | n in seen ensures AttrValue(attrs[1..], n) == None { assert AttrValue(attrs, n) == None; }
    }
    if attrs[0].0 !in seen && Unseen(seen + {attrs[0].0}, attrs[1..]) {
      forall n | n in seen ensures AttrValue(attrs, n) == None { assert AttrValue(attrs[1..], n) == None; }
      assert AttrValue(attrs[1..], attrs[0].0) == None;
    }
  }

  class Reader {
    var states: List<State>
    var dirStack: List<Dir>
    var root: Option<Dir>
    var currentEntry: Option<Entry>
    var valueStack: List<Pointer>
    var localSchemas: seq<LocalSchema>
    const allowSubdirs: bool
    const floats: FloatText

    /** parse_info_init */
    constructor (dir: Dir, allowSubdirs: bool, floats: FloatText)
      ensures Info() == Init(dir, allowSubdirs, floats)
    {
      states, dirStack, root, currentEntry := Cons(StartState, Nil), Cons(dir, Nil), None, None;
      valueStack, localSchemas := Nil, [];
      this.allowSubdirs, this.floats := allowSubdirs, floats;
    }

    function Info(): ParseInfo
      reads this
    {
      ParseInfo(states, dirStack, root, currentEntry, valueStack, localSchemas, allowSubdirs, floats)
    }

    // The stacks

    method PushState(s: State)
      modifies `states
      ensures Info() == Push(old(Info()), s)
    {
      states := Cons(s, states);
    }

    method PopState()
      modifies `states
      ensures Info() == Pop(old(Info()))
    {
      if states.Cons? { states := states.tail; }
    }

    method ValueStackPush(p: Pointer)
      modifies `valueStack
      ensures Info() == PushValue(old(Info()), p)
    {
      valueStack := Cons(p, valueStack);
    }

    method ValueStackPop()
      modifies `valueStack
      ensures Info() == PopValue(old(Info()))
    {
      if valueStack.Cons? { valueStack := valueStack.tail; }
    }

    /** A write through a pointer of the value stack. */
    method Assign(p: Pointer, x: Value)
      modifies `currentEntry, `localSchemas
      ensures Info() == Store(old(Info()), p, x)
    {
      match p.owner
      case OfEntry =>
        if currentEntry.Some? && currentEntry.value.value.Some? {
          currentEntry := Some(currentEntry.value.(value := Some(Replace(currentEntry.value.value.value, p.path, x))));
        }
      case OfDefault =>
        if localSchemas != [] && localSchemas[0].default.Some? {
          localSchemas :=
            [localSchemas[0].(default := Some(Replace(localSchemas[0].default.value, p.path, x)))] + localSchemas[1..];
        }
    }

    // Start tags

    /** parse_entry_element */
    method ParseEntryElement(attrs: seq<Attr>) returns (status: Status)
      modifies this
      ensures Shows(StartEntry(old(Info()), attrs), status, Info())
    {
      if currentEntry.Some? || dirStack.Nil? { return Crashed; }
      var located := LocateAttributes(attrs, VALUE_ATTRS);
      var name := AttrValue(attrs, AtName);
      if !located || name.None? { return Failed; }
      var pv := ParseValue(attrs, floats);
      if pv.BadValue? { return Failed; }
      PushState(EntryState);
      var entry := Entry(name.value, None, [], None, None, 0);
      if pv.Parsed? {
        entry := entry.(value := Some(pv.v));
        ValueStackPush(Pointer(OfEntry, []));
      }
      var muser, mtime := AttrValue(attrs, AtMuser), AttrValue(attrs, AtMtime);
      entry := entry.(modUser := muser);
      if mtime.Some? { entry := entry.(modTime := ReadTime(mtime.value)); }
      entry := entry.(schemaName := AttrValue(attrs, AtSchema));
      currentEntry := Some(entry);
      return Fine;
    }

    /** parse_dir_element */
    method ParseDirElement(attrs: seq<Attr>) returns (status: Status)
      modifies this
      ensures Shows(StartDir(old(Info()), attrs), status, Info())
    {
      if dirStack.Nil? { return Crashed; }
      var located := LocateAttributes(attrs, {AtName});
      var name := AttrValue(attrs, AtName);
      if !located || name.None? { return Failed; }
      PushState(DirState);
      dirStack := Cons(Dir(name.value, [], []), dirStack);
      return Fine;
    }

    /** parse_local_schema_element */
    method ParseLocalSchemaElement(attrs: seq<Attr>) returns (status: Status)
      modifies this
      ensures Shows(StartLocalSchema(old(Info()), attrs), status, Info())
    {
      if currentEntry.None? || currentEntry.value.value.None? || !currentEntry.value.value.value.SchemaValue? {
        return Failed;
      }
      var located := LocateAttributes(attrs, {AtLocale, AtShortDesc});
      var locale := AttrValue(attrs, AtLocale);
      if !located || locale.None? { return Failed; }
      PushState(LocalSchemaState);
      localSchemas := [LocalSchema(locale.value, AttrValue(attrs, AtShortDesc), None, None)] + localSchemas;
      return Fine;
    }

    /** parse_local_schema_child_element */
    method ParseLocalSchemaChildElement(tag: Tag, attrs: seq<Attr>) returns (status: Status)
      modifies this
      ensures Shows(StartLocalSchemaChild(old(Info()), tag, attrs), status, Info())
    {
      if localSchemas == [] { return Crashed; }
      var localSchema := localSchemas[0];
      if tag == TagDefault {
        PushState(DefaultState);
        var pv := ParseValue(attrs, floats);
        if pv.BadValue? { return Failed; }
        if pv.Parsed? {
          if localSchema.default.Some? { return Failed; }
          localSchemas := [localSchema.(default := Some(pv.v))] + localSchemas[1..];
          ValueStackPush(Pointer(OfDefault, []));
        }
        return Fine;
      } else if tag == TagLongDesc {
        if localSchema.longDesc.Some? { return Failed; }
        PushState(LongDescState);
        return Fine;
      }
      return Failed;
    }

    /** parse_car_or_cdr_element */
    method ParseCarOrCdrElement(isCar: bool, attrs: seq<Attr>) returns (status: Status)
      modifies this
      ensures Shows(StartCarCdr(old(Info()), isCar, attrs), status, Info())
    {
      var state := if isCar then CarState else CdrState;
      var pv := ParseValue(attrs, floats);
      if pv.BadValue? { return Failed; }
      if pv.NoValue? {
        PushState(state);
        return Fine;
      }
      if valueStack.Nil? { return Crashed; }
      var p := valueStack.head;
      var top := Deref(Info(), p);
      if top.None? { return Crashed; }
      var pair := top.value;
      if !pair.PairValue? || (if isCar then pair.car.Some? else pair.cdr.Some?) { return Failed; }
      PushState(state);
      if isCar { pair := pair.(car := Some(pv.v)); } else { pair := pair.(cdr := Some(pv.v)); }
      Assign(p, pair);
      ValueStackPush(Pointer(p.owner, p.path + [if isCar then Selector.Car else Selector.Cdr]));
      return Fine;
    }

    /** parse_li_element */
    method ParseLiElement(attrs: seq<Attr>) returns (status: Status)
      modifies this
      ensures Shows(StartLi(old(Info()), attrs), status, Info())
    {
      var pv := ParseValue(attrs, floats);
      if pv.BadValue? { return Failed; }
      if pv.NoValue? {
        PushState(LiState);
        return Fine;
      }
      if valueStack.Nil? { return Crashed; }
      var p := valueStack.head;
      var top := Deref(Info(), p);
      if top.None? { return Crashed; }
      var list := top.value;
      if !list.ListValue? || pv.v.Type() != list.elemType { return Failed; }
      PushState(LiState);
      Assign(p, list.(elems := list.elems + [pv.v]));
      ValueStackPush(Pointer(p.owner, p.path + [Elem(|list.elems|)]));
      return Fine;
    }

    /** parse_value_child_element */
    method ParseValueChildElement(state: State, tag: Tag, attrs: seq<Attr>) returns (status: Status)
      modifies this
      ensures Shows(StartValueChild(old(Info()), state, tag, attrs), status, Info())
    {
      if state.EntryState? {
        if currentEntry.None? { return Crashed; }
        if currentEntry.value.value.None? { return Failed; }
        if valueStack.Nil? || valueStack.head != Pointer(OfEntry, []) { return Crashed; }
      }
      if tag == TagStringValue {
        if valueStack.Nil? { return Crashed; }
        var p := valueStack.head;
        var top := Deref(Info(), p);
        if top.None? { return Crashed; }
        if !top.value.StringValue? { return Failed; }
        PushState(StringState);
        Assign(p, StringValue(Some("")));
        return Fine;
      } else if tag == TagLocalSchema {
        if !state.EntryState? { return Failed; }
        status := ParseLocalSchemaElement(attrs);
      } else if tag == TagCar || tag == TagCdr || tag == TagLi {
        if !state.EntryState? && !state.DefaultState? { return Failed; }
        if tag == TagLi { status := ParseLiElement(attrs); } else { status := ParseCarOrCdrElement(tag == TagCar, attrs); }
      } else {
        return Failed;
      }
    }

    /** start_element_handler. While the stacks mirror the open elements no assertion fails, and they go
        on doing so exactly if the element has a type where it holds a value. */
    method StartElementHandler(tag: Tag, attrs: seq<Attr>) returns (status: Status)
      modifies this
      ensures Shows(StartElement(old(Info()), tag, attrs), status, Info())
      ensures old(Mirrors(Info()) && dirStack.Cons?) ==>
        status != Crashed
        && (status == Fine ==> (Mirrors(Info()) <==> Typed(Start(tag, attrs))) && states.Cons? && states.tail == old(states))
    {
      if Mirrors(Info()) && dirStack.Cons? { StartMirrors(Info(), tag, attrs); }
      hide Mirrors, Typed;
      if states.Nil? { return Crashed; }
      match states.head
      case StartState =>
        if tag != TagGconf || attrs != [] { return Failed; }
        PushState(GconfState);
        return Fine;
      case GconfState => status := StartInsideDir(tag, attrs);
      case DirState => status := StartInsideDir(tag, attrs);
      case StringState => return Failed;
      case LongDescState => return Failed;
      case LocalSchemaState => status := ParseLocalSchemaChildElement(tag, attrs);
      case state => status := ParseValueChildElement(state, tag, attrs);
    }

    method StartInsideDir(tag: Tag, attrs: seq<Attr>) returns (status: Status)
      modifies this
      ensures Shows(StartInDir(old(Info()), tag, attrs), status, Info())
    {
      if tag == TagEntry {
        status := ParseEntryElement(attrs);
      } else if tag == TagDir && allowSubdirs {
        status := ParseDirElement(attrs);
      } else {
        return Failed;
      }
    }

    // End tags and text

    method FinishEntry() returns (status: Status)
      modifies this
      ensures Shows(EndEntry(old(Info())), status, Info())
    {
      if currentEntry.None? || currentEntry.value.localSchemas != [] || dirStack.Nil? { return Crashed; }
      var entry := currentEntry.value.(localSchemas := Reverse(localSchemas));
      localSchemas := [];
      if entry.value.Some? { ValueStackPop(); }
      dirStack := Cons(dirStack.head.(entries := [entry] + dirStack.head.entries), dirStack.tail);
      currentEntry := None;
      PopState();
      return Fine;
    }

    method FinishDefault() returns (status: Status)
      modifies this
      ensures Shows(EndDefault(old(Info())), status, Info())
    {
      if localSchemas == [] { return Crashed; }
      // the program's own assertion
      if localSchemas[0].default.Some? {
        if valueStack.Nil? || valueStack.head != Pointer(OfDefault, []) { return Crashed; }
      } else if valueStack.Cons? {
        return Crashed;
      }
      ValueStackPop();
      PopState();
      return Fine;
    }

    method FinishDir() returns (status: Status)
      modifies this
      ensures Shows(EndDir(old(Info())), status, Info())
    {
      if dirStack.Nil? { return Crashed; }
      var dir := dirStack.head;
      dir := dir.(entries := Reverse(dir.entries), subdirs := Reverse(dir.subdirs));
      dirStack := dirStack.tail;
      if dirStack.Nil? {
        root := Some(dir);
      } else {
        dirStack := Cons(dirStack.head.(subdirs := [dir] + dirStack.head.subdirs), dirStack.tail);
      }
      PopState();
      return Fine;
    }

    /** end_element_handler. It closes an element without a failed assertion and keeps the mirror. */
    method EndElementHandler() returns (status: Status)
      modifies this
      ensures Shows(EndElement(old(Info())), status, Info())
      ensures old(Mirrors(Info()) && states.Cons? && states.tail.Cons?) ==>
        status == Fine && Mirrors(Info()) && states == old(states).tail
    {
      if Mirrors(Info()) && states.tail.Cons? { EndMirrors(Info()); }
      hide Mirrors;
      if states.Nil? { return Crashed; }
      status := Fine;
      match states.head
      case StartState =>
      case EntryState => status := FinishEntry();
      case DefaultState => status := FinishDefault();
      case DirState => status := FinishDir();
      case GconfState => status := FinishDir();
      case CarState => ValueStackPop(); PopState();
      case CdrState => ValueStackPop(); PopState();
      case LiState => ValueStackPop(); PopState();
      case LocalSchemaState => PopState();
      case LongDescState => PopState();
      case StringState => PopState();
    }

    /** all_whitespace */
    method AllWhitespace(text: string) returns (blank: bool)
      ensures blank <==> Blank(text)
    {
      var p := 0;
      while p < |text|
        invariant 0 <= p <= |text| && forall i :: 0 <= i < p ==> IsSpace(text[i])
      {
        if !IsSpace(text[p]) { return false; }
        p := p + 1;
      }
      return true;
    }

    /** text_handler. It fails no assertion inside an element and keeps the mirror. */
    method TextHandler(text: string) returns (status: Status)
      modifies this
      ensures Shows(TextRun(old(Info()), text), status, Info())
      ensures old(Mirrors(Info()) && states.Cons? && !states.head.StartState?) ==>
        status != Crashed && (status == Fine ==> Mirrors(Info()) && states == old(states))
    {
      if Mirrors(Info()) && !states.head.StartState? { TextMirrors(Info(), text); }
      hide Mirrors;
      var blank := AllWhitespace(text);
      if blank { return Fine; }
      if states.Nil? { return Crashed; }
      match states.head
      case StartState => return Crashed;
      case StringState =>
        if valueStack.Nil? { return Crashed; }
        var top := Deref(Info(), valueStack.head);
        if top.None? || !top.value.StringValue? { return Crashed; }
        Assign(valueStack.head, StringValue(Some(text)));
        return Fine;
      case LongDescState =>
        if localSchemas == [] { return Crashed; }
        localSchemas := [localSchemas[0].(longDesc := Some(text))] + localSchemas[1..];
        return Fine;
      case _ => return Failed;
    }

    method Handle(e: Event) returns (status: Status)
      modifies this
      ensures Shows(Step(old(Info()), e), status, Info())
    {
      match e
      case Start(tag, attrs) => status := StartElementHandler(tag, attrs);
      case End(_) => status := EndElementHandler();
      case Text(text) => status := TextHandler(text);
    }

    /** The loop of parse_tree over what the tokenizer reports. */
    method ReadEvents(events: seq<Event>) returns (status: Status)
      modifies this
      ensures Shows(Run(old(Info()), events), status, Info())
    {
      var i := 0;
      assert events[0..] == events;
      while i < |events|
        invariant 0 <= i <= |events|
        invariant Run(old(Info()), events) == Run(Info(), events[i..])
        decreases |events| - i
      {
        RunNext(Info(), events, i);
        status := Handle(events[i]);
        if status != Fine { return; }
        i := i + 1;
      }
      assert events[i..] == [];
      status := Fine;
    }
  }

  lemma RunNext(info: ParseInfo, es: seq<Event>, i: nat)
    requires i < |es|
    ensures Run(info, es[i..]) ==
      match Step(info, es[i])
      case Go(next) => Run(next, es[i + 1..])
      case other => other
  {
    assert es[i..][0] == es[i] && es[i..][1..] == es[i + 1..];
  }

  /** parse_tree of the file of a directory. On any layout of the events that a tree is written as, the
      result is that tree exactly if it is re-readable; and on any nested document that is not an error,
      an assertion fails exactly if the document breaks. */
  method ReadTree(dir: Dir, allowSubdirs: bool, floats: FloatText, events: seq<Event>) returns (result: ParseResult)
    ensures result == ParseTree(dir, allowSubdirs, floats, events)
    ensures floats.Faithful() && dir.entries == [] && dir.subdirs == [] && R.NoBlank(events) != [] ==>
      forall d: Dir :: d.name == dir.name && R.NoBlank(events) == R.NoBlank(FileEvents(floats, d, allowSubdirs)) ==>
        (result == Tree(d) <==> R.FileReadable(d, allowSubdirs))
    ensures result != ParseError ==>
      forall document: Node :: document.Element? && events == Flatten(document) ==>
        (result == ParseAbort <==> A.Breaks(document))
  {
    var reader := new Reader(dir, allowSubdirs, floats);
    var status := reader.ReadEvents(events);
    match status {
      case Failed => result := ParseError;
      case Crashed => result := ParseAbort;
      case Fine => result := if reader.root.Some? then Tree(reader.root.value) else ParseError;
    }
    ReadsBack(dir, allowSubdirs, floats, events);
    forall document: Node | document.Element? && events == Flatten(document) && result != ParseError
      ensures result == ParseAbort <==> A.Breaks(document)
    {
      A.AbortsExactly(dir, allowSubdirs, floats, document);
    }
  }

  lemma ReadsBack(dir: Dir, subtree: bool, floats: FloatText, events: seq<Event>)
    ensures floats.Faithful() && dir.entries == [] && dir.subdirs == [] && R.NoBlank(events) != [] ==>
      forall d: Dir :: d.name == dir.name && R.NoBlank(events) == R.NoBlank(FileEvents(floats, d, subtree)) ==>
        (ParseTree(dir, subtree, floats, events) == Tree(d) <==> R.FileReadable(d, subtree))
  {
    if floats.Faithful() && dir.entries == [] && dir.subdirs == [] && R.NoBlank(events) != [] {
      forall d: Dir | d.name == dir.name && R.NoBlank(events) == R.NoBlank(FileEvents(floats, d, subtree))
        ensures ParseTree(dir, subtree, floats, events) == Tree(d) <==> R.FileReadable(d, subtree)
      {
        R.ParseUndoesPrint(floats, d, subtree, events);
        assert dir == Dir(d.name, [], []);
      }
    }
  }
}
