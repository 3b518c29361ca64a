/** When the reader fails an assertion (or reads through NULL). The end tag of a list item or of a member
    of a pair pops a pointer from the value stack whether its start tag pushed one or not, and it pushes
    none if the element has no type. `Breaks' says on the element tree when a pointer that was taken away
    like this is missed later; the reader aborts on exactly those of the documents it does not reject. */
module MarkupAborts {
  import opened Basics
  import opened Values
  import opened MarkupTypes
  import opened MarkupParser
  import opened MarkupMirror

  // The condition

  predicate IsItemTag(t: Tag) { t == TagLi || t == TagCar || t == TagCdr }

  predicate HasType(attrs: seq<Attr>) { AttrValue(attrs, AtType).Some? }

  /** An item without a type takes away the pointer that was on top before it. */
  predicate Loose(n: Node) { n.Element? && IsItemTag(n.tag) && !HasType(n.attrs) }

  predicate HasElement(ns: seq<Node>) { exists i :: 0 <= i < |ns| && ns[i].Element? }

  /** An element that looks at the top of the value stack. */
  predicate Needs(n: Node) {
    n.Element? && (n.tag == TagStringValue
                   || (IsItemTag(n.tag) && (HasType(n.attrs) || HasElement(n.children))))
  }

  predicate AnyLoose(ns: seq<Node>) { exists i :: 0 <= i < |ns| && Loose(ns[i]) }

  predicate AnyNeeds(ns: seq<Node>) { exists i :: 0 <= i < |ns| && Needs(ns[i]) }

  predicate UntypedDefault(n: Node) { n.Element? && n.tag == TagDefault && !HasType(n.attrs) }

  predicate AnyUntypedDefault(ns: seq<Node>) { exists i :: 0 <= i < |ns| && UntypedDefault(ns[i]) }

  /** A default breaks if it has a type and a loose item in it, or has no type and: an earlier one of the
      same local schema has; or the entry's pointer is still there at the end; or it was missed before. */
  predicate DefaultBreaks(n: Node, held: bool, hasDefault: bool)
    requires n.Element?
  {
    if HasType(n.attrs) then AnyLoose(n.children)
    else hasDefault || (held && !AnyLoose(n.children)) || AnyNeeds(n.children)
  }

  /** The children of a local schema. `held' says that the entry's pointer is still on the stack. */
  predicate LocalBreaks(ns: seq<Node>, held: bool, hasDefault: bool) {
    if ns == [] then false
    else if !(ns[0].Element? && ns[0].tag == TagDefault) then LocalBreaks(ns[1..], held, hasDefault)
    else
      || DefaultBreaks(ns[0], held, hasDefault)
      || LocalBreaks(ns[1..], held && HasType(ns[0].attrs), hasDefault || HasType(ns[0].attrs))
  }

  /** A child that takes away the pointer of its entry. */
  predicate UsesUp(n: Node) {
    Loose(n) || (n.Element? && n.tag == TagLocalSchema && AnyUntypedDefault(n.children))
  }

  /** The children of an entry with a type: after one that takes away the pointer there may be no other. */
  predicate EntryBreaks(ns: seq<Node>, held: bool) {
    if ns == [] then false
    else if ns[0].Chars? then EntryBreaks(ns[1..], held)
    else
      || !held
      || (ns[0].tag == TagLocalSchema && LocalBreaks(ns[0].children, true, false))
      || EntryBreaks(ns[1..], held && !UsesUp(ns[0]))
  }

  predicate Breaks(n: Node) {
    n.Element?
    && if n.tag == TagEntry then HasType(n.attrs) && EntryBreaks(n.children, true)
       else exists i :: 0 <= i < |n.children| && Breaks(n.children[i])
  }

  // Running elements

  function Close(o: Outcome): Outcome {
    match o
    case Go(info) => EndElement(info)
    case other => other
  }

  lemma ElementIs(info: ParseInfo, n: Node)
    requires n.Element?
    ensures Run(info, Flatten(n)) ==
      match Step(info, Start(n.tag, n.attrs))
      case Go(inside) => Close(Run(inside, FlattenAll(n.children)))
      case other => other
  {
    var start, kids, end := [Start(n.tag, n.attrs)], FlattenAll(n.children), [End(n.tag)];
    RunConcat(info, start + kids, end);
    RunConcat(info, start, kids);
    RunOne(info, start[0]);
    if Step(info, start[0]).Go? {
      var inside := Step(info, start[0]).info;
      if Run(inside, kids).Go? { RunOne(Run(inside, kids).info, end[0]); }
    }
  }

  lemma KidsAre(info: ParseInfo, ns: seq<Node>)
    ensures Run(info, FlattenAll(ns)) ==
      if ns == [] then Go(info)
      else match Run(info, Flatten(ns[0]))
           case Go(next) => Run(next, FlattenAll(ns[1..]))
           case other => other
  {
    if ns != [] { RunConcat(info, Flatten(ns[0]), FlattenAll(ns[1..])); }
  }

  /** Text that is allowed only if it is blank. */
  lemma CharsRun(info: ParseInfo, n: Node)
    requires n.Chars? && info.states.Cons?
    requires !info.states.head.StartState? && !info.states.head.StringState? && !info.states.head.LongDescState?
    ensures Run(info, Flatten(n)) == Go(info) || Run(info, Flatten(n)) == Rejected
  {
    RunOne(info, Text(n.text));
  }

  // What does not change while an entry is read

  function EntryKind(info: ParseInfo): Option<VType> {
    match OwnerValue(info, OfEntry)
    case None => None
    case Some(v) => Some(v.Type())
  }

  function DefaultKind(info: ParseInfo): Option<VType> {
    match OwnerValue(info, OfDefault)
    case None => None
    case Some(v) => Some(v.Type())
  }

  /** The same elements are open around values of the same types. */
  predicate Same(a: ParseInfo, b: ParseInfo) {
    && b.states == a.states && b.dirStack == a.dirStack
    && (b.currentEntry.Some? <==> a.currentEntry.Some?)
    && (a.currentEntry.Some? ==> b.currentEntry.value.localSchemas == a.currentEntry.value.localSchemas)
    && |b.localSchemas| == |a.localSchemas|
    && EntryKind(b) == EntryKind(a) && DefaultKind(b) == DefaultKind(a)
  }

  predicate SameStack(a: ParseInfo, b: ParseInfo) { Same(a, b) && b.valueStack == a.valueStack }

  /** The top of the value stack points to a value. */
  predicate TopIs(info: ParseInfo) {
    info.valueStack.Cons? && |info.valueStack.head.path| <= 1 && Deref(info, info.valueStack.head).Some?
  }

  function Top(info: ParseInfo): Value
    requires TopIs(info)
  {
    Deref(info, info.valueStack.head).value
  }

  lemma StoreSame(info: ParseInfo, p: Pointer, x: Value)
    requires |p.path| <= 1 && Deref(info, p).Some? && x.Type() == Deref(info, p).value.Type()
    ensures SameStack(info, Store(info, p, x)) && Deref(Store(info, p, x), p) == Some(x)
  {
    if |p.path| == 1 {
      assert p.path == [p.path[0]];
      OneStep(OwnerValue(info, p.owner).value, p.path[0], x);
      StoreChild(info, p, x);
    } else {
      assert p.path == [];
    }
  }

  // Strings, descriptions and items

  lemma {:induction false} StringKids(info: ParseInfo, ns: seq<Node>)
    requires info.states.Cons? && info.states.head.StringState? && TopIs(info) && Top(info).StringValue?
    ensures Run(info, FlattenAll(ns)) != Aborted
    ensures Run(info, FlattenAll(ns)).Go? ==>
      var next := Run(info, FlattenAll(ns)).info;
      SameStack(info, next) && TopIs(next) && Top(next).StringValue?
    decreases ns
  {
    KidsAre(info, ns);
    if ns != [] {
      match ns[0]
      case Element(_, _, _) => ElementIs(info, ns[0]);
      case Chars(t) =>
        RunOne(info, Text(t));
        StoreSame(info, info.valueStack.head, StringValue(Some(t)));
        if Step(info, Text(t)).Go? { StringKids(Step(info, Text(t)).info, ns[1..]); }
    }
  }

  /** Where a value may be expected: in an entry, its pointer on top, in a default, or in an item. */
  predicate Holder(info: ParseInfo) {
    && info.states.Cons?
    && (info.states.head.DefaultState? || IsItem(info.states.head)
        || (info.states.head.EntryState? && info.currentEntry.Some? && info.currentEntry.value.value.Some?
            && PeekValue(info) == Some(ENTRY_POINTER)))
  }

  /** <stringvalue> */
  lemma StringRun(info: ParseInfo, n: Node)
    requires n.Element? && n.tag == TagStringValue && Holder(info)
    ensures TopIs(info) ==>
      var r := Run(info, Flatten(n));
      r != Aborted && (r.Go? ==> SameStack(info, r.info) && TopIs(r.info) && Top(info).StringValue?)
    ensures info.valueStack == Nil ==> Run(info, Flatten(n)) == Aborted
  {
    ElementIs(info, n);
    StringStarts(info, n);
    hide Step, Run, Holder, Store;
    if TopIs(info) && Top(info).StringValue? {
      var inside := Step(info, Start(n.tag, n.attrs)).info;
      StringKids(inside, n.children);
      if Run(inside, FlattenAll(n.children)).Go? { StringEnds(info, inside, Run(inside, FlattenAll(n.children)).info); }
    }
  }

  lemma StringStarts(info: ParseInfo, n: Node)
    requires n.Element? && n.tag == TagStringValue && Holder(info)
    ensures var o := Step(info, Start(n.tag, n.attrs));
      && (info.valueStack == Nil ==> o == Aborted)
      && (TopIs(info) ==>
            if Top(info).StringValue?
            then o.Go? && SameStack(Push(info, StringState), o.info) && TopIs(o.info) && Top(o.info).StringValue?
            else o == Rejected)
  {
    assert Step(info, Start(n.tag, n.attrs)) == StartString(info);
    if TopIs(info) && Top(info).StringValue? {
      StoreSame(Push(info, StringState), info.valueStack.head, StringValue(Some("")));
    }
  }

  lemma StringEnds(info: ParseInfo, inside: ParseInfo, filled: ParseInfo)
    requires SameStack(Push(info, StringState), inside) && SameStack(inside, filled) && TopIs(filled)
    ensures EndElement(filled) == Go(Pop(filled)) && SameStack(info, Pop(filled)) && TopIs(Pop(filled))
  {
  }

  lemma {:induction false} LongDescKids(info: ParseInfo, ns: seq<Node>)
    requires info.states.Cons? && info.states.head.LongDescState? && info.localSchemas != []
    ensures Run(info, FlattenAll(ns)) != Aborted
    ensures Run(info, FlattenAll(ns)).Go? ==> SameStack(info, Run(info, FlattenAll(ns)).info)
    decreases ns
  {
    KidsAre(info, ns);
    if ns != [] {
      match ns[0]
      case Element(_, _, _) => ElementIs(info, ns[0]);
      case Chars(t) =>
        RunOne(info, Text(t));
        if Step(info, Text(t)).Go? { LongDescKids(Step(info, Text(t)).info, ns[1..]); }
    }
  }

  /** The content of an item: at most strings. */
  lemma {:induction false} ItemKids(info: ParseInfo, ns: seq<Node>)
    requires info.states.Cons? && IsItem(info.states.head)
    ensures TopIs(info) ==>
      var r := Run(info, FlattenAll(ns));
      r != Aborted
      && (r.Go? ==> SameStack(info, r.info) && TopIs(r.info) && (HasElement(ns) ==> Top(info).StringValue?))
    ensures info.valueStack == Nil ==>
      var r := Run(info, FlattenAll(ns));
      (r == Aborted ==> HasElement(ns)) && (r.Go? ==> r.info == info && !HasElement(ns))
    decreases ns
  {
    KidsAre(info, ns);
    if ns != [] {
      if ns[0].Chars? {
        CharsRun(info, ns[0]);
        ItemKids(info, ns[1..]);
        assert HasElement(ns) ==> HasElement(ns[1..]) by {
          if i :| 0 <= i < |ns| && ns[i].Element? { assert ns[1..][i - 1] == ns[i]; }
        }
        assert HasElement(ns[1..]) ==> HasElement(ns) by {
          if i :| 0 <= i < |ns[1..]| && ns[1..][i].Element? { assert ns[i + 1].Element?; }
        }
      } else {
        ElementIs(info, ns[0]);
        if ns[0].tag == TagStringValue {
          StringRun(info, ns[0]);
          if Run(info, Flatten(ns[0])).Go? && TopIs(info) { ItemKids(Run(info, Flatten(ns[0])).info, ns[1..]); }
        }
      }
    }
  }

  lemma LooseStart(info: ParseInfo, n: Node)
    requires Loose(n) && Holder(info) && !IsItem(info.states.head)
    ensures Step(info, Start(n.tag, n.attrs)) == Rejected
      || exists s: State :: IsItem(s) && Step(info, Start(n.tag, n.attrs)) == Go(Push(info, s))
  {
    var s := if n.tag == TagLi then LiState else if n.tag == TagCar then CarState else CdrState;
    assert Step(info, Start(n.tag, n.attrs)) == Go(Push(info, s)) || Step(info, Start(n.tag, n.attrs)) == Rejected;
  }

  /** An item without a type. */
  lemma LooseRun(info: ParseInfo, n: Node)
    requires Loose(n) && Holder(info) && !IsItem(info.states.head)
    ensures TopIs(info) ==>
      var r := Run(info, Flatten(n));
      r != Aborted
      && (r.Go? ==> Same(info, r.info) && r.info.valueStack == info.valueStack.tail
                    && (Needs(n) ==> Top(info).StringValue?))
    ensures info.valueStack == Nil ==>
      var r := Run(info, Flatten(n));
      (r == Aborted ==> Needs(n)) && (r.Go? ==> r.info == info && !Needs(n))
  {
    ElementIs(info, n);
    LooseStart(info, n);
    hide Step;
    if s: State :| IsItem(s) && Step(info, Start(n.tag, n.attrs)) == Go(Push(info, s)) {
      assert TopIs(info) ==> TopIs(Push(info, s)) && Top(Push(info, s)) == Top(info);
      ItemKids(Push(info, s), n.children);
    }
  }

  /** An item with a type: hung below the value on top, which is not a schema. */
  lemma ItemStarts(info: ParseInfo, n: Node)
    requires n.Element? && IsItemTag(n.tag) && HasType(n.attrs) && Holder(info) && !IsItem(info.states.head)
    ensures info.valueStack == Nil ==> !Step(info, Start(n.tag, n.attrs)).Go?
    ensures TopIs(info) && info.valueStack.head.path == [] ==>
      var o := Step(info, Start(n.tag, n.attrs));
      o != Aborted
      && (o.Go? ==> IsItem(o.info.states.head) && o.info.states.tail == info.states && TopIs(o.info)
                    && o.info.valueStack.tail == info.valueStack && !Top(info).SchemaValue?
                    && Same(info, Pop(o.info)))
  {
    ItemReaches(info, n);
    var value := ParseValue(n.attrs, info.floats);
    if value.Parsed? && TopIs(info) && info.valueStack.head.path == [] { HungBelow(info, n.tag, value.v); }
    hide Step, Same, TopIs, Top;
  }

  lemma ItemReaches(info: ParseInfo, n: Node)
    requires n.Element? && IsItemTag(n.tag) && HasType(n.attrs) && Holder(info) && !IsItem(info.states.head)
    ensures Step(info, Start(n.tag, n.attrs)) ==
      match ParseValue(n.attrs, info.floats)
      case BadValue => Rejected
      case NoValue => Rejected
      case Parsed(v) => if n.tag == TagLi then HangLi(info, v) else HangCarCdr(info, n.tag == TagCar, v)
  {
    hide HangLi, HangCarCdr, Locates;
  }

  /** A value that takes `v' at `sel', put back where it was. */
  lemma AttachBelow(info: ParseInfo, parent: Value, sel: Selector, v: Value, s: State)
    requires TopIs(info) && info.valueStack.head.path == [] && IsItem(s)
    requires parent.Type() == Top(info).Type() && Child(parent, sel) == Some(v)
    ensures var o := Attach(Push(info, s), info.valueStack.head, parent, sel, v);
      && o.Go? && o.info.states == Cons(s, info.states) && TopIs(o.info)
      && o.info.valueStack.tail == info.valueStack && Same(info, Pop(o.info))
  {
    var p := info.valueStack.head;
    assert p.path + [sel] == [sel];
    StoreSame(Push(info, s), p, parent);
    var stored := Store(Push(info, s), p, parent);
    assert OwnerValue(stored, p.owner) == Some(parent);
    OneStep(parent, sel, v);
  }

  lemma HungBelow(info: ParseInfo, tag: Tag, v: Value)
    requires IsItemTag(tag) && TopIs(info) && info.valueStack.head.path == [] && info.states.Cons?
    ensures var o := if tag == TagLi then HangLi(info, v) else HangCarCdr(info, tag == TagCar, v);
      o != Aborted
      && (o.Go? ==> IsItem(o.info.states.head) && o.info.states.tail == info.states && TopIs(o.info)
                    && o.info.valueStack.tail == info.valueStack && !Top(info).SchemaValue?
                    && Same(info, Pop(o.info)))
  {
    var top := Top(info);
    if tag == TagLi && top.ListValue? {
      AttachBelow(info, top.(elems := top.elems + [v]), Elem(|top.elems|), v, LiState);
    } else if tag == TagCar && top.PairValue? {
      AttachBelow(info, top.(car := Some(v)), Selector.Car, v, CarState);
    } else if tag != TagLi && top.PairValue? {
      AttachBelow(info, top.(cdr := Some(v)), Selector.Cdr, v, CdrState);
    }
    hide Attach, Same, Deref;
  }

  lemma TypedItemRun(info: ParseInfo, n: Node)
    requires n.Element? && IsItemTag(n.tag) && HasType(n.attrs) && Holder(info) && !IsItem(info.states.head)
    ensures info.valueStack == Nil ==> !Run(info, Flatten(n)).Go?
    ensures TopIs(info) && info.valueStack.head.path == [] ==>
      var r := Run(info, Flatten(n));
      r != Aborted && (r.Go? ==> SameStack(info, r.info) && !Top(info).SchemaValue?)
  {
    ElementIs(info, n);
    ItemStarts(info, n);
    hide Step;
    var o := Step(info, Start(n.tag, n.attrs));
    if o.Go? && TopIs(info) && info.valueStack.head.path == [] { ItemKids(o.info, n.children); }
  }

  /** What is allowed in neither an entry nor a default. */
  lemma OtherRejected(info: ParseInfo, n: Node)
    requires n.Element? && Holder(info) && !IsItem(info.states.head)
    requires n.tag != TagStringValue && !IsItemTag(n.tag) && (info.states.head.DefaultState? || n.tag != TagLocalSchema)
    ensures Run(info, Flatten(n)) == Rejected
  {
    ElementIs(info, n);
  }

  // Defaults

  function Stack(held: bool): List<Pointer> { if held then Cons(ENTRY_POINTER, Nil) else Nil }

  /** Inside a schema entry. */
  predicate InSchema(info: ParseInfo) {
    && info.states.Cons? && info.dirStack.Cons? && info.localSchemas != []
    && info.currentEntry.Some? && info.currentEntry.value.localSchemas == [] && EntryKind(info) == Some(TSchema)
  }

  lemma {:induction false} AnyFirst(ns: seq<Node>)
    requires ns != []
    ensures AnyLoose(ns) <==> Loose(ns[0]) || AnyLoose(ns[1..])
    ensures AnyNeeds(ns) <==> Needs(ns[0]) || AnyNeeds(ns[1..])
    ensures AnyUntypedDefault(ns) <==> UntypedDefault(ns[0]) || AnyUntypedDefault(ns[1..])
  {
    assert ns == [ns[0]] + ns[1..];
    var rest := ns[1..];
    forall i | 0 <= i < |rest| ensures rest[i] == ns[i + 1] {}
    assert forall i :: 0 < i < |ns| ==> ns[i] == rest[i - 1];
  }

  /** The content of a default without a type, or of one that has lost its own pointer. */
  lemma {:induction false} BaseKids(info: ParseInfo, ns: seq<Node>, held: bool)
    requires InSchema(info) && info.states.head.DefaultState? && info.valueStack == Stack(held)
    ensures Run(info, FlattenAll(ns)) == Aborted ==> AnyNeeds(ns)
    ensures Run(info, FlattenAll(ns)).Go? ==>
      var next := Run(info, FlattenAll(ns)).info;
      !AnyNeeds(ns) && Same(info, next) && next.valueStack == Stack(held && !AnyLoose(ns))
    decreases ns
  {
    KidsAre(info, ns);
    if ns != [] {
      AnyFirst(ns);
      BaseFirst(info, ns[0], held);
      hide InSchema, Run, FlattenAll, AnyLoose, AnyNeeds, EntryKind, DefaultKind;
      if Run(info, Flatten(ns[0])).Go? {
        BaseKids(Run(info, Flatten(ns[0])).info, ns[1..], held && !Loose(ns[0]));
      }
    }
  }

  lemma BaseFirst(info: ParseInfo, n: Node, held: bool)
    requires InSchema(info) && info.states.head.DefaultState? && info.valueStack == Stack(held)
    ensures Run(info, Flatten(n)) == Aborted ==> Needs(n)
    ensures Run(info, Flatten(n)).Go? ==>
      var next := Run(info, Flatten(n)).info;
      !Needs(n) && Same(info, next) && next.valueStack == Stack(held && !Loose(n)) && InSchema(next)
  {
    assert held ==> TopIs(info) && Top(info).SchemaValue?;
    hide Run, FlattenAll, Flatten, HasElement;
    if n.Chars? { CharsRun(info, n); }
    else if n.tag == TagStringValue { StringRun(info, n); }
    else if Loose(n) { LooseRun(info, n); }
    else if IsItemTag(n.tag) { TypedItemRun(info, n); }
    else { OtherRejected(info, n); }
  }

  /** The content of a default with a type. */
  lemma {:induction false} DefaultKids(info: ParseInfo, ns: seq<Node>, held: bool)
    requires InSchema(info) && info.states.head.DefaultState? && DefaultKind(info).Some?
    requires info.valueStack == Cons(DEFAULT_POINTER, Stack(held))
    ensures Run(info, FlattenAll(ns)) == Aborted ==> AnyLoose(ns)
    ensures Run(info, FlattenAll(ns)).Go? ==>
      var next := Run(info, FlattenAll(ns)).info;
      Same(info, next)
      && if AnyLoose(ns) then next.valueStack == Stack(true) || next.valueStack == Stack(false)
         else next.valueStack == info.valueStack
    decreases ns
  {
    KidsAre(info, ns);
    if ns != [] {
      AnyFirst(ns);
      DefaultFirst(info, ns[0], held);
      hide InSchema, Run, FlattenAll, AnyLoose, AnyNeeds, EntryKind, DefaultKind;
      if Run(info, Flatten(ns[0])).Go? {
        var next := Run(info, Flatten(ns[0])).info;
        if Loose(ns[0]) { BaseKids(next, ns[1..], held); } else { DefaultKids(next, ns[1..], held); }
      }
    }
  }

  lemma DefaultFirst(info: ParseInfo, n: Node, held: bool)
    requires InSchema(info) && info.states.head.DefaultState? && DefaultKind(info).Some?
    requires info.valueStack == Cons(DEFAULT_POINTER, Stack(held))
    ensures Run(info, Flatten(n)) != Aborted
    ensures Run(info, Flatten(n)).Go? ==>
      var next := Run(info, Flatten(n)).info;
      Same(info, next) && InSchema(next)
      && next.valueStack == if Loose(n) then Stack(held) else info.valueStack
  {
    assert TopIs(info);
    hide Run, FlattenAll, Flatten, HasElement;
    if n.Chars? { CharsRun(info, n); }
    else if n.tag == TagStringValue { StringRun(info, n); }
    else if Loose(n) { LooseRun(info, n); }
    else if IsItemTag(n.tag) { TypedItemRun(info, n); }
    else { OtherRejected(info, n); }
  }

  // Local schemas

  predicate LocalOpen(info: ParseInfo, held: bool, hasDefault: bool) {
    && InSchema(info) && info.states.head.LocalSchemaState? && info.valueStack == Stack(held)
    && (DefaultKind(info).Some? <==> hasDefault)
  }

  predicate Around(a: ParseInfo, b: ParseInfo) { b.states == a.states && b.dirStack == a.dirStack }

  /** The state in a default whose type was read. */
  function TypedDefault(info: ParseInfo, n: Node): ParseInfo
    requires n.Element? && info.localSchemas != [] && ParseValue(n.attrs, info.floats).Parsed?
  {
    var value := ParseValue(n.attrs, info.floats).v;
    PushValue(
      Push(info, DefaultState).(
        localSchemas := [info.localSchemas[0].(default := Some(value))] + info.localSchemas[1..]),
      DEFAULT_POINTER)
  }

  lemma TypedDefaultStart(info: ParseInfo, n: Node, held: bool, hasDefault: bool)
    requires n.Element? && n.tag == TagDefault && LocalOpen(info, held, hasDefault) && HasType(n.attrs)
    ensures info.localSchemas != []
    ensures Step(info, Start(n.tag, n.attrs)) ==
      if ParseValue(n.attrs, info.floats).Parsed? && !hasDefault then Go(TypedDefault(info, n)) else Rejected
    ensures ParseValue(n.attrs, info.floats).Parsed? ==>
      var inside := TypedDefault(info, n);
      && InSchema(inside) && inside.states.head.DefaultState? && DefaultKind(inside).Some?
      && inside.valueStack == Cons(DEFAULT_POINTER, Stack(held))
  {
  }

  lemma TypedDefaultEnd(info: ParseInfo, n: Node, held: bool, next: ParseInfo)
    requires n.Element? && LocalOpen(info, held, false) && ParseValue(n.attrs, info.floats).Parsed?
    requires Same(TypedDefault(info, n), next)
    ensures next.valueStack == Cons(DEFAULT_POINTER, Stack(held)) ==>
      Close(Go(next)).Go? && LocalOpen(Close(Go(next)).info, held, true) && Around(info, Close(Go(next)).info)
    ensures next.valueStack == Stack(true) || next.valueStack == Stack(false) ==> Close(Go(next)) == Aborted
  {
  }

  lemma TypedDefaultRun(info: ParseInfo, n: Node, held: bool, hasDefault: bool)
    requires n.Element? && n.tag == TagDefault && LocalOpen(info, held, hasDefault) && HasType(n.attrs)
    ensures Run(info, Flatten(n)) == Aborted ==> DefaultBreaks(n, held, hasDefault)
    ensures Run(info, Flatten(n)).Go? ==>
      var next := Run(info, Flatten(n)).info;
      !DefaultBreaks(n, held, hasDefault) && LocalOpen(next, held, true) && Around(info, next)
  {
    ElementIs(info, n);
    TypedDefaultStart(info, n, held, hasDefault);
    hide Step, Run, AnyLoose, ParseValue, Close, TypedDefault, LocalOpen, InSchema, DefaultKind;
    if ParseValue(n.attrs, info.floats).Parsed? && !hasDefault {
      var inside := TypedDefault(info, n);
      DefaultKids(inside, n.children, held);
      if Run(inside, FlattenAll(n.children)).Go? {
        TypedDefaultEnd(info, n, held, Run(inside, FlattenAll(n.children)).info);
      }
    }
  }

  lemma UntypedDefaultRun(info: ParseInfo, n: Node, held: bool, hasDefault: bool)
    requires UntypedDefault(n) && LocalOpen(info, held, hasDefault)
    ensures Run(info, Flatten(n)) == Aborted ==> DefaultBreaks(n, held, hasDefault)
    ensures Run(info, Flatten(n)).Go? ==>
      var next := Run(info, Flatten(n)).info;
      !DefaultBreaks(n, held, hasDefault) && LocalOpen(next, false, hasDefault) && Around(info, next)
  {
    ElementIs(info, n);
    var inside := Push(info, DefaultState);
    assert Step(info, Start(n.tag, n.attrs)) == Rejected || Step(info, Start(n.tag, n.attrs)) == Go(inside);
    BaseKids(inside, n.children, held);
    hide Step, Run, AnyLoose, AnyNeeds;
  }

  /** <longdesc> */
  lemma LongDescRun(info: ParseInfo, n: Node, held: bool, hasDefault: bool)
    requires n.Element? && n.tag == TagLongDesc && LocalOpen(info, held, hasDefault)
    ensures Run(info, Flatten(n)) != Aborted
    ensures Run(info, Flatten(n)).Go? ==>
      LocalOpen(Run(info, Flatten(n)).info, held, hasDefault) && Around(info, Run(info, Flatten(n)).info)
  {
    ElementIs(info, n);
    LongDescKids(Push(info, LongDescState), n.children);
  }

  predicate LocalLeft(info: ParseInfo, held: bool) { LocalOpen(info, held, true) || LocalOpen(info, held, false) }

  /** One child of a local schema. */
  lemma LocalFirst(info: ParseInfo, n: Node, held: bool, hasDefault: bool)
    requires LocalOpen(info, held, hasDefault)
    ensures var r := Run(info, Flatten(n));
      var isDefault := n.Element? && n.tag == TagDefault;
      && (r == Aborted ==> isDefault && DefaultBreaks(n, held, hasDefault))
      && (r.Go? ==>
            && Around(info, r.info) && (isDefault ==> !DefaultBreaks(n, held, hasDefault))
            && LocalOpen(r.info, held && !UntypedDefault(n), hasDefault || (isDefault && HasType(n.attrs))))
  {
    if n.Chars? {
      CharsRun(info, n);
    } else {
      ElementIs(info, n);
      hide Run, FlattenAll, Flatten, LocalOpen, DefaultBreaks;
      if n.tag == TagLongDesc {
        LongDescRun(info, n, held, hasDefault);
      } else if n.tag == TagDefault {
        if HasType(n.attrs) { TypedDefaultRun(info, n, held, hasDefault); }
        else { UntypedDefaultRun(info, n, held, hasDefault); }
      } else {
        NotInLocal(info, n, held, hasDefault);
      }
    }
  }

  lemma NotInLocal(info: ParseInfo, n: Node, held: bool, hasDefault: bool)
    requires n.Element? && n.tag != TagLongDesc && n.tag != TagDefault && LocalOpen(info, held, hasDefault)
    ensures Step(info, Start(n.tag, n.attrs)) == Rejected
  {
  }

  lemma {:induction false} LocalKids(info: ParseInfo, ns: seq<Node>, held: bool, hasDefault: bool)
    requires LocalOpen(info, held, hasDefault)
    ensures Run(info, FlattenAll(ns)) == Aborted ==> LocalBreaks(ns, held, hasDefault)
    ensures Run(info, FlattenAll(ns)).Go? ==>
      var next := Run(info, FlattenAll(ns)).info;
      && !LocalBreaks(ns, held, hasDefault) && Around(info, next)
      && LocalLeft(next, held && !AnyUntypedDefault(ns))
    decreases ns
  {
    KidsAre(info, ns);
    if ns == [] {
      assert LocalOpen(info, held, hasDefault);
    } else {
      var n := ns[0];
      AnyFirst(ns);
      LocalFirst(info, n, held, hasDefault);
      hide Run, FlattenAll, Flatten, AnyUntypedDefault, AnyLoose, AnyNeeds, LocalOpen, LocalLeft, DefaultBreaks;
      var typed := n.Element? && n.tag == TagDefault && HasType(n.attrs);
      if Run(info, Flatten(n)).Go? {
        LocalKids(Run(info, Flatten(n)).info, ns[1..], held && !UntypedDefault(n), hasDefault || typed);
      }
    }
  }

  // Entries

  predicate EntryOpen(info: ParseInfo, held: bool) {
    && info.states.Cons? && info.states.head.EntryState? && info.dirStack.Cons?
    && info.currentEntry.Some? && info.currentEntry.value.localSchemas == [] && EntryKind(info).Some?
    && info.valueStack == Stack(held)
    && (info.localSchemas != [] ==> EntryKind(info) == Some(TSchema))
  }

  /** <local_schema> */
  lemma LocalRun(info: ParseInfo, n: Node)
    requires n.Element? && n.tag == TagLocalSchema && EntryOpen(info, true)
    ensures Run(info, Flatten(n)) == Aborted ==> LocalBreaks(n.children, true, false)
    ensures Run(info, Flatten(n)).Go? ==>
      var next := Run(info, Flatten(n)).info;
      !LocalBreaks(n.children, true, false) && EntryOpen(next, !UsesUp(n)) && Around(info, next)
  {
    ElementIs(info, n);
    var o := Step(info, Start(n.tag, n.attrs));
    assert o == StartLocalSchema(info, n.attrs);
    if o.Go? {
      assert LocalOpen(o.info, true, false);
      LocalKids(o.info, n.children, true, false);
    }
  }

  /** One child of an entry. */
  lemma EntryFirst(info: ParseInfo, n: Node)
    requires EntryOpen(info, true) && n.Element?
    ensures Run(info, Flatten(n)) == Aborted ==> n.tag == TagLocalSchema && LocalBreaks(n.children, true, false)
    ensures Run(info, Flatten(n)).Go? ==>
      var next := Run(info, Flatten(n)).info;
      && EntryOpen(next, !UsesUp(n)) && Around(info, next)
      && (n.tag == TagLocalSchema ==> !LocalBreaks(n.children, true, false))
  {
    assert TopIs(info);
    if n.tag == TagLocalSchema {
      LocalRun(info, n);
    } else {
      hide Run, FlattenAll, Flatten, HasElement, LocalBreaks;
      if n.tag == TagStringValue { StringRun(info, n); }
      else if Loose(n) { LooseRun(info, n); }
      else if IsItemTag(n.tag) { TypedItemRun(info, n); }
      else { OtherRejected(info, n); }
    }
  }

  lemma {:induction false} EntryKids(info: ParseInfo, ns: seq<Node>, held: bool)
    requires EntryOpen(info, held)
    ensures Run(info, FlattenAll(ns)) == Aborted ==> EntryBreaks(ns, held)
    ensures Run(info, FlattenAll(ns)).Go? ==>
      var next := Run(info, FlattenAll(ns)).info;
      !EntryBreaks(ns, held) && Around(info, next) && exists h :: EntryOpen(next, h)
    decreases ns
  {
    KidsAre(info, ns);
    if ns != [] {
      if ns[0].Chars? {
        CharsRun(info, ns[0]);
        EntryKids(info, ns[1..], held);
      } else if held {
        EntryFirst(info, ns[0]);
        hide Run, FlattenAll, Flatten, LocalBreaks, EntryOpen, UsesUp;
        if Run(info, Flatten(ns[0])).Go? { EntryKids(Run(info, Flatten(ns[0])).info, ns[1..], !UsesUp(ns[0])); }
      } else {
        ElementIs(info, ns[0]);
      }
    }
  }

  /** In a directory, outside every entry. */
  predicate DirOpen(info: ParseInfo) {
    && info.states.Cons? && HoldsEntries(info.states.head) && info.dirStack.Cons?
    && info.currentEntry == None && info.localSchemas == [] && info.valueStack == Nil
    && (info.states.head.DirState? ==> Length(info.dirStack) > 1)
  }

  predicate SameDirs(a: ParseInfo, b: ParseInfo) {
    b.states == a.states && Length(b.dirStack) == Length(a.dirStack)
  }

  /** An entry without a value has no children. */
  lemma {:induction false} NoKids(info: ParseInfo, ns: seq<Node>)
    requires info.states.Cons? && info.states.head.EntryState?
    requires info.currentEntry.Some? && info.currentEntry.value.value == None
    ensures Run(info, FlattenAll(ns)) == Go(info) || Run(info, FlattenAll(ns)) == Rejected
    decreases ns
  {
    KidsAre(info, ns);
    if ns != [] {
      if ns[0].Chars? {
        CharsRun(info, ns[0]);
        NoKids(info, ns[1..]);
      } else {
        ElementIs(info, ns[0]);
      }
    }
  }

  lemma EntryStarts(info: ParseInfo, attrs: seq<Attr>)
    requires DirOpen(info)
    ensures var o := StartEntry(info, attrs);
      o != Aborted
      && (o.Go? ==>
            && o.info.states == Cons(EntryState, info.states) && o.info.dirStack == info.dirStack
            && o.info.currentEntry.Some? && o.info.localSchemas == []
            && (if HasType(attrs) then EntryOpen(o.info, true)
                else o.info.currentEntry.value.value == None && o.info.currentEntry.value.localSchemas == []
                     && o.info.valueStack == Nil))
  {
  }

  lemma EntryRun(info: ParseInfo, n: Node)
    requires n.Element? && n.tag == TagEntry && DirOpen(info)
    ensures Run(info, Flatten(n)) == Aborted ==> Breaks(n)
    ensures Run(info, Flatten(n)).Go? ==>
      !Breaks(n) && DirOpen(Run(info, Flatten(n)).info) && SameDirs(info, Run(info, Flatten(n)).info)
  {
    ElementIs(info, n);
    EntryStarts(info, n.attrs);
    var o := StartEntry(info, n.attrs);
    assert Step(info, Start(n.tag, n.attrs)) == o;
    hide Run, Step, Flatten, FlattenAll, EntryBreaks, StartEntry, EndElement, DirOpen, EntryOpen;
    if o.Go? {
      if HasType(n.attrs) { EntryKids(o.info, n.children, true); } else { NoKids(o.info, n.children); }
      var r := Run(o.info, FlattenAll(n.children));
      if r.Go? { EntryEnds(info, r.info); }
    }
  }

  /** </entry> */
  lemma EntryEnds(info: ParseInfo, filled: ParseInfo)
    requires DirOpen(info) && filled.states == Cons(EntryState, info.states) && filled.dirStack == info.dirStack
    requires EntryOpen(filled, true) || EntryOpen(filled, false)
      || (filled.currentEntry.Some? && filled.currentEntry.value.value == None
          && filled.currentEntry.value.localSchemas == [] && filled.valueStack == Nil)
    ensures EndElement(filled).Go? && DirOpen(EndElement(filled).info) && SameDirs(info, EndElement(filled).info)
  {
  }

  // Directories and documents

  lemma {:induction false} DirRun(info: ParseInfo, n: Node)
    requires DirOpen(info)
    ensures Run(info, Flatten(n)) == Aborted ==> Breaks(n)
    ensures Run(info, Flatten(n)).Go? ==>
      !Breaks(n) && DirOpen(Run(info, Flatten(n)).info) && SameDirs(info, Run(info, Flatten(n)).info)
    decreases n, 1
  {
    if n.Chars? {
      CharsRun(info, n);
    } else if n.tag == TagEntry {
      EntryRun(info, n);
    } else {
      ElementIs(info, n);
      DirStarts(info, n);
      var o := Step(info, Start(n.tag, n.attrs));
      if o.Go? {
        DirKids(o.info, n.children);
        var r := Run(o.info, FlattenAll(n.children));
        hide Run, DirOpen, SameDirs, Step, EndElement;
        if r.Go? { DirEnds(info, o.info, r.info); }
      }
    }
  }

  lemma DirStarts(info: ParseInfo, n: Node)
    requires DirOpen(info) && n.Element? && n.tag != TagEntry
    ensures var o := Step(info, Start(n.tag, n.attrs));
      o == Rejected
      || (o.Go? && DirOpen(o.info) && o.info.states == Cons(DirState, info.states)
          && Length(o.info.dirStack) == Length(info.dirStack) + 1)
  {
    var o := Step(info, Start(n.tag, n.attrs));
    if o.Go? { assert Length(o.info.dirStack) == 1 + Length(o.info.dirStack.tail); }
  }

  /** </dir> */
  lemma DirEnds(info: ParseInfo, inside: ParseInfo, filled: ParseInfo)
    requires DirOpen(info) && inside.states == Cons(DirState, info.states)
    requires Length(inside.dirStack) == Length(info.dirStack) + 1
    requires DirOpen(filled) && SameDirs(inside, filled)
    ensures EndElement(filled).Go? && DirOpen(EndElement(filled).info) && SameDirs(info, EndElement(filled).info)
  {
    assert Length(filled.dirStack) == 1 + Length(filled.dirStack.tail);
  }

  lemma {:induction false} DirKids(info: ParseInfo, ns: seq<Node>)
    requires DirOpen(info)
    ensures Run(info, FlattenAll(ns)) == Aborted ==> exists i :: 0 <= i < |ns| && Breaks(ns[i])
    ensures Run(info, FlattenAll(ns)).Go? ==>
      && (forall i :: 0 <= i < |ns| ==> !Breaks(ns[i]))
      && DirOpen(Run(info, FlattenAll(ns)).info) && SameDirs(info, Run(info, FlattenAll(ns)).info)
    decreases ns, 0
  {
    KidsAre(info, ns);
    if ns != [] {
      DirRun(info, ns[0]);
      hide Run, Breaks, DirOpen;
      if Run(info, Flatten(ns[0])).Go? {
        var next := Run(info, Flatten(ns[0])).info;
        DirKids(next, ns[1..]);
        if Run(next, FlattenAll(ns[1..])) == Aborted {
          var i :| 0 <= i < |ns[1..]| && Breaks(ns[1..][i]);
          assert Breaks(ns[i + 1]);
        }
        assert forall i :: 0 < i < |ns| ==> ns[i] == ns[1..][i - 1];
      }
    }
  }

  /** Of the properly nested documents that it does not reject, the reader aborts on exactly those that
      break; and after the others every stack has unwound. */
  lemma AbortsExactly(root: Dir, allowSubdirs: bool, ft: FloatText, document: Node)
    requires document.Element?
    ensures var read := Run(Init(root, allowSubdirs, ft), Flatten(document));
      && (read != Rejected ==> (read == Aborted <==> Breaks(document)))
      && (read.Go? ==>
            && read.info.states == Cons(StartState, Nil) && read.info.dirStack == Nil
            && read.info.valueStack == Nil && read.info.localSchemas == []
            && read.info.currentEntry == None && read.info.root.Some?)
  {
    var info := Init(root, allowSubdirs, ft);
    ElementIs(info, document);
    if document.tag == TagGconf && document.attrs == [] {
      var inside := Push(info, GconfState);
      assert Length(inside.dirStack) == 1;
      DirKids(inside, document.children);
      var r := Run(inside, FlattenAll(document.children));
      if r.Go? { assert Length(r.info.dirStack) == 1 + Length(r.info.dirStack.tail); LengthZero(r.info.dirStack.tail); }
    }
  }

  lemma LengthZero(l: List<Dir>)
    requires Length(l) == 0
    ensures l == Nil
  {
  }

  // A default without a type may be read

  /** The same document with a list item without a type in the default. */
  function UntypedTwice(entryAttrs: seq<Attr>): Node {
    Element(TagGconf, [], [Element(TagEntry, entryAttrs,
      [Element(TagLocalSchema, [(AtLocale, "C")], [Element(TagDefault, [], [Element(TagLi, [], [])])])])])
  }

  lemma OneKid(info: ParseInfo, n: Node)
    ensures Run(info, FlattenAll([n])) == Run(info, Flatten(n))
  {
    KidsAre(info, [n]);
    match Run(info, Flatten(n))
    case Go(next) => assert [n][1..] == []; KidsAre(next, []);
    case _ =>
  }

  lemma ReadsDefault(info: ParseInfo)
    requires LocalOpen(info, true, false)
    ensures Run(info, Flatten(Element(TagDefault, [], [Element(TagLi, [], [])]))).Go?
  {
    var li := Element(TagLi, [], []);
    var inDefault := Push(info, DefaultState);
    var inLi := Push(inDefault, LiState);
    ElementIs(inDefault, li);
    KidsAre(inLi, []);
    assert Step(inDefault, Start(TagLi, [])) == Go(inLi);
    assert Run(inDefault, Flatten(li)) == Go(PopValue(inDefault));
    OneKid(inDefault, li);
    ElementIs(info, Element(TagDefault, [], [li]));
  }

  lemma LocalStarts(info: ParseInfo, attrs: seq<Attr>)
    requires EntryOpen(info, true) && EntryKind(info) == Some(TSchema) && attrs == [(AtLocale, "C")]
    ensures var o := Step(info, Start(TagLocalSchema, attrs));
      o.Go? && LocalOpen(o.info, true, false)
  {
    AttrCons((AtLocale, "C"), [], AtLocale, {AtLocale, AtShortDesc});
    assert [(AtLocale, "C")] + [] == [(AtLocale, "C")];
    hide AttrValue, Locates;
    assert Step(info, Start(TagLocalSchema, attrs)) == StartLocalSchema(info, attrs);
  }

  lemma ReadsLocal(info: ParseInfo)
    requires EntryOpen(info, true) && EntryKind(info) == Some(TSchema)
    ensures Run(info, Flatten(Element(TagLocalSchema, [(AtLocale, "C")], [Element(TagDefault, [], [Element(TagLi, [], [])])]))).Go?
  {
    var default := Element(TagDefault, [], [Element(TagLi, [], [])]);
    var n := Element(TagLocalSchema, [(AtLocale, "C")], [default]);
    LocalStarts(info, n.attrs);
    var inside := Step(info, Start(n.tag, n.attrs)).info;
    ElementIs(info, n);
    LocalKids(inside, [default], true, false);
    assert inside.states.head.LocalSchemaState?;
    hide Run, Step, Flatten, FlattenAll, LocalOpen, EntryOpen, LocalBreaks;
    ReadsDefault(inside);
    OneKid(inside, default);
  }

  /** The end tag of the item takes the entry's pointer away, which is what the end of the default
      checks for: a default without a type is read if it holds an item without one. */
  lemma UntypedDefaultAccepted(root: Dir, allowSubdirs: bool, ft: FloatText)
    ensures var entryAttrs := [(AtName, "k"), (AtType, "schema"), (AtStype, "int")];
      Run(Init(root, allowSubdirs, ft), Flatten(UntypedTwice(entryAttrs))).Go?
  {
    var entryAttrs := [(AtName, "k"), (AtType, "schema"), (AtStype, "int")];
    var document := UntypedTwice(entryAttrs);
    var entry := document.children[0];
    var info := Init(root, allowSubdirs, ft);
    var inGconf := Push(info, GconfState);
    assert Step(info, Start(TagGconf, [])) == Go(inGconf) && DirOpen(inGconf);
    hide Run, Step, Flatten, FlattenAll, Breaks, DirOpen, EndElement;
    ElementIs(info, document);
    DirRun(inGconf, entry);
    ReadsEntry(inGconf, entryAttrs, entry);
    OneKid(inGconf, entry);
    DirCloses(Run(inGconf, Flatten(entry)).info);
  }

  lemma DirCloses(info: ParseInfo)
    requires DirOpen(info)
    ensures EndElement(info).Go?
  {
  }

  lemma ReadsEntry(info: ParseInfo, attrs: seq<Attr>, entry: Node)
    requires DirOpen(info) && info.states.head.GconfState?
    requires attrs == [(AtName, "k"), (AtType, "schema"), (AtStype, "int")]
    requires entry == UntypedTwice(attrs).children[0]
    ensures Run(info, Flatten(entry)).Go?
  {
    ExampleStarts(info, attrs);
    hide Run, Step, Flatten, FlattenAll, StartEntry, AttrValue, EntryOpen, EntryKind, LocalBreaks, UsesUp, EndElement;
    var inEntry := Step(info, Start(TagEntry, attrs)).info;
    ElementIs(info, entry);
    ReadsLocal(inEntry);
    OneKid(inEntry, entry.children[0]);
    LocalRun(inEntry, entry.children[0]);
    EntryCloses(Run(inEntry, FlattenAll(entry.children)).info);
  }

  lemma ExampleStarts(info: ParseInfo, attrs: seq<Attr>)
    requires DirOpen(info) && info.states.head.GconfState?
    requires attrs == [(AtName, "k"), (AtType, "schema"), (AtStype, "int")]
    ensures var o := Step(info, Start(TagEntry, attrs));
      o.Go? && EntryOpen(o.info, true) && EntryKind(o.info) == Some(TSchema)
  {
    EntryAttrs(attrs);
    assert HasType(attrs);
    var inEntry := EntryForDefault(info, attrs);
    EntryStarts(info, attrs);
    hide StartEntry, AttrValue, Locates;
    assert Step(info, Start(TagEntry, attrs)) == StartEntry(info, attrs);
  }

  lemma EntryCloses(info: ParseInfo)
    requires EntryOpen(info, true) || EntryOpen(info, false)
    ensures EndElement(info).Go?
  {
  }
}
