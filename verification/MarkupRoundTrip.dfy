/** Reading what the writer wrote. `Reread' says, value by value, what comes back; the stack machine
    computes exactly that, and it is the identity exactly on re-readable trees. */
module MarkupRoundTrip {
  import opened Basics
  import opened Decimal
  import opened Values
  import opened MarkupTypes
  import opened MarkupPrinter
  import opened MarkupParser

  // What comes back

  /** A schema keeps its types, as far as they are used, and its owner. */
  function RereadSchema(sc: Schema): Option<Value> {
    if sc.vtype == TList && IsCompound(sc.listType) then None
    else if sc.vtype == TPair && (IsCompound(sc.carType) || IsCompound(sc.cdrType)) then None
    else
      Some(SchemaValue(Schema(
        sc.vtype,
        if sc.vtype == TList then sc.listType else TInvalid,
        if sc.vtype == TPair then sc.carType else TInvalid,
        if sc.vtype == TPair then sc.cdrType else TInvalid,
        None, None, None, sc.owner, None)))
  }

  /** Text that is all white space is lost. */
  function RereadText(s: Option<string>): string {
    if s.Some? && !Blank(s.value) then s.value else ""
  }

  /** A value inside a list or a pair: nothing may be nested in it. */
  function RereadItem(v: Value): Option<Value> {
    match v
    case StringValue(s) => Some(StringValue(Some(RereadText(s))))
    case ListValue(t, elems) => if IsPrimitive(t) && elems == [] then Some(v) else None
    case PairValue(car, cdr) => if car == None && cdr == None then Some(v) else None
    case SchemaValue(sc) => RereadSchema(sc)
    case _ => Some(v)
  }

  function RereadElems(t: VType, elems: seq<Value>): Option<seq<Value>> {
    if elems == [] then Some([])
    else
      var first, rest := RereadItem(elems[0]), RereadElems(t, elems[1..]);
      if elems[0].Type() != t || first == None || rest == None then None
      else Some([first.value] + rest.value)
  }

  function RereadOptItem(v: Option<Value>): Option<Option<Value>> {
    match v
    case None => Some(None)
    case Some(x) => if RereadItem(x) == None then None else Some(RereadItem(x))
  }

  /** The value of an entry or of a default. */
  function RereadValue(v: Value): Option<Value> {
    match v
    case ListValue(t, elems) =>
      if !IsPrimitive(t) || RereadElems(t, elems) == None then None
      else Some(ListValue(t, RereadElems(t, elems).value))
    case PairValue(car, cdr) =>
      if RereadOptItem(car) == None || RereadOptItem(cdr) == None then None
      else Some(PairValue(RereadOptItem(car).value, RereadOptItem(cdr).value))
    case _ => RereadItem(v)
  }

  function RereadOptValue(v: Option<Value>): Option<Option<Value>> {
    match v
    case None => Some(None)
    case Some(x) => if RereadValue(x) == None then None else Some(RereadValue(x))
  }

  function RereadLongDesc(s: Option<string>): Option<string> {
    if s.Some? && !Blank(s.value) then s else None
  }

  /** One local schema: at most one comes back. */
  function RereadLocal(ls: LocalSchema, descs: bool): Option<seq<LocalSchema>> {
    var default := RereadOptValue(ls.default);
    if default == None then None
    else if !descs && ls.default == None then Some([])
    else
      Some([LocalSchema(
        ls.locale,
        if descs then ls.shortDesc else None,
        if descs then RereadLongDesc(ls.longDesc) else None,
        default.value)])
  }

  /** The local schemas of an entry, oldest first. */
  function RereadLocals(locals: seq<LocalSchema>, subtree: bool): Option<seq<LocalSchema>> {
    if locals == [] then Some([])
    else
      var first := RereadLocal(locals[0], !subtree || locals[0].locale == "C");
      var rest := RereadLocals(locals[1..], subtree);
      if first == None || rest == None then None else Some(first.value + rest.value)
  }

  /** Only a schema has its local schemas written. */
  function RereadEntry(e: Entry, subtree: bool): Option<Entry> {
    match e.value
    case None => Some(e.(localSchemas := []))
    case Some(v) =>
      var locals := if v.SchemaValue? then RereadLocals(e.localSchemas, subtree) else Some([]);
      if RereadValue(v) == None || locals == None then None
      else Some(e.(value := RereadValue(v), localSchemas := locals.value))
  }

  function RereadEntries(es: seq<Entry>, subtree: bool): Option<seq<Entry>> {
    if es == [] then Some([])
    else
      var first, rest := RereadEntry(es[0], subtree), RereadEntries(es[1..], subtree);
      if first == None || rest == None then None else Some([first.value] + rest.value)
  }

  function RereadDir(d: Dir): Option<Dir>
    decreases d, 1
  {
    var entries, subdirs := RereadEntries(d.entries, true), RereadDirs(d.subdirs);
    if entries == None || subdirs == None then None else Some(Dir(d.name, entries.value, subdirs.value))
  }

  function RereadDirs(ds: seq<Dir>): Option<seq<Dir>>
    decreases ds, 0
  {
    if ds == [] then Some([])
    else
      var first, rest := RereadDir(ds[0]), RereadDirs(ds[1..]);
      if first == None || rest == None then None else Some([first.value] + rest.value)
  }

  // Attributes of the printed elements

  /** What a reader finds under a name. */
  function FieldValue(f: Fields, n: AttrName): Option<string> {
    match n
    case AtName => f.name
    case AtMtime => f.mtime
    case AtSchema => f.schema
    case AtMuser => f.muser
    case AtType => f.typ
    case AtLtype => f.ltype
    case AtStype => f.stype
    case AtOwner => f.owner
    case AtListType => f.listType
    case AtCarType => f.carType
    case AtCdrType => f.cdrType
    case AtValue => f.value
    case _ => None
  }

  lemma PrependAttr(name: AttrName, v: Option<string>, rest: seq<Attr>, n: AttrName)
    requires AttrValue(rest, name) == None
    ensures AttrValue(OptAttr(name, v) + rest, n) == if n == name then v else AttrValue(rest, n)
    ensures name in VALUE_ATTRS && Locates(rest, VALUE_ATTRS) ==> Locates(OptAttr(name, v) + rest, VALUE_ATTRS)
  {
    if v.Some? {
      AttrCons((name, v.value), rest, n, VALUE_ATTRS);
    } else {
      assert OptAttr(name, v) + rest == rest;
    }
  }

  lemma SchemaFieldsRead(f: Fields, n: AttrName)
    ensures var rest := OptAttr(AtListType, f.listType) + (OptAttr(AtCarType, f.carType)
        + (OptAttr(AtCdrType, f.cdrType) + (OptAttr(AtValue, f.value) + [])));
      && Locates(rest, VALUE_ATTRS)
      && AttrValue(rest, n) ==
         if n == AtListType || n == AtCarType || n == AtCdrType || n == AtValue then FieldValue(f, n) else None
  {
    var r3 := OptAttr(AtValue, f.value) + [];
    var r2 := OptAttr(AtCdrType, f.cdrType) + r3;
    var r1 := OptAttr(AtCarType, f.carType) + r2;
    forall m { PrependAttr(AtValue, f.value, [], m); }
    forall m { PrependAttr(AtCdrType, f.cdrType, r3, m); }
    forall m { PrependAttr(AtCarType, f.carType, r2, m); }
    PrependAttr(AtListType, f.listType, r1, n);
  }

  predicate IsEntryAttr(n: AttrName) { n == AtName || n == AtMtime || n == AtSchema || n == AtMuser }

  lemma OwnerFieldsRead(f: Fields, n: AttrName)
    ensures var rest := OptAttr(AtStype, f.stype) + (OptAttr(AtOwner, f.owner)
        + (OptAttr(AtListType, f.listType) + (OptAttr(AtCarType, f.carType)
        + (OptAttr(AtCdrType, f.cdrType) + (OptAttr(AtValue, f.value) + [])))));
      && Locates(rest, VALUE_ATTRS)
      && AttrValue(rest, n) ==
         if IsEntryAttr(n) || n == AtType || n == AtLtype then None else FieldValue(f, n)
  {
    var r4 := OptAttr(AtListType, f.listType) + (OptAttr(AtCarType, f.carType)
      + (OptAttr(AtCdrType, f.cdrType) + (OptAttr(AtValue, f.value) + [])));
    SchemaFieldsRead(f, n);
    SchemaFieldsRead(f, AtOwner);
    SchemaFieldsRead(f, AtStype);
    PrependAttr(AtOwner, f.owner, r4, n);
    PrependAttr(AtOwner, f.owner, r4, AtStype);
    PrependAttr(AtStype, f.stype, OptAttr(AtOwner, f.owner) + r4, n);
  }

  lemma ValueAttrsRead(f: Fields, n: AttrName)
    ensures Locates(ValueAttrList(f), VALUE_ATTRS)
    ensures AttrValue(ValueAttrList(f), n) == if IsEntryAttr(n) then None else FieldValue(f, n)
  {
    var r2 := OptAttr(AtStype, f.stype) + (OptAttr(AtOwner, f.owner)
      + (OptAttr(AtListType, f.listType) + (OptAttr(AtCarType, f.carType)
      + (OptAttr(AtCdrType, f.cdrType) + (OptAttr(AtValue, f.value) + [])))));
    OwnerFieldsRead(f, n);
    OwnerFieldsRead(f, AtLtype);
    OwnerFieldsRead(f, AtType);
    PrependAttr(AtLtype, f.ltype, r2, n);
    PrependAttr(AtLtype, f.ltype, r2, AtType);
    PrependAttr(AtType, f.typ, OptAttr(AtLtype, f.ltype) + r2, n);
  }

  /** A reader accepts the attribute list and finds each field in it. */
  lemma AttrsRead(f: Fields, n: AttrName)
    ensures Locates(AttrList(f), VALUE_ATTRS)
    ensures AttrValue(AttrList(f), n) == FieldValue(f, n)
  {
    var r3 := OptAttr(AtMuser, f.muser) + ValueAttrList(f);
    var r2 := OptAttr(AtSchema, f.schema) + r3;
    var r1 := OptAttr(AtMtime, f.mtime) + r2;
    forall m { ValueAttrsRead(f, m); }
    forall m { PrependAttr(AtMuser, f.muser, ValueAttrList(f), m); }
    forall m { PrependAttr(AtSchema, f.schema, r3, m); }
    forall m { PrependAttr(AtMtime, f.mtime, r2, m); }
    PrependAttr(AtName, f.name, r1, n);
  }

  /** The value a start tag creates, before its children are read. */
  function Shell(v: Value): ParsedValue {
    match v
    case StringValue(_) => Parsed(StringValue(None))
    case ListValue(t, _) => if IsPrimitive(t) then Parsed(ListValue(t, [])) else BadValue
    case PairValue(_, _) => Parsed(PairValue(None, None))
    case SchemaValue(sc) => if RereadSchema(sc) == None then BadValue else Parsed(RereadSchema(sc).value)
    case _ => Parsed(v)
  }

  lemma SchemaRead(sc: Schema, attrs: seq<Attr>)
    requires AttrValue(attrs, AtStype) == Some(TypeName(sc.vtype)) && AttrValue(attrs, AtOwner) == sc.owner
    requires sc.vtype == TList ==> AttrValue(attrs, AtListType) == KnownType(sc.listType)
    requires sc.vtype == TPair ==> AttrValue(attrs, AtCarType) == KnownType(sc.carType)
    requires sc.vtype == TPair ==> AttrValue(attrs, AtCdrType) == KnownType(sc.cdrType)
    ensures ParseSchema(attrs) == Shell(SchemaValue(sc))
  {
    TypeNameRoundTrip(sc.vtype);
    TypeNameRoundTrip(sc.listType);
    TypeNameRoundTrip(sc.carType);
    TypeNameRoundTrip(sc.cdrType);
  }

  /** A primitive value's text. */
  function ValueText(ft: FloatText, v: Value): Option<string> {
    match v
    case IntValue(i) => Some(ShowInt(i))
    case BoolValue(b) => Some(if b then "true" else "false")
    case FloatValue(x) => Some(ft.show(x))
    case _ => None
  }

  lemma PrimitiveRead(ft: FloatText, v: Value, attrs: seq<Attr>)
    requires ft.Faithful() && (v.IntValue? || v.BoolValue? || v.FloatValue?)
    requires AttrValue(attrs, AtValue) == ValueText(ft, v)
    ensures ParseTyped(v.Type(), attrs, ft) == Parsed(v)
  {
    match v
    case IntValue(i) => ScanShowInt(i);
    case FloatValue(x) => assert ft.read(ft.show(x)) == Some(x);
    case BoolValue(b) => assert "true"[0] != "false"[0];
  }

  lemma TypedRead(ft: FloatText, f: Fields, v: Value, attrs: seq<Attr>)
    requires ft.Faithful()
    requires forall n :: AttrValue(attrs, n) == FieldValue(WithValue(ft, f, v), n)
    ensures ParseTyped(v.Type(), attrs, ft) == Shell(v)
  {
    match v
    case ListValue(t, _) =>
      assert FieldValue(WithValue(ft, f, v), AtLtype) == Some(TypeName(t));
      TypeNameRoundTrip(t);
    case SchemaValue(sc) => SchemaRead(sc, attrs);
    case StringValue(_) =>
    case PairValue(_, _) =>
    case _ =>
      assert FieldValue(WithValue(ft, f, v), AtValue) == ValueText(ft, v);
      PrimitiveRead(ft, v, attrs);
  }

  /** A start tag's attributes give the shell of the value. */
  lemma ShellRead(ft: FloatText, f: Fields, v: Value)
    requires ft.Faithful()
    ensures ParseValue(AttrList(WithValue(ft, f, v)), ft) == Shell(v)
  {
    var g := WithValue(ft, f, v);
    var attrs := AttrList(g);
    forall n ensures Locates(attrs, VALUE_ATTRS) && AttrValue(attrs, n) == FieldValue(g, n) { AttrsRead(g, n); }
    TypeNameRoundTrip(v.Type());
    assert FieldValue(g, AtType) == Some(TypeName(v.Type()));
    AttrsRead(g, AtType);
    TypedRead(ft, f, v, attrs);
  }

  // Values

  /** The second of two stores through one pointer wins. */
  lemma StoreTwice(info: ParseInfo, p: Pointer, a: Value, b: Value)
    requires |p.path| <= 1 && Deref(info, p).Some?
    ensures Deref(Store(info, p, a), p) == Some(a)
    ensures Store(Store(info, p, a), p, b) == Store(info, p, b)
  {
    if |p.path| == 1 {
      assert p.path == [p.path[0]];
      var v := OwnerValue(info, p.owner).value;
      OneStep(v, p.path[0], a);
      OneStep(v, p.path[0], b);
      StoreChild(info, p, a);
      StoreChild(info, p, b);
      var w := SetChild(v, p.path[0], a);
      SetChildTwice(v, p.path[0], a, b);
      assert OwnerValue(Store(info, p, a), p.owner) == Some(w);
      StoreChild(Store(info, p, a), p, b);
    }
  }

  lemma SetChildTwice(v: Value, sel: Selector, a: Value, b: Value)
    requires Child(v, sel).Some?
    ensures Child(SetChild(v, sel, a), sel) == Some(a)
    ensures SetChild(SetChild(v, sel, a), sel, b) == SetChild(v, sel, b)
  {
    if sel.Elem? { assert v.elems[sel.i := a][sel.i := b] == v.elems[sel.i := b]; }
  }

  /** A start tag for a child of a value is welcome here: the value is `p'. */
  ghost predicate ValueOpen(info: ParseInfo, p: Pointer) {
    && info.states.Cons? && PeekValue(info) == Some(p) && |p.path| <= 1 && Deref(info, p).Some?
    && (info.states.head.LiState? || info.states.head.CarState? || info.states.head.CdrState?
        || info.states.head.DefaultState?
        || (info.states.head.EntryState? && p == Pointer(OfEntry, [])))
  }

  lemma RunTwo(info: ParseInfo, a: Event, b: Event)
    ensures Run(info, [a, b]) == if Step(info, a).Go? then Step(Step(info, a).info, b) else Step(info, a)
  {
    assert [a, b] == [a] + [b];
    RunConcat(info, [a], [b]);
    RunOne(info, a);
    if Step(info, a).Go? { RunOne(Step(info, a).info, b); }
  }

  /** <stringvalue>: blank text is dropped. */
  lemma StringChildren(info: ParseInfo, p: Pointer, s: string)
    requires ValueOpen(info, p) && Deref(info, p) == Some(StringValue(None))
    ensures Run(info, [Start(TagStringValue, [])] + TextEvents(s) + [End(TagStringValue)])
      == Go(Store(info, p, StringValue(Some(RereadText(Some(s))))))
  {
    var inside := Store(Push(info, StringState), p, StringValue(Some("")));
    assert Step(info, Start(TagStringValue, [])) == Go(inside);
    StoreTwice(info, p, StringValue(Some("")), StringValue(Some(s)));
    assert inside == Push(Store(info, p, StringValue(Some(""))), StringState);
    if Blank(s) {
      var es := [Start(TagStringValue, [])] + TextEvents(s);
      RunOne(info, Start(TagStringValue, []));
      if s == "" { assert es == [Start(TagStringValue, [])]; }
      else { RunTwo(info, Start(TagStringValue, []), Text(s)); assert es == [Start(TagStringValue, []), Text(s)]; }
      RunConcat(info, es, [End(TagStringValue)]);
      RunOne(inside, End(TagStringValue));
    } else {
      RunTwo(info, Start(TagStringValue, []), Text(s));
      var filled := Store(inside, p, StringValue(Some(s)));
      assert filled == Push(Store(info, p, StringValue(Some(s))), StringState);
      assert [Start(TagStringValue, [])] + TextEvents(s) == [Start(TagStringValue, []), Text(s)];
      RunConcat(info, [Start(TagStringValue, []), Text(s)], [End(TagStringValue)]);
      RunOne(filled, End(TagStringValue));
    }
  }

  /** Storing what is already there. */
  lemma StoreSame(info: ParseInfo, p: Pointer)
    requires |p.path| <= 1 && Deref(info, p).Some?
    ensures Store(info, p, Deref(info, p).value) == info
  {
    var v := OwnerValue(info, p.owner).value;
    if |p.path| == 1 {
      assert p.path == [p.path[0]];
      var c := Child(v, p.path[0]).value;
      OneStep(v, p.path[0], c);
      StoreChild(info, p, c);
      if p.path[0].Elem? { assert v.elems[p.path[0].i := c] == v.elems; }
      assert SetChild(v, p.path[0], c) == v;
    }
    if p.owner == OfDefault {
      var ls := info.localSchemas[0];
      assert [ls.(default := Some(v))] + info.localSchemas[1..] == info.localSchemas;
    }
  }

  predicate IsItemState(s: State) { s.LiState? || s.CarState? || s.CdrState? }

  /** The outcome of storing a reread value, or of failing to read it. */
  function StoreReread(info: ParseInfo, p: Pointer, reread: Option<Value>): Outcome {
    match reread
    case None => Rejected
    case Some(w) => Go(Store(info, p, w))
  }

  /** Nothing but text is allowed below an item. */
  lemma NothingNests(ft: FloatText, info: ParseInfo, v: Value)
    requires info.states.Cons? && IsItemState(info.states.head)
    requires (v.ListValue? && v.elems != []) || (v.PairValue? && (v.car.Some? || v.cdr.Some?))
    ensures Run(info, ValueChildren(ft, v, [])) == Rejected
  {
    NestedStarts(ft, v);
    assert Step(info, ValueChildren(ft, v, [])[0]) == Rejected;
  }

  /** The children of an item. */
  lemma ItemChildren(ft: FloatText, info: ParseInfo, p: Pointer, v: Value)
    requires ValueOpen(info, p) && IsItemState(info.states.head)
    requires Shell(v).Parsed? && Deref(info, p) == Some(Shell(v).v)
    ensures Run(info, ValueChildren(ft, v, [])) == StoreReread(info, p, RereadItem(v))
  {
    if v.StringValue? {
      StringChildren(info, p, if v.text.Some? then v.text.value else "");
    } else if (v.ListValue? && v.elems != []) || (v.PairValue? && (v.car.Some? || v.cdr.Some?)) {
      NothingNests(ft, info, v);
    } else {
      StoreSame(info, p);
      assert ValueChildren(ft, v, []) == [];
      assert RereadItem(v) == Some(Shell(v).v);
    }
  }

  /** Nested values begin with a start tag. */
  lemma NestedStarts(ft: FloatText, v: Value)
    requires (v.ListValue? && v.elems != []) || (v.PairValue? && (v.car.Some? || v.cdr.Some?))
    ensures ValueChildren(ft, v, []) != [] && ValueChildren(ft, v, [])[0].Start?
    ensures ValueChildren(ft, v, [])[0].tag in {TagLi, TagCar, TagCdr}
  {
    match v
    case ListValue(_, elems) =>
      var first := ValueElement(ft, TagLi, NO_FIELDS, elems[0], []);
      assert first[0].Start?;
      assert ListChildren(ft, elems) == first + ListChildren(ft, elems[1..]);
    case PairValue(car, cdr) =>
      var first := if car.Some? then ValueElement(ft, TagCar, NO_FIELDS, car.value, [])
                   else ValueElement(ft, TagCdr, NO_FIELDS, cdr.value, []);
      assert first[0].Start?;
    case _ =>
  }

  // Items below their holder

  /** An owner's value is open and may be given items. */
  ghost predicate HolderOpen(info: ParseInfo, o: Owner) {
    && info.states.Cons? && PeekValue(info) == Some(Pointer(o, [])) && OwnerValue(info, o).Some?
    && (info.states.head.DefaultState? || (info.states.head.EntryState? && o == OfEntry))
  }

  /** The holder takes an item of this kind. */
  predicate Takes(holder: Value, tag: Tag, v: Value) {
    || (tag == TagLi && holder.ListValue? && v.Type() == holder.elemType)
    || (tag == TagCar && holder.PairValue? && holder.car == None)
    || (tag == TagCdr && holder.PairValue? && holder.cdr == None)
  }

  function Hang(holder: Value, tag: Tag, x: Value): Value {
    if tag == TagLi then (if holder.ListValue? then holder.(elems := holder.elems + [x]) else holder)
    else if !holder.PairValue? then holder
    else if tag == TagCar then holder.(car := Some(x))
    else holder.(cdr := Some(x))
  }

  /** The holder once the item has been read. */
  function WithItem(holder: Value, tag: Tag, v: Value): Option<Value> {
    if RereadItem(v) == None || !Takes(holder, tag, v) then None
    else Some(Hang(holder, tag, RereadItem(v).value))
  }

  function ItemState(tag: Tag): State {
    if tag == TagLi then LiState else if tag == TagCar then CarState else CdrState
  }

  function ItemSelector(holder: Value, tag: Tag): Selector {
    if tag == TagLi then Elem(if holder.ListValue? then |holder.elems| else 0)
    else if tag == TagCar then Selector.Car else Selector.Cdr
  }

  /** The parser after an item's start tag: its shell hangs below the holder. */
  function ItemOpened(info: ParseInfo, o: Owner, tag: Tag, v: Value): Outcome {
    match OwnerValue(info, o)
    case None => Rejected
    case Some(holder) =>
      if !Shell(v).Parsed? || !Takes(holder, tag, v) then Rejected
      else
        Go(PushValue(SetOwner(Push(info, ItemState(tag)), o, Hang(holder, tag, Shell(v).v)),
                     Pointer(o, [ItemSelector(holder, tag)])))
  }

  lemma AttachToOwner(info: ParseInfo, o: Owner, parent: Value, sel: Selector, x: Value)
    requires OwnerValue(info, o).Some?
    ensures Attach(info, Pointer(o, []), parent, sel, x)
      == Go(PushValue(SetOwner(info, o, parent), Pointer(o, [sel])))
  {
    assert [] + [sel] == [sel];
  }

  lemma ItemHung(info: ParseInfo, o: Owner, tag: Tag, v: Value, x: Value)
    requires HolderOpen(info, o) && x.Type() == v.Type()
    requires tag == TagLi || tag == TagCar || tag == TagCdr
    ensures var holder := OwnerValue(info, o).value;
      (if tag == TagLi then HangLi(info, x) else HangCarCdr(info, tag == TagCar, x)) ==
      if !Takes(holder, tag, v) then Rejected
      else
        Go(PushValue(SetOwner(Push(info, ItemState(tag)), o, Hang(holder, tag, x)),
                     Pointer(o, [ItemSelector(holder, tag)])))
  {
    var holder := OwnerValue(info, o).value;
    AttachToOwner(Push(info, ItemState(tag)), o, Hang(holder, tag, x), ItemSelector(holder, tag), x);
  }

  /** Which handler an item's start tag reaches. */
  lemma ItemDispatch(info: ParseInfo, o: Owner, tag: Tag, attrs: seq<Attr>)
    requires HolderOpen(info, o) && (tag == TagLi || tag == TagCar || tag == TagCdr)
    ensures Step(info, Start(tag, attrs)) ==
      if tag == TagLi then StartLi(info, attrs) else StartCarCdr(info, tag == TagCar, attrs)
  {
    hide StartLi, StartCarCdr;
  }

  lemma ItemStart(info: ParseInfo, o: Owner, tag: Tag, v: Value, attrs: seq<Attr>)
    requires HolderOpen(info, o) && ParseValue(attrs, info.floats) == Shell(v)
    requires tag == TagLi || tag == TagCar || tag == TagCdr
    ensures Step(info, Start(tag, attrs)) == ItemOpened(info, o, tag, v)
  {
    ItemDispatch(info, o, tag, attrs);
    if Shell(v).Parsed? { ItemHung(info, o, tag, v, Shell(v).v); }
    hide Step, ParseValue, Shell, HangLi, HangCarCdr, Takes, Hang, ItemSelector, SetOwner;
  }

  /** An item, start tag to end tag. */
  lemma ItemRun(ft: FloatText, info: ParseInfo, o: Owner, tag: Tag, v: Value)
    requires ft.Faithful() && info.floats == ft && HolderOpen(info, o)
    requires tag == TagLi || tag == TagCar || tag == TagCdr
    ensures Run(info, ValueElement(ft, tag, NO_FIELDS, v, [])) ==
      match WithItem(OwnerValue(info, o).value, tag, v)
      case None => Rejected
      case Some(holder) => Go(SetOwner(info, o, holder))
  {
    var attrs := AttrList(WithValue(ft, NO_FIELDS, v));
    ShellRead(ft, NO_FIELDS, v);
    ItemStart(info, o, tag, v, attrs);
    RunElement(info, Start(tag, attrs), ValueChildren(ft, v, []), End(tag));
    if ItemOpened(info, o, tag, v).Go? { ItemRest(ft, info, o, tag, v); }
  }

  lemma RunElement(info: ParseInfo, start: Event, kids: seq<Event>, end: Event)
    ensures Run(info, [start] + kids + [end]) == Then(Step(info, start), kids + [end])
  {
    assert [start] + kids + [end] == [start] + (kids + [end]);
    RunConcat(info, [start], kids + [end]);
    RunOne(info, start);
  }

  lemma ItemRest(ft: FloatText, info: ParseInfo, o: Owner, tag: Tag, v: Value)
    requires HolderOpen(info, o) && ItemOpened(info, o, tag, v).Go?
    requires tag == TagLi || tag == TagCar || tag == TagCdr
    ensures Run(ItemOpened(info, o, tag, v).info, ValueChildren(ft, v, []) + [End(tag)]) ==
      match WithItem(OwnerValue(info, o).value, tag, v)
      case None => Rejected
      case Some(holder) => Go(SetOwner(info, o, holder))
  {
    var inside := ItemOpened(info, o, tag, v).info;
    var p := Pointer(o, [ItemSelector(OwnerValue(info, o).value, tag)]);
    ItemContent(ft, info, o, tag, v);
    assert RereadItem(v).Some? ==> WithItem(OwnerValue(info, o).value, tag, v).Some?;
    if RereadItem(v).Some? { ItemFinish(info, o, tag, v, RereadItem(v).value); }
    hide Run, Step, ValueChildren, Shell, Hang, ItemSelector, ItemOpened, HolderOpen, SetOwner, Store, RereadItem;
    RunConcat(inside, ValueChildren(ft, v, []), [End(tag)]);
  }

  lemma ItemContent(ft: FloatText, info: ParseInfo, o: Owner, tag: Tag, v: Value)
    requires HolderOpen(info, o) && ItemOpened(info, o, tag, v).Go?
    requires tag == TagLi || tag == TagCar || tag == TagCdr
    ensures Run(ItemOpened(info, o, tag, v).info, ValueChildren(ft, v, [])) ==
      StoreReread(ItemOpened(info, o, tag, v).info, Pointer(o, [ItemSelector(OwnerValue(info, o).value, tag)]), RereadItem(v))
  {
    var inside := ItemOpened(info, o, tag, v).info;
    var holder := OwnerValue(info, o).value;
    var sel := ItemSelector(holder, tag);
    HangChild(holder, tag, v, Shell(v).v);
    OneStep(OwnerValue(inside, o).value, sel, v);
    hide Run, ValueChildren, RereadItem, ItemSelector, Hang, Shell;
    ItemChildren(ft, inside, Pointer(o, [sel]), v);
  }

  lemma ItemFinish(info: ParseInfo, o: Owner, tag: Tag, v: Value, w: Value)
    requires HolderOpen(info, o) && ItemOpened(info, o, tag, v).Go? && RereadItem(v) == Some(w)
    requires tag == TagLi || tag == TagCar || tag == TagCdr
    ensures WithItem(OwnerValue(info, o).value, tag, v).Some?
    ensures var inside := ItemOpened(info, o, tag, v).info;
      Run(Store(inside, Pointer(o, [ItemSelector(OwnerValue(info, o).value, tag)]), w), [End(tag)])
      == Go(SetOwner(info, o, WithItem(OwnerValue(info, o).value, tag, v).value))
  {
    var inside := ItemOpened(info, o, tag, v).info;
    var holder := OwnerValue(info, o).value;
    var sel := ItemSelector(holder, tag);
    HangChild(holder, tag, v, Shell(v).v);
    HangReplace(holder, tag, v, Shell(v).v, w);
    hide Run, RereadItem, ItemSelector, Hang, Shell;
    ItemEnd(info, inside, o, tag, sel, w, v);
  }

  lemma HangChild(holder: Value, tag: Tag, v: Value, x: Value)
    requires Takes(holder, tag, v)
    ensures Child(Hang(holder, tag, x), ItemSelector(holder, tag)) == Some(x)
  {
  }

  lemma HangReplace(holder: Value, tag: Tag, v: Value, x: Value, y: Value)
    requires Takes(holder, tag, v)
    ensures SetChild(Hang(holder, tag, x), ItemSelector(holder, tag), y) == Hang(holder, tag, y)
  {
    if tag == TagLi {
      var n := |holder.elems|;
      assert (holder.elems + [x])[n := y] == holder.elems + [y];
    }
  }

  /** The end tag, after the item has been given its value. */
  lemma ItemEnd(info: ParseInfo, inside: ParseInfo, o: Owner, tag: Tag, sel: Selector, w: Value, v: Value)
    requires HolderOpen(info, o) && OwnerValue(inside, o).Some?
    requires tag == TagLi || tag == TagCar || tag == TagCdr
    requires WithItem(OwnerValue(info, o).value, tag, v).Some? && RereadItem(v) == Some(w)
    requires sel == ItemSelector(OwnerValue(info, o).value, tag)
    requires Child(OwnerValue(inside, o).value, sel).Some?
    requires SetChild(OwnerValue(inside, o).value, sel, w) == WithItem(OwnerValue(info, o).value, tag, v).value
    requires inside == PushValue(SetOwner(Push(info, ItemState(tag)), o, OwnerValue(inside, o).value), Pointer(o, [sel]))
    ensures Run(Store(inside, Pointer(o, [sel]), w), [End(tag)])
      == Go(SetOwner(info, o, WithItem(OwnerValue(info, o).value, tag, v).value))
  {
    var p := Pointer(o, [sel]);
    StoreChild(inside, p, w);
    hide RereadItem, Takes, Hang, Store;
    RunOne(Store(inside, p, w), End(tag));
  }

  // Values with children

  lemma SetOwnerSame(info: ParseInfo, o: Owner)
    requires OwnerValue(info, o).Some?
    ensures SetOwner(info, o, OwnerValue(info, o).value) == info
  {
    StoreSame(info, Pointer(o, []));
  }

  lemma SetOwnerTwice(info: ParseInfo, o: Owner, a: Value, b: Value)
    requires OwnerValue(info, o).Some?
    ensures SetOwner(SetOwner(info, o, a), o, b) == SetOwner(info, o, b)
    ensures OwnerValue(SetOwner(info, o, a), o) == Some(a)
    ensures HolderOpen(info, o) ==> HolderOpen(SetOwner(info, o, a), o)
    ensures SetOwner(info, o, a).floats == info.floats
  {
  }

  /** Where reading the elements of a list leads. */
  function ListOutcome(info: ParseInfo, o: Owner, t: VType, done: seq<Value>, rest: Option<seq<Value>>): Outcome {
    match rest
    case None => Rejected
    case Some(ws) => Go(SetOwner(info, o, ListValue(t, done + ws)))
  }

  lemma {:induction false} ListRun(ft: FloatText, info: ParseInfo, o: Owner, t: VType, done: seq<Value>, elems: seq<Value>)
    requires ft.Faithful() && info.floats == ft && HolderOpen(info, o)
    requires OwnerValue(info, o) == Some(ListValue(t, done))
    ensures Run(info, ListChildren(ft, elems)) == ListOutcome(info, o, t, done, RereadElems(t, elems))
    decreases elems
  {
    if elems == [] {
      SetOwnerSame(info, o);
      assert done + [] == done;
    } else {
      ItemRun(ft, info, o, TagLi, elems[0]);
      RunConcat(info, ValueElement(ft, TagLi, NO_FIELDS, elems[0], []), ListChildren(ft, elems[1..]));
      var list := WithItem(ListValue(t, done), TagLi, elems[0]);
      if list.Some? {
        var w := RereadItem(elems[0]).value;
        assert list == Some(ListValue(t, done + [w]));
        SetOwnerTwice(info, o, list.value, list.value);
        ListRun(ft, SetOwner(info, o, list.value), o, t, done + [w], elems[1..]);
        ListStep(info, o, t, done, w, RereadElems(t, elems[1..]));
      }
    }
  }

  lemma ListStep(info: ParseInfo, o: Owner, t: VType, done: seq<Value>, w: Value, rest: Option<seq<Value>>)
    requires OwnerValue(info, o).Some?
    ensures ListOutcome(SetOwner(info, o, ListValue(t, done + [w])), o, t, done + [w], rest)
      == ListOutcome(info, o, t, done, if rest.Some? then Some([w] + rest.value) else None)
  {
    if rest.Some? {
      assert done + [w] + rest.value == done + ([w] + rest.value);
      SetOwnerTwice(info, o, ListValue(t, done + [w]), ListValue(t, done + ([w] + rest.value)));
    }
  }

  /** What is written for a member of a pair. */
  function MemberElement(ft: FloatText, tag: Tag, v: Option<Value>): seq<Event> {
    if v.Some? then ValueElement(ft, tag, NO_FIELDS, v.value, []) else []
  }

  lemma MemberRun(ft: FloatText, info: ParseInfo, o: Owner, tag: Tag, v: Option<Value>)
    requires ft.Faithful() && info.floats == ft && HolderOpen(info, o) && (tag == TagCar || tag == TagCdr)
    requires OwnerValue(info, o).value.PairValue?
    requires if tag == TagCar then OwnerValue(info, o).value.car == None else OwnerValue(info, o).value.cdr == None
    ensures var pair := OwnerValue(info, o).value;
      Run(info, MemberElement(ft, tag, v)) ==
      match RereadOptItem(v)
      case None => Rejected
      case Some(w) => Go(SetOwner(info, o, if tag == TagCar then pair.(car := w) else pair.(cdr := w)))
  {
    SetOwnerSame(info, o);
    if v.Some? { ItemRun(ft, info, o, tag, v.value); }
  }

  lemma PairRun(ft: FloatText, info: ParseInfo, o: Owner, car: Option<Value>, cdr: Option<Value>)
    requires ft.Faithful() && info.floats == ft && HolderOpen(info, o)
    requires OwnerValue(info, o) == Some(PairValue(None, None))
    ensures Run(info, MemberElement(ft, TagCar, car) + MemberElement(ft, TagCdr, cdr)) ==
      StoreReread(info, Pointer(o, []), RereadValue(PairValue(car, cdr)))
  {
    MemberRun(ft, info, o, TagCar, car);
    RunConcat(info, MemberElement(ft, TagCar, car), MemberElement(ft, TagCdr, cdr));
    if RereadOptItem(car).Some? {
      var half := SetOwner(info, o, PairValue(RereadOptItem(car).value, None));
      MemberRun(ft, half, o, TagCdr, cdr);
    }
  }

  /** The children of an entry's or a default's value. */
  lemma HolderRun(ft: FloatText, info: ParseInfo, o: Owner, v: Value)
    requires ft.Faithful() && info.floats == ft && HolderOpen(info, o)
    requires Shell(v).Parsed? && OwnerValue(info, o) == Some(Shell(v).v)
    ensures Run(info, ValueChildren(ft, v, [])) == StoreReread(info, Pointer(o, []), RereadValue(v))
  {
    SetOwnerSame(info, o);
    match v
    case StringValue(s) => StringChildren(info, Pointer(o, []), if s.Some? then s.value else "");
    case ListValue(t, elems) =>
      ListRun(ft, info, o, t, [], elems);
      if RereadElems(t, elems).Some? { assert [] + RereadElems(t, elems).value == RereadElems(t, elems).value; }
    case PairValue(car, cdr) =>
      PairRun(ft, info, o, car, cdr);
      assert ValueChildren(ft, v, []) == MemberElement(ft, TagCar, car) + MemberElement(ft, TagCdr, cdr);
    case _ =>
  }

  // Local schemas

  function WithDefault(info: ParseInfo, w: Value): ParseInfo
    requires info.localSchemas != []
  {
    info.(localSchemas := [info.localSchemas[0].(default := Some(w))] + info.localSchemas[1..])
  }

  /** <default> */
  lemma DefaultRun(ft: FloatText, info: ParseInfo, v: Value)
    requires ft.Faithful() && info.floats == ft
    requires info.states.Cons? && info.states.head.LocalSchemaState?
    requires info.localSchemas != [] && info.localSchemas[0].default == None
    ensures Run(info, ValueElement(ft, TagDefault, NO_FIELDS, v, [])) ==
      match RereadValue(v)
      case None => Rejected
      case Some(w) => Go(WithDefault(info, w))
  {
    var attrs := AttrList(WithValue(ft, NO_FIELDS, v));
    ShellRead(ft, NO_FIELDS, v);
    RunElement(info, Start(TagDefault, attrs), ValueChildren(ft, v, []), End(TagDefault));
    DefaultBody(ft, info, v, attrs);
  }

  lemma DefaultBody(ft: FloatText, info: ParseInfo, v: Value, attrs: seq<Attr>)
    requires ft.Faithful() && info.floats == ft
    requires info.states.Cons? && info.states.head.LocalSchemaState?
    requires info.localSchemas != [] && info.localSchemas[0].default == None
    requires ParseValue(attrs, ft) == Shell(v)
    ensures Then(Step(info, Start(TagDefault, attrs)), ValueChildren(ft, v, []) + [End(TagDefault)]) ==
      match RereadValue(v)
      case None => Rejected
      case Some(w) => Go(WithDefault(info, w))
  {
    if Shell(v).Parsed? {
      var inside := PushValue(Push(WithDefault(info, Shell(v).v), DefaultState), Pointer(OfDefault, []));
      assert Step(info, Start(TagDefault, attrs)) == Go(inside);
      HolderRun(ft, inside, OfDefault, v);
      RunConcat(inside, ValueChildren(ft, v, []), [End(TagDefault)]);
      if RereadValue(v).Some? { DefaultEnds(info, Shell(v).v, RereadValue(v).value); }
    }
  }

  lemma DefaultEnds(info: ParseInfo, shell: Value, w: Value)
    requires info.states.Cons? && info.localSchemas != []
    ensures var inside := PushValue(Push(WithDefault(info, shell), DefaultState), Pointer(OfDefault, []));
      Run(SetOwner(inside, OfDefault, w), [End(TagDefault)]) == Go(WithDefault(info, w))
  {
    var inside := PushValue(Push(WithDefault(info, shell), DefaultState), Pointer(OfDefault, []));
    RunOne(SetOwner(inside, OfDefault, w), End(TagDefault));
  }

  lemma OptDefaultRun(ft: FloatText, info: ParseInfo, v: Option<Value>)
    requires ft.Faithful() && info.floats == ft
    requires info.states.Cons? && info.states.head.LocalSchemaState?
    requires info.localSchemas != [] && info.localSchemas[0].default == None
    ensures Run(info, DefaultElement(ft, v)) ==
      match RereadOptValue(v)
      case None => Rejected
      case Some(w) => Go(info.(localSchemas := [info.localSchemas[0].(default := w)] + info.localSchemas[1..]))
  {
    match v
    case Some(x) => DefaultRun(ft, info, x);
    case None =>
      assert [info.localSchemas[0].(default := None)] + info.localSchemas[1..] == info.localSchemas;
  }

  /** <longdesc>: absent or blank text leaves the description absent. */
  lemma LongDescRun(info: ParseInfo, s: Option<string>)
    requires info.states.Cons? && info.states.head.LocalSchemaState?
    requires info.localSchemas != [] && info.localSchemas[0].longDesc == None
    ensures Run(info, LongDescElement(s)) ==
      Go(info.(localSchemas := [info.localSchemas[0].(longDesc := RereadLongDesc(s))] + info.localSchemas[1..]))
  {
    assert [info.localSchemas[0].(longDesc := None)] + info.localSchemas[1..] == info.localSchemas;
    if s.Some? {
      var inside := Push(info, LongDescState);
      RunElement(info, Start(TagLongDesc, []), TextEvents(s.value), End(TagLongDesc));
      RunConcat(inside, TextEvents(s.value), [End(TagLongDesc)]);
      if s.value != "" { RunOne(inside, Text(s.value)); }
      var filled := inside.(localSchemas :=
        [info.localSchemas[0].(longDesc := RereadLongDesc(s))] + info.localSchemas[1..]);
      assert Run(inside, TextEvents(s.value)) == Go(filled);
      RunOne(filled, End(TagLongDesc));
    }
  }

  /** The current entry is open and has a schema as its value. */
  ghost predicate SchemaOpen(info: ParseInfo) {
    && info.states.Cons? && info.states.head.EntryState? && PeekValue(info) == Some(Pointer(OfEntry, []))
    && info.currentEntry.Some? && info.currentEntry.value.value.Some?
    && info.currentEntry.value.value.value.SchemaValue?
  }

  lemma LocalAttrsRead(locale: string, shortDesc: Option<string>)
    ensures var attrs := [(AtLocale, locale)] + OptAttr(AtShortDesc, shortDesc);
      Locates(attrs, {AtLocale, AtShortDesc})
      && AttrValue(attrs, AtLocale) == Some(locale) && AttrValue(attrs, AtShortDesc) == shortDesc
  {
    var known := {AtLocale, AtShortDesc};
    var rest := OptAttr(AtShortDesc, shortDesc);
    assert rest == if shortDesc.Some? then [(AtShortDesc, shortDesc.value)] + [] else [];
    if shortDesc.Some? {
      AttrCons((AtShortDesc, shortDesc.value), [], AtLocale, known);
      AttrCons((AtShortDesc, shortDesc.value), [], AtShortDesc, known);
    }
    AttrCons((AtLocale, locale), rest, AtLocale, known);
    AttrCons((AtLocale, locale), rest, AtShortDesc, known);
  }

  function PushLocals(info: ParseInfo, ls: seq<LocalSchema>): ParseInfo {
    info.(localSchemas := ls + info.localSchemas)
  }

  lemma LocalStart(info: ParseInfo, locale: string, shortDesc: Option<string>)
    requires SchemaOpen(info)
    ensures Step(info, Start(TagLocalSchema, [(AtLocale, locale)] + OptAttr(AtShortDesc, shortDesc)))
      == Go(Push(PushLocals(info, [LocalSchema(locale, shortDesc, None, None)]), LocalSchemaState))
  {
    LocalAttrsRead(locale, shortDesc);
    hide Locates, AttrValue, OptAttr;
  }

  /** <local_schema> */
  lemma LocalRun(ft: FloatText, info: ParseInfo, ls: LocalSchema, descs: bool)
    requires ft.Faithful() && info.floats == ft && SchemaOpen(info)
    ensures Run(info, LocalSchemaElement(ft, ls, descs)) ==
      match RereadLocal(ls, descs)
      case None => Rejected
      case Some(read) => Go(PushLocals(info, read))
  {
    if !descs && ls.default == None {
      assert [] + info.localSchemas == info.localSchemas;
    } else {
      var shortDesc := if descs then ls.shortDesc else None;
      var start := Start(TagLocalSchema, [(AtLocale, ls.locale)] + OptAttr(AtShortDesc, shortDesc));
      var long := if descs then LongDescElement(ls.longDesc) else [];
      var blank := LocalSchema(ls.locale, shortDesc, None, None);
      var inside := Push(PushLocals(info, [blank]), LocalSchemaState);
      LocalStart(info, ls.locale, shortDesc);
      hide Step, Run, RereadLocal, SchemaOpen, OptAttr;
      assert LocalSchemaElement(ft, ls, descs) == [start] + (DefaultElement(ft, ls.default) + long) + [End(TagLocalSchema)];
      RunElement(info, start, DefaultElement(ft, ls.default) + long, End(TagLocalSchema));
      LocalBody(ft, info, inside, ls, descs, blank);
    }
  }

  lemma LocalBody(ft: FloatText, info: ParseInfo, inside: ParseInfo, ls: LocalSchema, descs: bool, read: LocalSchema)
    requires ft.Faithful() && info.floats == ft && (descs || ls.default.Some?)
    requires read == LocalSchema(ls.locale, if descs then ls.shortDesc else None, None, None)
    requires inside == Push(PushLocals(info, [read]), LocalSchemaState)
    ensures Run(inside, DefaultElement(ft, ls.default) + (if descs then LongDescElement(ls.longDesc) else []) + [End(TagLocalSchema)]) ==
      match RereadLocal(ls, descs)
      case None => Rejected
      case Some(done) => Go(PushLocals(info, done))
  {
    var long := if descs then LongDescElement(ls.longDesc) else [];
    OptDefaultRun(ft, inside, ls.default);
    RunConcat(inside, DefaultElement(ft, ls.default) + long, [End(TagLocalSchema)]);
    RunConcat(inside, DefaultElement(ft, ls.default), long);
    if RereadOptValue(ls.default).Some? {
      var half := read.(default := RereadOptValue(ls.default).value);
      var inside1 := Push(PushLocals(info, [half]), LocalSchemaState);
      assert inside.localSchemas[1..] == info.localSchemas;
      assert Run(inside, DefaultElement(ft, ls.default)) == Go(inside1);
      LongDescRun(inside1, ls.longDesc);
      var whole := half.(longDesc := if descs then RereadLongDesc(ls.longDesc) else None);
      assert inside1.localSchemas[1..] == info.localSchemas;
      var inside2 := Push(PushLocals(info, [whole]), LocalSchemaState);
      assert Run(inside1, long) == Go(inside2);
      RunOne(inside2, End(TagLocalSchema));
    }
  }

  lemma {:induction false} LocalsRun(ft: FloatText, info: ParseInfo, ls: seq<LocalSchema>, subtree: bool)
    requires ft.Faithful() && info.floats == ft && SchemaOpen(info)
    ensures Run(info, SchemaChildren(ft, ls, subtree)) ==
      match RereadLocals(ls, subtree)
      case None => Rejected
      case Some(read) => Go(PushLocals(info, Reverse(read)))
    decreases ls
  {
    if ls == [] {
      assert [] + info.localSchemas == info.localSchemas;
    } else {
      var descs := !subtree || ls[0].locale == "C";
      LocalRun(ft, info, ls[0], descs);
      RunConcat(info, LocalSchemaElement(ft, ls[0], descs), SchemaChildren(ft, ls[1..], subtree));
      var first, rest := RereadLocal(ls[0], descs), RereadLocals(ls[1..], subtree);
      if first.Some? {
        LocalsRun(ft, PushLocals(info, first.value), ls[1..], subtree);
        if rest.Some? { ReverseShort(first.value, rest.value, info.localSchemas); }
      }
    }
  }

  lemma ReverseShort<T>(first: seq<T>, rest: seq<T>, older: seq<T>)
    requires |first| <= 1
    ensures Reverse(rest) + (first + older) == Reverse(first + rest) + older
  {
    if first == [] {
      assert first + rest == rest && first + older == older;
    } else {
      assert (first + rest)[1..] == rest && (first + rest)[0] == first[0] && first == [first[0]];
    }
  }

  // Entries and directories

  /** Outside every entry, in an open directory. */
  ghost predicate DirOpen(info: ParseInfo) {
    && info.states.Cons? && (info.states.head.GconfState? || info.states.head.DirState?)
    && info.dirStack.Cons? && info.currentEntry == None && info.localSchemas == []
  }

  /** The open directory with further entries, newest first. */
  function AddEntries(info: ParseInfo, es: seq<Entry>): ParseInfo
    requires info.dirStack.Cons?
  {
    info.(dirStack := Cons(info.dirStack.head.(entries := es + info.dirStack.head.entries), info.dirStack.tail))
  }

  function AddSubdirs(info: ParseInfo, ds: seq<Dir>): ParseInfo
    requires info.dirStack.Cons?
  {
    info.(dirStack := Cons(info.dirStack.head.(subdirs := ds + info.dirStack.head.subdirs), info.dirStack.tail))
  }

  function Bare(e: Entry): Entry { e.(value := None, localSchemas := []) }

  lemma EntryFieldsRead(e: Entry, attrs: seq<Attr>, f: Fields)
    requires attrs == AttrList(f)
    requires f.name == Some(e.name) && f.mtime == Some(ShowTime(e.modTime))
    requires f.schema == e.schemaName && f.muser == e.modUser
    ensures Locates(attrs, VALUE_ATTRS)
    ensures AttrValue(attrs, AtName) == Some(e.name) && AttrValue(attrs, AtSchema) == e.schemaName
    ensures AttrValue(attrs, AtMuser) == e.modUser
    ensures AttrValue(attrs, AtMtime).Some? && ReadTime(AttrValue(attrs, AtMtime).value) == e.modTime
    ensures AttrValue(attrs, AtType) == f.typ
  {
    AttrsRead(f, AtName);
    AttrsRead(f, AtMtime);
    AttrsRead(f, AtSchema);
    AttrsRead(f, AtMuser);
    AttrsRead(f, AtType);
    ReadShowTime(e.modTime);
  }

  /** An entry without a value. */
  lemma BareEntryRun(info: ParseInfo, e: Entry, attrs: seq<Attr>)
    requires DirOpen(info)
    requires Locates(attrs, VALUE_ATTRS) && AttrValue(attrs, AtType) == None
    requires AttrValue(attrs, AtName) == Some(e.name) && AttrValue(attrs, AtSchema) == e.schemaName
    requires AttrValue(attrs, AtMuser) == e.modUser
    requires AttrValue(attrs, AtMtime).Some? && ReadTime(AttrValue(attrs, AtMtime).value) == e.modTime
    ensures Run(info, [Start(TagEntry, attrs), End(TagEntry)]) == Go(AddEntries(info, [Bare(e)]))
  {
    var inside := Push(info, EntryState).(currentEntry := Some(Bare(e)));
    assert ParseValue(attrs, info.floats) == NoValue;
    assert StartEntry(info, attrs) == Go(inside);
    assert Reverse(inside.localSchemas) == [];
    assert EndEntry(inside) == Go(AddEntries(info, [Bare(e)]));
    RunTwo(info, Start(TagEntry, attrs), End(TagEntry));
  }

  /** The parser in the middle of reading an entry. */
  function EntryInside(info: ParseInfo, e: Entry, v: Value, locals: seq<LocalSchema>): ParseInfo {
    PushLocals(
      PushValue(Push(info, EntryState).(currentEntry := Some(Bare(e).(value := Some(v)))), Pointer(OfEntry, [])),
      locals)
  }

  lemma EntryStart(info: ParseInfo, e: Entry, v: Value, attrs: seq<Attr>)
    requires DirOpen(info)
    requires ParseValue(attrs, info.floats) == Shell(v) && Locates(attrs, VALUE_ATTRS)
    requires AttrValue(attrs, AtName) == Some(e.name) && AttrValue(attrs, AtSchema) == e.schemaName
    requires AttrValue(attrs, AtMuser) == e.modUser
    requires AttrValue(attrs, AtMtime).Some? && ReadTime(AttrValue(attrs, AtMtime).value) == e.modTime
    ensures Step(info, Start(TagEntry, attrs)) ==
      if Shell(v).Parsed? then Go(EntryInside(info, e, Shell(v).v, [])) else Rejected
  {
  }

  lemma EntryEnd(info: ParseInfo, e: Entry, v: Value, locals: seq<LocalSchema>)
    requires DirOpen(info)
    ensures Run(EntryInside(info, e, v, Reverse(locals)), [End(TagEntry)])
      == Go(AddEntries(info, [e.(value := Some(v), localSchemas := locals)]))
  {
    var inside := EntryInside(info, e, v, Reverse(locals));
    assert inside.localSchemas == Reverse(locals);
    ReverseTwice(locals);
    assert EndEntry(inside) == Go(AddEntries(info, [e.(value := Some(v), localSchemas := locals)]));
    RunOne(inside, End(TagEntry));
  }

  /** The children of an entry that holds a schema. */
  lemma SchemaKids(ft: FloatText, info: ParseInfo, e: Entry, v: Value, subtree: bool)
    requires ft.Faithful() && info.floats == ft && DirOpen(info)
    requires e.value == Some(v) && v.SchemaValue? && Shell(v).Parsed?
    ensures Run(EntryInside(info, e, Shell(v).v, []), SchemaChildren(ft, e.localSchemas, subtree)) ==
      match RereadLocals(e.localSchemas, subtree)
      case None => Rejected
      case Some(locals) => Go(EntryInside(info, e, Shell(v).v, Reverse(locals)))
  {
    var inside := EntryInside(info, e, Shell(v).v, []);
    LocalsRun(ft, inside, e.localSchemas, subtree);
    hide Run, RereadLocals, SchemaChildren;
    var read := RereadLocals(e.localSchemas, subtree);
    if read.Some? {
      assert inside.localSchemas == info.localSchemas == [];
      assert Reverse(read.value) + inside.localSchemas == Reverse(read.value) + info.localSchemas;
    }
  }

  /** The children of an entry that holds something else. */
  lemma PlainKids(ft: FloatText, info: ParseInfo, e: Entry, v: Value)
    requires ft.Faithful() && info.floats == ft && DirOpen(info)
    requires e.value == Some(v) && !v.SchemaValue? && Shell(v).Parsed?
    ensures Run(EntryInside(info, e, Shell(v).v, []), ValueChildren(ft, v, [])) ==
      match RereadValue(v)
      case None => Rejected
      case Some(w) => Go(EntryInside(info, e, w, Reverse([])))
  {
    HolderRun(ft, EntryInside(info, e, Shell(v).v, []), OfEntry, v);
    hide Run, RereadValue, ValueChildren, Shell;
  }

  /** The content of an entry with a value, and its end. */
  lemma EntryBody(ft: FloatText, info: ParseInfo, e: Entry, v: Value, subtree: bool)
    requires ft.Faithful() && info.floats == ft && DirOpen(info)
    requires e.value == Some(v) && Shell(v).Parsed?
    ensures Run(EntryInside(info, e, Shell(v).v, []),
                ValueChildren(ft, v, SchemaChildren(ft, e.localSchemas, subtree)) + [End(TagEntry)]) ==
      match RereadEntry(e, subtree)
      case None => Rejected
      case Some(read) => Go(AddEntries(info, [read]))
  {
    var kids := ValueChildren(ft, v, SchemaChildren(ft, e.localSchemas, subtree));
    hide Run, Step, SchemaChildren, RereadLocals, DirOpen, EntryInside, AddEntries;
    RunConcat(EntryInside(info, e, Shell(v).v, []), kids, [End(TagEntry)]);
    if v.SchemaValue? {
      SchemaKids(ft, info, e, v, subtree);
    } else {
      assert kids == ValueChildren(ft, v, []);
      PlainKids(ft, info, e, v);
    }
    var read := RereadEntry(e, subtree);
    if read.Some? { EntryEnd(info, e, read.value.value.value, read.value.localSchemas); }
  }

  lemma ValuedEntryRun(ft: FloatText, info: ParseInfo, e: Entry, v: Value, subtree: bool, attrs: seq<Attr>)
    requires ft.Faithful() && info.floats == ft && DirOpen(info) && e.value == Some(v)
    requires ParseValue(attrs, info.floats) == Shell(v) && Locates(attrs, VALUE_ATTRS)
    requires AttrValue(attrs, AtName) == Some(e.name) && AttrValue(attrs, AtSchema) == e.schemaName
    requires AttrValue(attrs, AtMuser) == e.modUser
    requires AttrValue(attrs, AtMtime).Some? && ReadTime(AttrValue(attrs, AtMtime).value) == e.modTime
    ensures Run(info, [Start(TagEntry, attrs)] + ValueChildren(ft, v, SchemaChildren(ft, e.localSchemas, subtree))
                      + [End(TagEntry)]) ==
      match RereadEntry(e, subtree)
      case None => Rejected
      case Some(read) => Go(AddEntries(info, [read]))
  {
    EntryStart(info, e, v, attrs);
    RunElement(info, Start(TagEntry, attrs), ValueChildren(ft, v, SchemaChildren(ft, e.localSchemas, subtree)), End(TagEntry));
    if Shell(v).Parsed? {
      EntryBody(ft, info, e, v, subtree);
    } else {
      ShellRejects(v);
    }
    hide Run, Step, SchemaChildren, ValueChildren, RereadLocals, DirOpen, EntryInside, AddEntries;
  }

  /** A value whose start tag is refused does not come back. */
  lemma ShellRejects(v: Value)
    requires !Shell(v).Parsed?
    ensures RereadValue(v) == None
  {
  }

  /** <entry> */
  lemma EntryRun(ft: FloatText, info: ParseInfo, e: Entry, subtree: bool)
    requires ft.Faithful() && info.floats == ft && DirOpen(info)
    ensures Run(info, EntryElement(ft, e, subtree)) ==
      match RereadEntry(e, subtree)
      case None => Rejected
      case Some(read) => Go(AddEntries(info, [read]))
  {
    match e.value
    case None =>
      var attrs := AttrList(EntryFields(e));
      EntryFieldsRead(e, attrs, EntryFields(e));
      BareEntryRun(info, e, attrs);
    case Some(v) =>
      var attrs := AttrList(WithValue(ft, EntryFields(e), v));
      ShellRead(ft, EntryFields(e), v);
      EntryFieldsRead(e, attrs, WithValue(ft, EntryFields(e), v));
      ValuedEntryRun(ft, info, e, v, subtree, attrs);
  }

  lemma {:induction false} EntriesRun(ft: FloatText, info: ParseInfo, es: seq<Entry>, subtree: bool)
    requires ft.Faithful() && info.floats == ft && DirOpen(info)
    ensures Run(info, EntriesEvents(ft, es, subtree)) ==
      match RereadEntries(es, subtree)
      case None => Rejected
      case Some(read) => Go(AddEntries(info, Reverse(read)))
    decreases es
  {
    if es == [] {
      assert [] + info.dirStack.head.entries == info.dirStack.head.entries;
    } else {
      EntryRun(ft, info, es[0], subtree);
      RunConcat(info, EntryElement(ft, es[0], subtree), EntriesEvents(ft, es[1..], subtree));
      var first, rest := RereadEntry(es[0], subtree), RereadEntries(es[1..], subtree);
      if first.Some? {
        EntriesRun(ft, AddEntries(info, [first.value]), es[1..], subtree);
        if rest.Some? { ReverseShort([first.value], rest.value, info.dirStack.head.entries); }
      }
    }
  }

  /** The parser just inside <dir>. */
  function DirInside(info: ParseInfo, name: string): ParseInfo {
    Push(info, DirState).(dirStack := Cons(Dir(name, [], []), info.dirStack))
  }

  lemma DirStart(info: ParseInfo, name: string)
    requires DirOpen(info) && info.allowSubdirs
    ensures Step(info, Start(TagDir, [(AtName, name)])) == Go(DirInside(info, name))
  {
    AttrCons((AtName, name), [], AtName, {AtName});
    assert [(AtName, name)] == [(AtName, name)] + [];
  }

  /** <dir> */
  lemma {:induction false} DirRun(ft: FloatText, info: ParseInfo, d: Dir)
    requires ft.Faithful() && info.floats == ft && DirOpen(info) && info.allowSubdirs
    ensures Run(info, DirElement(ft, d)) ==
      match RereadDir(d)
      case None => Rejected
      case Some(read) => Go(AddSubdirs(info, [read]))
    decreases d, 1
  {
    var inside := DirInside(info, d.name);
    DirStart(info, d.name);
    var kids := EntriesEvents(ft, d.entries, true) + DirsEvents(ft, d.subdirs);
    assert DirElement(ft, d) == [Start(TagDir, [(AtName, d.name)])] + kids + [End(TagDir)];
    hide Run, Step, DirOpen, DirInside, EntriesEvents, DirsEvents, DirElement, RereadDir, AddEntries, AddSubdirs;
    RunElement(info, Start(TagDir, [(AtName, d.name)]), kids, End(TagDir));
    RunConcat(inside, kids, [End(TagDir)]);
    DirKids(ft, info, d);
    var read := RereadDir(d);
    if read.Some? { DirEnd(info, d.name, read.value.entries, read.value.subdirs); }
  }

  lemma {:induction false} DirKids(ft: FloatText, info: ParseInfo, d: Dir)
    requires ft.Faithful() && info.floats == ft && DirOpen(info) && info.allowSubdirs
    ensures Run(DirInside(info, d.name), EntriesEvents(ft, d.entries, true) + DirsEvents(ft, d.subdirs)) ==
      match RereadDir(d)
      case None => Rejected
      case Some(read) =>
        Go(AddSubdirs(AddEntries(DirInside(info, d.name), Reverse(read.entries)), Reverse(read.subdirs)))
    decreases d, 0
  {
    var inside := DirInside(info, d.name);
    hide Run, Step, EntriesEvents, DirsEvents, RereadEntries, RereadDirs;
    RunConcat(inside, EntriesEvents(ft, d.entries, true), DirsEvents(ft, d.subdirs));
    EntriesRun(ft, inside, d.entries, true);
    var es := RereadEntries(d.entries, true);
    if es.Some? { DirsRun(ft, AddEntries(inside, Reverse(es.value)), d.subdirs); }
  }

  lemma DirEnd(info: ParseInfo, name: string, es: seq<Entry>, ds: seq<Dir>)
    requires DirOpen(info)
    ensures var inside := DirInside(info, name);
      Run(AddSubdirs(AddEntries(inside, Reverse(es)), Reverse(ds)), [End(TagDir)])
      == Go(AddSubdirs(info, [Dir(name, es, ds)]))
  {
    var inside := DirInside(info, name);
    var full := AddSubdirs(AddEntries(inside, Reverse(es)), Reverse(ds));
    assert full.dirStack.head == Dir(name, Reverse(es), Reverse(ds));
    ReverseTwice(es);
    ReverseTwice(ds);
    assert EndDir(full) == Go(AddSubdirs(info, [Dir(name, es, ds)]));
    RunOne(full, End(TagDir));
  }

  lemma {:induction false} DirsRun(ft: FloatText, info: ParseInfo, ds: seq<Dir>)
    requires ft.Faithful() && info.floats == ft && DirOpen(info) && info.allowSubdirs
    ensures Run(info, DirsEvents(ft, ds)) ==
      match RereadDirs(ds)
      case None => Rejected
      case Some(read) => Go(AddSubdirs(info, Reverse(read)))
    decreases ds, 0
  {
    if ds == [] {
      assert [] + info.dirStack.head.subdirs == info.dirStack.head.subdirs;
    } else {
      DirRun(ft, info, ds[0]);
      RunConcat(info, DirElement(ft, ds[0]), DirsEvents(ft, ds[1..]));
      var first, rest := RereadDir(ds[0]), RereadDirs(ds[1..]);
      if first.Some? {
        DirsRun(ft, AddSubdirs(info, [first.value]), ds[1..]);
        if rest.Some? { ReverseShort([first.value], rest.value, info.dirStack.head.subdirs); }
      }
    }
  }

  // Files

  /** What comes back from the file of a directory. Without subtree mode it holds no subdirectories. */
  function RereadFile(d: Dir, subtree: bool): Option<Dir> {
    var es := RereadEntries(d.entries, subtree);
    var ds := if subtree then RereadDirs(d.subdirs) else Some([]);
    if es == None || ds == None then None else Some(Dir(d.name, es.value, ds.value))
  }

  /** The events without the runs of white space between the elements. */
  function NoBlank(es: seq<Event>): seq<Event> {
    if es == [] then []
    else if es[0].Text? && Blank(es[0].text) then NoBlank(es[1..])
    else [es[0]] + NoBlank(es[1..])
  }

  /** Loading a file into a directory; a file without elements is an error that leaves the directory
      alone. */
  function LoadFile(root: Dir, subtree: bool, ft: FloatText, es: seq<Event>): ParseResult {
    if NoBlank(es) == [] then Tree(root) else ParseTree(root, subtree, ft, es)
  }

  /** Reading the file of `d' into a directory without entries: exactly what Reread says, and the
      subdirectories that were already there come out in reverse order. */
  lemma FileRun(ft: FloatText, root: Dir, d: Dir, subtree: bool)
    requires ft.Faithful() && root.entries == [] && FileEvents(ft, d, subtree) != []
    ensures ParseTree(root, subtree, ft, FileEvents(ft, d, subtree)) ==
      match RereadFile(d, subtree)
      case None => ParseError
      case Some(read) => Tree(Dir(root.name, read.entries, Reverse(root.subdirs) + read.subdirs))
  {
    var info := Init(root, subtree, ft);
    var dirs := if subtree then DirsEvents(ft, d.subdirs) else [];
    var kids := EntriesEvents(ft, d.entries, subtree) + dirs;
    assert FileEvents(ft, d, subtree) == [Start(TagGconf, [])] + kids + [End(TagGconf)];
    RunElement(info, Start(TagGconf, []), kids, End(TagGconf));
    RunConcat(Push(info, GconfState), kids, [End(TagGconf)]);
    RunConcat(Push(info, GconfState), EntriesEvents(ft, d.entries, subtree), dirs);
    FileBody(ft, info, root, d, subtree);
    var read := RereadFile(d, subtree);
    if read.Some? { RootEnd(info, root, read.value.entries, read.value.subdirs); }
  }

  lemma FileBody(ft: FloatText, info: ParseInfo, root: Dir, d: Dir, subtree: bool)
    requires ft.Faithful() && root.entries == [] && info == Init(root, subtree, ft)
    ensures
      Then(Run(Push(info, GconfState), EntriesEvents(ft, d.entries, subtree)),
           if subtree then DirsEvents(ft, d.subdirs) else []) ==
      match RereadFile(d, subtree)
      case None => Rejected
      case Some(read) =>
        Go(AddSubdirs(AddEntries(Push(info, GconfState), Reverse(read.entries)), Reverse(read.subdirs)))
  {
    var inside := Push(info, GconfState);
    EntriesRun(ft, inside, d.entries, subtree);
    var es := RereadEntries(d.entries, subtree);
    if es.Some? {
      var half := AddEntries(inside, Reverse(es.value));
      if subtree {
        DirsRun(ft, half, d.subdirs);
      } else {
        assert [] + root.subdirs == root.subdirs;
      }
    }
  }

  lemma ReverseConcat<T>(a: seq<T>, b: seq<T>)
    ensures Reverse(a + b) == Reverse(b) + Reverse(a)
  {
    if a == [] {
      assert a + b == b;
    } else {
      assert (a + b)[1..] == a[1..] + b;
      ReverseConcat(a[1..], b);
    }
  }

  lemma RootEnd(info: ParseInfo, root: Dir, es: seq<Entry>, ds: seq<Dir>)
    requires info.dirStack == Cons(root, Nil) && root.entries == []
    ensures var full := AddSubdirs(AddEntries(Push(info, GconfState), Reverse(es)), Reverse(ds));
      Run(full, [End(TagGconf)]) ==
      Go(info.(dirStack := Nil, root := Some(Dir(root.name, es, Reverse(root.subdirs) + ds))))
  {
    var full := AddSubdirs(AddEntries(Push(info, GconfState), Reverse(es)), Reverse(ds));
    assert full.dirStack.head == Dir(root.name, Reverse(es), Reverse(ds) + root.subdirs);
    ReverseTwice(es);
    ReverseTwice(ds);
    ReverseConcat(Reverse(ds), root.subdirs);
    RunOne(full, End(TagGconf));
  }

  /** White space between elements never matters. */
  lemma {:induction false} RunNoBlank(info: ParseInfo, es: seq<Event>)
    ensures Run(info, es) == Run(info, NoBlank(es))
    decreases es
  {
    if es != [] && Step(info, es[0]).Go? {
      RunNoBlank(Step(info, es[0]).info, es[1..]);
      if !(es[0].Text? && Blank(es[0].text)) {
        assert NoBlank(es)[0] == es[0] && NoBlank(es)[1..] == NoBlank(es[1..]);
      }
    } else if es != [] {
      assert NoBlank(es)[0] == es[0];
    }
  }

  /** Loading any layout of the file of `d': exactly what Reread says. */
  lemma LoadPrinted(ft: FloatText, root: Dir, d: Dir, subtree: bool, layout: seq<Event>)
    requires ft.Faithful() && root.entries == []
    requires NoBlank(layout) == NoBlank(FileEvents(ft, d, subtree))
    requires FileEvents(ft, d, subtree) == [] ==> root.subdirs == []
    ensures LoadFile(root, subtree, ft, layout) ==
      match RereadFile(d, subtree)
      case None => ParseError
      case Some(read) => Tree(Dir(root.name, read.entries, Reverse(root.subdirs) + read.subdirs))
  {
    var es := FileEvents(ft, d, subtree);
    var info := Init(root, subtree, ft);
    RunNoBlank(info, layout);
    RunNoBlank(info, es);
    if es != [] {
      assert NoBlank(es)[0] == Start(TagGconf, []);
      FileRun(ft, root, d, subtree);
    } else {
      assert RereadFile(d, subtree) == Some(Dir(d.name, [], []));
      assert Reverse(root.subdirs) + [] == root.subdirs;
      assert root == Dir(root.name, [], root.subdirs);
    }
  }

  // Re-readable trees

  predicate Known(t: VType, used: bool) { if used then !IsCompound(t) else t == TInvalid }

  /** A schema without localized parts, its element types simple and only where its type uses them. */
  predicate SchemaReadable(sc: Schema) {
    && sc.locale == None && sc.shortDesc == None && sc.longDesc == None && sc.default == None
    && Known(sc.listType, sc.vtype == TList)
    && Known(sc.carType, sc.vtype == TPair) && Known(sc.cdrType, sc.vtype == TPair)
  }

  predicate ItemReadable(v: Value) {
    match v
    case StringValue(s) => s.Some? && (s.value == "" || !Blank(s.value))
    case ListValue(t, elems) => IsPrimitive(t) && elems == []
    case PairValue(car, cdr) => car == None && cdr == None
    case SchemaValue(sc) => SchemaReadable(sc)
    case _ => true
  }

  predicate ValueReadable(v: Value) {
    match v
    case ListValue(t, elems) =>
      IsPrimitive(t) && forall i :: 0 <= i < |elems| ==> ItemReadable(elems[i]) && elems[i].Type() == t
    case PairValue(car, cdr) =>
      (car.Some? ==> ItemReadable(car.value)) && (cdr.Some? ==> ItemReadable(cdr.value))
    case _ => ItemReadable(v)
  }

  predicate LocalReadable(ls: LocalSchema, subtree: bool) {
    && (ls.default.Some? ==> ValueReadable(ls.default.value))
    && (if subtree && ls.locale != "C"
        then ls.default.Some? && ls.shortDesc == None && ls.longDesc == None
        else ls.longDesc.Some? ==> !Blank(ls.longDesc.value))
  }

  predicate EntryReadable(e: Entry, subtree: bool) {
    && (e.value.Some? ==> ValueReadable(e.value.value))
    && (e.localSchemas != [] ==> e.value.Some? && e.value.value.SchemaValue?)
    && forall i :: 0 <= i < |e.localSchemas| ==> LocalReadable(e.localSchemas[i], subtree)
  }

  predicate EntriesReadable(es: seq<Entry>, subtree: bool) {
    forall i :: 0 <= i < |es| ==> EntryReadable(es[i], subtree)
  }

  predicate DirReadable(d: Dir) {
    EntriesReadable(d.entries, true) && forall i :: 0 <= i < |d.subdirs| ==> DirReadable(d.subdirs[i])
  }

  predicate FileReadable(d: Dir, subtree: bool) {
    EntriesReadable(d.entries, subtree)
    && if subtree then forall i :: 0 <= i < |d.subdirs| ==> DirReadable(d.subdirs[i]) else d.subdirs == []
  }

  lemma ItemFixed(v: Value)
    ensures RereadItem(v) == Some(v) <==> ItemReadable(v)
  {
  }

  lemma {:induction false} ElemsFixed(t: VType, elems: seq<Value>)
    ensures RereadElems(t, elems) == Some(elems) <==>
      forall i :: 0 <= i < |elems| ==> ItemReadable(elems[i]) && elems[i].Type() == t
  {
    if elems != [] {
      ItemFixed(elems[0]);
      ElemsFixed(t, elems[1..]);
      assert elems == [elems[0]] + elems[1..];
      if RereadElems(t, elems) == Some(elems) {
        var first, rest := RereadItem(elems[0]).value, RereadElems(t, elems[1..]).value;
        assert ([first] + rest)[0] == elems[0] && ([first] + rest)[1..] == elems[1..];
      }
    }
  }

  lemma ValueFixed(v: Value)
    ensures RereadValue(v) == Some(v) <==> ValueReadable(v)
  {
    match v
    case ListValue(t, elems) => ElemsFixed(t, elems);
    case PairValue(car, cdr) =>
      if car.Some? { ItemFixed(car.value); }
      if cdr.Some? { ItemFixed(cdr.value); }
    case _ => ItemFixed(v);
  }

  lemma LocalFixed(ls: LocalSchema, subtree: bool)
    ensures RereadLocal(ls, !subtree || ls.locale == "C") == Some([ls]) <==> LocalReadable(ls, subtree)
  {
    if ls.default.Some? { ValueFixed(ls.default.value); }
  }

  lemma {:induction false} LocalsShrink(locals: seq<LocalSchema>, subtree: bool)
    ensures RereadLocals(locals, subtree).Some? ==> |RereadLocals(locals, subtree).value| <= |locals|
  {
    if locals != [] { LocalsShrink(locals[1..], subtree); }
  }

  lemma {:induction false} LocalsFixed(locals: seq<LocalSchema>, subtree: bool)
    ensures RereadLocals(locals, subtree) == Some(locals) <==>
      forall i :: 0 <= i < |locals| ==> LocalReadable(locals[i], subtree)
  {
    if locals != [] {
      LocalFixed(locals[0], subtree);
      LocalsFixed(locals[1..], subtree);
      LocalsShrink(locals[1..], subtree);
      assert locals == [locals[0]] + locals[1..];
      if RereadLocals(locals, subtree) == Some(locals) {
        var first := RereadLocal(locals[0], !subtree || locals[0].locale == "C").value;
        var rest := RereadLocals(locals[1..], subtree).value;
        assert |first| == 1;
        assert (first + rest)[0] == locals[0] && (first + rest)[1..] == rest == locals[1..];
        assert first == [locals[0]];
      }
    }
  }

  lemma EntryFixed(e: Entry, subtree: bool)
    ensures RereadEntry(e, subtree) == Some(e) <==> EntryReadable(e, subtree)
  {
    LocalsFixed(e.localSchemas, subtree);
    if e.value.Some? { ValueFixed(e.value.value); }
  }

  lemma {:induction false} EntriesFixed(es: seq<Entry>, subtree: bool)
    ensures RereadEntries(es, subtree) == Some(es) <==> EntriesReadable(es, subtree)
  {
    if es != [] {
      EntryFixed(es[0], subtree);
      EntriesFixed(es[1..], subtree);
      assert es == [es[0]] + es[1..];
      if RereadEntries(es, subtree) == Some(es) {
        var first, rest := RereadEntry(es[0], subtree).value, RereadEntries(es[1..], subtree).value;
        assert ([first] + rest)[0] == es[0] && ([first] + rest)[1..] == es[1..];
      }
    }
  }

  lemma {:induction false} DirFixed(d: Dir)
    ensures RereadDir(d) == Some(d) <==> DirReadable(d)
    decreases d, 1
  {
    EntriesFixed(d.entries, true);
    DirsFixed(d.subdirs);
  }

  lemma {:induction false} DirsFixed(ds: seq<Dir>)
    ensures RereadDirs(ds) == Some(ds) <==> forall i :: 0 <= i < |ds| ==> DirReadable(ds[i])
    decreases ds, 0
  {
    if ds != [] {
      DirFixed(ds[0]);
      DirsFixed(ds[1..]);
      assert ds == [ds[0]] + ds[1..];
      if RereadDirs(ds) == Some(ds) {
        var first, rest := RereadDir(ds[0]).value, RereadDirs(ds[1..]).value;
        assert ([first] + rest)[0] == ds[0] && ([first] + rest)[1..] == ds[1..];
      }
    }
  }

  lemma FileFixed(d: Dir, subtree: bool)
    ensures RereadFile(d, subtree) == Some(d) <==> FileReadable(d, subtree)
  {
    EntriesFixed(d.entries, subtree);
    DirsFixed(d.subdirs);
  }

  /** The main result: whatever the layout of the file, parsing what was written rebuilds the same
      tree, entries and subdirectories in the same order, exactly when the tree is re-readable. */
  lemma ParseUndoesPrint(ft: FloatText, d: Dir, subtree: bool, layout: seq<Event>)
    requires ft.Faithful()
    requires NoBlank(layout) == NoBlank(FileEvents(ft, d, subtree))
    ensures LoadFile(Dir(d.name, [], []), subtree, ft, layout) == Tree(d) <==> FileReadable(d, subtree)
  {
    LoadPrinted(ft, Dir(d.name, [], []), d, subtree, layout);
    FileFixed(d, subtree);
    var read := RereadFile(d, subtree);
    if read.Some? { assert Reverse([]) + read.value.subdirs == read.value.subdirs; }
  }
}
