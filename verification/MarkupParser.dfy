/** The markup reader: a stack machine driven by the tokenizer's element events.

    A pointer to a value on the value stack is an access path from its owner, the current entry or
    the newest local schema. Owners form a tree without sharing, so two pointers are the same
    exactly when their paths are. */
module MarkupParser {
  import opened Basics
  import opened Decimal
  import opened Values
  import opened MarkupTypes

  datatype State =
    | StartState | GconfState | DirState | EntryState | StringState | LongDescState
    | LocalSchemaState | DefaultState | CarState | CdrState | LiState

  datatype Owner = OfEntry | OfDefault
  datatype Selector = Elem(i: nat) | Car | Cdr
  datatype Pointer = Pointer(owner: Owner, path: seq<Selector>)

  /** ParseInfo. Lists under construction are in the order the handlers build them, newest first. */
  datatype ParseInfo = ParseInfo(
    states: List<State>,
    dirStack: List<Dir>,
    root: Option<Dir>,              // the root directory once its element is closed
    currentEntry: Option<Entry>,
    valueStack: List<Pointer>,
    localSchemas: seq<LocalSchema>,
    allowSubdirs: bool,
    floats: FloatText)

  /** A handler goes on, reports a GError, or fails an assertion (or dereferences NULL). */
  datatype Outcome = Go(info: ParseInfo) | Rejected | Aborted
  {
    predicate IsFailure() { !Go? }
    function PropagateFailure(): Outcome requires IsFailure() { this }
    function Extract(): ParseInfo requires Go? { info }
  }

  /** parse_info_init */
  function Init(root: Dir, allowSubdirs: bool, floats: FloatText): ParseInfo {
    ParseInfo(Cons(StartState, Nil), Cons(root, Nil), None, None, Nil, [], allowSubdirs, floats)
  }

  function Push(info: ParseInfo, s: State): ParseInfo { info.(states := Cons(s, info.states)) }

  function Pop(info: ParseInfo): ParseInfo {
    if info.states.Nil? then info else info.(states := info.states.tail)
  }

  function PushValue(info: ParseInfo, p: Pointer): ParseInfo {
    info.(valueStack := Cons(p, info.valueStack))
  }

  /** value_stack_pop: popping an empty stack does nothing. */
  function PopValue(info: ParseInfo): ParseInfo {
    if info.valueStack.Nil? then info else info.(valueStack := info.valueStack.tail)
  }

  function PeekValue(info: ParseInfo): Option<Pointer> {
    if info.valueStack.Nil? then None else Some(info.valueStack.head)
  }

  // Values by pointer

  function Child(v: Value, sel: Selector): Option<Value> {
    match sel
    case Elem(i) => if v.ListValue? && i < |v.elems| then Some(v.elems[i]) else None
    case Car => if v.PairValue? then v.car else None
    case Cdr => if v.PairValue? then v.cdr else None
  }

  function SetChild(v: Value, sel: Selector, x: Value): Value {
    match sel
    case Elem(i) => if v.ListValue? && i < |v.elems| then v.(elems := v.elems[i := x]) else v
    case Car => if v.PairValue? then v.(car := Some(x)) else v
    case Cdr => if v.PairValue? then v.(cdr := Some(x)) else v
  }

  function Follow(v: Value, path: seq<Selector>): Option<Value> {
    if path == [] then Some(v)
    else match Child(v, path[0])
         case None => None
         case Some(c) => Follow(c, path[1..])
  }

  function Replace(v: Value, path: seq<Selector>, x: Value): Value {
    if path == [] then x
    else match Child(v, path[0])
         case None => v
         case Some(c) => SetChild(v, path[0], Replace(c, path[1..], x))
  }

  function OwnerValue(info: ParseInfo, o: Owner): Option<Value> {
    match o
    case OfEntry => if info.currentEntry.Some? then info.currentEntry.value.value else None
    case OfDefault => if info.localSchemas != [] then info.localSchemas[0].default else None
  }

  function Deref(info: ParseInfo, p: Pointer): Option<Value> {
    match OwnerValue(info, p.owner)
    case None => None
    case Some(v) => Follow(v, p.path)
  }

  function SetOwner(info: ParseInfo, o: Owner, v: Value): ParseInfo {
    match o
    case OfEntry =>
      if info.currentEntry.Some?
      then info.(currentEntry := Some(info.currentEntry.value.(value := Some(v)))) else info
    case OfDefault =>
      if info.localSchemas != []
      then info.(localSchemas := [info.localSchemas[0].(default := Some(v))] + info.localSchemas[1..])
      else info
  }

  /** *p = x */
  function Store(info: ParseInfo, p: Pointer, x: Value): ParseInfo {
    match OwnerValue(info, p.owner)
    case None => info
    case Some(v) => SetOwner(info, p.owner, Replace(v, p.path, x))
  }

  // Attributes

  /** The first attribute of that name. */
  function AttrValue(attrs: seq<Attr>, name: AttrName): Option<string> {
    if attrs == [] then None
    else if attrs[0].0 == name then Some(attrs[0].1)
    else AttrValue(attrs[1..], name)
  }

  /** locate_attributes accepts: only known names, none twice. */
  predicate Locates(attrs: seq<Attr>, known: set<AttrName>) {
    attrs == []
    || (attrs[0].0 in known
        && AttrValue(attrs[1..], attrs[0].0) == None
        && Locates(attrs[1..], known))
  }

  const VALUE_ATTRS: set<AttrName> := {
    AtValue, AtType, AtStype, AtLtype, AtListType, AtCarType, AtCdrType, AtOwner,
    AtName, AtMuser, AtMtime, AtSchema }

  datatype ParsedValue = BadValue | NoValue | Parsed(v: Value)

  function IntFromString(s: string): Option<int32> {
    match ScanInt(s)
    case None => None
    case Some(i) => if -0x8000_0000 <= i < 0x8000_0000 then Some(i) else None
  }

  function BoolFromString(s: string): Option<bool> {
    if s == "true" then Some(true) else if s == "false" then Some(false) else None
  }

  function OptType(s: Option<string>): VType {
    match s
    case None => TInvalid
    case Some(t) => TypeFromName(t)
  }

  predicate IsCompound(t: VType) { t == TList || t == TPair || t == TSchema }

  function ParseSchema(attrs: seq<Attr>): ParsedValue {
    match AttrValue(attrs, AtStype)
    case None => BadValue
    case Some(stype) =>
      var t := TypeFromName(stype);
      var carType := if t == TPair then OptType(AttrValue(attrs, AtCarType)) else TInvalid;
      var cdrType := if t == TPair then OptType(AttrValue(attrs, AtCdrType)) else TInvalid;
      var listType := if t == TList then OptType(AttrValue(attrs, AtListType)) else TInvalid;
      if IsCompound(carType) || IsCompound(cdrType) || IsCompound(listType) then BadValue
      else
        Parsed(SchemaValue(
          Schema(t, listType, carType, cdrType, None, None, None, AttrValue(attrs, AtOwner), None)))
  }

  /** parse_value_element */
  function ParseValue(attrs: seq<Attr>, ft: FloatText): ParsedValue {
    if !Locates(attrs, VALUE_ATTRS) then BadValue
    else match AttrValue(attrs, AtType)
         case None => NoValue
         case Some(typeName) => ParseTyped(TypeFromName(typeName), attrs, ft)
  }

  function ParseTyped(t: VType, attrs: seq<Attr>, ft: FloatText): ParsedValue {
    var value := AttrValue(attrs, AtValue);
    match t
    case TInvalid => BadValue
    case TString => Parsed(StringValue(None))
    case TList =>
      var lt := OptType(AttrValue(attrs, AtLtype));
      if IsPrimitive(lt) then Parsed(ListValue(lt, [])) else BadValue
    case TSchema => ParseSchema(attrs)
    case TPair => Parsed(PairValue(None, None))
    case TInt =>
      if value == None then BadValue
      else (match IntFromString(value.value) case None => BadValue case Some(i) => Parsed(IntValue(i)))
    case TBool =>
      if value == None then BadValue
      else (match BoolFromString(value.value) case None => BadValue case Some(b) => Parsed(BoolValue(b)))
    case TFloat =>
      if value == None then BadValue
      else (match ft.read(value.value) case None => BadValue case Some(x) => Parsed(FloatValue(x)))
  }

  // Start tags

  /** parse_entry_element */
  function StartEntry(info: ParseInfo, attrs: seq<Attr>): Outcome {
    if info.currentEntry.Some? || info.dirStack.Nil? then Aborted
    else if !Locates(attrs, VALUE_ATTRS) || AttrValue(attrs, AtName) == None then Rejected
    else
      var pv := ParseValue(attrs, info.floats);
      if pv.BadValue? then Rejected
      else
        var mtime := AttrValue(attrs, AtMtime);
        var e := Entry(
          AttrValue(attrs, AtName).value,
          if pv.Parsed? then Some(pv.v) else None,
          [],
          AttrValue(attrs, AtSchema),
          AttrValue(attrs, AtMuser),
          if mtime.Some? then ReadTime(mtime.value) else 0);
        var info1 := Push(info, EntryState).(currentEntry := Some(e));
        Go(if pv.Parsed? then PushValue(info1, Pointer(OfEntry, [])) else info1)
  }

  /** parse_dir_element */
  function StartDir(info: ParseInfo, attrs: seq<Attr>): Outcome {
    if info.dirStack.Nil? then Aborted
    else if !Locates(attrs, {AtName}) || AttrValue(attrs, AtName) == None then Rejected
    else
      var d := Dir(AttrValue(attrs, AtName).value, [], []);
      Go(Push(info, DirState).(dirStack := Cons(d, info.dirStack)))
  }

  /** parse_local_schema_element */
  function StartLocalSchema(info: ParseInfo, attrs: seq<Attr>): Outcome {
    if !(info.currentEntry.Some? && info.currentEntry.value.value.Some?
         && info.currentEntry.value.value.value.SchemaValue?) then Rejected
    else if !Locates(attrs, {AtLocale, AtShortDesc}) || AttrValue(attrs, AtLocale) == None then Rejected
    else
      var ls := LocalSchema(AttrValue(attrs, AtLocale).value, AttrValue(attrs, AtShortDesc), None, None);
      Go(Push(info, LocalSchemaState).(localSchemas := [ls] + info.localSchemas))
  }

  /** parse_local_schema_child_element */
  function StartLocalSchemaChild(info: ParseInfo, tag: Tag, attrs: seq<Attr>): Outcome {
    if info.localSchemas == [] then Aborted
    else if tag == TagDefault then
      var info1 := Push(info, DefaultState);
      match ParseValue(attrs, info.floats)
      case BadValue => Rejected
      case NoValue => Go(info1)
      case Parsed(v) =>
        var ls := info.localSchemas[0];
        if ls.default.Some? then Rejected
        else
          Go(PushValue(info1.(localSchemas := [ls.(default := Some(v))] + info.localSchemas[1..]),
                       Pointer(OfDefault, [])))
    else if tag == TagLongDesc then
      if info.localSchemas[0].longDesc.Some? then Rejected else Go(Push(info, LongDescState))
    else Rejected
  }

  /** Hang `v' below the value `p' points to and push a pointer to it. */
  function Attach(info: ParseInfo, p: Pointer, parent: Value, sel: Selector, v: Value): Outcome {
    Go(PushValue(Store(info, p, parent), Pointer(p.owner, p.path + [sel])))
  }

  /** parse_car_or_cdr_element */
  function StartCarCdr(info: ParseInfo, isCar: bool, attrs: seq<Attr>): Outcome {
    match ParseValue(attrs, info.floats)
    case BadValue => Rejected
    case NoValue => Go(Push(info, if isCar then CarState else CdrState))
    case Parsed(v) => HangCarCdr(info, isCar, v)
  }

  function HangCarCdr(info: ParseInfo, isCar: bool, v: Value): Outcome {
    if PeekValue(info) == None || Deref(info, PeekValue(info).value) == None then Aborted
    else
      var p := PeekValue(info).value;
      var pair := Deref(info, p).value;
      if !pair.PairValue? || (if isCar then pair.car.Some? else pair.cdr.Some?) then Rejected
      else if isCar then Attach(Push(info, CarState), p, pair.(car := Some(v)), Car, v)
      else Attach(Push(info, CdrState), p, pair.(cdr := Some(v)), Cdr, v)
  }

  /** parse_li_element */
  function StartLi(info: ParseInfo, attrs: seq<Attr>): Outcome {
    match ParseValue(attrs, info.floats)
    case BadValue => Rejected
    case NoValue => Go(Push(info, LiState))
    case Parsed(v) => HangLi(info, v)
  }

  function HangLi(info: ParseInfo, v: Value): Outcome {
    if PeekValue(info) == None || Deref(info, PeekValue(info).value) == None then Aborted
    else
      var p := PeekValue(info).value;
      var list := Deref(info, p).value;
      if !list.ListValue? || v.Type() != list.elemType then Rejected
      else Attach(Push(info, LiState), p, list.(elems := list.elems + [v]), Elem(|list.elems|), v)
  }

  /** <stringvalue> in parse_value_child_element */
  function StartString(info: ParseInfo): Outcome {
    if PeekValue(info) == None || Deref(info, PeekValue(info).value) == None then Aborted
    else
      var p := PeekValue(info).value;
      if !Deref(info, p).value.StringValue? then Rejected
      else Go(Store(Push(info, StringState), p, StringValue(Some(""))))
  }

  /** parse_value_child_element */
  function StartValueChild(info: ParseInfo, s: State, tag: Tag, attrs: seq<Attr>): Outcome {
    if s.EntryState? && info.currentEntry == None then Aborted
    else if s.EntryState? && info.currentEntry.value.value == None then Rejected
    else if s.EntryState? && PeekValue(info) != Some(Pointer(OfEntry, [])) then Aborted
    else if tag == TagStringValue then StartString(info)
    else if tag == TagLocalSchema then
      if s.EntryState? then StartLocalSchema(info, attrs) else Rejected
    else if tag == TagCar || tag == TagCdr || tag == TagLi then
      if !(s.EntryState? || s.DefaultState?) then Rejected
      else if tag == TagLi then StartLi(info, attrs)
      else StartCarCdr(info, tag == TagCar, attrs)
    else Rejected
  }

  /** start_element_handler */
  function StartElement(info: ParseInfo, tag: Tag, attrs: seq<Attr>): Outcome {
    if info.states.Nil? then Aborted
    else match info.states.head
         case StartState =>
           if tag == TagGconf && attrs == [] then Go(Push(info, GconfState)) else Rejected
         case GconfState => StartInDir(info, tag, attrs)
         case DirState => StartInDir(info, tag, attrs)
         case StringState => Rejected
         case LongDescState => Rejected
         case LocalSchemaState => StartLocalSchemaChild(info, tag, attrs)
         case s => StartValueChild(info, s, tag, attrs)
  }

  function StartInDir(info: ParseInfo, tag: Tag, attrs: seq<Attr>): Outcome {
    if tag == TagEntry then StartEntry(info, attrs)
    else if tag == TagDir && info.allowSubdirs then StartDir(info, attrs)
    else Rejected
  }

  // End tags and text

  /** </entry> */
  function EndEntry(info: ParseInfo): Outcome {
    if info.currentEntry == None || info.currentEntry.value.localSchemas != [] || info.dirStack.Nil? then Aborted
    else
      var e := info.currentEntry.value.(localSchemas := Reverse(info.localSchemas));
      var d := info.dirStack.head;
      var info1 := info.(
        localSchemas := [],
        currentEntry := None,
        dirStack := Cons(d.(entries := [e] + d.entries), info.dirStack.tail));
      Go(Pop(if e.value.Some? then PopValue(info1) else info1))
  }

  /** </default>: the value on top of the stack must be the local schema's default. */
  function EndDefault(info: ParseInfo): Outcome {
    if info.localSchemas == [] then Aborted
    else
      var held := if info.localSchemas[0].default.Some? then Some(Pointer(OfDefault, [])) else None;
      if PeekValue(info) != held then Aborted else Go(Pop(PopValue(info)))
  }

  /** </dir> and </gconf> */
  function EndDir(info: ParseInfo): Outcome {
    if info.dirStack.Nil? then Aborted
    else
      var d := info.dirStack.head;
      var finished := d.(entries := Reverse(d.entries), subdirs := Reverse(d.subdirs));
      match info.dirStack.tail
      case Nil => Go(Pop(info.(dirStack := Nil, root := Some(finished))))
      case Cons(parent, rest) =>
        Go(Pop(info.(dirStack := Cons(parent.(subdirs := [finished] + parent.subdirs), rest))))
  }

  /** end_element_handler */
  function EndElement(info: ParseInfo): Outcome {
    if info.states.Nil? then Aborted
    else match info.states.head
         case StartState => Go(info)
         case EntryState => EndEntry(info)
         case DefaultState => EndDefault(info)
         case DirState => EndDir(info)
         case GconfState => EndDir(info)
         case CarState => Go(Pop(PopValue(info)))
         case CdrState => Go(Pop(PopValue(info)))
         case LiState => Go(Pop(PopValue(info)))
         case LocalSchemaState => Go(Pop(info))
         case LongDescState => Go(Pop(info))
         case StringState => Go(Pop(info))
  }

  /** text_handler: text that is all white space is dropped wherever it stands. */
  function TextRun(info: ParseInfo, text: string): Outcome {
    if Blank(text) then Go(info)
    else if info.states.Nil? then Aborted
    else match info.states.head
         case StartState => Aborted
         case StringState =>
           if PeekValue(info) == None || Deref(info, PeekValue(info).value) == None
              || !Deref(info, PeekValue(info).value).value.StringValue? then Aborted
           else Go(Store(info, PeekValue(info).value, StringValue(Some(text))))
         case LongDescState =>
           if info.localSchemas == [] then Aborted
           else
             Go(info.(localSchemas :=
               [info.localSchemas[0].(longDesc := Some(text))] + info.localSchemas[1..]))
         case _ => Rejected
  }

  function Step(info: ParseInfo, e: Event): Outcome {
    match e
    case Start(tag, attrs) => StartElement(info, tag, attrs)
    case End(_) => EndElement(info)
    case Text(t) => TextRun(info, t)
  }

  function Run(info: ParseInfo, es: seq<Event>): Outcome
    decreases es
  {
    if es == [] then Go(info)
    else
      var next :- Step(info, es[0]);
      Run(next, es[1..])
  }

  datatype ParseResult = Tree(root: Dir) | ParseError | ParseAbort

  /** parse_tree on a file with these events, into the directory `root'. */
  function ParseTree(root: Dir, allowSubdirs: bool, ft: FloatText, es: seq<Event>): ParseResult {
    match Run(Init(root, allowSubdirs, ft), es)
    case Rejected => ParseError
    case Aborted => ParseAbort
    // a document that is empty or unfinished is an error of the tokenizer
    case Go(info) => if info.root == None then ParseError else Tree(info.root.value)
  }

  /** Going on with further events. */
  function Then(o: Outcome, es: seq<Event>): Outcome {
    match o
    case Go(info) => Run(info, es)
    case other => other
  }

  lemma {:induction false} RunConcat(info: ParseInfo, a: seq<Event>, b: seq<Event>)
    ensures Run(info, a + b) == Then(Run(info, a), b)
    decreases a
  {
    if a == [] {
      assert a + b == b;
    } else {
      assert (a + b)[1..] == a[1..] + b;
      match Step(info, a[0])
      case Go(next) => RunConcat(next, a[1..], b);
      case _ =>
    }
  }

  lemma RunOne(info: ParseInfo, e: Event)
    ensures Run(info, [e]) == Step(info, e)
  {
    match Step(info, e)
    case Go(next) => assert Run(next, []) == Go(next); assert [e][1..] == [];
    case _ =>
  }

  lemma AttrCons(a: Attr, rest: seq<Attr>, name: AttrName, known: set<AttrName>)
    ensures AttrValue([a] + rest, name) == if a.0 == name then Some(a.1) else AttrValue(rest, name)
    ensures Locates([a] + rest, known) <==> (a.0 in known && AttrValue(rest, a.0) == None && Locates(rest, known))
  {
    assert ([a] + rest)[1..] == rest;
  }

  /** Following and replacing along a path of one selector. */
  lemma OneStep(v: Value, sel: Selector, x: Value)
    ensures Follow(v, [sel]) == Child(v, sel)
    ensures Replace(v, [sel], x) == if Child(v, sel) == None then v else SetChild(v, sel, x)
  {
    assert [sel][1..] == [];
  }

  /** Storing one step below an owner changes that child and nothing else. */
  lemma StoreChild(info: ParseInfo, p: Pointer, x: Value)
    requires |p.path| == 1 && OwnerValue(info, p.owner).Some?
    requires Child(OwnerValue(info, p.owner).value, p.path[0]).Some?
    ensures Store(info, p, x) ==
      SetOwner(info, p.owner, SetChild(OwnerValue(info, p.owner).value, p.path[0], x))
    ensures Deref(Store(info, p, x), p) == Some(x)
  {
    assert p.path == [p.path[0]];
    var v := OwnerValue(info, p.owner).value;
    OneStep(v, p.path[0], x);
    OneStep(SetChild(v, p.path[0], x), p.path[0], x);
  }
}
