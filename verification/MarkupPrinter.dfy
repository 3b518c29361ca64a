/** The markup writer: the element events of the files it produces. */
module MarkupPrinter {
  import opened Basics
  import opened Decimal
  import opened Values
  import opened MarkupTypes

  function OptAttr(name: AttrName, v: Option<string>): seq<Attr> {
    match v
    case None => []
    case Some(s) => [(name, s)]
  }

  function TextEvents(s: string): seq<Event> { if s == "" then [] else [Text(s)] }

  /** The attributes of an element that may hold a value, each written if it is there. */
  datatype Fields = Fields(
    name: Option<string>,
    mtime: Option<string>,
    schema: Option<string>,
    muser: Option<string>,
    typ: Option<string>,
    ltype: Option<string>,
    stype: Option<string>,
    owner: Option<string>,
    listType: Option<string>,
    carType: Option<string>,
    cdrType: Option<string>,
    value: Option<string>)

  const NO_FIELDS := Fields(None, None, None, None, None, None, None, None, None, None, None, None)

  /** The attributes in the order they are written. */
  function AttrList(f: Fields): seq<Attr> {
    OptAttr(AtName, f.name) + (OptAttr(AtMtime, f.mtime) + (OptAttr(AtSchema, f.schema)
    + (OptAttr(AtMuser, f.muser) + ValueAttrList(f))))
  }

  function ValueAttrList(f: Fields): seq<Attr> {
    OptAttr(AtType, f.typ) + (OptAttr(AtLtype, f.ltype) + (OptAttr(AtStype, f.stype)
    + (OptAttr(AtOwner, f.owner) + (OptAttr(AtListType, f.listType) + (OptAttr(AtCarType, f.carType)
    + (OptAttr(AtCdrType, f.cdrType) + (OptAttr(AtValue, f.value) + [])))))))
  }

  /** An element type of a schema is only written when it is known. */
  function KnownType(t: VType): Option<string> { if t == TInvalid then None else Some(TypeName(t)) }

  /** The attributes write_value_element adds to those the element has. */
  function WithValue(ft: FloatText, f: Fields, v: Value): Fields {
    var g := f.(typ := Some(TypeName(v.Type())));
    match v
    case IntValue(i) => g.(value := Some(ShowInt(i)))
    case BoolValue(b) => g.(value := Some(if b then "true" else "false"))
    case FloatValue(x) => g.(value := Some(ft.show(x)))
    case StringValue(_) => g
    case ListValue(t, _) => g.(ltype := Some(TypeName(t)))
    case PairValue(_, _) => g
    case SchemaValue(sc) =>
      g.(stype := Some(TypeName(sc.vtype)),
         owner := sc.owner,
         listType := if sc.vtype == TList then KnownType(sc.listType) else None,
         carType := if sc.vtype == TPair then KnownType(sc.carType) else None,
         cdrType := if sc.vtype == TPair then KnownType(sc.cdrType) else None)
  }

  /** write_value_element: `schemaChildren' is what write_schema_children puts inside a schema. */
  function ValueElement(ft: FloatText, tag: Tag, fields: Fields, v: Value, schemaChildren: seq<Event>): seq<Event>
    decreases v, 1
  {
    [Start(tag, AttrList(WithValue(ft, fields, v)))] + ValueChildren(ft, v, schemaChildren) + [End(tag)]
  }

  function ValueChildren(ft: FloatText, v: Value, schemaChildren: seq<Event>): seq<Event>
    decreases v, 0
  {
    match v
    case IntValue(_) => []
    case BoolValue(_) => []
    case FloatValue(_) => []
    case StringValue(s) =>
      // a string value without text has no printed form of its own
      [Start(TagStringValue, [])] + (if s.Some? then TextEvents(s.value) else []) + [End(TagStringValue)]
    case ListValue(_, elems) => ListChildren(ft, elems)
    case SchemaValue(_) => schemaChildren
    case PairValue(car, cdr) =>
      (if car.Some? then ValueElement(ft, TagCar, NO_FIELDS, car.value, []) else [])
      + (if cdr.Some? then ValueElement(ft, TagCdr, NO_FIELDS, cdr.value, []) else [])
  }

  /** write_list_children */
  function ListChildren(ft: FloatText, elems: seq<Value>): seq<Event>
    decreases elems, 0
  {
    if elems == [] then []
    else ValueElement(ft, TagLi, NO_FIELDS, elems[0], []) + ListChildren(ft, elems[1..])
  }

  /** write_local_schema_info in a main file: descriptions only where `writeDescs'. */
  function LocalSchemaElement(ft: FloatText, ls: LocalSchema, writeDescs: bool): seq<Event> {
    if !writeDescs && ls.default == None then []
    else
      [Start(TagLocalSchema,
             [(AtLocale, ls.locale)] + OptAttr(AtShortDesc, if writeDescs then ls.shortDesc else None))]
      + DefaultElement(ft, ls.default)
      + (if writeDescs then LongDescElement(ls.longDesc) else [])
      + [End(TagLocalSchema)]
  }

  function DefaultElement(ft: FloatText, default: Option<Value>): seq<Event> {
    match default
    case None => []
    case Some(v) => ValueElement(ft, TagDefault, NO_FIELDS, v, [])
  }

  function LongDescElement(longDesc: Option<string>): seq<Event> {
    match longDesc
    case None => []
    case Some(s) => [Start(TagLongDesc, [])] + TextEvents(s) + [End(TagLongDesc)]
  }

  /** write_schema_children: a merged file keeps only the "C" descriptions. */
  function SchemaChildren(ft: FloatText, locals: seq<LocalSchema>, subtree: bool): seq<Event> {
    if locals == [] then []
    else
      LocalSchemaElement(ft, locals[0], !subtree || locals[0].locale == "C")
      + SchemaChildren(ft, locals[1..], subtree)
  }

  function EntryFields(e: Entry): Fields {
    NO_FIELDS.(name := Some(e.name), mtime := Some(ShowTime(e.modTime)), schema := e.schemaName, muser := e.modUser)
  }

  /** write_entry for a main file. */
  function EntryElement(ft: FloatText, e: Entry, subtree: bool): seq<Event> {
    match e.value
    case None => [Start(TagEntry, AttrList(EntryFields(e))), End(TagEntry)]
    case Some(v) =>
      ValueElement(ft, TagEntry, EntryFields(e), v, SchemaChildren(ft, e.localSchemas, subtree))
  }

  function EntriesEvents(ft: FloatText, es: seq<Entry>, subtree: bool): seq<Event> {
    if es == [] then [] else EntryElement(ft, es[0], subtree) + EntriesEvents(ft, es[1..], subtree)
  }

  /** write_dir for a main file. */
  function DirElement(ft: FloatText, d: Dir): seq<Event>
    decreases d, 1
  {
    [Start(TagDir, [(AtName, d.name)])]
    + EntriesEvents(ft, d.entries, true) + DirsEvents(ft, d.subdirs)
    + [End(TagDir)]
  }

  function DirsEvents(ft: FloatText, ds: seq<Dir>): seq<Event>
    decreases ds, 0
  {
    if ds == [] then [] else DirElement(ft, ds[0]) + DirsEvents(ft, ds[1..])
  }

  /** save_tree_with_locale for the main file: an empty directory leaves an empty file. */
  function FileEvents(ft: FloatText, d: Dir, subtree: bool): seq<Event> {
    if d.entries == [] && (!subtree || d.subdirs == []) then []
    else
      [Start(TagGconf, [])]
      + EntriesEvents(ft, d.entries, subtree)
      + (if subtree then DirsEvents(ft, d.subdirs) else [])
      + [End(TagGconf)]
  }

  // What the files look like

  /** The start tag and the content of a value that holds no others: all but a string are in the tag. */
  lemma PlainElements(ft: FloatText, i: int32, b: bool, x: Double, s: string)
    requires s != ""
    ensures AttrList(WithValue(ft, NO_FIELDS, IntValue(i))) == [(AtType, "int"), (AtValue, ShowInt(i as int))]
    ensures AttrList(WithValue(ft, NO_FIELDS, BoolValue(b))) == [(AtType, "bool"), (AtValue, if b then "true" else "false")]
    ensures AttrList(WithValue(ft, NO_FIELDS, FloatValue(x))) == [(AtType, "float"), (AtValue, ft.show(x))]
    ensures AttrList(WithValue(ft, NO_FIELDS, StringValue(Some(s)))) == [(AtType, "string")]
    ensures ValueChildren(ft, IntValue(i), []) == [] && ValueChildren(ft, BoolValue(b), []) == []
    ensures ValueChildren(ft, FloatValue(x), []) == []
    ensures ValueChildren(ft, StringValue(Some(s)), []) == [Start(TagStringValue, []), Text(s), End(TagStringValue)]
  {
  }

  /** The start tag of a schema: the type, the parts of a list or pair type that are known, and the owner. */
  lemma SchemaTag(ft: FloatText, sc: Schema, owner: string)
    requires sc.owner == Some(owner)
    ensures AttrList(WithValue(ft, NO_FIELDS, SchemaValue(sc))) ==
      [(AtType, "schema"), (AtStype, TypeName(sc.vtype)), (AtOwner, owner)]
      + (if sc.vtype == TList && sc.listType != TInvalid then [(AtListType, TypeName(sc.listType))] else [])
      + (if sc.vtype == TPair && sc.carType != TInvalid then [(AtCarType, TypeName(sc.carType))] else [])
      + (if sc.vtype == TPair && sc.cdrType != TInvalid then [(AtCdrType, TypeName(sc.cdrType))] else [])
  {
  }

  /** The start tag of an entry: name and time of change, then schema name and user if there are any. */
  lemma EntryTag(e: Entry, schema: string, user: string)
    requires e.schemaName == Some(schema) && e.modUser == Some(user)
    ensures AttrList(EntryFields(e)) ==
      [(AtName, e.name), (AtMtime, ShowTime(e.modTime)), (AtSchema, schema), (AtMuser, user)]
  {
  }

  /** Lists hold their elements in li, pairs their parts in car and cdr. */
  lemma CompoundElements(ft: FloatText, tag: Tag, t: VType, v: Value, rest: seq<Value>, w: Value)
    ensures AttrList(WithValue(ft, NO_FIELDS, ListValue(t, rest))) == [(AtType, "list"), (AtLtype, TypeName(t))]
    ensures ValueChildren(ft, ListValue(t, [v] + rest), []) ==
      ValueElement(ft, TagLi, NO_FIELDS, v, []) + ValueChildren(ft, ListValue(t, rest), [])
    ensures AttrList(WithValue(ft, NO_FIELDS, PairValue(Some(v), Some(w)))) == [(AtType, "pair")]
    ensures ValueChildren(ft, PairValue(Some(v), Some(w)), []) ==
      ValueElement(ft, TagCar, NO_FIELDS, v, []) + ValueElement(ft, TagCdr, NO_FIELDS, w, [])
  {
    assert ([v] + rest)[1..] == rest;
  }
}
