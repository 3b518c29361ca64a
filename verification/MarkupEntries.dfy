/** Reading and changing one entry (markup_entry_get_value, set_value, unset_value,
    set_schema_name), where all local schemas are loaded. */
module MarkupEntries {
  import opened Basics
  import opened Values
  import opened MarkupTypes
  import opened MarkupRoundTrip

  /** The first local schema of a locale. */
  function FindLocal(locals: seq<LocalSchema>, locale: string): Option<nat> {
    if locals == [] then None
    else if locals[0].locale == locale then Some(0)
    else match FindLocal(locals[1..], locale)
         case None => None
         case Some(i) => Some(i + 1)
  }

  function LocalFor(locals: seq<LocalSchema>, locale: string): Option<LocalSchema> {
    match FindLocal(locals, locale)
    case None => None
    case Some(i) => if i < |locals| then Some(locals[i]) else None
  }

  /** The local schema of the first locale of the list that has one. */
  function BestLocal(locals: seq<LocalSchema>, locales: seq<string>): Option<LocalSchema> {
    if locales == [] then None
    else if LocalFor(locals, locales[0]).Some? then LocalFor(locals, locales[0])
    else BestLocal(locals, locales[1..])
  }

  /** `best' if it has the item, else "C" if that has it. */
  function Fallback<T>(best: Option<T>, c: Option<T>, otherwise: Option<T>): Option<T> {
    if best.Some? then best else if c.Some? then c else otherwise
  }

  /** markup_entry_get_value: a schema takes its localized parts from the best local schema, each
      missing part from the "C" one. */
  function EntryValue(e: Entry, locales: seq<string>): Option<Value> {
    match e.value
    case None => None
    case Some(v) =>
      if !v.SchemaValue? then Some(v)
      else
        var wanted := if locales == [] then ["C"] else locales;
        var best := BestLocal(e.localSchemas, wanted);
        var c := LocalFor(e.localSchemas, "C");
        Some(SchemaValue(Localize(v.schema, best, c)))
  }

  function Localize(sc: Schema, best: Option<LocalSchema>, c: Option<LocalSchema>): Schema {
    sc.(locale := Some(if best.Some? then best.value.locale else "C"),
        default := Fallback(if best.Some? then best.value.default else None,
                            if c.Some? then c.value.default else None, sc.default),
        shortDesc := Fallback(if best.Some? then best.value.shortDesc else None,
                              if c.Some? then c.value.shortDesc else None, sc.shortDesc),
        longDesc := Fallback(if best.Some? then best.value.longDesc else None,
                             if c.Some? then c.value.longDesc else None, sc.longDesc))
  }

  // Changes

  datatype Edit =
    | SetValue(v: Value, now: int32)
    | UnsetValue(locale: Option<string>, now: int32)
    | SetSchemaName(name: Option<string>, now: int32)

  /** The local schemas with the localized parts of `sc' put in. */
  function PutLocal(locals: seq<LocalSchema>, sc: Schema): seq<LocalSchema> {
    var locale := if sc.locale.Some? then sc.locale.value else "C";
    var ls := LocalSchema(locale, sc.shortDesc, sc.longDesc, sc.default);
    match FindLocal(locals, locale)
    case None => [ls] + locals
    case Some(i) => if i < |locals| then locals[i := ls] else locals
  }

  /** The main schema keeps the rest. */
  function MainSchema(previous: Option<Value>, sc: Schema): Schema {
    Schema(sc.vtype, sc.listType, sc.carType, sc.cdrType, None, None, None, sc.owner,
           if previous.Some? && previous.value.SchemaValue? then previous.value.schema.default else None)
  }

  /** One change; false if there is nothing to do. */
  function Change(e: Entry, edit: Edit): (Entry, bool) {
    match edit
    case SetValue(v, now) =>
      if !v.SchemaValue? then (e.(value := Some(v), localSchemas := [], modTime := now), true)
      else
        (e.(value := Some(SchemaValue(MainSchema(e.value, v.schema))),
            localSchemas := PutLocal(e.localSchemas, v.schema),
            modTime := now), true)
    case UnsetValue(locale, now) =>
      if e.value == None then (e, false)
      else if e.value.value.SchemaValue? && locale.Some? then
        (match FindLocal(e.localSchemas, locale.value)
         case None => (e.(modTime := now), true)
         case Some(i) =>
           if i < |e.localSchemas|
           then (e.(localSchemas := e.localSchemas[..i] + e.localSchemas[i + 1..], modTime := now), true)
           else (e, true))
      else (e.(value := None, localSchemas := if e.value.value.SchemaValue? then [] else e.localSchemas, modTime := now), true)
    case SetSchemaName(name, now) => (e.(schemaName := name, modTime := now), true)
  }

  // What an answer is

  predicate IsSchema(e: Entry) { e.value.Some? && e.value.value.SchemaValue? }

  /** This is the first local schema of a locale, or there is none. */
  predicate FirstOf(locals: seq<LocalSchema>, locale: string, first: Option<LocalSchema>) {
    match first
    case None => forall j :: 0 <= j < |locals| ==> locals[j].locale != locale
    case Some(ls) =>
      exists j :: 0 <= j < |locals| && locals[j] == ls && ls.locale == locale
                  && forall k :: 0 <= k < j ==> locals[k].locale != locale
  }

  /** This is the local schema of the first locale of the list that has one, or none of them has one. */
  predicate FirstAmong(locals: seq<LocalSchema>, locales: seq<string>, first: Option<LocalSchema>) {
    match first
    case None => forall i :: 0 <= i < |locales| ==> FirstOf(locals, locales[i], None)
    case Some(ls) =>
      exists i :: 0 <= i < |locales| && FirstOf(locals, locales[i], first)
                  && forall k :: 0 <= k < i ==> FirstOf(locals, locales[k], None)
  }

  /** An item of an answer: that of the best local schema, else that of the "C" one, else the main one. */
  predicate Taken<T(==)>(answer: Option<T>, best: Option<T>, c: Option<T>, main: Option<T>) {
    && (best.Some? ==> answer == best)
    && (best.None? && c.Some? ==> answer == c)
    && (best.None? && c.None? ==> answer == main)
  }

  /** The main schema with its localized parts from these two. */
  predicate Localized(answer: Schema, main: Schema, best: Option<LocalSchema>, c: Option<LocalSchema>) {
    && answer.vtype == main.vtype && answer.listType == main.listType
    && answer.carType == main.carType && answer.cdrType == main.cdrType && answer.owner == main.owner
    && (best.Some? ==> answer.locale == Some(best.value.locale))
    && (best.None? ==> answer.locale == Some("C"))
    && Taken(answer.default, if best.Some? then best.value.default else None, if c.Some? then c.value.default else None,
             main.default)
    && Taken(answer.shortDesc, if best.Some? then best.value.shortDesc else None,
             if c.Some? then c.value.shortDesc else None, main.shortDesc)
    && Taken(answer.longDesc, if best.Some? then best.value.longDesc else None,
             if c.Some? then c.value.longDesc else None, main.longDesc)
  }

  /** What is to be answered for an entry: nothing without a value, a plain value as it is, a schema with
      what the locales have for it. */
  ghost predicate Answers(e: Entry, locales: seq<string>, answer: Option<Value>) {
    match e.value
    case None => answer == None
    case Some(v) =>
      if !v.SchemaValue? then answer == Some(v)
      else
        && answer.Some? && answer.value.SchemaValue?
        && exists best, c ::
             && FirstAmong(e.localSchemas, if locales == [] then ["C"] else locales, best)
             && FirstOf(e.localSchemas, "C", c)
             && Localized(answer.value.schema, v.schema, best, c)
  }

  lemma {:induction false} LocalForIsFirst(locals: seq<LocalSchema>, locale: string)
    ensures FirstOf(locals, locale, LocalFor(locals, locale))
  {
    if locals != [] {
      LocalForRest(locals, locale);
      LocalForIsFirst(locals[1..], locale);
      if locals[0].locale == locale {
        assert locals[0] == LocalFor(locals, locale).value;
      } else if LocalFor(locals, locale).Some? {
        var rest := locals[1..];
        var j :| 0 <= j < |rest| && rest[j] == LocalFor(locals, locale).value && rest[j].locale == locale
                 && forall k :: 0 <= k < j ==> rest[k].locale != locale;
        assert locals[j + 1] == rest[j];
        forall k | 0 <= k < j + 1 ensures locals[k].locale != locale { if k > 0 { assert locals[k] == rest[k - 1]; } }
      } else {
        forall k | 0 <= k < |locals| ensures locals[k].locale != locale {
          if k > 0 { assert locals[k] == locals[1..][k - 1]; }
        }
      }
    }
  }

  lemma {:induction false} BestLocalIsFirst(locals: seq<LocalSchema>, locales: seq<string>)
    ensures FirstAmong(locals, locales, BestLocal(locals, locales))
  {
    if locales != [] {
      var rest := locales[1..];
      LocalForIsFirst(locals, locales[0]);
      BestLocalIsFirst(locals, rest);
      hide FirstOf, LocalFor;
      if LocalFor(locals, locales[0]).Some? {
        assert FirstOf(locals, locales[0], BestLocal(locals, locales));
      } else if BestLocal(locals, locales).Some? {
        var first := BestLocal(locals, locales);
        var i :| 0 <= i < |rest| && FirstOf(locals, rest[i], first) && forall k :: 0 <= k < i ==> FirstOf(locals, rest[k], None);
        assert locales[i + 1] == rest[i];
        forall k | 0 <= k < i + 1 ensures FirstOf(locals, locales[k], None) {
          if k > 0 { assert locales[k] == rest[k - 1]; }
        }
      } else {
        forall k | 0 <= k < |locales| ensures FirstOf(locals, locales[k], None) {
          if k > 0 { assert locales[k] == rest[k - 1]; }
        }
      }
    }
  }

  lemma EntryValueAnswers(e: Entry, locales: seq<string>)
    ensures Answers(e, locales, EntryValue(e, locales))
  {
    var wanted := if locales == [] then ["C"] else locales;
    BestLocalIsFirst(e.localSchemas, wanted);
    LocalForIsFirst(e.localSchemas, "C");
    hide FirstAmong, FirstOf, BestLocal, LocalFor;
    if IsSchema(e) {
      assert Localized(EntryValue(e, locales).value.schema, e.value.value.schema,
                       BestLocal(e.localSchemas, wanted), LocalFor(e.localSchemas, "C"));
    }
  }

  // What a change does

  /** The entry apart from its value, its local schemas and the time of the change. */
  predicate OnlyValue(before: Entry, after: Entry, now: int32) {
    after.name == before.name && after.schemaName == before.schemaName && after.modUser == before.modUser
    && after.modTime == now
  }

  /** The local schemas of other locales are the ones that were there before. */
  ghost predicate OthersKept(before: seq<LocalSchema>, after: seq<LocalSchema>, locale: string) {
    forall ls: LocalSchema :: ls.locale != locale ==> (ls in after <==> ls in before)
  }

  /** A value that is not a schema replaces what was there. */
  lemma PlainSet(e: Entry, v: Value, now: int32, locales: seq<string>)
    requires !v.SchemaValue?
    ensures var (after, changed) := Change(e, SetValue(v, now));
      && changed && OnlyValue(e, after, now)
      && after.value == Some(v) && after.localSchemas == []
      && EntryValue(after, locales) == Some(v)
  {
  }

  /** A schema leaves its types and owner in the main schema, and its default and descriptions in the local
      schema of its locale; the other locales keep theirs. */
  lemma SchemaSet(e: Entry, sc: Schema, now: int32)
    requires OnePerLocale(e.localSchemas)
    ensures var (after, changed) := Change(e, SetValue(SchemaValue(sc), now));
      var locale := if sc.locale.Some? then sc.locale.value else "C";
      && changed && OnlyValue(e, after, now)
      && IsSchema(after)
      && (var main := after.value.value.schema;
          && main.vtype == sc.vtype && main.listType == sc.listType
          && main.carType == sc.carType && main.cdrType == sc.cdrType && main.owner == sc.owner
          && main.locale == None && main.shortDesc == None && main.longDesc == None
          && main.default == if IsSchema(e) then e.value.value.schema.default else None)
      && OthersKept(e.localSchemas, after.localSchemas, locale)
      && (forall ls :: ls in after.localSchemas && ls.locale == locale ==>
            ls.default == sc.default && ls.shortDesc == sc.shortDesc && ls.longDesc == sc.longDesc)
      && (exists ls :: ls in after.localSchemas && ls.locale == locale)
  {
    var locale := if sc.locale.Some? then sc.locale.value else "C";
    var ls := LocalSchema(locale, sc.shortDesc, sc.longDesc, sc.default);
    PutMembers(e.localSchemas, ls);
  }

  lemma PutMembers(locals: seq<LocalSchema>, ls: LocalSchema)
    requires OnePerLocale(locals)
    ensures var after := match FindLocal(locals, ls.locale)
        case None => [ls] + locals
        case Some(i) => if i < |locals| then locals[i := ls] else locals;
      && ls in after && OthersKept(locals, after, ls.locale)
      && forall x :: x in after && x.locale == ls.locale ==> x == ls
  {
    FindLocalBound(locals, ls.locale);
    LocalForNone(locals, ls.locale);
    match FindLocal(locals, ls.locale)
    case None =>
    case Some(i) =>
      var after := locals[i := ls];
      assert after[i] == ls;
      forall x: LocalSchema | x.locale != ls.locale ensures x in after <==> x in locals {
        if x in locals { var j :| 0 <= j < |locals| && locals[j] == x; assert after[j] == x; }
      }
  }

  /** Unsetting without a locale, or a value that is not a schema, leaves no value; there is nothing to
      do without one. */
  lemma ValueUnset(e: Entry, locale: Option<string>, now: int32, locales: seq<string>)
    requires locale == None || !IsSchema(e)
    ensures var (after, changed) := Change(e, UnsetValue(locale, now));
      && (changed <==> e.value.Some?)
      && (if changed then OnlyValue(e, after, now) else after == e)
      && EntryValue(after, locales) == None && after.value == None
      && after.localSchemas == if IsSchema(e) then [] else e.localSchemas
  {
  }

  /** Unsetting a schema for one locale drops that local schema and nothing else. */
  lemma LocaleUnset(e: Entry, locale: string, now: int32)
    requires IsSchema(e) && OnePerLocale(e.localSchemas)
    ensures var (after, changed) := Change(e, UnsetValue(Some(locale), now));
      && changed && OnlyValue(e, after, now) && after.value == e.value
      && OthersKept(e.localSchemas, after.localSchemas, locale)
      && forall ls :: ls in after.localSchemas ==> ls.locale != locale
  {
    FindLocalBound(e.localSchemas, locale);
    LocalForNone(e.localSchemas, locale);
    match FindLocal(e.localSchemas, locale)
    case None =>
    case Some(i) =>
      var after := e.localSchemas[..i] + e.localSchemas[i + 1..];
      forall ls: LocalSchema | ls.locale != locale ensures ls in after <==> ls in e.localSchemas {
        if ls in e.localSchemas {
          var j :| 0 <= j < |e.localSchemas| && e.localSchemas[j] == ls;
          assert if j < i then after[j] == ls else after[j - 1] == ls;
        }
      }
  }

  /** Naming a schema changes nothing else. */
  lemma SchemaNamed(e: Entry, name: Option<string>, now: int32)
    ensures var (after, changed) := Change(e, SetSchemaName(name, now));
      && changed && after.schemaName == name && after.modTime == now
      && after.name == e.name && after.value == e.value && after.localSchemas == e.localSchemas && after.modUser == e.modUser
  {
  }

  // Cleaning before a save

  /** clean_old_local_schemas keeps this one. */
  predicate StillApplies(e: Entry, ls: LocalSchema) {
    && (e.value.Some? ==> e.value.value.SchemaValue?)
    && (e.value.Some? && ls.default.Some? ==> e.value.value.schema.vtype == ls.default.value.Type())
  }

  function KeepLocals(e: Entry, locals: seq<LocalSchema>): seq<LocalSchema> {
    if locals == [] then []
    else (if StillApplies(e, locals[0]) then [locals[0]] else []) + KeepLocals(e, locals[1..])
  }

  function Clean(e: Entry): Entry { e.(localSchemas := KeepLocals(e, e.localSchemas)) }

  predicate Useless(e: Entry) { e.value == None && e.localSchemas == [] && e.schemaName == None }

  /** What a clean keeps: every local schema of an entry without a value; none beside a plain value; and
      beside a schema those whose default, if any, is of the type that the schema has. */
  lemma CleanIs(e: Entry, ls: LocalSchema)
    ensures Clean(e).name == e.name && Clean(e).value == e.value && Clean(e).schemaName == e.schemaName
    ensures Clean(e).modUser == e.modUser && Clean(e).modTime == e.modTime
    ensures ls in Clean(e).localSchemas <==>
      ls in e.localSchemas &&
      match e.value
      case None => true
      case Some(v) => v.SchemaValue? && (ls.default.Some? ==> ls.default.value.Type() == v.schema.vtype)
  {
    KeptMembers(e, e.localSchemas, ls);
  }

  lemma {:induction false} KeptMembers(e: Entry, locals: seq<LocalSchema>, ls: LocalSchema)
    ensures ls in KeepLocals(e, locals) <==> ls in locals && StillApplies(e, ls)
  {
    if locals != [] { KeptMembers(e, locals[1..], ls); }
  }

  /** Cleaned entries have nothing left to clean. */
  lemma CleanTwice(e: Entry)
    ensures Clean(Clean(e)) == Clean(e)
  {
    KeepKept(e, Clean(e), e.localSchemas);
  }

  lemma {:induction false} KeepKept(e: Entry, f: Entry, locals: seq<LocalSchema>)
    requires e.value == f.value
    ensures KeepLocals(f, KeepLocals(e, locals)) == KeepLocals(e, locals)
  {
    if locals != [] {
      KeepKept(e, f, locals[1..]);
      var kept := KeepLocals(e, locals[1..]);
      if StillApplies(e, locals[0]) { assert ([locals[0]] + kept)[1..] == kept; }
      else { assert [] + kept == kept; }
    }
  }

  // What can be written and read back

  /** What a caller may set and expect back from disk. */
  predicate EditReadable(edit: Edit) {
    edit.SetValue? ==>
      if edit.v.SchemaValue? then
        && SchemaReadable(edit.v.schema.(locale := None, shortDesc := None, longDesc := None, default := None))
        && (edit.v.schema.longDesc.Some? ==> !Blank(edit.v.schema.longDesc.value))
        && (edit.v.schema.default.Some? ==> ValueReadable(edit.v.schema.default.value))
      else ValueReadable(edit.v)
  }

  lemma FindLocalBound(locals: seq<LocalSchema>, locale: string)
    ensures FindLocal(locals, locale).Some? ==>
      FindLocal(locals, locale).value < |locals| && locals[FindLocal(locals, locale).value].locale == locale
  {
  }

  /** A change keeps an entry re-readable. */
  lemma ChangeReadable(e: Entry, edit: Edit)
    requires EntryReadable(e, false) && EditReadable(edit)
    ensures EntryReadable(Change(e, edit).0, false)
  {
    match edit
    case SetValue(v, _) =>
      if v.SchemaValue? { FindLocalBound(e.localSchemas, if v.schema.locale.Some? then v.schema.locale.value else "C"); }
    case UnsetValue(locale, _) =>
      if locale.Some? { FindLocalBound(e.localSchemas, locale.value); }
    case _ =>
  }

  lemma {:induction false} KeptReadable(e: Entry, locals: seq<LocalSchema>)
    requires forall i :: 0 <= i < |locals| ==> LocalReadable(locals[i], false)
    ensures forall i :: 0 <= i < |KeepLocals(e, locals)| ==> LocalReadable(KeepLocals(e, locals)[i], false)
  {
    if locals != [] { KeptReadable(e, locals[1..]); }
  }

  lemma CleanReadable(e: Entry)
    requires EntryReadable(e, false)
    ensures EntryReadable(Clean(e), false)
  {
    KeptReadable(e, e.localSchemas);
  }

  // Which local schemas a clean keeps

  lemma {:induction false} LocalForRest(locals: seq<LocalSchema>, locale: string)
    requires locals != []
    ensures LocalFor(locals, locale) ==
      if locals[0].locale == locale then Some(locals[0]) else LocalFor(locals[1..], locale)
  {
    FindLocalBound(locals, locale);
    FindLocalBound(locals[1..], locale);
  }

  lemma {:induction false} LocalForNone(locals: seq<LocalSchema>, locale: string)
    ensures LocalFor(locals, locale) == None <==> forall i :: 0 <= i < |locals| ==> locals[i].locale != locale
    ensures LocalFor(locals, locale).Some? ==>
      LocalFor(locals, locale).value in locals && LocalFor(locals, locale).value.locale == locale
  {
    if locals != [] {
      LocalForRest(locals, locale);
      LocalForNone(locals[1..], locale);
    }
  }

  /** At most one local schema for each locale. */
  predicate OnePerLocale(locals: seq<LocalSchema>) {
    forall i, j :: 0 <= i < j < |locals| ==> locals[i].locale != locals[j].locale
  }

  /** Every change keeps it so. */
  lemma ChangeKeepsOnePerLocale(e: Entry, edit: Edit)
    requires OnePerLocale(e.localSchemas)
    ensures OnePerLocale(Change(e, edit).0.localSchemas)
  {
    if edit.SetValue? && edit.v.SchemaValue? {
      var locale := if edit.v.schema.locale.Some? then edit.v.schema.locale.value else "C";
      LocalForNone(e.localSchemas, locale);
      FindLocalBound(e.localSchemas, locale);
    }
  }

  /** A clean keeps the local schema of a locale exactly if it still applies. */
  lemma {:induction false} KeptFor(e: Entry, locals: seq<LocalSchema>, locale: string)
    requires OnePerLocale(locals)
    ensures LocalFor(KeepLocals(e, locals), locale) ==
      if LocalFor(locals, locale).Some? && StillApplies(e, LocalFor(locals, locale).value)
      then LocalFor(locals, locale) else None
  {
    if locals != [] {
      LocalForRest(locals, locale);
      LocalForNone(locals[1..], locale);
      KeptFor(e, locals[1..], locale);
      var kept, rest := KeepLocals(e, locals), KeepLocals(e, locals[1..]);
      if StillApplies(e, locals[0]) {
        LocalForRest(kept, locale);
        assert kept[1..] == rest;
      } else {
        assert kept == rest;
      }
    }
  }

  /** The best local schema after a clean: the same if it still applies, or else of another locale. */
  lemma {:induction false} BestKept(e: Entry, locals: seq<LocalSchema>, locales: seq<string>)
    requires OnePerLocale(locals)
    ensures var best, now := BestLocal(locals, locales), BestLocal(KeepLocals(e, locals), locales);
      && (best == None ==> now == None)
      && (best.Some? && StillApplies(e, best.value) ==> now == best)
      && (best.Some? && !StillApplies(e, best.value) && now.Some? ==> now.value.locale != best.value.locale)
  {
    if locales != [] {
      KeptFor(e, locals, locales[0]);
      LocalForNone(locals, locales[0]);
      BestKept(e, locals, locales[1..]);
      NotDropped(e, locals, locales);
    }
  }

  lemma {:induction false} NotDropped(e: Entry, locals: seq<LocalSchema>, locales: seq<string>)
    requires OnePerLocale(locals)
    ensures var now := BestLocal(KeepLocals(e, locals), locales);
      now.Some? ==> StillApplies(e, now.value) && LocalFor(locals, now.value.locale) == now
  {
    if locales != [] {
      KeptFor(e, locals, locales[0]);
      LocalForNone(locals, locales[0]);
      NotDropped(e, locals, locales[1..]);
    }
  }

  /** The main schema holds no localized part: so it is in every entry that was set or read. */
  predicate MainPlain(e: Entry) {
    IsSchema(e) ==>
      var sc := e.value.value.schema;
      sc.default == None && sc.shortDesc == None && sc.longDesc == None
  }

  /** Each part that the "C" local schema has, the best one has too. */
  predicate HasAllOf(best: LocalSchema, c: LocalSchema) {
    && (c.default.Some? ==> best.default.Some?)
    && (c.shortDesc.Some? ==> best.shortDesc.Some?)
    && (c.longDesc.Some? ==> best.longDesc.Some?)
  }

  /** A clean leaves the answer for these locales alone: the best local schema still applies, and the "C"
      one does too unless nothing is taken from it. */
  predicate CleanHarmless(e: Entry, locales: seq<string>) {
    IsSchema(e) ==>
      var best := BestLocal(e.localSchemas, if locales == [] then ["C"] else locales);
      var c := LocalFor(e.localSchemas, "C");
      && (best.Some? ==> StillApplies(e, best.value))
      && (c.Some? && !StillApplies(e, c.value) ==> best.Some? && HasAllOf(best.value, c.value))
  }

  /** Exactly when clean_old_local_schemas changes an answer: it drops a local schema whose default is of
      another type than the schema has now, with its descriptions. */
  lemma CleanKeepsAnswer(e: Entry, locales: seq<string>)
    requires OnePerLocale(e.localSchemas) && MainPlain(e)
    ensures EntryValue(Clean(e), locales) == EntryValue(e, locales) <==> CleanHarmless(e, locales)
  {
    if IsSchema(e) {
      var wanted := if locales == [] then ["C"] else locales;
      BestKept(e, e.localSchemas, wanted);
      KeptFor(e, e.localSchemas, "C");
      LocalForNone(e.localSchemas, "C");
      NotDropped(e, e.localSchemas, wanted);
    }
  }
}
