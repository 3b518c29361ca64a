/** Which answers about a schema come back from the main file and the files of other locales, when `all' are
    the locales whose files are there. */
module MarkupLocaleAnswers {
  import opened Basics
  import opened Values
  import opened MarkupTypes
  import opened MarkupEntries
  import opened MarkupLocaleFiles
  import opened MarkupLocales
  import R = MarkupRoundTrip

  /** Something is left of this local schema. */
  predicate Remains(all: seq<string>, ls: LocalSchema) { ls.locale == "C" || ls.default.Some? || ls.locale in all }

  /** Its short description is written where it is read. */
  predicate KeepsShort(all: seq<string>, ls: LocalSchema) { ls.locale == "C" || ls.locale in all }

  /** Its long description is written, and read into nothing that is there already. */
  predicate KeepsLong(all: seq<string>, ls: LocalSchema) {
    && (ls.longDesc.Some? ==> !Blank(ls.longDesc.value))
    && (ls.locale == "C" || (ls.locale in all && ls.default == None))
  }

  /** One local schema as the files give it back. */
  function Stored(all: seq<string>, ls: LocalSchema): Option<LocalSchema>
    requires R.RereadOptValue(ls.default).Some?
  {
    if !Remains(all, ls) then None
    else Some(LocalSchema(
      ls.locale,
      if KeepsShort(all, ls) then ls.shortDesc else None,
      if KeepsLong(all, ls) then ls.longDesc else None,
      R.RereadOptValue(ls.default).value))
  }

  lemma StoredIs(e: Entry, all: seq<string>, locale: string)
    requires IsSchema(e) && R.RereadEntry(e, true).Some? && NoDup(all) && "C" !in all && OnePerLocale(e.localSchemas)
    ensures var was := LocalFor(e.localSchemas, locale);
      && (was.Some? ==> was.value.locale == locale && R.RereadOptValue(was.value.default).Some?)
      && LocalFor(LoadedEntry(e, all).localSchemas, locale) == if was == None then None else Stored(all, was.value)
  {
    LocalForNone(e.localSchemas, locale);
    LoadedFor(e, all, locale);
    MainFor(e.localSchemas, locale);
  }

  /** The best local schema from the files: what is left of the best one, or else one of another locale. */
  lemma {:induction false} BestStored(e: Entry, all: seq<string>, locales: seq<string>)
    requires IsSchema(e) && R.RereadEntry(e, true).Some? && NoDup(all) && "C" !in all && OnePerLocale(e.localSchemas)
    ensures var best, now := BestLocal(e.localSchemas, locales), BestLocal(LoadedEntry(e, all).localSchemas, locales);
      && (best.Some? ==> R.RereadOptValue(best.value.default).Some? && LocalFor(e.localSchemas, best.value.locale) == best)
      && (best == None ==> now == None)
      && (best.Some? && Remains(all, best.value) ==> now == Stored(all, best.value))
      && (now.Some? ==> LocalFor(e.localSchemas, now.value.locale).Some?
                        && Remains(all, LocalFor(e.localSchemas, now.value.locale).value))
  {
    if locales != [] {
      StoredIs(e, all, locales[0]);
      BestStored(e, all, locales[1..]);
      hide LoadedEntry, LocalFor, R.RereadEntry, OnePerLocale, KeepsLong, KeepsShort;
    }
  }

  // The parts of the answer

  /** The default that is used can be read back. */
  predicate DefaultKept(best: Option<LocalSchema>, c: Option<LocalSchema>) {
    var used := Fallback(if best.Some? then best.value.default else None, if c.Some? then c.value.default else None, None);
    used.Some? ==> R.ValueReadable(used.value)
  }

  /** The short description of the best locale is kept, or that of "C" is the same. */
  predicate ShortKept(all: seq<string>, best: Option<LocalSchema>, c: Option<LocalSchema>) {
    best.Some? && best.value.shortDesc.Some? && !KeepsShort(all, best.value) ==>
      c.Some? && c.value.shortDesc == best.value.shortDesc
  }

  predicate LongKept(all: seq<string>, best: Option<LocalSchema>, c: Option<LocalSchema>) {
    if best.Some? && best.value.longDesc.Some? then
      KeepsLong(all, best.value) || (c.Some? && c.value.longDesc == best.value.longDesc && KeepsLong(all, c.value))
    else c.Some? && c.value.longDesc.Some? ==> KeepsLong(all, c.value)
  }

  /** What an entry must be like for its answer to come back. */
  predicate AnswerKept(all: seq<string>, e: Entry, locales: seq<string>) {
    match e.value
    case None => true
    case Some(v) =>
      if !v.SchemaValue? then R.ValueReadable(v)
      else
        var best := BestLocal(e.localSchemas, if locales == [] then ["C"] else locales);
        var c := LocalFor(e.localSchemas, "C");
        && R.SchemaReadable(v.schema.(locale := None))
        && (best.Some? ==> Remains(all, best.value))
        && DefaultKept(best, c) && ShortKept(all, best, c) && LongKept(all, best, c)
  }

  /** The answer after everything was written and loaded again is the one before exactly then. */
  lemma AnswerComesBack(e: Entry, all: seq<string>, locales: seq<string>)
    requires R.RereadEntry(e, true).Some? && NoDup(all) && "C" !in all && OnePerLocale(e.localSchemas) && MainPlain(e)
    ensures EntryValue(LoadedEntry(e, all), locales) == EntryValue(e, locales) <==> AnswerKept(all, e, locales)
  {
    LoadedValue(e, all);
    if e.value.Some? {
      if IsSchema(e) {
        SchemaComesBack(e, all, if locales == [] then ["C"] else locales);
      } else {
        R.ValueFixed(e.value.value);
      }
    }
  }

  lemma SchemaComesBack(e: Entry, all: seq<string>, wanted: seq<string>)
    requires R.RereadEntry(e, true).Some? && NoDup(all) && "C" !in all && OnePerLocale(e.localSchemas) && MainPlain(e)
    requires IsSchema(e) && IsSchema(LoadedEntry(e, all))
    requires LoadedEntry(e, all).value == R.RereadEntry(e, true).value.value
    ensures var before, now := e.localSchemas, LoadedEntry(e, all).localSchemas;
      var best, c := BestLocal(before, wanted), LocalFor(before, "C");
      Localize(LoadedEntry(e, all).value.value.schema, BestLocal(now, wanted), LocalFor(now, "C"))
        == Localize(e.value.value.schema, best, c)
      <==>
        && R.SchemaReadable(e.value.value.schema.(locale := None))
        && (best.Some? ==> Remains(all, best.value))
        && DefaultKept(best, c) && ShortKept(all, best, c) && LongKept(all, best, c)
  {
    var before, now := e.localSchemas, LoadedEntry(e, all).localSchemas;
    var best, c := BestLocal(before, wanted), LocalFor(before, "C");
    BestStored(e, all, wanted);
    StoredIs(e, all, "C");
    SchemaPart(e);
    var sc, sc1 := e.value.value.schema, LoadedEntry(e, all).value.value.schema;
    hide LoadedEntry, LocalFor, BestLocal, R.RereadEntry, OnePerLocale, R.SchemaReadable;
    if best.Some? && !Remains(all, best.value) {
    } else {
      PartsKept(all, best, c);
    }
  }

  /** The part of a schema that is not localized. */
  predicate SameTypes(a: Schema, b: Schema) {
    a.vtype == b.vtype && a.listType == b.listType && a.carType == b.carType && a.cdrType == b.cdrType && a.owner == b.owner
  }

  predicate Plain(sc: Schema) { sc.default == None && sc.shortDesc == None && sc.longDesc == None }

  lemma SchemaPart(e: Entry)
    requires R.RereadEntry(e, true).Some? && IsSchema(e) && MainPlain(e)
    ensures var sc := e.value.value.schema;
      var now := R.RereadEntry(e, true).value;
      && IsSchema(now) && Plain(now.value.value.schema) && Plain(sc)
      && (SameTypes(now.value.value.schema, sc) <==> R.SchemaReadable(sc.(locale := None)))
  {
    var sc := e.value.value.schema;
    R.ValueFixed(SchemaValue(sc.(locale := None)));
  }

  lemma DefaultFixed(v: Option<Value>)
    requires R.RereadOptValue(v).Some?
    ensures R.RereadOptValue(v).value == v <==> (v.Some? ==> R.ValueReadable(v.value))
    ensures R.RereadOptValue(v).value.Some? <==> v.Some?
  {
    if v.Some? { R.ValueFixed(v.value); }
  }

  /** What is taken from the best and the "C" local schema, item by item. */
  lemma PartsKept(all: seq<string>, best: Option<LocalSchema>, c: Option<LocalSchema>)
    requires best.Some? ==> R.RereadOptValue(best.value.default).Some? && Remains(all, best.value)
    requires c.Some? ==> R.RereadOptValue(c.value.default).Some? && c.value.locale == "C"
    requires best.Some? && best.value.locale == "C" ==> best == c
    ensures var best1 := if best == None then None else Stored(all, best.value);
      var c1 := if c == None then None else Stored(all, c.value);
      && (DefaultOf(best1, c1) == DefaultOf(best, c) <==> DefaultKept(best, c))
      && (ShortOf(best1, c1) == ShortOf(best, c) <==> ShortKept(all, best, c))
      && (LongOf(best1, c1) == LongOf(best, c) <==> LongKept(all, best, c))
  {
    if best.Some? { DefaultFixed(best.value.default); }
    if c.Some? { DefaultFixed(c.value.default); }
  }

  function DefaultOf(best: Option<LocalSchema>, c: Option<LocalSchema>): Option<Value> {
    Fallback(if best.Some? then best.value.default else None, if c.Some? then c.value.default else None, None)
  }

  function ShortOf(best: Option<LocalSchema>, c: Option<LocalSchema>): Option<string> {
    Fallback(if best.Some? then best.value.shortDesc else None, if c.Some? then c.value.shortDesc else None, None)
  }

  function LongOf(best: Option<LocalSchema>, c: Option<LocalSchema>): Option<string> {
    Fallback(if best.Some? then best.value.longDesc else None, if c.Some? then c.value.longDesc else None, None)
  }
}
