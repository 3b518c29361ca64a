/** Directories, entries and the element events of the files that hold them. */
module MarkupTypes {
  import opened Basics
  import opened Values

  /** The description of a schema in one locale (LocalSchemaInfo). */
  datatype LocalSchema = LocalSchema(
    locale: string,
    shortDesc: Option<string>,
    longDesc: Option<string>,
    default: Option<Value>)

  datatype Entry = Entry(
    name: string,
    value: Option<Value>,
    localSchemas: seq<LocalSchema>,
    schemaName: Option<string>,
    modUser: Option<string>,
    modTime: int32)

  datatype Dir = Dir(name: string, entries: seq<Entry>, subdirs: seq<Dir>)

  /** Element names: those of the format, and any other. */
  datatype Tag =
    | TagGconf | TagDir | TagEntry | TagStringValue | TagLongDesc | TagLocalSchema
    | TagDefault | TagCar | TagCdr | TagLi
    | TagOther(name: string)

  /** Attribute names: those of the format, and any other. */
  datatype AttrName =
    | AtName | AtMtime | AtMuser | AtSchema | AtType | AtValue | AtStype | AtLtype
    | AtListType | AtCarType | AtCdrType | AtOwner | AtLocale | AtShortDesc
    | AtOther(name: string)

  type Attr = (AttrName, string)

  /** What the markup tokenizer reports: tags with unescaped attributes, and runs of text. */
  datatype Event =
    | Start(tag: Tag, attrs: seq<Attr>)
    | End(tag: Tag)
    | Text(text: string)

  /** gconf_double_to_string and gconf_string_to_double. */
  datatype FloatText = FloatText(show: Double -> string, read: string -> Option<Double>)
  {
    /** Reading a printed double gives it back. */
    ghost predicate Faithful() {
      forall x: Double :: read(show(x)) == Some(x)
    }
  }

  /** An integer as a natural number. */
  function Fold(i: int): nat { if i >= 0 then 2 * i else -2 * i - 1 }

  function Unfold(n: nat): int { if n % 2 == 0 then n / 2 else -(n / 2) - 1 }

  function Repeat(n: nat, c: char): string { if n == 0 then "" else [c] + Repeat(n - 1, c) }

  lemma {:induction false} RepeatCounts(n: nat, c: char, tail: string, d: char)
    ensures multiset(Repeat(n, c) + tail)[d] == multiset(tail)[d] + if c == d then n else 0
  {
    if n == 0 {
      assert "" + tail == tail;
    } else {
      RepeatCounts(n - 1, c, tail, d);
      assert Repeat(n, c) + tail == [c] + (Repeat(n - 1, c) + tail);
    }
  }

  function Unary(x: Double): string { Repeat(Fold(x.mantissa), 'm') + Repeat(Fold(x.exponent), 'e') }

  function ReadUnary(s: string): Option<Double> {
    Some(Double(Unfold(multiset(s)['m']), Unfold(multiset(s)['e'])))
  }

  lemma FoldUndone(i: int)
    ensures Unfold(Fold(i)) == i
  {
  }

  lemma ReadUnaryUndoes(x: Double)
    ensures ReadUnary(Unary(x)) == Some(x)
  {
    var e := Repeat(Fold(x.exponent), 'e');
    hide Repeat;
    RepeatCounts(Fold(x.mantissa), 'm', e, 'm');
    RepeatCounts(Fold(x.mantissa), 'm', e, 'e');
    RepeatCounts(Fold(x.exponent), 'e', "", 'm');
    RepeatCounts(Fold(x.exponent), 'e', "", 'e');
    assert e + "" == e;
    hide Fold, Unfold;
    FoldUndone(x.mantissa);
    FoldUndone(x.exponent);
  }

  /** There is a faithful text form of doubles. */
  lemma SomeFaithful() returns (ft: FloatText)
    ensures ft.Faithful()
  {
    ft := FloatText(Unary, ReadUnary);
    forall x: Double ensures ft.read(ft.show(x)) == Some(x) { ReadUnaryUndoes(x); }
  }

  /** all_whitespace */
  predicate Blank(s: string) { forall i :: 0 <= i < |s| ==> IsSpace(s[i]) }
}
