/** GConfValue and GConfSchema. */
module Values {
  import opened Basics

  datatype VType = TInvalid | TString | TInt | TFloat | TBool | TSchema | TList | TPair

  /** A finite double: the mantissa times a power of two. */
  datatype Double = Double(mantissa: int, exponent: int)

  const ZERO := Double(0, 0)

  datatype Value =
    | IntValue(i: int32)
    | BoolValue(b: bool)
    | FloatValue(x: Double)
      // a fresh string value has no text until one is set
    | StringValue(text: Option<string>)
    | SchemaValue(schema: Schema)
    | ListValue(elemType: VType, elems: seq<Value>)
    | PairValue(car: Option<Value>, cdr: Option<Value>)
  {
    function Type(): VType {
      match this
      case IntValue(_) => TInt
      case BoolValue(_) => TBool
      case FloatValue(_) => TFloat
      case StringValue(_) => TString
      case SchemaValue(_) => TSchema
      case ListValue(_, _) => TList
      case PairValue(_, _) => TPair
    }
  }

  datatype Schema = Schema(
    vtype: VType,
    listType: VType,
    carType: VType,
    cdrType: VType,
    locale: Option<string>,
    shortDesc: Option<string>,
    longDesc: Option<string>,
    owner: Option<string>,
    default: Option<Value>)

  function TypeName(t: VType): string {
    match t
    case TInt => "int"
    case TString => "string"
    case TFloat => "float"
    case TBool => "bool"
    case TSchema => "schema"
    case TList => "list"
    case TPair => "pair"
    case TInvalid => "*invalid*"
  }

  function TypeFromName(s: string): VType {
    if s == "int" then TInt
    else if s == "float" then TFloat
    else if s == "string" then TString
    else if s == "bool" then TBool
    else if s == "schema" then TSchema
    else if s == "list" then TList
    else if s == "pair" then TPair
    else TInvalid
  }

  lemma TypeNameRoundTrip(t: VType)
    ensures TypeFromName(TypeName(t)) == t
  {
    // the names differ in length or in one of their first two characters
    assert |"int"| == 3 && |"bool"| == 4 && |"list"| == 4 && |"pair"| == 4;
    assert "bool"[0] != "list"[0] && "bool"[0] != "pair"[0] && "list"[0] != "pair"[0];
    assert |"float"| == 5 && |"string"| == 6 && |"schema"| == 6;
    assert "string"[1] != "schema"[1];
  }

  /** int, bool, float and string: the only types a list may hold. */
  predicate IsPrimitive(t: VType) { t == TInt || t == TBool || t == TFloat || t == TString }
}
