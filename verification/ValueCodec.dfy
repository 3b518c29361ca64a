/** gconf_value_encode and gconf_value_decode: what decoding gives back of every value. */
module ValueCodec {
  import opened Basics
  import opened Decimal
  import opened Values
  import M = MarkupTypes
  import opened Codec

  function TypeByte(t: VType): char {
    match t
    case TInt => 'i'
    case TBool => 'b'
    case TFloat => 'f'
    case TString => 's'
    case TSchema => 'c'
    case TList => 'l'
    case TPair => 'p'
    case TInvalid => 'v'
  }

  function ByteType(c: char): VType {
    if c == 'i' then TInt
    else if c == 'b' then TBool
    else if c == 's' then TString
    else if c == 'c' then TSchema
    else if c == 'f' then TFloat
    else if c == 'l' then TList
    else if c == 'p' then TPair
    else TInvalid
  }

  /** The character at the front of a C string. */
  function First(s: string): char { if s == "" then '\0' else s[0] }

  // Encoding

  function OrEmpty(s: Option<string>): string { if s.Some? then s.value else "" }

  function SchemaTypes(sc: Schema): string {
    [TypeByte(sc.vtype), TypeByte(sc.listType), TypeByte(sc.carType), TypeByte(sc.cdrType)]
  }

  /** A quoted string, a comma, and what follows. */
  function Field(s: string, rest: string): string { Quote(s) + ("," + rest) }

  /** `floats' is %g and g_strtod. */
  function Encode(floats: M.FloatText, v: Value): string {
    match v
    case IntValue(i) => "i" + ShowInt(i)
    case BoolValue(b) => if b then "bt" else "bf"
    case FloatValue(x) => "f" + floats.show(x)
    case StringValue(text) => "s" + if text.Some? then text.value else "(null)"
    case SchemaValue(sc) =>
      "c" + (SchemaTypes(sc) + ("," +
        Field(OrEmpty(sc.locale), Field(OrEmpty(sc.shortDesc), Field(OrEmpty(sc.longDesc),
          Quote(if sc.default.Some? then Encode(floats, sc.default.value) else ""))))))
    case ListValue(t, elems) => "l" + [TypeByte(t)] + EncodeElems(floats, elems)
    case PairValue(car, cdr) =>
      // concatenation ends at the first absent string
      if car.None? then "p"
      else if cdr.None? then "p" + Quote(Encode(floats, car.value)) + ","
      else "p" + Quote(Encode(floats, car.value)) + "," + Quote(Encode(floats, cdr.value))
  }

  function EncodeElems(floats: M.FloatText, elems: seq<Value>): string {
    if elems == [] then "" else "," + (Quote(Encode(floats, elems[0])) + EncodeElems(floats, elems[1..]))
  }

  /** The letter of each type. */
  lemma TypeLetters(t: VType)
    ensures [TypeByte(t)] ==
      match t
      case TInt => "i" case TBool => "b" case TFloat => "f" case TString => "s"
      case TSchema => "c" case TList => "l" case TPair => "p" case TInvalid => "v"
  {
  }

  lemma {:induction false} ElemsAppend(floats: M.FloatText, elems: seq<Value>, v: Value)
    ensures EncodeElems(floats, elems + [v]) == EncodeElems(floats, elems) + ("," + Quote(Encode(floats, v)))
  {
    if elems == [] {
      assert (elems + [v])[1..] == [];
    } else {
      assert (elems + [v])[1..] == elems[1..] + [v];
      ElemsAppend(floats, elems[1..], v);
    }
  }

  /** The text of a value that holds no others. */
  lemma PlainForms(floats: M.FloatText, i: int32, b: bool, x: Double, text: string)
    ensures |Encode(floats, IntValue(i))| > 1 && Encode(floats, IntValue(i))[0] == 'i'
    ensures var s := Encode(floats, IntValue(i))[1..];
      var digits := if i < 0 then s[1..] else s;
      && (i < 0 <==> s[0] == '-')
      && digits != "" && (forall k :: 0 <= k < |digits| ==> IsDigit(digits[k]))
      && NatOf(digits) == (if i < 0 then -(i as int) else i as int)
      && (digits[0] == '0' ==> digits == "0")
    ensures Encode(floats, BoolValue(true)) == "bt" && Encode(floats, BoolValue(false)) == "bf"
    ensures Encode(floats, FloatValue(x)) == "f" + floats.show(x)
    ensures Encode(floats, StringValue(Some(text))) == "s" + text
  {
    DecimalForm(i as int);
    assert Encode(floats, IntValue(i))[1..] == ShowInt(i as int);
  }

  /** The text of a list grows by a comma and the quoted text of each element. */
  lemma ListForm(floats: M.FloatText, t: VType, elems: seq<Value>, v: Value)
    ensures Encode(floats, ListValue(t, [])) == "l" + [TypeByte(t)]
    ensures Encode(floats, ListValue(t, elems + [v])) ==
      Encode(floats, ListValue(t, elems)) + ("," + Quote(Encode(floats, v)))
  {
    assert EncodeElems(floats, []) == "";
    ElemsAppend(floats, elems, v);
    Regroup("l" + [TypeByte(t)], EncodeElems(floats, elems), "," + Quote(Encode(floats, v)));
  }

  lemma Regroup(a: string, b: string, c: string)
    ensures a + (b + c) == (a + b) + c
  {
  }

  /** A pair quotes its parts, as far as they are there. */
  lemma PairForm(floats: M.FloatText, v: Value, w: Value)
    ensures Encode(floats, PairValue(None, Some(w))) == "p" && Encode(floats, PairValue(None, None)) == "p"
    ensures Encode(floats, PairValue(Some(v), None)) == "p" + CommaJoin([Some(Encode(floats, v))]) + ","
    ensures Encode(floats, PairValue(Some(v), Some(w))) == "p" + CommaJoin([Some(Encode(floats, v)), Some(Encode(floats, w))])
  {
    JoinTwo(Some(Encode(floats, v)), Some(Encode(floats, w)));
    InOrder("p", Quote(Encode(floats, v)), Quote(Encode(floats, w)));
  }

  lemma InOrder(p: string, a: string, b: string)
    ensures p + a + "," + b == p + Listed(a, b)
  {
  }

  function Listed(a: string, rest: string): string { a + ("," + rest) }

  /** Quoted texts with commas between them; an absent one is empty. */
  function CommaJoin(texts: seq<Option<string>>): string {
    if texts == [] then ""
    else if |texts| == 1 then Quote(OrEmpty(texts[0]))
    else Listed(Quote(OrEmpty(texts[0])), CommaJoin(texts[1..]))
  }

  lemma JoinTwo(a: Option<string>, b: Option<string>)
    ensures CommaJoin([b]) == Quote(OrEmpty(b))
    ensures CommaJoin([a, b]) == Listed(Quote(OrEmpty(a)), CommaJoin([b]))
  {
    assert [a, b][1..] == [b];
  }

  lemma JoinFour(a: Option<string>, b: Option<string>, c: Option<string>, d: Option<string>)
    ensures CommaJoin([a, b, c, d]) == Field(OrEmpty(a), Field(OrEmpty(b), Field(OrEmpty(c), Quote(OrEmpty(d)))))
  {
    JoinTwo(c, d);
    assert [a, b, c, d][1..] == [b, c, d] && [b, c, d][1..] == [c, d];
    assert CommaJoin([b, c, d]) == Listed(Quote(OrEmpty(b)), CommaJoin([c, d]));
  }

  /** A schema gives its four types, then its texts and its default, quoted. */
  lemma SchemaForm(floats: M.FloatText, sc: Schema)
    ensures var text := Encode(floats, SchemaValue(sc));
      && |text| >= 6 && text[0] == 'c' && text[5] == ','
      && text[1] == TypeByte(sc.vtype) && text[2] == TypeByte(sc.listType)
      && text[3] == TypeByte(sc.carType) && text[4] == TypeByte(sc.cdrType)
      && text[6..] == CommaJoin([sc.locale, sc.shortDesc, sc.longDesc,
                                 if sc.default.Some? then Some(Encode(floats, sc.default.value)) else None])
  {
    var default := if sc.default.Some? then Some(Encode(floats, sc.default.value)) else None;
    JoinFour(sc.locale, sc.shortDesc, sc.longDesc, default);
    SchemaPrefix(SchemaTypes(sc), CommaJoin([sc.locale, sc.shortDesc, sc.longDesc, default]));
  }

  lemma SchemaPrefix(types: string, rest: string)
    requires |types| == 4
    ensures var text := "c" + (types + ("," + rest));
      |text| >= 6 && text[0] == 'c' && text[1..5] == types && text[5] == ',' && text[6..] == rest
  {
  }

  // Decoding

  /** Nothing is a NULL result; Overrun is a read past the end of the text. */
  datatype Decoded = Decoded(value: Value) | Nothing | Overrun
  {
    function ToOption(): Option<Value> {
      match this
      case Decoded(v) => Some(v)
      case _ => None
    }
  }

  /** atoi: strtol, which saturates at 64 bits, then the conversion to int */
  function Atoi(s: string): int32 {
    match ScanInt(s)
    case None => 0
    case Some(i) =>
      Wrap32(if i < -0x8000_0000_0000_0000 then -0x8000_0000_0000_0000
             else if i > 0x7FFF_FFFF_FFFF_FFFF then 0x7FFF_FFFF_FFFF_FFFF else i)
  }

  function Decode(floats: M.FloatText, e: string): Decoded
    decreases |e|, 0
  {
    if e == "" then Nothing
    else
      var s := e[1..];
      match ByteType(e[0])
      case TInvalid => Nothing
      case TInt => Decoded(IntValue(Atoi(s)))
      case TBool => Decoded(BoolValue(First(s) == 't'))
      case TFloat => Decoded(FloatValue(if floats.read(s).Some? then floats.read(s).value else ZERO))
      case TString => Decoded(StringValue(Some(s)))
      case TSchema => DecodeSchema(floats, s)
      case TList =>
        if s == "" then Overrun
        else
          var elems := DecodeElems(floats, s[1..]);
          if elems.None? then Overrun else Decoded(MakeList(ByteType(s[0]), elems.value))
      case TPair =>
        var u := Unquote(s);
        var car := Decode(floats, u.text);
        var u2 := Unquote(AfterComma(u.tail));
        var cdr := Decode(floats, u2.text);
        if car.Overrun? || cdr.Overrun? then Overrun else Decoded(PairValue(car.ToOption(), cdr.ToOption()))
  }

  function AfterComma(s: string): (r: string)
    ensures |r| <= |s|
  {
    if First(s) == ',' then s[1..] else s
  }

  /** gconf_value_set_list_type refuses lists and pairs, and set_list an invalid type. */
  function MakeList(t: VType, elems: seq<Value>): Value {
    if t == TInvalid || t == TList || t == TPair then ListValue(TInvalid, []) else ListValue(t, elems)
  }

  function DecodeElems(floats: M.FloatText, s: string): Option<seq<Value>>
    decreases |s|, 1
  {
    if s == "" then Some([])
    else
      var u := Unquote(s);
      var elem := Decode(floats, u.text);
      var rest := if First(u.tail) == ',' then DecodeElems(floats, u.tail[1..]) else Some([]);
      if elem.Overrun? || rest.None? then None
      else Some((if elem.Decoded? then [elem.value] else []) + rest.value)
  }

  function DecodeSchema(floats: M.FloatText, s: string): Decoded
    decreases |s|, 1
  {
    if |s| < 5 then Overrun
    else
      var u1 := Unquote(s[5..]);
      if u1.tail == "" then Overrun
      else
        var u2 := Unquote(u1.tail[1..]);
        if u2.tail == "" then Overrun
        else
          var u3 := Unquote(u2.tail[1..]);
          if u3.tail == "" then Overrun
          else
            var default := Decode(floats, Unquote(u3.tail[1..]).text);
            if default.Overrun? then Overrun
            else
              Decoded(SchemaValue(Schema(ByteType(s[0]), ByteType(s[1]), ByteType(s[2]), ByteType(s[3]),
                                         Some(u1.text), Some(u2.text), Some(u3.text), None, default.ToOption())))
  }

  // What comes back

  /** A value the library's own constructors can make. */
  predicate Constructible(v: Value) {
    match v
    case StringValue(text) => text.Some?
    case SchemaValue(sc) => sc.default.Some? ==> Constructible(sc.default.value)
    case ListValue(t, elems) =>
      && t != TList && t != TPair && (t == TInvalid ==> elems == [])
      && forall i :: 0 <= i < |elems| ==> Constructible(elems[i])
    case PairValue(car, cdr) =>
      (car.Some? ==> Constructible(car.value)) && (cdr.Some? ==> Constructible(cdr.value))
    case _ => true
  }

  /** A value with its owner dropped, absent schema strings made empty, floats as their text is read,
      and a pair without a first part made empty. */
  function Normal(floats: M.FloatText, v: Value): Value {
    match v
    case FloatValue(x) =>
      FloatValue(if floats.read(floats.show(x)).Some? then floats.read(floats.show(x)).value else ZERO)
    case SchemaValue(sc) =>
      SchemaValue(sc.(locale := Some(OrEmpty(sc.locale)), shortDesc := Some(OrEmpty(sc.shortDesc)),
                      longDesc := Some(OrEmpty(sc.longDesc)), owner := None,
                      default := if sc.default.Some? then Some(Normal(floats, sc.default.value)) else None))
    case ListValue(t, elems) => ListValue(t, NormalElems(floats, elems))
    case PairValue(car, cdr) =>
      if car.None? then PairValue(None, None)
      else PairValue(Some(Normal(floats, car.value)), if cdr.Some? then Some(Normal(floats, cdr.value)) else None)
    case _ => v
  }

  function NormalElems(floats: M.FloatText, elems: seq<Value>): seq<Value> {
    if elems == [] then [] else [Normal(floats, elems[0])] + NormalElems(floats, elems[1..])
  }

  lemma ByteOfType(t: VType)
    ensures ByteType(TypeByte(t)) == t
  {
  }

  lemma WrapSmall(i: int32)
    ensures Wrap32(i) == i
  {
    if i < 0 { assert (i as int) % 0x1_0000_0000 == i + 0x1_0000_0000; }
  }

  lemma AtoiShow(i: int32)
    ensures Atoi(ShowInt(i)) == i
  {
    ScanShowInt(i);
    WrapSmall(i);
  }

  lemma Drop1(c: char, s: string)
    ensures ([c] + s)[1..] == s
  {
  }

  /** A comma before a quoted text is passed over by a first round that finds nothing. */
  lemma LeadingComma(floats: M.FloatText, s: string)
    ensures DecodeElems(floats, "," + s) == DecodeElems(floats, s)
  {
    var t := "," + s;
    assert Unquote(t) == Unquoted(t, t, false);
    assert Decode(floats, t) == Nothing;
    assert t[1..] == s;
    if DecodeElems(floats, s).Some? { assert [] + DecodeElems(floats, s).value == DecodeElems(floats, s).value; }
  }

  /** One quoted element, then what follows. */
  lemma FirstElem(floats: M.FloatText, e: string, rest: string, v: Value)
    requires Decode(floats, e) == Decoded(v) && (rest == "" || rest[0] == ',')
    ensures DecodeElems(floats, Quote(e) + rest) ==
      match DecodeElems(floats, if rest == "" then "" else rest[1..])
      case None => None
      case Some(vs) => Some([v] + vs)
  {
    UnquoteQuote(e, rest);
    assert Quote(e) + rest != "";
  }

  lemma {:induction false} DecodeEncodeElems(floats: M.FloatText, elems: seq<Value>)
    requires forall i :: 0 <= i < |elems| ==> Constructible(elems[i])
    ensures DecodeElems(floats, EncodeElems(floats, elems)) == Some(NormalElems(floats, elems))
    decreases elems, 0
  {
    if elems != [] {
      var e, rest := Encode(floats, elems[0]), EncodeElems(floats, elems[1..]);
      hide Decode, DecodeElems, Quote, Encode, Normal;
      DecodeEncode(floats, elems[0]);
      DecodeEncodeElems(floats, elems[1..]);
      LeadingComma(floats, Quote(e) + rest);
      ElemsShape(floats, elems[1..]);
      FirstElem(floats, e, rest, Normal(floats, elems[0]));
      if rest != "" { LeadingComma(floats, rest[1..]); }
    }
  }

  lemma ElemsShape(floats: M.FloatText, elems: seq<Value>)
    ensures var s := EncodeElems(floats, elems); s == "" || (s[0] == ',' && s == "," + s[1..])
  {
    if elems != [] {
      Drop1(',', Quote(Encode(floats, elems[0])) + EncodeElems(floats, elems[1..]));
    }
  }

  lemma DecodeEncodePair(floats: M.FloatText, car: Value, cdr: Option<Value>)
    requires Decode(floats, Encode(floats, car)) == Decoded(Normal(floats, car))
    requires cdr.Some? ==> Decode(floats, Encode(floats, cdr.value)) == Decoded(Normal(floats, cdr.value))
    ensures var v := PairValue(Some(car), cdr); Decode(floats, Encode(floats, v)) == Decoded(Normal(floats, v))
  {
    var a := Encode(floats, car);
    var b := if cdr.Some? then Quote(Encode(floats, cdr.value)) else "";
    assert Encode(floats, PairValue(Some(car), cdr)) == "p" + (Quote(a) + ("," + b));
    UnquoteQuote(a, "," + b);
    assert AfterComma("," + b) == b by { Drop1(',', b); }
    if cdr.Some? {
      UnquoteQuote(Encode(floats, cdr.value), "");
      assert b + "" == b;
    }
    PairDecodes(floats, Quote(a) + ("," + b));
  }

  lemma PairDecodes(floats: M.FloatText, s: string)
    ensures Decode(floats, "p" + s) ==
      var car := Decode(floats, Unquote(s).text);
      var cdr := Decode(floats, Unquote(AfterComma(Unquote(s).tail)).text);
      if car.Overrun? || cdr.Overrun? then Overrun else Decoded(PairValue(car.ToOption(), cdr.ToOption()))
  {
    Drop1('p', s);
  }

  lemma DecodeEncodeSchema(floats: M.FloatText, sc: Schema)
    requires sc.default.Some? ==>
      Decode(floats, Encode(floats, sc.default.value)) == Decoded(Normal(floats, sc.default.value))
    ensures Decode(floats, Encode(floats, SchemaValue(sc))) == Decoded(Normal(floats, SchemaValue(sc)))
  {
    var d := if sc.default.Some? then Encode(floats, sc.default.value) else "";
    SchemaNormal(floats, sc, d);
    SchemaText(floats, sc, d);
    hide Encode, Normal, Decode;
    var r4 := Quote(d);
    var r3 := Field(OrEmpty(sc.longDesc), r4);
    var r2 := Field(OrEmpty(sc.shortDesc), r3);
    var r1 := Field(OrEmpty(sc.locale), r2);
    FieldsUnquote(OrEmpty(sc.locale), OrEmpty(sc.shortDesc), OrEmpty(sc.longDesc), d);
    SchemaParts(floats, sc, SchemaTypes(sc) + ("," + r1), r1, r2, r3, r4, d);
  }

  lemma SchemaText(floats: M.FloatText, sc: Schema, d: string)
    requires d == if sc.default.Some? then Encode(floats, sc.default.value) else ""
    ensures var s := SchemaTypes(sc) + ("," +
        Field(OrEmpty(sc.locale), Field(OrEmpty(sc.shortDesc), Field(OrEmpty(sc.longDesc), Quote(d)))));
      Decode(floats, Encode(floats, SchemaValue(sc))) == DecodeSchema(floats, s)
  {
    hide Quote, Field, SchemaTypes, DecodeSchema;
    var s := SchemaTypes(sc) + ("," +
        Field(OrEmpty(sc.locale), Field(OrEmpty(sc.shortDesc), Field(OrEmpty(sc.longDesc), Quote(d)))));
    assert Encode(floats, SchemaValue(sc)) == "c" + s;
    hide Encode;
    Drop1('c', s);
    assert ("c" + s)[0] == 'c';
  }

  lemma FieldsUnquote(a: string, b: string, c: string, d: string)
    ensures var r4 := Quote(d);
      var r3 := Field(c, r4);
      var r2 := Field(b, r3);
      && Unquote(Field(a, r2)) == Unquoted(a, "," + r2, true)
      && Unquote(r2) == Unquoted(b, "," + r3, true)
      && Unquote(r3) == Unquoted(c, "," + r4, true)
      && Unquote(r4) == Unquoted(d, "", true)
  {
    hide Quote, Unquote;
    var r4 := Quote(d);
    var r3 := Field(c, r4);
    var r2 := Field(b, r3);
    UnquoteQuote(a, "," + r2);
    UnquoteQuote(b, "," + r3);
    UnquoteQuote(c, "," + r4);
    UnquoteQuote(d, "");
    assert r4 + "" == r4;
  }

  lemma SchemaParts(floats: M.FloatText, sc: Schema, s: string, r1: string, r2: string, r3: string, r4: string, d: string)
    requires s == SchemaTypes(sc) + ("," + r1)
    requires Unquote(r1) == Unquoted(OrEmpty(sc.locale), "," + r2, true)
    requires Unquote(r2) == Unquoted(OrEmpty(sc.shortDesc), "," + r3, true)
    requires Unquote(r3) == Unquoted(OrEmpty(sc.longDesc), "," + r4, true)
    requires Unquote(r4) == Unquoted(d, "", true) && !Decode(floats, d).Overrun?
    ensures DecodeSchema(floats, s) ==
      Decoded(SchemaValue(sc.(locale := Some(OrEmpty(sc.locale)), shortDesc := Some(OrEmpty(sc.shortDesc)),
                              longDesc := Some(OrEmpty(sc.longDesc)), owner := None, default := Decode(floats, d).ToOption())))
  {
    ByteOfType(sc.vtype);
    ByteOfType(sc.listType);
    ByteOfType(sc.carType);
    ByteOfType(sc.cdrType);
    hide Unquote, Decode, ByteType, TypeByte;
    assert s[5..] == r1;
    Drop1(',', r2);
    Drop1(',', r3);
    Drop1(',', r4);
  }

  lemma SchemaNormal(floats: M.FloatText, sc: Schema, d: string)
    requires d == if sc.default.Some? then Encode(floats, sc.default.value) else ""
    requires sc.default.Some? ==> Decode(floats, d) == Decoded(Normal(floats, sc.default.value))
    ensures !Decode(floats, d).Overrun?
    ensures Normal(floats, SchemaValue(sc)) ==
      SchemaValue(sc.(locale := Some(OrEmpty(sc.locale)), shortDesc := Some(OrEmpty(sc.shortDesc)),
                      longDesc := Some(OrEmpty(sc.longDesc)), owner := None, default := Decode(floats, d).ToOption()))
  {
  }

  /** Decoding what encoding wrote gives the normal form of any value that can be made, at any depth
      of lists, pairs and schema defaults. */
  lemma {:induction false} DecodeEncode(floats: M.FloatText, v: Value)
    requires Constructible(v)
    ensures Decode(floats, Encode(floats, v)) == Decoded(Normal(floats, v))
    decreases v, 1
  {
    match v
    case IntValue(i) =>
      AtoiShow(i);
      Drop1('i', ShowInt(i));
    case BoolValue(b) =>
    case FloatValue(x) => Drop1('f', floats.show(x));
    case StringValue(text) => Drop1('s', text.value);
    case SchemaValue(sc) =>
      if sc.default.Some? { DecodeEncode(floats, sc.default.value); }
      DecodeEncodeSchema(floats, sc);
    case ListValue(t, elems) =>
      DecodeEncodeElems(floats, elems);
      ListDecodes(floats, t, EncodeElems(floats, elems), NormalElems(floats, elems));
    case PairValue(car, cdr) =>
      if car.Some? {
        DecodeEncode(floats, car.value);
        if cdr.Some? { DecodeEncode(floats, cdr.value); }
        DecodeEncodePair(floats, car.value, cdr);
      } else {
        PairDecodes(floats, "");
        assert "p" + "" == "p";
      }
  }

  lemma ListDecodes(floats: M.FloatText, t: VType, s: string, elems: seq<Value>)
    requires DecodeElems(floats, s) == Some(elems)
    ensures Decode(floats, "l" + [TypeByte(t)] + s) == Decoded(MakeList(t, elems))
  {
    var e := "l" + [TypeByte(t)] + s;
    assert e[1..] == [TypeByte(t)] + s && e[1..][1..] == s;
    ByteOfType(t);
  }

  // When nothing is lost

  /** Exactly the values that come back unchanged. */
  predicate Exact(floats: M.FloatText, v: Value) {
    match v
    case FloatValue(x) => (if floats.read(floats.show(x)).Some? then floats.read(floats.show(x)).value else ZERO) == x
    case SchemaValue(sc) =>
      && sc.locale.Some? && sc.shortDesc.Some? && sc.longDesc.Some? && sc.owner.None?
      && (sc.default.Some? ==> Exact(floats, sc.default.value))
    case ListValue(_, elems) => forall i :: 0 <= i < |elems| ==> Exact(floats, elems[i])
    case PairValue(car, cdr) =>
      && (cdr.Some? ==> car.Some?)
      && (car.Some? ==> Exact(floats, car.value)) && (cdr.Some? ==> Exact(floats, cdr.value))
    case _ => true
  }

  lemma {:induction false} NormalFixed(floats: M.FloatText, v: Value)
    ensures Normal(floats, v) == v <==> Exact(floats, v)
    decreases v, 1
  {
    match v
    case SchemaValue(sc) => if sc.default.Some? { NormalFixed(floats, sc.default.value); }
    case ListValue(_, elems) => NormalElemsFixed(floats, elems);
    case PairValue(car, cdr) =>
      if car.Some? { NormalFixed(floats, car.value); }
      if cdr.Some? { NormalFixed(floats, cdr.value); }
    case _ =>
  }

  lemma {:induction false} NormalElemsFixed(floats: M.FloatText, elems: seq<Value>)
    ensures NormalElems(floats, elems) == elems <==> forall i :: 0 <= i < |elems| ==> Exact(floats, elems[i])
    decreases elems, 0
  {
    if elems != [] {
      NormalFixed(floats, elems[0]);
      NormalElemsFixed(floats, elems[1..]);
      var n, rest := NormalElems(floats, elems), elems[1..];
      assert n[0] == Normal(floats, elems[0]) && n[1..] == NormalElems(floats, rest);
      assert elems == [elems[0]] + rest;
      assert forall i :: 1 <= i < |elems| ==> elems[i] == rest[i - 1];
      assert forall i :: 0 <= i < |rest| ==> rest[i] == elems[i + 1];
    }
  }

  /** The round trip gives a value back unchanged exactly when it is exact. */
  lemma RoundTripExact(floats: M.FloatText, v: Value)
    requires Constructible(v)
    ensures Decode(floats, Encode(floats, v)) == Decoded(v) <==> Exact(floats, v)
  {
    DecodeEncode(floats, v);
    NormalFixed(floats, v);
  }
}
