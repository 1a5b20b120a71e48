/**
 The codec for uninterpreted values (internal/store/dynamodb/anyvalue.go): JSON-shaped
 Go values to DynamoDB attributes and back. Every number decodes to a float64, so an
 integer is accepted only where a float64 holds all integers exactly.
 */
module AnyValue {
  import opened Bytes
  import opened Doubles

  // ---- values --------------------------------------------------------------------

  /** A float64: a whole number by its value, minus zero or a fraction by the text it prints as. */
  datatype Float64 = NaN | Infinity(negative: bool) | Whole(n: int) | Fraction(text: string)

  datatype GoValue =
    | Nil
    | Bool(b: bool)
    | Str(s: string)
    | Blob(data: string)
    | Time(text: string)            // a time.Time, by its formatTime text
    | JsonNumber(text: string)
    | Float(f: Float64)
    | Int(i: int)
    | Uint(u: nat)
    | List(elements: seq<GoValue>)
    | StrList(strings: seq<string>)
    | Object(fields: map<string, GoValue>)
    | Unsupported

  datatype Attribute =
    | NULL
    | BOOL(b: bool)
    | S(s: string)
    | B(data: string)
    | N(text: string)
    | L(elements: seq<Attribute>)
    | M(fields: map<string, Attribute>)
    | SS(strings: seq<string>)
    | NS(texts: seq<string>)
    | BS(blobs: seq<string>)

  /** strconv.FormatFloat(f, 'f', -1, 64) for a finite float. */
  function FormatFloat(f: Float64): string
    requires f.Whole? || f.Fraction?
  {
    if f.Whole? then FormatInt(f.n) else f.text
  }

  /** strconv.ParseFloat: whole numbers are rounded to a float64; other texts name their float. */
  function ParseFloat(text: string): Option<Float64> {
    if text == "-0" then Some(Fraction(text))
    else match ParseInt(text)
      case Some(i) => Some(Whole(RoundInt(i)))
      case None => if '.' in text then Some(Fraction(text)) else None
  }

  predicate ValidFloat(f: Float64) {
    (f.Whole? ==> RoundInt(f.n) == f.n)
    && (f.Fraction? ==> ParseFloat(f.text) == Some(f))
  }

  function All(options: seq<Option<Attribute>>): Option<seq<Attribute>>
  {
    if options == [] then Some([])
    else match (options[0], All(options[1..]))
      case (Some(a), Some(rest)) => Some([a] + rest)
      case _ => None
  }

  lemma {:induction false} AllCollects(options: seq<Option<Attribute>>)
    ensures All(options).Some? <==> forall i :: 0 <= i < |options| ==> options[i].Some?
    ensures All(options).Some? ==>
              |All(options).value| == |options| && forall i :: 0 <= i < |options| ==> options[i] == Some(All(options).value[i])
    decreases |options|
  {
    if options != [] {
      AllCollects(options[1..]);
      assert forall i :: 0 < i < |options| ==> options[i] == options[1..][i - 1];
    }
  }

  /** anyAV; None is ErrUnsupportedValue. */
  function Encode(v: GoValue): Option<Attribute> {
    match v
    case Nil => Some(NULL)
    case Bool(b) => Some(BOOL(b))
    case Str(s) => Some(S(s))
    case Blob(data) => Some(B(data))
    case Time(text) => Some(S(text))
    case JsonNumber(text) => Some(N(text))
    case Float(f) => if f.NaN? || f.Infinity? then None else Some(N(FormatFloat(f)))
    case Int(i) => if i > MAX_EXACT_INT || i < -MAX_EXACT_INT then None else Some(N(FormatInt(i)))
    case Uint(u) => if u > MAX_EXACT_INT then None else Some(N(FormatInt(u)))
    case List(elements) =>
      (match All(seq(|elements|, i requires 0 <= i < |elements| => Encode(elements[i])))
       case Some(out) => Some(L(out))
       case None => None)
    case StrList(strings) => Some(L(seq(|strings|, i requires 0 <= i < |strings| => S(strings[i]))))
    case Object(fields) =>
      if "" in fields || exists k :: k in fields && Encode(fields[k]).None? then None
      else Some(M(map k | k in fields :: Encode(fields[k]).value))
    case Unsupported => None
  }

  /** anyFromAV: total, an attribute it does not understand reads as nil. */
  function Decode(a: Attribute): GoValue {
    match a
    case NULL => Nil
    case BOOL(b) => Bool(b)
    case S(s) => Str(s)
    case B(data) => Blob(data)
    case N(text) => (match ParseFloat(text) case Some(f) => Float(f) case None => Nil)
    case L(elements) => List(seq(|elements|, i requires 0 <= i < |elements| => Decode(elements[i])))
    case M(fields) => Object(map k | k in fields :: Decode(fields[k]))
    case SS(strings) => List(seq(|strings|, i requires 0 <= i < |strings| => Str(strings[i])))
    case NS(texts) => List(ReadNumbers(texts))
    case BS(_) => Nil
  }

  /** A number set drops the members that do not parse. */
  function ReadNumbers(texts: seq<string>): seq<GoValue> {
    if texts == [] then []
    else match ParseFloat(texts[0])
      case Some(f) => [Float(f)] + ReadNumbers(texts[1..])
      case None => ReadNumbers(texts[1..])
  }

  // ---- what the codec promises -----------------------------------------------------

  /** `x` is `v` or occurs anywhere inside it. */
  ghost predicate Within(x: GoValue, v: GoValue)
    decreases v
  {
    || x == v
    || (v.List? && exists i :: 0 <= i < |v.elements| && Within(x, v.elements[i]))
    || (v.Object? && exists k :: k in v.fields && Within(x, v.fields[k]))
  }

  /** What the codec has no attribute for: integers beyond the accepted bound, non-numbers, foreign types, unnamed fields. */
  predicate Refused(x: GoValue) {
    || (x.Int? && BeyondTheBound(x.i))
    || (x.Uint? && BeyondTheBound(x.u))
    || (x.Float? && (x.f.NaN? || x.f.Infinity?))
    || (x.Object? && "" in x.fields)
    || x.Unsupported?
  }

  predicate BeyondTheBound(i: int) { i < -MAX_EXACT_INT || i > MAX_EXACT_INT }

  /** Something inside `v`, or `v` itself, is refused. */
  ghost predicate Spoiled(v: GoValue) {
    exists x :: Within(x, v) && Refused(x)
  }

  lemma SpoiledList(v: GoValue)
    requires v.List?
    ensures Spoiled(v) <==> exists i :: 0 <= i < |v.elements| && Spoiled(v.elements[i])
  {
    if i :| 0 <= i < |v.elements| && Spoiled(v.elements[i]) {
      var x :| Within(x, v.elements[i]) && Refused(x);
      assert Within(x, v);
    }
    if x :| Within(x, v) && Refused(x) {
      var i :| 0 <= i < |v.elements| && Within(x, v.elements[i]);
      assert Spoiled(v.elements[i]);
    }
  }

  lemma SpoiledObject(v: GoValue)
    requires v.Object?
    ensures Spoiled(v) <==> "" in v.fields || exists k :: k in v.fields && Spoiled(v.fields[k])
  {
    if "" in v.fields {
      assert Within(v, v);
    }
    if k :| k in v.fields && Spoiled(v.fields[k]) {
      var x :| Within(x, v.fields[k]) && Refused(x);
      assert Within(x, v);
    }
    if x :| Within(x, v) && Refused(x) && "" !in v.fields {
      var k :| k in v.fields && Within(x, v.fields[k]);
      assert Spoiled(v.fields[k]);
    }
  }

  /** The whole encode fails exactly when something refused occurs anywhere in the value. */
  lemma {:induction false} EncodeFailsIff(v: GoValue)
    ensures Encode(v).None? <==> exists x :: Within(x, v) && Refused(x)
    decreases v
  {
    match v
    case List(elements) =>
      var encoded := seq(|elements|, i requires 0 <= i < |elements| => Encode(elements[i]));
      AllCollects(encoded);
      forall i | 0 <= i < |elements| ensures encoded[i].None? <==> Spoiled(elements[i]) {
        EncodeFailsIff(elements[i]);
      }
      SpoiledList(v);
      if i :| 0 <= i < |elements| && Spoiled(elements[i]) {
        assert encoded[i].None?;
        assert Encode(v).None?;
      } else {
        assert forall i :: 0 <= i < |encoded| ==> encoded[i].Some?;
      }
      assert Encode(v).None? <==> Spoiled(v);
    case Object(fields) =>
      forall k | k in fields ensures Encode(fields[k]).None? <==> Spoiled(fields[k]) {
        EncodeFailsIff(fields[k]);
      }
      SpoiledObject(v);
      assert Encode(v).None? <==> Spoiled(v);
    case _ =>
      assert Within(v, v);
  }

  /** The JSON value a stored value reads back as: integers as floats, times and string lists as JSON has them. */
  function AsJson(v: GoValue): GoValue {
    match v
    case Int(i) => Float(Whole(i))
    case Uint(u) => Float(Whole(u))
    case Time(text) => Str(text)
    case List(elements) => List(seq(|elements|, i requires 0 <= i < |elements| => AsJson(elements[i])))
    case StrList(strings) => List(seq(|strings|, i requires 0 <= i < |strings| => Str(strings[i])))
    case Object(fields) => Object(map k | k in fields :: AsJson(fields[k]))
    case _ => v
  }

  /** Floats are float64s, and no json.Number occurs: its text is stored as it came. */
  predicate InScope(v: GoValue) {
    match v
    case Float(f) => ValidFloat(f)
    case JsonNumber(_) => false
    case List(elements) => forall i :: 0 <= i < |elements| ==> InScope(elements[i])
    case Object(fields) => forall k :: k in fields ==> InScope(fields[k])
    case _ => true
  }

  /** Reading back a stored value gives the value itself, in JSON's terms and with every number exact. */
  lemma {:induction false} RoundTrip(v: GoValue)
    requires InScope(v) && Encode(v).Some?
    ensures Decode(Encode(v).value) == AsJson(v)
    decreases v
  {
    match v
    case Float(_) => NumberRoundTrip(v);
    case Int(_) => NumberRoundTrip(v);
    case Uint(_) => NumberRoundTrip(v);
    case StrList(_) => StringsRoundTrip(v);
    case List(elements) =>
      forall i | 0 <= i < |elements|
        ensures Encode(elements[i]).Some? && Decode(Encode(elements[i]).value) == AsJson(elements[i])
      {
        ListEncodes(v, i);
        RoundTrip(elements[i]);
      }
      ListDecodes(v);
    case Object(fields) =>
      forall k | k in fields ensures Encode(fields[k]).Some? && Decode(Encode(fields[k]).value) == AsJson(fields[k]) {
        RoundTrip(fields[k]);
      }
      ObjectDecodes(v);
    case _ =>
  }

  lemma NumberRoundTrip(v: GoValue)
    requires (v.Float? || v.Int? || v.Uint?) && InScope(v) && Encode(v).Some?
    ensures Decode(Encode(v).value) == AsJson(v)
  {
    match v
    case Float(f) =>
      if f.Whole? { FormatIntParses(f.n); }
    case Int(i) =>
      FormatIntParses(i);
      ExactUpToMax(i);
    case Uint(u) =>
      FormatIntParses(u);
      ExactUpToMax(u);
  }

  lemma StringsRoundTrip(v: GoValue)
    requires v.StrList?
    ensures Decode(Encode(v).value) == AsJson(v)
  {
    assert Decode(Encode(v).value).elements == AsJson(v).elements;
  }

  lemma ListEncodes(v: GoValue, i: nat)
    requires v.List? && Encode(v).Some? && i < |v.elements|
    ensures |Encode(v).value.elements| == |v.elements|
    ensures Encode(v.elements[i]).Some? && Encode(v).value.elements[i] == Encode(v.elements[i]).value
  {
    var encoded := seq(|v.elements|, i requires 0 <= i < |v.elements| => Encode(v.elements[i]));
    AllCollects(encoded);
    assert encoded[i] == Some(Encode(v).value.elements[i]);
  }

  lemma ListDecodes(v: GoValue)
    requires v.List? && Encode(v).Some?
    requires forall i :: 0 <= i < |v.elements| ==> Encode(v.elements[i]).Some? && Decode(Encode(v.elements[i]).value) == AsJson(v.elements[i])
    ensures Decode(Encode(v).value) == AsJson(v)
  {
    var out := Encode(v).value.elements;
    AllCollects(seq(|v.elements|, i requires 0 <= i < |v.elements| => Encode(v.elements[i])));
    forall i | 0 <= i < |v.elements| ensures Decode(out[i]) == AsJson(v.elements[i]) {
      ListEncodes(v, i);
    }
    assert Decode(Encode(v).value).elements == AsJson(v).elements;
  }

  lemma ObjectDecodes(v: GoValue)
    requires v.Object? && Encode(v).Some?
    requires forall k :: k in v.fields ==> Encode(v.fields[k]).Some? && Decode(Encode(v.fields[k]).value) == AsJson(v.fields[k])
    ensures Decode(Encode(v).value) == AsJson(v)
  {
    assert Decode(Encode(v).value).fields == AsJson(v).fields;
  }

  /** What json.Unmarshal produces. */
  predicate IsJson(v: GoValue) {
    match v
    case Nil => true
    case Bool(_) => true
    case Str(_) => true
    case Float(f) => (f.Whole? || f.Fraction?) && ValidFloat(f)
    case List(elements) => forall i :: 0 <= i < |elements| ==> IsJson(elements[i])
    case Object(fields) => forall k :: k in fields ==> IsJson(fields[k])
    case _ => false
  }

  lemma {:induction false} JsonIsItself(v: GoValue)
    requires IsJson(v)
    ensures InScope(v) && AsJson(v) == v
    decreases v
  {
    match v
    case List(elements) =>
      forall i | 0 <= i < |elements| ensures InScope(elements[i]) && AsJson(elements[i]) == elements[i] {
        JsonIsItself(elements[i]);
      }
      assert AsJson(v).elements == elements;
    case Object(fields) =>
      forall k | k in fields ensures InScope(fields[k]) && AsJson(fields[k]) == fields[k] {
        JsonIsItself(fields[k]);
      }
      assert AsJson(v).fields == fields;
    case _ =>
  }

  /** A JSON document that encodes reads back unchanged. */
  lemma JsonRoundTrip(v: GoValue)
    requires IsJson(v) && Encode(v).Some?
    ensures Decode(Encode(v).value) == v
  {
    JsonIsItself(v);
    RoundTrip(v);
  }

  /** Storing what was read changes nothing more. */
  lemma {:induction false} EncodeAgain(v: GoValue)
    requires InScope(v) && Encode(v).Some?
    ensures Encode(AsJson(v)) == Encode(v)
    decreases v
  {
    match v
    case Int(i) => ExactUpToMax(i);
    case Uint(u) => ExactUpToMax(u);
    case List(elements) =>
      forall i | 0 <= i < |elements| ensures Encode(AsJson(elements[i])) == Encode(elements[i]) {
        ListEncodes(v, i);
        EncodeAgain(elements[i]);
      }
      ListEncodesAgain(v);
    case StrList(strings) => StringsEncodeAgain(v);
    case Object(fields) =>
      forall k | k in fields ensures Encode(fields[k]).Some? && Encode(AsJson(fields[k])) == Encode(fields[k]) {
        EncodeAgain(fields[k]);
      }
      ObjectEncodesAgain(v);
    case _ =>
  }

  lemma ListEncodesAgain(v: GoValue)
    requires v.List? && forall i :: 0 <= i < |v.elements| ==> Encode(AsJson(v.elements[i])) == Encode(v.elements[i])
    ensures Encode(AsJson(v)) == Encode(v)
  {
    var json := AsJson(v).elements;
    assert seq(|json|, i requires 0 <= i < |json| => Encode(json[i])) ==
           seq(|v.elements|, i requires 0 <= i < |v.elements| => Encode(v.elements[i]));
  }

  lemma StringsEncodeAgain(v: GoValue)
    requires v.StrList?
    ensures Encode(AsJson(v)) == Encode(v)
  {
    var json := AsJson(v).elements;
    var parts := seq(|json|, i requires 0 <= i < |json| => Encode(json[i]));
    AllCollects(parts);
    assert All(parts).value == Encode(v).value.elements;
  }

  lemma ObjectEncodesAgain(v: GoValue)
    requires v.Object? && Encode(v).Some?
    requires forall k :: k in v.fields ==> Encode(v.fields[k]).Some? && Encode(AsJson(v.fields[k])) == Encode(v.fields[k])
    ensures Encode(AsJson(v)) == Encode(v)
  {
    var json := AsJson(v).fields;
    assert forall k :: k in json <==> k in v.fields;
    assert Encode(AsJson(v)).value.fields == Encode(v).value.fields;
  }

  // ---- integers that come as json.Number --------------------------------------------------

  /** An Int beyond the bound is refused; a json.Number is stored as it came, and read back rounded. */
  lemma JsonNumberSurvivesIff(i: int)
    ensures Encode(JsonNumber(FormatInt(i))).Some?
    ensures Decode(Encode(JsonNumber(FormatInt(i))).value) == Float(Whole(i)) <==> Representable(if i < 0 then -i else i)
  {
    FormatIntParses(i);
    ExactIffRepresentable(if i < 0 then -i else i);
  }

  /** 2^53 + 1 is refused as an integer, and as a json.Number silently read back one less. */
  lemma JsonNumberLosesAnInteger()
    ensures Encode(Int(MAX_EXACT_INT + 1)) == None
    ensures Decode(Encode(JsonNumber(FormatInt(MAX_EXACT_INT + 1))).value) == Float(Whole(MAX_EXACT_INT))
  {
    FormatIntParses(MAX_EXACT_INT + 1);
    NextIntegerIsLost();
  }

  // ---- the size estimate (itemBytes) ----------------------------------------------------

  /** attributeBytes; the members of a map or list add up in any order. */
  ghost function AttributeBytes(a: Attribute): nat
    decreases a, 1, 0
  {
    match a
    case NULL => 1
    case BOOL(_) => 1
    case S(s) => |s|
    case B(data) => |data|
    case N(text) => |text| + 1
    case L(elements) => 3 + ElementsBytes(a, |elements|)
    case M(fields) => 3 + FieldsBytes(a, fields.Keys)
    case SS(strings) => TextsBytes(strings, 0)
    case NS(texts) => TextsBytes(texts, 1)
    case BS(blobs) => TextsBytes(blobs, 0)
  }

  ghost function ElementsBytes(a: Attribute, n: nat): nat
    requires a.L? && n <= |a.elements|
    decreases a, 0, n
  {
    if n == 0 then 0 else ElementsBytes(a, n - 1) + 1 + AttributeBytes(a.elements[n - 1])
  }

  ghost function FieldsBytes(a: Attribute, keys: set<string>): nat
    requires a.M? && keys <= a.fields.Keys
    decreases a, 0, |keys|
  {
    if keys == {} then 0
    else
      var k :| k in keys;
      |k| + 1 + AttributeBytes(a.fields[k]) + FieldsBytes(a, keys - {k})
  }

  function TextsBytes(texts: seq<string>, extra: nat): nat {
    if texts == [] then 0 else |texts[0]| + extra + TextsBytes(texts[1..], extra)
  }

  /** A map's estimate does not depend on the order Go ranges over it. */
  lemma {:induction false} FieldsBytesInAnyOrder(a: Attribute, keys: set<string>, k: string)
    requires a.M? && keys <= a.fields.Keys && k in keys
    ensures FieldsBytes(a, keys) == |k| + 1 + AttributeBytes(a.fields[k]) + FieldsBytes(a, keys - {k})
    decreases |keys|
  {
    var first :| first in keys && FieldsBytes(a, keys) == |first| + 1 + AttributeBytes(a.fields[first]) + FieldsBytes(a, keys - {first});
    if first != k {
      FieldsBytesInAnyOrder(a, keys - {first}, k);
      FieldsBytesInAnyOrder(a, keys - {k}, first);
      assert keys - {first} - {k} == keys - {k} - {first};
    }
  }

  /** attributeBytes as the source runs it: an accumulator over lists and over maps in any order. */
  method Measure(a: Attribute) returns (n: nat)
    ensures n == AttributeBytes(a)
    decreases a
  {
    match a
    case NULL => n := 1;
    case BOOL(_) => n := 1;
    case S(s) => n := |s|;
    case B(data) => n := |data|;
    case N(text) => n := |text| + 1;
    case L(elements) =>
      n := 3;
      for i := 0 to |elements|
        invariant n == 3 + ElementsBytes(a, i)
      {
        var m := Measure(elements[i]);
        n := n + 1 + m;
      }
    case M(fields) =>
      n := 3;
      var todo := fields.Keys;
      while todo != {}
        invariant todo <= fields.Keys
        invariant n + FieldsBytes(a, todo) == 3 + FieldsBytes(a, fields.Keys)
        decreases |todo|
      {
        var k :| k in todo;
        FieldsBytesInAnyOrder(a, todo, k);
        var m := Measure(fields[k]);
        n := n + |k| + 1 + m;
        todo := todo - {k};
      }
    case SS(strings) => n := TextsBytes(strings, 0);
    case NS(texts) => n := TextsBytes(texts, 1);
    case BS(blobs) => n := TextsBytes(blobs, 0);
  }
}
