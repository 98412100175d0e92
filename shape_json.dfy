/**
 * The JSON wire type of every shape: what a shape's value looks like once
 * written as JSON. Each shape variant fixes its wire type (`[Tag]`), and
 * `Json<T>` reads it off a shape, so the mapping is a total function by
 * structural recursion over shapes.
 *
 * A JSON type is given meaning by `Conforms`, which says which JSON values
 * it admits when read as a JSON document: an object type admits JSON objects,
 * which may carry keys beyond the declared ones; an optional key may be
 * absent; and `null` is admitted only where the type says so.
 */
module ShapeJson {

  /** A member of a class shape: its key, its shape, and whether it is required. */
  datatype Member = Member(name: string, shape: Shape, required: bool)

  /** The closed set of shape variants. */
  datatype Shape =
    | Dynamic(declared: JsonType)   // the type parameter `T` of `DynamicShape<T>`
    | Binary
    | Bool
    | Number
    | Nothing
    | String
    | Timestamp
    | Array(items: Shape)
    | Set(items: Shape)
    | Map(values: Shape)
    | Class(members: seq<Member>)

  /** A property of an object type; `optional` is the `+?` modifier. */
  datatype Property = Property(key: string, valueType: JsonType, optional: bool)

  /** JSON types as the TypeScript declarations write them. */
  datatype JsonType =
    | TUnknown                      // `unknown` / `any`
    | TNull
    | TBoolean
    | TNumber
    | TString
    | TArray(element: JsonType)     // `Array<E>`
    | TDictionary(value: JsonType)  // `{ [key: string]: V }`
    | TObject(properties: seq<Property>)

  datatype JsonValue =
    | JNull
    | JBool(b: bool)
    | JNumber(n: real)
    | JString(s: string)
    | JArray(items: seq<JsonValue>)
    | JObject(fields: map<string, JsonValue>)

  /** `Json<T>`: the wire type a shape declares through its `[Tag]`. */
  function WireType(s: Shape): (r: JsonType)
    ensures r == TNull <==> s.Nothing? || (s.Dynamic? && s.declared == TNull)
    ensures r == TString <==> s.Binary? || s.String? || s.Timestamp? || (s.Dynamic? && s.declared == TString)
    ensures r.TArray? <==> s.Array? || s.Set? || (s.Dynamic? && s.declared.TArray?)
    ensures r.TDictionary? <==> s.Map? || (s.Dynamic? && s.declared.TDictionary?)
    ensures r.TObject? <==> s.Class? || (s.Dynamic? && s.declared.TObject?)
  {
    match s
    case Dynamic(t) => t
    case Binary => TString
    case Bool => TBoolean
    case Number => TNumber
    case Nothing => TNull
    case String => TString
    case Timestamp => TString
    case Array(e) => TArray(WireType(e))
    case Set(e) => TArray(WireType(e))
    case Map(v) => TDictionary(WireType(v))
    case Class(ms) => TObject(MemberProperties(ms))
  }

  /** One property per member, in declaration order; optional when the member is not required. */
  function MemberProperties(ms: seq<Member>): (ps: seq<Property>)
    ensures |ps| == |ms|
    ensures forall i :: 0 <= i < |ms| ==>
              && ps[i].key == ms[i].name
              && ps[i].valueType == WireType(ms[i].shape)
              && ps[i].optional == !ms[i].required
  {
    if ms == [] then []
    else [Property(ms[0].name, WireType(ms[0].shape), !ms[0].required)] + MemberProperties(ms[1..])
  }

  /** The JSON values a JSON type admits. */
  predicate Conforms(v: JsonValue, t: JsonType)
    decreases v
  {
    match t
    case TUnknown => true
    case TNull => v.JNull?
    case TBoolean => v.JBool?
    case TNumber => v.JNumber?
    case TString => v.JString?
    case TArray(e) => v.JArray? && forall x <- v.items :: Conforms(x, e)
    case TDictionary(e) => v.JObject? && forall k <- v.fields :: Conforms(v.fields[k], e)
    case TObject(ps) =>
      v.JObject? &&
      forall p <- ps :: (!p.optional ==> p.key in v.fields) &&
                        (p.key in v.fields ==> Conforms(v.fields[p.key], p.valueType))
  }

  // ---------------------------------------------------------------------
  // Well-formedness: object keys are unique, as in a TypeScript object type
  // ---------------------------------------------------------------------

  predicate DistinctKeys(ps: seq<Property>)
  {
    forall i, j :: 0 <= i < j < |ps| ==> ps[i].key != ps[j].key
  }

  predicate DistinctNames(ms: seq<Member>)
  {
    forall i, j :: 0 <= i < j < |ms| ==> ms[i].name != ms[j].name
  }

  predicate WellFormedType(t: JsonType)
  {
    match t
    case TArray(e) => WellFormedType(e)
    case TDictionary(e) => WellFormedType(e)
    case TObject(ps) => DistinctKeys(ps) && forall p <- ps :: WellFormedType(p.valueType)
    case _ => true
  }

  /** Member names are unique in every class, and dynamic types are well formed. */
  predicate WellFormedShape(s: Shape)
  {
    match s
    case Dynamic(t) => WellFormedType(t)
    case Array(e) => WellFormedShape(e)
    case Set(e) => WellFormedShape(e)
    case Map(v) => WellFormedShape(v)
    case Class(ms) => DistinctNames(ms) && forall m <- ms :: WellFormedShape(m.shape)
    case _ => true
  }

  // ---------------------------------------------------------------------
  // The wire type of each variant
  // ---------------------------------------------------------------------

  /**
   * The wire type of every scalar variant and the JSON values it admits:
   * Binary and Timestamp are both strings, as String is; Bool and Number are
   * booleans and numbers; Nothing admits only null; a dynamic shape's wire
   * type is its declared type parameter, unchanged.
   */
  lemma ScalarWireTypes(t: JsonType, v: JsonValue)
    ensures WireType(Binary) == WireType(Timestamp) == WireType(String) == TString
    ensures Conforms(v, WireType(Binary)) <==> v.JString?
    ensures Conforms(v, WireType(Timestamp)) <==> v.JString?
    ensures Conforms(v, WireType(String)) <==> v.JString?
    ensures Conforms(v, WireType(Bool)) <==> v.JBool?
    ensures Conforms(v, WireType(Number)) <==> v.JNumber?
    ensures Conforms(v, WireType(Nothing)) <==> v == JNull
    ensures WireType(Dynamic(t)) == t
  {
  }

  /**
   * Array and Set share one wire type, an array whose every element has the
   * element shape's wire type, with nothing said about uniqueness; a map is a
   * string-keyed object whose every value has the value shape's wire type.
   */
  lemma CollectionWireTypes(e: Shape, v: JsonValue)
    ensures WireType(Set(e)) == WireType(Array(e)) == TArray(WireType(e))
    ensures Conforms(v, WireType(Set(e))) <==> v.JArray? && forall x <- v.items :: Conforms(x, WireType(e))
    ensures WireType(Map(e)) == TDictionary(WireType(e))
    ensures Conforms(v, WireType(Map(e))) <==>
            v.JObject? && forall k <- v.fields :: Conforms(v.fields[k], WireType(e))
  {
  }

  /**
   * A class's wire type is an object type with exactly one property per
   * member, in declaration order, keyed by the member's name, typed by the
   * member shape's wire type, and optional exactly when the member is not
   * required.
   */
  lemma ClassProperties(ms: seq<Member>)
    ensures WireType(Class(ms)).TObject?
    ensures var ps := WireType(Class(ms)).properties;
            && |ps| == |ms|
            && forall i :: 0 <= i < |ms| ==>
                 && ps[i].key == ms[i].name
                 && ps[i].valueType == WireType(ms[i].shape)
                 && ps[i].optional == !ms[i].required
  {
  }

  /**
   * A JSON value has a class's wire type exactly when it is an object in
   * which every required member is present and every member that is present
   * has that member's wire type.
   */
  lemma ClassConforms(ms: seq<Member>, v: JsonValue)
    ensures Conforms(v, WireType(Class(ms))) <==>
            && v.JObject?
            && forall i :: 0 <= i < |ms| ==>
                 && (ms[i].required ==> ms[i].name in v.fields)
                 && (ms[i].name in v.fields ==> Conforms(v.fields[ms[i].name], WireType(ms[i].shape)))
  {
    ClassProperties(ms);
    var ps := WireType(Class(ms)).properties;
    if Conforms(v, WireType(Class(ms))) {
      forall i | 0 <= i < |ms|
        ensures ms[i].required ==> ms[i].name in v.fields
        ensures ms[i].name in v.fields ==> Conforms(v.fields[ms[i].name], WireType(ms[i].shape))
      {
        assert ps[i] in ps;
      }
    }
  }

  /** A required member's key is present in every conforming object, with the member's wire type. */
  lemma RequiredKeyPresent(ms: seq<Member>, v: JsonValue, i: nat)
    requires i < |ms| && ms[i].required
    requires Conforms(v, WireType(Class(ms)))
    ensures v.JObject? && ms[i].name in v.fields
    ensures Conforms(v.fields[ms[i].name], WireType(ms[i].shape))
  {
    ClassConforms(ms, v);
  }

  /** Removing an optional member's key from a conforming object keeps it conforming. */
  lemma OptionalKeyMayBeAbsent(ms: seq<Member>, fields: map<string, JsonValue>, i: nat)
    requires DistinctNames(ms)
    requires i < |ms| && !ms[i].required
    requires Conforms(JObject(fields), WireType(Class(ms)))
    ensures Conforms(JObject(fields - {ms[i].name}), WireType(Class(ms)))
  {
    ClassConforms(ms, JObject(fields));
    ClassConforms(ms, JObject(fields - {ms[i].name}));
  }

  /**
   * An optional member is not nullable: when its wire type does not admit
   * null, an object holding null under its key does not conform.
   */
  lemma OptionalKeyNotNullable(ms: seq<Member>, fields: map<string, JsonValue>, i: nat)
    requires i < |ms| && !ms[i].required
    requires !Conforms(JNull, WireType(ms[i].shape))
    ensures !Conforms(JObject(fields[ms[i].name := JNull]), WireType(Class(ms)))
  {
    ClassConforms(ms, JObject(fields[ms[i].name := JNull]));
  }

  /** Only Nothing, and a dynamic shape whose declared type admits null, admit null. */
  lemma NullableShapes(s: Shape)
    ensures Conforms(JNull, WireType(s)) <==>
            s.Nothing? || (s.Dynamic? && Conforms(JNull, s.declared))
  {
  }

  // ---------------------------------------------------------------------
  // No well-formed shape has an empty wire type
  // ---------------------------------------------------------------------

  /** A value of every well-formed JSON type. */
  function Example(t: JsonType): (v: JsonValue)
    requires WellFormedType(t)
    ensures Conforms(v, t)
  {
    match t
    case TUnknown => JNull
    case TNull => JNull
    case TBoolean => JBool(false)
    case TNumber => JNumber(0.0)
    case TString => JString("")
    case TArray(_) => JArray([])
    case TDictionary(_) => JObject(map[])
    case TObject(ps) => JObject(ExampleFields(ps))
  }

  /** An object that holds, under each property's key, a value of its type. */
  function ExampleFields(ps: seq<Property>): (fields: map<string, JsonValue>)
    requires DistinctKeys(ps) && forall p <- ps :: WellFormedType(p.valueType)
    ensures forall p <- ps :: p.key in fields && Conforms(fields[p.key], p.valueType)
  {
    if ps == [] then map[]
    else
      assert ps[0] in ps;
      var rest := ExampleFields(ps[1..]);
      assert forall p <- ps[1..] :: p.key != ps[0].key;
      rest[ps[0].key := Example(ps[0].valueType)]
  }

  /** The wire type of a well-formed shape is well formed. */
  lemma {:induction false} WireTypeWellFormed(s: Shape)
    requires WellFormedShape(s)
    ensures WellFormedType(WireType(s))
  {
    match s
    case Array(e) => WireTypeWellFormed(e);
    case Set(e) => WireTypeWellFormed(e);
    case Map(v) => WireTypeWellFormed(v);
    case Class(ms) =>
      ClassProperties(ms);
      var ps := WireType(s).properties;
      forall p <- ps ensures WellFormedType(p.valueType) {
        var i :| 0 <= i < |ps| && ps[i] == p;
        assert ms[i] in ms;
        WireTypeWellFormed(ms[i].shape);
      }
    case _ =>
  }

  /** Every well-formed shape has a wire type that some JSON value satisfies. */
  lemma Inhabited(s: Shape)
    requires WellFormedShape(s)
    ensures exists v :: Conforms(v, WireType(s))
  {
    WireTypeWellFormed(s);
    var v := Example(WireType(s));
  }

  /** A set's wire form admits duplicates: for every element shape, some array repeats an element. */
  lemma SetAdmitsDuplicates(e: Shape)
    requires WellFormedShape(e)
    ensures exists x :: Conforms(JArray([x, x]), WireType(Set(e)))
  {
    WireTypeWellFormed(e);
    var x := Example(WireType(e));
    assert Conforms(JArray([x, x]), WireType(Set(e)));
  }
}
