# Punchcard JSON shapes: line records and wire types

This project models two pieces of Punchcard's JSON support in Dafny.

- **`GlueJson`** (`glue_json.dfy`) models the line-record framing of the JSON data type for the AWS Glue data catalog. A storage object holds one JSON document per line.
  - `Split` cuts a buffer at every `'\n'` and yields each non-empty line, in order.
  - `Join` follows every record with a newline, the last record included, and concatenates the results.
  - Buffers are character sequences, so the UTF-8 decode and encode around both operations become the identity.
  - `Split` mirrors the source's generator. It is a method whose loop walks the lines of `buffer.split('\n')` and appends each non-empty one. It is proved equal to the function `Records`.
  - `Join` is pure and mirrors the source's expression in three steps:
    - the `map` callback with its index guard (`Frame`, `Framed`);
    - the `reduce` with no initial value (`Reduce`);
    - `Buffer.concat` (`Flatten`).
  - JavaScript's `String.prototype.split('\n')` is the function `Pieces`. It is pinned down as the inverse of putting pieces back together with separators (`PiecesInverse`, `PiecesUnique`).
- **`ShapeJson`** (`shape_json.dfy`) models the JSON wire type each shape declares through its `[Tag]`, and the extraction `Json<T>`.
  - Shapes are a closed datatype.
  - `WireType` is a total structural recursion from shapes to JSON types.
  - `Conforms` says which JSON values a JSON type admits, and so gives the wire types a meaning. It reads the types as JSON documents, the way the wire form is used:
    - an object type admits JSON objects only, which may carry keys beyond the declared ones;
    - an optional key (`+?`) may be absent;
    - `null` is admitted only where the type says `null` (or `unknown`), as under `strictNullChecks`.
  - `WireType` is a function, so structurally equal shapes get equal wire types. No lemma is needed for that.

One behaviour of the code the model keeps explicit:
- `join` of an empty list throws, because `reduce` has no initial value. `Join` models this as the error result `Failure(ReduceOfEmptyArray)`.

## Model

| member | source | states |
|---|---|---|
| `GlueJson.Split` | packages/@punchcard/shape-glue/lib/json.ts:44-51 | the generator yields exactly `Records(buffer)`: the non-empty `'\n'`-separated lines in order; each yielded record is non-empty and contains no newline |
| `GlueJson.Pieces` | packages/@punchcard/shape-glue/lib/json.ts:45 | `split('\n')` always returns at least one piece |
| `GlueJson.PiecesInverse` | packages/@punchcard/shape-glue/lib/json.ts:45 | no piece of `split('\n')` contains a newline, and joining the pieces with newlines gives back the input |
| `GlueJson.PiecesUnique` | packages/@punchcard/shape-glue/lib/json.ts:45 | newline-free pieces joined with newlines split back into exactly those pieces, so `Pieces` is the only such decomposition |
| `GlueJson.NonEmpty` | packages/@punchcard/shape-glue/lib/json.ts:47 | the `line.length > 0` filter keeps only non-empty lines, all drawn from the input; the other direction, that every non-empty line is kept in order, is `NonEmptyAppend` with `NonEmptyOfNonEmpty` |
| `GlueJson.NonEmptyAppend` | packages/@punchcard/shape-glue/lib/json.ts:46-50 | filtering a concatenation filters each part and keeps their order |
| `GlueJson.NonEmptyOfNonEmpty` | packages/@punchcard/shape-glue/lib/json.ts:47 | a list of non-empty lines passes the filter unchanged |
| `GlueJson.RecordsWellFormed` | packages/@punchcard/shape-glue/lib/json.ts:45-49 | every record of `split` is non-empty and contains no `'\n'` |
| `GlueJson.RecordsKeepContent` | packages/@punchcard/shape-glue/lib/json.ts:45-50 | order and content are preserved: the records concatenated equal the buffer with its newlines removed |
| `GlueJson.RecordsOfSingleLine` | packages/@punchcard/shape-glue/lib/json.ts:45-49 | a non-empty buffer without a newline splits into exactly one record, the whole buffer |
| `GlueJson.RecordsEmpty` | packages/@punchcard/shape-glue/lib/json.ts:45-49 | a buffer yields no records if and only if it consists only of newlines |
| `GlueJson.Frame` | packages/@punchcard/shape-glue/lib/json.ts:55 | the `map` callback always keeps the record first, and appends the newline buffer exactly when `i < buffers.length` |
| `GlueJson.Framed` | packages/@punchcard/shape-glue/lib/json.ts:55 | the guard `i < buffers.length` holds at every index, so every record, the last included, is mapped to `[buf, newLine]` |
| `GlueJson.Reduce` | packages/@punchcard/shape-glue/lib/json.ts:56 | the left fold `reduce((a, b) => a.concat(b))` over a non-empty array equals front-to-back concatenation |
| `GlueJson.Flatten` | packages/@punchcard/shape-glue/lib/json.ts:54 | `Buffer.concat` gives a buffer as long as all the parts together, empty exactly when every part is |
| `GlueJson.Join` | packages/@punchcard/shape-glue/lib/json.ts:53-57 | fails if and only if the list is empty (reduce with no initial value); otherwise the result is every record followed by a newline, concatenated |
| `GlueJson.JoinLength` | packages/@punchcard/shape-glue/lib/json.ts:54-56 | the joined buffer's length is the sum of the record lengths plus the record count |
| `GlueJson.JoinEndsWithNewLine` | packages/@punchcard/shape-glue/lib/json.ts:55-60 | a joined non-empty list ends with the newline buffer, so the last record is terminated too |
| `GlueJson.TerminatedRoundTrip` | packages/@punchcard/shape-glue/lib/json.ts:44-57 | splitting newline-terminated records that are non-empty and newline-free gives back the records, also for the empty list |
| `GlueJson.RoundTrip` | packages/@punchcard/shape-glue/lib/json.ts:44-57 | `split(join(rs)) == rs` for a non-empty list of non-empty, newline-free records |
| `GlueJson.SplitJoinIdempotent` | packages/@punchcard/shape-glue/lib/json.ts:44-57 | joining the records of a buffer fails exactly when the buffer is all newlines; otherwise splitting the join gives the same records |
| `ShapeJson.WireType` | packages/@punchcard/shape-json/lib/json.ts:7-58 | `Json<T>` with every variant's `[Tag]`: null comes only from Nothing; string only from Binary, String and Timestamp; arrays only from Array and Set; string-keyed dictionaries only from Map; object types only from Class (each also from a Dynamic declaring that kind). The full meaning is given by `ScalarWireTypes`, `CollectionWireTypes` and `ClassProperties` |
| `ShapeJson.MemberProperties` | packages/@punchcard/shape-json/lib/json.ts:53-58 | the two mapped types of a class: one property per member, in order, keyed by its name, typed by its shape's wire type, optional exactly when the member is not required |
| `ShapeJson.ScalarWireTypes` | packages/@punchcard/shape-json/lib/json.ts:15-35 | Binary, Timestamp and String admit exactly strings, Bool and Number exactly booleans and numbers, Nothing only `null`; Dynamic's wire type is its type parameter unchanged |
| `ShapeJson.CollectionWireTypes` | packages/@punchcard/shape-json/lib/json.ts:39-49 | Array and Set share the wire type "array of the element's wire type", so a value conforms if and only if it is an array whose every element does; Map is a string-keyed object whose values all have the value shape's wire type |
| `ShapeJson.SetAdmitsDuplicates` | packages/@punchcard/shape-json/lib/json.ts:42-44 | for every well-formed element shape, an array that repeats an element has the set's wire type, so there is no uniqueness constraint |
| `ShapeJson.ClassProperties` | packages/@punchcard/shape-json/lib/json.ts:53-58 | a class's wire type has exactly one property per member, keyed by its name and typed by its shape's wire type; the property is optional exactly when the member is not required |
| `ShapeJson.ClassConforms` | packages/@punchcard/shape-json/lib/json.ts:53-58 | a value conforms to a class's wire type if and only if it is an object that holds every required member and whose present members have their wire types |
| `ShapeJson.RequiredKeyPresent` | packages/@punchcard/shape-json/lib/json.ts:55 | every conforming object holds each required member's key, with a value of that member's wire type |
| `ShapeJson.OptionalKeyMayBeAbsent` | packages/@punchcard/shape-json/lib/json.ts:57 | removing an optional member's key from a conforming object keeps it conforming |
| `ShapeJson.OptionalKeyNotNullable` | packages/@punchcard/shape-json/lib/json.ts:57 | an optional key does not imply `null`: if the member's wire type rejects `null`, an object with `null` under that key does not conform |
| `ShapeJson.NullableShapes` | packages/@punchcard/shape-json/lib/json.ts:15-58 | only Nothing, and Dynamic with a type that admits `null`, have a wire type that admits `null` |
| `ShapeJson.WireTypeWellFormed` | packages/@punchcard/shape-json/lib/json.ts:53-58 | a shape with unique member names has a wire type with unique object keys |
| `ShapeJson.Inhabited` | packages/@punchcard/shape-json/lib/json.ts:7 | for every well-formed shape whose dynamic type parameters are among the modelled JSON types, `Json<T>` is not the empty type: some JSON value conforms to its wire type |

## Left out

- `JsonMapperVisitor.timestampShape` (shape-glue `json.ts` lines 17-23) is left out. It formats and parses dates with the `moment` library, which is foreign code.
- `JsonDataType.mapper` is left out. It wraps `JSON.parse`, `JSON.stringify`, `Buffer.toString`/`Buffer.from` and `json.mapper`. These are foreign calls, and the shape-json mapper visitor is not part of this model.
- UTF-8 decoding and encoding of buffers are the identity here, so malformed byte sequences are not modelled.
- `format`, `extension` and the singleton `instance` fields are configuration constants with no behaviour.
- `Split`: the source returns a lazy, non-restartable iterable. The model returns the records as one sequence, in the same order.
- `packages/@punchcard/shape-jsonschema/lib/json-schema.ts` is left out. It only delegates to a schema visitor, and that visitor is not part of this model.
- The symbol tags and the `declare module` augmentation are TypeScript type-level plumbing. They are replaced by the `Shape` datatype and the `WireType` function.
- `ShapeJson.Dynamic` carries its type parameter as a JSON type drawn from a fixed set (unknown, null, boolean, number, string, arrays, string-keyed dictionaries, object types). `DynamicShape<T>` accepts any TypeScript type, and several with a JSON meaning are not represented: unions such as `string | null`, literal types, tuples, and `never`. With `T = never` the wire type is empty, so `Inhabited` covers only dynamic parameters from the modelled set. Types with no JSON form (functions, `Date`, `undefined`) are not represented either. `unknown` and `any` are both `TUnknown`.
- `ShapeJson.Conforms` reads an object type as admitting JSON objects only. TypeScript's structural typing also accepts primitives and arrays whose members fit: `{}`, the wire type of a class with no members, accepts any non-null value, and `{ length: number }` accepts every string and array. The `null` rules, and so `OptionalKeyNotNullable`, assume `strictNullChecks`.
- `ShapeJson.JsonValue` numbers are unbounded reals. IEEE-754 doubles, `NaN` and infinities are not modelled.
