/** The schema validator of schema.py: a recursive structural matcher of
    decoded JSON values against a closed schema algebra. */
module Schemas {
  import opened Wrappers
  import opened Json
  import opened Errors

  /** One entry of a dictionary schema, in the dictionary's iteration order. */
  datatype Field = Field(key: string, schema: Schema)

  /** The schema forms `is_valid` recognises, one constructor per branch:
      `typing.Any`, a bare type, the `Optional`/`Union`/`Intersection`/`Object`/
      `Array` helpers, `list[T]`, `dict[K, V]`, a dictionary of field schemas,
      and anything else (`Unknown`). */
  datatype Schema =
    | Any
    | Prim(t: PyType)
    | Optional(base: Schema)
    | Union(bases: seq<Schema>)
    | Intersection(bases: seq<Schema>)
    | ObjectOf(valueSchema: Schema)
    | ArrayOf(itemSchema: Schema)
    | ListOf(itemSchema: Schema)
    | DictOf(keySchema: Schema, valueSchema: Schema)
    | Shape(fields: seq<Field>)
    | Unknown

  /** `is_valid(body, schema)`. Whatever the nesting, a dictionary form only
      accepts dictionaries, a list form only lists, `dict[K, V]` only with
      `str` keys, and an unrecognised schema nothing. */
  function IsValid(body: Value, schema: Schema): (r: bool)
    ensures r && (schema.Shape? || schema.ObjectOf? || schema.DictOf?) ==> body.Obj?
    ensures r && (schema.ArrayOf? || schema.ListOf?) ==> body.Arr?
    ensures r && schema.DictOf? ==> schema.keySchema == Prim(StrType)
    ensures r && schema.Prim? ==> TypeOf(body) == schema.t
    ensures schema.Unknown? ==> !r
    decreases schema, 0
  {
    match schema
    case Any => true
    case Prim(t) => TypeOf(body) == t
    case Shape(fields) => body.Obj? && ShapeValid(body.members, fields)
    case Optional(base) => IsValid(body, base)
    case Union(bases) => SomeValid(body, bases)
    case Intersection(bases) => EveryValid(body, bases)
    // The source iterates `body.values` without calling it, which raises
    // TypeError on every dictionary; modelled here as its evident intent,
    // every value of the dictionary matching the value schema.
    case ObjectOf(v) => body.Obj? && ValuesValid(body.members, v)
    case ArrayOf(v) => body.Arr? && ItemsValid(body.items, v)
    case ListOf(v) => body.Arr? && ItemsValid(body.items, v)
    // The source compares `key+type` with `str`; `key` is the local bound by
    // the dictionary-schema loop and has no value on this path, so the line
    // raises UnboundLocalError. Modelled here as its evident intent, comparing
    // the declared key type with `str`.
    case DictOf(k, v) => body.Obj? && k == Prim(StrType) && ValuesValid(body.members, v)
    case Unknown => false
  }

  /** The `Union` helper's loop: true at the first member that accepts. */
  function SomeValid(body: Value, bases: seq<Schema>): bool
    decreases bases
  {
    if bases == [] then false
    else if IsValid(body, bases[0]) then true
    else SomeValid(body, bases[1..])
  }

  /** The `Intersection` helper's loop: false at the first member that rejects. */
  function EveryValid(body: Value, bases: seq<Schema>): bool
    decreases bases
  {
    if bases == [] then true
    else if !IsValid(body, bases[0]) then false
    else EveryValid(body, bases[1..])
  }

  /** The element loop shared by the `Array` helper and the `list[T]` branch. */
  function ItemsValid(items: seq<Value>, s: Schema): bool
    decreases s, 1, |items|
  {
    if items == [] then true
    else if !IsValid(items[0], s) then false
    else ItemsValid(items[1..], s)
  }

  /** Every value of a dictionary matches `s` (the order of the values does
      not matter to the result, since validation has no effects). */
  predicate ValuesValid(m: map<string, Value>, s: Schema)
    decreases s, 1
  {
    forall k :: k in m ==> IsValid(m[k], s)
  }

  /** The dictionary-schema loop as written: it stops at the first schema key
      missing from the body and answers whether that key's schema is an
      `Optional`, without looking at the keys after it. So it accepts a body
      with a missing key only when the first one missing is optional. */
  function ShapeValid(m: map<string, Value>, fields: seq<Field>): (r: bool)
    ensures r && FirstMissing(m, fields) < |fields| ==>
      fields[FirstMissing(m, fields)].schema.Optional?
    decreases fields
  {
    if fields == [] then true
    else if fields[0].key !in m then fields[0].schema.Optional?
    else if !IsValid(m[fields[0].key], fields[0].schema) then false
    else ShapeValid(m, fields[1..])
  }

  /** `ensure_valid`: raises `InvalidResponseError` exactly when the body is
      not valid, and otherwise returns with no effect. */
  function EnsureValid(body: Value, schema: Schema): (r: Outcome<Error>)
    ensures r.Pass? <==> IsValid(body, schema)
    ensures r.Fail? ==> r.error == InvalidResponse
  {
    if IsValid(body, schema) then Pass else Fail(InvalidResponse)
  }

  /** The index of the first schema key absent from the body, or the number of
      fields when every key is present. */
  function FirstMissing(m: map<string, Value>, fields: seq<Field>): (j: nat)
    ensures j <= |fields|
    ensures forall i :: 0 <= i < j ==> fields[i].key in m
    ensures j < |fields| ==> fields[j].key !in m
    decreases fields
  {
    if fields == [] then 0
    else if fields[0].key !in m then 0
    else 1 + FirstMissing(m, fields[1..])
  }

  /** What the comment on the dictionary branch describes: every schema key is
      either present with a matching value, or absent and marked `Optional`. */
  predicate ShapeMatchesComment(m: map<string, Value>, fields: seq<Field>)
  {
    forall i :: 0 <= i < |fields| ==>
      if fields[i].key in m then IsValid(m[fields[i].key], fields[i].schema)
      else fields[i].schema.Optional?
  }

  // ---------------------------------------------------------------------
  // Wildcard, fallback, bare types, Optional
  // ---------------------------------------------------------------------

  /** `typing.Any` accepts every body; an unrecognised schema rejects every body. */
  lemma WildcardAndFallback(body: Value)
    ensures IsValid(body, Any)
    ensures !IsValid(body, Unknown)
  {
  }

  /** A bare type accepts exactly the bodies whose runtime type is that type,
      with no widening: `True` is not an `int`, `1` is not a `float`, and a
      type no JSON value has accepts nothing. */
  lemma BareTypeIsExact(body: Value, t: PyType)
    ensures IsValid(body, Prim(t)) <==> TypeOf(body) == t
    ensures body.Bool? ==> !IsValid(body, Prim(IntType))
    ensures body.Int? ==> !IsValid(body, Prim(FloatType))
    ensures t.OtherType? ==> !IsValid(body, Prim(t))
  {
  }

  /** A present value is checked against `Optional(s)` exactly as against `s`. */
  lemma OptionalIsTransparent(body: Value, s: Schema)
    ensures IsValid(body, Optional(s)) == IsValid(body, s)
  {
  }

  // ---------------------------------------------------------------------
  // Union and Intersection
  // ---------------------------------------------------------------------

  lemma {:induction false} SomeValidIffExists(body: Value, bases: seq<Schema>)
    ensures SomeValid(body, bases) <==> exists i :: 0 <= i < |bases| && IsValid(body, bases[i])
    decreases |bases|
  {
    if bases != [] {
      SomeValidIffExists(body, bases[1..]);
      if SomeValid(body, bases[1..]) {
        var i :| 0 <= i < |bases[1..]| && IsValid(body, bases[1..][i]);
        assert IsValid(body, bases[i + 1]);
      }
      if exists i :: 0 <= i < |bases| && IsValid(body, bases[i]) {
        var i :| 0 <= i < |bases| && IsValid(body, bases[i]);
        if i > 0 {
          assert IsValid(body, bases[1..][i - 1]);
        }
      }
    }
  }

  /** `Union` accepts iff some member accepts; an empty `Union` rejects everything. */
  lemma {:induction false} UnionAcceptsIffSomeMember(body: Value, bases: seq<Schema>)
    ensures IsValid(body, Union(bases)) <==> exists i :: 0 <= i < |bases| && IsValid(body, bases[i])
    ensures bases == [] ==> !IsValid(body, Union(bases))
  {
    SomeValidIffExists(body, bases);
  }

  lemma {:induction false} EveryValidIffAll(body: Value, bases: seq<Schema>)
    ensures EveryValid(body, bases) <==> forall i :: 0 <= i < |bases| ==> IsValid(body, bases[i])
    decreases |bases|
  {
    if bases != [] {
      EveryValidIffAll(body, bases[1..]);
      if EveryValid(body, bases) {
        forall i | 0 <= i < |bases|
          ensures IsValid(body, bases[i])
        {
          if i > 0 {
            assert bases[i] == bases[1..][i - 1];
          }
        }
      }
      if forall i :: 0 <= i < |bases| ==> IsValid(body, bases[i]) {
        forall i | 0 <= i < |bases[1..]|
          ensures IsValid(body, bases[1..][i])
        {
          assert bases[1..][i] == bases[i + 1];
        }
      }
    }
  }

  /** `Intersection` accepts iff every member accepts; an empty `Intersection`
      accepts everything. */
  lemma {:induction false} IntersectionAcceptsIffEveryMember(body: Value, bases: seq<Schema>)
    ensures IsValid(body, Intersection(bases)) <==> forall i :: 0 <= i < |bases| ==> IsValid(body, bases[i])
    ensures bases == [] ==> IsValid(body, Intersection(bases))
  {
    EveryValidIffAll(body, bases);
  }

  // ---------------------------------------------------------------------
  // Arrays and dictionaries of uniform values
  // ---------------------------------------------------------------------

  lemma {:induction false} ItemsValidIffAll(items: seq<Value>, s: Schema)
    ensures ItemsValid(items, s) <==> forall i :: 0 <= i < |items| ==> IsValid(items[i], s)
    decreases |items|
  {
    if items != [] {
      ItemsValidIffAll(items[1..], s);
      if ItemsValid(items, s) {
        forall i | 0 <= i < |items|
          ensures IsValid(items[i], s)
        {
          if i > 0 {
            assert items[i] == items[1..][i - 1];
          }
        }
      }
      if forall i :: 0 <= i < |items| ==> IsValid(items[i], s) {
        forall i | 0 <= i < |items[1..]|
          ensures IsValid(items[1..][i], s)
        {
          assert items[1..][i] == items[i + 1];
        }
      }
    }
  }

  /** `Array(s)` accepts exactly the lists whose every element matches `s`;
      in particular every empty list. */
  lemma {:induction false} ArrayAcceptsIffEveryItem(body: Value, s: Schema)
    ensures IsValid(body, ArrayOf(s)) <==> body.Arr? && forall i :: 0 <= i < |body.items| ==> IsValid(body.items[i], s)
    ensures body == Arr([]) ==> IsValid(body, ArrayOf(s))
  {
    if body.Arr? {
      ItemsValidIffAll(body.items, s);
    }
  }

  /** `list[s]` accepts exactly the lists whose every element matches `s`,
      the same bodies as `Array(s)`. */
  lemma {:induction false} ListAcceptsIffEveryItem(body: Value, s: Schema)
    ensures IsValid(body, ListOf(s)) <==> body.Arr? && forall i :: 0 <= i < |body.items| ==> IsValid(body.items[i], s)
    ensures IsValid(body, ListOf(s)) == IsValid(body, ArrayOf(s))
  {
    if body.Arr? {
      ItemsValidIffAll(body.items, s);
    }
  }

  /** `Object(s)` accepts exactly the dictionaries whose every value matches `s`. */
  lemma ObjectAcceptsIffEveryValue(body: Value, s: Schema)
    ensures IsValid(body, ObjectOf(s)) <==> body.Obj? && forall key :: key in body.members ==> IsValid(body.members[key], s)
  {
  }

  /** `dict[str, s]` accepts the same bodies as `Object(s)`; `dict[K, s]`
      with a key type other than `str` rejects everything. */
  lemma DictAcceptsOnlyStringKeys(body: Value, k: Schema, s: Schema)
    ensures IsValid(body, DictOf(Prim(StrType), s)) <==> body.Obj? && forall key :: key in body.members ==> IsValid(body.members[key], s)
    ensures k != Prim(StrType) ==> !IsValid(body, DictOf(k, s))
  {
  }

  /** In a dictionary that `Object(s)` accepts, replacing one value keeps it
      accepted exactly when the new value matches `s`. */
  lemma ObjectUpdate(m: map<string, Value>, key: string, v: Value, s: Schema)
    requires IsValid(Obj(m), ObjectOf(s))
    ensures IsValid(Obj(m[key := v]), ObjectOf(s)) <==> IsValid(v, s)
  {
    if !IsValid(v, s) {
      assert key in m[key := v];
    }
  }

  // ---------------------------------------------------------------------
  // Dictionary schemas
  // ---------------------------------------------------------------------

  /** A dictionary schema rejects every body that is not a dictionary. */
  lemma ShapeRejectsNonObject(body: Value, fields: seq<Field>)
    requires !body.Obj?
    ensures !IsValid(body, Shape(fields))
  {
  }

  lemma {:induction false} ShapeValidAtFirstMissing(m: map<string, Value>, fields: seq<Field>)
    ensures var j := FirstMissing(m, fields);
      ShapeValid(m, fields) <==>
        (forall i :: 0 <= i < j ==> IsValid(m[fields[i].key], fields[i].schema))
        && (j < |fields| ==> fields[j].schema.Optional?)
    decreases |fields|
  {
    if fields != [] && fields[0].key in m {
      var rest := fields[1..];
      ShapeValidAtFirstMissing(m, rest);
      var j := FirstMissing(m, fields);
      assert j == 1 + FirstMissing(m, rest);
      forall i | 0 <= i < j - 1
        ensures rest[i] == fields[i + 1]
      {
      }
      if j < |fields| {
        assert fields[j] == rest[j - 1];
      }
      if (forall i :: 0 <= i < j ==> IsValid(m[fields[i].key], fields[i].schema)) {
        assert forall i :: 0 <= i < j - 1 ==> IsValid(m[rest[i].key], rest[i].schema);
      }
    }
  }

  /** The dictionary schema as written: the body must be a dictionary; the
      keys are checked in order up to the first schema key missing from the
      body, each present value must match, and at that first missing key the
      answer is whether its schema is `Optional`, whatever follows it. */
  lemma {:induction false} ShapeDecidedAtFirstMissingKey(body: Value, fields: seq<Field>)
    requires body.Obj?
    ensures var j := FirstMissing(body.members, fields);
      IsValid(body, Shape(fields)) <==>
        (forall i :: 0 <= i < j ==> IsValid(body.members[fields[i].key], fields[i].schema))
        && (j < |fields| ==> fields[j].schema.Optional?)
  {
    ShapeValidAtFirstMissing(body.members, fields);
  }

  /** When every schema key is present, a dictionary schema accepts iff each
      value matches its key's schema. */
  lemma {:induction false} ShapeWithAllKeysPresent(m: map<string, Value>, fields: seq<Field>)
    requires forall i :: 0 <= i < |fields| ==> fields[i].key in m
    ensures IsValid(Obj(m), Shape(fields)) <==>
      forall i :: 0 <= i < |fields| ==> IsValid(m[fields[i].key], fields[i].schema)
  {
    ShapeValidAtFirstMissing(m, fields);
  }

  /** Body keys that the schema does not mention make no difference: two
      bodies that agree on the schema's keys are accepted alike. */
  lemma {:induction false} ShapeIgnoresOtherKeys(m: map<string, Value>, m': map<string, Value>, fields: seq<Field>)
    requires forall i :: 0 <= i < |fields| ==> (fields[i].key in m <==> fields[i].key in m')
    requires forall i :: 0 <= i < |fields| && fields[i].key in m ==> m[fields[i].key] == m'[fields[i].key]
    ensures IsValid(Obj(m), Shape(fields)) == IsValid(Obj(m'), Shape(fields))
    decreases |fields|
  {
    if fields != [] {
      assert fields[0].key in m <==> fields[0].key in m';
      var rest := fields[1..];
      forall i | 0 <= i < |rest|
        ensures rest[i] == fields[i + 1]
      {
      }
      ShapeIgnoresOtherKeys(m, m', rest);
    }
  }

  /** Whatever the comment promises, the loop as written also accepts:
      `ShapeMatchesComment` is at least as strict as the dictionary branch. */
  lemma {:induction false} CommentedShapeImpliesAsWritten(m: map<string, Value>, fields: seq<Field>)
    requires ShapeMatchesComment(m, fields)
    ensures IsValid(Obj(m), Shape(fields))
  {
    ShapeValidAtFirstMissing(m, fields);
  }

  /** The converse fails: with `{"a": Optional(int), "b": int}` the empty
      dictionary is accepted, although the required key "b" is missing,
      because the loop returns at "a". */
  lemma ShapeSkipsKeysAfterFirstMissing()
    ensures var fields := [Field("a", Optional(Prim(IntType))), Field("b", Prim(IntType))];
      IsValid(Obj(map[]), Shape(fields)) && !ShapeMatchesComment(map[], fields)
  {
    var fields := [Field("a", Optional(Prim(IntType))), Field("b", Prim(IntType))];
    var empty: map<string, Value> := map[];
    assert fields[1].key !in empty;
  }

  /** Worked examples: an absent optional key, an absent required key, and
      the dictionary schema of the `is_valid` docstring. */
  lemma ShapeExamples()
    ensures IsValid(Obj(map[]), Shape([Field("a", Optional(Prim(IntType)))]))
    ensures !IsValid(Obj(map[]), Shape([Field("a", Prim(IntType))]))
    ensures IsValid(Obj(map["foo" := Int(1), "bar" := Bool(true)]),
                    Shape([Field("foo", Prim(IntType)), Field("bar", Prim(BoolType))]))
  {
  }

  /** Worked examples: arrays of numbers. */
  lemma ArrayExamples()
    ensures !IsValid(Arr([Int(1), Int(2), Str("x")]), ArrayOf(Prim(IntType)))
    ensures IsValid(Arr([Int(1), Int(2), Int(3)]), ArrayOf(Prim(IntType)))
  {
  }

  /** Worked examples: a dictionary of numbers, and the same with one value
      replaced by a string. */
  lemma ObjectExamples()
    ensures IsValid(Obj(map["k1" := Int(1), "k2" := Int(2)]), ObjectOf(Prim(IntType)))
    ensures !IsValid(Obj(map["k1" := Int(1), "k2" := Str("2")]), ObjectOf(Prim(IntType)))
  {
    var bad := map["k1" := Int(1), "k2" := Str("2")];
    assert "k2" in bad && !IsValid(bad["k2"], Prim(IntType));
  }

  /** Worked examples: `Union` and `Intersection` of bare types. */
  lemma UnionIntersectionExamples()
    ensures IsValid(Bool(true), Union([Prim(IntType), Prim(BoolType)]))
    ensures IsValid(Int(5), Intersection([Prim(IntType), Any]))
    ensures !IsValid(Int(5), Intersection([Prim(IntType), Prim(StrType)]))
  {
  }
}
