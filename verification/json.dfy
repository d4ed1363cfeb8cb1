/** Decoded JSON values, as the Python runtime sees them after `json.loads`. */
module Json {
  import opened Wrappers

  /** The runtime type of a value, as `type(x)` reports it. `OtherType` stands
      for every Python type that no decoded JSON value can have (`bytes`, `tuple`, ...). */
  datatype PyType =
    | NoneType | BoolType | IntType | FloatType | StrType | ListType | DictType
    | OtherType(name: string)

  /** A decoded JSON value. `bool` and `int` are distinct kinds, as in Python,
      where `type(True) == bool`; floats are an opaque literal without arithmetic. */
  datatype Value =
    | Null
    | Bool(b: bool)
    | Int(i: int)
    | Float(literal: string)
    | Str(s: string)
    | Arr(items: seq<Value>)
    | Obj(members: map<string, Value>)

  /** `type(v)`: exactly one JSON kind per value, never a type outside JSON. */
  function TypeOf(v: Value): (t: PyType)
    ensures !t.OtherType?
    ensures t == BoolType <==> v.Bool?
    ensures t == IntType <==> v.Int?
    ensures t == FloatType <==> v.Float?
  {
    match v
    case Null => NoneType
    case Bool(_) => BoolType
    case Int(_) => IntType
    case Float(_) => FloatType
    case Str(_) => StrType
    case Arr(_) => ListType
    case Obj(_) => DictType
  }

  /** Whether `needle` occurs as a contiguous run inside `hay`. */
  predicate IsSubstring(needle: string, hay: string)
    decreases |hay|
  {
    needle <= hay || (|hay| > 0 && IsSubstring(needle, hay[1..]))
  }

  /** Python's `key in container` for a string key and a decoded value:
      dictionary membership, list element equality, or substring search.
      `None` stands for the `TypeError` raised for null, booleans and numbers. */
  function PyIn(key: string, container: Value): (r: Option<bool>)
    ensures r.Some? <==> container.Obj? || container.Arr? || container.Str?
    ensures container.Obj? ==> r == Some(key in container.members)
  {
    match container
    case Obj(m) => Some(key in m)
    case Arr(items) => Some(Str(key) in items)
    case Str(s) => Some(IsSubstring(key, s))
    case _ => None
  }

  /** `needle` occurs in `hay` starting at offset `i`. */
  predicate OccursAt(needle: string, hay: string, i: int) {
    0 <= i && i + |needle| <= |hay| && hay[i..i + |needle|] == needle
  }

  /** The recursive substring search agrees with the direct definition: the
      needle occurs at some offset of the haystack. */
  lemma {:induction false} SubstringIffOccurs(needle: string, hay: string)
    ensures IsSubstring(needle, hay) <==> exists i :: OccursAt(needle, hay, i)
    decreases |hay|
  {
    if needle <= hay {
      assert OccursAt(needle, hay, 0);
    } else if |hay| > 0 {
      // no match at offset 0, so every match lies in the tail, one place on
      SubstringIffOccurs(needle, hay[1..]);
      if exists i :: OccursAt(needle, hay, i) {
        var i :| OccursAt(needle, hay, i);
        assert i != 0;
        assert OccursAt(needle, hay[1..], i - 1);
      }
      if exists i :: OccursAt(needle, hay[1..], i) {
        var i :| OccursAt(needle, hay[1..], i);
        assert hay[1..][i..i + |needle|] == hay[i + 1..i + 1 + |needle|];
        assert OccursAt(needle, hay, i + 1);
      }
    } else {
      assert forall i :: OccursAt(needle, hay, i) ==> i == 0 && needle <= hay;
    }
  }

  /** On a list, `in` looks for an element equal to the key string; on a
      string, for the key as a contiguous substring. */
  lemma PyInSearchesContents(key: string, container: Value)
    ensures container.Arr? ==>
      (PyIn(key, container) == Some(true) <==>
        exists i :: 0 <= i < |container.items| && container.items[i] == Str(key))
    ensures container.Str? ==>
      (PyIn(key, container) == Some(true) <==> exists i :: OccursAt(key, container.s, i))
  {
    if container.Str? {
      SubstringIffOccurs(key, container.s);
    }
  }
}
