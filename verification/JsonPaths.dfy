/** Places in a JSON document, read off the document itself. */
module JsonPaths {
  import opened Wrappers
  import opened Json

  /** The value at a key of an object. */
  function Inside(value: Option<Value>, key: string): Option<Value> {
    match value
    case Some(Object(fields)) => if key in fields then Some(fields[key]) else None
    case _ => None
  }

  /** The item of an array. */
  function Item(value: Option<Value>, index: nat): Option<Value> {
    match value
    case Some(Array(items)) => if index < |items| then Some(items[index]) else None
    case _ => None
  }

  /** The items of an array, none of anything else. */
  function ItemsIn(value: Option<Value>): seq<Value> {
    match value
    case Some(Array(items)) => items
    case _ => []
  }

  /** The value at the end of a path of keys. */
  function Follow(value: Option<Value>, path: seq<string>): Option<Value>
    decreases path
  {
    if path == [] then value else Follow(Inside(value, path[0]), path[1..])
  }

  lemma {:induction false} NothingFollows(path: seq<string>)
    ensures Follow(None, path) == None
  {
    if path != [] {
      NothingFollows(path[1..]);
    }
  }

  lemma ShortPaths(value: Option<Value>, a: string, b: string, c: string)
    ensures Follow(value, []) == value
    ensures Follow(value, [a]) == Inside(value, a)
    ensures Follow(value, [a, b]) == Inside(Inside(value, a), b)
    ensures Follow(value, [a, b, c]) == Inside(Inside(Inside(value, a), b), c)
  {
    var within := Inside(value, a);
    assert [a][1..] == [] && [a, b][1..] == [b] && [a, b, c][1..] == [b, c];
    assert [b][1..] == [] && [b, c][1..] == [c] && [c][1..] == [];
    assert Follow(within, [b]) == Follow(Inside(within, b), []) == Inside(within, b);
    assert Follow(within, [b, c]) == Follow(Inside(within, b), [c]);
    assert Follow(Inside(within, b), [c]) == Follow(Inside(Inside(within, b), c), []);
  }
}
