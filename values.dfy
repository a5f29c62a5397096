/**
 * Decoded JSON/TOML values, as the Python objects `json.load` and the TOML loader hand
 * to the daemon. A dictionary keeps its entries in insertion order, as a Python dict
 * does. The type itself admits a repeated key, which no decoded object has: `Get` then
 * takes the first entry, and `GetDistinct` states the lookup for objects with distinct keys.
 */
module Values {
  import opened Wrappers
  import Text

  datatype Value =
    | Null
    | Bool(b: bool)
    | Int(i: int)
    | Real(r: real)
    | Str(s: string)
    | List(items: seq<Value>)
    | Dict(entries: seq<(string, Value)>)

  /** Python truthiness (`bool(v)`). */
  predicate Truthy(v: Value) {
    match v
    case Null => false
    case Bool(b) => b
    case Int(i) => i != 0
    case Real(r) => r != 0.0
    case Str(s) => s != ""
    case List(items) => |items| > 0
    case Dict(entries) => |entries| > 0
  }

  /** `isinstance(v, (int, float))`, with the value `float(v)` would give. A Python bool is
      an int, so `True` reads as 1.0 and `False` as 0.0. */
  function AsNumber(v: Value): (r: Option<real>)
    ensures r.Some? <==> (v.Int? || v.Real? || v.Bool?)
  {
    match v
    case Int(i) => Some(i as real)
    case Real(x) => Some(x)
    case Bool(b) => Some(if b then 1.0 else 0.0)
    case _ => None
  }

  predicate HasKey(entries: seq<(string, Value)>, key: string) {
    exists i :: 0 <= i < |entries| && entries[i].0 == key
  }

  /** `d.get(key)` on a dictionary's entries. */
  function Get(entries: seq<(string, Value)>, key: string): (r: Option<Value>)
    ensures r.Some? <==> HasKey(entries, key)
    ensures r.Some? ==> exists i :: 0 <= i < |entries| && entries[i] == (key, r.value)
  {
    if |entries| == 0 then None
    else if entries[0].0 == key then Some(entries[0].1)
    else
      var r := Get(entries[1..], key);
      assert HasKey(entries, key) ==> HasKey(entries[1..], key) by {
        if HasKey(entries, key) {
          var i :| 0 <= i < |entries| && entries[i].0 == key;
          assert entries[1..][i - 1].0 == key;
        }
      }
      assert r.Some? ==> exists i :: 0 <= i < |entries| && entries[i] == (key, r.value) by {
        if r.Some? {
          var i :| 0 <= i < |entries[1..]| && entries[1..][i] == (key, r.value);
          assert entries[i + 1] == (key, r.value);
        }
      }
      r
  }

  /** The keys of a dictionary's entries are pairwise different, as in any Python dict. */
  predicate DistinctKeys(entries: seq<(string, Value)>) {
    forall i, j :: 0 <= i < j < |entries| ==> entries[i].0 != entries[j].0
  }

  /** With distinct keys, `obj.get(key)` is the value stored under `key`, wherever it sits. */
  lemma {:induction false} GetDistinct(entries: seq<(string, Value)>, i: int)
    requires DistinctKeys(entries) && 0 <= i < |entries|
    ensures Get(entries, entries[i].0) == Some(entries[i].1)
  {
    if i > 0 {
      assert entries[1..][i - 1] == entries[i];
      GetDistinct(entries[1..], i - 1);
    }
  }

  /** Python `key in obj` for a decoded value: a key of a dict, an element of a list, a
      substring of a string; any other type raises `TypeError`, modelled as `None`. */
  function PyIn(key: string, v: Value): Option<bool> {
    match v
    case Dict(entries) => Some(HasKey(entries, key))
    case List(items) => Some(Str(key) in items)
    case Str(s) => Some(Text.Contains(s, key))
    case _ => None
  }
}
