/** A JSON document as `json.load` returns it: `None`, `bool`, `int`, `str`,
    `list` and `dict`, the last with its keys in document order. A `JObj`
    stands for a `dict` only when its keys are distinct (`DistinctKeys`):
    where a document repeats a key, `json.load` keeps the last value, and
    such a `JObj` is that `dict` with the earlier entries dropped. */
module Json {
  import opened Base

  datatype Json =
    | JNull
    | JBool(b: bool)
    | JInt(i: int)
    | JStr(s: string)
    | JArr(items: seq<Json>)
    | JObj(fields: seq<(string, Json)>)

  /** Python's `bool(value)`. */
  predicate Truthy(j: Json) {
    match j
    case JNull => false
    case JBool(b) => b
    case JInt(i) => i != 0
    case JStr(s) => s != ""
    case JArr(items) => items != []
    case JObj(fields) => fields != []
  }

  /** A `dict` never holds a key twice. */
  predicate DistinctKeys(fields: seq<(string, Json)>) {
    forall i, j :: 0 <= i < j < |fields| ==> fields[i].0 != fields[j].0
  }

  /** `d.get(key)` on a `dict`. */
  function Get(fields: seq<(string, Json)>, key: string): Option<Json> {
    if |fields| == 0 then None
    else if fields[0].0 == key then Some(fields[0].1)
    else Get(fields[1..], key)
  }

  /** `d.get(key)` finds the entry for `key`, and `None` exactly when no
      entry has that key. */
  lemma {:induction false} GetFinds(fields: seq<(string, Json)>, key: string)
    ensures Get(fields, key).None? <==> forall i :: 0 <= i < |fields| ==> fields[i].0 != key
    ensures Get(fields, key).Some? ==> (key, Get(fields, key).value) in fields
    decreases |fields|
  {
    if |fields| > 0 && fields[0].0 != key {
      GetFinds(fields[1..], key);
      assert forall i :: 1 <= i < |fields| ==> fields[i] == fields[1..][i - 1];
    }
  }

  /** `d.get(key, default)`. */
  function GetOr(fields: seq<(string, Json)>, key: string, default: Json): Json {
    match Get(fields, key)
    case None => default
    case Some(v) => v
  }

  /** `dict.pop(key)` leaves the `dict` without `key`, the order of the
      rest kept. */
  function Remove(fields: seq<(string, Json)>, key: string): seq<(string, Json)> {
    if |fields| == 0 then []
    else if fields[0].0 == key then Remove(fields[1..], key)
    else [fields[0]] + Remove(fields[1..], key)
  }

  /** After `pop(gone)` there is no `gone`; every other key is looked up as
      before. */
  lemma {:induction false} GetRemove(fields: seq<(string, Json)>, gone: string, key: string)
    ensures Get(Remove(fields, gone), key) == if key == gone then None else Get(fields, key)
    decreases |fields|
  {
    if |fields| > 0 {
      GetRemove(fields[1..], gone, key);
    }
  }

  /** Every key of the `dict` is in `allowed`. */
  predicate KeysWithin(fields: seq<(string, Json)>, allowed: set<string>) {
    forall i :: 0 <= i < |fields| ==> fields[i].0 in allowed
  }

  /** The first key that is not in `allowed`, in `dict` order. */
  function FirstKeyOutside(fields: seq<(string, Json)>, allowed: set<string>): (r: Option<string>)
    ensures r.None? <==> KeysWithin(fields, allowed)
    ensures r.Some? ==> r.value !in allowed && Get(fields, r.value).Some?
  {
    if |fields| == 0 then None
    else if fields[0].0 !in allowed then Some(fields[0].0)
    else
      var r := FirstKeyOutside(fields[1..], allowed);
      assert forall i :: 1 <= i < |fields| ==> fields[i] == fields[1..][i - 1];
      r
  }

  lemma KeysWithinCons(entry: (string, Json), rest: seq<(string, Json)>, allowed: set<string>)
    ensures KeysWithin([entry] + rest, allowed) <==> entry.0 in allowed && KeysWithin(rest, allowed)
  {
    var all := [entry] + rest;
    assert all[0] == entry;
    assert forall i :: 0 <= i < |rest| ==> all[i + 1] == rest[i];
    if entry.0 in allowed && KeysWithin(rest, allowed) {
      forall i | 0 <= i < |rest| + 1
        ensures ([entry] + rest)[i].0 in allowed
      {
        if i > 0 {
          assert ([entry] + rest)[i] == rest[i - 1];
        }
      }
    }
  }

  /** The keys left after `pop(gone)` are within `allowed` exactly when all
      keys are within `allowed` or are `gone`. */
  lemma {:induction false} KeysWithinRemove(fields: seq<(string, Json)>, gone: string, allowed: set<string>)
    ensures KeysWithin(Remove(fields, gone), allowed) <==> KeysWithin(fields, allowed + {gone})
    decreases |fields|
  {
    if |fields| > 0 {
      KeysWithinRemove(fields[1..], gone, allowed);
      assert fields == [fields[0]] + fields[1..];
      KeysWithinCons(fields[0], fields[1..], allowed + {gone});
      if fields[0].0 != gone {
        KeysWithinCons(fields[0], Remove(fields[1..], gone), allowed);
      }
    }
  }

  /** What `for x in value` iterates: the items of a `list`, the keys of a
      `dict`, the one-character strings of a `str`; anything else raises
      `TypeError` (`None`). */
  function Iterate(j: Json): (r: Option<seq<Json>>)
    ensures r.Some? <==> j.JArr? || j.JObj? || j.JStr?
  {
    match j
    case JArr(items) => Some(items)
    case JObj(fields) => Some(seq(|fields|, i requires 0 <= i < |fields| => JStr(fields[i].0)))
    case JStr(s) => Some(seq(|s|, i requires 0 <= i < |s| => JStr([s[i]])))
    case _ => None
  }
}
