/** The `System.Text.Json` nodes the proxy handles, as a tagged value, and the ordered
    property list of a `JsonObject`. */
module Json {
  import opened Wrappers

  /** A JSON value. C# `null` and JSON `null` are the same node (`null`), so both are JNull.
      A number keeps its JSON text, which is what .NET writes back. */
  datatype JsonValue =
    | JNull
    | JBool(b: bool)
    | JNumber(raw: string)
    | JString(s: string)
    | JArray(items: seq<JsonValue>)
    | JObject(members: seq<(string, JsonValue)>)

  /** A `JsonValue` node as opposed to a `JsonObject` or `JsonArray` node. */
  predicate IsScalar(v: JsonValue) { !v.JArray? && !v.JObject? }

  /** The properties of a `JsonObject` in insertion order. */
  type Record = seq<(string, JsonValue)>

  function Keys(r: Record): (ks: seq<string>)
    ensures |ks| == |r|
  {
    if r == [] then [] else [r[0].0] + Keys(r[1..])
  }

  lemma {:induction false} KeysAt(r: Record, i: int)
    requires 0 <= i < |r|
    ensures Keys(r)[i] == r[i].0
  {
    if i > 0 { KeysAt(r[1..], i - 1); }
  }

  /** No key occurs twice, as in every `JsonObject`. */
  predicate DistinctKeys(r: Record)
  {
    r == [] || (r[0].0 !in Keys(r[1..]) && DistinctKeys(r[1..]))
  }

  /** The value of the first property named `key`. */
  function Lookup(r: Record, key: string): (v: Option<JsonValue>)
    ensures v.Some? <==> key in Keys(r)
    ensures v.Some? ==> exists i :: 0 <= i < |r| && r[i] == (key, v.value)
  {
    if r == [] then None
    else if r[0].0 == key then Some(r[0].1)
    else
      var rest := Lookup(r[1..], key);
      if rest.Some? then
        var i :| 0 <= i < |r[1..]| && r[1..][i] == (key, rest.value);
        assert r[i + 1] == (key, rest.value);
        rest
      else rest
  }

  /** `record[key] = value` on a `JsonObject`: an existing property keeps its position and
      takes the new value; a new property goes at the end. */
  function Set(r: Record, key: string, v: JsonValue): (r': Record)
    ensures key in Keys(r) ==> Keys(r') == Keys(r)
    ensures key !in Keys(r) ==> r' == r + [(key, v)]
  {
    if r == [] then [(key, v)]
    else if r[0].0 == key then [(key, v)] + r[1..]
    else
      [r[0]] + Set(r[1..], key, v)
  }

  /** After `record[key] = value` the keys are the old keys and `key`. */
  lemma {:induction false} SetKeys(r: Record, key: string, v: JsonValue)
    ensures forall k :: k in Keys(Set(r, key, v)) <==> k in Keys(r) || k == key
  {
    if r == [] {
      assert Keys(Set(r, key, v)) == [key];
    } else {
      SetKeys(r[1..], key, v);
      assert Keys(r) == [r[0].0] + Keys(r[1..]);
      var s := Set(r, key, v);
      if r[0].0 == key {
        assert Keys(s) == [key] + Keys(r[1..]);
      } else {
        assert Keys(s) == [r[0].0] + Keys(Set(r[1..], key, v));
      }
    }
  }

  /** Setting a property never duplicates a key. */
  lemma {:induction false} SetDistinct(r: Record, key: string, v: JsonValue)
    requires DistinctKeys(r)
    ensures DistinctKeys(Set(r, key, v))
  {
    if r != [] && r[0].0 != key {
      SetDistinct(r[1..], key, v);
      SetKeys(r[1..], key, v);
      var s := Set(r, key, v);
      assert s[1..] == Set(r[1..], key, v);
    }
  }

  /** Reading a property back gives the value last set; other properties are unaffected. */
  lemma {:induction false} SetLookup(r: Record, key: string, v: JsonValue, k: string)
    ensures Lookup(Set(r, key, v), k) == if k == key then Some(v) else Lookup(r, k)
  {
    if r != [] && r[0].0 != key {
      SetLookup(r[1..], key, v, k);
    }
  }

  /** An object filled by storing the given properties one after the other with the
      indexer, starting from an empty object. */
  function Fill(es: seq<(string, JsonValue)>): (filled: Record)
  {
    if es == [] then [] else Set(Fill(es[..|es| - 1]), es[|es| - 1].0, es[|es| - 1].1)
  }

  lemma FillAppend(es: seq<(string, JsonValue)>, key: string, v: JsonValue)
    ensures Fill(es + [(key, v)]) == Set(Fill(es), key, v)
  {
    assert (es + [(key, v)])[..|es|] == es;
  }

  /** The names of a sequence of properties, as a set. */
  function NameSet(es: seq<(string, JsonValue)>): (ks: set<string>)
    ensures forall k :: k in ks <==> exists i :: 0 <= i < |es| && es[i].0 == k
  {
    if es == [] then {}
    else
      var front := NameSet(es[..|es| - 1]);
      assert forall i :: 0 <= i < |es| - 1 ==> es[..|es| - 1][i] == es[i];
      front + {es[|es| - 1].0}
  }

  /** A filled object holds each stored name once, and no other. */
  lemma {:induction false} FillKeys(es: seq<(string, JsonValue)>)
    ensures DistinctKeys(Fill(es))
    ensures forall k :: k in Keys(Fill(es)) <==> k in NameSet(es)
  {
    if es != [] {
      var front := es[..|es| - 1];
      FillKeys(front);
      SetKeys(Fill(front), es[|es| - 1].0, es[|es| - 1].1);
      SetDistinct(Fill(front), es[|es| - 1].0, es[|es| - 1].1);
      assert NameSet(es) == NameSet(front) + {es[|es| - 1].0};
    }
  }

  /** A name holds the value stored last under it. */
  lemma {:induction false} FillLookup(es: seq<(string, JsonValue)>, i: nat)
    requires i < |es|
    requires forall j :: i < j < |es| ==> es[j].0 != es[i].0
    ensures Lookup(Fill(es), es[i].0) == Some(es[i].1)
  {
    var front := es[..|es| - 1];
    SetLookup(Fill(front), es[|es| - 1].0, es[|es| - 1].1, es[i].0);
    if i < |es| - 1 {
      assert front[i] == es[i];
      assert forall j :: i < j < |front| ==> front[j] == es[j];
      FillLookup(front, i);
    }
  }

  /** Storing pairwise different names lists them in the order they were stored. */
  lemma {:induction false} FillDistinct(es: seq<(string, JsonValue)>)
    requires forall i, j :: 0 <= i < j < |es| ==> es[i].0 != es[j].0
    ensures Fill(es) == es
  {
    if es != [] {
      var front := es[..|es| - 1];
      var last := es[|es| - 1];
      assert forall i :: 0 <= i < |front| ==> front[i] == es[i];
      FillDistinct(front);
      KeyAbsent(front, last.0);
      assert es == front + [last];
    }
  }

  /** A name that no property has is not a key. */
  lemma KeyAbsent(r: Record, key: string)
    requires forall i :: 0 <= i < |r| ==> r[i].0 != key
    ensures key !in Keys(r)
  {
    if key in Keys(r) {
      var t :| 0 <= t < |r| && Keys(r)[t] == key;
      KeysAt(r, t);
      assert false;
    }
  }

  /** JSON text of a value (compact, escaping only `"` and `\`). */
  function JsonText(v: JsonValue): string
    decreases v, 1
  {
    match v
    case JNull => "null"
    case JBool(b) => if b then "true" else "false"
    case JNumber(raw) => raw
    case JString(s) => Quoted(s)
    case JArray(items) => "[" + ItemsText(v, 0) + "]"
    case JObject(members) => "{" + MembersText(v, 0) + "}"
  }

  function ItemsText(v: JsonValue, i: nat): string
    requires v.JArray? && i <= |v.items|
    decreases v, 0, |v.items| - i
  {
    if i == |v.items| then ""
    else (if i > 0 then "," else "") + JsonText(v.items[i]) + ItemsText(v, i + 1)
  }

  function MembersText(v: JsonValue, i: nat): string
    requires v.JObject? && i <= |v.members|
    decreases v, 0, |v.members| - i
  {
    if i == |v.members| then ""
    else
      var m := v.members[i];
      assert m in v.members;
      (if i > 0 then "," else "") + Quoted(m.0) + ":" + JsonText(m.1) + MembersText(v, i + 1)
  }

  function Quoted(s: string): string
  {
    "\"" + Escaped(s) + "\""
  }

  function Escaped(s: string): string
  {
    if s == [] then ""
    else (if s[0] == '"' || s[0] == '\\' then ['\\', s[0]] else [s[0]]) + Escaped(s[1..])
  }

  /** `node.ToString()`: a string node gives its text unquoted, any other node its JSON text. */
  function NodeText(v: JsonValue): string
  {
    if v.JString? then v.s else JsonText(v)
  }
}
