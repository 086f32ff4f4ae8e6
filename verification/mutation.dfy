/** The mutation pass shared by both codecs: delete listed keys, then overwrite each
    `set` key with a one-element list, then append one value per `append` key.

    Go ranges over the `set` and `append` maps in an order it picks at random; the
    model takes that order as an explicit sequence (`Enumerates`) and proves that the
    result equals an order-free, key-by-key closed form (`Expected`). */
module Mutation {

  /** A form as a multi-map: field name to its values, in order (Go's `url.Values`,
      and the `Value` part of a `multipart.Form`). */
  type Values = map<string, seq<string>>

  /** The three operation sets of the plugin configuration. `deleteKeys` is a list
      and may repeat a key; `setTo` and `appendTo` hold one value per key. */
  datatype Config = Config(setTo: map<string, string>, appendTo: map<string, string>, deleteKeys: seq<string>)

  /** Go's `values[k]`: the list under `k`, or the empty (nil) list when `k` is absent. */
  function Lookup(values: Values, k: string): seq<string> {
    if k in values then values[k] else []
  }

  function Elements(s: seq<string>): set<string> {
    set k | k in s
  }

  predicate Distinct(s: seq<string>) {
    forall i, j :: 0 <= i < j < |s| ==> s[i] != s[j]
  }

  /** `order` visits every key of `keys` exactly once: the orders in which a Go
      `range` over a map with these keys may run. */
  predicate Enumerates(order: seq<string>, keys: set<string>) {
    Distinct(order) && Elements(order) == keys
  }

  /** The keys the configuration deletes. */
  function Deleted(config: Config): set<string> {
    Elements(config.deleteKeys)
  }

  /** What the append step adds under `k`: its one configured value, or nothing. */
  function Appended(config: Config, k: string): seq<string> {
    if k in config.appendTo then [config.appendTo[k]] else []
  }

  /** The delete loop: `delete(values, k)` for each listed key, in list order. */
  function DeleteKeys(values: Values, keys: seq<string>): (r: Values)
    ensures r.Keys == values.Keys - Elements(keys)
    ensures forall k :: k in r ==> r[k] == values[k]
  {
    if |keys| == 0 then values
    else
      assert Elements(keys) == {keys[0]} + Elements(keys[1..]);
      DeleteKeys(values - {keys[0]}, keys[1..])
  }

  /** The set loop: `values[k] = []string{v}` for each key of `setTo`, visited in `order`. */
  function SetFields(values: Values, setTo: map<string, string>, order: seq<string>): (r: Values)
    requires Elements(order) <= setTo.Keys
    ensures r.Keys == values.Keys + Elements(order)
    ensures forall k :: k in r ==> r[k] == (if k in order then [setTo[k]] else values[k])
    decreases |order|
  {
    if |order| == 0 then values
    else
      assert Elements(order) == {order[0]} + Elements(order[1..]);
      SetFields(values[order[0] := [setTo[order[0]]]], setTo, order[1..])
  }

  /** The append loop: `values[k] = append(values[k], v)` for each key of `appendTo`,
      visited in `order`; an absent key starts from the empty list. */
  function AppendFields(values: Values, appendTo: map<string, string>, order: seq<string>): (r: Values)
    requires Elements(order) <= appendTo.Keys
    requires Distinct(order)
    ensures r.Keys == values.Keys + Elements(order)
    ensures forall k :: k in r ==> r[k] == (if k in order then Lookup(values, k) + [appendTo[k]] else values[k])
    decreases |order|
  {
    if |order| == 0 then values
    else
      var k := order[0];
      assert Elements(order) == {k} + Elements(order[1..]);
      AppendFields(values[k := Lookup(values, k) + [appendTo[k]]], appendTo, order[1..])
  }

  /** The outcome of the pass, stated key by key and without any iteration order:
      a `set` key holds its set value, a deleted key holds nothing, any other key
      keeps its old list; then the appended value, if any, goes at the end. A key
      that ends with nothing to hold is absent. */
  function Expected(values: Values, config: Config): Values {
    map k | k in (values.Keys - Deleted(config)) + config.setTo.Keys + config.appendTo.Keys ::
      (if k in config.setTo then [config.setTo[k]]
       else if k in Deleted(config) then []
       else Lookup(values, k)) + Appended(config, k)
  }

  /** `applyOpsToValues` (and the identical Del/Set/Add loop of the URL-encoded
      handler), run with the map iteration orders `setOrder` and `appendOrder`. */
  function ApplyOpsToValues(values: Values, config: Config, setOrder: seq<string>, appendOrder: seq<string>): (r: Values)
    requires Enumerates(setOrder, config.setTo.Keys)
    requires Enumerates(appendOrder, config.appendTo.Keys)
    ensures r == Expected(values, config)
  {
    var r := AppendFields(SetFields(DeleteKeys(values, config.deleteKeys), config.setTo, setOrder), config.appendTo, appendOrder);
    PassMatchesExpected(values, config, setOrder, appendOrder, r, Expected(values, config));
    r
  }

  /** Two maps that agree on every key are equal. */
  lemma MapsAgree(a: Values, b: Values)
    requires forall k :: (k in a <==> k in b) && (k in a ==> a[k] == b[k])
    ensures a == b
  {
  }

  /** The three loops, composed, agree with the closed form on one key. */
  lemma PassMatchesExpectedAt(values: Values, config: Config, setOrder: seq<string>, appendOrder: seq<string>, k: string, r: Values)
    requires Enumerates(setOrder, config.setTo.Keys)
    requires Enumerates(appendOrder, config.appendTo.Keys)
    requires r == AppendFields(SetFields(DeleteKeys(values, config.deleteKeys), config.setTo, setOrder), config.appendTo, appendOrder)
    ensures k in r <==> k in Expected(values, config)
    ensures k in r ==> r[k] == Expected(values, config)[k]
  {
    assert k in setOrder <==> k in config.setTo;
    assert k in appendOrder <==> k in config.appendTo;
  }

  /** The three loops, composed, compute the closed form whatever the map orders. */
  lemma PassMatchesExpected(values: Values, config: Config, setOrder: seq<string>, appendOrder: seq<string>, r: Values, e: Values)
    requires Enumerates(setOrder, config.setTo.Keys)
    requires Enumerates(appendOrder, config.appendTo.Keys)
    requires r == AppendFields(SetFields(DeleteKeys(values, config.deleteKeys), config.setTo, setOrder), config.appendTo, appendOrder)
    requires e == Expected(values, config)
    ensures r == e
  {
    forall k
      ensures (k in r <==> k in e) && (k in r ==> r[k] == e[k])
    {
      PassMatchesExpectedAt(values, config, setOrder, appendOrder, k, r);
    }
    MapsAgree(r, e);
  }

  /** The precedence rules of the pass, key by key: delete runs first, set
      overwrites, append goes last. */
  lemma ApplyOpsKeyByKey(values: Values, config: Config, setOrder: seq<string>, appendOrder: seq<string>, k: string)
    requires Enumerates(setOrder, config.setTo.Keys)
    requires Enumerates(appendOrder, config.appendTo.Keys)
    ensures var r := ApplyOpsToValues(values, config, setOrder, appendOrder);
            && (k in Deleted(config) && k !in config.setTo && k !in config.appendTo ==> k !in r)
            && (k in config.setTo ==> k in r && r[k] == [config.setTo[k]] + Appended(config, k))
            && (k !in config.setTo && k in config.appendTo ==>
                  k in r && r[k] == (if k in Deleted(config) then [] else Lookup(values, k)) + [config.appendTo[k]])
            && (k !in Deleted(config) && k !in config.setTo && k !in config.appendTo ==>
                  (k in r <==> k in values) && (k in values ==> r[k] == values[k]))
  {
  }

  /** The pass does not depend on the order Go happens to visit the two maps in. */
  lemma ApplyOpsOrderIndependent(values: Values, config: Config, s1: seq<string>, a1: seq<string>, s2: seq<string>, a2: seq<string>)
    requires Enumerates(s1, config.setTo.Keys) && Enumerates(a1, config.appendTo.Keys)
    requires Enumerates(s2, config.setTo.Keys) && Enumerates(a2, config.appendTo.Keys)
    ensures ApplyOpsToValues(values, config, s1, a1) == ApplyOpsToValues(values, config, s2, a2)
  {
  }

  /** Deleting is idempotent, and the delete list's order and repetitions do not matter. */
  lemma DeleteKeysIdempotent(values: Values, keys: seq<string>, other: seq<string>)
    requires Elements(other) == Elements(keys)
    ensures DeleteKeys(DeleteKeys(values, keys), other) == DeleteKeys(values, keys)
    ensures DeleteKeys(values, other) == DeleteKeys(values, keys)
  {
  }
}
