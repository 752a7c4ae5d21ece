/**
  Parsed YAML/JSON values as the configuration code sees them after parsing,
  together with the dictionary operations it applies to them (`in`, `get`,
  truthiness, `isinstance`).
 */
module Values {

  datatype Option<+T> = None | Some(value: T)

  /** The result of Python code that either raises (TypeError) or returns. */
  datatype Outcome<+T> = Raises | Returns(value: T)

  /** A parsed YAML document node. A mapping is its list of entries in the
      order they are written, and the model iterates it in that order; its
      keys are strings. */
  datatype Yaml =
    | YNull
    | YBool(b: bool)
    | YInt(i: int)
    | YStr(s: string)
    | YList(items: seq<Yaml>)
    | YMap(entries: seq<(string, Yaml)>)

  /** The value stored under `key`, as `key in d` followed by `d[key]`. */
  function Lookup(entries: seq<(string, Yaml)>, key: string): (r: Option<Yaml>)
    ensures r.None? <==> forall i :: 0 <= i < |entries| ==> entries[i].0 != key
    ensures r.Some? ==> exists i :: 0 <= i < |entries| && entries[i] == (key, r.value)
  {
    if |entries| == 0 then None
    else if entries[0].0 == key then Some(entries[0].1)
    else Lookup(entries[1..], key)
  }

  predicate HasKey(entries: seq<(string, Yaml)>, key: string) {
    Lookup(entries, key).Some?
  }

  /** `d.get(key, default)` */
  function Get(entries: seq<(string, Yaml)>, key: string, default: Yaml): Yaml {
    match Lookup(entries, key)
    case Some(v) => v
    case None => default
  }

  /** The keys of a mapping, in insertion order. */
  function KeysOf(entries: seq<(string, Yaml)>): (ks: seq<string>)
    ensures |ks| == |entries|
    ensures forall i :: 0 <= i < |entries| ==> ks[i] == entries[i].0
  {
    if |entries| == 0 then [] else [entries[0].0] + KeysOf(entries[1..])
  }

  /** A Python dictionary never holds a key twice. */
  predicate DistinctKeys(entries: seq<(string, Yaml)>) {
    forall i, j :: 0 <= i < j < |entries| ==> entries[i].0 != entries[j].0
  }

  /** Python truthiness: None, False, 0, "" and empty containers are false. */
  predicate Truthy(v: Yaml) {
    match v
    case YNull => false
    case YBool(b) => b
    case YInt(i) => i != 0
    case YStr(s) => s != []
    case YList(items) => items != []
    case YMap(entries) => entries != []
  }

  /** The Python value `None` is written YNull; an optional string maps onto it. */
  function FromOption(o: Option<string>): (v: Yaml)
    ensures v.YNull? <==> o.None?
    ensures o.Some? ==> v == YStr(o.value)
  {
    match o
    case None => YNull
    case Some(s) => YStr(s)
  }

  /** The string elements of a list, in order; every other element is
      skipped (the `if is_string(x)` filter). */
  function StringItems(items: seq<Yaml>): (r: seq<string>)
    ensures |r| <= |items|
    ensures forall x :: x in r <==> YStr(x) in items
    ensures |items| == 1 ==> r == (if items[0].YStr? then [items[0].s] else [])
  {
    if |items| == 0 then []
    else if items[0].YStr? then [items[0].s] + StringItems(items[1..])
    else StringItems(items[1..])
  }

  /** A list of strings as a YAML list. */
  function AsStrings(ss: seq<string>): (r: seq<Yaml>)
    ensures |r| == |ss|
    ensures forall i :: 0 <= i < |ss| ==> r[i] == YStr(ss[i])
  {
    seq(|ss|, i requires 0 <= i < |ss| => YStr(ss[i]))
  }

  /** Reading the strings back out of a list of strings gives the list. */
  lemma {:induction false} StringItemsOfStrings(ss: seq<string>)
    ensures StringItems(AsStrings(ss)) == ss
    decreases |ss|
  {
    if |ss| > 0 {
      assert AsStrings(ss)[1..] == AsStrings(ss[1..]);
      StringItemsOfStrings(ss[1..]);
    }
  }

  lemma {:induction false} StringItemsAppend(a: seq<Yaml>, b: seq<Yaml>)
    ensures StringItems(a + b) == StringItems(a) + StringItems(b)
    decreases |a|
  {
    if |a| == 0 {
      assert a + b == b;
    } else {
      assert (a + b)[1..] == a[1..] + b;
      StringItemsAppend(a[1..], b);
    }
  }

  /** Appending an entry, as assigning a new key does: existing keys keep
      their values and the new key maps to the new value. */
  lemma {:induction false} LookupSnoc(entries: seq<(string, Yaml)>, k: string, v: Yaml, key: string)
    ensures Lookup(entries + [(k, v)], key) ==
            if HasKey(entries, key) then Lookup(entries, key) else if key == k then Some(v) else None
    decreases |entries|
  {
    if |entries| == 0 {
      assert entries + [(k, v)] == [(k, v)];
    } else {
      assert (entries + [(k, v)])[1..] == entries[1..] + [(k, v)];
      LookupSnoc(entries[1..], k, v, key);
    }
  }
}
