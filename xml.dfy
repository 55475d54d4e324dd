/** The decoded XML documents the client works on, in the shape the xml2js
    library gives them with its 0.1 defaults: the root element is dropped, an
    element holding only text (or nothing) becomes a string (`''` when empty),
    any other element becomes an object whose attributes sit under the key
    `@`, and repeated sibling elements become an array. The parser itself is
    not part of this model; its result is the input. */
module Xml {
  import opened Results
  import Text
  import Js

  /** A decoded value: a string, an object with its keys in document order
      (as in any JavaScript object, each key occurs once), or an array. */
  datatype Node = Leaf(text: string) | Obj(fields: seq<(string, Node)>) | List(items: seq<Node>)

  /** The reserved key under which xml2js puts an element's attributes. */
  const AttributesKey: string := "@"

  /** A measure that strictly shrinks from a node to any value inside it. */
  function Size(n: Node): nat
    decreases n, 1
  {
    match n
    case Leaf(_) => 1
    case Obj(fs) => 1 + FieldsSize(n, 0)
    case List(xs) => 1 + ListSize(xs)
  }

  function FieldsSize(n: Node, i: nat): nat
    requires n.Obj? && i <= |n.fields|
    decreases n, 0, |n.fields| - i
  {
    if i == |n.fields| then 0 else Size(n.fields[i].1) + FieldsSize(n, i + 1)
  }

  function ListSize(xs: seq<Node>): nat
    decreases xs
  {
    if xs == [] then 0 else Size(xs[0]) + ListSize(xs[1..])
  }

  lemma {:induction false} FieldSizeBound(n: Node, j: nat, i: nat)
    requires n.Obj? && j <= i < |n.fields|
    ensures Size(n.fields[i].1) <= FieldsSize(n, j)
    decreases i - j
  {
    if j < i {
      FieldSizeBound(n, j + 1, i);
    }
  }

  lemma {:induction false} ListSizeBound(xs: seq<Node>, i: nat)
    requires i < |xs|
    ensures Size(xs[i]) <= ListSize(xs)
  {
    if i > 0 {
      ListSizeBound(xs[1..], i - 1);
    }
  }

  lemma {:induction false} ListSizeAppend(xs: seq<Node>, ys: seq<Node>)
    ensures ListSize(xs + ys) == ListSize(xs) + ListSize(ys)
  {
    if xs == [] {
      assert xs + ys == ys;
    } else {
      assert (xs + ys)[0] == xs[0] && (xs + ys)[1..] == xs[1..] + ys;
      ListSizeAppend(xs[1..], ys);
    }
  }

  /** The position of the first field named `key`, scanning from `from`. */
  function KeyIndex(fields: seq<(string, Node)>, key: string, from: nat): (r: Option<nat>)
    decreases |fields| - from
    ensures r.Some? ==> from <= r.value < |fields| && fields[r.value].0 == key
    ensures r.None? ==> forall j :: from <= j < |fields| ==> fields[j].0 != key
  {
    if from >= |fields| then None
    else if fields[from].0 == key then Some(from)
    else KeyIndex(fields, key, from + 1)
  }

  /** `n[key]`: the value bound to `key` when `n` is an object, `undefined`
      (`None`) otherwise. */
  function Prop(n: Node, key: string): (r: Option<Node>)
    ensures r.Some? ==> Size(r.value) < Size(n)
  {
    match n
    case Obj(fs) =>
      (match KeyIndex(fs, key, 0)
       case Some(i) => FieldSizeBound(n, 0, i); Some(fs[i].1)
       case None => None)
    case _ => None
  }

  /** The field at position `k` is the one a lookup of its key finds when no
      earlier field has that key. */
  lemma PropAt(fields: seq<(string, Node)>, k: nat)
    requires k < |fields|
    requires forall j :: 0 <= j < k ==> fields[j].0 != fields[k].0
    ensures Prop(Obj(fields), fields[k].0) == Some(fields[k].1)
  {
    KeyIndexAt(fields, fields[k].0, 0, k);
  }

  lemma {:induction false} KeyIndexAt(fields: seq<(string, Node)>, key: string, from: nat, k: nat)
    requires from <= k < |fields| && fields[k].0 == key
    requires forall j :: from <= j < k ==> fields[j].0 != key
    ensures KeyIndex(fields, key, from) == Some(k)
    decreases k - from
  {
    if from < k {
      KeyIndexAt(fields, key, from + 1, k);
    }
  }

  /** `v[key]` for a value that may itself be `undefined`; JavaScript throws
      a TypeError there, which callers guard against before using this. */
  function PropOf(v: Option<Node>, key: string): Option<Node> {
    if v.Some? then Prop(v.value, key) else None
  }

  /** JavaScript truthiness of a decoded value: `undefined` and `''` are falsy. */
  predicate Truthy(v: Option<Node>) {
    v.Some? && v.value != Leaf("")
  }

  /** `toArray`: an array is kept as it is, any other value becomes a singleton. */
  function ToArray(n: Node): (r: seq<Node>)
    ensures n.List? ==> r == n.items
    ensures !n.List? ==> r == [n]
    ensures ListSize(r) <= Size(n)
  {
    if n.List? then n.items else [n]
  }

  /** `String(v)`: the text of a string, `undefined` for a missing value,
      `[object Object]` for an object and the comma-joined elements for an
      array; this is also how a value becomes a property key. */
  function StringOf(v: Option<Node>): string {
    match v
    case None => "undefined"
    case Some(n) => NodeString(n)
  }

  function NodeString(n: Node): string
    decreases n, 1
  {
    match n
    case Leaf(s) => s
    case Obj(_) => "[object Object]"
    case List(xs) => Text.Join(ListStrings(xs), ",")
  }

  function ListStrings(xs: seq<Node>): (r: seq<string>)
    decreases xs
    ensures |r| == |xs|
  {
    if xs == [] then [] else [NodeString(xs[0])] + ListStrings(xs[1..])
  }

  /** `parseInt(v, 10)` for a decoded value. */
  function ParseIntOf(v: Option<Node>): Js.Number {
    Js.ParseInt(StringOf(v))
  }
}
