/** JSON values as the Newtonsoft.Json object model holds them after parsing.
    Text is outside the model: parsing text into an object and rendering a
    value as text are the two functions of a `Codec`, supplied by the caller. */
module JsonModel {
  import opened Wrappers
  import opened Collections

  datatype Json =
    | JString(s: string)
    | JNull
      /** a number, boolean or date, with the text the library gives it */
    | JLiteral(text: string)
    | JArray(items: seq<Json>)
    | JObject(props: seq<Prop>)

  /** One property of an object, in document order. */
  datatype Prop = Prop(name: string, value: Json)

  /** The text layer: `JToken.ToString()` of an array or object, and
      `JObject.Parse`, which yields an object or fails. */
  datatype Codec = Codec(render: Json -> string, parseObject: string -> Option<seq<Prop>>)

  /** Some property of `obj` is called `name`. */
  predicate HasName(obj: seq<Prop>, name: string) {
    exists i :: 0 <= i < |obj| && obj[i].name == name
  }

  /** What a `JObject` guarantees of its properties: no name repeats. */
  predicate DistinctNames(props: seq<Prop>) {
    forall i, j :: 0 <= i < j < |props| ==> props[i].name != props[j].name
  }

  /** `JToken.ToString()` of a property value: a string yields itself, null
      the empty string, a literal its text, an array or object its rendering. */
  function ValueText(v: Json, codec: Codec): (t: string)
    ensures v.JString? ==> t == v.s
    ensures v.JNull? ==> t == ""
  {
    match v
    case JString(s) => s
    case JNull => ""
    case JLiteral(text) => text
    case _ => codec.render(v)
  }

  /** The position of the first property called `name`, or -1. */
  function IndexOfName(obj: seq<Prop>, name: string): (i: int)
    ensures -1 <= i < |obj|
    ensures i == -1 <==> !HasName(obj, name)
    ensures i >= 0 ==> obj[i].name == name && forall j :: 0 <= j < i ==> obj[j].name != name
  {
    if obj == [] then -1
    else if obj[0].name == name then 0
    else
      var i := IndexOfName(obj[1..], name);
      assert forall j :: 1 <= j < |obj| ==> obj[j] == obj[1..][j - 1];
      if i == -1 then -1 else i + 1
  }

  /** The indexer assignment `obj[name] = value`: replaces the value of the
      property called `name` where it stands, or appends a new property. */
  function SetProp(obj: seq<Prop>, name: string, value: Json): (r: seq<Prop>)
    ensures !HasName(obj, name) ==> r == obj + [Prop(name, value)]
    ensures HasName(obj, name) ==> |r| == |obj| && forall i :: 0 <= i < |obj| ==> r[i].name == obj[i].name
    ensures forall i :: 0 <= i < |obj| && obj[i].name != name ==> r[i] == obj[i]
    ensures Prop(name, value) in r
  {
    var i := IndexOfName(obj, name);
    if i < 0 then obj + [Prop(name, value)] else obj[i := Prop(name, value)]
  }

  /** Assigning `props` one after another with the indexer. */
  function SetAll(obj: seq<Prop>, props: seq<Prop>): (r: seq<Prop>)
    ensures |obj| <= |r| <= |obj| + |props|
    ensures forall i :: 0 <= i < |obj| ==> r[i].name == obj[i].name
  {
    if props == [] then obj
    else
      var last := props[|props| - 1];
      SetProp(SetAll(obj, props[..|props| - 1]), last.name, last.value)
  }

  lemma {:induction false} SetAllAppend(obj: seq<Prop>, a: seq<Prop>, b: seq<Prop>)
    ensures SetAll(obj, a + b) == SetAll(SetAll(obj, a), b)
  {
    if b != [] {
      var n := |b| - 1;
      assert (a + b)[..|a + b| - 1] == a + b[..n];
      SetAllAppend(obj, a, b[..n]);
    } else {
      assert a + b == a;
    }
  }

  /** Dropping the last property keeps the names distinct, and the last
      name occurs nowhere before it. */
  lemma DistinctInit(all: seq<Prop>)
    requires all != [] && DistinctNames(all)
    ensures DistinctNames(all[..|all| - 1]) && !HasName(all[..|all| - 1], all[|all| - 1].name)
  {
  }

  /** Assigning properties with distinct names onto an empty object builds
      exactly the list of them. */
  lemma SetAllFromEmpty(props: seq<Prop>)
    requires DistinctNames(props)
    ensures SetAll([], props) == props
  {
    assert [] + props == props;
    SetAllDistinct([], props);
  }

  /** When no name repeats, assigning properties one by one builds exactly
      the list of them. */
  lemma {:induction false} SetAllDistinct(obj: seq<Prop>, props: seq<Prop>)
    requires DistinctNames(obj + props)
    ensures SetAll(obj, props) == obj + props
  {
    if props != [] {
      var n := |props| - 1;
      var init, last := props[..n], props[n];
      var all := obj + props;
      assert all[..|all| - 1] == obj + init && all[|all| - 1] == last;
      DistinctInit(all);
      SetAllDistinct(obj, init);
      assert SetAll(obj, props) == SetProp(obj + init, last.name, last.value);
      assert obj + init + [last] == all;
    }
  }
}
