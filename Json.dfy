/** A value produced by `JSON.parse`, and the JavaScript coercions that the
    metadata extractor of convex/lib/skills.ts applies to such values. */
module Json {
  import opened Wrappers
  import opened JsStrings

  /** A parsed JSON value. A number carries the text `String(n)` gives for it,
      so that coercion to a string is exact without modelling floating point
      (`-0` and `0` both read `"0"`). An object maps each key to the last value
      given for it in the text, as `JSON.parse` does. */
  datatype Json =
    | JNull
    | JBool(b: bool)
    | JNumber(text: string)
    | JString(s: string)
    | JArray(items: seq<Json>)
    | JObject(members: map<string, Json>)

  /** `Boolean(v)`: false for null, false, 0 and the empty string; JSON text
      cannot produce NaN or undefined. */
  predicate Truthy(v: Json) {
    match v
    case JNull => false
    case JBool(b) => b
    case JNumber(t) => t != "0"
    case JString(s) => s != []
    case _ => true
  }

  /** `typeof v === 'object'`: true for null, arrays and objects. */
  predicate IsObjectType(v: Json) {
    v.JNull? || v.JArray? || v.JObject?
  }

  /** `v[key]` for the keys the extractor reads, none of which an object or
      array prototype defines: an object's own member, and nothing otherwise. */
  function Member(v: Json, key: string): (r: Option<Json>)
    ensures r.Some? <==> v.JObject? && key in v.members
  {
    if v.JObject? && key in v.members then Some(v.members[key]) else None
  }

  /** The member `key` when it is a string (`typeof v[key] === 'string'`). */
  function StringMember(v: Json, key: string): (r: Option<string>)
    ensures r.Some? <==> Member(v, key).Some? && Member(v, key).value.JString?
    ensures r.Some? ==> Member(v, key) == Some(JString(r.value))
  {
    match Member(v, key)
    case Some(JString(s)) => Some(s)
    case _ => None
  }

  /** The outcome of a JavaScript evaluation that may throw: the value it
      returns, or the TypeError it throws. */
  datatype Outcome<T> = Returned(value: T) | Threw

  /** `xs.map(f)` for a callback that may throw, given the callback's outcome
      on each element: every value, or `Threw` as soon as one call throws. */
  function Collect<T>(outs: seq<Outcome<T>>): (r: Outcome<seq<T>>)
    ensures r.Threw? <==> exists i :: 0 <= i < |outs| && outs[i].Threw?
    ensures r.Returned? ==>
              |r.value| == |outs| && forall i :: 0 <= i < |outs| ==> outs[i] == Returned(r.value[i])
  {
    if outs == [] then Returned([])
    else
      var rest := Collect(outs[1..]);
      assert forall i :: 0 < i < |outs| ==> outs[i] == outs[1..][i - 1];
      match outs[0]
      case Threw => Threw
      case Returned(x) => if rest.Threw? then Threw else Returned([x] + rest.value)
  }

  /** Whether `String(v)` throws. JSON text cannot make a member callable, so
      an object with its own `toString` member has neither a callable
      `toString` nor a `valueOf` that returns a primitive (the inherited one
      returns the object itself), and the conversion throws a TypeError. An
      array throws when one of its elements does, as `join` converts each. */
  predicate StringThrows(v: Json) {
    match v
    case JObject(m) => "toString" in m
    case JArray(items) => exists i :: 0 <= i < |items| && StringThrows(items[i])
    case _ => false
  }

  /** Some element of the list makes `String` throw. */
  predicate HasThrowingItem(items: seq<Json>) {
    exists i :: 0 <= i < |items| && StringThrows(items[i])
  }

  /** `String(v)`. An array reads as its elements' strings joined by commas,
      with null elements read as empty; an object reads `[object Object]`
      unless it has its own `toString` member, when the conversion throws. */
  function ToJsString(v: Json): (r: Outcome<string>)
    ensures r.Threw? <==> StringThrows(v)
    ensures v.JString? ==> r == Returned(v.s)
    decreases v
  {
    match v
    case JNull => Returned("null")
    case JBool(b) => Returned(if b then "true" else "false")
    case JNumber(t) => Returned(t)
    case JString(s) => Returned(s)
    case JArray(items) =>
      var outs := seq(|items|, i requires 0 <= i < |items| =>
                      if items[i].JNull? then Returned("") else ToJsString(items[i]));
      assert forall i :: 0 <= i < |items| ==> (outs[i].Threw? <==> StringThrows(items[i]));
      var parts := Collect(outs);
      if parts.Threw? then Threw else Returned(Join(parts.value, ","))
    case JObject(m) => if "toString" in m then Threw else Returned("[object Object]")
  }

  /** `items.map((v) => String(v))`: throws exactly when one element does. */
  function ItemStrings(items: seq<Json>): (r: Outcome<seq<string>>)
    ensures r.Threw? <==> HasThrowingItem(items)
    ensures r.Returned? ==>
              |r.value| == |items|
              && forall i :: 0 <= i < |items| ==> ToJsString(items[i]) == Returned(r.value[i])
  {
    Collect(MapSeq(ToJsString, items))
  }

  /** A throwing `map` over a concatenation maps each part: it throws when
      either part does, and otherwise gives both parts' values in order. */
  lemma CollectAppend<T>(a: seq<Outcome<T>>, b: seq<Outcome<T>>)
    ensures Collect(a + b)
         == if Collect(a).Returned? && Collect(b).Returned?
            then Returned(Collect(a).value + Collect(b).value)
            else Threw
  {
    var ab := a + b;
    if Collect(a).Threw? {
      var i :| 0 <= i < |a| && a[i].Threw?;
      assert ab[i].Threw?;
    } else if Collect(b).Threw? {
      var i :| 0 <= i < |b| && b[i].Threw?;
      assert ab[|a| + i].Threw?;
    } else {
      assert Collect(ab).Returned? by {
        forall i | 0 <= i < |ab| ensures !ab[i].Threw? {
          if i < |a| { assert ab[i] == a[i]; } else { assert ab[i] == b[i - |a|]; }
        }
      }
      var va, vb, vab := Collect(a).value, Collect(b).value, Collect(ab).value;
      forall i | 0 <= i < |ab| ensures vab[i] == (va + vb)[i] {
        if i < |a| {
          assert ab[i] == a[i];
        } else {
          assert ab[i] == b[i - |a|];
        }
      }
      assert vab == va + vb;
    }
  }

  /** Converting the elements of a concatenation converts each part: it
      throws when either part does, and otherwise gives both lists in order. */
  lemma ItemStringsAppend(a: seq<Json>, b: seq<Json>)
    ensures ItemStrings(a + b)
         == if ItemStrings(a).Returned? && ItemStrings(b).Returned?
            then Returned(ItemStrings(a).value + ItemStrings(b).value)
            else Threw
  {
    MapSeqAppend(ToJsString, a, b);
    CollectAppend(MapSeq(ToJsString, a), MapSeq(ToJsString, b));
  }
}
