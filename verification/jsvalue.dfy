/**
 * The JavaScript values the utility functions receive and return, and the
 * language primitives they lean on: truthiness, `typeof`, `Object.keys`
 * and `hasOwnProperty`.
 */
module JsValue {
  import opened Wrappers
  import opened Strings

  /**
   * A finite, acyclic JavaScript value. Numbers are integral. `Obj` is a
   * plain object whose `props` list its own enumerable properties in
   * `Object.keys` order. `Func` is a function; `Instance` is an object
   * of a class that overrides `toString` (returning `text`) and has no own
   * enumerable properties.
   */
  datatype Value =
    | Undefined
    | Null
    | Bool(b: bool)
    | Num(n: int)
    | Str(s: string)
    | Arr(elems: seq<Value>)
    | Obj(props: seq<Prop>)
    | Func(name: string)
    | Instance(text: string)

  /** One own property of an object: a key and its value. */
  datatype Prop = Prop(key: string, val: Value)

  /** JavaScript truthiness: `undefined`, `null`, `false`, `0` and `''` are falsy. */
  predicate Truthy(v: Value)
  {
    match v
    case Undefined => false
    case Null => false
    case Bool(b) => b
    case Num(n) => n != 0
    case Str(s) => |s| > 0
    case _ => true
  }

  /** The `typeof` operator. */
  function TypeOf(v: Value): string
  {
    match v
    case Undefined => "undefined"
    case Null => "object"
    case Bool(_) => "boolean"
    case Num(_) => "number"
    case Str(_) => "string"
    case Arr(_) => "object"
    case Obj(_) => "object"
    case Func(_) => "function"
    case Instance(_) => "object"
  }

  /** A non-null value whose `typeof` is `'object'`: what the tree walks descend into. */
  predicate IsObject(v: Value)
  {
    v.Arr? || v.Obj? || v.Instance?
  }

  /** `IsObject` is exactly "truthy and `typeof` reports 'object'". */
  lemma IsObjectIff(v: Value)
    ensures IsObject(v) <==> Truthy(v) && TypeOf(v) == "object"
  {
  }

  function Keys(props: seq<Prop>): (ks: seq<string>)
    ensures |ks| == |props|
    ensures forall j :: 0 <= j < |props| ==> ks[j] == props[j].key
  {
    seq(|props|, j requires 0 <= j < |props| => props[j].key)
  }

  /** No key occurs twice, as in every JavaScript object. */
  predicate DistinctKeys(props: seq<Prop>)
  {
    forall i, j :: 0 <= i < j < |props| ==> props[i].key != props[j].key
  }

  /** Every object at every depth has distinct keys. */
  predicate WellFormed(v: Value)
    decreases v
  {
    match v
    case Arr(e) => forall i :: 0 <= i < |e| ==> WellFormed(e[i])
    case Obj(p) => DistinctKeys(p) && forall j :: 0 <= j < |p| ==> WellFormed(p[j].val)
    case _ => true
  }

  /** Position of the first property named `k`, if any. */
  function LookupIndex(props: seq<Prop>, k: string): (r: Option<nat>)
    ensures r.Some? ==> r.value < |props| && props[r.value].key == k
    ensures r.Some? ==> forall j :: 0 <= j < r.value ==> props[j].key != k
    ensures r.None? ==> forall j :: 0 <= j < |props| ==> props[j].key != k
    decreases |props|
  {
    if |props| == 0 then None
    else if props[0].key == k then Some(0)
    else match LookupIndex(props[1..], k)
      case None => None
      case Some(j) => Some(j + 1)
  }

  /** The value of the property named `k`, if any. */
  function Lookup(props: seq<Prop>, k: string): Option<Value>
  {
    match LookupIndex(props, k)
    case None => None
    case Some(j) => Some(props[j].val)
  }

  /** In an object with distinct keys, a listed property is found with its own value. */
  lemma LookupDistinct(props: seq<Prop>, j: nat)
    requires DistinctKeys(props) && j < |props|
    ensures Lookup(props, props[j].key) == Some(props[j].val)
  {
  }

  /** The entries of `s`'s elements under their index keys "0", "1", … */
  function IndexEntries<T>(s: seq<T>, wrap: T -> Value): (r: seq<Prop>)
    ensures |r| == |s|
    ensures forall i :: 0 <= i < |s| ==> r[i] == Prop(NatToDecimal(i), wrap(s[i]))
  {
    seq(|s|, i requires 0 <= i < |s| => Prop(NatToDecimal(i), wrap(s[i])))
  }

  /**
   * `Object.keys(v)` paired with `v[key]`; `None` when `Object.keys` throws
   * (on `undefined` and `null`). Strings list their characters, arrays their
   * elements, under index keys; other primitives, functions and class
   * instances have no own enumerable properties.
   */
  function OwnEntries(v: Value): (r: Option<seq<Prop>>)
    ensures r.None? <==> v.Undefined? || v.Null?
    ensures v.Arr? || v.Obj? ==> forall j :: 0 <= j < |r.value| ==> r.value[j].val < v
    ensures v.Bool? || v.Num? || v.Func? || v.Instance? ==> r == Some([])
  {
    match v
    case Undefined => None
    case Null => None
    case Str(s) => Some(IndexEntries(s, (c: char) => Str([c])))
    case Arr(e) => Some(IndexEntries(e, (x: Value) => x))
    case Obj(p) => Some(p)
    case _ => Some([])
  }

  /** The keys `Object.keys` lists are distinct. */
  lemma OwnEntriesDistinct(v: Value)
    requires OwnEntries(v).Some?
    requires v.Obj? ==> DistinctKeys(v.props)
    ensures DistinctKeys(OwnEntries(v).value)
  {
    if v.Arr? || v.Str? {
      var es := OwnEntries(v).value;
      forall i, j | 0 <= i < j < |es|
        ensures es[i].key != es[j].key
      {
        NatToDecimalInjective(i, j);
      }
    }
  }

  /** The element an array-index key names in a list of length `n`, if any. */
  function IndexOfKey(k: string, n: nat): (r: Option<nat>)
    ensures r.Some? ==> r.value < n
  {
    if IsCanonicalDecimal(k) && DecimalValue(k) < n then Some(DecimalValue(k)) else None
  }

  /**
   * `v.hasOwnProperty(k) ? v[k] : <absent>`. Arrays and strings own their
   * canonical index keys below their length and "length"; plain objects own
   * their listed keys.
   */
  function OwnProperty(v: Value, k: string): (r: Option<Value>)
    ensures v.Arr? && r.Some? && k != "length" ==> r.value < v
  {
    match v
    case Arr(e) =>
      if k == "length" then Some(Num(|e|))
      else (match IndexOfKey(k, |e|) case Some(i) => Some(e[i]) case None => None)
    case Str(s) =>
      if k == "length" then Some(Num(|s|))
      else (match IndexOfKey(k, |s|) case Some(i) => Some(Str([s[i]])) case None => None)
    case Obj(p) => Lookup(p, k)
    case _ => None
  }

  /**
   * Apart from "length", `hasOwnProperty` agrees with `Object.keys`: a key is
   * owned exactly when it is listed, with the listed value.
   */
  lemma OwnPropertyMatchesEntries(v: Value, k: string)
    requires v.Arr? || v.Str? || (v.Obj? && DistinctKeys(v.props))
    requires k != "length"
    ensures OwnProperty(v, k) == Lookup(OwnEntries(v).value, k)
  {
    if v.Arr? || v.Str? {
      var n := if v.Arr? then |v.elems| else |v.s|;
      var es := OwnEntries(v).value;
      match IndexOfKey(k, n)
      case Some(i) =>
        CanonicalRoundTrip(k);
        forall j | 0 <= j < i
          ensures es[j].key != k
        {
          NatToDecimalInjective(j, i);
        }
        assert es[i].key == k;
      case None =>
        forall j | 0 <= j < |es|
          ensures es[j].key != k
        {
          DecimalRoundTrip(j);
        }
    }
  }

  /** The values held directly by an array or a plain object. */
  function Members(v: Value): (r: seq<Value>)
    ensures forall i :: 0 <= i < |r| ==> r[i] < v
  {
    match v
    case Arr(e) => e
    case Obj(p) => seq(|p|, j requires 0 <= j < |p| => p[j].val)
    case _ => []
  }

  /** A member of `v` is structurally smaller than `v`. */
  lemma MemberBelow(x: Value, v: Value)
    requires x in Members(v)
    ensures x < v
  {
    var i :| 0 <= i < |Members(v)| && Members(v)[i] == x;
  }

  /** `x` is `v` or a value nested anywhere inside it. */
  ghost predicate NodeOf(x: Value, v: Value)
    decreases v
  {
    x == v || exists i :: 0 <= i < |Members(v)| && NodeOf(x, Members(v)[i])
  }

  /** A TypeError carrying the message it is thrown with. */
  datatype TypeError = TypeError(message: string)
}
