/**
 * The object utilities: `excludeProperties`, `keysToLowerCase` and the
 * key/value search generator `_traverse`.
 */
module Objects {
  import opened Wrappers
  import opened Strings
  import opened JsValue

  // ---------------------------------------------------------------------------
  // excludeProperties

  /**
   * The entries whose key is not among `keys`, in their original order. The
   * rest arguments may be any values; `keys.includes(key)` compares them with
   * the string key by SameValueZero, so only a string equal to the key excludes it.
   */
  function Without(es: seq<Prop>, keys: seq<Value>): seq<Prop>
    decreases |es|
  {
    if |es| == 0 then []
    else (if Str(es[0].key) in keys then [] else [es[0]]) + Without(es[1..], keys)
  }

  /**
   * `excludeProperties(obj, ...keys)`: a fresh object built from the own
   * enumerable properties of `obj` whose key is not listed. `Object.keys`
   * throws on `null` and `undefined`; the error is logged and `undefined`
   * returned.
   */
  function ExcludeProperties(obj: Value, keys: seq<Value>): Value
  {
    match OwnEntries(obj)
    case None => Undefined
    case Some(es) => Obj(Without(es, keys))
  }

  /** Every kept entry is an entry of the input whose key is not listed. */
  lemma {:induction false} WithoutSub(es: seq<Prop>, keys: seq<Value>)
    ensures forall x :: x in Without(es, keys) ==> x in es && Str(x.key) !in keys
    decreases |es|
  {
    if |es| > 0 {
      WithoutSub(es[1..], keys);
      forall x | x in Without(es[1..], keys)
        ensures x in es
      {
        var m :| 0 <= m < |es[1..]| && es[1..][m] == x;
        assert es[m + 1] == x;
      }
    }
  }

  lemma {:induction false} WithoutLookup(es: seq<Prop>, keys: seq<Value>, k: string)
    ensures Lookup(Without(es, keys), k) == if Str(k) in keys then None else Lookup(es, k)
    decreases |es|
  {
    if |es| > 0 {
      WithoutLookup(es[1..], keys, k);
      var w := Without(es, keys);
      if Str(es[0].key) !in keys {
        assert w[0] == es[0] && w[1..] == Without(es[1..], keys);
      } else {
        assert w == Without(es[1..], keys);
        WithoutSub(es[1..], keys);
      }
    }
  }

  /** Filtering distributes over concatenation, so the kept entries stay in input order. */
  lemma {:induction false} WithoutAppend(a: seq<Prop>, b: seq<Prop>, keys: seq<Value>)
    ensures Without(a + b, keys) == Without(a, keys) + Without(b, keys)
    decreases |a|
  {
    if |a| == 0 {
      assert a + b == b;
    } else {
      assert (a + b)[1..] == a[1..] + b;
      WithoutAppend(a[1..], b, keys);
    }
  }

  lemma {:induction false} WithoutDistinct(es: seq<Prop>, keys: seq<Value>)
    requires DistinctKeys(es)
    ensures DistinctKeys(Without(es, keys))
    decreases |es|
  {
    if |es| > 0 {
      var tail := es[1..];
      assert DistinctKeys(tail) by {
        forall i, j | 0 <= i < j < |tail|
          ensures tail[i].key != tail[j].key
        {
          assert tail[i] == es[i + 1] && tail[j] == es[j + 1];
        }
      }
      WithoutDistinct(tail, keys);
      WithoutSub(tail, keys);
      var rest := Without(tail, keys);
      forall i | 0 <= i < |rest|
        ensures rest[i].key != es[0].key
      {
        assert rest[i] in rest;
        var m :| 0 <= m < |tail| && tail[m] == rest[i];
        assert es[m + 1] == rest[i];
      }
    }
  }

  /**
   * `excludeProperties` keeps exactly the own keys that are not listed, each
   * with its original value, in the original order, with no key twice.
   * `null` and `undefined` give `undefined`.
   */
  lemma ExcludeKeeps(obj: Value, keys: seq<Value>)
    requires obj.Obj? ==> DistinctKeys(obj.props)
    ensures obj.Null? || obj.Undefined? ==> ExcludeProperties(obj, keys) == Undefined
    ensures !(obj.Null? || obj.Undefined?) ==>
      var r := ExcludeProperties(obj, keys);
      var es := OwnEntries(obj).value;
      && r.Obj?
      && DistinctKeys(r.props)
      && (forall k :: Lookup(r.props, k) == if Str(k) in keys then None else Lookup(es, k))
      && (forall x :: x in r.props ==> x in es && Str(x.key) !in keys)
  {
    if !(obj.Null? || obj.Undefined?) {
      OwnEntriesDistinct(obj);
      var es := OwnEntries(obj).value;
      WithoutSub(es, keys);
      WithoutDistinct(es, keys);
      forall k
        ensures Lookup(Without(es, keys), k) == if Str(k) in keys then None else Lookup(es, k)
      {
        WithoutLookup(es, keys, k);
      }
    }
  }

  lemma {:induction false} WithoutWithout(es: seq<Prop>, a: seq<Value>, b: seq<Value>)
    ensures Without(Without(es, a), b) == Without(es, a + b)
    decreases |es|
  {
    if |es| > 0 {
      WithoutWithout(es[1..], a, b);
      var wa := Without(es, a);
      if Str(es[0].key) !in a {
        assert wa[0] == es[0] && wa[1..] == Without(es[1..], a);
      } else {
        assert wa == Without(es[1..], a);
      }
    }
  }

  lemma {:induction false} WithoutNothing(es: seq<Prop>)
    ensures Without(es, []) == es
    decreases |es|
  {
    if |es| > 0 {
      WithoutNothing(es[1..]);
    }
  }

  /**
   * Excluding in two steps is excluding the union of the keys, and excluding
   * nothing copies a plain object property for property.
   */
  lemma ExcludeComposes(p: seq<Prop>, a: seq<Value>, b: seq<Value>)
    ensures ExcludeProperties(ExcludeProperties(Obj(p), a), b) == ExcludeProperties(Obj(p), a + b)
    ensures ExcludeProperties(Obj(p), []) == Obj(p)
  {
    WithoutWithout(p, a, b);
    WithoutNothing(p);
  }

  /**
   * The kept properties stay in input order: excluding from a concatenation is
   * concatenating the exclusions.
   */
  lemma ExcludeKeepsOrder(p: seq<Prop>, q: seq<Prop>, keys: seq<Value>)
    ensures ExcludeProperties(Obj(p + q), keys).props
      == ExcludeProperties(Obj(p), keys).props + ExcludeProperties(Obj(q), keys).props
  {
    WithoutAppend(p, q, keys);
  }

  /** `excludeProperties({ a: 1, b: 2, c: 3 }, 'b')` is `{ a: 1, c: 3 }`; a string is split into index keys. */
  lemma ExcludeExample()
    ensures ExcludeProperties(Obj([Prop("a", Num(1)), Prop("b", Num(2)), Prop("c", Num(3))]), [Str("b")])
      == Obj([Prop("a", Num(1)), Prop("c", Num(3))])
    ensures ExcludeProperties(Str("xy"), [Str("0")]) == Obj([Prop("1", Str("y"))])
  {
    var es := [Prop("a", Num(1)), Prop("b", Num(2)), Prop("c", Num(3))];
    assert es[1..][1..] == [Prop("c", Num(3))];
    var xs := OwnEntries(Str("xy")).value;
    assert NatToDecimal(0) == "0" && NatToDecimal(1) == "1";
    assert xs == [Prop("0", Str("x")), Prop("1", Str("y"))];
    assert xs[1..] == [Prop("1", Str("y"))];
  }

  /** A non-string key excludes nothing: `excludeProperties({ 0: 'a' }, 0)` keeps the property `'0'`. */
  lemma NumberKeyExcludesNothing(p: seq<Prop>, n: int)
    ensures ExcludeProperties(Obj(p), [Num(n)]) == Obj(p)
    ensures ExcludeProperties(Obj([Prop("0", Str("a"))]), [Num(0)]) == Obj([Prop("0", Str("a"))])
  {
    WithoutNone(p, [Num(n)]);
  }

  /** Keys that hold no string exclude nothing. */
  lemma {:induction false} WithoutNone(es: seq<Prop>, keys: seq<Value>)
    requires forall i :: 0 <= i < |keys| ==> !keys[i].Str?
    ensures Without(es, keys) == es
    decreases |es|
  {
    if |es| > 0 {
      WithoutNone(es[1..], keys);
    }
  }

  // ---------------------------------------------------------------------------
  // keysToLowerCase

  /** `accumulator[k] = v`: overwrite in place when the key exists, else append. */
  function SetProp(acc: seq<Prop>, k: string, v: Value): (r: seq<Prop>)
    ensures forall K :: Lookup(r, K) == if K == k then Some(v) else Lookup(acc, K)
    ensures DistinctKeys(acc) ==> DistinctKeys(r)
    ensures LookupIndex(acc, k).None? ==> r == acc + [Prop(k, v)]
  {
    match LookupIndex(acc, k)
    case Some(j) =>
      var r := acc[j := Prop(k, v)];
      assert forall K :: K != k ==> LookupIndex(r, K) == LookupIndex(acc, K) by {
        forall K | K != k
          ensures LookupIndex(r, K) == LookupIndex(acc, K)
        {
          LookupIndexSame(acc, r, K);
        }
      }
      assert LookupIndex(r, k) == Some(j) by {
        LookupIndexSame(acc, r, k);
      }
      r
    case None =>
      var r := acc + [Prop(k, v)];
      assert forall K :: K != k ==> LookupIndex(r, K) == LookupIndex(acc, K) by {
        forall K | K != k
          ensures LookupIndex(r, K) == LookupIndex(acc, K)
        {
          LookupIndexAppend(acc, Prop(k, v), K);
        }
      }
      assert LookupIndex(r, k) == Some(|acc|) by {
        LookupIndexAppend(acc, Prop(k, v), k);
      }
      r
  }

  /** Two lists with the same keys at every position find a key at the same position. */
  lemma {:induction false} LookupIndexSame(a: seq<Prop>, b: seq<Prop>, k: string)
    requires |a| == |b|
    requires forall i :: 0 <= i < |a| ==> a[i].key == b[i].key
    ensures LookupIndex(a, k) == LookupIndex(b, k)
    decreases |a|
  {
    if |a| > 0 {
      LookupIndexSame(a[1..], b[1..], k);
    }
  }

  lemma {:induction false} LookupIndexAppend(a: seq<Prop>, p: Prop, k: string)
    ensures LookupIndex(a + [p], k) ==
      match LookupIndex(a, k) case Some(j) => Some(j) case None => if p.key == k then Some(|a|) else None
    decreases |a|
  {
    if |a| > 0 {
      assert (a + [p])[1..] == a[1..] + [p];
      LookupIndexAppend(a[1..], p, k);
    }
  }

  /** The value stored for an entry: object-typed values are lowered one level when `nested`. */
  function Lowered(v: Value, nested: bool): Value
    decreases if nested then 1 else 0, 2
  {
    if nested && TypeOf(v) == "object" then KeysToLowerCase(v, false) else v
  }

  /** The `reduce` loop of `keysToLowerCase` over the remaining entries. */
  function LowerEntries(acc: seq<Prop>, es: seq<Prop>, nested: bool): seq<Prop>
    decreases if nested then 1 else 0, 3, |es|
  {
    if |es| == 0 then acc
    else LowerEntries(SetProp(acc, Lower(es[0].key), Lowered(es[0].val, nested)), es[1..], nested)
  }

  /**
   * `keysToLowerCase(obj, nested)`. The recursive call for an object-typed value
   * omits `nested`, so only one extra level is lowered. `Object.keys` throws on
   * `null` and `undefined`; the error is logged and `undefined` returned.
   */
  function KeysToLowerCase(obj: Value, nested: bool): Value
    decreases if nested then 1 else 0, 4
  {
    match OwnEntries(obj)
    case None => Undefined
    case Some(es) => Obj(LowerEntries([], es, nested))
  }

  /** Index of the last entry whose key lowers to `k`. */
  function LastLowered(es: seq<Prop>, k: string): (r: Option<nat>)
    ensures r.Some? ==> r.value < |es| && Lower(es[r.value].key) == k
    ensures r.Some? ==> forall j :: r.value < j < |es| ==> Lower(es[j].key) != k
    ensures r.None? ==> forall j :: 0 <= j < |es| ==> Lower(es[j].key) != k
    decreases |es|
  {
    if |es| == 0 then None
    else match LastLowered(es[1..], k)
      case Some(j) => Some(j + 1)
      case None => if Lower(es[0].key) == k then Some(0) else None
  }

  lemma {:induction false} LowerEntriesLookup(acc: seq<Prop>, es: seq<Prop>, nested: bool, k: string)
    ensures Lookup(LowerEntries(acc, es, nested), k) ==
      match LastLowered(es, k)
      case Some(j) => Some(Lowered(es[j].val, nested))
      case None => Lookup(acc, k)
    decreases |es|
  {
    if |es| > 0 {
      var k0 := Lower(es[0].key);
      var v0 := Lowered(es[0].val, nested);
      var acc' := SetProp(acc, k0, v0);
      LowerEntriesLookup(acc', es[1..], nested, k);
      assert LowerEntries(acc, es, nested) == LowerEntries(acc', es[1..], nested);
      match LastLowered(es[1..], k)
      case Some(j) =>
        assert LastLowered(es, k) == Some(j + 1);
        assert es[1..][j] == es[j + 1];
      case None =>
        assert LastLowered(es, k) == if k0 == k then Some(0) else None;
        assert Lookup(acc', k) == if k == k0 then Some(v0) else Lookup(acc, k);
    }
  }

  lemma {:induction false} LowerEntriesDistinct(acc: seq<Prop>, es: seq<Prop>, nested: bool)
    requires DistinctKeys(acc)
    ensures DistinctKeys(LowerEntries(acc, es, nested))
    decreases |es|
  {
    if |es| > 0 {
      LowerEntriesDistinct(SetProp(acc, Lower(es[0].key), Lowered(es[0].val, nested)), es[1..], nested);
    }
  }

  /**
   * Every key of the result is the lower-case form of an input key and every
   * input key's lower-case form is a key of the result, once; its value is that
   * of the LAST input key lowering to it (lowered one more level when `nested`
   * and the value is object-typed). `null` and `undefined` give `undefined`.
   */
  lemma KeysToLowerCaseSpec(obj: Value, nested: bool, k: string)
    ensures obj.Null? || obj.Undefined? ==> KeysToLowerCase(obj, nested) == Undefined
    ensures !(obj.Null? || obj.Undefined?) ==>
      var r := KeysToLowerCase(obj, nested);
      var es := OwnEntries(obj).value;
      && r.Obj?
      && DistinctKeys(r.props)
      && (k in Keys(r.props) <==> exists j :: 0 <= j < |es| && Lower(es[j].key) == k)
      && Lookup(r.props, k) == match LastLowered(es, k)
           case Some(j) => Some(Lowered(es[j].val, nested))
           case None => None
  {
    if !(obj.Null? || obj.Undefined?) {
      var es := OwnEntries(obj).value;
      var r := KeysToLowerCase(obj, nested);
      LowerEntriesLookup([], es, nested, k);
      LowerEntriesDistinct([], es, nested);
      if k in Keys(r.props) {
        var i :| 0 <= i < |r.props| && Keys(r.props)[i] == k;
        assert LookupIndex(r.props, k).Some?;
      }
      if exists j :: 0 <= j < |es| && Lower(es[j].key) == k {
        var i := LookupIndex(r.props, k).value;
        assert Keys(r.props)[i] == k;
      }
    }
  }

  /** Each property with its key lowered and its value lowered as `keysToLowerCase` does. */
  function LoweredProps(es: seq<Prop>, nested: bool): (r: seq<Prop>)
    ensures |r| == |es|
  {
    seq(|es|, j requires 0 <= j < |es| => Prop(Lower(es[j].key), Lowered(es[j].val, nested)))
  }

  /**
   * When no two input keys lower to the same key, and none collides with the
   * accumulator, every assignment appends: the result is the accumulator
   * followed by the lowered properties, in input order.
   */
  lemma {:induction false} NoCollisionKeepsOrder(acc: seq<Prop>, es: seq<Prop>, nested: bool)
    requires forall i, j :: 0 <= i < j < |es| ==> Lower(es[i].key) != Lower(es[j].key)
    requires forall i, j :: 0 <= i < |acc| && 0 <= j < |es| ==> acc[i].key != Lower(es[j].key)
    ensures LowerEntries(acc, es, nested) == acc + LoweredProps(es, nested)
    decreases |es|
  {
    if |es| > 0 {
      var p0 := Prop(Lower(es[0].key), Lowered(es[0].val, nested));
      var rest := es[1..];
      NoCollisionStep(acc, es, nested);
      NoCollisionKeepsOrder(acc + [p0], rest, nested);
      LoweredPropsCons(es, nested);
      assert (acc + [p0]) + LoweredProps(rest, nested) == acc + ([p0] + LoweredProps(rest, nested));
    }
  }

  lemma LoweredPropsCons(es: seq<Prop>, nested: bool)
    requires |es| > 0
    ensures LoweredProps(es, nested) ==
      [Prop(Lower(es[0].key), Lowered(es[0].val, nested))] + LoweredProps(es[1..], nested)
  {
    var rest := es[1..];
    forall j | 0 < j < |es|
      ensures LoweredProps(es, nested)[j] == LoweredProps(rest, nested)[j - 1]
    {
      assert rest[j - 1] == es[j];
    }
  }

  /** One step without collision: the first property is appended, and the requirements carry over to the rest. */
  lemma NoCollisionStep(acc: seq<Prop>, es: seq<Prop>, nested: bool)
    requires |es| > 0
    requires forall i, j :: 0 <= i < j < |es| ==> Lower(es[i].key) != Lower(es[j].key)
    requires forall i, j :: 0 <= i < |acc| && 0 <= j < |es| ==> acc[i].key != Lower(es[j].key)
    ensures var p0 := Prop(Lower(es[0].key), Lowered(es[0].val, nested));
      LowerEntries(acc, es, nested) == LowerEntries(acc + [p0], es[1..], nested)
    ensures var rest := es[1..];
      forall i, j :: 0 <= i < j < |rest| ==> Lower(rest[i].key) != Lower(rest[j].key)
    ensures var acc', rest := acc + [Prop(Lower(es[0].key), Lowered(es[0].val, nested))], es[1..];
      forall i, j :: 0 <= i < |acc'| && 0 <= j < |rest| ==> acc'[i].key != Lower(rest[j].key)
  {
    var k0 := Lower(es[0].key);
    var v0 := Lowered(es[0].val, nested);
    AppendFresh(acc, k0, v0);
    var acc' := acc + [Prop(k0, v0)];
    var rest := es[1..];
    forall i, j | 0 <= i < j < |rest|
      ensures Lower(rest[i].key) != Lower(rest[j].key)
    {
      assert rest[i] == es[i + 1] && rest[j] == es[j + 1];
    }
    forall i, j | 0 <= i < |acc'| && 0 <= j < |rest|
      ensures acc'[i].key != Lower(rest[j].key)
    {
      assert rest[j] == es[j + 1];
    }
  }

  /** Assigning a key the accumulator does not hold appends it. */
  lemma AppendFresh(acc: seq<Prop>, k: string, v: Value)
    requires forall i :: 0 <= i < |acc| ==> acc[i].key != k
    ensures SetProp(acc, k, v) == acc + [Prop(k, v)]
  {
    assert LookupIndex(acc, k).None?;
  }

  /** `{ A: { B: { C: 1 } }, N: null }` lowered with `nested` is `{ a: { b: { C: 1 } }, n: undefined }`. */
  lemma NestedOneLevelExample()
    ensures KeysToLowerCase(
        Obj([Prop("A", Obj([Prop("B", Obj([Prop("C", Num(1))]))])), Prop("N", Null)]), true)
      == Obj([Prop("a", Obj([Prop("b", Obj([Prop("C", Num(1))]))])), Prop("n", Undefined)])
  {
    assert Lower("A") == "a" && Lower("B") == "b" && Lower("N") == "n";
    var inner := Obj([Prop("B", Obj([Prop("C", Num(1))]))]);
    assert KeysToLowerCase(inner, false) == Obj([Prop("b", Obj([Prop("C", Num(1))]))]);
    assert KeysToLowerCase(Null, false) == Undefined;
  }

  /** Colliding keys: `{ Ab: 1, aB: 2 }` gives `{ ab: 2 }`, the later value in the first key's place. */
  lemma CollisionExample()
    ensures KeysToLowerCase(Obj([Prop("Ab", Num(1)), Prop("aB", Num(2))]), false) == Obj([Prop("ab", Num(2))])
  {
    assert Lower("Ab") == "ab" && Lower("aB") == "ab";
    assert SetProp([], "ab", Num(1)) == [Prop("ab", Num(1))];
    assert LookupIndex([Prop("ab", Num(1))], "ab") == Some(0);
  }

  // ---------------------------------------------------------------------------
  // _traverse

  /** The `type` argument: `'key'`, `'value'`, `'all'`, or anything else. */
  datatype SearchType = KeyType | ValueType | AllType | OtherType

  /**
   * When the own matches of a node are emitted: the code tests the truthiness
   * of the first matched key; the evident intent is "when anything matched".
   */
  datatype Guard = FirstKeyTruthy | AnyMatch

  /** `currentPath ? `${currentPath}.${key}` : key`. */
  function JoinPath(path: string, key: string): (r: string)
    ensures path == "" ==> r == key
    ensures path != "" ==> |r| == |path| + 1 + |key| && r[..|path|] == path && r[|path|] == '.' && r[|path| + 1..] == key
  {
    if path == "" then key else path + "." + key
  }

  /** The match test of one own property against the lower-cased target `t`. */
  predicate KeyMatches(e: Prop, t: string, exact: bool, ty: SearchType)
  {
    var keyHit := if exact then Lower(e.key) == t else Includes(Lower(e.key), t);
    var valueHit := if exact then e.val == Str(t) else e.val.Str? && Includes(Lower(e.val.s), t);
    match ty
    case KeyType => keyHit
    case ValueType => valueHit
    case AllType => keyHit || valueHit
    case OtherType => false
  }

  /** `Object.keys(obj).filter(...)`, kept as whole entries. */
  function Matching(es: seq<Prop>, t: string, exact: bool, ty: SearchType): (r: seq<Prop>)
    ensures forall x :: x in r <==> x in es && KeyMatches(x, t, exact, ty)
    decreases |es|
  {
    if |es| == 0 then []
    else
      var rest := Matching(es[1..], t, exact, ty);
      assert forall x :: x in es <==> x == es[0] || x in es[1..];
      if KeyMatches(es[0], t, exact, ty) then [es[0]] + rest else rest
  }

  /** Whether the own matches are yielded. */
  predicate Fires(g: Guard, m: seq<Prop>)
  {
    match g
    case FirstKeyTruthy => |m| > 0 && m[0].key != ""
    case AnyMatch => |m| > 0
  }

  /** The paths of the matched keys under `path`, in match order. */
  function OwnPaths(path: string, m: seq<Prop>): (r: seq<string>)
    ensures |r| == |m| && forall k :: 0 <= k < |m| ==> r[k] == JoinPath(path, m[k].key)
  {
    seq(|m|, k requires 0 <= k < |m| => JoinPath(path, m[k].key))
  }

  /**
   * `_traverse(obj, targetValue, exactMatch, type, currentPath)` as the list of
   * paths the generator yields. A value whose `typeof` is not `'object'` yields
   * nothing; `null` makes `Object.keys` throw and an unknown `type` leaves
   * `matchedKeys` undefined so that `matchedKeys[0]` throws: both errors are
   * logged and end the generator before it yields anything.
   */
  function TraverseWith(g: Guard, obj: Value, target: string, exact: bool, ty: SearchType, path: string): seq<string>
    decreases obj, 1
  {
    if TypeOf(obj) != "object" || obj.Null? || ty.OtherType? then []
    else
      var es := OwnEntries(obj).value;
      var t := Lower(target);
      var m := Matching(es, t, exact, ty);
      (if Fires(g, m) then OwnPaths(path, m) else [])
        + ChildPaths(g, obj, es, 0, t, exact, ty, path)
  }

  /** The `for (const key in obj)` loop: the walks of the properties from `i` on, in order. */
  function ChildPaths(g: Guard, ghost parent: Value, es: seq<Prop>, i: nat, t: string, exact: bool, ty: SearchType, path: string): seq<string>
    requires i <= |es|
    requires forall j :: 0 <= j < |es| ==> es[j].val < parent
    decreases parent, 0, |es| - i
  {
    if i == |es| then []
    else
      TraverseWith(g, es[i].val, t, exact, ty, JoinPath(path, es[i].key))
        + ChildPaths(g, parent, es, i + 1, t, exact, ty, path)
  }

  /** `_traverse` as written: own matches are dropped when the first matched key is `""`. */
  function TraverseAsWritten(obj: Value, target: string, exact: bool, ty: SearchType, path: string): seq<string>
  {
    TraverseWith(FirstKeyTruthy, obj, target, exact, ty, path)
  }

  /** `_traverse` with the evidently intended guard: every match is yielded. */
  function Traverse(obj: Value, target: string, exact: bool, ty: SearchType, path: string): seq<string>
  {
    TraverseWith(AnyMatch, obj, target, exact, ty, path)
  }

  /**
   * The reference meaning of a result: `route` picks an own property at each
   * level (by position in `Object.keys` order) through object-typed values, the
   * last picked property matches `t`, and `s` is its dotted path under `path`.
   */
  ghost predicate Hit(v: Value, t: string, exact: bool, ty: SearchType, path: string, route: seq<nat>, s: string)
    decreases |route|
  {
    && |route| > 0 && !ty.OtherType?
    && TypeOf(v) == "object" && OwnEntries(v).Some?
    && route[0] < |OwnEntries(v).value|
    && var e := OwnEntries(v).value[route[0]];
       if |route| == 1 then KeyMatches(e, t, exact, ty) && s == JoinPath(path, e.key)
       else Hit(e.val, t, exact, ty, JoinPath(path, e.key), route[1..], s)
  }

  /** `s` is the path of some match below `v`. */
  ghost predicate Found(v: Value, t: string, exact: bool, ty: SearchType, path: string, s: string)
  {
    exists route :: Hit(v, t, exact, ty, path, route, s)
  }

  /** Every yielded path is the path of a match, whichever guard is used. */
  lemma {:induction false} TraverseSound(g: Guard, v: Value, target: string, exact: bool, ty: SearchType, path: string)
    ensures forall s :: s in TraverseWith(g, v, target, exact, ty, path) ==> Found(v, Lower(target), exact, ty, path, s)
    decreases v, 1
  {
    if !(TypeOf(v) != "object" || v.Null? || ty.OtherType?) {
      var es := OwnEntries(v).value;
      var t := Lower(target);
      var m := Matching(es, t, exact, ty);
      var own := if Fires(g, m) then OwnPaths(path, m) else [];
      var kids := ChildPaths(g, v, es, 0, t, exact, ty, path);
      assert TraverseWith(g, v, target, exact, ty, path) == own + kids;
      LowerProperties(target);
      ChildPathsSound(g, v, es, 0, t, exact, ty, path);
      forall s | s in own + kids
        ensures Found(v, t, exact, ty, path, s)
      {
        if s in own {
          OwnPathSound(v, t, exact, ty, path, s);
        } else {
          assert HitBelow(es, 0, t, exact, ty, path, s);
          var j, route :| 0 <= j < |es| && Hit(es[j].val, t, exact, ty, JoinPath(path, es[j].key), route, s);
          ChildPathSound(v, t, exact, ty, path, j, route, s);
        }
      }
    }
  }

  lemma OwnPathSound(v: Value, t: string, exact: bool, ty: SearchType, path: string, s: string)
    requires TypeOf(v) == "object" && !v.Null? && !ty.OtherType?
    requires s in OwnPaths(path, Matching(OwnEntries(v).value, t, exact, ty))
    ensures Found(v, t, exact, ty, path, s)
  {
    var es := OwnEntries(v).value;
    var m := Matching(es, t, exact, ty);
    var k :| 0 <= k < |m| && OwnPaths(path, m)[k] == s;
    assert m[k] in m;
    var j :| 0 <= j < |es| && es[j] == m[k];
    assert Hit(v, t, exact, ty, path, [j], s);
  }

  lemma ChildPathSound(v: Value, t: string, exact: bool, ty: SearchType, path: string, j: nat, route: seq<nat>, s: string)
    requires TypeOf(v) == "object" && !v.Null? && j < |OwnEntries(v).value|
    requires Hit(OwnEntries(v).value[j].val, t, exact, ty, JoinPath(path, OwnEntries(v).value[j].key), route, s)
    ensures Hit(v, t, exact, ty, path, [j] + route, s)
    ensures Found(v, t, exact, ty, path, s)
  {
    assert ([j] + route)[1..] == route;
    assert Hit(v, t, exact, ty, path, [j] + route, s);
  }

  /** Some property of `es` from position `i` on leads to a match with path `s`. */
  ghost predicate HitBelow(es: seq<Prop>, i: nat, t: string, exact: bool, ty: SearchType, path: string, s: string)
  {
    exists j, route :: i <= j < |es| && Hit(es[j].val, t, exact, ty, JoinPath(path, es[j].key), route, s)
  }

  lemma {:induction false} ChildPathsSound(g: Guard, v: Value, es: seq<Prop>, i: nat, t: string, exact: bool, ty: SearchType, path: string)
    requires i <= |es| && IsLower(t)
    requires forall j :: 0 <= j < |es| ==> es[j].val < v
    ensures forall s :: s in ChildPaths(g, v, es, i, t, exact, ty, path) ==> HitBelow(es, i, t, exact, ty, path, s)
    decreases v, 0, |es| - i
  {
    if i < |es| {
      var here := TraverseWith(g, es[i].val, t, exact, ty, JoinPath(path, es[i].key));
      var later := ChildPaths(g, v, es, i + 1, t, exact, ty, path);
      assert ChildPaths(g, v, es, i, t, exact, ty, path) == here + later;
      TraverseSound(g, es[i].val, t, exact, ty, JoinPath(path, es[i].key));
      LowerOfLower(t);
      ChildPathsSound(g, v, es, i + 1, t, exact, ty, path);
      forall s | s in here + later
        ensures HitBelow(es, i, t, exact, ty, path, s)
      {
        if s in here {
          assert Found(es[i].val, t, exact, ty, JoinPath(path, es[i].key), s);
          var route :| Hit(es[i].val, t, exact, ty, JoinPath(path, es[i].key), route, s);
          assert i <= i < |es| && Hit(es[i].val, t, exact, ty, JoinPath(path, es[i].key), route, s);
        } else {
          assert HitBelow(es, i + 1, t, exact, ty, path, s);
          var j, route :| i + 1 <= j < |es| && Hit(es[j].val, t, exact, ty, JoinPath(path, es[j].key), route, s);
          assert i <= j < |es| && Hit(es[j].val, t, exact, ty, JoinPath(path, es[j].key), route, s);
        }
      }
    }
  }

  /** An already lower-case target is left as it is by the recursive calls' `toLowerCase`. */
  lemma LowerOfLower(t: string)
    requires IsLower(t)
    ensures Lower(t) == t
  {
  }

  /** With the intended guard, every path of a match is yielded. */
  lemma {:induction false} TraverseComplete(v: Value, target: string, exact: bool, ty: SearchType, path: string, route: seq<nat>, s: string)
    requires Hit(v, Lower(target), exact, ty, path, route, s)
    ensures s in Traverse(v, target, exact, ty, path)
    decreases |route|
  {
    var es := OwnEntries(v).value;
    var t := Lower(target);
    var m := Matching(es, t, exact, ty);
    var e := es[route[0]];
    assert !v.Null? && !ty.OtherType?;
    if |route| == 1 {
      assert e in m;
      var k :| 0 <= k < |m| && m[k] == e;
      assert OwnPaths(path, m)[k] == s;
    } else {
      LowerProperties(target);
      TraverseComplete(e.val, t, exact, ty, JoinPath(path, e.key), route[1..], s);
      var ws := seq(|es|, j requires 0 <= j < |es| => Traverse(es[j].val, t, exact, ty, JoinPath(path, es[j].key)));
      ChildPathsConcat(AnyMatch, v, es, 0, t, exact, ty, path, ws);
      assert ws[0..] == ws;
      ConcatContains(ws, route[0], s);
      InAppend(s, if Fires(AnyMatch, m) then OwnPaths(path, m) else [], ChildPaths(AnyMatch, v, es, 0, t, exact, ty, path));
    }
  }

  /**
   * The corrected search yields exactly the paths of the matches; the code as
   * written yields only such paths, but may miss some.
   */
  lemma TraverseFindsExactly(v: Value, target: string, exact: bool, ty: SearchType, path: string, s: string)
    ensures s in Traverse(v, target, exact, ty, path) <==> Found(v, Lower(target), exact, ty, path, s)
    ensures s in TraverseAsWritten(v, target, exact, ty, path) ==> Found(v, Lower(target), exact, ty, path, s)
  {
    TraverseSound(AnyMatch, v, target, exact, ty, path);
    TraverseSound(FirstKeyTruthy, v, target, exact, ty, path);
    if Found(v, Lower(target), exact, ty, path, s) {
      var route :| Hit(v, Lower(target), exact, ty, path, route, s);
      TraverseComplete(v, target, exact, ty, path, route, s);
    }
  }

  /** A path in either part is in the concatenation. */
  lemma InAppend(s: string, a: seq<string>, b: seq<string>)
    requires s in a || s in b
    ensures s in a + b
  {
    if s in a {
      var k :| 0 <= k < |a| && a[k] == s;
      assert (a + b)[k] == s;
    } else {
      var k :| 0 <= k < |b| && b[k] == s;
      assert (a + b)[|a| + k] == s;
    }
  }

  /** Below a node holding no `""` key anywhere, the two guards agree. */
  predicate NoEmptyKey(v: Value)
    decreases v
  {
    match v
    case Arr(e) => forall i :: 0 <= i < |e| ==> NoEmptyKey(e[i])
    case Obj(p) => forall j :: 0 <= j < |p| ==> p[j].key != "" && NoEmptyKey(p[j].val)
    case _ => true
  }

  /** The code as written only loses results at nodes with a `""` key. */
  lemma {:induction false} AsWrittenAgrees(v: Value, target: string, exact: bool, ty: SearchType, path: string)
    requires NoEmptyKey(v)
    ensures TraverseAsWritten(v, target, exact, ty, path) == Traverse(v, target, exact, ty, path)
    decreases v, 1
  {
    if !(TypeOf(v) != "object" || v.Null? || ty.OtherType?) {
      var es := OwnEntries(v).value;
      var t := Lower(target);
      var m := Matching(es, t, exact, ty);
      if |m| > 0 {
        assert m[0] in m;
        var j :| 0 <= j < |es| && es[j] == m[0];
        EntryKeyNonEmpty(v, j);
      }
      assert Fires(FirstKeyTruthy, m) == Fires(AnyMatch, m);
      ChildPathsAgree(v, es, 0, t, exact, ty, path);
      assert TraverseAsWritten(v, target, exact, ty, path)
        == (if Fires(AnyMatch, m) then OwnPaths(path, m) else []) + ChildPaths(AnyMatch, v, es, 0, t, exact, ty, path);
    }
  }

  lemma {:induction false} ChildPathsAgree(v: Value, es: seq<Prop>, i: nat, t: string, exact: bool, ty: SearchType, path: string)
    requires i <= |es|
    requires (v.Arr? || v.Obj? || v.Instance?) && NoEmptyKey(v) && es == OwnEntries(v).value
    ensures ChildPaths(FirstKeyTruthy, v, es, i, t, exact, ty, path) == ChildPaths(AnyMatch, v, es, i, t, exact, ty, path)
    decreases v, 0, |es| - i
  {
    if i < |es| {
      EntryKeyNonEmpty(v, i);
      AsWrittenAgrees(es[i].val, t, exact, ty, JoinPath(path, es[i].key));
      ChildPathsAgree(v, es, i + 1, t, exact, ty, path);
    }
  }

  /** Own entries of a node with no `""` key have non-empty keys and children of the same kind. */
  lemma EntryKeyNonEmpty(v: Value, j: nat)
    requires NoEmptyKey(v) && OwnEntries(v).Some? && j < |OwnEntries(v).value|
    ensures OwnEntries(v).value[j].key != ""
    ensures NoEmptyKey(OwnEntries(v).value[j].val)
  {
    if v.Arr? || v.Str? {
      DecimalRoundTrip(j);
    }
  }

  // ---------------------------------------------------------------------------
  // The order in which `_traverse` yields.

  /** The lists of `ws` one after the other. */
  function Concat(ws: seq<seq<string>>): seq<string>
    decreases |ws|
  {
    if |ws| == 0 then [] else ws[0] + Concat(ws[1..])
  }

  /** The filter keeps the `Object.keys` order: matching a concatenation concatenates the matches. */
  lemma {:induction false} MatchingAppend(a: seq<Prop>, b: seq<Prop>, t: string, exact: bool, ty: SearchType)
    ensures Matching(a + b, t, exact, ty) == Matching(a, t, exact, ty) + Matching(b, t, exact, ty)
    decreases |a|
  {
    if |a| == 0 {
      assert a + b == b;
    } else {
      assert (a + b)[0] == a[0];
      assert (a + b)[1..] == a[1..] + b;
      MatchingAppend(a[1..], b, t, exact, ty);
    }
  }

  /**
   * The generator yields a node's own matched paths first, in `Object.keys`
   * order and only when the guard lets them through, and then, property by
   * property in `for...in` order, everything the walk of that property's
   * value yields: `ws[i]` is the walk of the `i`-th property.
   */
  lemma TraverseOrder(g: Guard, v: Value, target: string, exact: bool, ty: SearchType, path: string, ws: seq<seq<string>>)
    requires TypeOf(v) == "object" && !v.Null? && !ty.OtherType?
    requires |ws| == |OwnEntries(v).value|
    requires forall i :: 0 <= i < |ws| ==>
      ws[i] == TraverseWith(g, OwnEntries(v).value[i].val, target, exact, ty, JoinPath(path, OwnEntries(v).value[i].key))
    ensures var m := Matching(OwnEntries(v).value, Lower(target), exact, ty);
      TraverseWith(g, v, target, exact, ty, path) == (if Fires(g, m) then OwnPaths(path, m) else []) + Concat(ws)
    ensures var m := Matching(OwnEntries(v).value, Lower(target), exact, ty);
      Fires(g, m) ==> OwnPaths(path, m) <= TraverseWith(g, v, target, exact, ty, path)
  {
    var es := OwnEntries(v).value;
    var t := Lower(target);
    forall j | 0 <= j < |ws|
      ensures ws[j] == TraverseWith(g, es[j].val, t, exact, ty, JoinPath(path, es[j].key))
    {
      TraverseTargetLowered(g, es[j].val, target, exact, ty, JoinPath(path, es[j].key));
    }
    ChildPathsConcat(g, v, es, 0, t, exact, ty, path, ws);
    assert ws[0..] == ws;
  }

  /** The search text is lowered on entry, so searching for its lowered form yields the same. */
  lemma TraverseTargetLowered(g: Guard, v: Value, target: string, exact: bool, ty: SearchType, path: string)
    ensures TraverseWith(g, v, Lower(target), exact, ty, path) == TraverseWith(g, v, target, exact, ty, path)
  {
    LowerProperties(target);
  }

  /** The loop from property `i` on yields the walks `ws[i..]` one after the other. */
  lemma {:induction false} ChildPathsConcat(g: Guard, parent: Value, es: seq<Prop>, i: nat, t: string,
                                            exact: bool, ty: SearchType, path: string, ws: seq<seq<string>>)
    requires i <= |es| && forall j :: 0 <= j < |es| ==> es[j].val < parent
    requires |ws| == |es|
    requires forall j :: 0 <= j < |ws| ==> ws[j] == TraverseWith(g, es[j].val, t, exact, ty, JoinPath(path, es[j].key))
    ensures ChildPaths(g, parent, es, i, t, exact, ty, path) == Concat(ws[i..])
    decreases |es| - i
  {
    if i < |es| {
      ChildPathsConcat(g, parent, es, i + 1, t, exact, ty, path, ws);
      assert ws[i..][1..] == ws[i + 1..];
    } else {
      assert ws[i..] == [];
    }
  }

  /** A path in one of the lists is in their concatenation. */
  lemma {:induction false} ConcatContains(ws: seq<seq<string>>, j: nat, s: string)
    requires j < |ws| && s in ws[j]
    ensures s in Concat(ws)
    decreases j
  {
    if j == 0 {
      InAppend(s, ws[0], Concat(ws[1..]));
    } else {
      ConcatContains(ws[1..], j - 1, s);
      InAppend(s, ws[0], Concat(ws[1..]));
    }
  }

  /** `{ a: { b: 'x' }, b: 'x' }` searched for the value `'x'` yields `'b'` before `'a.b'`: own matches come first. */
  lemma OwnMatchesFirstExample()
    ensures Traverse(Obj([Prop("a", Obj([Prop("b", Str("x"))])), Prop("b", Str("x"))]), "x", true, ValueType, "")
      == ["b", "a.b"]
  {
    var inner := Obj([Prop("b", Str("x"))]);
    var v := Obj([Prop("a", inner), Prop("b", Str("x"))]);
    var es := v.props;
    assert Lower("x") == "x";
    assert Matching(es, "x", true, ValueType) == [es[1]] by {
      assert Matching(es[1..], "x", true, ValueType) == [es[1]];
    }
    assert OwnPaths("", [es[1]]) == ["b"];
    InnerMatchExample();
    assert TraverseWith(AnyMatch, Str("x"), "x", true, ValueType, "b") == [];
    assert ChildPaths(AnyMatch, v, es, 2, "x", true, ValueType, "") == [];
    assert ChildPaths(AnyMatch, v, es, 1, "x", true, ValueType, "") == [];
    assert ChildPaths(AnyMatch, v, es, 0, "x", true, ValueType, "") == ["a.b"];
  }

  /** The inner object `{ b: 'x' }` under the path `'a'` yields `'a.b'`. */
  lemma InnerMatchExample()
    ensures TraverseWith(AnyMatch, Obj([Prop("b", Str("x"))]), "x", true, ValueType, "a") == ["a.b"]
  {
    var inner := Obj([Prop("b", Str("x"))]);
    assert Lower("x") == "x";
    assert Matching(inner.props, "x", true, ValueType) == inner.props;
    assert JoinPath("a", "b") == "a.b";
    assert OwnPaths("a", inner.props) == ["a.b"];
    assert TraverseWith(AnyMatch, Str("x"), "x", true, ValueType, "a.b") == [];
    assert ChildPaths(AnyMatch, inner, inner.props, 0, "x", true, ValueType, "a") == [];
  }

  /** The counterexample: `{ '': 'x', b: 'x' }` searched for the value `'x'`. */
  lemma EmptyKeyDropsMatches()
    ensures var v := Obj([Prop("", Str("x")), Prop("b", Str("x"))]);
      && Hit(v, "x", true, ValueType, "", [1], "b")
      && TraverseAsWritten(v, "x", true, ValueType, "") == []
      && Traverse(v, "x", true, ValueType, "") == ["", "b"]
  {
    var es := [Prop("", Str("x")), Prop("b", Str("x"))];
    assert Lower("x") == "x";
    assert Matching(es, "x", true, ValueType) == es by {
      assert Matching(es[1..], "x", true, ValueType) == [es[1]];
    }
  }
}
