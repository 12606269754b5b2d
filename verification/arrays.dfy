/** The array utilities: `isArray`, `assertArray` and `flattenArray`. */
module Arrays {
  import opened Wrappers
  import opened JsValue

  /** `isArray(input)`, which defers to `Array.isArray`. */
  predicate IsArray(input: Value)
  {
    input.Arr?
  }

  /** `assertArray(input)`: throws a TypeError naming the input's type exactly when it is not an array. */
  function AssertArray(input: Value): (r: Outcome<TypeError>)
    ensures r.Pass? <==> input.Arr?
    ensures r.Fail? ==> r.error.message == "Expected an array but received " + TypeOf(input) + "."
  {
    if !IsArray(input) then
      Fail(TypeError("Expected an array but received " + TypeOf(input) + "."))
    else Pass
  }

  /**
   * `array.reduce((flat, x) => flat.concat(isArray(x) ? flattenArray(x) : x), [])`
   * over the elements from index `i` on, with `flat` as the accumulator.
   */
  function FlattenFrom(e: seq<Value>, i: nat, flat: seq<Value>): seq<Value>
    decreases e, 0, |e| - i
  {
    if i >= |e| then flat
    else
      var x := e[i];
      FlattenFrom(e, i + 1, flat + (if IsArray(x) then Flatten(x.elems) else [x]))
  }

  /** The reduction started with the empty accumulator. */
  function Flatten(e: seq<Value>): seq<Value>
    decreases e, 1
  {
    FlattenFrom(e, 0, [])
  }

  /**
   * `flattenArray(array)`. There is no try/catch: reading `reduce` off `null`
   * or `undefined`, or calling it on a value that has no such method, throws a
   * TypeError to the caller (the message wording is V8's).
   */
  function FlattenArray(arr: Value): (r: Result<Value, TypeError>)
    ensures r.Ok? <==> arr.Arr?
    ensures r.Ok? ==> r.value.Arr?
    ensures arr.Undefined? ==> r == Err(TypeError("Cannot read properties of undefined (reading 'reduce')"))
    ensures arr.Null? ==> r == Err(TypeError("Cannot read properties of null (reading 'reduce')"))
    ensures !arr.Arr? && !arr.Undefined? && !arr.Null? ==> r == Err(TypeError("array.reduce is not a function"))
  {
    match arr
    case Arr(e) => Ok(Arr(Flatten(e)))
    case Undefined => Err(TypeError("Cannot read properties of undefined (reading 'reduce')"))
    case Null => Err(TypeError("Cannot read properties of null (reading 'reduce')"))
    case _ => Err(TypeError("array.reduce is not a function"))
  }

  // ---------------------------------------------------------------------------
  // Reference definition: the non-array leaves of a nested array, left to right.

  function Leaves(v: Value): seq<Value>
    decreases v
  {
    if v.Arr? then LeavesOf(v.elems) else [v]
  }

  function LeavesOf(e: seq<Value>): seq<Value>
    decreases e
  {
    if |e| == 0 then [] else Leaves(e[0]) + LeavesOf(e[1..])
  }

  /** How many non-array leaves a value holds, counted without building them. */
  function LeafCount(v: Value): nat
    decreases v
  {
    if v.Arr? then LeafCountOf(v.elems) else 1
  }

  function LeafCountOf(e: seq<Value>): nat
    decreases e
  {
    if |e| == 0 then 0 else LeafCount(e[0]) + LeafCountOf(e[1..])
  }

  lemma {:induction false} LeavesOfAppend(a: seq<Value>, b: seq<Value>)
    ensures LeavesOf(a + b) == LeavesOf(a) + LeavesOf(b)
    decreases |a|
  {
    if |a| > 0 {
      assert (a + b)[0] == a[0];
      assert (a + b)[1..] == a[1..] + b;
      LeavesOfAppend(a[1..], b);
    } else {
      assert a + b == b;
    }
  }

  /** Leaves are never arrays, and there are as many as `LeafCount` says. */
  lemma {:induction false} LeavesShape(v: Value)
    ensures forall i :: 0 <= i < |Leaves(v)| ==> !Leaves(v)[i].Arr?
    ensures |Leaves(v)| == LeafCount(v)
    decreases v
  {
    if v.Arr? {
      LeavesOfShape(v.elems);
    }
  }

  lemma {:induction false} LeavesOfShape(e: seq<Value>)
    ensures forall i :: 0 <= i < |LeavesOf(e)| ==> !LeavesOf(e)[i].Arr?
    ensures |LeavesOf(e)| == LeafCountOf(e)
    decreases e
  {
    if |e| > 0 {
      LeavesShape(e[0]);
      LeavesOfShape(e[1..]);
    }
  }

  /** The reduction appends the leaves of the remaining elements to the accumulator. */
  lemma {:induction false} FlattenFromIsLeaves(e: seq<Value>, i: nat, flat: seq<Value>)
    requires i <= |e|
    ensures FlattenFrom(e, i, flat) == flat + LeavesOf(e[i..])
    decreases e, 0, |e| - i
  {
    if i == |e| {
      assert e[i..] == [];
    } else {
      var x := e[i];
      if IsArray(x) {
        FlattenIsLeaves(x.elems);
      }
      FlattenFromIsLeaves(e, i + 1, flat + Leaves(x));
      assert e[i..] == [x] + e[i + 1..];
      LeavesOfAppend([x], e[i + 1..]);
      assert LeavesOf([x]) == Leaves(x) by {
        assert [x][1..] == [];
      }
    }
  }

  /** `flattenArray` lists exactly the non-array leaves, in left-to-right order. */
  lemma {:induction false} FlattenIsLeaves(e: seq<Value>)
    ensures Flatten(e) == LeavesOf(e)
    decreases e, 1
  {
    FlattenFromIsLeaves(e, 0, []);
    assert e[0..] == e;
  }

  /**
   * The result of `flattenArray` holds no array, keeps the leaves in order, has
   * one element per leaf, and `[]` flattens to `[]`.
   */
  lemma FlattenArrayShape(arr: Value)
    requires arr.Arr?
    ensures FlattenArray(arr).value.elems == LeavesOf(arr.elems)
    ensures forall i :: 0 <= i < |FlattenArray(arr).value.elems| ==> !FlattenArray(arr).value.elems[i].Arr?
    ensures |FlattenArray(arr).value.elems| == LeafCountOf(arr.elems)
    ensures arr.elems == [] ==> FlattenArray(arr) == Ok(Arr([]))
  {
    FlattenIsLeaves(arr.elems);
    LeavesOfShape(arr.elems);
  }

  /** An array with no nested array flattens to itself. */
  lemma {:induction false} FlatIsFixpoint(e: seq<Value>)
    requires forall i :: 0 <= i < |e| ==> !e[i].Arr?
    ensures LeavesOf(e) == e
    decreases |e|
  {
    if |e| > 0 {
      FlatIsFixpoint(e[1..]);
    }
  }

  /** `flattenArray` is idempotent. */
  lemma FlattenArrayIdempotent(arr: Value)
    requires arr.Arr?
    ensures FlattenArray(FlattenArray(arr).value) == FlattenArray(arr)
  {
    var flat := FlattenArray(arr).value.elems;
    FlattenArrayShape(arr);
    FlattenIsLeaves(flat);
    FlatIsFixpoint(flat);
  }
}
