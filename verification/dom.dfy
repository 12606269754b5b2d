/** `joinClassNames`: conditional joining of CSS class names, after the `classnames` package. */
module Dom {
  import opened Wrappers
  import opened Strings
  import opened JsValue
  import Arrays

  /** The own keys of a plain object whose values are truthy, in key order. */
  function TruthyKeys(p: seq<Prop>): seq<string>
    decreases |p|
  {
    if |p| == 0 then []
    else (if Truthy(p[0].val) then [p[0].key] else []) + TruthyKeys(p[1..])
  }

  /** An own property `k` whose value is not a function: calling `item[k]()` throws. */
  predicate OwnsNonFunction(p: seq<Prop>, k: string)
  {
    match Lookup(p, k) case Some(x) => !x.Func? case None => false
  }

  /**
   * A plain object on which the loop body throws a TypeError: an own
   * `toString` differs from `Object.prototype.toString` and is called; an own
   * `hasOwnProperty` is called by the `for...in` loop (at the latest on its own
   * key).
   */
  predicate ObjectThrows(p: seq<Prop>)
  {
    OwnsNonFunction(p, "toString") || OwnsNonFunction(p, "hasOwnProperty")
  }

  /** Two stretches of the loop one after the other: a throw in either ends the call. */
  function Then(a: Option<seq<string>>, b: Option<seq<string>>): Option<seq<string>>
  {
    if a.None? || b.None? then None else Some(a.value + b.value)
  }

  /**
   * What one argument pushes onto `classes`, or `None` when it throws:
   * nothing for a falsy value, `true` or a function; a string or number as it
   * is; the truthy result of the inner call for a non-empty array (an inner
   * call that throws catches its error and gives `undefined`, so nothing is
   * pushed); the `toString()` text of an object that overrides it; the
   * truthy-valued own keys of a plain object.
   */
  function ClassesOf(item: Value): Option<seq<string>>
    decreases item, 2
  {
    if !Truthy(item) then Some([])
    else match item
      case Str(s) => Some([s])
      case Num(n) => Some([IntToString(n)])
      case Arr(e) =>
        if |e| > 0 then
          var inner := JoinClassNames(e);
          if Truthy(inner) then Some([inner.s]) else Some([])
        else Some([])
      case Instance(text) => Some([text])
      case Obj(p) => if ObjectThrows(p) then None else Some(TruthyKeys(p))
      case _ => Some([])
  }

  /** The `classes` list after the loop over `items`, or `None` when an argument throws. */
  function Classes(items: seq<Value>): Option<seq<string>>
    decreases items, 0
  {
    if |items| == 0 then Some([]) else Then(ClassesOf(items[0]), Classes(items[1..]))
  }

  /**
   * `joinClassNames(...items)`: the pushed class names joined with single
   * spaces; a throw is caught and logged, and the call gives `undefined`.
   */
  function JoinClassNames(items: seq<Value>): (r: Value)
    ensures r.Str? || r.Undefined?
    decreases items, 1
  {
    match Classes(items)
    case None => Undefined
    case Some(cs) => Str(Join(cs, " "))
  }

  // ---------------------------------------------------------------------------
  // Properties.

  /** The loop over `a + b` is the loop over `a` followed by the loop over `b`. */
  lemma {:induction false} ClassesAppend(a: seq<Value>, b: seq<Value>)
    ensures Classes(a + b) == Then(Classes(a), Classes(b))
    decreases |a|
  {
    if |a| == 0 {
      assert a + b == b;
      if Classes(b).Some? {
        assert [] + Classes(b).value == Classes(b).value;
      }
    } else {
      assert (a + b)[0] == a[0];
      assert (a + b)[1..] == a[1..] + b;
      ClassesAppend(a[1..], b);
      var x, y, z := ClassesOf(a[0]), Classes(a[1..]), Classes(b);
      if x.Some? && y.Some? && z.Some? {
        assert x.value + (y.value + z.value) == (x.value + y.value) + z.value;
      }
    }
  }

  /** No arguments give the empty string. */
  lemma NoArguments()
    ensures JoinClassNames([]) == Str("")
  {
  }

  /**
   * Falsy arguments, `true` and functions contribute nothing: dropping one
   * leaves the result unchanged.
   */
  lemma IgnoredArgument(a: seq<Value>, x: Value, b: seq<Value>)
    requires !Truthy(x) || x.Bool? || x.Func?
    ensures JoinClassNames(a + [x] + b) == JoinClassNames(a + b)
  {
    assert ClassesOf(x) == Some([]);
    DropsOut(a, x, b);
  }

  /** An argument that pushes nothing and does not throw can be dropped. */
  lemma DropsOut(a: seq<Value>, x: Value, b: seq<Value>)
    requires ClassesOf(x) == Some([])
    ensures Classes(a + [x] + b) == Classes(a + b)
  {
    ClassesAppend(a + [x], b);
    ClassesAppend(a, [x]);
    ClassesAppend(a, b);
    assert [x][1..] == [];
    assert Classes([x]) == Some([] + []);
    match Classes(a)
    case None =>
    case Some(ca) => assert ca + ([] + []) == ca;
  }

  /**
   * A plain object whose own `toString` or `hasOwnProperty` is not a function
   * makes the call throw, so the result is `undefined` whatever the other
   * arguments; inside a nested array the inner call catches the error, and
   * the whole array contributes nothing.
   */
  lemma ThrowingArgument(a: seq<Value>, p: seq<Prop>, b: seq<Value>, c: seq<Value>, d: seq<Value>)
    requires ObjectThrows(p)
    ensures JoinClassNames(a + [Obj(p)] + b) == Undefined
    ensures JoinClassNames(a + [Arr(c + [Obj(p)] + d)] + b) == JoinClassNames(a + b)
  {
    ThrowEscapes(a, Obj(p), b);
    ThrowEscapes(c, Obj(p), d);
    assert ClassesOf(Arr(c + [Obj(p)] + d)) == Some([]);
    DropsOut(a, Arr(c + [Obj(p)] + d), b);
  }

  /** A throwing argument anywhere makes the whole loop throw. */
  lemma ThrowEscapes(a: seq<Value>, x: Value, b: seq<Value>)
    requires ClassesOf(x).None?
    ensures Classes(a + [x] + b).None?
  {
    ClassesAppend(a + [x], b);
    ClassesAppend(a, [x]);
    assert [x][1..] == [];
  }

  /** `joinClassNames({ hasOwnProperty: 1, a: true })` and `joinClassNames({ toString: 'x' })` give `undefined`. */
  lemma ShadowedBuiltinExample()
    ensures JoinClassNames([Obj([Prop("hasOwnProperty", Num(1)), Prop("a", Bool(true))])]) == Undefined
    ensures JoinClassNames([Obj([Prop("toString", Str("x"))])]) == Undefined
  {
  }

  /** The text a string or non-zero number is pushed as. */
  function Token(v: Value): string
    requires v.Str? || v.Num?
  {
    if v.Str? then v.s else IntToString(v.n)
  }

  /** Non-empty strings and non-zero numbers are pushed as they are, in argument order. */
  lemma {:induction false} PlainArguments(items: seq<Value>)
    requires forall i :: 0 <= i < |items| ==> (items[i].Str? || items[i].Num?) && Truthy(items[i])
    ensures Classes(items).Some? && |Classes(items).value| == |items|
    ensures forall i :: 0 <= i < |items| ==> Classes(items).value[i] == Token(items[i])
    decreases |items|
  {
    if |items| > 0 {
      PlainArguments(items[1..]);
      assert ClassesOf(items[0]) == Some([Token(items[0])]);
      var rest := Classes(items[1..]).value;
      assert Classes(items).value == [Token(items[0])] + rest;
      forall i | 0 < i < |items|
        ensures Classes(items).value[i] == Token(items[i])
      {
        assert items[1..][i - 1] == items[i];
      }
    }
  }

  /**
   * A plain object contributes exactly its own keys whose values are truthy,
   * unless it hides `toString` or `hasOwnProperty`: then the call throws.
   */
  lemma {:induction false} ObjectContributes(p: seq<Prop>, k: string)
    ensures k in TruthyKeys(p) <==> exists j :: 0 <= j < |p| && p[j].key == k && Truthy(p[j].val)
    ensures ObjectThrows(p) <==> ClassesOf(Obj(p)).None?
    ensures !ObjectThrows(p) ==>
      (k in ClassesOf(Obj(p)).value <==> exists j :: 0 <= j < |p| && p[j].key == k && Truthy(p[j].val))
    decreases |p|
  {
    if |p| > 0 {
      ObjectContributes(p[1..], k);
      if k in TruthyKeys(p[1..]) {
        var j :| 0 <= j < |p[1..]| && p[1..][j].key == k && Truthy(p[1..][j].val);
        assert p[j + 1] == p[1..][j];
      }
      if exists j :: 0 <= j < |p| && p[j].key == k && Truthy(p[j].val) {
        var j :| 0 <= j < |p| && p[j].key == k && Truthy(p[j].val);
        if j > 0 {
          assert p[1..][j - 1] == p[j];
        }
      }
    }
  }

  /** An object overriding `toString` is pushed as its text, even an empty one: the separators stay. */
  lemma CustomToStringExample()
    ensures JoinClassNames([Str("a"), Instance(""), Str("b")]) == Str("a  b")
  {
    assert ["b"] + [] == ["b"] && [""] + ["b"] == ["", "b"] && ["a"] + ["", "b"] == ["a", "", "b"];
    assert Classes([Str("b")]) == Some(["b"]);
    assert Classes([Instance(""), Str("b")]) == Some(["", "b"]);
    assert Classes([Str("a"), Instance(""), Str("b")]) == Some(["a", "", "b"]);
  }

  /** An array whose inner join is empty pushes nothing: no separator is added for it. */
  lemma EmptyInnerArrayExample()
    ensures JoinClassNames([Str("a"), Arr([Instance("")]), Str("b")]) == Str("a b")
  {
    assert ["b"] + [] == ["b"] && [""] + [] == [""] && [] + ["b"] == ["b"] && ["a"] + ["b"] == ["a", "b"];
    assert Classes([Str("b")]) == Some(["b"]);
    assert Classes([Instance("")]) == Some([""]);
    assert ClassesOf(Arr([Instance("")])) == Some([]);
    assert Classes([Arr([Instance("")]), Str("b")]) == Some(["b"]);
    assert Classes([Str("a"), Arr([Instance("")]), Str("b")]) == Some(["a", "b"]);
  }

  // ---------------------------------------------------------------------------
  // Nested arrays are spliced in place: joining equals joining the flattened arguments.

  /** No argument, at any array depth, would throw or push an empty class name. */
  predicate CleanItem(v: Value)
    decreases v
  {
    match v
    case Arr(e) => forall i :: 0 <= i < |e| ==> CleanItem(e[i])
    case Obj(p) => !ObjectThrows(p) && "" !in TruthyKeys(p)
    case Instance(text) => text != ""
    case _ => true
  }

  predicate NonEmptyTokens(xs: seq<string>)
  {
    forall i :: 0 <= i < |xs| ==> xs[i] != ""
  }

  /** With no empty name in the list, the join is empty exactly when the list is. */
  lemma {:induction false} JoinEmptyIff(xs: seq<string>)
    requires NonEmptyTokens(xs)
    ensures Join(xs, " ") == "" <==> xs == []
    decreases |xs|
  {
  }

  /** Joining a concatenation glues the two joins, skipping a side that is empty. */
  lemma JoinGlue(xs: seq<string>, ys: seq<string>)
    requires NonEmptyTokens(xs) && NonEmptyTokens(ys)
    ensures Join(xs + ys, " ") ==
      if xs == [] then Join(ys, " ")
      else if ys == [] then Join(xs, " ")
      else Join(xs, " ") + " " + Join(ys, " ")
  {
    if xs == [] {
      assert xs + ys == ys;
    } else if ys == [] {
      assert xs + ys == xs;
    } else {
      JoinAppend(xs, ys, " ");
    }
  }

  lemma NatToDecimalNonEmpty(n: nat)
    ensures NatToDecimal(n) != ""
  {
    DecimalRoundTrip(n);
  }

  lemma {:induction false} CleanTokens(v: Value)
    requires CleanItem(v)
    ensures ClassesOf(v).Some? && NonEmptyTokens(ClassesOf(v).value)
    decreases v
  {
    if Truthy(v) {
      match v
      case Num(n) =>
        if n < 0 { NatToDecimalNonEmpty(-n); } else { NatToDecimalNonEmpty(n); }
      case Obj(p) =>
        assert forall i :: 0 <= i < |TruthyKeys(p)| ==> TruthyKeys(p)[i] in TruthyKeys(p);
      case _ =>
    }
  }

  lemma {:induction false} CleanTokensOf(items: seq<Value>)
    requires forall i :: 0 <= i < |items| ==> CleanItem(items[i])
    ensures Classes(items).Some? && NonEmptyTokens(Classes(items).value)
    decreases |items|
  {
    if |items| > 0 {
      CleanTokens(items[0]);
      CleanTokensOf(items[1..]);
    }
  }

  lemma {:induction false} LeavesClean(v: Value)
    requires CleanItem(v)
    ensures forall i :: 0 <= i < |Arrays.Leaves(v)| ==> CleanItem(Arrays.Leaves(v)[i])
    decreases v
  {
    if v.Arr? {
      LeavesOfClean(v.elems);
    }
  }

  lemma {:induction false} LeavesOfClean(e: seq<Value>)
    requires forall i :: 0 <= i < |e| ==> CleanItem(e[i])
    ensures forall i :: 0 <= i < |Arrays.LeavesOf(e)| ==> CleanItem(Arrays.LeavesOf(e)[i])
    decreases e
  {
    if |e| > 0 {
      LeavesClean(e[0]);
      LeavesOfClean(e[1..]);
    }
  }

  lemma {:induction false} ItemSplices(v: Value)
    requires CleanItem(v)
    ensures ClassesOf(v).Some? && Classes(Arrays.Leaves(v)).Some?
    ensures Join(ClassesOf(v).value, " ") == Join(Classes(Arrays.Leaves(v)).value, " ")
    decreases v
  {
    CleanTokens(v);
    LeavesClean(v);
    CleanTokensOf(Arrays.Leaves(v));
    if v.Arr? {
      ItemsSplice(v.elems);
      CleanTokensOf(v.elems);
      if |v.elems| > 0 {
        var inner := JoinClassNames(v.elems);
        assert inner == Str(Join(Classes(v.elems).value, " "));
        assert Join(ClassesOf(v).value, " ") == inner.s;
      }
    } else {
      assert [v][1..] == [];
      assert Arrays.Leaves(v) == [v];
      assert ClassesOf(v).value + [] == ClassesOf(v).value;
    }
  }

  lemma {:induction false} ItemsSplice(items: seq<Value>)
    requires forall i :: 0 <= i < |items| ==> CleanItem(items[i])
    ensures Classes(items).Some? && Classes(Arrays.LeavesOf(items)).Some?
    ensures Join(Classes(items).value, " ") == Join(Classes(Arrays.LeavesOf(items)).value, " ")
    decreases items
  {
    CleanTokensOf(items);
    LeavesOfClean(items);
    CleanTokensOf(Arrays.LeavesOf(items));
    if |items| > 0 {
      var x := items[0];
      var rest := items[1..];
      ItemSplices(x);
      ItemsSplice(rest);
      CleanTokens(x);
      CleanTokensOf(rest);
      LeavesClean(x);
      LeavesOfClean(rest);
      var cx := ClassesOf(x).value;
      var cr := Classes(rest).value;
      var lx := Classes(Arrays.Leaves(x)).value;
      var lr := Classes(Arrays.LeavesOf(rest)).value;
      CleanTokensOf(Arrays.Leaves(x));
      CleanTokensOf(Arrays.LeavesOf(rest));
      JoinEmptyIff(cx);
      JoinEmptyIff(cr);
      JoinEmptyIff(lx);
      JoinEmptyIff(lr);
      JoinGlue(cx, cr);
      JoinGlue(lx, lr);
      ClassesAppend(Arrays.Leaves(x), Arrays.LeavesOf(rest));
      assert Classes(items).value == cx + cr;
      assert Classes(Arrays.LeavesOf(items)).value == lx + lr;
    }
  }

  /**
   * An array argument is processed recursively and its joined result inserted
   * in place: as long as no argument throws or pushes an empty name, the
   * result equals `joinClassNames` over the flattened argument list.
   */
  lemma JoinFlattened(items: seq<Value>)
    requires forall i :: 0 <= i < |items| ==> CleanItem(items[i])
    ensures JoinClassNames(items).Str?
    ensures JoinClassNames(items) == JoinClassNames(Arrays.Flatten(items))
  {
    ItemsSplice(items);
    Arrays.FlattenIsLeaves(items);
  }
}
