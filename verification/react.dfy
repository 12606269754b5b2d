/**
 * The tree search of the React utilities: `findInTree`, its fixed-policy
 * specialisation `findInReactTree`, and the component check `isComponent`
 * with its assertion companion.
 */
module React {
  import opened Wrappers
  import opened Strings
  import opened JsValue

  /** What one call of a filter callback amounts to. */
  datatype Verdict = Hit | Miss | Throws

  /**
   * The filter argument: a property name, or a callback whose return value is
   * truthy (`Hit`), falsy (`Miss`), or which throws.
   */
  datatype Filter = KeyName(name: string) | Predicate(test: Value -> Verdict)

  /**
   * The options object: `walkable` lists the keys that may be descended into,
   * `None` standing for `null` (every own key); keys in `ignore` are never
   * descended into.
   */
  datatype Policy = Policy(walkable: Option<seq<string>>, ignore: seq<string>)

  /** The keys an object node's loop runs over: `walkable`, or `Object.keys` when it is null. */
  function WalkOrder(p: seq<Prop>, pol: Policy): seq<string>
  {
    match pol.walkable
    case None => Keys(p)
    case Some(w) => w
  }

  /** The keys of `order` that the loop does not skip, in loop order. */
  function ChildKeys(p: seq<Prop>, order: seq<string>, ignore: seq<string>): seq<string>
    decreases |order|
  {
    if |order| == 0 then []
    else
      var rest := ChildKeys(p, order[1..], ignore);
      if LookupIndex(p, order[0]).Some? && order[0] !in ignore then [order[0]] + rest else rest
  }

  /** The values under `ks`, all of which are own keys of `p`. */
  function ValuesAt(p: seq<Prop>, ks: seq<string>): (r: seq<Value>)
    requires forall i :: 0 <= i < |ks| ==> LookupIndex(p, ks[i]).Some?
    ensures |r| == |ks|
    ensures forall i :: 0 <= i < |r| ==> r[i] in Members(Obj(p))
  {
    var r := seq(|ks|, i requires 0 <= i < |ks| => p[LookupIndex(p, ks[i]).value].val);
    assert forall i :: 0 <= i < |r| ==> r[i] in Members(Obj(p)) by {
      forall i | 0 <= i < |r|
        ensures r[i] in Members(Obj(p))
      {
        assert r[i] == Members(Obj(p))[LookupIndex(p, ks[i]).value];
      }
    }
    r
  }

  /** A key survives the loop exactly when it is in the loop order, owned, and not ignored. */
  lemma {:induction false} ChildKeysIff(p: seq<Prop>, order: seq<string>, ignore: seq<string>, k: string)
    ensures k in ChildKeys(p, order, ignore) <==> k in order && LookupIndex(p, k).Some? && k !in ignore
    decreases |order|
  {
    if |order| > 0 {
      ChildKeysIff(p, order[1..], ignore, k);
      assert order == [order[0]] + order[1..];
    }
  }

  /** Every surviving key is owned (so its value can be read). */
  lemma {:induction false} ChildKeysOwned(p: seq<Prop>, order: seq<string>, ignore: seq<string>)
    ensures forall i :: 0 <= i < |ChildKeys(p, order, ignore)| ==> LookupIndex(p, ChildKeys(p, order, ignore)[i]).Some?
    decreases |order|
  {
    if |order| > 0 {
      ChildKeysOwned(p, order[1..], ignore);
    }
  }

  /** The nodes a non-matching node's loop recurses into, in loop order. */
  function Children(v: Value, pol: Policy): (r: seq<Value>)
    ensures forall i :: 0 <= i < |r| ==> r[i] in Members(v)
  {
    match v
    case Arr(e) => e
    case Obj(p) =>
      var ks := ChildKeys(p, WalkOrder(p, pol), pol.ignore);
      ChildKeysOwned(p, WalkOrder(p, pol), pol.ignore);
      ValuesAt(p, ks)
    case _ => []
  }

  /**
   * A plain object that owns a `hasOwnProperty` which is not a function:
   * calling `tree.hasOwnProperty(key)` on it throws a TypeError.
   */
  predicate ShadowsHasOwn(v: Value)
  {
    v.Obj? && match Lookup(v.props, "hasOwnProperty") case Some(x) => !x.Func? case None => false
  }

  /**
   * The loop over a non-matching object node throws at its first ownership
   * test: the node shadows `hasOwnProperty` and the loop has a key to test.
   */
  predicate LoopThrows(v: Value, pol: Policy)
  {
    ShadowsHasOwn(v) && |WalkOrder(v.props, pol)| > 0
  }

  /**
   * `findInTree(tree, filter, { walkable, ignore })`. Each call catches its own
   * exceptions; the logger it reports them to returns `undefined`.
   */
  function FindInTree(tree: Value, filter: Filter, pol: Policy): Value
    decreases tree, 1
  {
    if !IsObject(tree) then Null
    else match filter
      case KeyName(k) =>
        if ShadowsHasOwn(tree) then Undefined
        else (match OwnProperty(tree, k) case Some(x) => x case None => Undefined)
      case Predicate(f) =>
        match f(tree)
        case Throws => Undefined
        case Hit => tree
        case Miss =>
          if LoopThrows(tree, pol) then Undefined
          else FindInChildren(tree, Children(tree, pol), f, pol, Null)
  }

  /**
   * The loop over a node's children: the first truthy child result, or else
   * the last child result (`last`, initially `null`).
   */
  function FindInChildren(ghost parent: Value, cs: seq<Value>, f: Value -> Verdict, pol: Policy, last: Value): Value
    requires forall i :: 0 <= i < |cs| ==> cs[i] in Members(parent)
    decreases parent, 0, |cs|
  {
    if |cs| == 0 then last
    else
      MemberBelow(cs[0], parent);
      var r := FindInTree(cs[0], Predicate(f), pol);
      if Truthy(r) then r else FindInChildren(parent, cs[1..], f, pol, r)
  }

  /** The React-element shape walked by `findInReactTree`. */
  const ReactWalkable: seq<string> := ["props", "children", "child", "sibling"]

  /** `findInReactTree(tree, searchFilter, whileLoop)`; `whileLoop` is passed on but never read. */
  function FindInReactTree(tree: Value, searchFilter: Filter, whileLoop: bool): Value
  {
    FindInTree(tree, searchFilter, Policy(Some(ReactWalkable), []))
  }

  // ---------------------------------------------------------------------------
  // Reference semantics of a callback search: the nodes the filter is called on.

  /**
   * Every node an exhaustive search would call the filter on, in call order:
   * the node itself, then (unless the call throws, or the loop over its keys
   * throws before reaching a child) its children's candidates.
   */
  function Candidates(v: Value, f: Value -> Verdict, pol: Policy): (r: seq<Value>)
    ensures |r| > 0 <==> IsObject(v)
    ensures |r| > 0 ==> r[0] == v
    ensures forall i :: 0 <= i < |r| ==> IsObject(r[i]) && NodeOf(r[i], v)
    decreases v, 1
  {
    if !IsObject(v) then []
    else [v] + (if f(v).Throws? || LoopThrows(v, pol) then [] else CandidatesOf(v, Children(v, pol), f, pol))
  }

  function CandidatesOf(ghost parent: Value, cs: seq<Value>, f: Value -> Verdict, pol: Policy): (r: seq<Value>)
    requires forall i :: 0 <= i < |cs| ==> cs[i] in Members(parent)
    ensures forall i :: 0 <= i < |r| ==> IsObject(r[i]) && NodeOf(r[i], parent)
    decreases parent, 0, |cs|
  {
    if |cs| == 0 then []
    else
      MemberBelow(cs[0], parent);
      var head := Candidates(cs[0], f, pol);
      assert forall i :: 0 <= i < |head| ==> NodeOf(head[i], parent) by {
        var m :| 0 <= m < |Members(parent)| && Members(parent)[m] == cs[0];
        assert forall x :: NodeOf(x, cs[0]) ==> NodeOf(x, parent);
      }
      head + CandidatesOf(parent, cs[1..], f, pol)
  }

  /** Position of the first element the filter hits. */
  function FirstHit(s: seq<Value>, f: Value -> Verdict): (r: Option<nat>)
    ensures r.Some? ==> r.value < |s| && f(s[r.value]).Hit?
    ensures r.Some? ==> forall i :: 0 <= i < r.value ==> !f(s[i]).Hit?
    ensures r.None? ==> forall i :: 0 <= i < |s| ==> !f(s[i]).Hit?
    decreases |s|
  {
    if |s| == 0 then None
    else if f(s[0]).Hit? then Some(0)
    else match FirstHit(s[1..], f)
      case None => None
      case Some(j) => Some(j + 1)
  }

  /** Searching a concatenation finds the first hit of the left part, else of the right. */
  lemma FirstHitAppend(a: seq<Value>, b: seq<Value>, f: Value -> Verdict)
    ensures FirstHit(a + b, f) ==
      match FirstHit(a, f)
      case Some(i) => Some(i)
      case None => (match FirstHit(b, f) case Some(j) => Some(|a| + j) case None => None)
  {
    var r := FirstHit(a + b, f);
    match FirstHit(a, f)
    case Some(i) =>
      assert (a + b)[i] == a[i];
      FirstHitUnique(a + b, f, i);
    case None =>
      match FirstHit(b, f)
      case Some(j) =>
        assert (a + b)[|a| + j] == b[j];
        FirstHitUnique(a + b, f, |a| + j);
      case None =>
        assert forall i :: 0 <= i < |a + b| ==> !f((a + b)[i]).Hit?;
  }

  /** The first hit is the unique position that is a hit preceded by none. */
  lemma FirstHitUnique(s: seq<Value>, f: Value -> Verdict, i: nat)
    requires i < |s| && f(s[i]).Hit?
    requires forall j :: 0 <= j < i ==> !f(s[j]).Hit?
    ensures FirstHit(s, f) == Some(i)
  {
  }

  /** A search that finds nothing answers `null` or `undefined`. */
  predicate NotFound(v: Value)
  {
    v.Null? || v.Undefined?
  }

  /**
   * A callback search returns the first candidate the filter hits, in
   * pre-order, and `null` or `undefined` when there is none.
   */
  lemma {:induction false} FindIsFirstHit(v: Value, f: Value -> Verdict, pol: Policy)
    ensures match FirstHit(Candidates(v, f, pol), f)
      case Some(j) => FindInTree(v, Predicate(f), pol) == Candidates(v, f, pol)[j]
      case None => NotFound(FindInTree(v, Predicate(f), pol))
    decreases v, 1
  {
    if IsObject(v) && f(v).Miss? && !LoopThrows(v, pol) {
      var cs := Children(v, pol);
      FindInChildrenIsFirstHit(v, cs, f, pol, Null);
      FirstHitAppend([v], CandidatesOf(v, cs, f, pol), f);
    }
  }

  lemma {:induction false} FindInChildrenIsFirstHit(parent: Value, cs: seq<Value>, f: Value -> Verdict, pol: Policy, last: Value)
    requires forall i :: 0 <= i < |cs| ==> cs[i] in Members(parent)
    requires NotFound(last)
    ensures match FirstHit(CandidatesOf(parent, cs, f, pol), f)
      case Some(j) => FindInChildren(parent, cs, f, pol, last) == CandidatesOf(parent, cs, f, pol)[j]
      case None => NotFound(FindInChildren(parent, cs, f, pol, last))
    decreases parent, 0, |cs|
  {
    if |cs| > 0 {
      MemberBelow(cs[0], parent);
      var head := Candidates(cs[0], f, pol);
      var tail := CandidatesOf(parent, cs[1..], f, pol);
      assert CandidatesOf(parent, cs, f, pol) == head + tail;
      FindIsFirstHit(cs[0], f, pol);
      var r := FindInTree(cs[0], Predicate(f), pol);
      ChildStep(head, tail, f, r);
      if !Truthy(r) {
        assert FindInChildren(parent, cs, f, pol, last) == FindInChildren(parent, cs[1..], f, pol, r);
        FindInChildrenIsFirstHit(parent, cs[1..], f, pol, r);
        match FirstHit(tail, f)
        case Some(j) =>
          assert (head + tail)[|head| + j] == tail[j];
        case None =>
      }
    }
  }

  /**
   * One child's step of the loop: a truthy child result is the first hit of
   * the combined candidates, and a falsy one leaves the search to the rest.
   */
  lemma ChildStep(head: seq<Value>, tail: seq<Value>, f: Value -> Verdict, r: Value)
    requires forall i :: 0 <= i < |head| ==> IsObject(head[i])
    requires match FirstHit(head, f) case Some(j) => r == head[j] case None => NotFound(r)
    ensures Truthy(r) ==> FirstHit(head + tail, f).Some? && (head + tail)[FirstHit(head + tail, f).value] == r
    ensures !Truthy(r) ==> NotFound(r)
    ensures !Truthy(r) ==>
      FirstHit(head + tail, f) == match FirstHit(tail, f) case Some(j) => Some(|head| + j) case None => None
  {
    FirstHitAppend(head, tail, f);
    match FirstHit(head, f)
    case Some(j) =>
      assert (head + tail)[j] == head[j];
    case None =>
  }

  // ---------------------------------------------------------------------------
  // Properties of the search.

  /** A falsy or non-object root gives `null` whatever the filter and policy: the filter is never consulted. */
  lemma NonObjectRootIsNull(v: Value, filter1: Filter, filter2: Filter, pol1: Policy, pol2: Policy)
    requires !IsObject(v)
    ensures FindInTree(v, filter1, pol1) == Null
    ensures FindInTree(v, filter1, pol1) == FindInTree(v, filter2, pol2)
  {
  }

  /**
   * A key-name filter reads only the root: the policy is irrelevant, an own
   * property's value is returned, and a missing key gives `undefined` even
   * when a nested object has that key.
   */
  lemma KeyFilterReadsRootOnly(v: Value, k: string, pol1: Policy, pol2: Policy)
    requires IsObject(v)
    ensures FindInTree(v, KeyName(k), pol1) == FindInTree(v, KeyName(k), pol2)
    ensures v.Obj? && DistinctKeys(v.props) && !ShadowsHasOwn(v) ==>
      forall j :: 0 <= j < |v.props| && v.props[j].key == k ==> FindInTree(v, KeyName(k), pol1) == v.props[j].val
    ensures v.Obj? && k !in Keys(v.props) ==> FindInTree(v, KeyName(k), pol1) == Undefined
    ensures ShadowsHasOwn(v) ==> FindInTree(v, KeyName(k), pol1) == Undefined
    ensures v.Arr? ==> FindInTree(v, KeyName("length"), pol1) == Num(|v.elems|)
    ensures v.Arr? ==> forall i :: 0 <= i < |v.elems| ==> FindInTree(v, KeyName(NatToDecimal(i)), pol1) == v.elems[i]
    ensures v.Arr? && k != "length" && IndexOfKey(k, |v.elems|).None? ==> FindInTree(v, KeyName(k), pol1) == Undefined
    ensures v.Instance? ==> FindInTree(v, KeyName(k), pol1) == Undefined
  {
    if v.Obj? && DistinctKeys(v.props) && !ShadowsHasOwn(v) {
      forall j | 0 <= j < |v.props| && v.props[j].key == k
        ensures FindInTree(v, KeyName(k), pol1) == v.props[j].val
      {
        LookupDistinct(v.props, j);
      }
    }
    if v.Arr? {
      forall i | 0 <= i < |v.elems|
        ensures FindInTree(v, KeyName(NatToDecimal(i)), pol1) == v.elems[i]
      {
        DecimalRoundTrip(i);
        assert NatToDecimal(i) != "length" by {
          assert NatToDecimal(i)[0] != 'l';
        }
      }
    }
  }

  /**
   * An object owning a `hasOwnProperty` that is not a function makes every
   * ownership test throw: a key filter gives `undefined`, and so does a
   * callback that passes over the node, as soon as the loop has a key to
   * test. A callback that accepts the node still returns it, because the
   * callback runs before the loop.
   */
  lemma ShadowedHasOwnThrows(v: Value, k: string, f: Value -> Verdict, pol: Policy)
    requires ShadowsHasOwn(v)
    ensures FindInTree(v, KeyName(k), pol) == Undefined
    ensures f(v).Hit? ==> FindInTree(v, Predicate(f), pol) == v
    ensures f(v).Miss? && |WalkOrder(v.props, pol)| > 0 ==> FindInTree(v, Predicate(f), pol) == Undefined
    ensures f(v).Miss? && pol.walkable.None? ==> FindInTree(v, Predicate(f), pol) == Undefined
    ensures f(v).Miss? && pol.walkable == Some([]) ==> FindInTree(v, Predicate(f), pol) == Null
  {
    if pol.walkable.None? {
      var j := LookupIndex(v.props, "hasOwnProperty").value;
      assert Keys(v.props)[j] == "hasOwnProperty";
    }
    if pol.walkable == Some([]) {
      assert ChildKeys(v.props, [], pol.ignore) == [];
    }
  }

  /**
   * `findInTree({ hasOwnProperty: 1, a: { id: 1 } }, n => n.id === 1)` and
   * `findInTree({ hasOwnProperty: 1 }, 'hasOwnProperty')` both give `undefined`.
   */
  lemma ShadowedHasOwnExample()
    ensures FindInTree(Obj([Prop("hasOwnProperty", Num(1)), Prop("a", IdObj(1))]), Predicate(IdIs(1)), Policy(None, [])) == Undefined
    ensures FindInTree(Obj([Prop("hasOwnProperty", Num(1))]), KeyName("hasOwnProperty"), Policy(None, [])) == Undefined
  {
    var t := Obj([Prop("hasOwnProperty", Num(1)), Prop("a", IdObj(1))]);
    assert Keys(t.props) == ["hasOwnProperty", "a"];
    assert !IsCanonicalDecimal("id") && "id" != "length";
    assert IdIs(1)(t) == Miss;
  }

  /** Child `i` is the first of `cs` whose search result is truthy. */
  predicate FirstTruthyAt(cs: seq<Value>, f: Value -> Verdict, pol: Policy, i: nat)
  {
    && i < |cs|
    && Truthy(FindInTree(cs[i], Predicate(f), pol))
    && forall j :: 0 <= j < i ==> !Truthy(FindInTree(cs[j], Predicate(f), pol))
  }

  /**
   * The loop over children returns the first truthy child result; when every
   * child result is falsy it returns the last one (`last` if there are none).
   */
  lemma {:induction false} FindInChildrenFirstTruthy(parent: Value, cs: seq<Value>, f: Value -> Verdict, pol: Policy, last: Value)
    requires forall i :: 0 <= i < |cs| ==> cs[i] in Members(parent)
    ensures forall i: nat :: FirstTruthyAt(cs, f, pol, i) ==>
      FindInChildren(parent, cs, f, pol, last) == FindInTree(cs[i], Predicate(f), pol)
    ensures (forall j :: 0 <= j < |cs| ==> !Truthy(FindInTree(cs[j], Predicate(f), pol))) ==>
      FindInChildren(parent, cs, f, pol, last) == if |cs| == 0 then last else FindInTree(cs[|cs| - 1], Predicate(f), pol)
    decreases |cs|
  {
    if |cs| > 0 {
      var r := FindInTree(cs[0], Predicate(f), pol);
      FindInChildrenFirstTruthy(parent, cs[1..], f, pol, r);
      forall i: nat | FirstTruthyAt(cs, f, pol, i)
        ensures FindInChildren(parent, cs, f, pol, last) == FindInTree(cs[i], Predicate(f), pol)
      {
        if i > 0 {
          assert cs[1..][i - 1] == cs[i];
          assert !Truthy(r);
          assert forall j :: 0 <= j < i - 1 ==> cs[1..][j] == cs[j + 1];
          assert FirstTruthyAt(cs[1..], f, pol, i - 1);
        }
      }
    }
  }

  /**
   * An array node that the filter misses searches its elements in index order,
   * whatever the policy, and answers with the first truthy element result.
   */
  lemma ArrayFirstTruthyElement(e: seq<Value>, f: Value -> Verdict, pol: Policy, i: nat)
    requires f(Arr(e)).Miss?
    requires FirstTruthyAt(e, f, pol, i)
    ensures FindInTree(Arr(e), Predicate(f), pol) == FindInTree(e[i], Predicate(f), pol)
  {
    FindInChildrenFirstTruthy(Arr(e), e, f, pol, Null);
  }

  /**
   * An object node descends into a key exactly when it is listed in `walkable`
   * (or, with `walkable` null, is any own key), is owned, and is not ignored:
   * `ignore` wins over `walkable`.
   */
  lemma ObjectDescendsInto(p: seq<Prop>, pol: Policy, k: string, f: Value -> Verdict)
    ensures k in ChildKeys(p, WalkOrder(p, pol), pol.ignore) <==>
      && (pol.walkable.None? ==> k in Keys(p))
      && (pol.walkable.Some? ==> k in pol.walkable.value)
      && LookupIndex(p, k).Some?
      && k !in pol.ignore
    ensures var ks := ChildKeys(p, WalkOrder(p, pol), pol.ignore);
      && |Children(Obj(p), pol)| == |ks|
      && forall i :: 0 <= i < |ks| ==> Lookup(p, ks[i]) == Some(Children(Obj(p), pol)[i])
    ensures f(Obj(p)).Miss? && LoopThrows(Obj(p), pol) ==> FindInTree(Obj(p), Predicate(f), pol) == Undefined
    ensures f(Obj(p)).Miss? && !LoopThrows(Obj(p), pol) ==>
      FindInTree(Obj(p), Predicate(f), pol) == FindInChildren(Obj(p), Children(Obj(p), pol), f, pol, Null)
  {
    ChildKeysIff(p, WalkOrder(p, pol), pol.ignore, k);
    var ks := ChildKeys(p, WalkOrder(p, pol), pol.ignore);
    ChildKeysOwned(p, WalkOrder(p, pol), pol.ignore);
    forall i | 0 <= i < |ks|
      ensures Lookup(p, ks[i]) == Some(Children(Obj(p), pol)[i])
    {
      assert Children(Obj(p), pol)[i] == p[LookupIndex(p, ks[i]).value].val;
    }
  }

  /**
   * Every truthy answer of a callback search is a node of the input on which
   * the filter returned truthy, and no node before it in pre-order was hit.
   */
  lemma FoundIsHitNode(v: Value, f: Value -> Verdict, pol: Policy)
    ensures Truthy(FindInTree(v, Predicate(f), pol)) ==>
      && NodeOf(FindInTree(v, Predicate(f), pol), v)
      && f(FindInTree(v, Predicate(f), pol)).Hit?
    ensures !Truthy(FindInTree(v, Predicate(f), pol)) ==>
      NotFound(FindInTree(v, Predicate(f), pol))
      && forall i :: 0 <= i < |Candidates(v, f, pol)| ==> !f(Candidates(v, f, pol)[i]).Hit?
  {
    FindIsFirstHit(v, f, pol);
  }

  /**
   * `findInReactTree` is `findInTree` with the four React keys walked and
   * nothing ignored; `whileLoop` plays no part. A callback search therefore
   * returns the first node, in pre-order through `props`, `children`, `child`
   * and `sibling`, that the callback accepts, or `null`/`undefined`.
   */
  lemma ReactTreeIsFixedPolicy(tree: Value, filter: Filter, w1: bool, w2: bool, f: Value -> Verdict)
    ensures FindInReactTree(tree, filter, w1) == FindInReactTree(tree, filter, w2)
    ensures FindInReactTree(tree, filter, w1) ==
      FindInTree(tree, filter, Policy(Some(["props", "children", "child", "sibling"]), []))
    ensures var pol := Policy(Some(ReactWalkable), []);
      match FirstHit(Candidates(tree, f, pol), f)
      case Some(j) => FindInReactTree(tree, Predicate(f), w1) == Candidates(tree, f, pol)[j]
      case None => NotFound(FindInReactTree(tree, Predicate(f), w1))
  {
    FindIsFirstHit(tree, f, Policy(Some(ReactWalkable), []));
  }

  /** Below a plain object, `findInReactTree` descends into an owned key exactly when it is one of the four React keys. */
  lemma ReactDescendsInto(p: seq<Prop>, k: string, f: Value -> Verdict)
    ensures k in ChildKeys(p, WalkOrder(p, Policy(Some(ReactWalkable), [])), []) <==>
      (k == "props" || k == "children" || k == "child" || k == "sibling") && LookupIndex(p, k).Some?
    ensures var pol := Policy(Some(ReactWalkable), []);
      f(Obj(p)).Miss? ==>
        FindInReactTree(Obj(p), Predicate(f), false) ==
          if ShadowsHasOwn(Obj(p)) then Undefined
          else FindInChildren(Obj(p), Children(Obj(p), pol), f, pol, Null)
  {
    ChildKeysIff(p, ReactWalkable, [], k);
    ObjectDescendsInto(p, Policy(Some(ReactWalkable), []), k, f);
  }

  // ---------------------------------------------------------------------------
  // Worked examples.

  /** The callback `node => node.id === n`. */
  function IdIs(n: int): Value -> Verdict
  {
    (v: Value) => if OwnProperty(v, "id") == Some(Num(n)) then Hit else Miss
  }

  function IdObj(n: int): Value
  {
    Obj([Prop("id", Num(n))])
  }

  /** A key filter does not descend: `{ a: { b: 1 }, c: { b: 2 } }` searched for 'b' gives `undefined`. */
  lemma KeyFilterExample()
    ensures FindInTree(Obj([Prop("a", Obj([Prop("b", Num(1))])), Prop("c", Obj([Prop("b", Num(2))]))]),
                       KeyName("b"), Policy(None, [])) == Undefined
  {
  }

  /** `[{ id: 1 }, { id: 2 }]` searched with `node => node.id === 2` gives the second element. */
  lemma ArrayCallbackExample()
    ensures FindInTree(Arr([IdObj(1), IdObj(2)]), Predicate(IdIs(2)), Policy(None, [])) == IdObj(2)
  {
    var t := Arr([IdObj(1), IdObj(2)]);
    assert Children(t, Policy(None, [])) == [IdObj(1), IdObj(2)];
    assert FindInTree(IdObj(1), Predicate(IdIs(2)), Policy(None, [])) == Null;
  }

  /** `findInReactTree({ props: { children: [{ id: 5 }] } }, node => node.id === 5)` reaches the element through props and children. */
  lemma ReactTreeExample()
    ensures FindInReactTree(Obj([Prop("props", Obj([Prop("children", Arr([IdObj(5)]))]))]), Predicate(IdIs(5)), false)
      == IdObj(5)
  {
    var pol := Policy(Some(ReactWalkable), []);
    var f := IdIs(5);
    var arr := Arr([IdObj(5)]);
    var inner := Obj([Prop("children", arr)]);
    var t := Obj([Prop("props", inner)]);
    ReactTreeVerdicts();
    ReactChildrenOf("props", inner);
    ReactChildrenOf("children", arr);
    OnlyChild(t, f, pol, inner);
    OnlyChild(inner, f, pol, arr);
    OnlyChild(arr, f, pol, IdObj(5));
  }

  /** What `node => node.id === 5` answers on each level of the example tree. */
  lemma ReactTreeVerdicts()
    ensures IdIs(5)(Obj([Prop("props", Obj([Prop("children", Arr([IdObj(5)]))]))])) == Miss
    ensures IdIs(5)(Obj([Prop("children", Arr([IdObj(5)]))])) == Miss
    ensures IdIs(5)(Arr([IdObj(5)])) == Miss
    ensures IdIs(5)(IdObj(5)) == Hit
  {
    assert !IsCanonicalDecimal("id") && "id" != "length";
  }

  /** A node the callback passes over, with a single child, gives that child's result. */
  lemma OnlyChild(v: Value, f: Value -> Verdict, pol: Policy, c: Value)
    requires IsObject(v) && f(v).Miss? && !ShadowsHasOwn(v) && Children(v, pol) == [c]
    ensures FindInTree(v, Predicate(f), pol) == FindInTree(c, Predicate(f), pol)
  {
    assert FindInTree(v, Predicate(f), pol) == FindInChildren(v, [c], f, pol, Null);
  }

  /** A node whose only key is `props` or `children` has exactly that child under the React policy. */
  lemma ReactChildrenOf(k: string, x: Value)
    requires k == "props" || k == "children"
    ensures Children(Obj([Prop(k, x)]), Policy(Some(ReactWalkable), [])) == [x]
  {
    var p := [Prop(k, x)];
    assert LookupIndex(p, "sibling").None? && LookupIndex(p, "child").None?;
    assert ChildKeys(p, ["child", "sibling"], []) == [];
    if k == "props" {
      assert LookupIndex(p, "children").None?;
      assert ChildKeys(p, ["children", "child", "sibling"], []) == [];
    } else {
      assert ChildKeys(p, ["children", "child", "sibling"], []) == ["children"];
      assert LookupIndex(p, "props").None?;
    }
    assert ChildKeys(p, ReactWalkable, []) == [k];
  }

  /** An empty object with no match gives `null`, the initial loop result. */
  lemma EmptyObjectExample()
    ensures FindInTree(Obj([]), Predicate(IdIs(1)), Policy(None, [])) == Null
  {
    assert Children(Obj([]), Policy(None, [])) == [];
  }

  /**
   * `{}` under every filter and option: a string filter finds nothing, and a
   * callback's own answer decides, since the loop has no key to walk.
   */
  lemma EmptyObjectOutcomes(f: Value -> Verdict, k: string, pol: Policy)
    ensures FindInTree(Obj([]), KeyName(k), pol) == Undefined
    ensures FindInTree(Obj([]), Predicate(f), pol) ==
      match f(Obj([]))
      case Hit => Obj([])
      case Throws => Undefined
      case Miss => Null
  {
    NothingOwned(WalkOrder([], pol), pol.ignore);
    assert |Children(Obj([]), pol)| == 0;
  }

  /** An object with no properties owns none of the keys its loop tests. */
  lemma {:induction false} NothingOwned(order: seq<string>, ignore: seq<string>)
    ensures ChildKeys([], order, ignore) == []
    decreases |order|
  {
    if |order| > 0 {
      NothingOwned(order[1..], ignore);
    }
  }

  /** With `ignore: ['props']`, a key filter for 'id' still reads only the root and gives `undefined`, and a callback never sees `{ id: 1 }` under `props`. */
  lemma IgnoreExample()
    ensures FindInTree(Obj([Prop("props", IdObj(1)), Prop("other", IdObj(2))]), KeyName("id"), Policy(None, ["props"])) == Undefined
    ensures FindInTree(Obj([Prop("props", IdObj(1)), Prop("other", IdObj(2))]), Predicate(IdIs(1)), Policy(None, ["props"])) == Null
    ensures FindInTree(Obj([Prop("props", IdObj(1)), Prop("other", IdObj(2))]), Predicate(IdIs(2)), Policy(None, ["props"])) == IdObj(2)
  {
    var pol := Policy(None, ["props"]);
    var t := Obj([Prop("props", IdObj(1)), Prop("other", IdObj(2))]);
    IgnoredChildren();
    assert IdIs(1)(t) == Miss && IdIs(2)(t) == Miss;
    assert IdIs(1)(IdObj(2)) == Miss && IdIs(2)(IdObj(2)) == Hit;
    OnlyChild(t, IdIs(1), pol, IdObj(2));
    OnlyChild(IdObj(2), IdIs(1), pol, Num(2));
    OnlyChild(t, IdIs(2), pol, IdObj(2));
  }

  /** The children walked with `props` ignored: `other` below the root, then the `id` number. */
  lemma IgnoredChildren()
    ensures Children(Obj([Prop("props", IdObj(1)), Prop("other", IdObj(2))]), Policy(None, ["props"])) == [IdObj(2)]
    ensures Children(IdObj(2), Policy(None, ["props"])) == [Num(2)]
  {
    var t := Obj([Prop("props", IdObj(1)), Prop("other", IdObj(2))]);
    assert Keys(t.props) == ["props", "other"];
    assert ChildKeys(t.props, ["props", "other"], ["props"]) == ["other"];
    assert Keys(IdObj(2).props) == ["id"];
    assert ChildKeys(IdObj(2).props, ["id"], ["props"]) == ["id"];
  }

  /** `node => { if (isEmpty(node)) throw …; return node.id === 2; }` */
  function ThrowOnEmpty(v: Value): Verdict
  {
    if v == Obj([]) then Throws else IdIs(2)(v)
  }

  /** A callback that throws on the first element hides only that element; the second is still found. */
  lemma ThrowingSiblingExample()
    ensures FindInTree(Arr([Obj([]), IdObj(2)]), Predicate(ThrowOnEmpty), Policy(None, [])) == IdObj(2)
    ensures FindInTree(Obj([]), Predicate(ThrowOnEmpty), Policy(None, [])) == Undefined
  {
    var t := Arr([Obj([]), IdObj(2)]);
    assert Children(t, Policy(None, [])) == [Obj([]), IdObj(2)];
    assert !IsCanonicalDecimal("id");
    assert OwnProperty(t, "id") == None;
    assert ThrowOnEmpty(t) == Miss;
    assert ThrowOnEmpty(IdObj(2)) == Hit;
    assert FindInTree(IdObj(2), Predicate(ThrowOnEmpty), Policy(None, [])) == IdObj(2);
  }

  // ---------------------------------------------------------------------------
  // isComponent and assertComponent.

  /**
   * `isComponent(input)`: every non-string is accepted at once; a string is
   * then compared with the React type symbols, which no string equals.
   */
  function IsComponent(input: Value): bool
  {
    if TypeOf(input) != "string" || TypeOf(input) == "function" then true
    else false
  }

  /** `isComponent` is a total classification: it rejects exactly the strings. */
  lemma IsComponentIff(input: Value)
    ensures IsComponent(input) <==> !input.Str?
  {
  }

  /** `assertComponent(input)`: throws a TypeError naming the input's type exactly when `isComponent` is false. */
  function AssertComponent(input: Value): (r: Outcome<TypeError>)
    ensures r.Fail? <==> !IsComponent(input)
    ensures r.Fail? ==> r.error.message == "Expected a React component but received string."
  {
    if !IsComponent(input) then
      Fail(TypeError("Expected a React component but received " + TypeOf(input) + "."))
    else Pass
  }
}
