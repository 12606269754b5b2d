# Vizality utility core in Dafny

This project models the pure core of Vizality's utility packages and proves properties about it:

- **Tree search.** `findInTree` and `findInReactTree` walk a JavaScript value tree. They look for the first node a filter accepts, or for a named own property of the root.
- **Component checks.** `isComponent` and `assertComponent` decide whether a value is a React component.
- **String hash.** `toHash` is a 53-bit string hash computed with `Math.imul` and unsigned shifts.
- **Object helpers:**
  - `excludeProperties` copies an object without some keys.
  - `keysToLowerCase` lower-cases keys, going one level deeper when asked.
  - `_traverse` is a generator that yields the dotted paths of every key or value matching a search text.
- **`joinClassNames`.** The classnames-style joiner of CSS class tokens.
- **Array helpers.** `isArray`, `assertArray` and `flattenArray`, which flattens arrays recursively.
- **`getMedian`.** Sorts the input array in place, then picks the middle element or the mean of the two middle elements.

## How values are modelled

JavaScript values are one datatype, `JsValue.Value`:

- `undefined`, `null`, booleans, numbers, strings, arrays and plain objects.
- Functions.
- `Instance(text)`: a class instance whose `toString` is overridden and returns `text`.

Numbers are integers. Strings are sequences of Dafny characters, that is, of Unicode code points; JavaScript strings are sequences of UTF-16 code units, and the two differ for characters outside the Basic Multilingual Plane (see "## Left out"). A plain object is its list of own enumerable properties, in `Object.keys` order.

`Object.keys` and `hasOwnProperty` are modelled per kind of value (`JsValue.OwnEntries`, `JsValue.OwnProperty`):

- Arrays and strings own their index keys `"0"`, `"1"`, … and `"length"`. A string has one index key per character.
- A plain object that owns a property named `hasOwnProperty` or `toString` hides the built-in method of that name. When such a property is not a function, the code's call to it throws a TypeError; `findInTree` and `joinClassNames` model that throw.
- `null` and `undefined` make `Object.keys` throw.

Three shared conventions:

- **Errors.** Every function here that catches errors logs them through a logger, and the call then gives `undefined`. `findInTree`, `findInReactTree` and `isComponent` return what the logger returns (`return _error(...)`), which is `undefined`. `getMedian`, `joinClassNames`, `keysToLowerCase`, `excludeProperties` and `_traverse` call the logger without `return`, so they fall off the end of the `catch` block and give `undefined` (a generator simply stops). The model returns `Undefined` on those paths. `assertComponent`, `assertArray` and `flattenArray` do not catch; they return `Outcome`/`Result` values carrying the `TypeError` they throw.
- **Filters.** A filter callback of `findInTree` is a total function to `Hit | Miss | Throws`. `Throws` stands for a callback that throws; `findInTree` then catches the error and returns `undefined`.
- **Input mutation.** `getMedian` sorts its argument in place. The model returns the sorted array as a second result.

Where the repository's prose and its code disagree, the model follows the code:

- With a string filter, `findInTree` looks only at the root's own property (@vizality/util/react.js:35-40). It returns `undefined` when the root lacks the property; it does not search deeper. So `findInTree({ a: { b: 1 }, c: { b: 2 } }, 'b')` is `undefined`, not `1`. The same holds with an ignore list: `findInTree({ props: { id: 1 }, other: { id: 2 } }, 'id', { ignore: ['props'] })` is `undefined`, not `2`. `React.KeyFilterExample` and `React.IgnoreExample` state this.
- A tree that is an empty object gives `undefined` for a string filter. With a callback it gives the object itself when the callback accepts it, `undefined` when the callback throws, and `null` when the callback passes over it (the loop has no keys).

## Model

| member | source | states |
|---|---|---|
| React.FindInTree | @vizality/util/react.js:30-74 | Models `findInTree(tree, filter, { walkable, ignore })`. It has no contract of its own; its behaviour is stated by `React.FindIsFirstHit`, `React.NonObjectRootIsNull`, `React.KeyFilterReadsRootOnly`, `React.ShadowedHasOwnThrows`, `React.ObjectDescendsInto` and the examples. |
| React.FindInChildren | @vizality/util/react.js:43-70 | Models the loop over a node's children, with `returnValue` as the running result. It has no contract of its own; its behaviour is stated by `React.FindInChildrenIsFirstHit` and `React.FindInChildrenFirstTruthy`. |
| React.FindInReactTree | @vizality/util/react.js:84-93 | Models `findInReactTree`. It has no contract of its own; its behaviour is stated by `React.ReactTreeIsFixedPolicy` and `React.ReactDescendsInto`. |
| React.FindIsFirstHit | @vizality/util/react.js:30-74 | With a callback filter, the result is the first node the callback accepts, in the walk order: the root, then each child subtree in turn. Arrays are walked by element and objects by key. When no node is accepted, the result is `null`, `undefined` or another falsy value. |
| React.FindInChildrenIsFirstHit | @vizality/util/react.js:43-70 | The child loop returns the first accepted node among the candidate nodes of the remaining children, in order. Otherwise its result is not truthy. |
| React.FoundIsHitNode | @vizality/util/react.js:30-74 | A truthy result is a node of the tree that the filter accepts. A result that is not truthy means no candidate node was accepted. |
| React.FindInChildrenFirstTruthy | @vizality/util/react.js:43-70 | The loop returns the first child search whose result is truthy. If none is, it returns the last child's result, or `null` when there are no children. |
| React.ArrayFirstTruthyElement | @vizality/util/react.js:44-54 | For an array the callback does not accept, the result is that of the first element whose search gives a truthy value. |
| React.ObjectDescendsInto | @vizality/util/react.js:55-68 | The loop's key list holds `k` iff all of these hold: `k` is listed (own keys when `walkable` is null, else the `walkable` list), the object owns `k`, and `k` is not ignored. The children searched are the values of exactly those keys, in that order. For an object the callback passes over, the search is the loop over those children, unless the object hides `hasOwnProperty` and the loop has a key to test: then it throws and gives `undefined`. |
| React.ChildKeysIff | @vizality/util/react.js:56-60 | A key passes the loop's ownership and ignore tests iff it is in the walk order, is owned by the node, and is not in the ignore list. On a node that hides `hasOwnProperty`, the first test throws instead (see `React.ObjectDescendsInto`). |
| React.NonObjectRootIsNull | @vizality/util/react.js:32-34 | A falsy or non-object tree gives `null`, whatever the filter and options. |
| React.KeyFilterReadsRootOnly | @vizality/util/react.js:35-40 | A string filter does not depend on the walk options. It returns the root's own property: an object's value for the key (unless the object hides `hasOwnProperty`), an array's `length` or element at an index key. It gives `undefined` when an object, an array or a class instance does not own the key, and when the object hides `hasOwnProperty`. |
| React.ShadowedHasOwnThrows | @vizality/util/react.js:30-74 | For an object owning a `hasOwnProperty` that is not a function, a string filter gives `undefined`. A callback that accepts the node still returns it. A callback that passes it over gives `undefined` once the loop has a key to test (always when `walkable` is null), and `null` when `walkable` is `[]`. |
| React.ShadowedHasOwnExample | @vizality/util/react.js:30-74 | `findInTree({ hasOwnProperty: 1, a: { id: 1 } }, n => n.id === 1)` and `findInTree({ hasOwnProperty: 1 }, 'hasOwnProperty')` both give `undefined`. |
| React.KeyFilterExample | @vizality/util/react.js:35-40 | `{ a: { b: 1 }, c: { b: 2 } }` searched for `'b'` gives `undefined`. |
| React.ArrayCallbackExample | @vizality/util/react.js:44-54 | `[{ id: 1 }, { id: 2 }]` searched for `id === 2` gives `{ id: 2 }`. |
| React.EmptyObjectOutcomes | @vizality/util/react.js:30-74 | `{}` under any options: a string filter gives `undefined`. A callback gives `{}` when it accepts it, `undefined` when it throws, and `null` when it passes over it. |
| React.EmptyObjectExample | @vizality/util/react.js:43-71 | `{}` searched with the callback `n => n.id === 1`, which passes over it, gives `null`. |
| React.IgnoreExample | @vizality/util/react.js:55-68 | With `props` ignored, `id === 1` is not found under `props`, but `id === 2` is found under `other`. The string filter `'id'` gives `undefined`. |
| React.ThrowingSiblingExample | @vizality/util/react.js:40-42 | A callback that throws on a node makes that subtree's search give `undefined`, and the walk moves on to the next sibling. At the root, the whole search gives `undefined`. |
| React.ReactTreeIsFixedPolicy | @vizality/util/react.js:84-93 | `findInReactTree` is `findInTree` walking only `props`, `children`, `child` and `sibling`, with nothing ignored. The `whileLoop` flag has no effect. With a callback, the result is the first node the callback accepts, in pre-order through those four keys, and `null` or `undefined` when none is accepted. |
| React.ReactDescendsInto | @vizality/util/react.js:84-93 | The loop's key list for a React tree node holds `k` iff `k` is one of the four walkable keys and the node owns it. For a node the callback passes over, `findInReactTree` searches those children, unless the node hides `hasOwnProperty`: then it gives `undefined`. |
| React.ReactTreeExample | @vizality/util/react.js:84-93 | `{ props: { children: [{ id: 5 }] } }` searched for `id === 5` gives `{ id: 5 }`. |
| React.IsComponent | @vizality/util/react.js:161-219 | Models `isComponent`. It has no contract of its own; its behaviour is stated by `React.IsComponentIff`. |
| React.IsComponentIff | @vizality/util/react.js:161-219 | `isComponent` holds iff the input is not a string: every non-string returns true at line 201, and a string never equals a React type symbol or number. |
| React.AssertComponent | @vizality/util/react.js:227-235 | Throws exactly when `isComponent` fails, with the message "Expected a React component but received string.". |
| Hash.ToHash | util/string.js:92-107 | The loop computes the hash of the UTF-16 code units: the `Math.imul` steps, then the final mixing. The result is its canonical decimal rendering, a number below 2^53. |
| Hash.Combine | util/string.js:103 | The result is below 2^53. Its low 32 bits are `h1 >>> 0` and the bits above are `2097151 & h2`. |
| Hash.EmptyHash | util/string.js:92-103 | The hash of the empty string is 3338908027751811. |
| Hash.SingleUnitHash | util/string.js:92-103 | The hash of `"a"` is 7929297801672961. |
| Strings.DecimalRoundTrip | util/string.js:103 | `toString` of a non-negative integer is canonical decimal text that reads back as the same number. |
| Strings.LowerProperties | @vizality/utils/src/object.js:25 | `toLowerCase` keeps the length, yields lower-case text, and is idempotent. |
| Strings.IncludesIff | @vizality/utils/src/object.js:37-42 | `includes` holds iff the search text occurs at some position. |
| Arrays.IsArray | utils/src/array.js:30-36 | Models `isArray`, which is `Array.isArray`: it holds exactly for arrays. It has no contract of its own; `Arrays.AssertArray` and `Arrays.FlattenArray` state their behaviour in terms of it. |
| Arrays.FlattenFrom | utils/src/array.js:44-46 | Models the `reduce` callback run from an index with an accumulator. It has no contract of its own; its behaviour is stated by `Arrays.FlattenFromIsLeaves`. |
| Arrays.Flatten | utils/src/array.js:44-46 | Models the `reduce` over a whole array from `[]`. It has no contract of its own; its behaviour is stated by `Arrays.FlattenIsLeaves` and `Arrays.FlattenArrayIdempotent`. |
| Arrays.AssertArray | utils/src/array.js:55-63 | Passes iff the input is an array. Otherwise it fails with "Expected an array but received <typeof>.". |
| Arrays.FlattenArray | utils/src/array.js:43-47 | Succeeds iff the input is an array and yields an array. Otherwise it throws a TypeError whose message says that `reduce` cannot be read off `undefined` (resp. `null`), or, for any other non-array, that `array.reduce` is not a function. |
| Arrays.FlattenIsLeaves | utils/src/array.js:43-47 | The reduction equals the independent left-to-right list of the non-array leaves. |
| Arrays.FlattenFromIsLeaves | utils/src/array.js:44-46 | Reducing from index `i` with accumulator `flat` gives `flat` followed by the leaves of the remaining elements. |
| Arrays.FlattenArrayShape | utils/src/array.js:43-47 | The flattened array holds no array. Its length is the number of leaves, and `[]` flattens to `[]`. |
| Arrays.FlattenArrayIdempotent | utils/src/array.js:43-47 | Flattening a flattened array changes nothing. |
| Numbers.GetMedian | utils/src/number.js:70-80 | A non-array gives `undefined` and is not touched. An array is left sorted ascending as a permutation of itself. An empty array gives NaN. Otherwise the result is the middle element for an odd count, or the mean of the two middle elements for an even count. The result is at least one input element and at most another. |
| Numbers.SortAscending | utils/src/number.js:73 | The comparator `(a, b) => a - b` sorts ascending, as a permutation of the input. |
| Numbers.SortedPermutationUnique | utils/src/number.js:73 | Two ascending permutations of the same numbers are equal, so the median does not depend on the sort's stability. |
| Numbers.MiddleBetween | utils/src/number.js:74-76 | The median of a non-empty sorted list lies between its first and last elements. |
| Dom.JoinClassNames | utils/src/dom.js:111-140 | Models `joinClassNames`. Its own contract says only that the result is a string or `undefined`; its behaviour is stated by `Dom.ClassesAppend`, `Dom.PlainArguments`, `Dom.IgnoredArgument`, `Dom.ObjectContributes`, `Dom.ThrowingArgument` and `Dom.JoinFlattened`. |
| Dom.NoArguments | utils/src/dom.js:111-140 | No arguments give `""`. |
| Dom.ThrowingArgument | utils/src/dom.js:124-138 | A plain object whose own `toString` or `hasOwnProperty` is not a function makes the call give `undefined`, whatever the other arguments. Inside a nested array the inner call catches the error, and the whole array contributes nothing. |
| Dom.ShadowedBuiltinExample | utils/src/dom.js:124-138 | `joinClassNames({ hasOwnProperty: 1, a: true })` and `joinClassNames({ toString: 'x' })` give `undefined`. |
| Dom.IgnoredArgument | utils/src/dom.js:114-135 | A falsy argument, a boolean or a function contributes nothing, wherever it stands. |
| Dom.ClassesAppend | utils/src/dom.js:114-135 | Argument lists contribute class tokens independently, in argument order. A throw in either list ends the call. |
| Dom.PlainArguments | utils/src/dom.js:117-119 | Truthy strings and numbers contribute themselves, one token each, in order. |
| Dom.ObjectContributes | utils/src/dom.js:124-132 | A plain object that does not hide `toString` or `hasOwnProperty` contributes key `k` iff it owns `k` with a truthy value. One that hides either makes the call throw, exactly then. |
| Dom.CustomToStringExample | utils/src/dom.js:124-125 | A class instance that overrides `toString` contributes that string even when it is empty, giving a double space. |
| Dom.EmptyInnerArrayExample | utils/src/dom.js:120-123 | An array whose inner join is empty contributes nothing, and no extra separator. |
| Dom.JoinFlattened | utils/src/dom.js:120-125 | When no argument at any depth throws or produces an empty token, the call gives a string, and joining nested arrays equals joining their flattening. |
| Objects.ExcludeProperties | @vizality/utils/src/object.js:177-185 | Models `excludeProperties`. It has no contract of its own; its behaviour is stated by `Objects.ExcludeKeeps`, `Objects.ExcludeKeepsOrder`, `Objects.ExcludeComposes` and `Objects.NumberKeyExcludesNothing`. |
| Objects.ExcludeKeeps | @vizality/utils/src/object.js:177-185 | `null` and `undefined` give `undefined`. Otherwise the result is an object with distinct keys. A key maps to nothing if excluded, else to its original value. Every property comes from the input, with a key that was not excluded. |
| Objects.ExcludeKeepsOrder | @vizality/utils/src/object.js:179-181 | Kept properties stay in their input order. |
| Objects.ExcludeComposes | @vizality/utils/src/object.js:177-185 | Excluding `a` then `b` is excluding `a` and `b` together, and excluding nothing copies the object. |
| Objects.ExcludeExample | @vizality/utils/src/object.js:177-185 | `{ a: 1, b: 2, c: 3 }` without `b` is `{ a: 1, c: 3 }`. A string is split into index keys. |
| Objects.NumberKeyExcludesNothing | @vizality/utils/src/object.js:180 | A number among the excluded keys excludes nothing, because `includes` compares it with the string key without conversion: `excludeProperties({ 0: 'a' }, 0)` is `{ 0: 'a' }`. |
| Objects.KeysToLowerCase | @vizality/utils/src/object.js:164-175 | Models `keysToLowerCase`. It has no contract of its own; its behaviour is stated by `Objects.KeysToLowerCaseSpec` and `Objects.NoCollisionKeepsOrder`. |
| Objects.Lowered | @vizality/utils/src/object.js:167-168 | Models the conversion of a value before assignment: with `nested`, an object-typed value is lowered once more, without `nested`. It has no contract of its own; its behaviour is stated by `Objects.KeysToLowerCaseSpec` and `Objects.NestedOneLevelExample`. |
| Objects.SetProp | @vizality/utils/src/object.js:169 | Assigning `acc[k] = v` makes `k` map to `v` and leaves every other key alone. Keys stay distinct, and a new key is appended. |
| Objects.KeysToLowerCaseSpec | @vizality/utils/src/object.js:164-175 | `null` and `undefined` give `undefined`. Otherwise the keys of the result are exactly the lower-cased input keys, each once. Each holds the value of the last input key that lowers to it; with `nested`, an object-typed value is lowered one more level. |
| Objects.NoCollisionKeepsOrder | @vizality/utils/src/object.js:166-170 | When no two keys lower to the same text, the result is the accumulator followed by every property, key lowered and value converted, in input order. |
| Objects.NestedOneLevelExample | @vizality/utils/src/object.js:167-169 | `{ A: { B: { C: 1 } }, N: null }` with `nested` gives `{ a: { b: { C: 1 } }, n: undefined }`. |
| Objects.CollisionExample | @vizality/utils/src/object.js:169 | `{ Ab: 1, aB: 2 }` gives `{ ab: 2 }`. |
| Objects.TraverseWith | @vizality/utils/src/object.js:21-56 | Models the generator `_traverse` as the list of paths it yields, under either guard of the own matches. It has no contract of its own; its behaviour is stated by `Objects.TraverseSound` and `Objects.TraverseOrder`. |
| Objects.TraverseAsWritten | @vizality/utils/src/object.js:21-56 | `_traverse` as written, yielding the own matches only when the first matched key is truthy. It has no contract of its own; its behaviour is stated by `Objects.TraverseFindsExactly`, `Objects.AsWrittenAgrees` and `Objects.EmptyKeyDropsMatches`. |
| Objects.Traverse | @vizality/utils/src/object.js:21-56 | `_traverse` with the corrected guard, yielding every own match. It has no contract of its own; its behaviour is stated by `Objects.TraverseComplete` and `Objects.TraverseFindsExactly`. |
| Objects.Matching | @vizality/utils/src/object.js:27-45 | The matched properties are exactly the own properties that match the lower-cased target for the search type, by equality when exact and by `includes` otherwise. |
| Objects.JoinPath | @vizality/utils/src/object.js:47-50 | An empty path gives the key alone. A non-empty path gives the path, a dot, then the key, and nothing else. |
| Objects.TraverseSound | @vizality/utils/src/object.js:21-56 | Every yielded path, with either guard, names a property that matches and is reached through object-typed values. |
| Objects.TraverseComplete | @vizality/utils/src/object.js:21-56 | With the corrected guard, every matching property reached through object-typed values is yielded. |
| Objects.TraverseFindsExactly | @vizality/utils/src/object.js:21-56 | The corrected search yields a path iff it names a match. The search as written yields only such paths. |
| Objects.MatchingAppend | @vizality/utils/src/object.js:27-45 | The filter keeps the `Object.keys` order: matching a concatenation of properties concatenates the matches. |
| Objects.TraverseOrder | @vizality/utils/src/object.js:47-51 | The generator first yields the node's own matched paths, in `Object.keys` order, when the guard lets them through. It then yields, property by property in `for...in` order, everything the walk of that property's value yields. |
| Objects.OwnMatchesFirstExample | @vizality/utils/src/object.js:47-51 | `{ a: { b: 'x' }, b: 'x' }` searched for the value `'x'` yields `'b'` before `'a.b'`. |
| Objects.AsWrittenAgrees | @vizality/utils/src/object.js:47 | When no key at any depth is `""`, the code as written and the corrected search yield the same paths. |
| Objects.EmptyKeyDropsMatches | @vizality/utils/src/object.js:47 | `{ '': 'x', b: 'x' }` searched for the value `'x'` yields nothing as written, although `b` matches. The corrected search yields `''` and `b`. |

## Left out

- Numbers are unbounded integers. Fractions, NaN and infinities as inputs, and JavaScript's 2^53 precision limit, are not modelled. The mean of the two middle elements is a `real`, so an odd sum gives an exact half.
- Numbers.GetMedian: requires an array of numbers. With other elements, `a - b` yields NaN comparisons and the sort order is unspecified.
- Hash.ToHash: takes the UTF-16 code units of a string. A non-string argument, for which `text.length` and `charCodeAt` do not behave like a string's, is not modelled.
- Strings.LowerProperties: `toLowerCase` is modelled for ASCII letters only. Unicode case mapping, which can change the length, is not modelled.
- `isArray` is `Array.isArray`, modelled directly by `Arrays.IsArray`. Typed arrays and array-likes are not modelled.
- Property order: JavaScript lists integer-like keys first in ascending order. The model keeps insertion order when an assignment appends a key.
- Inherited enumerable properties and `__proto__` keys (`for...in`, assignment) are not modelled. Class instances are modelled as having no own enumerable properties. Functions are never descended into.
- React.FindInTree: a plain object whose own `hasOwnProperty` is a function has that function called for each ownership test. The model's `Func` values carry no behaviour, so the model treats such a property as an ordinary key and uses the built-in test. An own `hasOwnProperty` that is not a function is modelled (`React.ShadowsHasOwn`).
- Dom.JoinClassNames: the same holds for an own `toString` or `hasOwnProperty` that is a function; the source calls it, and the model treats it as an ordinary key. One that is not a function is modelled (`Dom.ObjectThrows`).
- Arrays.FlattenArray: a non-array with a `reduce` method has that method called, and its result returned. This covers a plain object with an own `reduce` function and a class instance whose class defines or inherits `reduce`. The model's `Func` values carry no behaviour, and its class instances carry no methods. So the model gives the TypeError "array.reduce is not a function" for every non-array that is not `undefined` or `null`. That is exact only when the input has no `reduce` function, own or inherited.
- Objects.ExcludeProperties and Objects.KeysToLowerCase: a string argument is split into one index key per Dafny character (Unicode code point), and `JsValue.OwnProperty` gives a string's `length` in code points. JavaScript counts UTF-16 code units, so for a string holding a character outside the Basic Multilingual Plane (such as '😀') it lists two index keys, each holding a lone surrogate, and a larger `length`. Strings made only of characters of the Basic Multilingual Plane agree.
- A filter that is neither a string nor a function makes `findInTree` throw and return `undefined` when the tree is an object or an array. A falsy or non-object tree gives `null` before the filter is read (`React.NonObjectRootIsNull`). The model's filter type allows only these two kinds.
- Logging on error paths is not modelled; only the returned `undefined` is.
- `util/react.js` (a second copy of the tree search that recurses through a `this` of unknown binding) is not part of this model. Neither are the rest of `util/string.js`, the logger, the lodash wrappers (`isObject`, `isEmptyObject`, `isNumber`, `isEmptyArray`), `_find` and `removeUndefinedProperties`. `getAverage`, `toSentence`, `getRandomItem`, the DOM and timer helpers, and the constant tables and type declarations are also outside it.
- Cyclic or unboundedly deep trees: the datatype is finite and acyclic, so every walk terminates.
- `_traverse` yields lazily; the model lists all yielded paths. An error inside a child's walk ends only that child's generator. The model reaches the same outcome because a child's errors arise before it yields.

## Findings

| source | as written | input that shows it | evidently intended | confidence | as-written member | corrected member |
|---|---|---|---|---|---|---|
| @vizality/utils/src/object.js:47 | `if (matchedKeys[0])` tests the truthiness of the first matched key, so a node whose first match is the key `''` yields none of its matches | `{ '': 'x', b: 'x' }`, target `'x'`, exact, type `'value'`: nothing is yielded, although `b` matches | yield the node's matches whenever any key matched | not executed | Objects.EmptyKeyDropsMatches | Objects.TraverseFindsExactly |
