# dsDOM: selector resolution and the event registry

`dsDOM` is a small jQuery-like wrapper: a handle is an `Array` of DOM items built
from a selector, and it carries a per-handle registry of event listeners. This
project models the core of `lib/dsDOM.js`:

- `#parseSelector` and the static `_selectorCache`. String selectors are memoised
  under their literal text: markup goes through a `template`, anything else goes
  to `querySelectorAll`. Elements, node lists and arrays are copied. Anything
  else gives nothing.
- The constructor (`super(...elements)` plus an empty `WeakMap` registry), and
  `first()` and `last()`.
- `listen(event, selector, handler)`. It shifts its arguments when the second
  one is not a string. For each item it records a `{handler, selector, callback}`
  tuple under `registry[el][event]` and calls `addEventListener`.
- `unlisten(event, selector, handler)`. It filters tuples, with `null` as the
  only wildcard. A falsy `event` means every recorded type. It deletes matching
  tuples and calls `removeEventListener`.
- The registry side of `remove()`: `unlisten()`, deleting each item's registry
  entry, and `push([])`.
- What a registered callback does when an event reaches it: it calls the handler
  directly, or delegates through `closest`.

The files:

- `values.dfy` (module `JsValues`): the JavaScript values involved, truthiness,
  and the exceptions that escape.
- `selector.dfy` (module `SelectorResolver`): the resolution function `Resolve`,
  its lemmas, and the `SelectorCache` class whose `Parse` method updates the
  shared cache in place.
- `events.dfy` (module `EventRegistry`): what one `listen`, `unlisten` or
  `remove` does to a `World`, item by item. A `World` is the handle's registry,
  the host's set of native listeners, and the supply of fresh callback
  identities. The module also holds the dispatch function `Fire` and the
  invariant `Consistent`.
- `event_properties.dfy` (module `EventProperties`): lemmas about those
  functions.
- `dsdom.dfy` (module `DsDom`): the imperative handle and host. The `Handle`
  class has `items` and `registry` fields, and its methods run the loops of the
  original. The `Host` class holds the native listener table. Each method is
  proved to end in exactly the state the `EventRegistry` function gives, and to
  report a throw exactly when that function does.

Exceptions are modelled as results. `Resolve` and `Construct` return
`Err(SyntaxError | RangeError)`. The event methods return `thrown` together with
the state at the throw, because side effects made before a `TypeError` persist.

## Model

| member | source | states |
|---|---|---|
| SelectorResolver.Resolve | lib/dsDOM.js:13-36 | The cache only grows. A string selector ends up in the cache and the items are its entry. An invalid query is a SyntaxError and caches nothing. A non-string never touches the cache. |
| SelectorResolver.SelectorCache.Parse | lib/dsDOM.js:13-36 | The method updates the static cache in place and returns exactly the items and cache `Resolve` gives. On a SyntaxError the cache is unchanged. |
| SelectorResolver.ResolveAgainIsStable | lib/dsDOM.js:16-28 | A second lookup of a string hits the cache. It returns the same items and leaves the cache as it was, even if the document has changed since. |
| SelectorResolver.ResolveMiss | lib/dsDOM.js:15-28 | On a miss, markup is parsed and every other string is queried. Both are keyed by the literal, untrimmed string. A query that fails is a SyntaxError. |
| SelectorResolver.MarkupTrimIsIdentity | lib/dsDOM.js:15-18 | `trim()` is the identity on a string that starts with `<` and ends with `>`. |
| SelectorResolver.ResolveNonString | lib/dsDOM.js:29-35 | An HTMLElement gives itself. A NodeList or Array gives an element-wise copy. Anything else gives `[]`. None of them touch the cache. |
| SelectorResolver.ResolveManyGrows | lib/dsDOM.js:2-28 | Across any sequence of resolutions the cache only gains entries; no existing entry changes. |
| SelectorResolver.TrimStart | lib/dsDOM.js:18 | Strips exactly the leading white space, as `trim` does. |
| SelectorResolver.TrimEnd | lib/dsDOM.js:18 | Strips exactly the trailing white space, as `trim` does. |
| DsDom.ArrayOf | lib/dsDOM.js:5 | `super(...elements)`: a lone number gives that many `undefined` holes, or a RangeError when it is not a valid length. Any other argument list becomes the array itself. |
| DsDom.LoneNumberIsALength | lib/dsDOM.js:3-5 | `new dsDOM([n])` yields n holes (or a RangeError), not a handle that holds `n`. |
| DsDom.Construct | lib/dsDOM.js:3-10 | The new handle holds the resolved items, passed through the `Array` constructor, and an empty registry. Either error propagates. |
| DsDom.Handle.First | lib/dsDOM.js:38-40 | Builds a fresh handle from `this[0]` (`undefined` when empty). |
| DsDom.Handle.Last | lib/dsDOM.js:42-44 | Builds a fresh handle from `this[length - 1]`. |
| DsDom.Handle.Listen | lib/dsDOM.js:47-89 | Shifts the arguments, then loops over the items. The new registry and native listeners, and whether it throws, are exactly those of `EventRegistry.Listen`. |
| DsDom.Handle.ListenAll | lib/dsDOM.js:55-87 | The loop ends in the state `Run` over `ListenStep` gives, and stops at the first throw. |
| DsDom.Handle.ListenElement | lib/dsDOM.js:56-85 | One iteration. A primitive throws before any change. Otherwise a fresh tuple is added under the event, then `addEventListener` is called, which throws on a non-node. |
| DsDom.Handle.Unlisten | lib/dsDOM.js:91-130 | The loop over the items ends in exactly the state of `EventRegistry.Unlisten`, and throws exactly when it does. |
| DsDom.Handle.UnlistenElement | lib/dsDOM.js:93-127 | One item: skipped without an entry. Otherwise its visited types are `[event]`, or every key when `event` is falsy. The result equals `UnlistenItem`. |
| DsDom.Handle.SweepTypes | lib/dsDOM.js:100-125 | After visiting some of the types, the state is the entry with those types swept and their matching native listeners removed. |
| DsDom.Handle.UnlistenType | lib/dsDOM.js:101-120 | One event type: collects the matching tuples, removes their native listeners, and writes back the Set without them. |
| DsDom.Handle.Detach | lib/dsDOM.js:105-116 | Returns exactly the tuples of the Set that pass the filter. On a non-node it throws at the first one. |
| DsDom.Handle.Remove | lib/dsDOM.js:257-270 | An empty handle is returned unchanged. Otherwise `unlisten()` runs, each item's entry is deleted (a null or undefined item throws), and `[]` is pushed. The result is exactly `EventRegistry.Remove`. |
| DsDom.Host.AddEventListener | lib/dsDOM.js:85 | Registers one native listener on a node and throws on anything else. |
| DsDom.Host.RemoveEventListener | lib/dsDOM.js:113 | Removes that listener from a node and throws on anything else. |
| DsDom.ListenOnHoleThrows | lib/dsDOM.js:55-62 | `listen` on a handle whose first item is a hole throws before recording anything. |
| EventRegistry.Closest | lib/dsDOM.js:72 | `closest` finds the first matching node of the ancestor-or-self chain, or reports that none matches. |
| EventRegistry.Fire | lib/dsDOM.js:69-81 | Without a selector the handler runs with `el` as `this`. With one, it runs with the first match as `this`, exactly when a match exists and is not `el`. |
| EventProperties.DelegationEscapesElement | lib/dsDOM.js:71-76 | A match above `el` still fires the handler: the search is not bounded by the element. |
| EventProperties.SelfMatchSuppressesHandler | lib/dsDOM.js:73 | When `el` itself is the closest match, the handler does not run, even if an ancestor matches too. |
| EventProperties.ListenNodesState | lib/dsDOM.js:55-87 | On nodes `listen` completes and keeps `Consistent`. The native table grows by exactly one new listener per item, and `next` advances by the item count. |
| EventProperties.ListenNodesNatives | lib/dsDOM.js:69-85 | On nodes, the native listeners `listen` adds are exactly `Registered`: for the i-th item, one listener on that node for the event, with the closure numbered `next + i`, which captured the call's selector and handler. |
| EventProperties.RegisteredMembers | lib/dsDOM.js:55-85 | A listener is in `Registered` if and only if it is the one for some item i: on `items[i]`'s node, for the event, with closure `next + i`. |
| EventProperties.ListenPreservesConsistent | lib/dsDOM.js:47-89 | Any `listen`, on any items, keeps `Consistent`, whether it completes or throws. |
| EventProperties.ListenItemKeepsConsistent | lib/dsDOM.js:56-85 | Step lemma for `ListenPreservesConsistent`. One iteration on any item keeps `Consistent`: a tuple recorded for a non-node needs no native listener. |
| EventProperties.ListenNodesCounts | lib/dsDOM.js:65-84 | Each element gains exactly one tuple per occurrence in the handle, and earlier tuples stay. There is no deduplication. |
| EventProperties.ListenTuples | lib/dsDOM.js:49-84 | Stated over `listen`'s own arguments. With a string second argument, every added tuple has that selector and the third argument as handler. With any other second argument, the tuple's handler is that argument and its selector is null. |
| EventProperties.ListenNodesTuples | lib/dsDOM.js:83-84 | Step lemma for `ListenTuples`, over the shifted selector and handler: every added tuple carries them. |
| EventProperties.ListenNodesOtherEvents | lib/dsDOM.js:65-84 | Tuples of other event types are untouched. |
| EventProperties.ListenNodesKeys | lib/dsDOM.js:58-67 | Every element gets an entry holding a Set for the event. No key is dropped. |
| EventProperties.ListenItemEntries | lib/dsDOM.js:58-84 | Step lemma. One iteration adds exactly its tuple under `(el, event)` and nothing else. |
| EventProperties.ListenItemState | lib/dsDOM.js:69-85 | Step lemma. One iteration adds exactly one new native listener and keeps `Consistent`. |
| EventProperties.ListenTwiceRegistersTwice | lib/dsDOM.js:83-85 | The same call made twice records two tuples per occurrence. Each call adds its own `Registered` set of native listeners, one per item, numbered from where the call started: 2 × the item count in all. |
| EventProperties.ListenAfterRemoveThrows | lib/dsDOM.js:268 | After `remove()`, `listen` first registers every node again: each gets a new tuple and a new native listener, exactly `Registered`. It then records a tuple for the pushed `[]` and throws there. The result equals that last iteration. |
| EventProperties.UnlistenNodesEntries | lib/dsDOM.js:98-120 | On nodes `unlisten` deletes exactly the matching tuples of the visited types of the handle's elements. Every other tuple stays. |
| EventProperties.UnlistenNodesNatives | lib/dsDOM.js:107-116 | It removes exactly the native listeners of the tuples it deletes. |
| EventProperties.UnlistenItemOnNodeEntries | lib/dsDOM.js:100-120 | Step lemma for `UnlistenNodesEntries`. One element: its visited types keep only the non-matching tuples, and everything else is unchanged. |
| EventProperties.UnlistenItemOnNode | lib/dsDOM.js:107-116 | Step lemma for `UnlistenNodesNatives`: it unfolds one iteration on a node. `DroppedOnlyMatching` says what the dropped set means. |
| EventProperties.DroppedOnlyMatching | lib/dsDOM.js:109-115 | A tuple's listener is removed if and only if its type is visited and it passes the filter. |
| EventProperties.UnlistenWithoutMatchIsNoop | lib/dsDOM.js:92-128 | When no visited tuple matches, `unlisten` changes nothing and throws nothing. |
| EventProperties.UnlistenNonSelectorRemovesNothing | lib/dsDOM.js:109 | Only a literal `null` is a wildcard. A selector that is `undefined` or a function makes `unlisten` a no-op, as in `unlisten()` and `unlisten('click', h)`. |
| EventProperties.UnlistenAbsent | lib/dsDOM.js:95-96 | Items without a registry entry are skipped. |
| EventProperties.FreshHandleUnlistenIsNoop | lib/dsDOM.js:8 | A fresh handle (as from `first()`/`last()`) has an empty registry, so its `unlisten` removes nothing. |
| EventProperties.UnlistenKeepsKeys | lib/dsDOM.js:122-127 | `unlisten` never deletes a registry entry or an event-type key, whether it completes or throws. |
| EventProperties.UnlistenPreservesConsistent | lib/dsDOM.js:91-130 | Every tuple left keeps its native listener: `Consistent` holds after any `unlisten`. |
| EventProperties.UnlistenItemKeepsConsistent | lib/dsDOM.js:93-127 | Step lemma for `UnlistenPreservesConsistent`: one iteration keeps `Consistent`. |
| EventProperties.UnlistenTwiceIsOnce | lib/dsDOM.js:91-130 | Repeating the same `unlisten` on nodes changes nothing more. |
| EventProperties.ListenThenUnlisten | lib/dsDOM.js:47-130 | `listen(e, f)` then `unlisten(e, null, f)` on one node restores the native listeners and every tuple Set, when `f` is not already registered on the node under a visited type (the type `e`, or every type when `e` is empty). |
| EventProperties.ListenThenUnlistenBySelector | lib/dsDOM.js:91-130 | `listen(e, f)` then `unlisten(e, f)` removes nothing, because `unlisten` does not shift its arguments. |
| EventProperties.DroppedJustAdded | lib/dsDOM.js:107-119 | The handler filter picks exactly the one tuple with that handler. |
| EventProperties.RemoveKeepsNativeListeners | lib/dsDOM.js:257-266 | `remove()` deletes every item's entry but removes no native listener. |
| EventProperties.DetachAll | lib/dsDOM.js:262-266 | The loop deletes exactly the items' entries. |
| EventProperties.RemovePreservesConsistent | lib/dsDOM.js:257-270 | `remove()` keeps `Consistent`, whether it completes or throws. |
| EventProperties.RemovedListenersUnreachable | lib/dsDOM.js:257-270 | After `remove()`, no `unlisten` on the handle reaches the listeners left behind. |
| EventProperties.RunStops | lib/dsDOM.js:55-87 | Once an item throws, no later item is visited. |

## Left out

- The DOM tree, `removeChild` and `parentNode` are not modelled. `remove` is
  modelled on the registry only: a non-null item's detachment from its parent is
  not represented.
- Event dispatch itself (capture and bubbling, the event loop) is out of scope.
  `Fire` states what one callback does when reached. Selector matching is an
  abstract relation `matches` passed in, and the ancestor chain is a parameter.
- Garbage collection of `WeakMap` entries is not modelled.
- Object identity is modelled by value equality. Two distinct `[]` arrays are one
  key here, and so are two node lists with the same nodes.
- Numbers are integers only. Symbols, BigInt and floating point are not modelled.
  `listen`'s `event` is a string; a non-string event type is not modelled for it.
- Set iteration order and the order of `toRemove` are not modelled. A Set is a
  Dafny `set`, and `Detach` chooses its tuples in any order. This is not
  observable in the registry or the native table.
- `window` and other event targets that are not nodes are not modelled: every
  object that is not a node throws on `addEventListener`. (`document` is a node
  and is modelled as one.)
- The host document is a parameter. `querySelectorAll` and template parsing are
  the functions `Document.query` and `Document.parse`.
- The other handle methods are not part of this model: classes, attributes,
  styles, content, traversal, insertion and cloning.
- The code has no reference counting, no one-listener-per-key sharing, and no
  delegation scope bounded by the element. Each `listen` adds its own native
  listener, and `closest` can match above the element.
- `unlisten` does not shift its arguments the way `listen` does. The model
  follows the code.
- The cleanup at lines 122-123 runs whenever a Set empties, but it deletes an own
  property the Map does not have, so it has no effect on the Map. The test at
  line 127 reads `.length` of a Map, which is undefined, so it never deletes an
  entry. The model therefore never deletes a key or an entry in `unlisten`.
- `Fire` leaves out two throws at dispatch time. `closest` throws a SyntaxError
  on an invalid selector string, such as the one `listen('click', '', h)`
  records. `handler.call` throws a TypeError when the recorded handler is not a
  function, as after `listen('click')`. Matching is a total relation and `Fire`
  always returns the call it would make.
