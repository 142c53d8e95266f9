/** The bookkeeping behind `listen`, `unlisten` and `remove`: each handle owns a
    registry from item to event type to the set of `{handler, selector, callback}`
    tuples it recorded, and every `listen` also registers one native listener per
    element with the host. This module states what one call does to that state,
    item by item, as functions; the handle's methods are proved against them. */
module EventRegistry {
  import opened JsValues

  /** A dispatch closure made by `listen` for one element: `id` is its identity,
      `selector` and `handler` the values it captured. */
  datatype Callback = Callback(id: nat, selector: Option<string>, handler: Value)

  /** The `{handler, selector, callback}` tuple `listen` records; a `selector` of
      None is the `null` recorded when no delegation selector was given. */
  datatype Entry = Entry(handler: Value, selector: Option<string>, callback: Callback)

  /** One native listener, as `addEventListener(event, callback)` on `target` leaves it. */
  datatype Listener = Listener(target: Node, event: string, callback: Callback)

  /** The Map from event type to its Set of tuples, and the per-handle WeakMap. */
  type Events = map<string, set<Entry>>
  type Registry = map<Value, Events>

  /** What one handle's event calls read and write: its own registry, the host's
      native listeners, and the next fresh closure identity. */
  datatype World = World(registry: Registry, natives: set<Listener>, next: nat)

  /** How a call ends: normally, or with a TypeError thrown in the given state. */
  datatype Completion = Normal(w: World) | Thrown(w: World)

  /** The tuples recorded for `item` under `event`, none when there is no such key. */
  function EntriesOf(reg: Registry, item: Value, event: string): set<Entry>
  {
    if item in reg && event in reg[item] then reg[item][event] else {}
  }

  /** Runs `step` over `items` in order, stopping at the first item that throws. */
  function Run(w: World, items: seq<Value>, step: (World, Value) -> Completion): Completion
    decreases |items|
  {
    if items == [] then Normal(w)
    else
      match Run(w, items[..|items| - 1], step)
      case Normal(w') => step(w', items[|items| - 1])
      case Thrown(w') => Thrown(w')
  }

  // ---------------------------------------------------------------- listen

  /** `listen`'s reading of its arguments: a string second argument is the
      delegation selector, anything else is the handler and the selector is null. */
  function ListenArgs(selector: Value, handler: Value): (Option<string>, Value)
  {
    if selector.Str? then (Some(selector.s), handler) else (None, selector)
  }

  /** One iteration of `listen`'s loop for `item`. A primitive item makes
      `WeakMap.set` throw before anything changes; an object that is not a node
      gets its registry entry and tuple, then `addEventListener` throws. */
  function ListenItem(w: World, item: Value, event: string, sel: Option<string>, handler: Value): Completion
  {
    if !IsObject(item) then Thrown(w)
    else
      var events := if item in w.registry then w.registry[item] else map[];
      var cb := Callback(w.next, sel, handler);
      var entries := if event in events then events[event] else {};
      var registry := w.registry[item := events[event := entries + {Entry(handler, sel, cb)}]];
      if item.DomNode? then
        Normal(World(registry, w.natives + {Listener(item.node, event, cb)}, w.next + 1))
      else
        Thrown(World(registry, w.natives, w.next + 1))
  }

  function ListenStep(event: string, sel: Option<string>, handler: Value): (World, Value) -> Completion
  {
    (w, item) => ListenItem(w, item, event, sel, handler)
  }

  /** `listen(event, selector, handler)` over the handle's `items`. */
  function Listen(w: World, items: seq<Value>, event: string, selector: Value, handler: Value): Completion
  {
    var (sel, h) := ListenArgs(selector, handler);
    Run(w, items, ListenStep(event, sel, h))
  }

  // ---------------------------------------------------------------- unlisten

  /** `unlisten`'s filter on one tuple: only a literal `null` is a wildcard. */
  predicate Matches(e: Entry, selector: Value, handler: Value)
  {
    (selector == Null || (selector.Str? && e.selector == Some(selector.s)))
    && (handler == Null || e.handler == handler)
  }

  /** The event types `unlisten` visits for an item: the given one, or every key
      when `event` is falsy. A non-string key never matches a string Map key. */
  function Requested(events: Events, event: Value): set<string>
  {
    if Truthy(event) then (if event.Str? then {event.s} else {}) else events.Keys
  }

  /** The tuples of `entries` that survive the filter. */
  function Kept(entries: set<Entry>, selector: Value, handler: Value): set<Entry>
  {
    set e | e in entries && !Matches(e, selector, handler)
  }

  /** `events` with the matching tuples of the `types` keys deleted. */
  function Swept(events: Events, types: set<string>, selector: Value, handler: Value): Events
  {
    map k | k in events :: if k in types then Kept(events[k], selector, handler) else events[k]
  }

  /** The native listeners of `node` that `unlisten` removes for those tuples. */
  function Dropped(events: Events, types: set<string>, node: Node, selector: Value, handler: Value): set<Listener>
  {
    set k, e | k in types && k in events && e in events[k] && Matches(e, selector, handler)
      :: Listener(node, k, e.callback)
  }

  /** Whether some tuple of the `types` keys passes the filter. */
  predicate AnyMatch(events: Events, types: set<string>, selector: Value, handler: Value)
  {
    exists k, e :: k in types && k in events && e in events[k] && Matches(e, selector, handler)
  }

  /** One iteration of `unlisten`'s outer loop for `item`. An item without a registry
      entry is skipped. For a node, the matching tuples are deleted and their
      native listeners removed; no key is ever deleted. For an object that is not
      a node, the first matching tuple makes `removeEventListener` throw. */
  function UnlistenItem(w: World, item: Value, event: Value, selector: Value, handler: Value): Completion
  {
    if !IsObject(item) || item !in w.registry then Normal(w)
    else
      var events := w.registry[item];
      var types := Requested(events, event);
      if item.DomNode? then
        Normal(World(w.registry[item := Swept(events, types, selector, handler)],
                     w.natives - Dropped(events, types, item.node, selector, handler),
                     w.next))
      else if AnyMatch(events, types, selector, handler) then Thrown(w)
      else Normal(w)
  }

  function UnlistenStep(event: Value, selector: Value, handler: Value): (World, Value) -> Completion
  {
    (w, item) => UnlistenItem(w, item, event, selector, handler)
  }

  /** `unlisten(event, selector, handler)` over the handle's `items`. */
  function Unlisten(w: World, items: seq<Value>, event: Value, selector: Value, handler: Value): Completion
  {
    Run(w, items, UnlistenStep(event, selector, handler))
  }

  // ---------------------------------------------------------------- remove

  /** One iteration of `remove`'s loop: `el.parentNode` throws on null and
      undefined; otherwise the item's registry entry is deleted. */
  function DetachItem(w: World, item: Value): Completion
  {
    if item == Null || item == Undefined then Thrown(w)
    else Normal(World(w.registry - {item}, w.natives, w.next))
  }

  /** The registry side of `remove()`: nothing on an empty handle; otherwise
      `unlisten()` and then the loop that deletes each item's entry. */
  function Remove(w: World, items: seq<Value>): Completion
  {
    if items == [] then Normal(w)
    else
      match Unlisten(w, items, Undefined, Undefined, Undefined)
      case Normal(w') => Run(w', items, DetachItem)
      case Thrown(w') => Thrown(w')
  }

  // ---------------------------------------------------------------- dispatch

  /** A handler invocation: the handler and the node bound to `this` (`receiver`). */
  datatype Call = Call(handler: Value, receiver: Node)

  /** `closest(selector)` on the event target: the index of the first node of its
      ancestor-or-self chain `chain` (nearest first) that `matches` the selector. */
  function Closest(chain: seq<Node>, selector: string, matches: (Node, string) -> bool): (r: Option<nat>)
    ensures r.Some? ==> r.value < |chain| && matches(chain[r.value], selector)
    ensures r.Some? ==> forall j :: 0 <= j < r.value ==> !matches(chain[j], selector)
    ensures r.None? ==> forall j :: 0 <= j < |chain| ==> !matches(chain[j], selector)
    decreases |chain|
  {
    if chain == [] then None
    else if matches(chain[0], selector) then Some(0)
    else
      match Closest(chain[1..], selector, matches)
      case None => None
      case Some(i) => Some(i + 1)
  }

  /** Whether `i` indexes the node `closest(selector)` finds in `chain`. */
  predicate FirstMatch(chain: seq<Node>, selector: string, matches: (Node, string) -> bool, i: nat)
  {
    i < |chain| && matches(chain[i], selector) && forall j :: 0 <= j < i ==> !matches(chain[j], selector)
  }

  /** What the callback `cb` that `listen` registered on `el` does when an event
      whose target has ancestor-or-self chain `chain` reaches it. Without a
      selector the handler runs with `el` as `this`. With one, it runs with the
      closest match as `this`, unless there is no match or the match is `el`
      itself; the search is not bounded by `el`, so it can end above it. */
  function Fire(cb: Callback, el: Node, chain: seq<Node>, matches: (Node, string) -> bool): (r: Option<Call>)
    ensures cb.selector.None? ==> r == Some(Call(cb.handler, el))
    ensures cb.selector.Some? ==>
      (r.Some? <==> exists i: nat :: FirstMatch(chain, cb.selector.value, matches, i) && chain[i] != el)
    ensures cb.selector.Some? && r.Some? ==>
      r.value.handler == cb.handler &&
      exists i: nat :: FirstMatch(chain, cb.selector.value, matches, i) && r.value.receiver == chain[i]
  {
    match cb.selector
    case None => Some(Call(cb.handler, el))
    case Some(s) =>
      match Closest(chain, s, matches)
      case Some(i) =>
        assert FirstMatch(chain, s, matches, i);
        assert forall j: nat :: FirstMatch(chain, s, matches, j) ==> j == i;
        if chain[i] != el then Some(Call(cb.handler, chain[i])) else None
      case None => None
  }

  // ---------------------------------------------------------------- invariant

  /** What every sequence of `listen`, `unlisten` and `remove` calls keeps: every
      closure identity in use is below `next`, every tuple's callback captured the
      tuple's own handler and selector, and a tuple recorded for a node has its
      native listener registered. */
  ghost predicate Consistent(w: World)
  {
    && (forall l | l in w.natives :: l.callback.id < w.next)
    && (forall v, k, e | v in w.registry && k in w.registry[v] && e in w.registry[v][k] ::
          && e.callback.id < w.next
          && e.callback.handler == e.handler
          && e.callback.selector == e.selector
          && (v.DomNode? ==> Listener(v.node, k, e.callback) in w.natives))
  }
}
