/** The `dsDOM` handle: an array of items built from a selector, with a per-handle
    event registry, and the host document's table of native listeners. Each
    method runs the loops of the original and is proved to do what the registry
    functions say, item by item. */
module DsDom {
  import opened JsValues
  import opened SelectorResolver
  import opened EventRegistry
  import opened EventProperties

  /** The host side of event registration: the native listeners currently
      registered, and the supply of fresh dispatch closures. */
  class Host {
    var listeners: set<Listener>
    var nextCallback: nat

    constructor ()
      ensures listeners == {} && nextCallback == 0
    {
      listeners := {};
      nextCallback := 0;
    }

    /** Creating the dispatch closure for one element. */
    method NewCallback(sel: Option<string>, handler: Value) returns (cb: Callback)
      modifies this
      ensures cb == Callback(old(nextCallback), sel, handler)
      ensures nextCallback == old(nextCallback) + 1 && listeners == old(listeners)
    {
      cb := Callback(nextCallback, sel, handler);
      nextCallback := nextCallback + 1;
    }

    /** `target.addEventListener(event, cb)`: only nodes have the method; on any
        other object the call throws a TypeError. */
    method AddEventListener(target: Value, event: string, cb: Callback) returns (thrown: bool)
      modifies this
      ensures thrown == !target.DomNode?
      ensures listeners == if target.DomNode? then old(listeners) + {Listener(target.node, event, cb)} else old(listeners)
      ensures nextCallback == old(nextCallback)
    {
      if !target.DomNode? {
        return true;
      }
      listeners := listeners + {Listener(target.node, event, cb)};
      return false;
    }

    /** `target.removeEventListener(event, cb)`, throwing like `AddEventListener`. */
    method RemoveEventListener(target: Value, event: string, cb: Callback) returns (thrown: bool)
      modifies this
      ensures thrown == !target.DomNode?
      ensures listeners == if target.DomNode? then old(listeners) - {Listener(target.node, event, cb)} else old(listeners)
      ensures nextCallback == old(nextCallback)
    {
      if !target.DomNode? {
        return true;
      }
      listeners := listeners - {Listener(target.node, event, cb)};
      return false;
    }
  }

  /** One more than the largest array length. */
  const ArrayLengthLimit: int := 0x1_0000_0000

  /** `super(...elements)`: the `Array` constructor given the resolved items as its
      arguments. A lone number argument is read as a length, giving that many
      holes (read back as `undefined`), and an invalid length is a RangeError. */
  function ArrayOf(elements: seq<Value>): (r: Result<seq<Value>>)
    ensures r.Err? <==> |elements| == 1 && elements[0].Num? && !(0 <= elements[0].n < ArrayLengthLimit)
    ensures r.Err? ==> r.error == RangeError
    ensures r.Ok? && |elements| == 1 && elements[0].Num? ==>
      |r.value| == elements[0].n && forall i :: 0 <= i < |r.value| ==> r.value[i] == Undefined
    ensures !(|elements| == 1 && elements[0].Num?) ==> r == Ok(elements)
  {
    if |elements| == 1 && elements[0].Num? then
      var n := elements[0].n;
      if 0 <= n < ArrayLengthLimit then Ok(seq(n, _ => Undefined)) else Err(RangeError)
    else Ok(elements)
  }

  /** An array selector holding one number builds a handle of that many holes, not
      a handle holding the number; the cache is not touched. */
  lemma LoneNumberIsALength(cache: Cache, doc: Document, n: int)
    ensures var r := Resolve(cache, doc, Array([Num(n)]));
      && r == Ok(Resolved([Num(n)], cache))
      && ArrayOf(r.value.items) == if 0 <= n < ArrayLengthLimit then Ok(seq(n, _ => Undefined)) else Err(RangeError)
  {
  }

  /** On a handle whose first item is `undefined` (a hole), `listen` throws at that
      item before recording anything. */
  lemma ListenOnHoleThrows(w: World, items: seq<Value>, event: string, selector: Value, handler: Value)
    requires items != [] && items[0] == Undefined
    ensures Listen(w, items, event, selector, handler) == Thrown(w)
  {
    var (sel, h) := ListenArgs(selector, handler);
    RunExtend(w, items, 0, ListenStep(event, sel, h));
    RunStops(w, items, 1, ListenStep(event, sel, h));
  }

  /** `this[i]`: out of range reads `undefined`. */
  function At(items: seq<Value>, i: int): Value
  {
    if 0 <= i < |items| then items[i] else Undefined
  }

  /** `new dsDOM(selector)`: the items `#parseSelector` gives, passed to the
      `Array` constructor, and an empty registry. */
  method Construct(selector: Value, cache: SelectorCache, doc: Document) returns (r: Result<Handle>)
    modifies cache
    ensures r.Ok? ==> fresh(r.value)
    ensures Built(old(cache.entries), cache.entries, doc, selector, r)
  {
    var parsed := cache.Parse(selector, doc);
    if parsed.Err? {
      return Err(parsed.error);
    }
    var elements := ArrayOf(parsed.value);
    if elements.Err? {
      return Err(elements.error);
    }
    var handle := new Handle(elements.value);
    return Ok(handle);
  }

  /** What `new dsDOM(selector)` gives and leaves in the cache, from cache `before`. */
  ghost predicate Built(before: Cache, after: Cache, doc: Document, selector: Value, r: Result<Handle>)
    reads if r.Ok? then {r.value} else {}
  {
    match Resolve(before, doc, selector)
    case Err(e) => r == Err(e) && after == before
    case Ok(res) =>
      after == res.cache &&
      match ArrayOf(res.items)
      case Err(e) => r == Err(e)
      case Ok(xs) => r.Ok? && r.value.items == xs && r.value.registry == map[]
  }

  class Handle {
    /** The array elements `this[0]`, …, `this[length - 1]`. */
    var items: seq<Value>
    /** `this._eventHandler` */
    var registry: Registry

    constructor (elements: seq<Value>)
      ensures items == elements && registry == map[]
    {
      items := elements;
      registry := map[];
    }

    /** The state the registry functions speak about. */
    ghost function State(host: Host): World
      reads this, host
    {
      World(registry, host.listeners, host.nextCallback)
    }

    /** `first()`: a new handle built from `this[0]`. */
    method First(cache: SelectorCache, doc: Document) returns (r: Result<Handle>)
      modifies cache
      ensures r.Ok? ==> fresh(r.value)
      ensures Built(old(cache.entries), cache.entries, doc, At(items, 0), r)
    {
      r := Construct(At(items, 0), cache, doc);
    }

    /** `last()`: a new handle built from `this[this.length - 1]`. */
    method Last(cache: SelectorCache, doc: Document) returns (r: Result<Handle>)
      modifies cache
      ensures r.Ok? ==> fresh(r.value)
      ensures Built(old(cache.entries), cache.entries, doc, At(items, |items| - 1), r)
    {
      r := Construct(At(items, |items| - 1), cache, doc);
    }

    /** `listen(event, selector, handler)`; `thrown` reports the TypeError. */
    method Listen(event: string, selector: Value, handler: Value, host: Host) returns (thrown: bool)
      modifies this, host
      ensures items == old(items)
      ensures var c := EventRegistry.Listen(old(State(host)), items, event, selector, handler);
        thrown == c.Thrown? && State(host) == c.w
    {
      var sel: Option<string> := None;
      var h := handler;
      if selector.Str? {
        sel := Some(selector.s);
      } else {
        h := selector;
      }
      assert ListenArgs(selector, handler) == (sel, h);
      thrown := ListenAll(event, sel, h, host);
    }

    /** `listen`'s loop over the handle's elements, its arguments already shifted. */
    method ListenAll(event: string, sel: Option<string>, h: Value, host: Host) returns (thrown: bool)
      modifies this, host
      ensures items == old(items)
      ensures var c := Run(old(State(host)), items, ListenStep(event, sel, h));
        thrown == c.Thrown? && State(host) == c.w
    {
      ghost var w0 := State(host);
      var i, n := 0, |items|;
      while i < n
        invariant 0 <= i <= n == |items| && items == old(items)
        invariant Run(w0, items[..i], ListenStep(event, sel, h)) == Normal(State(host))
      {
        RunExtend(w0, items, i, ListenStep(event, sel, h));
        var failed := ListenElement(items[i], event, sel, h, host);
        if failed {
          RunStops(w0, items, i + 1, ListenStep(event, sel, h));
          return true;
        }
        i := i + 1;
      }
      assert items[..n] == items;
      return false;
    }

    /** One iteration of `listen`'s loop, for the element `el`. */
    method ListenElement(el: Value, event: string, sel: Option<string>, h: Value, host: Host) returns (thrown: bool)
      modifies this, host
      ensures items == old(items)
      ensures var c := ListenStep(event, sel, h)(old(State(host)), el);
        thrown == c.Thrown? && State(host) == c.w
    {
      assert ListenStep(event, sel, h)(State(host), el) == ListenItem(State(host), el, event, sel, h);
      if !IsObject(el) {
        // `WeakMap.prototype.set` rejects a primitive key
        return true;
      }
      var events := if el in registry then registry[el] else map[];
      var tuples := if event in events then events[event] else {};
      var cb := host.NewCallback(sel, h);
      registry := registry[el := events[event := tuples + {Entry(h, sel, cb)}]];
      thrown := host.AddEventListener(el, event, cb);
    }

    /** `unlisten(event, selector, handler)`; `thrown` reports the TypeError. */
    method Unlisten(event: Value, selector: Value, handler: Value, host: Host) returns (thrown: bool)
      modifies this, host
      ensures items == old(items)
      ensures var c := EventRegistry.Unlisten(old(State(host)), items, event, selector, handler);
        thrown == c.Thrown? && State(host) == c.w
    {
      ghost var w0 := State(host);
      var i, n := 0, |items|;
      while i < n
        invariant 0 <= i <= n == |items| && items == old(items)
        invariant Run(w0, items[..i], UnlistenStep(event, selector, handler)) == Normal(State(host))
      {
        RunExtend(w0, items, i, UnlistenStep(event, selector, handler));
        var failed := UnlistenElement(items[i], event, selector, handler, host);
        if failed {
          RunStops(w0, items, i + 1, UnlistenStep(event, selector, handler));
          return true;
        }
        i := i + 1;
      }
      assert items[..n] == items;
      return false;
    }

    /** One iteration of `unlisten`'s outer loop, for the element `el`. */
    method UnlistenElement(el: Value, event: Value, selector: Value, handler: Value, host: Host) returns (thrown: bool)
      modifies this, host
      ensures items == old(items)
      ensures var c := UnlistenItem(old(State(host)), el, event, selector, handler);
        thrown == c.Thrown? && State(host) == c.w
    {
      if !IsObject(el) || el !in registry {
        return false;
      }
      ghost var w0 := State(host);
      UnlistenItemSweeps(w0, el, event, selector, handler);
      var events := registry[el];
      var types: set<string> := if Truthy(event) then (if event.Str? then {event.s} else {}) else events.Keys;
      assert types == Requested(events, event);
      thrown := SweepTypes(el, types, selector, handler, host);
      if !thrown && !el.DomNode? {
        NoMatchSweepsNothing(w0, el, types, selector, handler);
      }
    }

    /** `unlisten`'s loop over the event types `types` of the element `el`. */
    method SweepTypes(el: Value, types: set<string>, selector: Value, handler: Value, host: Host) returns (thrown: bool)
      requires el in registry
      modifies this, host
      ensures items == old(items)
      ensures var w0 := old(State(host));
        && (thrown ==> !el.DomNode? && AnyMatch(w0.registry[el], types, selector, handler) && State(host) == w0)
        && (!thrown ==> State(host) == Sweeping(w0, el, w0.registry[el], types, selector, handler))
        && (!thrown && !el.DomNode? ==> !AnyMatch(w0.registry[el], types, selector, handler))
    {
      ghost var w0 := State(host);
      var events := registry[el];
      var remaining := types;
      assert types - remaining == {};
      NoMatchSweepsNothing(w0, el, {}, selector, handler);
      while remaining != {}
        invariant remaining <= types && items == old(items)
        invariant State(host) == Sweeping(w0, el, events, types - remaining, selector, handler)
        invariant !el.DomNode? ==> !AnyMatch(events, types - remaining, selector, handler)
        decreases remaining
      {
        var evt :| evt in remaining;
        ghost var done := types - remaining;
        var failed := UnlistenType(el, evt, selector, handler, host, w0, events, done);
        if failed {
          AnyMatchGrows(events, done + {evt}, types, selector, handler);
          return true;
        }
        remaining := remaining - {evt};
        assert types - remaining == done + {evt};
      }
      assert types - remaining == types;
      return false;
    }

    /** One iteration of `unlisten`'s loop over event types, for the type `evt` of
        the element `el`: the matching tuples of its Set are detached and then
        deleted from it. `w0` is the state and `events` the element's Map when the
        loop started, `done` the types already visited. */
    method UnlistenType(el: Value, evt: string, selector: Value, handler: Value, host: Host,
                        ghost w0: World, ghost events: Events, ghost done: set<string>)
      returns (thrown: bool)
      requires evt !in done && el in w0.registry && events == w0.registry[el]
      requires State(host) == Sweeping(w0, el, events, done, selector, handler)
      requires !el.DomNode? ==> !AnyMatch(events, done, selector, handler)
      modifies this, host
      ensures items == old(items)
      ensures thrown ==> !el.DomNode? && AnyMatch(events, done + {evt}, selector, handler) && State(host) == w0
      ensures !thrown ==> State(host) == Sweeping(w0, el, events, done + {evt}, selector, handler)
      ensures !thrown && !el.DomNode? ==> !AnyMatch(events, done + {evt}, selector, handler)
    {
      SweepingOneMore(w0, el, events, done, evt, selector, handler);
      AnyMatchOneMore(events, done, evt, selector, handler);
      var current := registry[el];
      if evt !in current {
        return false;
      }
      var handlers := current[evt];
      var toRemove;
      toRemove, thrown := Detach(el, evt, handlers, selector, handler, host);
      if thrown {
        NoMatchSweepsNothing(w0, el, done, selector, handler);
        return true;
      }
      registry := registry[el := current[evt := handlers - toRemove]];
    }

    /** `unlisten`'s loop over one Set of tuples: every matching tuple has its native
        listener removed and is collected for deletion. On an element that is not a
        node the first match throws, before anything changes. */
    method Detach(el: Value, evt: string, handlers: set<Entry>, selector: Value, handler: Value, host: Host)
      returns (toRemove: set<Entry>, thrown: bool)
      modifies host
      ensures host.nextCallback == old(host.nextCallback)
      ensures thrown ==> !el.DomNode? && Matching(handlers, selector, handler) != {} && host.listeners == old(host.listeners)
      ensures !thrown ==> toRemove == Matching(handlers, selector, handler)
      ensures !thrown && el.DomNode? ==> host.listeners == old(host.listeners) - Unhooked(toRemove, el.node, evt)
      ensures !thrown && !el.DomNode? ==> toRemove == {} && host.listeners == old(host.listeners)
    {
      var rest := handlers;
      toRemove := {};
      while rest != {}
        invariant rest <= handlers
        invariant toRemove == Matching(handlers - rest, selector, handler)
        invariant host.nextCallback == old(host.nextCallback)
        invariant el.DomNode? ==> host.listeners == old(host.listeners) - Unhooked(toRemove, el.node, evt)
        invariant !el.DomNode? ==> toRemove == {} && host.listeners == old(host.listeners)
        decreases rest
      {
        var entry :| entry in rest;
        MatchingOneMore(handlers, rest, entry, selector, handler);
        if el.DomNode? {
          UnhookedOneMore(toRemove, entry, el.node, evt);
        }
        if Matches(entry, selector, handler) {
          var failed := host.RemoveEventListener(el, evt, entry.callback);
          if failed {
            assert entry in Matching(handlers, selector, handler);
            return {}, true;
          }
          toRemove := toRemove + {entry};
        }
        rest := rest - {entry};
      }
      assert handlers - rest == handlers;
      return toRemove, false;
    }

    /** The registry side of `remove()`; `thrown` reports the TypeError that
        `el.parentNode` raises on a null or undefined item. */
    method Remove(host: Host) returns (thrown: bool)
      modifies this, host
      ensures var c := EventRegistry.Remove(old(State(host)), old(items));
        && thrown == c.Thrown? && State(host) == c.w
        && items == if c.Normal? && old(items) != [] then old(items) + [Array([])] else old(items)
    {
      if |items| == 0 {
        return false;
      }
      thrown := Unlisten(Undefined, Undefined, Undefined, host);
      if thrown {
        return true;
      }
      ghost var w1 := State(host);
      var i, n := 0, |items|;
      while i < n
        invariant 0 <= i <= n == |items| && items == old(items)
        invariant Run(w1, items[..i], DetachItem) == Normal(State(host))
      {
        var el := items[i];
        RunExtend(w1, items, i, DetachItem);
        if el == Null || el == Undefined {
          RunStops(w1, items, i + 1, DetachItem);
          return true;
        }
        registry := registry - {el};
        i := i + 1;
      }
      assert items[..n] == items;
      items := items + [Array([])];
      return false;
    }
  }
}
