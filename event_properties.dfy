/** Properties of the event registry model: what `listen`, `unlisten` and
    `remove` do to a handle's registry and to the host's native listeners. */
module EventProperties {
  import opened JsValues
  import opened EventRegistry

  // ---------------------------------------------------------------- folds

  /** Once an item throws, the rest of the handle is not visited. */
  lemma {:induction false} RunStops(w: World, items: seq<Value>, i: nat, step: (World, Value) -> Completion)
    requires i <= |items|
    requires Run(w, items[..i], step).Thrown?
    ensures Run(w, items, step) == Run(w, items[..i], step)
    decreases |items|
  {
    if i < |items| {
      var n := |items| - 1;
      assert items[..n][..i] == items[..i];
      RunStops(w, items[..n], i, step);
    } else {
      assert items[..i] == items;
    }
  }

  /** Running over one more item runs `step` on it, unless an earlier item threw. */
  lemma RunExtend(w: World, items: seq<Value>, i: nat, step: (World, Value) -> Completion)
    requires i < |items|
    ensures Run(w, items[..i + 1], step) ==
      match Run(w, items[..i], step)
      case Normal(p) => step(p, items[i])
      case Thrown(p) => Thrown(p)
  {
    assert items[..i + 1][..i] == items[..i];
  }

  // ---------------------------------------------------------------- listen

  /** One `listen` iteration on a node keeps the invariant and adds exactly one
      native listener, a fresh one. */
  lemma ListenItemState(w: World, item: Value, event: string, sel: Option<string>, h: Value)
    requires Consistent(w) && item.DomNode?
    ensures var c := ListenItem(w, item, event, sel, h);
      var l := Listener(item.node, event, Callback(w.next, sel, h));
      && c.Normal? && Consistent(c.w) && c.w.next == w.next + 1
      && c.w.natives == w.natives + {l} && l !in w.natives
  {
    var c := ListenItem(w, item, event, sel, h);
    var added := Entry(h, sel, Callback(w.next, sel, h));
    forall v, k, e | v in c.w.registry && k in c.w.registry[v] && e in c.w.registry[v][k]
      ensures && e.callback.id < c.w.next
              && e.callback.handler == e.handler
              && e.callback.selector == e.selector
              && (v.DomNode? ==> Listener(v.node, k, e.callback) in c.w.natives)
    {
      if e != added || v != item || k != event {
        assert e in EntriesOf(w.registry, v, k);
      }
    }
  }

  /** One `listen` iteration on a node adds one tuple under the event type and
      changes no other tuple set. */
  lemma ListenItemEntries(w: World, item: Value, event: string, sel: Option<string>, h: Value)
    requires item.DomNode?
    ensures var c := ListenItem(w, item, event, sel, h);
      && c.Normal?
      && EntriesOf(c.w.registry, item, event) == EntriesOf(w.registry, item, event) + {Entry(h, sel, Callback(w.next, sel, h))}
      && (forall v, k | v != item || k != event :: EntriesOf(c.w.registry, v, k) == EntriesOf(w.registry, v, k))
  {
  }

  /** Every recorded tuple's closure identity is below `next`: the part of the
      invariant that makes each new closure fresh. */
  ghost predicate IdsBelow(w: World)
  {
    forall v, k, e | e in EntriesOf(w.registry, v, k) :: e.callback.id < w.next
  }

  lemma ConsistentIdsBelow(w: World)
    requires Consistent(w)
    ensures IdsBelow(w)
  {
  }

  /** The tuple one `listen` iteration adds is a new one. */
  lemma ListenItemFresh(w: World, item: Value, event: string, sel: Option<string>, h: Value)
    requires IdsBelow(w)
    ensures Entry(h, sel, Callback(w.next, sel, h)) !in EntriesOf(w.registry, item, event)
  {
  }

  /** One `listen` iteration on a node keeps identities below `next`. */
  lemma ListenItemIds(w: World, item: Value, event: string, sel: Option<string>, h: Value)
    requires IdsBelow(w) && item.DomNode?
    ensures IdsBelow(ListenItem(w, item, event, sel, h).w)
  {
    ListenItemEntries(w, item, event, sel, h);
    var c := ListenItem(w, item, event, sel, h).w;
    forall v, k, e | e in EntriesOf(c.registry, v, k) ensures e.callback.id < c.next {
      if v != item || k != event {
        assert e in EntriesOf(w.registry, v, k);
      }
    }
  }

  /** One `listen` iteration on a node gives it a registry entry with the event
      type as a key, and drops no key. */
  lemma ListenItemKeys(w: World, item: Value, event: string, sel: Option<string>, h: Value)
    requires item.DomNode?
    ensures var c := ListenItem(w, item, event, sel, h);
      && c.Normal?
      && c.w.registry.Keys == w.registry.Keys + {item}
      && event in c.w.registry[item]
      && (forall v | v in w.registry :: w.registry[v].Keys <= c.w.registry[v].Keys)
  {
  }

  /** `listen` on a handle of nodes completes, keeps the invariant, and makes
      exactly one new native listener per element of the handle: no registration
      is skipped because an equal one exists. */
  lemma ListenNodesState(w: World, items: seq<Value>, event: string, sel: Option<string>, h: Value)
    requires Consistent(w)
    requires forall i :: 0 <= i < |items| ==> items[i].DomNode?
    ensures var c := Run(w, items, ListenStep(event, sel, h));
      && c.Normal? && Consistent(c.w) && c.w.next == w.next + |items|
      && w.natives <= c.w.natives && |c.w.natives| == |w.natives| + |items|
  {
    ListenRunConsistent(w, items, event, sel, h);
    ListenNodesSize(w, items, event, sel, h);
  }

  /** Every native listener's closure identity is below `next`: the part of the
      invariant that makes each new native listener a new one. */
  ghost predicate NativesBelow(w: World)
  {
    forall l | l in w.natives :: l.callback.id < w.next
  }

  lemma {:induction false} ListenNodesSize(w: World, items: seq<Value>, event: string, sel: Option<string>, h: Value)
    requires NativesBelow(w)
    requires forall i :: 0 <= i < |items| ==> items[i].DomNode?
    ensures var c := Run(w, items, ListenStep(event, sel, h));
      && c.Normal? && NativesBelow(c.w) && c.w.next == w.next + |items|
      && w.natives <= c.w.natives && |c.w.natives| == |w.natives| + |items|
    decreases |items|
  {
    if items != [] {
      var n := |items| - 1;
      ListenNodesSize(w, items[..n], event, sel, h);
      var p := Run(w, items[..n], ListenStep(event, sel, h)).w;
      ListenItemSize(p, items[n], event, sel, h);
      assert Run(w, items, ListenStep(event, sel, h)) == ListenItem(p, items[n], event, sel, h);
    }
  }

  /** One `listen` iteration on a node adds one native listener, a new one. */
  lemma ListenItemSize(w: World, item: Value, event: string, sel: Option<string>, h: Value)
    requires NativesBelow(w) && item.DomNode?
    ensures var c := ListenItem(w, item, event, sel, h);
      && c.Normal? && NativesBelow(c.w) && c.w.next == w.next + 1
      && w.natives <= c.w.natives && |c.w.natives| == |w.natives| + 1
  {
    var l := Listener(item.node, event, Callback(w.next, sel, h));
    assert l !in w.natives;
  }

  /** The native listeners `listen` registers on the nodes of `items`, the i-th
      with the closure made i-th, counting from identity `next`. */
  function Registered(items: seq<Value>, event: string, sel: Option<string>, h: Value, next: nat): set<Listener>
    decreases |items|
  {
    if items == [] then {}
    else
      var n := |items| - 1;
      Registered(items[..n], event, sel, h, next)
        + if items[n].DomNode? then {Listener(items[n].node, event, Callback(next + n, sel, h))} else {}
  }

  /** A listener is among those registered exactly when it is the one of some node
      of `items`, on that node, for the event, with that node's closure. */
  lemma {:induction false} RegisteredMembers(items: seq<Value>, event: string, sel: Option<string>, h: Value, next: nat, l: Listener)
    ensures l in Registered(items, event, sel, h, next) <==>
      exists i :: 0 <= i < |items| && items[i].DomNode? && l == Listener(items[i].node, event, Callback(next + i, sel, h))
    decreases |items|
  {
    if items != [] {
      var n := |items| - 1;
      RegisteredMembers(items[..n], event, sel, h, next, l);
      if exists i :: 0 <= i < |items| && items[i].DomNode? && l == Listener(items[i].node, event, Callback(next + i, sel, h)) {
        var i :| 0 <= i < |items| && items[i].DomNode? && l == Listener(items[i].node, event, Callback(next + i, sel, h));
        if i < n {
          assert items[..n][i] == items[i];
        }
      }
      if l in Registered(items[..n], event, sel, h, next) {
        var i :| 0 <= i < n && items[..n][i].DomNode? && l == Listener(items[..n][i].node, event, Callback(next + i, sel, h));
        assert items[i] == items[..n][i];
      }
    }
  }

  /** `listen` on a handle of nodes registers, for the i-th element, one native
      listener on that node for the event, with the i-th new closure. */
  lemma {:induction false} ListenNodesNatives(w: World, items: seq<Value>, event: string, sel: Option<string>, h: Value)
    requires forall i :: 0 <= i < |items| ==> items[i].DomNode?
    ensures var c := Run(w, items, ListenStep(event, sel, h));
      && c.Normal? && c.w.next == w.next + |items|
      && c.w.natives == w.natives + Registered(items, event, sel, h, w.next)
    decreases |items|
  {
    if items != [] {
      var n := |items| - 1;
      ListenNodesNatives(w, items[..n], event, sel, h);
      RunExtend(w, items, n, ListenStep(event, sel, h));
      assert items[..n + 1] == items;
    }
  }

  /** `listen` on a handle of nodes adds, for each element, exactly one new tuple per
      occurrence of it in the handle; earlier tuples stay. */
  lemma ListenNodesCounts(w: World, items: seq<Value>, event: string, sel: Option<string>, h: Value)
    requires Consistent(w)
    requires forall i :: 0 <= i < |items| ==> items[i].DomNode?
    ensures var c := Run(w, items, ListenStep(event, sel, h));
      && c.Normal?
      && (forall v :: EntriesOf(w.registry, v, event) <= EntriesOf(c.w.registry, v, event))
      && (forall v :: |EntriesOf(c.w.registry, v, event)| == |EntriesOf(w.registry, v, event)| + multiset(items)[v])
  {
    ConsistentIdsBelow(w);
    ListenNodesCountsFrom(w, items, event, sel, h);
  }

  lemma {:induction false} ListenNodesCountsFrom(w: World, items: seq<Value>, event: string, sel: Option<string>, h: Value)
    requires IdsBelow(w)
    requires forall i :: 0 <= i < |items| ==> items[i].DomNode?
    ensures var c := Run(w, items, ListenStep(event, sel, h));
      && c.Normal? && IdsBelow(c.w)
      && (forall v :: EntriesOf(w.registry, v, event) <= EntriesOf(c.w.registry, v, event))
      && (forall v :: |EntriesOf(c.w.registry, v, event)| == |EntriesOf(w.registry, v, event)| + multiset(items)[v])
    decreases |items|
  {
    if items != [] {
      var n := |items| - 1;
      var prefix := items[..n];
      ListenNodesCountsFrom(w, prefix, event, sel, h);
      var p := Run(w, prefix, ListenStep(event, sel, h)).w;
      ListenItemCount(p, items[n], event, sel, h);
      ListenItemIds(p, items[n], event, sel, h);
      var c := ListenItem(p, items[n], event, sel, h).w;
      assert items == prefix + [items[n]];
      CountsAddUp(w.registry, p.registry, c.registry, event, prefix, items[n]);
      assert Run(w, items, ListenStep(event, sel, h)) == ListenItem(p, items[n], event, sel, h);
    }
  }

  /** The per-element counts of two consecutive stretches of `listen` add up. */
  lemma CountsAddUp(r0: Registry, r1: Registry, r2: Registry, event: string, prefix: seq<Value>, x: Value)
    requires forall v :: EntriesOf(r0, v, event) <= EntriesOf(r1, v, event)
    requires forall v :: |EntriesOf(r1, v, event)| == |EntriesOf(r0, v, event)| + multiset(prefix)[v]
    requires forall v ::
      && EntriesOf(r1, v, event) <= EntriesOf(r2, v, event)
      && |EntriesOf(r2, v, event)| == |EntriesOf(r1, v, event)| + (if v == x then 1 else 0)
    ensures forall v :: EntriesOf(r0, v, event) <= EntriesOf(r2, v, event)
    ensures forall v :: |EntriesOf(r2, v, event)| == |EntriesOf(r0, v, event)| + multiset(prefix + [x])[v]
  {
    assert multiset(prefix + [x]) == multiset(prefix) + multiset{x};
  }

  /** One `listen` iteration on a node grows that node's tuple set for the event
      type by exactly one and leaves the others as they were. */
  lemma ListenItemCount(w: World, item: Value, event: string, sel: Option<string>, h: Value)
    requires IdsBelow(w) && item.DomNode?
    ensures var c := ListenItem(w, item, event, sel, h);
      forall v ::
        && EntriesOf(w.registry, v, event) <= EntriesOf(c.w.registry, v, event)
        && |EntriesOf(c.w.registry, v, event)| == |EntriesOf(w.registry, v, event)| + (if v == item then 1 else 0)
  {
    ListenItemEntries(w, item, event, sel, h);
    ListenItemFresh(w, item, event, sel, h);
  }

  /** The tuples `listen` adds carry the handler and selector as read from its
      arguments. */
  lemma {:induction false} ListenNodesTuples(w: World, items: seq<Value>, event: string, sel: Option<string>, h: Value)
    requires forall i :: 0 <= i < |items| ==> items[i].DomNode?
    ensures var c := Run(w, items, ListenStep(event, sel, h));
      && c.Normal?
      && (forall v, e | e in EntriesOf(c.w.registry, v, event) && e !in EntriesOf(w.registry, v, event) ::
            e.handler == h && e.selector == sel)
    decreases |items|
  {
    if items != [] {
      var n := |items| - 1;
      var prefix := items[..n];
      ListenNodesTuples(w, prefix, event, sel, h);
      var p := Run(w, prefix, ListenStep(event, sel, h)).w;
      ListenItemTuples(p, items[n], event, sel, h);
      var c := ListenItem(p, items[n], event, sel, h);
      assert Run(w, items, ListenStep(event, sel, h)) == c;
      forall v, e | e in EntriesOf(c.w.registry, v, event) && e !in EntriesOf(w.registry, v, event)
        ensures e.handler == h && e.selector == sel
      {
        if e !in EntriesOf(p.registry, v, event) {
          assert e == Entry(h, sel, Callback(p.next, sel, h));
        }
      }
    }
  }

  /** The only tuple one `listen` iteration adds is its own. */
  lemma ListenItemTuples(w: World, item: Value, event: string, sel: Option<string>, h: Value)
    requires item.DomNode?
    ensures var c := ListenItem(w, item, event, sel, h);
      forall v, e | e in EntriesOf(c.w.registry, v, event) && e !in EntriesOf(w.registry, v, event) ::
        e == Entry(h, sel, Callback(w.next, sel, h))
  {
    ListenItemEntries(w, item, event, sel, h);
  }

  /** The tuples `listen(event, selector, handler)` adds on a handle of nodes: a
      string second argument is their selector and the third their handler;
      any other second argument is their handler, with a null selector. */
  lemma ListenTuples(w: World, items: seq<Value>, event: string, selector: Value, handler: Value)
    requires forall i :: 0 <= i < |items| ==> items[i].DomNode?
    ensures var c := Listen(w, items, event, selector, handler);
      && c.Normal?
      && (forall v, e | e in EntriesOf(c.w.registry, v, event) && e !in EntriesOf(w.registry, v, event) ::
            && e.handler == (if selector.Str? then handler else selector)
            && e.selector == (if selector.Str? then Some(selector.s) else None))
  {
    var (sel, h) := ListenArgs(selector, handler);
    ListenNodesTuples(w, items, event, sel, h);
  }

  /** `listen` leaves the tuples of every other event type as they were. */
  lemma {:induction false} ListenNodesOtherEvents(w: World, items: seq<Value>, event: string, sel: Option<string>, h: Value)
    requires forall i :: 0 <= i < |items| ==> items[i].DomNode?
    ensures var c := Run(w, items, ListenStep(event, sel, h));
      && c.Normal?
      && (forall v, k | k != event :: EntriesOf(c.w.registry, v, k) == EntriesOf(w.registry, v, k))
    decreases |items|
  {
    if items != [] {
      var n := |items| - 1;
      var prefix := items[..n];
      ListenNodesOtherEvents(w, prefix, event, sel, h);
      var p := Run(w, prefix, ListenStep(event, sel, h)).w;
      ListenItemEntries(p, items[n], event, sel, h);
    }
  }

  /** `listen` on a handle of nodes leaves every element with a registry entry that
      holds a Set for the event type, and drops no key it found. */
  lemma {:induction false} ListenNodesKeys(w: World, items: seq<Value>, event: string, sel: Option<string>, h: Value)
    requires forall i :: 0 <= i < |items| ==> items[i].DomNode?
    ensures var c := Run(w, items, ListenStep(event, sel, h));
      && c.Normal?
      && (forall i | 0 <= i < |items| :: items[i] in c.w.registry && event in c.w.registry[items[i]])
      && (forall v | v in w.registry :: v in c.w.registry && w.registry[v].Keys <= c.w.registry[v].Keys)
    decreases |items|
  {
    if items != [] {
      var n := |items| - 1;
      var prefix := items[..n];
      ListenNodesKeys(w, prefix, event, sel, h);
      var p := Run(w, prefix, ListenStep(event, sel, h)).w;
      ListenItemKeys(p, items[n], event, sel, h);
      var c := ListenItem(p, items[n], event, sel, h);
      assert Run(w, items, ListenStep(event, sel, h)) == c;
      forall i | 0 <= i < |items|
        ensures items[i] in c.w.registry && event in c.w.registry[items[i]]
      {
        if i < n {
          assert prefix[i] == items[i];
          assert event in p.registry[items[i]];
        }
      }
    }
  }

  /** Registrations are not collapsed: the same `listen` call made twice records
      two tuples per occurrence of an element, and two native listeners, one
      with a closure of each call. */
  lemma ListenTwiceRegistersTwice(w: World, items: seq<Value>, event: string, selector: Value, h: Value)
    requires Consistent(w)
    requires forall i :: 0 <= i < |items| ==> items[i].DomNode?
    ensures var c1 := Listen(w, items, event, selector, h);
      c1.Normal? &&
      var c2 := Listen(c1.w, items, event, selector, h);
      && c2.Normal?
      && |c2.w.natives| == |w.natives| + 2 * |items|
      && c1.w.next == w.next + |items|
      && (var sel := ListenArgs(selector, h).0; var hd := ListenArgs(selector, h).1;
          && c1.w.natives == w.natives + Registered(items, event, sel, hd, w.next)
          && c2.w.natives == c1.w.natives + Registered(items, event, sel, hd, c1.w.next))
      && forall v :: |EntriesOf(c2.w.registry, v, event)| == |EntriesOf(w.registry, v, event)| + 2 * multiset(items)[v]
  {
    var sel := ListenArgs(selector, h).0;
    var hd := ListenArgs(selector, h).1;
    assert Listen(w, items, event, selector, h) == Run(w, items, ListenStep(event, sel, hd));
    var c1 := Run(w, items, ListenStep(event, sel, hd)).w;
    assert Listen(c1, items, event, selector, h) == Run(c1, items, ListenStep(event, sel, hd));
    ListenTwiceOn(w, items, event, sel, hd);
  }

  lemma ListenTwiceOn(w: World, items: seq<Value>, event: string, sel: Option<string>, h: Value)
    requires Consistent(w)
    requires forall i :: 0 <= i < |items| ==> items[i].DomNode?
    ensures var c1 := Run(w, items, ListenStep(event, sel, h));
      c1.Normal? &&
      var c2 := Run(c1.w, items, ListenStep(event, sel, h));
      && c2.Normal?
      && |c2.w.natives| == |w.natives| + 2 * |items|
      && c1.w.next == w.next + |items|
      && c1.w.natives == w.natives + Registered(items, event, sel, h, w.next)
      && c2.w.natives == c1.w.natives + Registered(items, event, sel, h, c1.w.next)
      && forall v :: |EntriesOf(c2.w.registry, v, event)| == |EntriesOf(w.registry, v, event)| + 2 * multiset(items)[v]
  {
    var c1 := Run(w, items, ListenStep(event, sel, h)).w;
    ListenTwiceNatives(w, items, event, sel, h);
    ListenTwiceSize(w, items, event, sel, h);
    ListenNodesState(w, items, event, sel, h);
    ListenTwiceCounts(w, c1, items, event, sel, h);
  }

  lemma ListenTwiceNatives(w: World, items: seq<Value>, event: string, sel: Option<string>, h: Value)
    requires forall i :: 0 <= i < |items| ==> items[i].DomNode?
    ensures var c1 := Run(w, items, ListenStep(event, sel, h));
      c1.Normal? &&
      var c2 := Run(c1.w, items, ListenStep(event, sel, h));
      && c2.Normal? && c1.w.next == w.next + |items|
      && c1.w.natives == w.natives + Registered(items, event, sel, h, w.next)
      && c2.w.natives == c1.w.natives + Registered(items, event, sel, h, c1.w.next)
  {
    ListenNodesNatives(w, items, event, sel, h);
    ListenNodesNatives(Run(w, items, ListenStep(event, sel, h)).w, items, event, sel, h);
  }

  lemma ListenTwiceSize(w: World, items: seq<Value>, event: string, sel: Option<string>, h: Value)
    requires Consistent(w)
    requires forall i :: 0 <= i < |items| ==> items[i].DomNode?
    ensures var c1 := Run(w, items, ListenStep(event, sel, h));
      c1.Normal? &&
      var c2 := Run(c1.w, items, ListenStep(event, sel, h));
      c2.Normal? && |c2.w.natives| == |w.natives| + 2 * |items|
  {
    ListenNodesState(w, items, event, sel, h);
    ListenNodesState(Run(w, items, ListenStep(event, sel, h)).w, items, event, sel, h);
  }

  lemma ListenTwiceCounts(w: World, c1: World, items: seq<Value>, event: string, sel: Option<string>, h: Value)
    requires Consistent(w) && Consistent(c1)
    requires forall i :: 0 <= i < |items| ==> items[i].DomNode?
    requires Run(w, items, ListenStep(event, sel, h)) == Normal(c1)
    ensures var c2 := Run(c1, items, ListenStep(event, sel, h)).w;
      forall v :: |EntriesOf(c2.registry, v, event)| == |EntriesOf(w.registry, v, event)| + 2 * multiset(items)[v]
  {
    ListenNodesCounts(w, items, event, sel, h);
    ListenNodesCounts(c1, items, event, sel, h);
  }

  /** One `listen` iteration on any item keeps the invariant, whether it completes
      or throws: a tuple recorded for an object that is not a node needs no
      native listener. */
  lemma ListenItemKeepsConsistent(w: World, item: Value, event: string, sel: Option<string>, h: Value)
    requires Consistent(w)
    ensures Consistent(ListenItem(w, item, event, sel, h).w)
  {
    if item.DomNode? {
      ListenItemState(w, item, event, sel, h);
    } else if IsObject(item) {
      var c := ListenItem(w, item, event, sel, h).w;
      forall v, k, e | v in c.registry && k in c.registry[v] && e in c.registry[v][k]
        ensures && e.callback.id < c.next
                && e.callback.handler == e.handler
                && e.callback.selector == e.selector
                && (v.DomNode? ==> Listener(v.node, k, e.callback) in c.natives)
      {
        if v != item {
          assert e in EntriesOf(w.registry, v, k);
        }
      }
    }
  }

  /** Any `listen`, over any items, keeps the invariant. */
  lemma {:induction false} ListenPreservesConsistent(w: World, items: seq<Value>, event: string, selector: Value, handler: Value)
    requires Consistent(w)
    ensures Consistent(Listen(w, items, event, selector, handler).w)
  {
    var (sel, h) := ListenArgs(selector, handler);
    ListenRunConsistent(w, items, event, sel, h);
  }

  lemma {:induction false} ListenRunConsistent(w: World, items: seq<Value>, event: string, sel: Option<string>, h: Value)
    requires Consistent(w)
    ensures Consistent(Run(w, items, ListenStep(event, sel, h)).w)
    decreases |items|
  {
    if items != [] {
      var n := |items| - 1;
      ListenRunConsistent(w, items[..n], event, sel, h);
      var p := Run(w, items[..n], ListenStep(event, sel, h));
      if p.Normal? {
        ListenItemKeepsConsistent(p.w, items[n], event, sel, h);
      }
    }
  }

  // ---------------------------------------------------------------- unlisten

  /** No tuple that `unlisten` would visit for `item` passes its filter. */
  ghost predicate NothingMatches(reg: Registry, item: Value, event: Value, sel: Value, h: Value)
  {
    item in reg ==>
      forall k, e | k in Requested(reg[item], event) && k in reg[item] && e in reg[item][k] :: !Matches(e, sel, h)
  }

  lemma KeptNoMatch(entries: set<Entry>, sel: Value, h: Value)
    requires forall e | e in entries :: !Matches(e, sel, h)
    ensures Kept(entries, sel, h) == entries
  {
  }

  lemma SweptNoMatch(events: Events, types: set<string>, sel: Value, h: Value)
    requires forall k, e | k in types && k in events && e in events[k] :: !Matches(e, sel, h)
    ensures Swept(events, types, sel, h) == events
  {
    var swept := Swept(events, types, sel, h);
    forall k | k in events ensures swept[k] == events[k] {
      if k in types {
        KeptNoMatch(events[k], sel, h);
      }
    }
    assert swept.Keys == events.Keys;
  }

  lemma UnlistenItemNoMatch(w: World, item: Value, event: Value, sel: Value, h: Value)
    requires NothingMatches(w.registry, item, event, sel, h)
    ensures UnlistenItem(w, item, event, sel, h) == Normal(w)
  {
    if IsObject(item) && item in w.registry {
      var events := w.registry[item];
      var types := Requested(events, event);
      if item.DomNode? {
        SweptNoMatch(events, types, sel, h);
        DroppedNone(events, types, item.node, sel, h);
        assert w.registry[item := events] == w.registry;
        assert w.natives - {} == w.natives;
      } else {
        assert !AnyMatch(events, types, sel, h);
      }
    }
  }

  /** `unlisten` changes nothing, and throws nothing, when no tuple it visits
      passes its filter. */
  lemma {:induction false} UnlistenWithoutMatchIsNoop(w: World, items: seq<Value>, event: Value, sel: Value, h: Value)
    requires forall i | 0 <= i < |items| :: NothingMatches(w.registry, items[i], event, sel, h)
    ensures Run(w, items, UnlistenStep(event, sel, h)) == Normal(w)
    decreases |items|
  {
    if items != [] {
      var n := |items| - 1;
      UnlistenWithoutMatchIsNoop(w, items[..n], event, sel, h);
      UnlistenItemNoMatch(w, items[n], event, sel, h);
    }
  }

  /** Only a literal `null` selector is a wildcard: with `undefined` (as in
      `unlisten()`, which `remove()` calls) or a function in the selector position
      (as in `unlisten('click', handler)`), `unlisten` removes nothing at all. */
  lemma UnlistenNonSelectorRemovesNothing(w: World, items: seq<Value>, event: Value, sel: Value, h: Value)
    requires !sel.Null? && !sel.Str?
    ensures Unlisten(w, items, event, sel, h) == Normal(w)
  {
    UnlistenWithoutMatchIsNoop(w, items, event, sel, h);
  }

  /** Registries are per handle: a handle built afresh (as `first()` and `last()`
      build one) cannot remove what another handle registered. */
  lemma FreshHandleUnlistenIsNoop(natives: set<Listener>, next: nat, items: seq<Value>, event: Value, sel: Value, h: Value)
    ensures Unlisten(World(map[], natives, next), items, event, sel, h) == Normal(World(map[], natives, next))
  {
    UnlistenWithoutMatchIsNoop(World(map[], natives, next), items, event, sel, h);
  }

  /** `unlisten` never deletes a registry entry or an event-type key (its cleanup
      tests `.length` on a Map and deletes an object property), and throws or not,
      it leaves the closure counter alone. */
  lemma {:induction false} UnlistenKeepsKeys(w: World, items: seq<Value>, event: Value, sel: Value, h: Value)
    ensures var c := Run(w, items, UnlistenStep(event, sel, h));
      && c.w.registry.Keys == w.registry.Keys
      && (forall v | v in w.registry :: c.w.registry[v].Keys == w.registry[v].Keys)
      && c.w.next == w.next
    decreases |items|
  {
    if items != [] {
      var n := |items| - 1;
      UnlistenKeepsKeys(w, items[..n], event, sel, h);
      var p := Run(w, items[..n], UnlistenStep(event, sel, h));
      if p.Normal? {
        var c := UnlistenItem(p.w, items[n], event, sel, h);
        assert Run(w, items, UnlistenStep(event, sel, h)) == c;
        UnlistenItemKeepsKeys(p.w, items[n], event, sel, h);
        forall v | v in w.registry ensures c.w.registry[v].Keys == w.registry[v].Keys {
          assert c.w.registry[v].Keys == p.w.registry[v].Keys;
        }
      }
    }
  }

  lemma UnlistenItemKeepsKeys(w: World, item: Value, event: Value, sel: Value, h: Value)
    ensures var c := UnlistenItem(w, item, event, sel, h);
      && c.w.registry.Keys == w.registry.Keys
      && (forall v | v in w.registry :: c.w.registry[v].Keys == w.registry[v].Keys)
      && c.w.next == w.next
  {
  }

  lemma UnlistenItemKeepsConsistent(w: World, item: Value, event: Value, sel: Value, h: Value)
    requires Consistent(w)
    ensures Consistent(UnlistenItem(w, item, event, sel, h).w)
  {
    if IsObject(item) && item in w.registry && item.DomNode? {
      var c := UnlistenItem(w, item, event, sel, h).w;
      UnlistenItemOnNode(w, item, event, sel, h);
      assert forall l | l in c.natives :: l in w.natives;
      forall v, k, e | v in c.registry && k in c.registry[v] && e in c.registry[v][k]
        ensures && e.callback.id < c.next
                && e.callback.handler == e.handler
                && e.callback.selector == e.selector
                && (v.DomNode? ==> Listener(v.node, k, e.callback) in c.natives)
      {
        assert e in EntriesOf(c.registry, v, k);
        UnlistenItemLeftListener(w, item, event, sel, h, v, k, e);
      }
    }
  }

  /** A tuple one `unlisten` iteration on a node leaves was there before and does
      not pass the filter when its type was visited, ... */
  lemma UnlistenItemLeftEntry(w: World, item: Value, event: Value, sel: Value, h: Value, v: Value, k: string, e: Entry)
    requires item.DomNode? && item in w.registry
    requires e in EntriesOf(UnlistenItem(w, item, event, sel, h).w.registry, v, k)
    ensures e in EntriesOf(w.registry, v, k)
    ensures v == item && k in Requested(w.registry[item], event) ==> !Matches(e, sel, h)
  {
    UnlistenItemOnNodeEntries(w, item, event, sel, h);
    var reg := UnlistenItem(w, item, event, sel, h).w.registry;
    assert EntriesOf(reg, v, k) ==
      if v == item && k in Requested(w.registry[item], event)
      then Kept(EntriesOf(w.registry, v, k), sel, h) else EntriesOf(w.registry, v, k);
  }

  /** ... and, under the invariant, its native listener stays registered. */
  lemma UnlistenItemLeftListener(w: World, item: Value, event: Value, sel: Value, h: Value, v: Value, k: string, e: Entry)
    requires Consistent(w) && item.DomNode? && item in w.registry
    requires e in EntriesOf(UnlistenItem(w, item, event, sel, h).w.registry, v, k)
    ensures e.callback.id < w.next && e.callback.handler == e.handler && e.callback.selector == e.selector
    ensures v.DomNode? ==> Listener(v.node, k, e.callback) in UnlistenItem(w, item, event, sel, h).w.natives
  {
    UnlistenItemLeftEntry(w, item, event, sel, h, v, k, e);
    UnlistenItemOnNode(w, item, event, sel, h);
    if v == item {
      DroppedOnlyMatching(w, item, Requested(w.registry[item], event), sel, h, k, e);
    }
  }

  /** Under the invariant, a tuple's native listener is among those `unlisten`
      drops exactly when the tuple itself passes the filter. */
  lemma DroppedOnlyMatching(w: World, item: Value, types: set<string>, sel: Value, h: Value, k: string, e: Entry)
    requires Consistent(w) && item.DomNode? && item in w.registry
    requires e in EntriesOf(w.registry, item, k)
    ensures var events := w.registry[item];
      Listener(item.node, k, e.callback) in Dropped(events, types, item.node, sel, h) <==> k in types && Matches(e, sel, h)
  {
    var events := w.registry[item];
    var node := item.node;
    if Listener(node, k, e.callback) in Dropped(events, types, node, sel, h) {
      var k', e' :| k' in types && k' in events && e' in events[k'] && Matches(e', sel, h)
        && Listener(node, k, e.callback) == Listener(node, k', e'.callback);
      assert e' == e;
    }
  }

  /** Every tuple `unlisten` leaves keeps its native listener: the invariant holds
      after any `unlisten`, whether it completes or throws. */
  lemma {:induction false} UnlistenPreservesConsistent(w: World, items: seq<Value>, event: Value, sel: Value, h: Value)
    requires Consistent(w)
    ensures Consistent(Run(w, items, UnlistenStep(event, sel, h)).w)
    decreases |items|
  {
    if items != [] {
      var n := |items| - 1;
      UnlistenPreservesConsistent(w, items[..n], event, sel, h);
      var p := Run(w, items[..n], UnlistenStep(event, sel, h));
      if p.Normal? {
        UnlistenItemKeepsConsistent(p.w, items[n], event, sel, h);
      }
    }
  }

  /** The native listeners `unlisten` removes on a handle of nodes: for each element
      with a registry entry, those of its matching tuples of the visited types. */
  function DroppedAll(reg: Registry, items: seq<Value>, event: Value, sel: Value, h: Value): set<Listener>
    decreases |items|
  {
    if items == [] then {}
    else DroppedAll(reg, items[..|items| - 1], event, sel, h) + DroppedOf(reg, items[|items| - 1], event, sel, h)
  }

  /** The native listeners `unlisten` removes for one item of a handle. */
  function DroppedOf(reg: Registry, v: Value, event: Value, sel: Value, h: Value): set<Listener>
  {
    if v.DomNode? && v in reg then Dropped(reg[v], Requested(reg[v], event), v.node, sel, h) else {}
  }

  /** Filtering twice is filtering once. */
  lemma KeptTwice(entries: set<Entry>, sel: Value, h: Value)
    ensures Kept(Kept(entries, sel, h), sel, h) == Kept(entries, sel, h)
    ensures forall e | e in Kept(entries, sel, h) :: !Matches(e, sel, h)
  {
  }

  lemma DroppedNone(events: Events, types: set<string>, node: Node, sel: Value, h: Value)
    requires forall k, e | k in types && k in events && e in events[k] :: !Matches(e, sel, h)
    ensures Dropped(events, types, node, sel, h) == {}
  {
  }

  /** One `unlisten` iteration on a node completes and removes the native
      listeners of the matching tuples of the visited types. */
  lemma UnlistenItemOnNode(w: World, item: Value, event: Value, sel: Value, h: Value)
    requires item.DomNode?
    ensures var c := UnlistenItem(w, item, event, sel, h);
      && c.Normal? && c.w.next == w.next
      && c.w.natives == w.natives - DroppedOf(w.registry, item, event, sel, h)
  {
  }

  /** ... and deletes exactly those tuples. */
  lemma UnlistenItemOnNodeEntries(w: World, item: Value, event: Value, sel: Value, h: Value)
    requires item.DomNode?
    ensures var c := UnlistenItem(w, item, event, sel, h);
      forall v, k :: EntriesOf(c.w.registry, v, k) ==
        if v == item && item in w.registry && k in Requested(w.registry[item], event)
        then Kept(EntriesOf(w.registry, v, k), sel, h) else EntriesOf(w.registry, v, k)
  {
    if item in w.registry {
      var types := Requested(w.registry[item], event);
      var reg := UnlistenItem(w, item, event, sel, h).w.registry;
      assert reg == w.registry[item := Swept(w.registry[item], types, sel, h)];
      forall v, k ensures EntriesOf(reg, v, k) ==
        if v == item && k in types then Kept(EntriesOf(w.registry, v, k), sel, h) else EntriesOf(w.registry, v, k)
      {
        if v == item {
          SweptEntries(w.registry, item, types, sel, h, k);
        }
      }
    }
  }

  /** The tuples of one key after sweeping one element's entry. */
  lemma SweptEntries(reg: Registry, item: Value, types: set<string>, sel: Value, h: Value, k: string)
    requires item in reg
    ensures EntriesOf(reg[item := Swept(reg[item], types, sel, h)], item, k) ==
      if k in types then Kept(EntriesOf(reg, item, k), sel, h) else EntriesOf(reg, item, k)
  {
    var events := reg[item];
    var swept := Swept(events, types, sel, h);
    assert k in swept <==> k in events;
    if k in events {
      assert swept[k] == if k in types then Kept(events[k], sel, h) else events[k];
    } else if k in types {
      assert Kept({}, sel, h) == {};
    }
  }

  /** Run item by item, `unlisten` on a handle of nodes completes and deletes
      exactly the matching tuples of the visited event types of the handle's
      elements, leaving every other tuple in place. */
  lemma {:induction false} UnlistenNodesEntries(w: World, items: seq<Value>, event: Value, sel: Value, h: Value)
    requires forall i :: 0 <= i < |items| ==> items[i].DomNode?
    ensures var c := Run(w, items, UnlistenStep(event, sel, h));
      && c.Normal?
      && (forall v, k :: EntriesOf(c.w.registry, v, k) ==
            if v in items && v in w.registry && k in Requested(w.registry[v], event)
            then Kept(EntriesOf(w.registry, v, k), sel, h) else EntriesOf(w.registry, v, k))
    decreases |items|
  {
    if items != [] {
      var n := |items| - 1;
      var prefix := items[..n];
      var x := items[n];
      UnlistenNodesEntries(w, prefix, event, sel, h);
      UnlistenKeepsKeys(w, prefix, event, sel, h);
      var p := Run(w, prefix, UnlistenStep(event, sel, h)).w;
      UnlistenItemOnNode(p, x, event, sel, h);
      UnlistenItemOnNodeEntries(p, x, event, sel, h);
      var c := UnlistenItem(p, x, event, sel, h);
      assert Run(w, items, UnlistenStep(event, sel, h)) == c;
      forall v, k ensures EntriesOf(c.w.registry, v, k) ==
            if v in items && v in w.registry && k in Requested(w.registry[v], event)
            then Kept(EntriesOf(w.registry, v, k), sel, h) else EntriesOf(w.registry, v, k)
      {
        assert v in items <==> v in prefix || v == x;
        if v == x && x in w.registry {
          assert Requested(p.registry[x], event) == Requested(w.registry[x], event);
          KeptTwice(EntriesOf(w.registry, v, k), sel, h);
        }
      }
    }
  }

  /** ... and removes exactly the native listeners of the tuples it deletes. */
  lemma {:induction false} UnlistenNodesNatives(w: World, items: seq<Value>, event: Value, sel: Value, h: Value)
    requires forall i :: 0 <= i < |items| ==> items[i].DomNode?
    ensures var c := Run(w, items, UnlistenStep(event, sel, h));
      && c.Normal?
      && c.w.natives == w.natives - DroppedAll(w.registry, items, event, sel, h)
    decreases |items|
  {
    if items != [] {
      var n := |items| - 1;
      var prefix := items[..n];
      var x := items[n];
      UnlistenNodesNatives(w, prefix, event, sel, h);
      var p := Run(w, prefix, UnlistenStep(event, sel, h)).w;
      UnlistenItemOnNode(p, x, event, sel, h);
      assert Run(w, items, UnlistenStep(event, sel, h)) == UnlistenItem(p, x, event, sel, h);
      if x in prefix {
        DroppedAfterVisit(w, prefix, x, event, sel, h);
        DroppedAllHas(w.registry, prefix, x, event, sel, h);
      } else {
        DroppedBeforeVisit(w, prefix, x, event, sel, h);
      }
    }
  }

  /** Once `unlisten` has visited `x`, nothing is left to drop for it. */
  lemma DroppedAfterVisit(w: World, prefix: seq<Value>, x: Value, event: Value, sel: Value, h: Value)
    requires forall i :: 0 <= i < |prefix| ==> prefix[i].DomNode?
    requires x in prefix
    ensures DroppedOf(Run(w, prefix, UnlistenStep(event, sel, h)).w.registry, x, event, sel, h) == {}
  {
    UnlistenNodesEntries(w, prefix, event, sel, h);
    UnlistenKeepsKeys(w, prefix, event, sel, h);
    var reg := Run(w, prefix, UnlistenStep(event, sel, h)).w.registry;
    if x in reg {
      var types := Requested(reg[x], event);
      assert types == Requested(w.registry[x], event);
      forall k, e | k in types && k in reg[x] && e in reg[x][k]
        ensures !Matches(e, sel, h)
      {
        assert e in EntriesOf(reg, x, k);
        KeptTwice(EntriesOf(w.registry, x, k), sel, h);
      }
      DroppedNone(reg[x], types, x.node, sel, h);
    }
  }

  /** Before `unlisten` visits `x`, what there is to drop for it is unchanged. */
  lemma DroppedBeforeVisit(w: World, prefix: seq<Value>, x: Value, event: Value, sel: Value, h: Value)
    requires forall i :: 0 <= i < |prefix| ==> prefix[i].DomNode?
    requires x !in prefix
    ensures DroppedOf(Run(w, prefix, UnlistenStep(event, sel, h)).w.registry, x, event, sel, h)
         == DroppedOf(w.registry, x, event, sel, h)
  {
    UnlistenNodesEntries(w, prefix, event, sel, h);
    UnlistenKeepsKeys(w, prefix, event, sel, h);
    var reg := Run(w, prefix, UnlistenStep(event, sel, h)).w.registry;
    if x in w.registry {
      var events := w.registry[x];
      forall k | k in events ensures reg[x][k] == events[k] {
        assert EntriesOf(reg, x, k) == EntriesOf(w.registry, x, k);
      }
      assert reg[x] == events;
    }
  }

  lemma {:induction false} DroppedAllHas(reg: Registry, items: seq<Value>, x: Value, event: Value, sel: Value, h: Value)
    requires x in items
    ensures DroppedOf(reg, x, event, sel, h) <= DroppedAll(reg, items, event, sel, h)
    decreases |items|
  {
    var n := |items| - 1;
    assert DroppedAll(reg, items, event, sel, h)
        == DroppedAll(reg, items[..n], event, sel, h) + DroppedOf(reg, items[n], event, sel, h);
    if items[n] != x {
      assert x in items[..n];
      DroppedAllHas(reg, items[..n], x, event, sel, h);
    }
  }

  /** Calling `unlisten` twice with the same arguments on a handle of nodes does
      what calling it once does: the second call finds nothing to remove. */
  lemma UnlistenTwiceIsOnce(w: World, items: seq<Value>, event: Value, sel: Value, h: Value)
    requires forall i :: 0 <= i < |items| ==> items[i].DomNode?
    ensures var c := Unlisten(w, items, event, sel, h);
      c.Normal? && Unlisten(c.w, items, event, sel, h) == c
  {
    UnlistenNodesEntries(w, items, event, sel, h);
    UnlistenKeepsKeys(w, items, event, sel, h);
    var c := Unlisten(w, items, event, sel, h);
    forall i | 0 <= i < |items| ensures NothingMatches(c.w.registry, items[i], event, sel, h) {
      var v := items[i];
      if v in c.w.registry {
        assert Requested(c.w.registry[v], event) == Requested(w.registry[v], event);
        forall k, e | k in Requested(c.w.registry[v], event) && k in c.w.registry[v] && e in c.w.registry[v][k]
          ensures !Matches(e, sel, h)
        {
          assert e in EntriesOf(c.w.registry, v, k);
          KeptTwice(EntriesOf(w.registry, v, k), sel, h);
        }
      }
    }
    UnlistenWithoutMatchIsNoop(c.w, items, event, sel, h);
  }

  /** `listen(event, f)` on one node is one `listen` iteration with no selector. */
  lemma ListenOneNode(w: World, n: Node, event: string, f: Value)
    requires !f.Str?
    ensures Listen(w, [DomNode(n)], event, f, Undefined) == ListenItem(w, DomNode(n), event, None, f)
  {
    assert ListenArgs(f, Undefined) == (None, f);
    assert [DomNode(n)][..0] == [];
    assert Run(w, [DomNode(n)], ListenStep(event, None, f)) == ListenItem(w, DomNode(n), event, None, f);
  }

  /** `unlisten` on one node is one `unlisten` iteration. */
  lemma UnlistenOneNode(w: World, n: Node, event: Value, sel: Value, h: Value)
    ensures Unlisten(w, [DomNode(n)], event, sel, h) == UnlistenItem(w, DomNode(n), event, sel, h)
  {
    assert [DomNode(n)][..0] == [];
    assert Run(w, [DomNode(n)], UnlistenStep(event, sel, h)) == UnlistenItem(w, DomNode(n), event, sel, h);
  }

  /** When `added` is the only tuple of the visited `types` with handler `f`,
      filtering by handler `f` drops exactly that tuple and its native listener. */
  lemma DroppedJustAdded(events: Events, types: set<string>, n: Node, event: string, added: Entry, f: Value)
    requires f != Null
    requires event in types && event in events && added in events[event] && added.handler == f
    requires forall k, e | k in types && k in events && e in events[k] && (k != event || e != added) :: e.handler != f
    ensures Dropped(events, types, n, Null, f) == {Listener(n, event, added.callback)}
    ensures forall k | k in types && k in events ::
      Kept(events[k], Null, f) == if k == event then events[k] - {added} else events[k]
  {
    forall l | l in Dropped(events, types, n, Null, f) ensures l == Listener(n, event, added.callback) {
      var k, e :| k in types && k in events && e in events[k] && Matches(e, Null, f) && l == Listener(n, k, e.callback);
      assert k == event && e == added;
    }
    assert Matches(added, Null, f);
  }

  /** `listen(event, f)` on one element followed by `unlisten(event, f)`, which
      reads `f` as a selector, removes nothing. */
  lemma ListenThenUnlistenBySelector(w: World, n: Node, event: string, f: Value)
    requires !f.Str? && f != Null
    ensures var c1 := Listen(w, [DomNode(n)], event, f, Undefined);
      c1.Normal? && Unlisten(c1.w, [DomNode(n)], Str(event), f, Undefined) == c1
  {
    ListenOneNode(w, n, event, f);
    ListenItemEntries(w, DomNode(n), event, None, f);
    var c1 := Listen(w, [DomNode(n)], event, f, Undefined);
    UnlistenNonSelectorRemovesNothing(c1.w, [DomNode(n)], Str(event), f, Undefined);
  }

  /** `listen(event, f)` on one element followed by `unlisten(event, null, f)`
      restores the native listeners and every tuple set, when `f` was not
      registered on it before under a visited type; the registry entry and
      event-type key `listen` created stay. */
  lemma ListenThenUnlisten(w: World, n: Node, event: string, f: Value)
    requires Consistent(w)
    requires !f.Str? && f != Null
    requires forall k, e | (event == "" || k == event) && e in EntriesOf(w.registry, DomNode(n), k) :: e.handler != f
    ensures var c1 := Listen(w, [DomNode(n)], event, f, Undefined);
      var c2 := Unlisten(c1.w, [DomNode(n)], Str(event), Null, f);
      && c2.Normal?
      && c2.w.natives == w.natives
      && (forall v, k :: EntriesOf(c2.w.registry, v, k) == EntriesOf(w.registry, v, k))
  {
    var item := DomNode(n);
    ListenOneNode(w, n, event, f);
    ListenItemState(w, item, event, None, f);
    ListenItemEntries(w, item, event, None, f);
    ConsistentIdsBelow(w);
    ListenItemFresh(w, item, event, None, f);
    var c1 := ListenItem(w, item, event, None, f).w;
    var added := Entry(f, None, Callback(w.next, None, f));
    UnlistenOneNode(c1, n, Str(event), Null, f);
    UnlistenItemOnNode(c1, item, Str(event), Null, f);
    UnlistenItemOnNodeEntries(c1, item, Str(event), Null, f);
    var events := c1.registry[item];
    var types := Requested(events, Str(event));
    assert event in types;
    forall k, e | k in types && k in events && e in events[k] && (k != event || e != added) ensures e.handler != f {
      assert event == "" || k == event;
      assert e in EntriesOf(c1.registry, item, k);
    }
    DroppedJustAdded(events, types, n, event, added, f);
    assert Listener(n, event, added.callback) !in w.natives;
  }

  // ------------------------------------------- unlisten, one type at a time

  /** The matching tuples of one Set, and the native listeners they registered
      on `node` for `event`. */
  function Matching(entries: set<Entry>, sel: Value, h: Value): set<Entry>
  {
    set e | e in entries && Matches(e, sel, h)
  }

  function Unhooked(entries: set<Entry>, node: Node, event: string): set<Listener>
  {
    set e | e in entries :: Listener(node, event, e.callback)
  }

  /** Sweeping one more event type replaces its Set with the kept tuples. */
  lemma SweptOneMore(events: Events, done: set<string>, evt: string, sel: Value, h: Value)
    requires evt !in done
    ensures evt in events ==>
      Swept(events, done + {evt}, sel, h) == Swept(events, done, sel, h)[evt := Kept(events[evt], sel, h)]
    ensures evt !in events ==> Swept(events, done + {evt}, sel, h) == Swept(events, done, sel, h)
    ensures evt in events ==> Swept(events, done, sel, h)[evt] == events[evt]
  {
  }

  /** Sweeping one more event type drops the listeners of its matching tuples. */
  lemma DroppedOneMore(events: Events, done: set<string>, evt: string, node: Node, sel: Value, h: Value)
    ensures evt in events ==>
      Dropped(events, done + {evt}, node, sel, h)
      == Dropped(events, done, node, sel, h) + Unhooked(Matching(events[evt], sel, h), node, evt)
    ensures evt !in events ==> Dropped(events, done + {evt}, node, sel, h) == Dropped(events, done, node, sel, h)
  {
    if evt in events {
      DroppedOneMoreWithin(events, done, evt, node, sel, h);
      DroppedOneMoreCovers(events, done, evt, node, sel, h);
    }
  }

  lemma DroppedOneMoreWithin(events: Events, done: set<string>, evt: string, node: Node, sel: Value, h: Value)
    requires evt in events
    ensures Dropped(events, done + {evt}, node, sel, h)
      <= Dropped(events, done, node, sel, h) + Unhooked(Matching(events[evt], sel, h), node, evt)
  {
    forall l | l in Dropped(events, done + {evt}, node, sel, h)
      ensures l in Dropped(events, done, node, sel, h) + Unhooked(Matching(events[evt], sel, h), node, evt)
    {
      var k, e :| k in done + {evt} && k in events && e in events[k] && Matches(e, sel, h) && l == Listener(node, k, e.callback);
      if k == evt {
        assert e in Matching(events[evt], sel, h);
      }
    }
  }

  lemma DroppedOneMoreCovers(events: Events, done: set<string>, evt: string, node: Node, sel: Value, h: Value)
    requires evt in events
    ensures Dropped(events, done, node, sel, h) <= Dropped(events, done + {evt}, node, sel, h)
    ensures Unhooked(Matching(events[evt], sel, h), node, evt) <= Dropped(events, done + {evt}, node, sel, h)
  {
    forall l | l in Unhooked(Matching(events[evt], sel, h), node, evt)
      ensures l in Dropped(events, done + {evt}, node, sel, h)
    {
      var e :| e in Matching(events[evt], sel, h) && l == Listener(node, evt, e.callback);
    }
  }

  /** Writing the kept tuples of one more event type back into the registry gives
      the registry swept over one more type. */
  lemma SweptWriteBack(reg0: Registry, el: Value, events: Events, done: set<string>, evt: string, sel: Value, h: Value)
    requires evt !in done && evt in events
    ensures var reg := reg0[el := Swept(events, done, sel, h)];
      && el in reg && evt in reg[el] && reg[el][evt] == events[evt]
      && reg[el := reg[el][evt := events[evt] - Matching(events[evt], sel, h)]]
         == reg0[el := Swept(events, done + {evt}, sel, h)]
  {
    SweptOneMore(events, done, evt, sel, h);
    assert events[evt] - Matching(events[evt], sel, h) == Kept(events[evt], sel, h);
  }

  /** A match among the tuples of one more event type is a match of the sweep. */
  lemma AnyMatchOneMore(events: Events, done: set<string>, evt: string, sel: Value, h: Value)
    ensures AnyMatch(events, done + {evt}, sel, h) <==>
      AnyMatch(events, done, sel, h) || (evt in events && Matching(events[evt], sel, h) != {})
  {
    if AnyMatch(events, done + {evt}, sel, h) {
      AnyMatchSplits(events, done, evt, sel, h);
    }
    if AnyMatch(events, done, sel, h) {
      AnyMatchGrows(events, done, done + {evt}, sel, h);
    }
    if evt in events && Matching(events[evt], sel, h) != {} {
      AnyMatchOfType(events, done, evt, sel, h);
    }
  }

  lemma AnyMatchOfType(events: Events, done: set<string>, evt: string, sel: Value, h: Value)
    requires evt in events && Matching(events[evt], sel, h) != {}
    ensures AnyMatch(events, done + {evt}, sel, h)
  {
    var e :| e in Matching(events[evt], sel, h);
    assert evt in done + {evt} && e in events[evt] && Matches(e, sel, h);
  }

  lemma AnyMatchSplits(events: Events, done: set<string>, evt: string, sel: Value, h: Value)
    requires AnyMatch(events, done + {evt}, sel, h)
    ensures AnyMatch(events, done, sel, h) || (evt in events && Matching(events[evt], sel, h) != {})
  {
    var k, e :| k in done + {evt} && k in events && e in events[k] && Matches(e, sel, h);
    if k == evt {
      assert e in Matching(events[evt], sel, h);
    } else {
      assert k in done;
    }
  }

  lemma AnyMatchGrows(events: Events, fewer: set<string>, more: set<string>, sel: Value, h: Value)
    requires fewer <= more && AnyMatch(events, fewer, sel, h)
    ensures AnyMatch(events, more, sel, h)
  {
    var k, e :| k in fewer && k in events && e in events[k] && Matches(e, sel, h);
    assert k in more;
  }

  /** The state `unlisten` has reached for element `el` once it has swept the event
      types `done` of its Map `events`, starting from `w0`. */
  ghost function Sweeping(w0: World, el: Value, events: Events, done: set<string>, sel: Value, h: Value): World
  {
    World(w0.registry[el := Swept(events, done, sel, h)],
          if el.DomNode? then w0.natives - Dropped(events, done, el.node, sel, h) else w0.natives,
          w0.next)
  }

  /** One `unlisten` iteration on an element with a registry entry, in terms of
      the sweep over its visited types. */
  lemma UnlistenItemSweeps(w: World, el: Value, event: Value, sel: Value, h: Value)
    requires IsObject(el) && el in w.registry
    ensures var events := w.registry[el];
      var types := Requested(events, event);
      UnlistenItem(w, el, event, sel, h) ==
        if el.DomNode? then Normal(Sweeping(w, el, events, types, sel, h))
        else if AnyMatch(events, types, sel, h) then Thrown(w)
        else Normal(w)
  {
  }

  /** Sweeping types none of whose tuples match changes nothing. */
  lemma NoMatchSweepsNothing(w0: World, el: Value, types: set<string>, sel: Value, h: Value)
    requires el in w0.registry && !AnyMatch(w0.registry[el], types, sel, h)
    ensures Sweeping(w0, el, w0.registry[el], types, sel, h) == w0
  {
    var events := w0.registry[el];
    SweptNoMatch(events, types, sel, h);
    assert w0.registry[el := events] == w0.registry;
    if el.DomNode? {
      DroppedNone(events, types, el.node, sel, h);
    }
  }

  /** Sweeping one more event type of a Map. */
  lemma SweepingOneMore(w0: World, el: Value, events: Events, done: set<string>, evt: string, sel: Value, h: Value)
    requires evt !in done
    ensures evt !in events ==> Sweeping(w0, el, events, done + {evt}, sel, h) == Sweeping(w0, el, events, done, sel, h)
    ensures evt in events ==>
      var before := Sweeping(w0, el, events, done, sel, h);
      var after := Sweeping(w0, el, events, done + {evt}, sel, h);
      && el in before.registry && evt in before.registry[el] && before.registry[el][evt] == events[evt]
      && after.registry == before.registry[el := before.registry[el][evt := events[evt] - Matching(events[evt], sel, h)]]
      && after.next == before.next
      && (el.DomNode? ==> after.natives == before.natives - Unhooked(Matching(events[evt], sel, h), el.node, evt))
      && (!el.DomNode? ==> after.natives == before.natives)
  {
    SweptOneMore(events, done, evt, sel, h);
    if el.DomNode? {
      DroppedOneMore(events, done, evt, el.node, sel, h);
    }
    if evt in events {
      SweptWriteBack(w0.registry, el, events, done, evt, sel, h);
    }
  }

  /** The loop over one Set of tuples, one tuple further. */
  lemma MatchingOneMore(handlers: set<Entry>, rest: set<Entry>, entry: Entry, sel: Value, h: Value)
    requires entry in rest && rest <= handlers
    ensures Matching(handlers - (rest - {entry}), sel, h)
      == Matching(handlers - rest, sel, h) + (if Matches(entry, sel, h) then {entry} else {})
  {
    assert handlers - (rest - {entry}) == (handlers - rest) + {entry};
  }

  lemma UnhookedOneMore(entries: set<Entry>, entry: Entry, node: Node, evt: string)
    ensures Unhooked(entries + {entry}, node, evt) == Unhooked(entries, node, evt) + {Listener(node, evt, entry.callback)}
  {
  }

  // ---------------------------------------------------------------- remove

  lemma {:induction false} DetachAll(w: World, items: seq<Value>)
    requires forall i :: 0 <= i < |items| ==> items[i] != Null && items[i] != Undefined
    ensures Run(w, items, DetachItem) == Normal(World(w.registry - (set v | v in items), w.natives, w.next))
    decreases |items|
  {
    if items != [] {
      var n := |items| - 1;
      DetachAll(w, items[..n]);
      var p := Run(w, items[..n], DetachItem).w;
      assert Run(w, items, DetachItem) == DetachItem(p, items[n]);
      assert items == items[..n] + [items[n]];
      ElementsOneMore(items, items[..n], items[n]);
    }
  }

  lemma ElementsOneMore(items: seq<Value>, prefix: seq<Value>, x: Value)
    requires items == prefix + [x]
    ensures (set v | v in items) == (set v | v in prefix) + {x}
  {
  }

  /** `remove()` on a non-empty handle whose items are not null or undefined
      deletes every item's registry entry but removes no native listener: its
      `unlisten()` call matches nothing, so the listeners stay registered. */
  lemma RemoveKeepsNativeListeners(w: World, items: seq<Value>)
    requires items != []
    requires forall i :: 0 <= i < |items| ==> items[i] != Null && items[i] != Undefined
    ensures Remove(w, items) == Normal(World(w.registry - (set v | v in items), w.natives, w.next))
  {
    UnlistenNonSelectorRemovesNothing(w, items, Undefined, Undefined, Undefined);
    DetachAll(w, items);
  }

  /** Deleting registry entries keeps the invariant. */
  lemma {:induction false} DetachKeepsConsistent(w: World, items: seq<Value>)
    requires Consistent(w)
    ensures Consistent(Run(w, items, DetachItem).w)
    decreases |items|
  {
    if items != [] {
      var n := |items| - 1;
      DetachKeepsConsistent(w, items[..n]);
      var p := Run(w, items[..n], DetachItem);
      if p.Normal? {
        var c := DetachItem(p.w, items[n]).w;
        forall v | v in c.registry ensures v in p.w.registry && c.registry[v] == p.w.registry[v] { }
      }
    }
  }

  /** `remove()` keeps the invariant, whether it completes or throws. */
  lemma RemovePreservesConsistent(w: World, items: seq<Value>)
    requires Consistent(w)
    ensures Consistent(Remove(w, items).w)
  {
    if items != [] {
      UnlistenPreservesConsistent(w, items, Undefined, Undefined, Undefined);
      var u := Unlisten(w, items, Undefined, Undefined, Undefined);
      if u.Normal? {
        DetachKeepsConsistent(u.w, items);
      }
    }
  }

  /** `unlisten` skips items without a registry entry. */
  lemma UnlistenAbsent(w: World, items: seq<Value>, event: Value, sel: Value, h: Value)
    requires forall i | 0 <= i < |items| :: items[i] !in w.registry
    ensures Unlisten(w, items, event, sel, h) == Normal(w)
  {
    UnlistenWithoutMatchIsNoop(w, items, event, sel, h);
  }

  /** After `remove()` the handle holds its old items and an empty array: no later
      `unlisten` on it, whatever its arguments, reaches the listeners left behind. */
  lemma RemovedListenersUnreachable(w: World, items: seq<Value>, event: Value, sel: Value, h: Value)
    requires items != []
    requires forall i :: 0 <= i < |items| ==> items[i] != Null && items[i] != Undefined
    requires Array([]) !in w.registry
    ensures var r := Remove(w, items);
      r.Normal? && Unlisten(r.w, items + [Array([])], event, sel, h) == r
  {
    RemoveKeepsNativeListeners(w, items);
    var gone := set v | v in items;
    var r := World(w.registry - gone, w.natives, w.next);
    var all := items + [Array([])];
    forall i | 0 <= i < |all| ensures all[i] !in r.registry {
      if i < |items| {
        assert all[i] in gone;
      }
    }
    UnlistenAbsent(r, all, event, sel, h);
  }

  /** After `remove()` on a handle of nodes, `listen` throws a TypeError at the
      empty array `remove` appended, once it has registered every node again. */
  lemma ListenAfterRemoveThrows(w: World, items: seq<Value>, event: string, selector: Value, handler: Value)
    requires items != []
    requires forall i :: 0 <= i < |items| ==> items[i].DomNode?
    ensures var r := Remove(w, items);
      r.Normal? &&
      var sel := ListenArgs(selector, handler).0;
      var h := ListenArgs(selector, handler).1;
      var c := Listen(r.w, items + [Array([])], event, selector, handler);
      && c.Thrown?
      && c == ListenItem(Run(r.w, items, ListenStep(event, sel, h)).w, Array([]), event, sel, h)
      && c.w.natives == r.w.natives + Registered(items, event, sel, h, r.w.next)
      && c.w.next == r.w.next + |items| + 1
      && Entry(h, sel, Callback(r.w.next + |items|, sel, h)) in EntriesOf(c.w.registry, Array([]), event)
  {
    RemoveKeepsNativeListeners(w, items);
    var r := World(w.registry - (set v | v in items), w.natives, w.next);
    assert Remove(w, items) == Normal(r);
    var sel := ListenArgs(selector, handler).0;
    var h := ListenArgs(selector, handler).1;
    assert Listen(r, items + [Array([])], event, selector, handler) == Run(r, items + [Array([])], ListenStep(event, sel, h));
    ListenOneMoreThrows(r, items, event, sel, h);
  }

  /** `listen` on nodes and then a trailing array: every node is registered, then
      the array gets its tuple and throws. */
  lemma ListenOneMoreThrows(r: World, items: seq<Value>, event: string, sel: Option<string>, h: Value)
    requires forall i :: 0 <= i < |items| ==> items[i].DomNode?
    ensures var c := Run(r, items + [Array([])], ListenStep(event, sel, h));
      && c.Thrown?
      && c == ListenItem(Run(r, items, ListenStep(event, sel, h)).w, Array([]), event, sel, h)
      && c.w.natives == r.natives + Registered(items, event, sel, h, r.next)
      && c.w.next == r.next + |items| + 1
      && Entry(h, sel, Callback(r.next + |items|, sel, h)) in EntriesOf(c.w.registry, Array([]), event)
  {
    var all := items + [Array([])];
    ListenNodesNatives(r, items, event, sel, h);
    assert all[..|items|] == items;
    assert all[..|items| + 1] == all;
    RunExtend(r, all, |items|, ListenStep(event, sel, h));
  }

  // ---------------------------------------------------------------- dispatch

  /** Delegation is not scoped to the element: for a click on `target` inside `el`
      inside `outer`, where only `outer` matches the selector, the handler runs
      with `outer` as `this`. */
  lemma DelegationEscapesElement(cb: Callback, el: Node, target: Node, outer: Node, matches: (Node, string) -> bool)
    requires cb.selector.Some? && outer != el
    requires !matches(target, cb.selector.value) && !matches(el, cb.selector.value) && matches(outer, cb.selector.value)
    ensures Fire(cb, el, [target, el, outer], matches) == Some(Call(cb.handler, outer))
  {
    var chain := [target, el, outer];
    assert FirstMatch(chain, cb.selector.value, matches, 2);
  }

  /** When the element itself is the closest match, the delegated handler does not
      run, even if an ancestor of it matches too. */
  lemma SelfMatchSuppressesHandler(cb: Callback, el: Node, target: Node, outer: Node, matches: (Node, string) -> bool)
    requires cb.selector.Some? && target != el
    requires !matches(target, cb.selector.value) && matches(el, cb.selector.value)
    ensures Fire(cb, el, [target, el, outer], matches) == None
  {
    var chain := [target, el, outer];
    forall i: nat | FirstMatch(chain, cb.selector.value, matches, i) ensures chain[i] == el {
      assert chain[0] == target && chain[1] == el;
      assert i == 1;
    }
  }
}
