/** Registering middleware and fixing the order in which it runs. */
module Middlewares {
  import opened Sequences
  import opened Sorting
  import opened Texts

  datatype Location = RequestSide | ResponseSide

  /** A middleware object. The definition number is drawn from a counter when the object is made, so it
      is also the object's identity. */
  datatype Middleware = Middleware(func: nat, location: Location, priority: int, definition: nat)

  /** What can be registered: a function, or a middleware object. */
  datatype Registrant = Function(func: nat) | Object(m: Middleware)

  /** The order in which request middleware runs: higher priority, then earlier definition. It is
      `sorted(..., key=order, reverse=True)` with `order == (priority, -definition)`. */
  predicate RunsBefore(a: Middleware, b: Middleware) {
    a.priority > b.priority || (a.priority == b.priority && a.definition <= b.definition)
  }

  function RequestOrder(ms: seq<Middleware>): seq<Middleware> {
    StableSort(ms, RunsBefore)
  }

  /** `sorted(...)[::-1]`. */
  function ResponseOrder(ms: seq<Middleware>): seq<Middleware> {
    Reverse(StableSort(ms, RunsBefore))
  }

  /** The middleware registered for a route by name. */
  function NamedFor(named: map<string, seq<Middleware>>, route: string): seq<Middleware> {
    if route in named then named[route] else []
  }

  /** The object to register: a new one for a function, or when another priority is asked for. */
  function Registered(r: Registrant, attachTo: Location, priority: Option<int>, next: nat): Middleware {
    match r
    case Function(f) => Middleware(f, attachTo, if priority.Some? then priority.value else 0, next)
    case Object(o) =>
      if priority.Some? && priority.value != o.priority then Middleware(o.func, o.location, priority.value, next) else o
  }

  /** What is registered runs the given function at the priority asked for, and is a new object or the
      given one: so the objects keep their identities. */
  lemma RegistrationKeepsIdentities(ms: seq<Middleware>, r: Registrant, attachTo: Location, priority: Option<int>,
                                    next: nat)
    requires Distinct(ms) && forall m :: m in ms ==> m.definition < next
    requires r.Object? ==> r.m.definition < next && forall m :: m in ms && m.definition == r.m.definition ==> m == r.m
    ensures var m := Registered(r, attachTo, priority, next);
      && Distinct(ms + [m]) && m.definition <= next
      && m.func == (if r.Function? then r.func else r.m.func)
      && (priority.Some? ==> m.priority == priority.value)
      && (r.Function? ==> m !in ms)
      && (r.Object? && priority.Some? && priority.value != r.m.priority ==> m !in ms)
      && (r.Object? && priority.None? ==> m == r.m)
  {
    var m := Registered(r, attachTo, priority, next);
    forall a, b | a in ms + [m] && b in ms + [m] && a.definition == b.definition
      ensures a == b
    {
      if a !in ms {
        assert a == m;
      }
      if b !in ms {
        assert b == m;
      }
    }
  }

  class Route {
    const name: string
    var requestMiddleware: seq<Middleware>
    var responseMiddleware: seq<Middleware>

    constructor (name: string)
      ensures this.name == name && requestMiddleware == [] && responseMiddleware == []
    {
      this.name := name;
      requestMiddleware, responseMiddleware := [], [];
    }
  }

  class App {
    var counter: nat
    var routes: seq<Route>
    var requestMiddleware: seq<Middleware>
    var responseMiddleware: seq<Middleware>
    var namedRequestMiddleware: map<string, seq<Middleware>>
    var namedResponseMiddleware: map<string, seq<Middleware>>

    /** Every object the application holds. */
    ghost predicate Has(m: Middleware)
      reads this
    {
      || m in requestMiddleware || m in responseMiddleware
      || (exists n :: n in namedRequestMiddleware && m in namedRequestMiddleware[n])
      || (exists n :: n in namedResponseMiddleware && m in namedResponseMiddleware[n])
    }

    /** Definition numbers were drawn from the counter, and identify the object. */
    ghost predicate Valid()
      reads this
    {
      && (forall m :: Has(m) ==> m.definition < counter)
      && (forall m, m' :: Has(m) && Has(m') && m.definition == m'.definition ==> m == m')
    }

    /** An object to be registered was made with the counter, and is the one of its number. */
    ghost predicate Known(r: Registrant)
      reads this
    {
      r.Object? ==> r.m.definition < counter && forall o :: Has(o) && o.definition == r.m.definition ==> o == r.m
    }

    constructor (routes: seq<Route>)
      ensures Valid() && this.routes == routes && counter == 0
      ensures requestMiddleware == [] && responseMiddleware == []
      ensures namedRequestMiddleware == map[] && namedResponseMiddleware == map[]
    {
      counter, this.routes := 0, routes;
      requestMiddleware, responseMiddleware := [], [];
      namedRequestMiddleware, namedResponseMiddleware := map[], map[];
    }

    method MakeObject(r: Registrant, attachTo: Location, priority: Option<int>) returns (m: Middleware)
      modifies `counter
      ensures m == Registered(r, attachTo, priority, old(counter))
      ensures counter == old(counter) + if r == Object(m) then 0 else 1
    {
      match r {
        case Function(f) =>
          m := Middleware(f, attachTo, if priority.Some? then priority.value else 0, counter);
          counter := counter + 1;
        case Object(o) =>
          m := o;
          if priority.Some? && priority.value != o.priority {
            m := Middleware(o.func, o.location, priority.value, counter);
            counter := counter + 1;
          }
      }
    }

    /** `register_middleware`: at the end for requests, at the front for responses, once per object. */
    method RegisterMiddleware(r: Registrant, attachTo: Location, priority: Option<int>) returns (ghost m: Middleware)
      requires Valid()
      requires Known(r)
      modifies `counter, `requestMiddleware, `responseMiddleware
      ensures Valid() && m == Registered(r, attachTo, priority, old(counter))
      ensures counter == old(counter) + if r == Object(m) then 0 else 1
      ensures requestMiddleware == if attachTo.RequestSide? && m !in old(requestMiddleware)
        then old(requestMiddleware) + [m] else old(requestMiddleware)
      ensures responseMiddleware == if attachTo.ResponseSide? && m !in old(responseMiddleware)
        then [m] + old(responseMiddleware) else old(responseMiddleware)
    {
      var mw := MakeObject(r, attachTo, priority);
      m := mw;
      if attachTo.RequestSide? {
        if mw !in requestMiddleware {
          requestMiddleware := requestMiddleware + [mw];
        }
      } else {
        if mw !in responseMiddleware {
          responseMiddleware := [mw] + responseMiddleware;
        }
      }
      assert forall o :: Has(o) ==> old(Has(o)) || o == m;
    }

    /** `register_named_middleware`: the same on every named route. */
    method RegisterNamedMiddleware(r: Registrant, names: seq<string>, attachTo: Location, priority: Option<int>)
        returns (ghost m: Middleware)
      requires Valid()
      requires Known(r)
      modifies `counter, `namedRequestMiddleware, `namedResponseMiddleware
      ensures Valid() && m == Registered(r, attachTo, priority, old(counter))
      ensures counter == old(counter) + if r == Object(m) then 0 else 1
      ensures namedRequestMiddleware ==
        if attachTo.RequestSide? then AddNamed(old(namedRequestMiddleware), names, m, false)
        else old(namedRequestMiddleware)
      ensures namedResponseMiddleware ==
        if attachTo.ResponseSide? then AddNamed(old(namedResponseMiddleware), names, m, true)
        else old(namedResponseMiddleware)
    {
      var mw := MakeObject(r, attachTo, priority);
      m := mw;
      if attachTo.RequestSide? {
        AddToRequests(mw, names);
      } else {
        AddToResponses(mw, names);
      }
      AddNamedHas(old(namedRequestMiddleware), names, m, false);
      AddNamedHas(old(namedResponseMiddleware), names, m, true);
      assert forall o :: Has(o) ==> old(Has(o)) || o == m;
    }

    method AddToRequests(m: Middleware, names: seq<string>)
      modifies `namedRequestMiddleware
      ensures namedRequestMiddleware == AddNamed(old(namedRequestMiddleware), names, m, false)
    {
      for i := 0 to |names|
        invariant namedRequestMiddleware == AddNamed(old(namedRequestMiddleware), names[..i], m, false)
      {
        assert names[..i + 1][..i] == names[..i];
        if names[i] !in namedRequestMiddleware {
          namedRequestMiddleware := namedRequestMiddleware[names[i] := []];
        }
        if m !in namedRequestMiddleware[names[i]] {
          namedRequestMiddleware := namedRequestMiddleware[names[i] := namedRequestMiddleware[names[i]] + [m]];
        }
      }
      assert names[..|names|] == names;
    }

    method AddToResponses(m: Middleware, names: seq<string>)
      modifies `namedResponseMiddleware
      ensures namedResponseMiddleware == AddNamed(old(namedResponseMiddleware), names, m, true)
    {
      for i := 0 to |names|
        invariant namedResponseMiddleware == AddNamed(old(namedResponseMiddleware), names[..i], m, true)
      {
        assert names[..i + 1][..i] == names[..i];
        if names[i] !in namedResponseMiddleware {
          namedResponseMiddleware := namedResponseMiddleware[names[i] := []];
        }
        if m !in namedResponseMiddleware[names[i]] {
          namedResponseMiddleware := namedResponseMiddleware[names[i] := [m] + namedResponseMiddleware[names[i]]];
        }
      }
      assert names[..|names|] == names;
    }

    /** `finalize_middleware`. */
    method FinalizeMiddleware()
      requires Valid()
      requires forall i, j :: 0 <= i < j < |routes| ==> routes[i] != routes[j]
      modifies this, routes
      ensures Valid() && routes == old(routes) && counter == old(counter)
      ensures namedRequestMiddleware == old(namedRequestMiddleware)
      ensures namedResponseMiddleware == old(namedResponseMiddleware)
      ensures requestMiddleware == RequestOrder(old(requestMiddleware))
      ensures responseMiddleware == ResponseOrder(old(responseMiddleware))
      ensures forall i :: 0 <= i < |routes| ==>
        && routes[i].requestMiddleware
             == RequestOrder(old(requestMiddleware) + NamedFor(namedRequestMiddleware, routes[i].name))
        && routes[i].responseMiddleware
             == ResponseOrder(old(responseMiddleware) + NamedFor(namedResponseMiddleware, routes[i].name))
    {
      for k := 0 to |routes|
        invariant unchanged(this)
        invariant forall i :: 0 <= i < k ==>
          && routes[i].requestMiddleware
               == RequestOrder(requestMiddleware + NamedFor(namedRequestMiddleware, routes[i].name))
          && routes[i].responseMiddleware
               == ResponseOrder(responseMiddleware + NamedFor(namedResponseMiddleware, routes[i].name))
      {
        var route := routes[k];
        route.requestMiddleware := RequestOrder(requestMiddleware + NamedFor(namedRequestMiddleware, route.name));
        route.responseMiddleware := ResponseOrder(responseMiddleware + NamedFor(namedResponseMiddleware, route.name));
      }
      SameMiddleware(requestMiddleware);
      SameMiddleware(responseMiddleware);
      requestMiddleware := RequestOrder(requestMiddleware);
      responseMiddleware := ResponseOrder(responseMiddleware);
      assert forall o :: Has(o) ==> old(Has(o));
    }
  }

  /** The loop of `register_named_middleware` over the route names. */
  function AddNamed(named: map<string, seq<Middleware>>, names: seq<string>, m: Middleware, front: bool)
      : map<string, seq<Middleware>> {
    if |names| == 0 then named
    else
      var before := AddNamed(named, names[..|names| - 1], m, front);
      var name := names[|names| - 1];
      var list := NamedFor(before, name);
      before[name := if m in list then list else if front then [m] + list else list + [m]]
  }

  lemma {:induction false} AddNamedHas(named: map<string, seq<Middleware>>, names: seq<string>, m: Middleware,
                                       front: bool)
    ensures forall n, o :: n in AddNamed(named, names, m, front) && o in AddNamed(named, names, m, front)[n] ==>
      o == m || (n in named && o in named[n])
  {
    if |names| > 0 {
      AddNamedHas(named, names[..|names| - 1], m, front);
    }
  }

  /** Each named route gets the object once, at the chosen end, however often it is named and only if it
      did not have it; no other route is touched. */
  lemma {:induction false} NamedRoutesGetItOnce(named: map<string, seq<Middleware>>, names: seq<string>, m: Middleware,
      front: bool, route: string)
    ensures route in AddNamed(named, names, m, front) <==> route in named || route in names
    ensures NamedFor(AddNamed(named, names, m, front), route) ==
      var list := NamedFor(named, route);
      if route !in names || m in list then list else if front then [m] + list else list + [m]
  {
    if |names| > 0 {
      NamedRoutesGetItOnce(named, names[..|names| - 1], m, front, route);
      assert names == names[..|names| - 1] + [names[|names| - 1]];
    }
  }

  lemma SameMiddleware(ms: seq<Middleware>)
    ensures forall m :: (m in RequestOrder(ms) <==> m in ms) && (m in ResponseOrder(ms) <==> m in ms)
  {
    RunsBeforeOrders();
    SortSorts(ms, RunsBefore);
    var s := RequestOrder(ms);
    forall m
      ensures (m in s <==> m in ms) && (m in Reverse(s) <==> m in ms)
    {
      assert m in s <==> m in multiset(s);
      assert m in ms <==> m in multiset(ms);
      ReverseSame(s, m);
    }
  }

  lemma {:induction false} ReverseSame<T>(s: seq<T>, x: T)
    ensures x in Reverse(s) <==> x in s
    ensures multiset(Reverse(s)) == multiset(s)
  {
    if |s| > 0 {
      ReverseSame(s[1..], x);
      assert s == [s[0]] + s[1..];
    }
  }

  lemma RunsBeforeOrders()
    ensures TotalPreorder(RunsBefore)
  {
  }

  // ---------------------------------------------------------------- the order is determined

  /** Objects with the same definition number are the same object. */
  predicate Distinct(ms: seq<Middleware>) {
    forall m, m' :: m in ms && m' in ms && m.definition == m'.definition ==> m == m'
  }

  /** The request list is the one arrangement of the middleware in which whatever comes first has the
      higher priority or, at the same priority, the earlier definition. */
  lemma RequestOrderIsDetermined(ms: seq<Middleware>, list: seq<Middleware>)
    requires Distinct(ms)
    ensures list == RequestOrder(ms) <==> multiset(list) == multiset(ms) && Sorted(list, RunsBefore)
  {
    RunsBeforeOrders();
    SortSorts(ms, RunsBefore);
    if multiset(list) == multiset(ms) && Sorted(list, RunsBefore) {
      SameMiddleware(ms);
      SortedIsUnique(RequestOrder(ms), list, RunsBefore);
    }
  }

  ghost predicate SortedDown<T>(s: seq<T>, le: (T, T) -> bool) {
    forall i, j :: 0 <= i < j < |s| ==> le(s[j], s[i])
  }

  /** The response list is the one arrangement in which whatever comes first has the lower priority or,
      at the same priority, the later definition. */
  lemma ResponseOrderIsDetermined(ms: seq<Middleware>, list: seq<Middleware>)
    requires Distinct(ms)
    ensures list == ResponseOrder(ms) <==> multiset(list) == multiset(ms) && SortedDown(list, RunsBefore)
  {
    var r := Reverse(list);
    RequestOrderIsDetermined(ms, r);
    ReverseTwice(list);
    ReverseTwice(RequestOrder(ms));
    ReverseBag(list);
    ReverseSorted(list, RunsBefore);
    ReverseSorted(r, RunsBefore);
  }

  lemma ReverseBag(list: seq<Middleware>)
    ensures multiset(Reverse(list)) == multiset(list)
  {
    if |list| > 0 {
      ReverseSame(list, list[0]);
    }
  }

  lemma ReverseSorted<T>(list: seq<T>, le: (T, T) -> bool)
    ensures Sorted(list, le) ==> SortedDown(Reverse(list), le)
    ensures SortedDown(list, le) ==> Sorted(Reverse(list), le)
  {
    forall i, j | 0 <= i < j < |list|
      ensures Sorted(list, le) ==> le(Reverse(list)[j], Reverse(list)[i])
      ensures SortedDown(list, le) ==> le(Reverse(list)[i], Reverse(list)[j])
    {
      ReverseAt(list, i);
      ReverseAt(list, j);
    }
  }

  /** Lower numbers do not run first: of two request middlewares the one with the higher priority does,
      whatever the order of registration. */
  lemma HigherPriorityRunsFirst(a: Middleware, b: Middleware)
    requires a.priority > b.priority
    ensures RequestOrder([a, b]) == [a, b] == RequestOrder([b, a])
  {
    TwoSorted(a, b, RunsBefore);
    TwoSorted(b, a, RunsBefore);
  }

  lemma TwoSorted<T>(x: T, y: T, le: (T, T) -> bool)
    ensures StableSort([x, y], le) == if le(x, y) then [x, y] else [y, x]
  {
    assert [x, y][1..] == [y] && [y][1..] == [];
    assert StableSort([y], le) == Insert(y, [], le) == [y];
    assert Insert(x, [], le) == [x];
    assert Insert(x, [y], le) == if le(x, y) then [x] + [y] else [y] + [x];
  }

  /** The order depends only on which middleware is registered, not on where or when it was put into the
      deques; so finalising again, from the deques already ordered, changes nothing. */
  lemma FinalizingAgainChangesNothing(globals: seq<Middleware>, named: seq<Middleware>)
    requires Distinct(globals + named)
    ensures RequestOrder(RequestOrder(globals) + named) == RequestOrder(globals + named)
    ensures ResponseOrder(ResponseOrder(globals) + named) == ResponseOrder(globals + named)
    ensures RequestOrder(RequestOrder(globals)) == RequestOrder(globals)
    ensures ResponseOrder(ResponseOrder(globals)) == ResponseOrder(globals)
  {
    RunsBeforeOrders();
    SortSorts(globals, RunsBefore);
    ReverseBag(RequestOrder(globals));
    SameBagSameOrder(globals + named, RequestOrder(globals) + named);
    SameBagSameOrder(globals + named, ResponseOrder(globals) + named);
    SameBagSameOrder(globals, RequestOrder(globals));
    SameBagSameOrder(globals, ResponseOrder(globals));
  }

  lemma SameBagSameOrder(a: seq<Middleware>, b: seq<Middleware>)
    requires Distinct(a) && multiset(a) == multiset(b)
    ensures RequestOrder(a) == RequestOrder(b) && ResponseOrder(a) == ResponseOrder(b)
  {
    RunsBeforeOrders();
    SortSorts(b, RunsBefore);
    RequestOrderIsDetermined(a, RequestOrder(b));
  }
}
