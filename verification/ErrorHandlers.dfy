/** The exception handler registry, which remembers the answers of its searches in the same dictionary
    that holds the registrations. */
module ErrorHandlers {
  import opened Sequences

  type Class = nat
  type Route = string
  type Handler = nat

  /** A handler is registered for an exception class on one route, or on all routes. */
  datatype Key = Key(exc: Class, route: Option<Route>)

  /** `cached_handlers`. A search that found nothing is remembered as `None`. */
  type Table = map<Key, Option<Handler>>

  type Registrations = map<Key, Handler>

  /** The ancestors of a class, itself first, up to BaseException, as the search walks them. */
  type Mro = Class -> seq<Class>

  // ---------------------------------------------------------------- registering

  /** What `add` does to the table, and whether it ends without a duplicate. */
  function AddTo(t: Table, exc: Class, routes: seq<Option<Route>>, h: Handler): (Table, bool) {
    if |routes| == 0 then (t, true)
    else
      var (t', ok) := AddTo(t, exc, routes[..|routes| - 1], h);
      var key := Key(exc, routes[|routes| - 1]);
      if !ok || key in t' then (t', false) else (t'[key := Some(h)], true)
  }

  lemma {:induction false} AddStops(t: Table, exc: Class, routes: seq<Option<Route>>, h: Handler, i: nat)
    requires i <= |routes| && !AddTo(t, exc, routes[..i], h).1
    ensures AddTo(t, exc, routes, h) == AddTo(t, exc, routes[..i], h)
  {
    if i == |routes| {
      assert routes[..i] == routes;
    } else {
      assert routes[..|routes| - 1][..i] == routes[..i];
      AddStops(t, exc, routes[..|routes| - 1], h, i);
    }
  }

  // ---------------------------------------------------------------- searching

  /** The first ancestor with an entry under `name`. */
  function FirstKey(t: Table, ancestors: seq<Class>, name: Option<Route>): (r: Option<Key>)
    ensures r.Some? ==> r.value in t && r.value.route == name
  {
    if |ancestors| == 0 then None
    else if Key(ancestors[0], name) in t then Some(Key(ancestors[0], name))
    else FirstKey(t, ancestors[1..], name)
  }

  /** A handler stored for exactly this class, on the route or on all routes. */
  function Hit(t: Table, c: Class, route: Option<Route>): Option<Handler> {
    if Key(c, route) in t && t[Key(c, route)].Some? then t[Key(c, route)]
    else if Key(c, None) in t then t[Key(c, None)]
    else None
  }

  /** `lookup`: the new table and the answer. */
  function LookupIn(t: Table, mro: Mro, c: Class, route: Option<Route>): (Table, Option<Handler>) {
    if Hit(t, c, route).Some? then (t, Hit(t, c, route))
    else
      var found := if FirstKey(t, mro(c), route).Some? then FirstKey(t, mro(c), route) else FirstKey(t, mro(c), None);
      var answer := if found.Some? then t[found.value] else None;
      (t[Key(c, route) := answer], answer)
  }

  class ErrorHandler {
    const mro: Mro
    var cached: Table

    constructor (mro: Mro)
      ensures this.mro == mro && cached == map[]
    {
      this.mro := mro;
      cached := map[];
    }

    /** `_add`: refuses a key that is in the table, be it registered or only remembered. */
    method AddOne(key: Key, h: Handler) returns (ok: bool)
      modifies this
      ensures ok == (key !in old(cached))
      ensures cached == if ok then old(cached)[key := Some(h)] else old(cached)
    {
      if key in cached {
        return false;
      }
      cached := cached[key := Some(h)];
      ok := true;
    }

    /** `add`: on the given routes, or on all routes if none is given. */
    method Add(exc: Class, h: Handler, routes: seq<Route>) returns (ok: bool)
      modifies this
      ensures (cached, ok) == AddTo(old(cached), exc, AsNames(routes), h)
    {
      var names := AsNames(routes);
      for i := 0 to |names|
        invariant (cached, true) == AddTo(old(cached), exc, names[..i], h)
      {
        assert names[..i + 1][..i] == names[..i];
        ok := AddOne(Key(exc, names[i]), h);
        if !ok {
          AddStops(old(cached), exc, names, h, i + 1);
          return;
        }
      }
      assert names[..|names|] == names;
      ok := true;
    }

    /** `lookup`: for the route, then for all routes, first the class itself, then its ancestors. */
    method Lookup(c: Class, route: Option<Route>) returns (r: Option<Handler>)
      modifies this
      ensures (cached, r) == LookupIn(old(cached), mro, c, route)
    {
      var names := [route, None];
      for i := 0 to 2
        invariant cached == old(cached)
        invariant i > 0 ==> Key(c, route) !in cached || cached[Key(c, route)].None?
        invariant i > 1 ==> Hit(cached, c, route).None?
      {
        var key := Key(c, names[i]);
        if key in cached && cached[key].Some? {
          return cached[key];
        }
      }
      var ancestors := mro(c);
      for i := 0 to 2
        invariant cached == old(cached)
        invariant i > 0 ==> FirstKey(cached, ancestors, route).None?
        invariant i > 1 ==> FirstKey(cached, ancestors, None).None?
      {
        assert ancestors[0..] == ancestors;
        for j := 0 to |ancestors|
          invariant FirstKey(cached, ancestors, names[i]) == FirstKey(cached, ancestors[j..], names[i])
        {
          var key := Key(ancestors[j], names[i]);
          if key in cached {
            r := cached[key];
            cached := cached[Key(c, route) := r];
            return;
          }
        }
      }
      cached := cached[Key(c, route) := None];
      r := None;
    }
  }

  function AsNames(routes: seq<Route>): seq<Option<Route>> {
    if routes == [] then [None] else seq(|routes|, i requires 0 <= i < |routes| => Some(routes[i]))
  }

  /** No lookup ever changes or removes a registered handler. */
  lemma LookupKeepsRegistrations(t: Table, mro: Mro, c: Class, route: Option<Route>, k: Key)
    requires k in t && t[k].Some?
    ensures var t' := LookupIn(t, mro, c, route).0; k in t' && t'[k] == t[k]
  {
  }

  // ---------------------------------------------------------------- the search without memory

  /** The nearest ancestor's handler under `name`. */
  function Nearest(reg: Registrations, ancestors: seq<Class>, name: Option<Route>): Option<Handler> {
    if |ancestors| == 0 then None
    else if Key(ancestors[0], name) in reg then Some(reg[Key(ancestors[0], name)])
    else Nearest(reg, ancestors[1..], name)
  }

  /** The answer by the registrations alone: the class itself, on the route or on all routes, before its
      ancestors; and the ancestors' handlers for the route before those for all routes. */
  function Uncached(reg: Registrations, mro: Mro, c: Class, route: Option<Route>): Option<Handler> {
    if Key(c, route) in reg then Some(reg[Key(c, route)])
    else if Key(c, None) in reg then Some(reg[Key(c, None)])
    else if Nearest(reg, mro(c), route).Some? then Nearest(reg, mro(c), route)
    else Nearest(reg, mro(c), None)
  }

  /** The table of the registrations alone. */
  function Fresh(reg: Registrations): Table {
    map k | k in reg :: Some(reg[k])
  }

  /** Registering, before any search, adds exactly the handler's keys and changes no other entry.
      When it succeeds, none of them was there before. */
  lemma {:induction false} AddRegisters(reg: Registrations, exc: Class, routes: seq<Option<Route>>, h: Handler)
      returns (reg': Registrations)
    ensures AddTo(Fresh(reg), exc, routes, h).0 == Fresh(reg')
    ensures forall k :: k in reg ==> k in reg' && reg'[k] == reg[k]
    ensures forall k :: k in reg' && k !in reg ==> k.exc == exc && k.route in routes && reg'[k] == h
    ensures AddTo(Fresh(reg), exc, routes, h).1 ==>
      forall n :: n in routes ==> Key(exc, n) in reg' && Key(exc, n) !in reg
  {
    reg' := reg;
    if |routes| > 0 {
      var init, name := routes[..|routes| - 1], routes[|routes| - 1];
      var reg1 := AddRegisters(reg, exc, init, h);
      LastName(routes);
      reg' := reg1;
      if AddTo(Fresh(reg), exc, init, h).1 && Key(exc, name) !in reg1 {
        reg' := reg1[Key(exc, name) := h];
        assert Fresh(reg') == Fresh(reg1)[Key(exc, name) := Some(h)];
      }
    }
  }

  lemma LastName<T>(names: seq<T>)
    requires |names| > 0
    ensures forall n :: n in names <==> n in names[..|names| - 1] || n == names[|names| - 1]
  {
  }

  /** A question to the registry. */
  datatype Query = Query(exc: Class, route: Option<Route>)

  /** Every answer, asked one after the other, is the one the registrations alone would give. */
  predicate Agrees(t: Table, reg: Registrations, mro: Mro, queries: seq<Query>)
    decreases |queries|
  {
    |queries| > 0 ==>
      var q := queries[0];
      && LookupIn(t, mro, q.exc, q.route).1 == Uncached(reg, mro, q.exc, q.route)
      && Agrees(LookupIn(t, mro, q.exc, q.route).0, reg, mro, queries[1..])
  }

  // ---------------------------------------------------------------- exactly when memory is harmless

  /** No handler is registered for exactly this class, under the name or for all routes. */
  predicate Unclaimed(reg: Registrations, c: Class, name: Option<Route>) {
    Key(c, name) !in reg && Key(c, None) !in reg
  }

  predicate NoneBefore(reg: Registrations, ancestors: seq<Class>, i: nat, name: Option<Route>) {
    i <= |ancestors| && forall j :: 0 <= j < i ==> Key(ancestors[j], name) !in reg
  }

  /** A search for `c` on `route`, going up under `name`, comes to its ancestor `i`, about which something
      may be remembered there, and that is not the answer for `c`. */
  ghost predicate MisledBy(reg: Registrations, mro: Mro, c: Class, route: Option<Route>, name: Option<Route>, i: nat) {
    && i < |mro(c)| && NoneBefore(reg, mro(c), i, name) && Unclaimed(reg, mro(c)[i], name)
    && Uncached(reg, mro, mro(c)[i], name) != Uncached(reg, mro, c, route)
  }

  /** Nothing that can be remembered misleads a lookup of `c` on `route`: neither about an ancestor on the
      ways up, nor about `c` itself for all routes. */
  ghost predicate Safe(reg: Registrations, mro: Mro, c: Class, route: Option<Route>) {
    Unclaimed(reg, c, route) ==>
      && (forall i: nat :: !MisledBy(reg, mro, c, route, route, i))
      && (Nearest(reg, mro(c), route).None? ==> forall i: nat :: !MisledBy(reg, mro, c, route, None, i))
      && (Uncached(reg, mro, c, None).Some? ==> Uncached(reg, mro, c, None) == Uncached(reg, mro, c, route))
  }

  /** The table holds the registrations, and beside them only right answers. */
  ghost predicate Remembers(t: Table, reg: Registrations, mro: Mro) {
    && (forall k :: k in reg ==> k in t && t[k] == Some(reg[k]))
    && (forall k :: k in t && k !in reg ==>
          t[k] == Uncached(reg, mro, k.exc, k.route) && Key(k.exc, None) !in reg)
  }

  /** Where a way up stops: nothing before has an entry, so no registration either. */
  lemma {:induction false} FirstKeyIs(t: Table, reg: Registrations, ancestors: seq<Class>, name: Option<Route>)
    returns (i: nat)
    requires forall k :: k in reg ==> k in t
    ensures NoneBefore(reg, ancestors, i, name)
    ensures FirstKey(t, ancestors, name) == if i < |ancestors| then Some(Key(ancestors[i], name)) else None
    ensures i < |ancestors| && Key(ancestors[i], name) in reg ==>
      Nearest(reg, ancestors, name) == Some(reg[Key(ancestors[i], name)])
    ensures i == |ancestors| ==> Nearest(reg, ancestors, name).None?
  {
    i := 0;
    if |ancestors| > 0 && Key(ancestors[0], name) !in t {
      i := FirstKeyIs(t, reg, ancestors[1..], name);
      assert forall j :: 0 <= j < |ancestors| - 1 ==> ancestors[1..][j] == ancestors[j + 1];
      i := i + 1;
      assert forall j :: 1 <= j < i ==> ancestors[j] == ancestors[1..][j - 1];
    }
  }

  /** What a search finds, given a right memory that does not mislead it. */
  lemma SearchAgrees(t: Table, reg: Registrations, mro: Mro, c: Class, route: Option<Route>)
    requires Remembers(t, reg, mro) && Safe(reg, mro, c, route) && Hit(t, c, route).None?
    ensures Unclaimed(reg, c, route)
    ensures LookupIn(t, mro, c, route)
         == (t[Key(c, route) := Uncached(reg, mro, c, route)], Uncached(reg, mro, c, route))
  {
    var i := FirstKeyIs(t, reg, mro(c), route);
    if i < |mro(c)| {
      assert !MisledBy(reg, mro, c, route, route, i);
    } else {
      var j := FirstKeyIs(t, reg, mro(c), None);
      assert !MisledBy(reg, mro, c, route, None, j);
    }
  }

  /** What is stored for the class itself, given such a memory. */
  lemma HitAgrees(t: Table, reg: Registrations, mro: Mro, c: Class, route: Option<Route>)
    requires Remembers(t, reg, mro) && Safe(reg, mro, c, route) && Hit(t, c, route).Some?
    ensures Hit(t, c, route) == Uncached(reg, mro, c, route)
  {
  }

  /** One lookup with a right memory that does not mislead it answers right and keeps the memory right. */
  lemma LookupAgrees(t: Table, reg: Registrations, mro: Mro, c: Class, route: Option<Route>)
    requires Remembers(t, reg, mro) && Safe(reg, mro, c, route)
    ensures LookupIn(t, mro, c, route).1 == Uncached(reg, mro, c, route)
    ensures Remembers(LookupIn(t, mro, c, route).0, reg, mro)
  {
    if Hit(t, c, route).None? {
      SearchAgrees(t, reg, mro, c, route);
    } else {
      HitAgrees(t, reg, mro, c, route);
    }
  }

  lemma {:induction false} SafeQueriesAgree(t: Table, reg: Registrations, mro: Mro, queries: seq<Query>)
    decreases |queries|
    requires Remembers(t, reg, mro)
    requires forall i :: 0 <= i < |queries| ==> Safe(reg, mro, queries[i].exc, queries[i].route)
    ensures Agrees(t, reg, mro, queries)
  {
    if |queries| > 0 {
      LookupAgrees(t, reg, mro, queries[0].exc, queries[0].route);
      SafeQueriesAgree(LookupIn(t, mro, queries[0].exc, queries[0].route).0, reg, mro, queries[1..]);
    }
  }

  /** The memory is invisible to every sequence of lookups if and only if nothing that can be remembered
      misleads a lookup, whatever the inheritance. */
  lemma MemoryIsInvisible(reg: Registrations, mro: Mro)
    ensures (forall queries: seq<Query> :: Agrees(Fresh(reg), reg, mro, queries))
      <==> (forall c, route :: Safe(reg, mro, c, route))
  {
    if forall c, route :: Safe(reg, mro, c, route) {
      forall queries: seq<Query>
        ensures Agrees(Fresh(reg), reg, mro, queries)
      {
        SafeQueriesAgree(Fresh(reg), reg, mro, queries);
      }
    } else {
      var c, route :| !Safe(reg, mro, c, route);
      var queries := Exposed(reg, mro, c, route);
      assert !Agrees(Fresh(reg), reg, mro, queries);
    }
  }

  predicate WithoutRoutes(queries: seq<Query>) {
    forall i :: 0 <= i < |queries| ==> queries[i].route.None?
  }

  /** The same for lookups without a route: only the ancestors' handlers for all routes matter. */
  lemma MemoryIsInvisibleWithoutRoutes(reg: Registrations, mro: Mro)
    ensures (forall queries :: WithoutRoutes(queries) ==> Agrees(Fresh(reg), reg, mro, queries))
      <==> (forall c :: Safe(reg, mro, c, None))
  {
    if forall c :: Safe(reg, mro, c, None) {
      forall queries | WithoutRoutes(queries)
        ensures Agrees(Fresh(reg), reg, mro, queries)
      {
        SafeQueriesAgree(Fresh(reg), reg, mro, queries);
      }
    } else {
      var c :| !Safe(reg, mro, c, None);
      var queries := Exposed(reg, mro, c, None);
      assert WithoutRoutes(queries) && !Agrees(Fresh(reg), reg, mro, queries);
    }
  }

  /** Whenever a lookup can be misled, two lookups are enough to see it. */
  lemma Exposed(reg: Registrations, mro: Mro, c: Class, route: Option<Route>) returns (queries: seq<Query>)
    requires !Safe(reg, mro, c, route)
    ensures |queries| == 2 && !Agrees(Fresh(reg), reg, mro, queries)
    ensures route.None? ==> WithoutRoutes(queries)
  {
    var first: Query;
    if i: nat :| MisledBy(reg, mro, c, route, route, i) {
      first := Query(mro(c)[i], route);
      ExposedByAncestor(reg, mro, c, route, route, i);
    } else if i: nat :| Nearest(reg, mro(c), route).None? && MisledBy(reg, mro, c, route, None, i) {
      first := Query(mro(c)[i], None);
      ExposedByAncestor(reg, mro, c, route, None, i);
    } else {
      first := Query(c, None);
      ExposedByItself(reg, mro, c, route);
    }
    queries := [first, Query(c, route)];
    Disagree(Fresh(reg), reg, mro, first, Query(c, route));
  }

  lemma Disagree(t: Table, reg: Registrations, mro: Mro, first: Query, second: Query)
    requires LookupIn(LookupIn(t, mro, first.exc, first.route).0, mro, second.exc, second.route).1
          != Uncached(reg, mro, second.exc, second.route)
    ensures !Agrees(t, reg, mro, [first, second])
  {
    var queries := [first, second];
    assert queries[1..] == [second];
    assert queries[1..][0] == second;
  }

  /** The first lookup of an unclaimed class remembers its answer, and nothing else. */
  lemma FirstLookup(reg: Registrations, mro: Mro, a: Class, name: Option<Route>)
    requires Unclaimed(reg, a, name)
    ensures LookupIn(Fresh(reg), mro, a, name).0 == Fresh(reg)[Key(a, name) := Uncached(reg, mro, a, name)]
  {
    FreshSearch(reg, mro(a), name);
    FreshSearch(reg, mro(a), None);
  }

  lemma ExposedByItself(reg: Registrations, mro: Mro, c: Class, route: Option<Route>)
    requires Unclaimed(reg, c, route) && Uncached(reg, mro, c, None).Some?
    requires Uncached(reg, mro, c, None) != Uncached(reg, mro, c, route)
    ensures LookupIn(LookupIn(Fresh(reg), mro, c, None).0, mro, c, route).1 != Uncached(reg, mro, c, route)
  {
    FirstLookup(reg, mro, c, None);
  }

  lemma ExposedByAncestor(reg: Registrations, mro: Mro, c: Class, route: Option<Route>, name: Option<Route>, i: nat)
    requires Unclaimed(reg, c, route) && MisledBy(reg, mro, c, route, name, i)
    requires name == route || (name.None? && Nearest(reg, mro(c), route).None?)
    ensures LookupIn(LookupIn(Fresh(reg), mro, mro(c)[i], name).0, mro, c, route).1 != Uncached(reg, mro, c, route)
  {
    var a := mro(c)[i];
    var t := Fresh(reg)[Key(a, name) := Uncached(reg, mro, a, name)];
    FirstLookup(reg, mro, a, name);
    assert Hit(t, c, route).None?;
    if name != route {
      NoEntry(reg, t, mro(c), route);
    }
    FirstEntryAt(t, mro(c), a, name, i);
  }

  lemma {:induction false} FreshSearch(reg: Registrations, ancestors: seq<Class>, name: Option<Route>)
    ensures var f := FirstKey(Fresh(reg), ancestors, name);
      Nearest(reg, ancestors, name) == if f.Some? then Fresh(reg)[f.value] else None
    ensures FirstKey(Fresh(reg), ancestors, name).None? <==> Nearest(reg, ancestors, name).None?
  {
    if |ancestors| > 0 && Key(ancestors[0], name) !in reg {
      FreshSearch(reg, ancestors[1..], name);
    }
  }

  /** Without a registration on a way up, a table with no other entries there has none. */
  lemma {:induction false} NoEntry(reg: Registrations, t: Table, ancestors: seq<Class>, name: Option<Route>)
    requires Nearest(reg, ancestors, name).None?
    requires forall k :: k in t && k.route == name ==> k in reg
    ensures FirstKey(t, ancestors, name).None?
  {
    if |ancestors| > 0 {
      NoEntry(reg, t, ancestors[1..], name);
    }
  }

  lemma {:induction false} FirstEntryAt(t: Table, ancestors: seq<Class>, a: Class, name: Option<Route>, i: nat)
    requires i < |ancestors| && ancestors[i] == a && Key(a, name) in t
    requires forall j :: 0 <= j < i && Key(ancestors[j], name) in t ==> ancestors[j] == a
    ensures FirstKey(t, ancestors, name) == Some(Key(a, name))
  {
    if Key(ancestors[0], name) !in t {
      assert forall j :: 0 <= j < |ancestors| - 1 ==> ancestors[1..][j] == ancestors[j + 1];
      FirstEntryAt(t, ancestors[1..], a, name, i - 1);
    }
  }

  // ---------------------------------------------------------------- what it means with one parent

  /** Single inheritance: the ancestors of an ancestor are the rest of the list. */
  ghost predicate SingleInheritance(mro: Mro) {
    forall c, i :: 0 <= i < |mro(c)| ==> mro(mro(c)[i]) == mro(c)[i..]
  }

  lemma {:induction false} NearestBehind(reg: Registrations, ancestors: seq<Class>, i: nat, name: Option<Route>)
    requires NoneBefore(reg, ancestors, i, name)
    ensures Nearest(reg, ancestors, name) == Nearest(reg, ancestors[i..], name)
  {
    if i > 0 {
      assert forall j :: 0 <= j < |ancestors| - 1 ==> ancestors[1..][j] == ancestors[j + 1];
      NearestBehind(reg, ancestors[1..], i - 1, name);
      assert ancestors[1..][i - 1..] == ancestors[i..];
    } else {
      assert ancestors[0..] == ancestors;
    }
  }

  lemma NotMisled(reg: Registrations, mro: Mro, c: Class, name: Option<Route>, i: nat)
    requires Unclaimed(reg, c, name) && i < |mro(c)| && mro(mro(c)[i]) == mro(c)[i..]
    requires Nearest(reg, mro(c), None) == Nearest(reg, mro(c)[i..], None) || name.None?
    ensures !MisledBy(reg, mro, c, name, name, i)
  {
    if NoneBefore(reg, mro(c), i, name) {
      NearestBehind(reg, mro(c), i, name);
    }
  }

  /** With single inheritance, lookups without a route always agree, whatever is registered. */
  lemma LookupsWithoutRouteAgree(reg: Registrations, mro: Mro, queries: seq<Query>)
    requires SingleInheritance(mro) && WithoutRoutes(queries)
    ensures Agrees(Fresh(reg), reg, mro, queries)
  {
    forall c
      ensures Safe(reg, mro, c, None)
    {
      forall i: nat | Unclaimed(reg, c, None) && i < |mro(c)|
        ensures !MisledBy(reg, mro, c, None, None, i)
      {
        NotMisled(reg, mro, c, None, i);
      }
    }
    SafeQueriesAgree(Fresh(reg), reg, mro, queries);
  }

  /** With single inheritance and no handler registered for all routes, all lookups agree. */
  lemma RouteHandlersAloneAgree(reg: Registrations, mro: Mro, queries: seq<Query>)
    requires SingleInheritance(mro)
    requires forall k :: k in reg ==> k.route.Some?
    ensures Agrees(Fresh(reg), reg, mro, queries)
  {
    forall c
      ensures Nearest(reg, mro(c), None).None?
    {
      NoneRegistered(reg, mro(c), None);
    }
    forall c, route
      ensures Safe(reg, mro, c, route)
    {
      forall i: nat | Unclaimed(reg, c, route) && i < |mro(c)|
        ensures !MisledBy(reg, mro, c, route, route, i)
      {
        NotMisled(reg, mro, c, route, i);
      }
    }
    SafeQueriesAgree(Fresh(reg), reg, mro, queries);
  }

  lemma NoneRegistered(reg: Registrations, ancestors: seq<Class>, name: Option<Route>)
    requires forall k :: k in reg ==> k.route != name
    ensures Nearest(reg, ancestors, name).None?
  {
  }

  /** With single inheritance, a lookup on a route is misled exactly when no ancestor has a handler for the
      route and an unclaimed ancestor lies above a handler for all routes that answers for the class, or
      when the answer for the route is not the one for all routes and both exist. */
  lemma SafeWithOneParent(reg: Registrations, mro: Mro, c: Class, r: Route)
    requires SingleInheritance(mro)
    ensures var route := Some(r); var up := mro(c);
      Safe(reg, mro, c, route) <==>
        (Unclaimed(reg, c, route) ==>
          && (Nearest(reg, up, route).None? ==>
                forall i :: 0 <= i < |up| && Unclaimed(reg, up[i], route) ==>
                  Nearest(reg, up, None) == Nearest(reg, up[i..], None))
          && (Nearest(reg, up, route).Some? && Nearest(reg, up, None).Some? ==>
                Nearest(reg, up, route) == Nearest(reg, up, None)))
  {
    var route, up := Some(r), mro(c);
    forall i | 0 <= i < |up|
      ensures mro(up[i]) == up[i..]
      ensures NoneBefore(reg, up, i, route) ==> Nearest(reg, up, route) == Nearest(reg, up[i..], route)
      ensures NoneBefore(reg, up, i, None) ==> Nearest(reg, up, None) == Nearest(reg, up[i..], None)
    {
      if NoneBefore(reg, up, i, route) {
        NearestBehind(reg, up, i, route);
      }
      if NoneBefore(reg, up, i, None) {
        NearestBehind(reg, up, i, None);
      }
    }
    if Nearest(reg, up, route).None? {
      NothingOnTheWay(reg, up, route);
    }
    if Unclaimed(reg, c, route) && Nearest(reg, up, route).None? {
      forall i | 0 <= i < |up| && Unclaimed(reg, up[i], route)
        ensures MisledBy(reg, mro, c, route, route, i) <==> Nearest(reg, up, None) != Nearest(reg, up[i..], None)
      {
      }
    }
  }

  lemma {:induction false} NothingOnTheWay(reg: Registrations, ancestors: seq<Class>, name: Option<Route>)
    requires Nearest(reg, ancestors, name).None?
    ensures NoneBefore(reg, ancestors, |ancestors|, name)
  {
    if |ancestors| > 0 {
      NothingOnTheWay(reg, ancestors[1..], name);
      assert forall j :: 1 <= j < |ancestors| ==> ancestors[j] == ancestors[1..][j - 1];
    }
  }

  // ---------------------------------------------------------------- two ways to see the memory

  /** Classes 0 > 1 > 2 in a line: BaseException, a middle class and its subclass. */
  function Line(c: Class): seq<Class> {
    if c == 0 then [0] else if c == 1 then [1, 0] else if c == 2 then [2, 1, 0] else [c, 0]
  }

  /** One handler for all routes is enough: after the base class failed to be handled on a route, a
      handler registered for the middle class no longer answers for its subclass there. */
  lemma FailedLookupHidesHandler(r: Route, h: Handler)
    ensures var reg: Registrations := map[Key(1, None) := h];
      var t := LookupIn(Fresh(reg), Line, 0, Some(r)).0;
      LookupIn(t, Line, 2, Some(r)).1 == None && Uncached(reg, Line, 2, Some(r)) == Some(h)
  {
    var reg: Registrations := map[Key(1, None) := h];
    var t0 := Fresh(reg);
    Walk(t0, 0, [], Some(r));
    Walk(t0, 0, [], None);
    assert Line(0) == [0] + [];
    var t := t0[Key(0, Some(r)) := None];
    assert LookupIn(t0, Line, 0, Some(r)).0 == t;
    Walk(t, 2, [1, 0], Some(r));
    Walk(t, 1, [0], Some(r));
    Walk(t, 0, [], Some(r));
    assert Key(0, Some(r)) in t && Key(1, Some(r)) !in t && Key(2, Some(r)) !in t;
    assert FirstKey(t, Line(2), Some(r)) == Some(Key(0, Some(r)));
    Climb(reg, 2, [1, 0], Some(r));
    Climb(reg, 1, [0], Some(r));
    Climb(reg, 0, [], Some(r));
    Climb(reg, 2, [1, 0], None);
    Climb(reg, 1, [0], None);
  }

  lemma Walk(t: Table, c: Class, rest: seq<Class>, name: Option<Route>)
    ensures FirstKey(t, [c] + rest, name) == if Key(c, name) in t then Some(Key(c, name)) else FirstKey(t, rest, name)
  {
    assert ([c] + rest)[1..] == rest;
  }

  lemma Climb(reg: Registrations, c: Class, rest: seq<Class>, name: Option<Route>)
    ensures Nearest(reg, [c] + rest, name)
         == if Key(c, name) in reg then Some(reg[Key(c, name)]) else Nearest(reg, rest, name)
  {
    assert ([c] + rest)[1..] == rest;
  }

  /** Class 3 inherits from 1 and 2, which both inherit from 0. */
  function Diamond(c: Class): seq<Class> {
    if c == 0 then [0]
    else if c == 3 then [3, 1, 2, 0]
    else [c, 0]
  }

  /** With two parents, a remembered failure for the first one hides the handler of the second. */
  lemma TwoParentsHideHandler(h: Handler)
    ensures var reg: Registrations := map[Key(2, None) := h];
      var t := LookupIn(Fresh(reg), Diamond, 1, None).0;
      LookupIn(t, Diamond, 3, None).1 == None && Uncached(reg, Diamond, 3, None) == Some(h)
  {
    var reg: Registrations := map[Key(2, None) := h];
    var t0 := Fresh(reg);
    Walk(t0, 1, [0], None);
    Walk(t0, 0, [], None);
    var t := t0[Key(1, None) := None];
    assert LookupIn(t0, Diamond, 1, None).0 == t;
    Walk(t, 3, [1, 2, 0], None);
    Walk(t, 1, [2, 0], None);
    Climb(reg, 3, [1, 2, 0], None);
    Climb(reg, 1, [2, 0], None);
    Climb(reg, 2, [0], None);
  }
}
