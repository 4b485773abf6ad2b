/**
  The handler table of `Server`: a map from method to a map from exact
  path to handler. Handlers are lambdas in the program; here each one is an
  opaque identifier, so the table records which handler a route leads to
  and nothing about what the handler writes.
*/
module Handlers {
  import opened Wrappers
  import opened Methods

  /** An opaque name for one registered handler. */
  type HandlerId = nat

  type Table = map<Method, map<string, HandlerId>>

  /** A freshly constructed server has no handlers. */
  const Empty: Table := map[]

  /** `handlers.get(m).get(path)`, with a missing method or path as None. */
  function Lookup(h: Table, m: Method, path: string): (r: Option<HandlerId>)
    ensures r.Some? <==> m in h && path in h[m]
    ensures r.Some? ==> r.value == h[m][path]
  {
    if m in h && path in h[m] then Some(h[m][path]) else None
  }

  /**
    `addHandler(m, path, handler)`: the inner map for `m` is created on
    first use, then `path` is bound to the handler, replacing any earlier
    binding of the same route.
   */
  function AddHandler(h: Table, m: Method, path: string, id: HandlerId): (r: Table)
    ensures r.Keys == h.Keys + {m}
    ensures Lookup(r, m, path) == Some(id)
    ensures forall m', p' :: (m' != m || p' != path) ==> Lookup(r, m', p') == Lookup(h, m', p')
    ensures m in h ==> r[m].Keys == h[m].Keys + {path}
  {
    var inner := if m in h then h[m] else map[];
    h[m := inner[path := id]]
  }

  /** Registering a route again replaces the earlier handler: the last registration wins. */
  lemma AddHandlerLastWins(h: Table, m: Method, path: string, first: HandlerId, second: HandlerId)
    ensures AddHandler(AddHandler(h, m, path, first), m, path, second) == AddHandler(h, m, path, second)
  {
    var r1 := AddHandler(AddHandler(h, m, path, first), m, path, second);
    var r2 := AddHandler(h, m, path, second);
    assert r1[m] == r2[m];
  }

  /** Registrations of different routes do not interfere, so their order does not matter. */
  lemma AddHandlerCommutes(h: Table, m1: Method, p1: string, id1: HandlerId,
                           m2: Method, p2: string, id2: HandlerId)
    requires m1 != m2 || p1 != p2
    ensures AddHandler(AddHandler(h, m1, p1, id1), m2, p2, id2)
         == AddHandler(AddHandler(h, m2, p2, id2), m1, p1, id1)
  {
    var r1 := AddHandler(AddHandler(h, m1, p1, id1), m2, p2, id2);
    var r2 := AddHandler(AddHandler(h, m2, p2, id2), m1, p1, id1);
    forall m, p ensures Lookup(r1, m, p) == Lookup(r2, m, p) {
      if m == m1 && p == p1 {
        assert Lookup(r1, m, p) == Some(id1);
      } else if m == m2 && p == p2 {
        assert Lookup(r2, m, p) == Some(id2);
      } else {
        assert Lookup(r1, m, p) == Lookup(h, m, p);
      }
    }
    SameLookupsSameTable(r1, r2);
  }

  /** Two tables with the same methods that route every request alike are equal. */
  lemma SameLookupsSameTable(a: Table, b: Table)
    requires a.Keys == b.Keys
    requires forall m, p :: Lookup(a, m, p) == Lookup(b, m, p)
    ensures a == b
  {
    forall m | m in a ensures a[m] == b[m] {
      forall p ensures p in a[m] <==> p in b[m] {
        assert Lookup(a, m, p) == Lookup(b, m, p);
      }
      forall p | p in a[m] ensures a[m][p] == b[m][p] {
        assert Lookup(a, m, p) == Lookup(b, m, p);
      }
    }
  }

  /** One `addHandler(method, path, handler)` call. */
  datatype Registration = Registration(m: Method, path: string, id: HandlerId)

  /** The table after the registrations, made in order. */
  function RegisterAll(h: Table, regs: seq<Registration>): Table
    decreases |regs|
  {
    if |regs| == 0 then h
    else
      var last := regs[|regs| - 1];
      AddHandler(RegisterAll(h, regs[..|regs| - 1]), last.m, last.path, last.id)
  }

  /** The handler of the last registration of the route, if there was one. */
  function LastFor(regs: seq<Registration>, m: Method, path: string): Option<HandlerId>
    decreases |regs|
  {
    if |regs| == 0 then None
    else
      var last := regs[|regs| - 1];
      if last.m == m && last.path == path then Some(last.id) else LastFor(regs[..|regs| - 1], m, path)
  }

  /**
    After any sequence of registrations a route leads to the handler of its
    last registration, and a route never registered keeps what it had.
   */
  lemma {:induction false} RegisteredLastWins(h: Table, regs: seq<Registration>, m: Method, path: string)
    ensures Lookup(RegisterAll(h, regs), m, path)
         == if LastFor(regs, m, path).Some? then LastFor(regs, m, path) else Lookup(h, m, path)
    decreases |regs|
  {
    if |regs| > 0 {
      RegisteredLastWins(h, regs[..|regs| - 1], m, path);
    }
  }

  /** Every method in the table has at least one path. */
  predicate NoEmptyInner(h: Table)
  {
    forall m :: m in h ==> |h[m]| > 0
  }

  /** A table built only by `addHandler` never holds a method without a path. */
  lemma AddHandlerKeepsInnerMapsNonEmpty(h: Table, m: Method, path: string, id: HandlerId)
    requires NoEmptyInner(h)
    ensures NoEmptyInner(AddHandler(h, m, path, id))
  {
    var r := AddHandler(h, m, path, id);
    assert path in r[m];
  }
}
