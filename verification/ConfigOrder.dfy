/**
 Whether the order of the environment matters to `Config::from_env`. The ignore
 variables are folded, so their order never does; the two counts are looked up by
 name, and the first of several entries wins.
 */
module ConfigOrder {
  import opened Results
  import opened Protocol
  import opened Config

  predicate Rearranged(p: seq<Var>, vars: seq<Var>) {
    multiset(p) == multiset(vars)
  }

  ghost predicate OrderIrrelevant(vars: seq<Var>, parse: string -> Option<nat>) {
    forall p :: Rearranged(p, vars) ==> Settle(p, parse) == Settle(vars, parse)
  }

  /** All entries of a name mean the same. */
  predicate Agree(vars: seq<Var>, parse: string -> Option<nat>, name: string) {
    forall u, v :: u in vars && v in vars && u.0 == name && v.0 == name ==>
      Good(parse, u.1) == Good(parse, v.1)
  }

  /** The name is set, and every entry of it is an error. */
  predicate AllBad(vars: seq<Var>, parse: string -> Option<nat>, name: string) {
    && (exists v :: v in vars && v.0 == name)
    && (forall v :: v in vars && v.0 == name ==> Good(parse, v.1).None?)
  }

  function Good(parse: string -> Option<nat>, s: string): Option<nat> {
    match Reading(parse, s)
    case Ok(n) => Some(n)
    case Err(_) => None
  }

  function GoodCount(vars: seq<Var>, parse: string -> Option<nat>, name: string, default: nat): Option<nat> {
    match Positive(vars, parse, name, default)
    case Ok(n) => Some(n)
    case Err(_) => None
  }

  // ---------- lookups ----------

  lemma {:induction false} LookupFinds(vars: seq<Var>, name: string)
    ensures Lookup(vars, name).None? <==> forall v :: v in vars ==> v.0 != name
    ensures Lookup(vars, name).Some? ==> (name, Lookup(vars, name).value) in vars
  {
    if vars != [] {
      LookupFinds(vars[1..], name);
      assert vars == [vars[0]] + vars[1..];
    }
  }

  lemma {:induction false} LookupSkips(a: seq<Var>, v: Var, b: seq<Var>, name: string)
    requires v.0 != name
    ensures Lookup(a + [v] + b, name) == Lookup(a + b, name)
  {
    if a == [] {
      assert [] + [v] + b == [v] + b && ([v] + b)[1..] == b && [] + b == b;
    } else {
      assert (a + [v] + b)[1..] == a[1..] + [v] + b && (a + b)[1..] == a[1..] + b;
      LookupSkips(a[1..], v, b, name);
    }
  }

  /** Moving one entry to the front makes it the one found, and leaves other names alone. */
  lemma MovedToFront(vars: seq<Var>, v: Var) returns (p: seq<Var>)
    requires v in vars
    ensures Rearranged(p, vars) && Lookup(p, v.0) == Some(v.1)
    ensures forall name :: name != v.0 ==> Lookup(p, name) == Lookup(vars, name)
  {
    var k :| 0 <= k < |vars| && vars[k] == v;
    var a, b := vars[..k], vars[k + 1..];
    assert vars == a + [v] + b;
    p := [v] + (a + b);
    assert p[1..] == a + b;
    assert multiset(p) == multiset([v]) + multiset(a) + multiset(b) == multiset(vars);
    forall name | name != v.0
      ensures Lookup(p, name) == Lookup(vars, name)
    {
      LookupSkips(a, v, b, name);
    }
  }

  // ---------- the order does not matter if ... ----------

  lemma SameEntries(p: seq<Var>, vars: seq<Var>)
    requires Rearranged(p, vars)
    ensures forall v :: v in p <==> v in vars
  {
    assert forall v :: v in p <==> v in multiset(p);
    assert forall v :: v in vars <==> v in multiset(vars);
  }

  /** The ignore variables give the same answer in any order, duplicates included. */
  lemma IgnoredInAnyOrder(p: seq<Var>, vars: seq<Var>)
    requires Rearranged(p, vars)
    ensures EffectsOk(p) == EffectsOk(vars)
    ensures IgnoredTypes(p) == IgnoredTypes(vars)
  {
    SameEntries(p, vars);
    assert forall ty :: IsIgnored(p, ty) == IsIgnored(vars, ty);
  }

  lemma AgreedCount(p: seq<Var>, vars: seq<Var>, parse: string -> Option<nat>, name: string, default: nat)
    requires Rearranged(p, vars) && Agree(vars, parse, name)
    ensures GoodCount(p, parse, name, default) == GoodCount(vars, parse, name, default)
  {
    SameEntries(p, vars);
    LookupFinds(p, name);
    LookupFinds(vars, name);
  }

  lemma BadCount(p: seq<Var>, vars: seq<Var>, parse: string -> Option<nat>, name: string, default: nat)
    requires Rearranged(p, vars) && AllBad(vars, parse, name)
    ensures GoodCount(p, parse, name, default) == None
  {
    SameEntries(p, vars);
    LookupFinds(p, name);
  }

  /** Whatever the order, the outcome is an error; or both counts mean one thing. */
  predicate Settled(vars: seq<Var>, parse: string -> Option<nat>) {
    || !EffectsOk(vars)
    || AllBad(vars, parse, WORKER_COUNT)
    || AllBad(vars, parse, HANDOFF_TIMEOUT)
    || (Agree(vars, parse, WORKER_COUNT) && Agree(vars, parse, HANDOFF_TIMEOUT))
  }

  lemma SettledInAnyOrder(p: seq<Var>, vars: seq<Var>, parse: string -> Option<nat>)
    requires Rearranged(p, vars) && Settled(vars, parse)
    ensures Settle(p, parse) == Settle(vars, parse)
  {
    IgnoredInAnyOrder(p, vars);
    if !EffectsOk(vars) {
    } else if AllBad(vars, parse, WORKER_COUNT) {
      BadCount(p, vars, parse, WORKER_COUNT, 8);
      BadCount(vars, vars, parse, WORKER_COUNT, 8);
    } else if AllBad(vars, parse, HANDOFF_TIMEOUT) {
      BadCount(p, vars, parse, HANDOFF_TIMEOUT, 3);
      BadCount(vars, vars, parse, HANDOFF_TIMEOUT, 3);
    } else {
      AgreedCount(p, vars, parse, WORKER_COUNT, 8);
      AgreedCount(p, vars, parse, HANDOFF_TIMEOUT, 3);
    }
  }

  // ---------- ... and only if ----------

  /** An order in which the count called `name` is not an error. */
  lemma GoodOrder(vars: seq<Var>, parse: string -> Option<nat>, name: string, default: nat) returns (p: seq<Var>)
    requires !AllBad(vars, parse, name)
    ensures Rearranged(p, vars) && GoodCount(p, parse, name, default).Some?
    ensures forall other :: other != name ==> Lookup(p, other) == Lookup(vars, other)
  {
    if v :| v in vars && v.0 == name && Good(parse, v.1).Some? {
      p := MovedToFront(vars, v);
    } else {
      p := vars;
      LookupFinds(vars, name);
    }
  }

  /** Two orders that make the count called `name` mean different things. */
  lemma DisagreeingOrders(vars: seq<Var>, parse: string -> Option<nat>, name: string, default: nat)
    returns (p: seq<Var>, q: seq<Var>)
    requires !Agree(vars, parse, name)
    ensures Rearranged(p, vars) && Rearranged(q, vars)
    ensures GoodCount(p, parse, name, default) != GoodCount(q, parse, name, default)
    ensures forall other :: other != name ==> Lookup(p, other) == Lookup(vars, other) == Lookup(q, other)
  {
    var u, v :| u in vars && v in vars && u.0 == name && v.0 == name && Good(parse, u.1) != Good(parse, v.1);
    p := MovedToFront(vars, u);
    q := MovedToFront(vars, v);
  }

  lemma UnsettledOrders(vars: seq<Var>, parse: string -> Option<nat>) returns (p: seq<Var>, q: seq<Var>)
    requires !Settled(vars, parse)
    ensures Rearranged(p, vars) && Rearranged(q, vars) && Settle(p, parse) != Settle(q, parse)
  {
    if !Agree(vars, parse, WORKER_COUNT) {
      var g := GoodOrder(vars, parse, HANDOFF_TIMEOUT, 3);
      SameEntries(g, vars);
      p, q := DisagreeingOrders(g, parse, WORKER_COUNT, 8);
    } else {
      var g := GoodOrder(vars, parse, WORKER_COUNT, 8);
      SameEntries(g, vars);
      p, q := DisagreeingOrders(g, parse, HANDOFF_TIMEOUT, 3);
    }
    IgnoredInAnyOrder(p, vars);
    IgnoredInAnyOrder(q, vars);
  }

  /**
   The order of the environment is irrelevant exactly when some variable is an error
   in every order, or no count is set twice to values that mean different things.
   */
  lemma OrderIrrelevantIff(vars: seq<Var>, parse: string -> Option<nat>)
    ensures OrderIrrelevant(vars, parse) <==> Settled(vars, parse)
  {
    if Settled(vars, parse) {
      forall p | Rearranged(p, vars)
        ensures Settle(p, parse) == Settle(vars, parse)
      {
        SettledInAnyOrder(p, vars, parse);
      }
    } else {
      var p, q := UnsettledOrders(vars, parse);
    }
  }

  /** Without duplicate names the order never matters. */
  lemma NoDuplicatesNoOrder(vars: seq<Var>, parse: string -> Option<nat>)
    requires forall j, k :: 0 <= j < k < |vars| ==> vars[j].0 != vars[k].0
    ensures OrderIrrelevant(vars, parse)
  {
    OrderIrrelevantIff(vars, parse);
  }

  /** It can matter: the same two entries in either order, one of them a valid count. */
  lemma OrderCanMatter(parse: string -> Option<nat>, good: string, bad: string)
    requires Good(parse, good).Some? && Good(parse, bad).None?
    ensures Settle([(WORKER_COUNT, good), (WORKER_COUNT, bad)], parse).Some?
    ensures Settle([(WORKER_COUNT, bad), (WORKER_COUNT, good)], parse).None?
  {
    var vars := [(WORKER_COUNT, good), (WORKER_COUNT, bad)];
    assert WORKER_COUNT[6] == 'W' && IGNORE_PREFIX[6] == 'I' && HANDOFF_TIMEOUT[6] == 'H';
    assert EffectsOk(vars);
    LookupFinds(vars, HANDOFF_TIMEOUT);
  }
}
