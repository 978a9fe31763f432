/** The authority a hop, block or token confers, and the attenuation-only rule
    (delegation/attenuation.go, delegation/delegation.go). */
module Grants {
  import opened Common

  datatype Budget = Budget(limit: int, unit: string)

  /** Empty lists are the wildcard, a missing notAfter or budget is unbounded; times are whole
      Unix seconds. */
  datatype Grant = Grant(tools: seq<string>, servers: seq<string>, notAfter: Option<int>, budget: Option<Budget>)

  // ---------------------------------------------------------------- the rule the code applies

  predicate Within(parent: seq<string>, child: seq<string>) {
    parent == [] || (child != [] && forall x :: x in child ==> x in parent)
  }

  predicate ExpiryWithin(parent: Option<int>, child: Option<int>) {
    parent.None? || (child.Some? && child.value <= parent.value)
  }

  predicate BudgetWithin(parent: Option<Budget>, child: Option<Budget>) {
    parent.None? || (child.Some? && child.value.unit == parent.value.unit && child.value.limit <= parent.value.limit)
  }

  predicate Attenuates(parent: Grant, child: Grant) {
    && Within(parent.tools, child.tools)
    && Within(parent.servers, child.servers)
    && ExpiryWithin(parent.notAfter, child.notAfter)
    && BudgetWithin(parent.budget, child.budget)
  }

  predicate Expired(g: Grant, now: int) {
    g.notAfter.Some? && now >= g.notAfter.value
  }

  datatype Widening = ToWildcard | NotGranted(entry: string)

  /** Accepts exactly the narrowings, and otherwise says what widens. */
  method Subset(parent: seq<string>, child: seq<string>) returns (w: Option<Widening>)
    ensures w.None? <==> Within(parent, child)
    ensures w == Some(ToWildcard) <==> parent != [] && child == []
    ensures w.Some? && w.value.NotGranted? ==> w.value.entry in child && w.value.entry !in parent
  {
    if |parent| == 0 {
      return None;
    }
    if |child| == 0 {
      return Some(ToWildcard);
    }
    var allowed: set<string> := {};
    for i := 0 to |parent|
      invariant forall x :: x in allowed <==> x in parent[..i]
    {
      allowed := allowed + {parent[i]};
    }
    assert parent[..|parent|] == parent;
    for i := 0 to |child|
      invariant forall k :: 0 <= k < i ==> child[k] in parent
    {
      if child[i] !in allowed {
        return Some(NotGranted(child[i]));
      }
    }
    return None;
  }

  datatype AttenuationError =
    | Tools(w: Widening) | Servers(w: Widening)
    | ExpiryNotNarrowed | BudgetRemoved | BudgetUnitChanged | BudgetRaised

  method CheckAttenuates(parent: Grant, child: Grant) returns (e: Option<AttenuationError>)
    ensures e.None? <==> Attenuates(parent, child)
    ensures e.Some? && e.value.Tools? ==> !Within(parent.tools, child.tools)
    ensures e.Some? && e.value.Servers? ==> !Within(parent.servers, child.servers)
    ensures e == Some(ExpiryNotNarrowed) ==> !ExpiryWithin(parent.notAfter, child.notAfter)
    ensures e == Some(BudgetRemoved) ==> parent.budget.Some? && child.budget.None?
    ensures e == Some(BudgetUnitChanged) ==> parent.budget.Some? && child.budget.Some?
                                             && parent.budget.value.unit != child.budget.value.unit
    ensures e == Some(BudgetRaised) ==> parent.budget.Some? && child.budget.Some?
                                        && parent.budget.value.limit < child.budget.value.limit
  {
    var t := Subset(parent.tools, child.tools);
    if t.Some? {
      return Some(Tools(t.value));
    }
    var s := Subset(parent.servers, child.servers);
    if s.Some? {
      return Some(Servers(s.value));
    }
    if parent.notAfter.Some? {
      if child.notAfter.None? || child.notAfter.value > parent.notAfter.value {
        return Some(ExpiryNotNarrowed);
      }
    }
    if parent.budget.Some? {
      if child.budget.None? {
        return Some(BudgetRemoved);
      }
      if child.budget.value.unit != parent.budget.value.unit {
        return Some(BudgetUnitChanged);
      }
      if child.budget.value.limit > parent.budget.value.limit {
        return Some(BudgetRaised);
      }
    }
    return None;
  }

  // ---------------------------------------------------------------- what a grant means

  /** Something a delegate might do: call a tool on a server at a moment, spending an amount. */
  datatype Deed = Deed(tool: string, server: string, at: int, unit: string, amount: int)

  predicate Admits(entries: seq<string>, x: string) {
    entries == [] || x in entries
  }

  predicate BudgetCovers(b: Option<Budget>, unit: string, amount: int) {
    b.None? || (b.value.unit == unit && amount <= b.value.limit)
  }

  predicate Permits(g: Grant, d: Deed) {
    && Admits(g.tools, d.tool) && Admits(g.servers, d.server)
    && (g.notAfter.None? || d.at < g.notAfter.value) && BudgetCovers(g.budget, d.unit, d.amount)
  }

  function Longest(l: seq<string>): (n: nat)
    ensures forall x :: x in l ==> |x| <= n
  {
    if l == [] then 0 else
    var n := Longest(l[1..]);
    assert forall x :: x in l ==> x == l[0] || x in l[1..];
    if |l[0]| > n then |l[0]| else n
  }

  /** A name that is not in the list. */
  function Stranger(l: seq<string>): (s: string)
    ensures s !in l
  {
    seq(Longest(l) + 1, _ => 'x')
  }

  /** An entry of the child's list, from outside the parent's if there is one. */
  function PickEntry(parent: seq<string>, child: seq<string>): (x: string)
    requires child != []
    ensures x in child && (x in parent ==> forall y :: y in child ==> y in parent)
  {
    if |child| == 1 || child[0] !in parent then child[0] else
    assert forall y :: y in child ==> y == child[0] || y in child[1..];
    PickEntry(parent, child[1..])
  }

  /** A name the child admits and, if the child is not a narrowing, the parent does not. */
  function Pick(parent: seq<string>, child: seq<string>): (x: string)
    ensures Admits(child, x)
    ensures !Within(parent, child) ==> !Admits(parent, x)
  {
    if child == [] then Stranger(parent) else PickEntry(parent, child)
  }

  /** A deed the child permits, and the parent does not if the child is not a narrowing. */
  function Excess(parent: Grant, child: Grant): (d: Deed)
    ensures Permits(child, d)
    ensures !Attenuates(parent, child) ==> !Permits(parent, d)
  {
    var bound := if parent.notAfter.Some? then parent.notAfter.value else 0;
    var at := if child.notAfter.Some? then child.notAfter.value - 1 else bound;
    var unit := if child.budget.Some? then child.budget.value.unit else "";
    var amount := if child.budget.Some? then child.budget.value.limit
                  else if parent.budget.Some? then parent.budget.value.limit + 1 else 0;
    Deed(Pick(parent.tools, child.tools), Pick(parent.servers, child.servers), at, unit, amount)
  }

  /** The attenuation rule is exactly containment of authority: it lets a child through if and only
      if everything the child permits, the parent permits. */
  lemma AttenuationIsContainment(parent: Grant, child: Grant)
    ensures Attenuates(parent, child) <==> forall d :: Permits(child, d) ==> Permits(parent, d)
  {
    var d := Excess(parent, child);
  }

  /** A grant has expired exactly when there is nothing left that it permits at that moment. */
  lemma ExpiredExactly(g: Grant, now: int)
    ensures Expired(g, now) <==> forall d: Deed :: d.at == now ==> !Permits(g, d)
  {
    var d := Excess(g, g).(at := now);
    assert Permits(g, d) <==> !Expired(g, now);
  }

  lemma AttenuatesTransitive(a: Grant, b: Grant, c: Grant)
    requires Attenuates(a, b) && Attenuates(b, c)
    ensures Attenuates(a, c)
  {
  }

  // ---------------------------------------------------------------- what a signature covers

  /** The canonical form of a grant: sorted lists are known by their multisets, and a missing
      notAfter is encoded as 0. */
  datatype Canonical = Canonical(tools: multiset<string>, servers: multiset<string>, notAfter: int, budget: Option<Budget>)

  function Canon(g: Grant): Canonical {
    Canonical(multiset(g.tools), multiset(g.servers), if g.notAfter.Some? then g.notAfter.value else 0, g.budget)
  }

  /** An expiry at the Unix epoch signs like no expiry at all. */
  predicate EpochBound(g: Grant) {
    g.notAfter == Some(0)
  }

  lemma SameCanonSamePermits(g: Grant, h: Grant, d: Deed)
    requires Canon(g) == Canon(h) && EpochBound(g) == EpochBound(h)
    ensures Permits(g, d) == Permits(h, d)
  {
    SameMembers(g.tools, h.tools, d.tool);
    SameMembers(g.servers, h.servers, d.server);
  }

  /** Grants that sign alike confer the same authority exactly when both are bounded at the epoch or
      neither is. */
  lemma SameCanonSameMeaning(g: Grant, h: Grant)
    requires Canon(g) == Canon(h)
    ensures (forall d :: Permits(g, d) == Permits(h, d)) <==> EpochBound(g) == EpochBound(h)
  {
    if EpochBound(g) == EpochBound(h) {
      forall d
        ensures Permits(g, d) == Permits(h, d)
      {
        SameCanonSamePermits(g, h, d);
      }
    } else if EpochBound(g) {
      AttenuationIsContainment(g, h);
    } else {
      AttenuationIsContainment(h, g);
    }
  }

  lemma SameMembers(a: seq<string>, b: seq<string>, x: string)
    requires multiset(a) == multiset(b)
    ensures (a == []) == (b == []) && (x in a <==> x in b)
  {
    assert |multiset(a)| == |a| && |multiset(b)| == |b|;
    assert x in a <==> x in multiset(a);
    assert x in b <==> x in multiset(b);
  }
}
