/** Numbering the species and transition states of a reaction network
    (vizchemoton/get_crn_html_xtb.py, the loop over the pathfinder's
    reactions, lines 77-157).

    The script walks the reactions of the pathfinder graph. Each side of a
    reaction with at most two species becomes one node key: the species id
    itself, or, for two species, their ids sorted and joined with "//". A
    transition state becomes the key `<structure id>;`. A dictionary hands
    each key, the first time it is seen, the next integer starting from 1.
    Every reaction whose selected elementary step has all its barriers yields
    one triple (reactant node, product node, transition-state node or None).

    The database answers are inputs: a `Reaction` carries its two sides as
    species id strings and the elementary step the graph selected, if any,
    together with the energy and barriers looked up for it.
 */
module Network {
  import opened Wrappers
  import opened Text
  import Barriers

  /** Joins the two species of a bimolecular side (line 113). */
  const AdductSeparator: string := "//"

  /** Marks a transition-state key (line 151). */
  const TsSuffix: string := ";"

  datatype StepKind = Barrierless | ThroughTransitionState(ts: string)

  /** The elementary step the graph selected, and the electronic-energy
      lookup `get_energy_and_barriers` makes for it. */
  datatype ElementaryStep = ElementaryStep(kind: StepKind, lookup: Barriers.Lookup)

  datatype Reaction = Reaction(lhs: seq<string>, rhs: seq<string>, step: Option<ElementaryStep>)

  /** One entry of `html_reactions`; `ts` is None for a barrierless step. */
  datatype Edge = Edge(reactant: nat, product: nat, ts: Option<nat>)

  /** The dictionary `cmp_dict` with the counter `cmp_idx`; `order` is the
      dictionary's key order, i.e. the order of insertion. */
  datatype Registry = Registry(ids: map<string, nat>, next: nat, order: seq<string>)

  /** The variables the loop carries from one reaction to the next. `x` and
      `y` are `node_x` and `node_y`: a side with no species leaves them as
      the previous reaction set them, or never assigned. */
  datatype State = State(registry: Registry, x: Option<string>, y: Option<string>, edges: seq<Edge>)

  datatype IndexError =
    | Unbound                // NameError: `node_x` or `node_y` was never assigned
    | MissingKey(key: string) // KeyError on `cmp_dict`
    | BarrierCount(n: nat)   // ValueError: `b1, b2 = barriers` needs two barriers

  const Start: State := State(Registry(map[], 1, []), None, None, [])

  /** The registry numbers its keys 1, 2, ... in insertion order. */
  predicate Consistent(reg: Registry) {
    && reg.next == |reg.order| + 1
    && (forall i :: 0 <= i < |reg.order| ==> reg.order[i] in reg.ids && reg.ids[reg.order[i]] == i + 1)
    && (forall k :: k in reg.ids ==> k in reg.order)
  }

  /** `after` keeps every key of `before` under the same number. */
  predicate Extends(before: Registry, after: Registry) {
    && before.order <= after.order
    && (forall k :: k in before.ids ==> k in after.ids && after.ids[k] == before.ids[k])
  }

  /** Lookup-or-insert (lines 105-110, 114-119, 125-130, 133-138, 152-156). */
  function Intern(reg: Registry, key: string): (r: Registry)
    ensures key in r.ids
  {
    if key in reg.ids then reg
    else Registry(reg.ids[key := reg.next], reg.next + 1, reg.order + [key])
  }

  /** A key already present keeps its number and nothing changes; a new key
      gets the counter, which moves on by one. */
  lemma InternSpec(reg: Registry, key: string)
    requires Consistent(reg)
    ensures Consistent(Intern(reg, key)) && Extends(reg, Intern(reg, key))
    ensures key in reg.ids ==> Intern(reg, key) == reg
    ensures key !in reg.ids ==>
      Intern(reg, key).ids[key] == reg.next && Intern(reg, key).next == reg.next + 1
      && Intern(reg, key).order == reg.order + [key]
  {
  }

  /** The numbers handed out are exactly 1..n, one per key. */
  lemma Numbering(reg: Registry)
    requires Consistent(reg)
    ensures forall k :: k in reg.ids ==> 1 <= reg.ids[k] <= |reg.order| && reg.order[reg.ids[k] - 1] == k
    ensures forall k1, k2 :: k1 in reg.ids && k2 in reg.ids && reg.ids[k1] == reg.ids[k2] ==> k1 == k2
    ensures forall n: nat :: 1 <= n <= |reg.order| ==> n in reg.ids.Values
  {
    forall k | k in reg.ids
      ensures 1 <= reg.ids[k] <= |reg.order| && reg.order[reg.ids[k] - 1] == k
    {
      var i :| 0 <= i < |reg.order| && reg.order[i] == k;
    }
    forall n: nat | 1 <= n <= |reg.order|
      ensures n in reg.ids.Values
    {
      assert reg.ids[reg.order[n - 1]] == n;
    }
  }

  /** The node key of one side of a reaction with fewer than three species
      (lines 103-119 and 123-138). An empty side has none. */
  function SideKey(side: seq<string>): Option<string>
    requires |side| < 3
  {
    if |side| == 1 then Some(side[0])
    else if |side| == 2 then Some(Join(SortPair(side[0], side[1]), AdductSeparator))
    else None
  }

  /** A bimolecular side's key does not depend on the order of its species. */
  lemma SideKeySymmetric(a: string, b: string)
    ensures SideKey([a, b]) == SideKey([b, a])
    ensures SideKey([a, b]).value == SortPair(a, b)[0] + AdductSeparator + SortPair(a, b)[1]
  {
    SortPairSpec(a, b);
    var sorted := SortPair(a, b);
    assert |sorted| == 2 && sorted[1..] == [sorted[1]];
    assert Join([sorted[1]], AdductSeparator) == sorted[1];
    assert Join(sorted, AdductSeparator) == sorted[0] + AdductSeparator + Join(sorted[1..], AdductSeparator);
  }

  function Register(reg: Registry, key: Option<string>): Registry {
    if key.Some? then Intern(reg, key.value) else reg
  }

  /** `cmp_dict[node]`, where `node` may never have been assigned. */
  function Resolve(reg: Registry, node: Option<string>): (r: Result<nat, IndexError>)
    ensures r.Ok? <==> node.Some? && node.value in reg.ids
    ensures r.Ok? ==> r.value == reg.ids[node.value]
  {
    if node.None? then Err(Unbound)
    else if node.value in reg.ids then Ok(reg.ids[node.value])
    else Err(MissingKey(node.value))
  }

  /** Lines 141-157: the triple for a selected elementary step, if its
      barriers are all present. */
  function Emit(st: State, es: ElementaryStep): (r: Result<State, IndexError>)
    ensures r.Ok? ==> st.edges <= r.value.edges && |r.value.edges| <= |st.edges| + 1
    ensures r.Ok? ==> r.value.x == st.x && r.value.y == st.y
  {
    var complete := Barriers.EnergyAndBarriers(es.lookup).complete;
    if es.kind.Barrierless? && complete then
      var reactant :- Resolve(st.registry, st.x);
      var product :- Resolve(st.registry, st.y);
      Ok(st.(edges := st.edges + [Edge(reactant, product, None)]))
    else if complete then
      if |es.lookup.barriers| != 2 then Err(BarrierCount(|es.lookup.barriers|))
      else
        var tsKey := es.kind.ts + TsSuffix;
        var reg := Intern(st.registry, tsKey);
        var reactant :- Resolve(reg, st.x);
        var product :- Resolve(reg, st.y);
        Ok(State(reg, st.x, st.y, st.edges + [Edge(reactant, product, Some(reg.ids[tsKey]))]))
    else Ok(st)
  }

  /** One iteration of the loop (lines 80-157). */
  function Process(st: State, rx: Reaction): (r: Result<State, IndexError>)
    // a reaction with three or more species on a side changes nothing
    ensures !(|rx.lhs| < 3 && |rx.rhs| < 3) ==> r == Ok(st)
    // triples are only ever appended, at most one per reaction
    ensures r.Ok? ==> st.edges <= r.value.edges && |r.value.edges| <= |st.edges| + 1
  {
    if !(|rx.lhs| < 3 && |rx.rhs| < 3) then Ok(st)
    else
      var kx := SideKey(rx.lhs);
      var ky := SideKey(rx.rhs);
      var reg := Register(Register(st.registry, kx), ky);
      var indexed := State(reg, if kx.Some? then kx else st.x, if ky.Some? then ky else st.y, st.edges);
      if rx.step.Some? then Emit(indexed, rx.step.value) else Ok(indexed)
  }

  /** The whole loop, from the given state on. */
  function Run(st: State, rxs: seq<Reaction>): Result<State, IndexError>
    decreases |rxs|
  {
    if rxs == [] then Ok(st)
    else
      match Process(st, rxs[0])
      case Err(e) => Err(e)
      case Ok(next) => Run(next, rxs[1..])
  }

  /** The loop as the script runs it: empty dictionary, counter at 1. */
  function IndexNetwork(rxs: seq<Reaction>): Result<State, IndexError> {
    Run(Start, rxs)
  }

  // ---------------------------------------------------------------------
  // Invariants of the loop

  predicate IsTsKey(key: string) {
    |key| > 0 && key[|key| - 1] == ';'
  }

  /** Every number in the triple is one the registry has handed out, and
      a transition-state number belongs to a transition-state key. */
  predicate EdgeResolves(e: Edge, reg: Registry) {
    && 1 <= e.reactant <= |reg.order|
    && 1 <= e.product <= |reg.order|
    && (e.ts.Some? ==> 1 <= e.ts.value <= |reg.order| && IsTsKey(reg.order[e.ts.value - 1]))
  }

  predicate Valid(st: State) {
    && Consistent(st.registry)
    && (st.x.Some? ==> st.x.value in st.registry.ids)
    && (st.y.Some? ==> st.y.value in st.registry.ids)
    && (forall i :: 0 <= i < |st.edges| ==> EdgeResolves(st.edges[i], st.registry))
  }

  lemma RegisterSpec(reg: Registry, key: Option<string>)
    requires Consistent(reg)
    ensures Consistent(Register(reg, key)) && Extends(reg, Register(reg, key))
    ensures key.Some? ==> key.value in Register(reg, key).ids
  {
    if key.Some? {
      InternSpec(reg, key.value);
    }
  }

  lemma EdgesStayResolved(edges: seq<Edge>, before: Registry, after: Registry)
    requires Extends(before, after)
    requires forall i :: 0 <= i < |edges| ==> EdgeResolves(edges[i], before)
    ensures forall i :: 0 <= i < |edges| ==> EdgeResolves(edges[i], after)
  {
    forall i | 0 <= i < |edges|
      ensures EdgeResolves(edges[i], after)
    {
      var e := edges[i];
      if e.ts.Some? {
        assert after.order[e.ts.value - 1] == before.order[e.ts.value - 1];
      }
    }
  }

  lemma EmitValid(st: State, es: ElementaryStep)
    requires Valid(st)
    ensures forall k :: Emit(st, es) != Err(MissingKey(k))
    ensures Emit(st, es).Ok? ==> Valid(Emit(st, es).value) && Extends(st.registry, Emit(st, es).value.registry)
  {
    var complete := Barriers.EnergyAndBarriers(es.lookup).complete;
    if !es.kind.Barrierless? && complete && |es.lookup.barriers| == 2 {
      var tsKey := es.kind.ts + TsSuffix;
      var reg := Intern(st.registry, tsKey);
      InternSpec(st.registry, tsKey);
      Numbering(reg);
      EdgesStayResolved(st.edges, st.registry, reg);
      assert reg.order[reg.ids[tsKey] - 1] == tsKey;
    }
  }

  /** One iteration keeps the invariant, never hits a missing key, and only
      adds keys. */
  lemma ProcessValid(st: State, rx: Reaction)
    requires Valid(st)
    ensures forall k :: Process(st, rx) != Err(MissingKey(k))
    ensures Process(st, rx).Ok? ==>
      Valid(Process(st, rx).value) && Extends(st.registry, Process(st, rx).value.registry)
  {
    if |rx.lhs| < 3 && |rx.rhs| < 3 {
      var kx := SideKey(rx.lhs);
      var ky := SideKey(rx.rhs);
      var reg1 := Register(st.registry, kx);
      var reg := Register(reg1, ky);
      RegisterSpec(st.registry, kx);
      RegisterSpec(reg1, ky);
      EdgesStayResolved(st.edges, st.registry, reg1);
      EdgesStayResolved(st.edges, reg1, reg);
      var indexed := State(reg, if kx.Some? then kx else st.x, if ky.Some? then ky else st.y, st.edges);
      assert Valid(indexed);
      if rx.step.Some? {
        EmitValid(indexed, rx.step.value);
      }
    }
  }

  lemma {:induction false} RunValid(st: State, rxs: seq<Reaction>)
    requires Valid(st)
    ensures forall k :: Run(st, rxs) != Err(MissingKey(k))
    ensures Run(st, rxs).Ok? ==> Valid(Run(st, rxs).value) && Extends(st.registry, Run(st, rxs).value.registry)
    decreases |rxs|
  {
    if rxs != [] {
      ProcessValid(st, rxs[0]);
      if Process(st, rxs[0]).Ok? {
        RunValid(Process(st, rxs[0]).value, rxs[1..]);
      }
    }
  }

  /** The whole pass: numbers are 1..n and distinct, every triple refers
      only to numbered keys (its third entry to a transition state), and the
      dictionary lookups of lines 148 and 157 never miss. */
  lemma {:induction false} IndexNetworkValid(rxs: seq<Reaction>)
    ensures forall k :: IndexNetwork(rxs) != Err(MissingKey(k))
    ensures IndexNetwork(rxs).Ok? ==> Valid(IndexNetwork(rxs).value)
  {
    RunValid(Start, rxs);
  }

  // ---------------------------------------------------------------------
  // What one iteration does

  /** The transition-state key a step hands to lookup-or-insert when it
      yields a triple through a transition state. */
  function TsKeys(es: ElementaryStep): seq<string> {
    if es.kind.ThroughTransitionState? && Barriers.Known(es.lookup.barriers)
    then [es.kind.ts + TsSuffix] else []
  }

  /** Lines 141-157: a triple comes out exactly when the step's barriers are
      all present; it links the current side nodes and carries None for a
      barrierless step, the number of `<ts id>;` otherwise. */
  lemma EmitSpec(st: State, es: ElementaryStep)
    requires Valid(st)
    requires Emit(st, es).Ok?
    ensures var after := Emit(st, es).value;
      && after.registry.order == FirstSeen(st.registry.order, TsKeys(es))
      && Extends(st.registry, after.registry)
      && var emitted := Barriers.Known(es.lookup.barriers);
         && after.edges == st.edges + (if emitted then [after.edges[|after.edges| - 1]] else [])
         && (emitted ==>
              var e := after.edges[|after.edges| - 1];
              && st.x.Some? && st.y.Some?
              && e.reactant == st.registry.ids[st.x.value]
              && e.product == st.registry.ids[st.y.value]
              && (e.ts.None? <==> es.kind.Barrierless?)
              && (e.ts.Some? ==>
                   var key := es.kind.ts + TsSuffix;
                   key in after.registry.ids && e.ts.value == after.registry.ids[key]))
  {
    var complete := Barriers.EnergyAndBarriers(es.lookup).complete;
    if es.kind.Barrierless? && complete {
      assert TsKeys(es) == [];
    } else if complete {
      var tsKey := es.kind.ts + TsSuffix;
      InternSpec(st.registry, tsKey);
      InternFirstSeen(st.registry, tsKey);
      assert TsKeys(es) == [tsKey];
    } else {
      assert TsKeys(es) == [];
    }
  }

  /** Both sides are numbered even when no triple comes out, and the side
      nodes the triple links are those of this reaction (or, for a side with
      no species, of the last reaction that had some). */
  lemma ProcessSpec(st: State, rx: Reaction)
    requires Valid(st)
    requires |rx.lhs| < 3 && |rx.rhs| < 3
    requires Process(st, rx).Ok?
    ensures var after := Process(st, rx).value;
      && (SideKey(rx.lhs).Some? ==> after.x == SideKey(rx.lhs) && SideKey(rx.lhs).value in after.registry.ids)
      && (SideKey(rx.rhs).Some? ==> after.y == SideKey(rx.rhs) && SideKey(rx.rhs).value in after.registry.ids)
      && (SideKey(rx.lhs).None? ==> after.x == st.x)
      && (SideKey(rx.rhs).None? ==> after.y == st.y)
      && (rx.step.None? ==> after.edges == st.edges)
  {
    var kx := SideKey(rx.lhs);
    var ky := SideKey(rx.rhs);
    var reg1 := Register(st.registry, kx);
    var reg := Register(reg1, ky);
    RegisterSpec(st.registry, kx);
    RegisterSpec(reg1, ky);
    var indexed := State(reg, if kx.Some? then kx else st.x, if ky.Some? then ky else st.y, st.edges);
    assert Valid(indexed) by {
      EdgesStayResolved(st.edges, st.registry, reg1);
      EdgesStayResolved(st.edges, reg1, reg);
    }
    if rx.step.Some? {
      EmitSpec(indexed, rx.step.value);
    }
  }

  /** Swapping the two species of a side leaves the iteration's outcome
      unchanged, on either side. */
  lemma SwapSpecies(st: State, a: string, b: string, other: seq<string>, step: Option<ElementaryStep>)
    requires |other| < 3
    ensures Process(st, Reaction([a, b], other, step)) == Process(st, Reaction([b, a], other, step))
    ensures Process(st, Reaction(other, [a, b], step)) == Process(st, Reaction(other, [b, a], step))
  {
    SideKeySymmetric(a, b);
  }

  // ---------------------------------------------------------------------
  // First-seen order

  /** Appends to `seen` each key of `keys` not seen before. */
  function FirstSeen(seen: seq<string>, keys: seq<string>): seq<string>
    decreases |keys|
  {
    if keys == [] then seen
    else FirstSeen(if keys[0] in seen then seen else seen + [keys[0]], keys[1..])
  }

  lemma {:induction false} FirstSeenAppend(seen: seq<string>, a: seq<string>, b: seq<string>)
    ensures FirstSeen(FirstSeen(seen, a), b) == FirstSeen(seen, a + b)
    decreases |a|
  {
    if a == [] {
      assert a + b == b;
    } else {
      assert (a + b)[0] == a[0] && (a + b)[1..] == a[1..] + b;
      FirstSeenAppend(if a[0] in seen then seen else seen + [a[0]], a[1..], b);
    }
  }

  function KeyList(k: Option<string>): seq<string> {
    if k.Some? then [k.value] else []
  }

  /** The keys an iteration hands to lookup-or-insert, in order, when it
      completes: the two side keys, then the transition-state key if a
      triple with a transition state is emitted. */
  function Touched(rx: Reaction): seq<string> {
    if !(|rx.lhs| < 3 && |rx.rhs| < 3) then []
    else
      KeyList(SideKey(rx.lhs)) + KeyList(SideKey(rx.rhs))
      + (if rx.step.Some? then TsKeys(rx.step.value) else [])
  }

  function AllTouched(rxs: seq<Reaction>): seq<string>
    decreases |rxs|
  {
    if rxs == [] then [] else Touched(rxs[0]) + AllTouched(rxs[1..])
  }

  lemma InternFirstSeen(reg: Registry, key: string)
    requires Consistent(reg)
    ensures Intern(reg, key).order == FirstSeen(reg.order, [key])
  {
    assert [key][1..] == [];
  }

  lemma RegisterFirstSeen(reg: Registry, key: Option<string>)
    requires Consistent(reg)
    ensures Register(reg, key).order == FirstSeen(reg.order, KeyList(key))
  {
    if key.Some? {
      InternFirstSeen(reg, key.value);
    }
  }

  lemma ProcessFirstSeen(st: State, rx: Reaction)
    requires Valid(st)
    requires Process(st, rx).Ok?
    ensures Process(st, rx).value.registry.order == FirstSeen(st.registry.order, Touched(rx))
  {
    if |rx.lhs| < 3 && |rx.rhs| < 3 {
      var kx := SideKey(rx.lhs);
      var ky := SideKey(rx.rhs);
      var reg1 := Register(st.registry, kx);
      var reg := Register(reg1, ky);
      RegisterSpec(st.registry, kx);
      RegisterSpec(reg1, ky);
      RegisterFirstSeen(st.registry, kx);
      RegisterFirstSeen(reg1, ky);
      FirstSeenAppend(st.registry.order, KeyList(kx), KeyList(ky));
      var indexed := State(reg, if kx.Some? then kx else st.x, if ky.Some? then ky else st.y, st.edges);
      assert Valid(indexed) by {
        EdgesStayResolved(st.edges, st.registry, reg1);
        EdgesStayResolved(st.edges, reg1, reg);
      }
      var tail := if rx.step.Some? then TsKeys(rx.step.value) else [];
      if rx.step.Some? {
        EmitSpec(indexed, rx.step.value);
      } else {
        assert FirstSeen(reg.order, []) == reg.order;
      }
      FirstSeenAppend(st.registry.order, KeyList(kx) + KeyList(ky), tail);
    } else {
      assert Touched(rx) == [];
    }
  }

  lemma {:induction false} RunFirstSeen(st: State, rxs: seq<Reaction>)
    requires Valid(st)
    requires Run(st, rxs).Ok?
    ensures Run(st, rxs).value.registry.order == FirstSeen(st.registry.order, AllTouched(rxs))
    decreases |rxs|
  {
    if rxs != [] {
      ProcessValid(st, rxs[0]);
      var next := Process(st, rxs[0]).value;
      ProcessFirstSeen(st, rxs[0]);
      RunFirstSeen(next, rxs[1..]);
      FirstSeenAppend(st.registry.order, Touched(rxs[0]), AllTouched(rxs[1..]));
    }
  }

  /** Numbers go to keys in the order the keys are first met: the key
      numbered n is the n-th distinct key the pass hands to lookup-or-insert. */
  lemma FirstSeenNumbering(rxs: seq<Reaction>)
    requires IndexNetwork(rxs).Ok?
    ensures var reg := IndexNetwork(rxs).value.registry;
      && Consistent(reg)
      && reg.order == FirstSeen([], AllTouched(rxs))
      && forall i :: 0 <= i < |reg.order| ==> reg.ids[reg.order[i]] == i + 1
  {
    RunFirstSeen(Start, rxs);
    IndexNetworkValid(rxs);
  }
}
