/** Reaction energies and barriers of one elementary step, plain and as a
    composite Gibbs estimate (vizchemoton/kinetic_utility_library.py,
    `get_energy_and_barriers` and `get_energy_and_barriers_gibbs`).

    The database queries are inputs here: a `Lookup` holds what
    `get_energy_change` and `get_barriers_for_elementary_step_by_type`
    answered for one electronic-structure model and one energy type, with
    `None` where the database had no value. Energies are exact reals.
 */
module Barriers {
  import opened Wrappers

  datatype Lookup = Lookup(energy: Option<real>, barriers: seq<Option<real>>)

  /** The triple both functions return: reaction energy, barriers, and the
      flag the scripts call `not_None`. */
  datatype Outcome = Outcome(energy: Option<real>, barriers: seq<Option<real>>, complete: bool)

  /** Python's TypeError when an energy that is `None` enters arithmetic. */
  datatype ArithmeticError = NoneOperand

  /** No barrier is missing. */
  predicate Known(bs: seq<Option<real>>) {
    forall i :: 0 <= i < |bs| ==> bs[i].Some?
  }

  /** `get_energy_and_barriers`: passes the lookup through and flags whether
      every barrier is present. */
  function EnergyAndBarriers(q: Lookup): (r: Outcome)
    ensures r.energy == q.energy && r.barriers == q.barriers
    ensures r.complete <==> Known(q.barriers)
  {
    Outcome(q.energy, q.barriers, None !in q.barriers)
  }

  /** What the composite returns when some barrier is missing. */
  const Unavailable: Outcome := Outcome(None, [None, None], false)

  function Min(a: nat, b: nat): nat {
    if a <= b then a else b
  }

  /** `tuple(a - b for a, b in zip(xs, ys))` over barriers known present. */
  function Differences(xs: seq<Option<real>>, ys: seq<Option<real>>): (r: seq<real>)
    requires Known(xs) && Known(ys)
    ensures |r| == Min(|xs|, |ys|)
    ensures forall i :: 0 <= i < |r| ==> r[i] == xs[i].value - ys[i].value
    decreases |xs|
  {
    if xs == [] || ys == [] then [] else [xs[0].value - ys[0].value] + Differences(xs[1..], ys[1..])
  }

  /** `tuple(a + b for a, b in zip(xs, ys))` over barriers known present. */
  function Sums(xs: seq<Option<real>>, ys: seq<real>): (r: seq<Option<real>>)
    requires Known(xs)
    ensures |r| == Min(|xs|, |ys|)
    ensures forall i :: 0 <= i < |r| ==> r[i] == Some(xs[i].value + ys[i])
    decreases |xs|
  {
    if xs == [] || ys == [] then [] else [Some(xs[0].value + ys[0])] + Sums(xs[1..], ys[1..])
  }

  /** `get_energy_and_barriers_gibbs`: the model-2 electronic values plus the
      model-1 Gibbs correction (Gibbs minus electronic), for the reaction
      energy and for each barrier position.

      `elec1` and `gibbs1` are the model-1 electronic and Gibbs lookups,
      `elec2` the model-2 electronic lookup, which the source only queries
      once the model-1 barriers are all present. */
  function GibbsComposite(elec1: Lookup, gibbs1: Lookup, elec2: Lookup): (r: Result<Outcome, ArithmeticError>)
    // a missing model-1 barrier gives the failure triple, whatever model 2 holds
    ensures !Known(elec1.barriers) || !Known(gibbs1.barriers) ==> r == Ok(Unavailable)
    // it raises exactly when a needed energy is None while its barriers are present
    ensures r.Err? <==>
      && Known(elec1.barriers) && Known(gibbs1.barriers)
      && (elec1.energy.None? || gibbs1.energy.None? || (Known(elec2.barriers) && elec2.energy.None?))
    // it succeeds exactly when every value involved is present
    ensures r.Ok? && r.value.complete <==>
      && Known(elec1.barriers) && Known(gibbs1.barriers) && Known(elec2.barriers)
      && elec1.energy.Some? && gibbs1.energy.Some? && elec2.energy.Some?
    ensures r.Ok? && !r.value.complete ==> r.value == Unavailable
    ensures r.Ok? && r.value.complete ==>
      && r.value.energy == Some(elec2.energy.value + (gibbs1.energy.value - elec1.energy.value))
      && |r.value.barriers| == Min(|elec2.barriers|, Min(|gibbs1.barriers|, |elec1.barriers|))
      && forall i :: 0 <= i < |r.value.barriers| ==>
           r.value.barriers[i] ==
             Some(elec2.barriers[i].value + (gibbs1.barriers[i].value - elec1.barriers[i].value))
  {
    if None in elec1.barriers || None in gibbs1.barriers then Ok(Unavailable)
    else if gibbs1.energy.None? || elec1.energy.None? then Err(NoneOperand)
    else
      var correctionEnergy := gibbs1.energy.value - elec1.energy.value;
      var correctionBarriers := Differences(gibbs1.barriers, elec1.barriers);
      if None in elec2.barriers then Ok(Unavailable)
      else if elec2.energy.None? then Err(NoneOperand)
      else Ok(Outcome(Some(elec2.energy.value + correctionEnergy), Sums(elec2.barriers, correctionBarriers), true))
  }

  /** The composite succeeds only when the plain query would have flagged
      each of its three lookups complete. */
  lemma CompositeNeedsCompleteLookups(elec1: Lookup, gibbs1: Lookup, elec2: Lookup)
    requires GibbsComposite(elec1, gibbs1, elec2).Ok?
    ensures GibbsComposite(elec1, gibbs1, elec2).value.complete <==>
      && EnergyAndBarriers(elec1).complete && EnergyAndBarriers(gibbs1).complete
      && EnergyAndBarriers(elec2).complete
      && elec1.energy.Some? && gibbs1.energy.Some? && elec2.energy.Some?
  {
  }

  /** With one model in both roles the correction cancels: the composite is
      the model's own Gibbs energy and Gibbs barriers. */
  lemma SingleModelIsGibbs(elec: Lookup, gibbs: Lookup)
    requires Known(elec.barriers) && Known(gibbs.barriers)
    requires elec.energy.Some? && gibbs.energy.Some?
    ensures GibbsComposite(elec, gibbs, elec) ==
      Ok(Outcome(gibbs.energy, gibbs.barriers[..Min(|gibbs.barriers|, |elec.barriers|)], true))
  {
    var r := GibbsComposite(elec, gibbs, elec).value;
    var n := Min(|gibbs.barriers|, |elec.barriers|);
    assert |r.barriers| == n;
    forall i | 0 <= i < n
      ensures r.barriers[i] == gibbs.barriers[i]
    {
      assert r.barriers[i] == Some(elec.barriers[i].value + (gibbs.barriers[i].value - elec.barriers[i].value));
    }
    assert r.barriers == gibbs.barriers[..n];
  }
}
