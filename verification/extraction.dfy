/** The extraction script end to end (vizchemoton/get_crn_html_xtb.py,
    lines 77-223): number the nodes and collect the edges, build a record
    for every numbered node, and write the edges out as text.
 */
module Extraction {
  import opened Wrappers
  import Network
  import Records
  import EdgeFile

  datatype ExtractError =
    | Indexing(indexError: Network.IndexError)
    | Building(recordError: Records.RecordError)

  /** `html_compounds`, `html_reactions`, and the text of the reaction file. */
  datatype Extracted = Extracted(
    compounds: map<nat, Records.CompoundRecord>,
    edges: seq<Network.Edge>,
    edgeText: string)

  /** Every node number an edge mentions has a record, and a
      transition-state number has a record made from a transition-state key. */
  predicate NoDangling(x: Extracted) {
    forall i :: 0 <= i < |x.edges| ==>
      && x.edges[i].reactant in x.compounds
      && x.edges[i].product in x.compounds
      && (x.edges[i].ts.Some? ==>
            x.edges[i].ts.value in x.compounds && Network.IsTsKey(x.compounds[x.edges[i].ts.value].id))
  }

  method Extract(db: Records.Database, rxs: seq<Network.Reaction>) returns (r: Result<Extracted, ExtractError>)
    // an indexing failure is reported as is, and it is never a lookup of a missing key
    ensures Network.IndexNetwork(rxs).Err? ==> r == Err(Indexing(Network.IndexNetwork(rxs).error))
    ensures r.Err? && r.error.Indexing? ==> !r.error.indexError.MissingKey?
    // a record failure is that of the first key, in numbering order, whose record fails
    ensures r.Err? && r.error.Building? ==>
      && Network.IndexNetwork(rxs).Ok?
      && var order := Network.IndexNetwork(rxs).value.registry.order;
         exists i :: 0 <= i < |order| && Records.BuildRecord(db, order[i]) == Err(r.error.recordError)
                     && forall j :: 0 <= j < i ==> Records.BuildRecord(db, order[j]).Ok?
    // it succeeds exactly when indexing succeeds and every numbered key has its energies
    ensures r.Ok? <==>
      && Network.IndexNetwork(rxs).Ok?
      && var order := Network.IndexNetwork(rxs).value.registry.order;
         forall i :: 0 <= i < |order| ==> Records.BuildRecord(db, order[i]).Ok?
    ensures r.Ok? ==> r.value.edges == Network.IndexNetwork(rxs).value.edges
    // the records are numbered 1..n, one per key: the key's full record, with parallel lists
    ensures r.Ok? ==>
      var reg := Network.IndexNetwork(rxs).value.registry;
      && (forall n: nat :: n in r.value.compounds <==> 1 <= n <= |reg.order|)
      && (forall n :: n in r.value.compounds ==>
            && Ok(r.value.compounds[n]) == Records.BuildRecord(db, reg.order[n - 1])
            && r.value.compounds[n].id == reg.order[n - 1] && Records.Balanced(r.value.compounds[n]))
    ensures r.Ok? ==> NoDangling(r.value)
    // the reaction file is exactly what the script writes for the triples, and reads back as them
    ensures r.Ok? ==> r.value.edgeText == EdgeFile.EdgeText(r.value.edges)
    ensures r.Ok? ==> EdgeFile.ParseEdgeText(r.value.edgeText) == Some(r.value.edges)
  {
    Network.IndexNetworkValid(rxs);
    var indexed := Network.IndexNetwork(rxs);
    if indexed.Err? {
      return Err(Indexing(indexed.error));
    }
    var st := indexed.value;
    var reg := st.registry;
    var built := Records.BuildCompounds(db, reg);
    if built.Err? {
      return Err(Building(built.error));
    }
    var compounds := built.value;
    Network.Numbering(reg);
    assert forall n :: n in compounds ==>
        compounds[n].id == reg.order[n - 1] && Records.Balanced(compounds[n]) by {
      forall n | n in compounds
        ensures compounds[n].id == reg.order[n - 1] && Records.Balanced(compounds[n])
      {
        var key := reg.order[n - 1];
        assert reg.ids[key] == n;
      }
    }
    var text := EdgeFile.EdgeText(st.edges);
    EdgeFile.EdgeTextRoundTrip(st.edges);
    r := Ok(Extracted(compounds, st.edges, text));
  }
}
