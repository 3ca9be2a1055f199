/** The node records of the extracted network, `html_compounds` in
    vizchemoton/get_crn_html_xtb.py (lines 160-216).

    Every key the numbering pass produced becomes one record under its
    number. The shape of the key decides where the geometry comes from: an
    adduct key "a//b" takes the centroid structure of each species, a
    transition-state key "t;" takes structure t, any other key takes the
    centroid of that species. A record keeps one entry per fragment in each
    of its parallel lists.

    The database reads are inputs: `Database` answers the centroid structure
    of a compound or flask and a structure by id (whether an id names a
    compound or a flask only selects the collection, so it is folded into
    `centroid`), and converts an energy from hartree to kJ/mol.
 */
module Records {
  import opened Wrappers
  import opened Text
  import Network

  datatype Atom = Atom(element: string, x: real, y: real, z: real)

  /** One stored structure: atoms, charge, spin multiplicity, and electronic
      energy in hartree, None when the database has none for the model. */
  datatype Structure = Structure(atoms: seq<Atom>, charge: int, multiplicity: int, energy: Option<real>)

  datatype Database = Database(
    centroid: string -> Structure,
    structure: string -> Structure,
    toKjPerMol: real -> real)

  /** One entry of `html_compounds`. */
  datatype CompoundRecord = CompoundRecord(
    id: string,
    xyz: seq<seq<Atom>>,
    charge: seq<int>,
    multiplicity: seq<int>,
    energy: seq<real>)

  /** Python's TypeError from `None * KJPERMOL_PER_HARTREE` when a
      structure has no energy; `key` is the record being built. */
  datatype RecordError = MissingEnergy(key: string)

  /** Where one fragment of a record is read from. */
  datatype Source = Centroid(species: string) | TransitionState(structure: string)

  function Fetch(db: Database, src: Source): Structure {
    match src
    case Centroid(id) => db.centroid(id)
    case TransitionState(id) => db.structure(id)
  }

  /** The fragments of a key, in order (lines 168-170, 189-190, 201-202). */
  function Sources(key: string): (srcs: seq<Source>)
    ensures Contains(key, Network.AdductSeparator) ==> |srcs| == |Split(key, Network.AdductSeparator)|
    ensures !Contains(key, Network.AdductSeparator) ==> |srcs| == 1
  {
    if Contains(key, Network.AdductSeparator) then
      var ids := Split(key, Network.AdductSeparator);
      seq(|ids|, i requires 0 <= i < |ids| => Centroid(ids[i]))
    else if ';' in key then [TransitionState(key[..|key| - 1])]
    else [Centroid(key)]
  }

  /** The four parallel lists have one entry per fragment. */
  predicate Balanced(rec: CompoundRecord) {
    |rec.xyz| == |rec.charge| == |rec.multiplicity| == |rec.energy|
  }

  /** Every fragment's structure has an energy. */
  predicate EnergiesKnown(db: Database, srcs: seq<Source>) {
    forall i :: 0 <= i < |srcs| ==> Fetch(db, srcs[i]).energy.Some?
  }

  // The columns of a record, fragment by fragment.

  function AtomsOf(db: Database, srcs: seq<Source>): seq<seq<Atom>> {
    seq(|srcs|, i requires 0 <= i < |srcs| => Fetch(db, srcs[i]).atoms)
  }

  function ChargesOf(db: Database, srcs: seq<Source>): seq<int> {
    seq(|srcs|, i requires 0 <= i < |srcs| => Fetch(db, srcs[i]).charge)
  }

  function MultiplicitiesOf(db: Database, srcs: seq<Source>): seq<int> {
    seq(|srcs|, i requires 0 <= i < |srcs| => Fetch(db, srcs[i]).multiplicity)
  }

  function EnergiesOf(db: Database, srcs: seq<Source>): seq<real>
    requires EnergiesKnown(db, srcs)
  {
    seq(|srcs|, i requires 0 <= i < |srcs| => db.toKjPerMol(Fetch(db, srcs[i]).energy.value))
  }

  /** The record a key should get: for each fragment, in order, its atoms,
      charge, multiplicity and energy converted to kJ/mol. */
  function Expected(db: Database, key: string): CompoundRecord
    requires EnergiesKnown(db, Sources(key))
  {
    var srcs := Sources(key);
    CompoundRecord(key, AtomsOf(db, srcs), ChargesOf(db, srcs), MultiplicitiesOf(db, srcs), EnergiesOf(db, srcs))
  }

  /** Appends the columns of `srcs` to those of `rec`. */
  function Extend(rec: CompoundRecord, db: Database, srcs: seq<Source>): CompoundRecord
    requires EnergiesKnown(db, srcs)
  {
    rec.(xyz := rec.xyz + AtomsOf(db, srcs),
         charge := rec.charge + ChargesOf(db, srcs),
         multiplicity := rec.multiplicity + MultiplicitiesOf(db, srcs),
         energy := rec.energy + EnergiesOf(db, srcs))
  }

  /** Appends one fragment's atoms, charge, multiplicity and energy in
      kJ/mol (lines 183-186). */
  function Push(rec: CompoundRecord, s: Structure, toKjPerMol: real -> real): CompoundRecord
    requires s.energy.Some?
  {
    rec.(xyz := rec.xyz + [s.atoms],
         charge := rec.charge + [s.charge],
         multiplicity := rec.multiplicity + [s.multiplicity],
         energy := rec.energy + [toKjPerMol(s.energy.value)])
  }

  lemma EnergiesStep(db: Database, srcs: seq<Source>)
    requires srcs != [] && EnergiesKnown(db, srcs)
    ensures EnergiesKnown(db, srcs[1..])
    ensures EnergiesOf(db, srcs) == [db.toKjPerMol(Fetch(db, srcs[0]).energy.value)] + EnergiesOf(db, srcs[1..])
  {
    var rest := srcs[1..];
    assert EnergiesKnown(db, rest) by {
      forall i | 0 <= i < |rest| ensures Fetch(db, rest[i]).energy.Some? {
        assert rest[i] == srcs[i + 1];
      }
    }
    var es := EnergiesOf(db, srcs);
    var es' := [db.toKjPerMol(Fetch(db, srcs[0]).energy.value)] + EnergiesOf(db, rest);
    forall i | 0 <= i < |es| ensures es[i] == es'[i] {
      if i > 0 {
        assert rest[i - 1] == srcs[i];
      }
    }
  }

  lemma ExtendStep(rec: CompoundRecord, db: Database, srcs: seq<Source>)
    requires srcs != [] && EnergiesKnown(db, srcs)
    ensures EnergiesKnown(db, srcs[1..])
    ensures Extend(rec, db, srcs) == Extend(Push(rec, Fetch(db, srcs[0]), db.toKjPerMol), db, srcs[1..])
  {
    var s := Fetch(db, srcs[0]);
    var rest := srcs[1..];
    assert EnergiesKnown(db, rest) by {
      forall i | 0 <= i < |rest| ensures Fetch(db, rest[i]).energy.Some? {
        assert rest[i] == srcs[i + 1];
      }
    }
    assert AtomsOf(db, srcs) == [s.atoms] + AtomsOf(db, rest);
    assert ChargesOf(db, srcs) == [s.charge] + ChargesOf(db, rest);
    assert MultiplicitiesOf(db, srcs) == [s.multiplicity] + MultiplicitiesOf(db, rest);
    EnergiesStep(db, srcs);
    var lhs := Extend(rec, db, srcs);
    var rhs := Extend(Push(rec, s, db.toKjPerMol), db, rest);
    assert lhs.xyz == rhs.xyz by {
      assert rec.xyz + AtomsOf(db, srcs) == rec.xyz + [s.atoms] + AtomsOf(db, rest);
    }
    assert lhs.charge == rhs.charge by {
      assert rec.charge + ChargesOf(db, srcs) == rec.charge + [s.charge] + ChargesOf(db, rest);
    }
    assert lhs.multiplicity == rhs.multiplicity by {
      assert rec.multiplicity + MultiplicitiesOf(db, srcs) == rec.multiplicity + [s.multiplicity] + MultiplicitiesOf(db, rest);
    }
    assert lhs.energy == rhs.energy by {
      assert rec.energy + EnergiesOf(db, srcs) == rec.energy + [db.toKjPerMol(s.energy.value)] + EnergiesOf(db, rest);
    }
  }

  /** The inner loop of lines 170-186: appends each fragment's atoms,
      charge, multiplicity and energy in kJ/mol to the record, raising at
      the first fragment without an energy. */
  function Assemble(rec: CompoundRecord, db: Database, srcs: seq<Source>): (r: Result<CompoundRecord, RecordError>)
    ensures r.Ok? <==> EnergiesKnown(db, srcs)
    ensures r.Err? ==> r.error == MissingEnergy(rec.id)
    ensures r.Ok? ==> r.value == Extend(rec, db, srcs)
    decreases |srcs|
  {
    if srcs == [] then
      assert Extend(rec, db, srcs) == rec by {
        assert rec.xyz + [] == rec.xyz && rec.charge + [] == rec.charge;
        assert rec.multiplicity + [] == rec.multiplicity && rec.energy + [] == rec.energy;
      }
      Ok(rec)
    else
      var s := Fetch(db, srcs[0]);
      if s.energy.None? then Err(MissingEnergy(rec.id))
      else
        var next := Push(rec, s, db.toKjPerMol);
        var r := Assemble(next, db, srcs[1..]);
        assert r.Ok? <==> EnergiesKnown(db, srcs) by {
          if EnergiesKnown(db, srcs[1..]) {
            forall i | 0 <= i < |srcs| ensures Fetch(db, srcs[i]).energy.Some? {
              if i > 0 { assert srcs[i] == srcs[1..][i - 1]; }
            }
          }
        }
        if r.Ok? then
          ExtendStep(rec, db, srcs);
          r
        else r
  }

  /** The record for one key (lines 161-216). It fails exactly when a
      fragment's structure has no energy; otherwise it is the expected
      record, whose lists are parallel with one entry per fragment. */
  function BuildRecord(db: Database, key: string): (r: Result<CompoundRecord, RecordError>)
    ensures r.Ok? <==> EnergiesKnown(db, Sources(key))
    ensures r.Ok? ==> r.value == Expected(db, key)
    ensures r.Ok? ==> Balanced(r.value) && |r.value.xyz| == |Sources(key)|
  {
    var r := Assemble(CompoundRecord(key, [], [], [], []), db, Sources(key));
    assert r.Ok? ==> r.value == Expected(db, key) by {
      if r.Ok? {
        var srcs := Sources(key);
        assert [] + AtomsOf(db, srcs) == AtomsOf(db, srcs);
        assert [] + ChargesOf(db, srcs) == ChargesOf(db, srcs);
        assert [] + MultiplicitiesOf(db, srcs) == MultiplicitiesOf(db, srcs);
        assert [] + EnergiesOf(db, srcs) == EnergiesOf(db, srcs);
      }
    }
    r
  }

  /** A species or structure id as the database prints it: no '/' and no ';'. */
  predicate PlainId(id: string) {
    '/' !in id && ';' !in id
  }

  /** A plain species key is one fragment: the species' centroid. */
  lemma SpeciesSources(id: string)
    requires PlainId(id)
    ensures Sources(id) == [Centroid(id)]
  {
    NotContains(id, Network.AdductSeparator);
  }

  /** A transition-state key is one fragment: stripping the trailing ';'
      gives back the structure id the key was made from. */
  lemma TransitionStateSources(ts: string)
    requires PlainId(ts)
    ensures Sources(ts + Network.TsSuffix) == [TransitionState(ts)]
  {
    var key := ts + Network.TsSuffix;
    assert key[|key| - 1] == ';';
    assert forall c :: c in key ==> c in ts || c == ';';
    NotContains(key, Network.AdductSeparator);
    assert key[..|key| - 1] == ts;
  }

  /** An adduct key is two fragments: the centroids of its two species, in
      sorted order, whatever order the reaction listed them in. */
  lemma AdductSources(a: string, b: string)
    requires PlainId(a) && PlainId(b)
    ensures Network.SideKey([a, b]).Some?
    ensures Sources(Network.SideKey([a, b]).value) == [Centroid(SortPair(a, b)[0]), Centroid(SortPair(a, b)[1])]
    ensures Sources(Network.SideKey([a, b]).value) == Sources(Network.SideKey([b, a]).value)
  {
    Network.SideKeySymmetric(a, b);
    SortPairSpec(a, b);
    var p, q := SortPair(a, b)[0], SortPair(a, b)[1];
    assert multiset{p, q} == multiset{a, b};
    assert p == a || p == b;
    assert q == a || q == b;
    var key := Network.SideKey([a, b]).value;
    assert key == p + Network.AdductSeparator + q;
    ContainsMiddle(p, Network.AdductSeparator, q);
    assert Join([p, q], Network.AdductSeparator) == key by {
      assert [p, q][1..] == [q];
    }
    SplitJoin([p, q], Network.AdductSeparator);
    var srcs := Sources(key);
    assert |srcs| == 2;
  }

  /** `html_compounds`: one record per key of the numbering, filed under the
      key's number, built in the dictionary's key order so that the first
      failing key decides the error. */
  method BuildCompounds(db: Database, reg: Network.Registry) returns (r: Result<map<nat, CompoundRecord>, RecordError>)
    requires Network.Consistent(reg)
    ensures r.Ok? <==> forall i :: 0 <= i < |reg.order| ==> BuildRecord(db, reg.order[i]).Ok?
    ensures r.Err? ==> exists i :: 0 <= i < |reg.order| && BuildRecord(db, reg.order[i]) == Err(r.error)
                                   && forall j :: 0 <= j < i ==> BuildRecord(db, reg.order[j]).Ok?
    ensures r.Ok? ==> forall n: nat :: n in r.value <==> 1 <= n <= |reg.order|
    ensures r.Ok? ==> forall k :: k in reg.ids ==> reg.ids[k] in r.value && Ok(r.value[reg.ids[k]]) == BuildRecord(db, k)
  {
    var records: map<nat, CompoundRecord> := map[];
    var i := 0;
    while i < |reg.order|
      invariant 0 <= i <= |reg.order|
      invariant forall n: nat :: n in records <==> 1 <= n <= i
      invariant forall j :: 0 <= j < i ==> j + 1 in records && Ok(records[j + 1]) == BuildRecord(db, reg.order[j])
    {
      var key := reg.order[i];
      var rec := BuildRecord(db, key);
      if rec.Err? {
        return Err(rec.error);
      }
      records := records[i + 1 := rec.value];
      i := i + 1;
    }
    Network.Numbering(reg);
    forall k | k in reg.ids
      ensures reg.ids[k] in records && Ok(records[reg.ids[k]]) == BuildRecord(db, k)
    {
      var j := reg.ids[k] - 1;
      assert reg.order[j] == k;
    }
    return Ok(records);
  }
}
