# vizchemoton reaction-network extraction, modelled in Dafny

vizchemoton pulls a chemical reaction network out of a SCINE exploration
database and writes it as two files: a list of reaction triples
`reactant,product,ts` and a table of node records (geometry, charge, spin
multiplicity and energy per fragment). This project models the core of that
extraction, from `vizchemoton/kinetic_utility_library.py` and
`vizchemoton/get_crn_html_xtb.py`, and proves what it guarantees.

| file | module | what it models |
|---|---|---|
| `wrappers.dfy` | `Wrappers` | `Option` for Python's `None`-or-value, `Result` for return-or-raise |
| `text.dfy` | `Text` | the Python string builtins the scripts use: `str(n)`, `split`, `join`, `in` on strings, `<` on strings, `sorted` of two strings |
| `formula.dfy` | `Formula` | `stoich_to_chemical_formula`: (O, C, H) counts to a formula with LaTeX subscripts, and a reader that recovers the counts |
| `barriers.dfy` | `Barriers` | `get_energy_and_barriers` and the composite Gibbs estimate `get_energy_and_barriers_gibbs` |
| `network.dfy` | `Network` | the indexing loop: one node number per species, adduct and transition state, in first-seen order, and one triple per selected elementary step whose barriers are all known |
| `records.dfy` | `Records` | `html_compounds`: one record per numbered node, one entry per fragment |
| `edge_file.dfy` | `EdgeFile` | the text of the reaction file, and a reader that gives the triples back |
| `extraction.dfy` | `Extraction` | the script end to end, with the guarantee that no triple points at a node without a record |

Python exceptions become `Err` values: the unpacking of a count tuple that
is not a triple, an unbound `form_z` or `node_x`, a `None` energy entering
arithmetic, a missing dictionary key, and `b1, b2 = barriers` on a barrier
tuple that does not have two entries. Database queries are inputs: a
`Barriers.Lookup` holds what the energy queries answered for one step, a
`Records.Database` answers structures by id, and a `Network.Reaction` holds
the species on each side of a reaction and its selected elementary step.
Energies are exact reals.

`stoich_to_chemical_formula` prints O, C and H in that fixed order, with
`$X_n$` subscripts. The repository's reader of the reaction file is not part
of this model; `EdgeFile.ParseEdgeText` is this model's own inverse of the
writer and reads the transition-state field into an optional number.

## Model

| member | source | states |
|---|---|---|
| Text.DecimalRoundTrip | vizchemoton/kinetic_utility_library.py:27 | the decimal text Python prints for a count reads back as that count |
| Text.SortPairSpec | vizchemoton/get_crn_html_xtb.py:113 | sorting two species ids gives the same two ids, ascending, whatever order they came in |
| Text.SplitJoin | vizchemoton/get_crn_html_xtb.py:168-169 | splitting an adduct key at "//" recovers the ids that were joined, when no id contains '/' |
| Formula.StoichToFormula | vizchemoton/kinetic_utility_library.py:15-30 | the conversion raises exactly when the input is not a triple (unpack error) or the oxygen count is negative (unbound piece) |
| Formula.NaturalCounts | vizchemoton/kinetic_utility_library.py:21-30 | for natural counts the formula is the oxygen piece, then the carbon piece, then the hydrogen piece |
| Formula.NoAtoms | vizchemoton/kinetic_utility_library.py:22-23 | zero counts give the empty formula |
| Formula.NegativeRepeatsPrevious | vizchemoton/kinetic_utility_library.py:21-28 | a negative carbon or hydrogen count repeats the piece of the element before it |
| Formula.FormulaRoundTrip | vizchemoton/kinetic_utility_library.py:21-30 | reading a formula of natural counts gives the counts back |
| Formula.FormulaInjective | vizchemoton/kinetic_utility_library.py:15-30 | two natural count triples with the same formula are equal |
| Barriers.EnergyAndBarriers | vizchemoton/kinetic_utility_library.py:103-117 | the energy and barriers pass through unchanged, and the flag is set exactly when no barrier is None |
| Barriers.GibbsComposite | vizchemoton/kinetic_utility_library.py:60-99 | a missing model-1 barrier gives (None, (None, None), False); otherwise a None model-1 energy raises; otherwise a missing model-2 barrier gives the failure triple and a None model-2 energy raises; on success each value is the model-2 electronic value plus the model-1 Gibbs-minus-electronic correction, over the shortest barrier tuple |
| Barriers.CompositeNeedsCompleteLookups | vizchemoton/kinetic_utility_library.py:78-96 | a successful composite is flagged complete exactly when all three plain queries would have been flagged complete and all three energies are present |
| Barriers.SingleModelIsGibbs | vizchemoton/kinetic_utility_library.py:81-96 | with the same model in both roles the correction cancels and the result is that model's Gibbs energy and barriers |
| Network.InternSpec | vizchemoton/get_crn_html_xtb.py:114-119 | lookup-or-insert keeps every existing number, and a new key gets the next number and goes last in key order |
| Network.Numbering | vizchemoton/get_crn_html_xtb.py:105-110 | the keys are numbered 1 to n without gaps or repeats, and the key numbered i is the i-th in key order |
| Network.SideKeySymmetric | vizchemoton/get_crn_html_xtb.py:112-113 | a two-species side gets the key "a//b" with a and b in sorted order, whichever order the side lists them |
| Network.SwapSpecies | vizchemoton/get_crn_html_xtb.py:131-138 | swapping the species of a bimolecular side changes nothing in the outcome of an iteration |
| Network.Resolve | vizchemoton/get_crn_html_xtb.py:148 | reading a node's number succeeds exactly when the node was assigned and is a key, and gives its number |
| Network.Emit | vizchemoton/get_crn_html_xtb.py:147-157 | emitting only appends to the triples, at most one, and leaves the current side nodes alone |
| Network.EmitSpec | vizchemoton/get_crn_html_xtb.py:141-157 | a triple comes out exactly when the step's barriers are all present; it links the current side nodes, carries None for a barrierless step and the number of "<ts>;" otherwise, and only that key can be added |
| Network.Process | vizchemoton/get_crn_html_xtb.py:96-99 | a reaction with three or more species on a side changes nothing, and an iteration appends at most one triple |
| Network.ProcessSpec | vizchemoton/get_crn_html_xtb.py:103-138 | both sides are numbered and become the current nodes even when no triple comes out; an empty side leaves the previous node in place; a reaction without a selected step adds no triple |
| Network.RunValid | vizchemoton/get_crn_html_xtb.py:80-157 | across the loop the numbering stays consistent and grows only, and every triple names numbers that exist, its third a transition-state key |
| Network.IndexNetworkValid | vizchemoton/get_crn_html_xtb.py:77-157 | the loop never raises KeyError, and its result satisfies the invariant above |
| Network.FirstSeenNumbering | vizchemoton/get_crn_html_xtb.py:77-157 | the key numbered n is the n-th distinct key the loop meets |
| Records.Sources | vizchemoton/get_crn_html_xtb.py:168-206 | an adduct key has one fragment per id between the "//" separators, any other key has exactly one |
| Records.SpeciesSources | vizchemoton/get_crn_html_xtb.py:201-208 | a plain species key is one fragment, the centroid of that species |
| Records.TransitionStateSources | vizchemoton/get_crn_html_xtb.py:189-191 | a key "<ts>;" is one fragment, the structure whose id is the key without its last character |
| Records.AdductSources | vizchemoton/get_crn_html_xtb.py:168-176 | an adduct key is two fragments, the centroids of its two species in sorted order, independent of their order in the reaction |
| Records.Assemble | vizchemoton/get_crn_html_xtb.py:170-186 | filling a record fragment by fragment raises exactly when some fragment has no energy, and otherwise appends each fragment's atoms, charge, multiplicity and converted energy in order |
| Records.BuildRecord | vizchemoton/get_crn_html_xtb.py:160-216 | a key's record has the key as id and four parallel lists with one entry per fragment; building it fails exactly when a fragment lacks an energy |
| Records.BuildCompounds | vizchemoton/get_crn_html_xtb.py:160-166 | the table holds exactly the numbers 1 to n, each key's record under its number, and fails with the first failing key's error |
| EdgeFile.Line | vizchemoton/get_crn_html_xtb.py:223 | each written triple is one newline-terminated line with no newline inside |
| EdgeFile.FieldsSplit | vizchemoton/get_crn_html_xtb.py:223 | splitting a line at commas gives exactly the three printed fields |
| EdgeFile.FieldsRoundTrip | vizchemoton/get_crn_html_xtb.py:221-223 | reading a line back gives the triple it was written from, "None" included |
| EdgeFile.EdgeTextRoundTrip | vizchemoton/get_crn_html_xtb.py:219-223 | reading the whole file back gives the triples, in order |
| EdgeFile.EdgeTextInjective | vizchemoton/get_crn_html_xtb.py:219-223 | different triple lists give different files |
| Extraction.Extract | vizchemoton/get_crn_html_xtb.py:77-223 | the run fails exactly when indexing raises or a numbered node lacks an energy, and a record failure is the first failing key's; on success each number holds its key's full record, every number a triple mentions has a record, a transition-state number's record has a transition-state key, and the reaction file is exactly the lines the script writes for the triples and reads back as them |

## Left out

- Erying_K_to_AG and Erying_AG_to_K (kinetic_utility_library.py lines 33-44): floating-point `exp` and `log`, not used by the core.
- get_xyz_from_structure_id (lines 46-58): a database read followed by a print; the geometry it returns is an input here.
- Building the pathfinder graph and choosing its reaction nodes (get_crn_html_xtb.py lines 1-83): the reactions, in graph order, are an input sequence of `Network.Reaction`.
- The database queries `get_energy_change`, `get_barriers_for_elementary_step_by_type`, `get_energy_for_structure`, `get_centroid` and `get_atoms`: their answers are inputs (`Barriers.Lookup`, `Records.Database`).
- Records.Database: the conversion from hartree to kJ/mol is a parameter, because the constant `KJPERMOL_PER_HARTREE` lives in scine_utilities, which is not part of this model.
- Floating-point rounding: energies are exact reals.
- Whether an id names a compound or a flask (lines 171-175 and 202-206) only selects the collection read; both are folded into the one centroid lookup, and the KeyError for an id that is not a graph node is not modelled.
- `r_index` and `p_index` (lines 101-138): computed but never read.
- The `if False:` branch (lines 84-94): dead code.
- `verbose` printing and the diagnostic print on line 64.
- The JSON dump of `html_compounds` and opening the files (lines 219-226): the record table is a map and the reaction file is a string.
- The reader of the reaction file and the graph builder, renderer and configuration that consume the two files are not part of this model.
- Network.Emit: its own contract states only how the triples grow; what the triple contains is stated by Network.EmitSpec.
- Network.Process: its own contract states only the skip and the growth of the triples; the sides and the current nodes are stated by Network.ProcessSpec.
- Records.Sources: its own contract states only the number of fragments; their exact form, for keys made of plain ids, is stated by Records.SpeciesSources, Records.TransitionStateSources and Records.AdductSources.
