/** Turning the (O, C, H) atom counts of a compound or flask into a chemical
    formula with LaTeX-style subscripts, e.g. (1, 2, 4) becomes
    "O$C_2$$H_4$" (vizchemoton/kinetic_utility_library.py,
    `stoich_to_chemical_formula`).
 */
module Formula {
  import opened Wrappers
  import opened Text

  /** The element symbols, in the order the counts come and are printed. */
  const Symbols: seq<char> := ['O', 'C', 'H']

  datatype FormulaError =
    | WrongArity(given: nat)  // unpacking into `nO, nC, nH` needs exactly three counts
    | UnboundPiece            // a negative first count leaves the piece never assigned

  /** The text one element contributes: nothing for a count of 0, the bare
      symbol for 1, `$<sym>_<n>$` from 2 on. A negative count matches none
      of the three branches. */
  function Piece(sym: char, n: int): Option<string> {
    if n == 0 then Some("")
    else if n == 1 then Some([sym])
    else if n >= 2 then Some("$" + [sym] + "_" + Decimal(n) + "$")
    else None
  }

  /** The loop over `zip(['O', 'C', 'H'], stoich)`. `last` is the piece the
      previous iteration left behind: a count that matches no branch appends
      that stale piece again, and on the first iteration there is none. */
  function Render(syms: seq<char>, counts: seq<int>, last: Option<string>): (r: Result<string, FormulaError>)
    requires |syms| == |counts|
    ensures r.Err? <==> |counts| > 0 && counts[0] < 0 && last.None?
    decreases |syms|
  {
    if syms == [] then Ok("")
    else
      var form := if Piece(syms[0], counts[0]).Some? then Piece(syms[0], counts[0]) else last;
      if form.None? then Err(UnboundPiece)
      else
        match Render(syms[1..], counts[1..], form)
        case Ok(rest) => Ok(form.value + rest)
        case Err(e) => Err(e)
  }

  /** `stoich_to_chemical_formula(stoich)`. It fails exactly when the input
      is not a triple or when the oxygen count is negative; any other
      negative count repeats the piece before it. */
  function StoichToFormula(stoich: seq<int>): (r: Result<string, FormulaError>)
    ensures r.Err? <==> |stoich| != 3 || stoich[0] < 0
    ensures |stoich| != 3 ==> r == Err(WrongArity(|stoich|))
  {
    if |stoich| != 3 then Err(WrongArity(|stoich|)) else Render(Symbols, stoich, None)
  }

  /** The piece of a count that is known not to be negative. */
  function PieceOf(sym: char, n: nat): string {
    Piece(sym, n).value
  }

  lemma Unfold(s: seq<int>)
    requires |s| == 3
    ensures Symbols[1..] == ['C', 'H'] && s[1..] == [s[1], s[2]]
    ensures ['C', 'H'][1..] == ['H'] && [s[1], s[2]][1..] == [s[2]]
    ensures ['H'][1..] == [] && [s[2]][1..] == []
  {
  }

  /** The formula of natural counts: oxygen's piece, then carbon's, then
      hydrogen's, whatever the counts are. */
  lemma NaturalCounts(o: nat, c: nat, h: nat)
    ensures StoichToFormula([o, c, h]) == Ok(PieceOf('O', o) + PieceOf('C', c) + PieceOf('H', h))
  {
    var s := [o, c, h];
    var po, pc, ph := PieceOf('O', o), PieceOf('C', c), PieceOf('H', h);
    Unfold(s);
    assert Render([], [], Some(ph)) == Ok("");
    assert ph + "" == ph;
    assert Render(['H'], [h], Some(pc)) == Ok(ph);
    assert Render(['C', 'H'], [c, h], Some(po)) == Ok(pc + ph);
    assert Render(Symbols, s, None) == Ok(po + (pc + ph));
    assert po + (pc + ph) == po + pc + ph;
  }

  /** No atoms, no text. */
  lemma NoAtoms()
    ensures StoichToFormula([0, 0, 0]) == Ok("")
  {
    NaturalCounts(0, 0, 0);
    assert PieceOf('O', 0) == PieceOf('C', 0) == PieceOf('H', 0) == "";
    assert "" + "" + "" == "";
  }

  /** A negative carbon or hydrogen count reuses the piece of the element
      printed before it, since `form_z` keeps its previous value. */
  lemma NegativeRepeatsPrevious(o: nat, c: int, h: int)
    requires c < 0 || h < 0
    ensures c < 0 && h >= 0 ==>
      StoichToFormula([o, c, h]) == Ok(PieceOf('O', o) + PieceOf('O', o) + PieceOf('H', h))
    ensures c >= 0 && h < 0 ==>
      StoichToFormula([o, c, h]) == Ok(PieceOf('O', o) + PieceOf('C', c) + PieceOf('C', c))
    ensures c < 0 && h < 0 ==>
      StoichToFormula([o, c, h]) == Ok(PieceOf('O', o) + PieceOf('O', o) + PieceOf('O', o))
  {
    var po := PieceOf('O', o);
    Unfold([o, c, h]);
    if c < 0 && h >= 0 {
      var ph := PieceOf('H', h);
      assert ph + "" == ph;
      assert Render(['H'], [h], Some(po)) == Ok(ph);
      assert Render(['C', 'H'], [c, h], Some(po)) == Ok(po + ph);
      assert Render(Symbols, [o, c, h], None) == Ok(po + (po + ph));
      assert po + (po + ph) == po + po + ph;
    } else if c >= 0 && h < 0 {
      var pc := PieceOf('C', c);
      assert pc + "" == pc;
      assert Render(['H'], [h], Some(pc)) == Ok(pc);
      assert Render(['C', 'H'], [c, h], Some(po)) == Ok(pc + pc);
      assert Render(Symbols, [o, c, h], None) == Ok(po + (pc + pc));
      assert po + (pc + pc) == po + pc + pc;
    } else {
      assert po + "" == po;
      assert Render(['H'], [h], Some(po)) == Ok(po);
      assert Render(['C', 'H'], [c, h], Some(po)) == Ok(po + po);
      assert Render(Symbols, [o, c, h], None) == Ok(po + (po + po));
      assert po + (po + po) == po + po + po;
    }
  }

  // Reading a formula back. It shows that no two count triples share a
  // formula, i.e. the rendering loses nothing.

  /** The opening `$<sym>_` of a subscripted piece. */
  function Opening(sym: char): string {
    "$" + [sym] + "_"
  }

  /** Reads the count of `sym` at the front of `s`, returning it with the
      text that follows. */
  function ReadPiece(sym: char, s: string): Option<(nat, string)> {
    if StartsWith(s, Opening(sym)) then
      var tail := s[3..];
      var d := TakeDigits(tail);
      if d != [] && |d| < |tail| && tail[|d|] == '$' then Some((DigitsValue(d), tail[|d| + 1..])) else None
    else if StartsWith(s, [sym]) then Some((1, s[1..]))
    else Some((0, s))
  }

  /** Reads a whole formula back into its (O, C, H) counts. */
  function ReadFormula(s: string): Option<(nat, nat, nat)> {
    var (o, s1) :- ReadPiece('O', s);
    var (c, s2) :- ReadPiece('C', s1);
    var (h, s3) :- ReadPiece('H', s2);
    if s3 == [] then Some((o, c, h)) else None
  }

  /** `s` does not begin with anything `ReadPiece(sym, _)` would consume. */
  predicate Clear(sym: char, s: string) {
    !StartsWith(s, [sym]) && !StartsWith(s, Opening(sym))
  }

  lemma {:induction false} ReadPieceOf(sym: char, n: nat, rest: string)
    requires sym != '$'
    requires n == 0 ==> Clear(sym, rest)
    ensures ReadPiece(sym, PieceOf(sym, n) + rest) == Some((n, rest))
  {
    var s := PieceOf(sym, n) + rest;
    if n == 0 {
      assert s == rest;
    } else if n == 1 {
      assert s == [sym] + rest;
      assert !StartsWith(s, Opening(sym)) by { assert s[0] != Opening(sym)[0]; }
      assert s[..1] == [sym];
      assert s[1..] == rest;
    } else if n >= 2 {
      var d := Decimal(n);
      assert |Opening(sym)| == 3;
      assert s == Opening(sym) + (d + ['$'] + rest);
      assert s[..3] == Opening(sym);
      assert StartsWith(s, Opening(sym));
      var tail := s[3..];
      assert tail == d + ['$'] + rest;
      TakeDigitsStops(d, '$', rest);
      assert TakeDigits(tail) == d;
      assert tail[|d|] == '$';
      assert tail[|d| + 1..] == rest;
      DecimalRoundTrip(n);
      assert DigitsValue(d) == n;
      assert ReadPiece(sym, s) == Some((n, rest));
    }
  }

  /** A piece of another element, with whatever follows it, never looks like
      a piece of `sym`. */
  lemma ClearAfter(sym: char, other: char, n: nat, rest: string)
    requires sym != other && sym != '$' && other != '$'
    requires Clear(sym, rest)
    ensures Clear(sym, PieceOf(other, n) + rest)
  {
    var s := PieceOf(other, n) + rest;
    if n == 1 {
      assert s[0] == other;
    } else if n >= 2 {
      assert s[0] == '$' && s[1] == other;
      assert |s| >= 3 ==> s[..3][1] == other;
    }
  }

  /** Reading undoes rendering: the formula of natural counts determines
      the counts. */
  lemma FormulaRoundTrip(o: nat, c: nat, h: nat)
    ensures ReadFormula(PieceOf('O', o) + PieceOf('C', c) + PieceOf('H', h)) == Some((o, c, h))
  {
    var hs := PieceOf('H', h);
    var cs := PieceOf('C', c) + hs;
    assert Clear('C', []) && Clear('H', []) && Clear('O', []);
    ReadPieceOf('H', h, []);
    assert hs + [] == hs;
    ClearAfter('C', 'H', h, []);
    ClearAfter('O', 'H', h, []);
    ReadPieceOf('C', c, hs);
    ClearAfter('O', 'C', c, hs);
    ReadPieceOf('O', o, cs);
    assert PieceOf('O', o) + PieceOf('C', c) + PieceOf('H', h) == PieceOf('O', o) + cs;
  }

  /** Different natural count triples render to different formulas. */
  lemma FormulaInjective(o1: nat, c1: nat, h1: nat, o2: nat, c2: nat, h2: nat)
    requires StoichToFormula([o1, c1, h1]) == StoichToFormula([o2, c2, h2])
    ensures o1 == o2 && c1 == c2 && h1 == h2
  {
    NaturalCounts(o1, c1, h1);
    NaturalCounts(o2, c2, h2);
    FormulaRoundTrip(o1, c1, h1);
    FormulaRoundTrip(o2, c2, h2);
  }
}
