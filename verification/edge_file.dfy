/** The reaction list written by vizchemoton/get_crn_html_xtb.py (lines
    219-223): one line per edge, "reactant,product,ts" followed by a
    newline, where `ts` is the transition-state node number or Python's
    `None`. Reading the text back gives the edges again.
 */
module EdgeFile {
  import opened Wrappers
  import opened Text
  import Network

  const FieldSeparator: string := ","
  const LineEnd: string := "\n"

  /** How `str(None)` prints. */
  const NoTs: string := "None"

  /** The third field of a line. */
  function TsField(ts: Option<nat>): string {
    match ts
    case None => NoTs
    case Some(n) => Decimal(n)
  }

  /** A line without its newline. */
  function Fields(e: Network.Edge): string {
    Decimal(e.reactant) + FieldSeparator + Decimal(e.product) + FieldSeparator + TsField(e.ts)
  }

  /** `"{r},{p},{ts}\n".format(r=r, p=p, ts=ts)` for one edge. */
  function Line(e: Network.Edge): (line: string)
    ensures |line| > 0 && line[|line| - 1] == '\n'
    ensures '\n' !in line[..|line| - 1]
  {
    Fields(e) + LineEnd
  }

  /** The whole file: the lines of the edges, in order. */
  function EdgeText(edges: seq<Network.Edge>): (text: string)
    ensures text == [] <==> edges == []
    decreases |edges|
  {
    if edges == [] then [] else Line(edges[0]) + EdgeText(edges[1..])
  }

  // Reading the file back.

  function ParseTsField(s: string): Option<Option<nat>> {
    if s == NoTs then Some(None)
    else
      var n :- ParseNat(s);
      Some(Some(n))
  }

  /** Reads the three fields of one line (without its newline). */
  function ParseFields(line: string): Option<Network.Edge> {
    var fields := Split(line, FieldSeparator);
    if |fields| != 3 then None
    else
      var r :- ParseNat(fields[0]);
      var p :- ParseNat(fields[1]);
      var ts :- ParseTsField(fields[2]);
      Some(Network.Edge(r, p, ts))
  }

  function ParseLines(lines: seq<string>): (r: Option<seq<Network.Edge>>)
    ensures r.Some? ==> |r.value| == |lines|
    decreases |lines|
  {
    if lines == [] then Some([])
    else
      var e :- ParseFields(lines[0]);
      var rest :- ParseLines(lines[1..]);
      Some([e] + rest)
  }

  /** Reads a whole file: newline-terminated lines, nothing after the last. */
  function ParseEdgeText(text: string): Option<seq<Network.Edge>> {
    var lines := Split(text, LineEnd);
    if lines[|lines| - 1] != [] then None else ParseLines(lines[..|lines| - 1])
  }

  lemma DecimalHasNoSeparator(n: nat, c: char)
    requires !IsDigit(c)
    ensures c !in Decimal(n)
  {
  }

  lemma TsFieldHasNo(ts: Option<nat>, c: char)
    requires !IsDigit(c) && c !in NoTs
    ensures c !in TsField(ts)
  {
    if ts.Some? {
      DecimalHasNoSeparator(ts.value, c);
    }
  }

  /** The fields of a line split apart again at the commas. */
  lemma FieldsSplit(e: Network.Edge)
    ensures Split(Fields(e), FieldSeparator) == [Decimal(e.reactant), Decimal(e.product), TsField(e.ts)]
    ensures '\n' !in Fields(e)
  {
    var a, b, c := Decimal(e.reactant), Decimal(e.product), TsField(e.ts);
    var parts := [a, b, c];
    DecimalHasNoSeparator(e.reactant, ',');
    DecimalHasNoSeparator(e.product, ',');
    TsFieldHasNo(e.ts, ',');
    DecimalHasNoSeparator(e.reactant, '\n');
    DecimalHasNoSeparator(e.product, '\n');
    TsFieldHasNo(e.ts, '\n');
    assert parts[1..] == [b, c] && parts[1..][1..] == [c];
    assert Join([c], FieldSeparator) == c;
    assert Join([b, c], FieldSeparator) == b + FieldSeparator + c;
    assert Join(parts, FieldSeparator) == a + FieldSeparator + (b + FieldSeparator + c);
    assert Join(parts, FieldSeparator) == Fields(e);
    SplitJoin(parts, FieldSeparator);
  }

  /** Reading one line back gives the edge it was written from. */
  lemma FieldsRoundTrip(e: Network.Edge)
    ensures ParseFields(Fields(e)) == Some(e)
  {
    FieldsSplit(e);
    DecimalRoundTrip(e.reactant);
    DecimalRoundTrip(e.product);
    if e.ts.Some? {
      DecimalRoundTrip(e.ts.value);
      assert Decimal(e.ts.value)[0] != 'N';
      assert TsField(e.ts) != NoTs;
    }
  }

  function FieldsOf(edges: seq<Network.Edge>): (lines: seq<string>)
    ensures |lines| == |edges|
    ensures forall i :: 0 <= i < |edges| ==> lines[i] == Fields(edges[i])
  {
    seq(|edges|, i requires 0 <= i < |edges| => Fields(edges[i]))
  }

  /** The file is its lines joined by newlines, with an empty last piece
      after the final newline. */
  lemma {:induction false} EdgeTextJoin(edges: seq<Network.Edge>)
    ensures EdgeText(edges) == Join(FieldsOf(edges) + [[]], LineEnd)
    decreases |edges|
  {
    if edges != [] {
      var rest := edges[1..];
      EdgeTextJoin(rest);
      var parts := FieldsOf(edges) + [[]];
      assert parts[1..] == FieldsOf(rest) + [[]];
      assert |parts| >= 2;
      assert Join(parts, LineEnd) == Fields(edges[0]) + LineEnd + Join(FieldsOf(rest) + [[]], LineEnd);
    }
  }

  lemma {:induction false} ParseLinesOf(edges: seq<Network.Edge>)
    ensures ParseLines(FieldsOf(edges)) == Some(edges)
    decreases |edges|
  {
    if edges != [] {
      FieldsRoundTrip(edges[0]);
      assert FieldsOf(edges)[1..] == FieldsOf(edges[1..]);
      ParseLinesOf(edges[1..]);
      assert [edges[0]] + edges[1..] == edges;
    }
  }

  /** Reading the written file back gives exactly the edges, in order. */
  lemma EdgeTextRoundTrip(edges: seq<Network.Edge>)
    ensures ParseEdgeText(EdgeText(edges)) == Some(edges)
  {
    var parts := FieldsOf(edges) + [[]];
    EdgeTextJoin(edges);
    forall i | 0 <= i < |parts| ensures '\n' !in parts[i] {
      if i < |edges| {
        FieldsSplit(edges[i]);
      }
    }
    SplitJoin(parts, LineEnd);
    assert parts[..|parts| - 1] == FieldsOf(edges);
    ParseLinesOf(edges);
  }

  /** Different edge lists give different files. */
  lemma EdgeTextInjective(a: seq<Network.Edge>, b: seq<Network.Edge>)
    requires EdgeText(a) == EdgeText(b)
    ensures a == b
  {
    EdgeTextRoundTrip(a);
    EdgeTextRoundTrip(b);
  }
}
