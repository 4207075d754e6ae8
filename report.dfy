/**
  The rows of a Kraken 2 report as the tree builder reads them: the rank code,
  the indented scientific name and the NCBI taxonomy id, and how one kept row is
  turned into the names of a rank node and of its identifier node.
 */
module Report {
  import opened Wrappers
  import opened Text

  /** One line of a report: `rank`, `name` (indented by two spaces per level) and `ncbi_tax_id`. */
  datatype Row = Row(rank: string, name: string, taxId: nat)

  /** `_get_indentation(s, indent)`: leading spaces, in whole units of `indent`. */
  function GetIndentation(s: string, indent: nat): nat
    requires indent > 0
  {
    LeadingSpaces(s) / indent
  }

  /** The level is the number of whole `indent`-wide units among the leading spaces. */
  lemma GetIndentationBounds(s: string, indent: nat)
    requires indent > 0
    ensures GetIndentation(s, indent) * indent <= LeadingSpaces(s) < (GetIndentation(s, indent) + 1) * indent
  {
  }

  /** The level the builder reads from a row's name. */
  function Indent(row: Row): nat {
    GetIndentation(row.name, 2)
  }

  function Spaces(n: nat): (r: string)
    ensures |r| == n && forall k :: 0 <= k < n ==> r[k] == ' '
  {
    if n == 0 then "" else " " + Spaces(n - 1)
  }

  /** A name printed at level `level` (two spaces each) is read back at that level. */
  lemma {:induction false} IndentOfPadded(level: nat, text: string)
    requires text == [] || text[0] != ' '
    ensures GetIndentation(Spaces(2 * level) + text, 2) == level
  {
    var s := Spaces(2 * level) + text;
    assert LeadingSpaces(s) == 2 * level by {
      PaddedSpaces(2 * level, text);
    }
  }

  lemma {:induction false} PaddedSpaces(n: nat, text: string)
    requires text == [] || text[0] != ' '
    ensures LeadingSpaces(Spaces(n) + text) == n
  {
    if n > 0 {
      assert (Spaces(n) + text)[1..] == Spaces(n - 1) + text;
      PaddedSpaces(n - 1, text);
    }
  }

  /** The rank codes that make a node: everything except unclassified (`U`), root (`R`)
      and multi-letter intermediate ranks; multi-letter strain ranks (`S1`, `S2`, ...) stay. */
  predicate IsKept(rank: string) {
    !(rank == "U" || rank == "R" || (|rank| > 1 && rank[0] != 'S'))
  }

  /** The rows that make nodes, in report order. */
  function Kept(rows: seq<Row>): (r: seq<Row>)
    ensures |r| <= |rows|
  {
    if rows == [] then []
    else
      var init := rows[..|rows| - 1];
      var last := rows[|rows| - 1];
      Kept(init) + (if IsKept(last.rank) then [last] else [])
  }

  /** Kept holds exactly the rows with a kept rank. */
  lemma {:induction false} KeptMembers(rows: seq<Row>)
    ensures forall x <- Kept(rows) :: x in rows && IsKept(x.rank)
    ensures forall x <- rows :: IsKept(x.rank) ==> x in Kept(rows)
  {
    if rows != [] {
      var init := rows[..|rows| - 1];
      assert forall x <- rows :: x in init || x == rows[|rows| - 1];
      KeptMembers(init);
    }
  }

  /** Filtering a prefix of the report gives a prefix of the filtered report. */
  lemma {:induction false} KeptPrefix(rows: seq<Row>, i: nat)
    requires i <= |rows|
    ensures Kept(rows[..i]) <= Kept(rows)
    decreases |rows|
  {
    if i < |rows| {
      var init := rows[..|rows| - 1];
      assert init[..i] == rows[..i];
      KeptPrefix(init, i);
    } else {
      assert rows[..i] == rows;
    }
  }

  lemma KeptStep(rows: seq<Row>, i: nat)
    requires i < |rows|
    ensures Kept(rows[..i + 1]) == Kept(rows[..i]) + (if IsKept(rows[i].rank) then [rows[i]] else [])
  {
    assert rows[..i + 1][..i] == rows[..i];
  }

  /** Reading one more row: a kept row is the next of the kept rows, any other adds nothing. */
  lemma KeptAdvance(rows: seq<Row>, i: nat, m: nat)
    requires i < |rows| && m <= |Kept(rows)| && Kept(rows[..i]) == Kept(rows)[..m]
    ensures IsKept(rows[i].rank) ==> m < |Kept(rows)| && Kept(rows)[m] == rows[i] && Kept(rows[..i + 1]) == Kept(rows)[..m + 1]
    ensures !IsKept(rows[i].rank) ==> Kept(rows[..i + 1]) == Kept(rows)[..m]
  {
    KeptPrefix(rows, i + 1);
    KeptStep(rows, i);
    if IsKept(rows[i].rank) {
      var kept := Kept(rows);
      assert Kept(rows[..i + 1]) == kept[..m] + [rows[i]];
      assert kept[..m + 1] == Kept(rows[..i + 1])[..m + 1];
    }
  }

  /** `f"{r.lower()}__{label.strip()}"`. */
  function RankNodeName(row: Row): string {
    Lower(row.rank) + "__" + Strip(row.name)
  }

  /** `str(row['ncbi_tax_id'])`. */
  function IdNodeName(row: Row): string {
    Decimal(row.taxId)
  }

  /** A rank node's name splits back into the lower-cased rank and the stripped name. */
  lemma RankNodeNameSplits(row: Row)
    requires forall k :: 0 <= k < |row.rank| ==> row.rank[k] != '_'
    ensures Split(RankNodeName(row)) == Some((Lower(row.rank), Strip(row.name)))
  {
    LowerKeepsUnderscores(row.rank);
    SplitJoin(Lower(row.rank), Strip(row.name));
  }

  /** Identifier names read back as the taxonomy id. */
  lemma IdNodeNameParses(row: Row)
    ensures ParseDecimal(IdNodeName(row)) == row.taxId
  {
    DecimalRoundTrip(row.taxId);
  }

  /** Two rows give identifier nodes of the same name exactly when they share a taxonomy id,
      so a tip name found by `find` stands for one taxon. */
  lemma IdNodeNamesDistinct(a: Row, b: Row)
    ensures IdNodeName(a) == IdNodeName(b) <==> a.taxId == b.taxId
  {
    DecimalInjective(a.taxId, b.taxId);
  }

  /** No identifier node can carry the name of a rank node. */
  lemma NamesNeverClash(a: Row, b: Row)
    ensures RankNodeName(a) != IdNodeName(b)
  {
    var s := RankNodeName(a);
    var k := |Lower(a.rank)|;
    assert s[k] == '_' && !IsDigit(s[k]);
  }
}
