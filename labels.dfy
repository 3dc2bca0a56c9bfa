/**
 * Label resolution for one leaf of the tree (print_trees.py, lines 12-23
 * without the assignments): the two reserved identifiers get a fixed red text
 * face, every other name is looked up in the metadata table and formatted
 * with one of two templates.
 */
module Labels {
  import opened Text
  import opened MetadataTable

  /** The leaf names that bypass the table. */
  const Unk01: string := "NP_Unk01"
  const Unk02: string := "NP_Unk02"

  /** What follows the identifier in the text of a reserved leaf's face. */
  const ReservedSuffix: string := ", Aquifex aeolicus (Bacteria_Aquificae)"

  /** The style of that face and the column it is attached at. */
  const FaceSize: nat := 10
  const FaceColor: string := "red"
  const FaceColumn: nat := 0

  /** The gene-name sentinel that selects the template showing the function. */
  const NotAvailable: string := "N/A"

  /** A text face attached to a leaf: text, font size, colour and column. */
  datatype Face = Face(text: string, fsize: nat, fgcolor: string, column: nat)

  /** The outcome of resolving one leaf name. */
  datatype Resolution =
    | Styled(face: Face)       // reserved identifier: name cleared, face attached
    | Plain(text: string)      // found in the table: the new leaf name
    | Unknown(name: string)    // absent from the table: the script raises KeyError

  predicate IsReserved(name: string)
  {
    name == Unk01 || name == Unk02
  }

  /** The two label templates of lines 22-23, chosen by the gene-name sentinel. */
  function PlainText(rec: Record): string
  {
    if rec.geneName == NotAvailable then
      rec.geneName + ", (" + rec.functionDesc + "), " + rec.speciesName + ", (" + rec.lineage + ")"
    else
      rec.geneName + ", " + rec.speciesName + ", (" + rec.lineage + ")"
  }

  function Parenthesized(s: string): string
  {
    "(" + s + ")"
  }

  /**
   * Reference view of a plain label: the columns it lists, in order.  The
   * gene name and species come bare, the lineage in parentheses, and the
   * function (in parentheses, after the gene name) only when the gene name
   * is the sentinel.
   */
  function LabelColumns(rec: Record): (cols: seq<string>)
    ensures |cols| == if rec.geneName == NotAvailable then 4 else 3
  {
    if rec.geneName == NotAvailable then
      [rec.geneName, Parenthesized(rec.functionDesc), rec.speciesName, Parenthesized(rec.lineage)]
    else
      [rec.geneName, rec.speciesName, Parenthesized(rec.lineage)]
  }

  /** The templates list the label columns separated by ", ". */
  lemma PlainTextListsColumns(rec: Record)
    ensures PlainText(rec) == Join(LabelColumns(rec), ", ")
  {
    var cols := LabelColumns(rec);
    var sep := ", ";
    if rec.geneName == NotAvailable {
      calc {
        Join(cols, sep);
        cols[0] + sep + Join(cols[1..], sep);
        { assert cols[1..][1..] == cols[2..]; }
        cols[0] + sep + (cols[1] + sep + Join(cols[2..], sep));
        { assert cols[2..][1..] == cols[3..]; }
        cols[0] + sep + (cols[1] + sep + (cols[2] + sep + cols[3]));
      }
    } else {
      calc {
        Join(cols, sep);
        cols[0] + sep + Join(cols[1..], sep);
        { assert cols[1..][1..] == cols[2..]; }
        cols[0] + sep + (cols[1] + sep + cols[2]);
      }
    }
  }

  /**
   * Resolution of one leaf name (lines 12-23).  Reserved names get their
   * face whatever the table holds; any other name is a KeyError when absent
   * and otherwise becomes the list of its label columns.
   */
  function Resolve(name: string, table: Table): (r: Resolution)
    ensures r.Styled? <==> IsReserved(name)
    ensures r.Styled? ==> r.face == Face(name + ReservedSuffix, FaceSize, FaceColor, FaceColumn)
    ensures r.Unknown? <==> !IsReserved(name) && name !in table
    ensures r.Unknown? ==> r.name == name
    ensures r.Plain? ==> r.text == Join(LabelColumns(table[name]), ", ")
  {
    if name == Unk01 then
      Styled(Face(Unk01 + ReservedSuffix, FaceSize, FaceColor, FaceColumn))
    else if name == Unk02 then
      Styled(Face(Unk02 + ReservedSuffix, FaceSize, FaceColor, FaceColumn))
    else if name !in table then
      Unknown(name)
    else
      PlainTextListsColumns(table[name]);
      Plain(PlainText(table[name]))
  }

  /** The function column shows in a label only under the sentinel gene name. */
  lemma FunctionUnusedUnlessNotAvailable(rec: Record, other: string)
    requires rec.geneName != NotAvailable
    ensures PlainText(rec.(functionDesc := other)) == PlainText(rec)
  {
  }
}
