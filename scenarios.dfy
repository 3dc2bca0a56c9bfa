/**
 * Worked examples: a small metadata file and the labels its leaves get.
 * Data lines are written as their columns joined by tabs, as the file holds them.
 */
module Scenarios {
  import opened Results
  import opened Text
  import opened MetadataTable
  import opened Labels
  import opened Annotator

  const Header: string := "seqname\tgenename\tspname\tlineage\tgene\tfunction\n"
  const ColumnsA: seq<string> := ["SeqA", "GeneX", "Homo sapiens", "Eukaryota", "geneY", "kinase"]
  const ColumnsB: seq<string> := ["SeqB", "N/A", "Mus musculus", "Eukaryota", "geneZ", "transporter"]
  const ColumnsC: seq<string> := ["SeqC", "GeneW", "Rattus", "Eukaryota", "lyase"]

  function Line(cols: seq<string>): string
  {
    Join(cols, "\t") + "\n"
  }

  const RecordA := Record("GeneX", "Homo sapiens", "Eukaryota", "kinase")
  const RecordB := Record("N/A", "Mus musculus", "Eukaryota", "transporter")

  lemma ParsedA()
    ensures ParseRow(Line(ColumnsA), 1) == Ok(("SeqA", RecordA))
  {
    ParseJoinedRow("SeqA", "GeneX", "Homo sapiens", "Eukaryota", "geneY", "kinase", "\n", 1);
  }

  lemma ParsedB()
    ensures ParseRow(Line(ColumnsB), 2) == Ok(("SeqB", RecordB))
  {
    ParseJoinedRow("SeqB", "N/A", "Mus musculus", "Eukaryota", "geneZ", "transporter", "\n", 2);
  }

  /** A file with a header and two rows loads into two entries. */
  lemma TwoRowFile()
    ensures Load([Header, Line(ColumnsA), Line(ColumnsB)]) == Ok(map["SeqA" := RecordA, "SeqB" := RecordB])
  {
    var lines := [Header, Line(ColumnsA), Line(ColumnsB)];
    ParsedA();
    ParsedB();
    assert LoadPrefix(lines, 2) == Ok(map["SeqA" := RecordA]);
  }

  /** The leaf named after the first row gets the template for a real gene name. */
  lemma GeneNameLabel()
    ensures Resolve("SeqA", map["SeqA" := RecordA, "SeqB" := RecordB])
         == Plain("GeneX, " + "Homo sapiens, " + "(Eukaryota)")
  {
    assert PlainText(RecordA) == "GeneX, " + "Homo sapiens, " + "(Eukaryota)";
  }

  /** The leaf named after the second row gets the template that shows the function. */
  lemma NotAvailableLabel()
    ensures Resolve("SeqB", map["SeqA" := RecordA, "SeqB" := RecordB])
         == Plain("N/A, " + "(transporter), " + "Mus musculus, " + "(Eukaryota)")
  {
    var t := map["SeqA" := RecordA, "SeqB" := RecordB];
    assert t["SeqB"] == RecordB;
    assert RecordB.geneName == NotAvailable;
    assert Resolve("SeqB", t) == Plain(PlainText(RecordB));
    assert PlainText(RecordB) == "N/A, " + "(transporter), " + "Mus musculus, " + "(Eukaryota)";
  }

  /** A reserved leaf is styled even against an empty table. */
  lemma ReservedLeafWithEmptyTable()
    ensures Annotate(LeafState("NP_Unk01", []), map[])
         == LeafState("", [Face("NP_Unk01" + ", Aquifex aeolicus (Bacteria_Aquificae)", 10, "red", 0)])
  {
  }

  lemma FiveColumnsRejected()
    ensures ParseRow(Line(ColumnsC), 1) == Err(MalformedRow(1, 5))
  {
    var joined := Join(ColumnsC, "\t");
    JoinAvoids(ColumnsC, "\t", '\n');
    RemoveCharAppend(joined, "\n", '\n');
    assert RemoveChar("\n", '\n') == [];
    assert RemoveChar(Line(ColumnsC), '\n') == joined;
    JoinThenSplit(ColumnsC, '\t');
  }

  /** A data row with five columns instead of six makes the whole load fail at that row. */
  lemma FiveColumnRowFails()
    ensures Load([Header, Line(ColumnsC), Line(ColumnsA)]) == Err(MalformedRow(1, 5))
  {
    FiveColumnsRejected();
    ErrorSticks([Header, Line(ColumnsC), Line(ColumnsA)], 2, 3);
  }
}
