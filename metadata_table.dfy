/**
 * The metadata table of print_trees.py: a tab-separated file whose first line
 * is a header and whose every other line holds the six columns
 * seqname, genename, spname, lineage, gene, function.  The script builds a
 * dictionary from seqname to the four columns it keeps.
 */
module MetadataTable {
  import opened Results
  import opened Text

  /** The four columns kept for a sequence; the `gene` column is dropped. */
  datatype Record = Record(geneName: string, speciesName: string, lineage: string, functionDesc: string)

  /**
   * Unpacking a line into six names fails (Python's ValueError) when the line
   * does not split into exactly six fields; `line` is the index of the
   * offending line among all lines of the file, the header being line 0.
   */
  datatype LoadError = MalformedRow(line: nat, fieldCount: nat)

  type Table = map<string, Record>

  /** The columns of a line: every newline removed, then split on tabs. */
  function Fields(line: string): seq<string>
  {
    Split(RemoveChar(line, '\n'), '\t')
  }

  /** The seqname of a line: its first column (there always is one). */
  function Key(line: string): string
  {
    Fields(line)[0]
  }

  /** A data line the script can unpack: exactly five tabs. */
  predicate WellFormed(line: string)
  {
    Count(line, '\t') == 5
  }

  /**
   * One iteration of the loading loop: the key and the record a line
   * contributes, or the unpacking error.  A line is accepted exactly when it
   * holds five tabs, whatever its newlines.
   */
  function ParseRow(line: string, index: nat): (r: Result<(string, Record), LoadError>)
    ensures r.Ok? <==> WellFormed(line)
    ensures r.Ok? ==> r.value.0 == Key(line)
    ensures r.Err? ==> r.error == MalformedRow(index, Count(line, '\t') + 1)
  {
    var f := Fields(line);
    if |f| != 6 then Err(MalformedRow(index, |f|))
    else Ok((f[0], Record(f[1], f[2], f[3], f[5])))
  }

  /**
   * The state of the dictionary after the loop has consumed lines 1 .. n-1
   * (line 0 is the header read before the loop): each line overwrites the
   * entry of its key, and the first malformed line stops the load.
   */
  function LoadPrefix(lines: seq<string>, n: nat): Result<Table, LoadError>
    requires 1 <= n <= |lines|
  {
    if n == 1 then Ok(map[])
    else
      match LoadPrefix(lines, n - 1)
      case Err(e) => Err(e)
      case Ok(t) =>
        match ParseRow(lines[n - 1], n - 1)
        case Err(e) => Err(e)
        case Ok(kv) => Ok(t[kv.0 := kv.1])
  }

  /** The whole load: an empty file gives an empty table. */
  function Load(lines: seq<string>): Result<Table, LoadError>
  {
    if |lines| == 0 then Ok(map[]) else LoadPrefix(lines, |lines|)
  }

  /**
   * Lines 4-8 of the script: read the header, then insert one entry per
   * remaining line, stopping at the first line that does not unpack.
   */
  method LoadTable(lines: seq<string>) returns (r: Result<Table, LoadError>)
    ensures r == Load(lines)
  {
    if |lines| == 0 {
      return Ok(map[]);
    }
    var table: Table := map[];
    var i := 1;
    while i < |lines|
      invariant 1 <= i <= |lines|
      invariant LoadPrefix(lines, i) == Ok(table)
    {
      var fields := Fields(lines[i]);
      if |fields| != 6 {
        r := Err(MalformedRow(i, |fields|));
        assert LoadPrefix(lines, i + 1) == r;
        ErrorSticks(lines, i + 1, |lines|);
        return;
      }
      table := table[fields[0] := Record(fields[1], fields[2], fields[3], fields[5])];
      i := i + 1;
    }
    r := Ok(table);
  }

  /** Once a line fails to unpack, no later line changes the outcome. */
  lemma {:induction false} ErrorSticks(lines: seq<string>, n: nat, m: nat)
    requires 1 <= n <= m <= |lines|
    requires LoadPrefix(lines, n).Err?
    ensures LoadPrefix(lines, m) == LoadPrefix(lines, n)
  {
    if m > n {
      ErrorSticks(lines, n, m - 1);
    }
  }

  /** The load reads only the data lines: lines that agree after the header load alike. */
  lemma {:induction false} PrefixIgnoresHeader(a: seq<string>, b: seq<string>, n: nat)
    requires |a| == |b| && 1 <= n <= |a|
    requires a[1..] == b[1..]
    ensures LoadPrefix(a, n) == LoadPrefix(b, n)
  {
    if n > 1 {
      PrefixIgnoresHeader(a, b, n - 1);
      assert a[n - 1] == a[1..][n - 2] == b[1..][n - 2] == b[n - 1];
    }
  }

  /** Whatever the header says, the table is the same: it never becomes a key. */
  lemma LoadIgnoresHeader(lines: seq<string>, header: string)
    requires |lines| >= 1
    ensures Load([header] + lines[1..]) == Load(lines)
  {
    var other := [header] + lines[1..];
    assert other[1..] == lines[1..];
    PrefixIgnoresHeader(other, lines, |lines|);
  }

  /**
   * The load of lines 1 .. n-1 fails exactly when one of them is malformed,
   * and then it reports the first such line with its field count.
   */
  lemma {:induction false} PrefixFails(lines: seq<string>, n: nat)
    requires 1 <= n <= |lines|
    ensures LoadPrefix(lines, n).Err? <==> exists j :: 1 <= j < n && !WellFormed(lines[j])
    ensures LoadPrefix(lines, n).Err? ==>
      var e := LoadPrefix(lines, n).error;
      && 1 <= e.line < n
      && !WellFormed(lines[e.line])
      && e.fieldCount == Count(lines[e.line], '\t') + 1
      && forall j :: 1 <= j < e.line ==> WellFormed(lines[j])
  {
    if n > 1 {
      PrefixFails(lines, n - 1);
    }
  }

  /**
   * The whole load fails exactly when some data line does not split into six
   * fields, and it names the first such line.
   */
  lemma LoadFails(lines: seq<string>)
    ensures Load(lines).Err? <==> exists j :: 1 <= j < |lines| && !WellFormed(lines[j])
    ensures Load(lines).Err? ==>
      var e := Load(lines).error;
      && 1 <= e.line < |lines|
      && !WellFormed(lines[e.line])
      && e.fieldCount == Count(lines[e.line], '\t') + 1
      && forall j :: 1 <= j < e.line ==> WellFormed(lines[j])
  {
    if |lines| > 0 {
      PrefixFails(lines, |lines|);
    }
  }

  /**
   * Reference definition of "the line that defines key k": the last data
   * line before line n whose seqname is k, if any.
   */
  function LastRowFor(lines: seq<string>, n: nat, k: string): (r: Option<nat>)
    requires 1 <= n <= |lines|
    ensures r.Some? ==>
      && 1 <= r.value < n
      && Key(lines[r.value]) == k
      && forall j :: r.value < j < n ==> Key(lines[j]) != k
    ensures r.None? ==> forall j :: 1 <= j < n ==> Key(lines[j]) != k
  {
    if n == 1 then None
    else if Key(lines[n - 1]) == k then Some(n - 1)
    else LastRowFor(lines, n - 1, k)
  }

  /**
   * Last write wins: after a successful load of lines 1 .. n-1, a key is in
   * the table exactly when some data line carries it, and its record is the
   * one parsed from the last such line.
   */
  lemma {:induction false} PrefixKeepsLastRecord(lines: seq<string>, n: nat, k: string)
    requires 1 <= n <= |lines|
    requires LoadPrefix(lines, n).Ok?
    ensures k in LoadPrefix(lines, n).value <==> LastRowFor(lines, n, k).Some?
    ensures k in LoadPrefix(lines, n).value ==>
      var j := LastRowFor(lines, n, k).value;
      ParseRow(lines[j], j) == Ok((k, LoadPrefix(lines, n).value[k]))
  {
    if n > 1 {
      PrefixKeepsLastRecord(lines, n - 1, k);
    }
  }

  /** Last write wins, for the whole file. */
  lemma LoadKeepsLastRecord(lines: seq<string>, k: string)
    requires |lines| >= 1
    requires Load(lines).Ok?
    ensures k in Load(lines).value <==> LastRowFor(lines, |lines|, k).Some?
    ensures k in Load(lines).value ==>
      var j := LastRowFor(lines, |lines|, k).value;
      ParseRow(lines[j], j) == Ok((k, Load(lines).value[k]))
  {
    PrefixKeepsLastRecord(lines, |lines|, k);
  }

  /**
   * What a data line stores: a line written as the six columns joined by
   * tabs (with or without its newline) is read back as its seqname and the
   * record of columns 2, 3, 4 and 6; the `gene` column is dropped.
   */
  lemma ParseJoinedRow(seqname: string, geneName: string, speciesName: string,
                       lineage: string, gene: string, functionDesc: string,
                       ending: string, index: nat)
    requires ending == [] || ending == ['\n']
    requires forall col :: col in [seqname, geneName, speciesName, lineage, gene, functionDesc] ==>
      '\t' !in col && '\n' !in col
    ensures ParseRow(Join([seqname, geneName, speciesName, lineage, gene, functionDesc], ['\t']) + ending, index)
         == Ok((seqname, Record(geneName, speciesName, lineage, functionDesc)))
  {
    var cols := [seqname, geneName, speciesName, lineage, gene, functionDesc];
    var line := Join(cols, ['\t']);
    JoinAvoids(cols, ['\t'], '\n');
    RemoveCharAppend(line, ending, '\n');
    assert RemoveChar(line + ending, '\n') == line;
    JoinThenSplit(cols, '\t');
  }
}
