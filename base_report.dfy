/** `print_base_content_table` of the base-content script: the dictionary of
    counts written as JSON, as a TSV table of percentages, or refused. */
module BaseReport {
  import opened Outcomes
  import opened Text
  import opened FastaLines
  import opened BaseContent

  /** The percentage `count / total * 100`, kept as the exact fraction before
      rounding. */
  datatype Percentage = Percentage(count: int, total: int)

  /** One TSV line: the sample name and the percentages in the column order
      Thymine, Cytosine, Adenine, Guanine. */
  datatype TsvRow = TsvRow(sample: string, thymine: Percentage, cytosine: Percentage,
                           adenine: Percentage, guanine: Percentage)

  const TsvHeader: string := "Sample\tThymine\tCytosine\tAdenine\tGuanine"

  const InvalidTypeText: string := "Invalid output type. Please choose 'json' or 'tsv'."

  /** What `print_base_content_table` produces. */
  datatype Output =
    | JsonDump(table: Table)                      // the dictionary, serialised in its order
    | TsvLines(header: string, rows: seq<TsvRow>) // the file written for 'tsv'
    | Message(text: string)                       // printed; no file is written

  /** The four percentages of a row are fractions of one positive total, each
      between 0 and 100, and together exactly 100 before rounding. */
  predicate PercentagesOfOneTotal(row: TsvRow) {
    var total := row.thymine.total;
    && total > 0
    && row.cytosine.total == total && row.adenine.total == total && row.guanine.total == total
    && 0 <= row.thymine.count <= total && 0 <= row.cytosine.count <= total
    && 0 <= row.adenine.count <= total && 0 <= row.guanine.count <= total
    && row.thymine.count + row.cytosine.count + row.adenine.count + row.guanine.count == total
  }

  /** `sum(bases.values())` for a record with the four base keys. */
  function BaseTotal(c: Counts): int
    requires ValidCounts(c)
  {
    c['A'] + c['T'] + c['C'] + c['G']
  }

  /** `row` holds the counts of `c` in the column order T, C, A, G, each a
      fraction of one positive total. */
  predicate RowOf(row: TsvRow, c: Counts) {
    && 'A' in c && 'T' in c && 'C' in c && 'G' in c
    && row.thymine.count == c['T'] && row.cytosine.count == c['C']
    && row.adenine.count == c['A'] && row.guanine.count == c['G']
    && PercentagesOfOneTotal(row)
  }

  /** The TSV lines for the records `names`, in that order. A record whose
      four counts are all zero divides by zero. */
  function TsvRows(t: Table, names: seq<string>): (r: Result<seq<TsvRow>>)
    requires forall k :: 0 <= k < |names| ==> names[k] in t.records && ValidCounts(t.records[names[k]])
    ensures r.Ok? <==> forall k :: 0 <= k < |names| ==> BaseTotal(t.records[names[k]]) != 0
    ensures r.Err? ==> r.error == ZeroDivisionError
    ensures r.Ok? ==> |r.value| == |names|
    ensures r.Ok? ==> forall k :: 0 <= k < |names| ==>
      && r.value[k].sample == names[k]
      && RowOf(r.value[k], t.records[names[k]])
  {
    if names == [] then Ok([])
    else
      var name := names[|names| - 1];
      var c := t.records[name];
      var total := BaseTotal(c);
      match TsvRows(t, names[..|names| - 1])
      case Err(e) => Err(e)
      case Ok(rows) =>
        if total == 0 then Err(ZeroDivisionError)
        else
          Ok(rows + [TsvRow(name, Percentage(c['T'], total), Percentage(c['C'], total),
                            Percentage(c['A'], total), Percentage(c['G'], total))])
  }

  /** The loop `for sample, bases in sequences.items()` of the 'tsv' branch:
      it writes one line per record in order and stops at the first record
      whose four counts sum to zero. */
  method WriteTsvRows(t: Table, names: seq<string>) returns (r: Result<seq<TsvRow>>)
    requires forall k :: 0 <= k < |names| ==> names[k] in t.records && ValidCounts(t.records[names[k]])
    ensures r == TsvRows(t, names)
  {
    var rows: seq<TsvRow> := [];
    var i := 0;
    while i < |names|
      invariant 0 <= i <= |names|
      invariant TsvRows(t, names[..i]) == Ok(rows)
    {
      var name := names[i];
      var c := t.records[name];
      var total := c['A'] + c['T'] + c['C'] + c['G'];
      if total == 0 {
        assert BaseTotal(t.records[names[i]]) == 0;
        assert TsvRows(t, names).Err?;
        return Err(ZeroDivisionError);
      }
      assert names[..i + 1][..i] == names[..i];
      rows := rows + [TsvRow(name, Percentage(c['T'], total), Percentage(c['C'], total),
                             Percentage(c['A'], total), Percentage(c['G'], total))];
      i := i + 1;
    }
    assert names[..i] == names;
    r := Ok(rows);
  }

  /** `print_base_content_table` without the file: 'json' dumps the table,
      'tsv' writes a header and one line per record in insertion order, and
      any other type only prints a message. */
  function PrintBaseContentTable(t: Table, outputType: string): (r: Result<Output>)
    requires ValidTable(t)
    ensures outputType == "json" ==> r == Ok(JsonDump(t))
    ensures outputType != "json" && outputType != "tsv" ==> r == Ok(Message(InvalidTypeText))
    ensures outputType == "tsv" ==>
      (r.Ok? <==> forall n :: n in t.records ==> BaseTotal(t.records[n]) != 0)
    ensures outputType == "tsv" && r.Ok? ==>
      && r.value.TsvLines? && r.value.header == TsvHeader
      && |r.value.rows| == |t.order|
      && forall k :: 0 <= k < |t.order| ==>
           r.value.rows[k].sample == t.order[k] && RowOf(r.value.rows[k], t.records[t.order[k]])
    ensures r.Err? ==> outputType == "tsv" && r.error == ZeroDivisionError
  {
    if outputType == "json" then Ok(JsonDump(t))
    else if outputType == "tsv" then
      match TsvRows(t, t.order)
      case Err(e) => Err(e)
      case Ok(rows) => Ok(TsvLines(TsvHeader, rows))
    else Ok(Message(InvalidTypeText))
  }

  /** A record text holding none of the four bases. */
  predicate NoBases(s: string) {
    Occurrences(s, 'A') == 0 && Occurrences(s, 'T') == 0 && Occurrences(s, 'C') == 0 && Occurrences(s, 'G') == 0
  }

  /** After a tally that succeeded, the TSV report fails exactly when some
      record's text, after its last header, holds none of the four bases; a
      file whose every record has a base gets one row per record. */
  lemma TsvReportOfTally(lines: seq<string>)
    requires Tally(lines).Ok?
    ensures ValidTable(Tally(lines).value)
    ensures var t := Tally(lines).value;
      PrintBaseContentTable(t, "tsv").Err? <==>
        exists n :: n in t.records && NoBases(LastBlockText(Parse(lines), n))
  {
    var t := Tally(lines).value;
    TallyValid(lines);
    forall n | n in t.records
      ensures BaseTotal(t.records[n]) == 0 <==> NoBases(LastBlockText(Parse(lines), n))
    {
      TallyCounts(lines, n);
    }
  }
}
