/** The integer part of `calculate_base_content` and of `process_fasta_file`
    in the singleton/parsimony script: split the file into records, classify
    the alignment's columns, and tally the bases of all records together. */
module AlignmentContent {
  import opened Outcomes
  import opened Text
  import FastaRecords
  import VariableSites

  /** `Counter(''.join(sequences))` and the sum of its values. */
  datatype Composition = Composition(counts: multiset<char>, total: nat)

  /** The base tally over the concatenation of all sequences: every symbol is
      counted, so the total is the number of characters of the alignment, and
      the four bases together are no more than that total. */
  function AlignmentComposition(seqs: seq<string>): (c: Composition)
    ensures c.total == TotalLength(seqs)
    ensures c.counts == multiset(Join(seqs))
    ensures c.total == |c.counts|
    ensures c.counts['A'] + c.counts['T'] + c.counts['C'] + c.counts['G'] <= c.total
  {
    var joined := Join(seqs);
    BaseOccurrencesBound(joined);
    OccurrencesMultiplicity(joined, 'A');
    OccurrencesMultiplicity(joined, 'T');
    OccurrencesMultiplicity(joined, 'C');
    OccurrencesMultiplicity(joined, 'G');
    Composition(multiset(joined), |joined|)
  }

  /** What `process_fasta_file` computes before it prints. */
  datatype SiteReport = SiteReport(singletons: nat, informative: nat, composition: Composition)

  /** `process_fasta_file` without the file read and the printing: the records
      go to `count_variable_sites`, which raises IndexError on an empty list or
      a record shorter than the first, and then to `calculate_base_content`.
      Once the classifier has accepted the records, the base total is positive,
      so the percentage division cannot fail. */
  method ProcessFasta(lines: seq<string>) returns (r: Result<SiteReport>)
    ensures r.Err? <==> !VariableSites.Indexable(FastaRecords.Records(lines))
    ensures r.Err? ==> r.error == IndexError
    ensures r.Ok? ==> var seqs := FastaRecords.Records(lines);
                      && r.value.singletons == VariableSites.SingletonSites(seqs)
                      && r.value.informative == VariableSites.VariableSites(seqs)
                      && r.value.composition.counts == multiset(FastaRecords.SequenceText(lines))
                      && r.value.composition.total == |FastaRecords.SequenceText(lines)| > 0
  {
    var sequences := FastaRecords.SplitRecords(lines);
    if |sequences| == 0 || exists k :: 0 <= k < |sequences| && |sequences[k]| < |sequences[0]| {
      return Err(IndexError);
    }
    var singletons, informative := VariableSites.CountVariableSites(sequences);
    var composition := AlignmentComposition(sequences);
    FastaRecords.RecordsText(lines);
    FastaRecords.RecordsNonEmpty(lines);
    TotalLengthBoundsEach(sequences, 0);
    r := Ok(SiteReport(singletons, informative, composition));
  }
}
