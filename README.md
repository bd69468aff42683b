# ChatCODE FASTA scripts — a verified Dafny model

ChatCODE ships two small Python scripts that read FASTA files. A FASTA file is
a list of lines: a line starting with `>` is a header naming a record, and the
lines after it hold the record's nucleotide sequence.

- `Singleton_Parsimony_count.py` reads an alignment. It splits the file into
  sequences and classifies the alignment's columns. A column is *variable* when
  the sequences disagree there, and a *singleton* when its most frequent symbol
  occurs once. The script also counts every symbol over the whole alignment.
- `base_content_calculator.py` tallies A, T, C and G per record into a
  dictionary keyed by header name. It then writes that dictionary as JSON, or as
  a TSV table of percentages, or refuses any other output type.

The model takes a file as its list of lines, `seq<string>`. The modules are:

| module | file | what it holds |
|---|---|---|
| `Outcomes` | `outcomes.dfy` | the Python exceptions the scripts can raise, and a `Result` type |
| `Text` | `text.dfy` | ASCII `strip`, `upper`, `startswith('>')`, symbol counts, `''.join` |
| `FastaLines` | `fasta_lines.dfy` | a line classified once: `Header(name)` or `Bases(text)`, where `text` is `line.strip().upper()` |
| `FastaRecords` | `fasta_records.dfy` | the record splitter of `process_fasta_file` |
| `VariableSites` | `variable_sites.dfy` | `count_variable_sites` |
| `AlignmentContent` | `alignment_content.dfy` | the `Counter` tally of `calculate_base_content` and the integer part of `process_fasta_file` |
| `BaseContent` | `base_content.dfy` | `calculate_base_content` of the base-content script |
| `BaseReport` | `base_report.dfy` | `print_base_content_table` |

The source's loops are `method`s with `while` loops:

- the record splitter of `process_fasta_file`;
- the two loops of `count_variable_sites`;
- the line loop of `calculate_base_content` and its inner loop over a line's characters;
- the TSV row loop of `print_base_content_table`.

The list comprehension and the set built in `count_variable_sites` are
comprehensions in the model too. Each method is proved equal to a function:
`Records`, `SingletonSites`, `VariableSites`, `Tally`, `AddBases` and `TsvRows`. The lemmas then state what those functions mean, in terms
of reference definitions that do not follow the loop:

- records are the file cut at its headers;
- a record's counts are the bases of the lines under its last header;
- sites are counted column by column.

A Python exception is an `Err` value of `Result`.

Some behaviour of the code that a reader might not expect:

- An empty alignment raises `IndexError` in `count_variable_sites`. It does not
  yield zero counts.
- A sequence shorter than the first raises `IndexError`. Sequences longer than
  the first are read only up to the first's length. The shortest sequence does
  not govern the columns.
- The TSV denominator of `print_base_content_table` is the sum of the four base
  counts, so symbols other than A, T, C and G are not in it. The whole-alignment
  total of the other script does count every symbol.
- The parsimony-informative test repeats the variability test, so every
  variable column counts as informative.

## Model

| member | source | states |
|---|---|---|
| `Text.TrimLeftSpec` | Singleton_Parsimony_count.py:52 | `lstrip` removes a prefix made only of whitespace and stops at the first other character |
| `Text.TrimRightSpec` | Singleton_Parsimony_count.py:52 | `rstrip` removes a suffix made only of whitespace and stops at the last other character |
| `Text.StripSpec` | Singleton_Parsimony_count.py:52 | `strip` keeps a slice of the line with only whitespace around it, and the slice neither starts nor ends with whitespace |
| `Text.UpperSpec` | Singleton_Parsimony_count.py:52 | `upper` maps every character on its own and leaves no lower-case ASCII letter |
| `Text.OccurrencesAppend` | base_content_calculator.py:17-19 | the count of a symbol in a concatenation is the sum of its counts in the parts |
| `Text.BaseOccurrencesBound` | base_content_calculator.py:17-19 | the A, T, C and G counts of a text together are at most its length |
| `Text.OccurrencesMultiplicity` | Singleton_Parsimony_count.py:29 | the count a line-by-line tally gives a symbol is its multiplicity, the count `Counter` keeps |
| `Text.HeaderName` | base_content_calculator.py:13 | the name `line[1:].strip()` is shorter than the header line and neither starts nor ends with whitespace |
| `Text.JoinAppend` | Singleton_Parsimony_count.py:29 | `''.join` of two lists concatenated is the concatenation of their joins |
| `FastaLines.ParseAt` | base_content_calculator.py:11-16 | each line is classified on its own, as a header or as its cleaned text |
| `FastaRecords.FeedLine` | Singleton_Parsimony_count.py:46-52 | one pass of the loop body is one `Feed` step on the classified line. `Feed` models the body: a header flushes the current sequence only when it is non-empty and then starts an empty one; any other line appends its stripped, upper-cased text |
| `FastaRecords.FeedGroups` | Singleton_Parsimony_count.py:46-52 | after any prefix of the file, the loop state is the records of the closed groups plus the text of the open group |
| `FastaRecords.SplitRecords` | Singleton_Parsimony_count.py:42-54 | the splitting loop returns exactly `Records(lines)`: the non-empty texts of the groups the headers cut the file into, in file order |
| `FastaRecords.RecordsNonEmpty` | Singleton_Parsimony_count.py:48-54 | no emitted sequence is empty; a header followed by no sequence characters yields nothing |
| `FastaRecords.RecordsText` | Singleton_Parsimony_count.py:46-54 | the emitted sequences joined are the cleaned non-header lines joined, in order; header text never contributes |
| `FastaRecords.RecordsCount` | Singleton_Parsimony_count.py:45-54 | there are at most one more sequences than header lines |
| `FastaRecords.HeaderlessInput` | Singleton_Parsimony_count.py:45-54 | a file without headers is one sequence, not an error, or no sequence when it holds no characters |
| `VariableSites.MaxOccurrences` | Singleton_Parsimony_count.py:20-21 | the result is the count of one of the given symbols, and no given symbol occurs more often |
| `VariableSites.MostCommonCount` | Singleton_Parsimony_count.py:20-21 | `most_common(1)[0][1]`: the count of some symbol of the column that no symbol of the column exceeds |
| `VariableSites.VariablePositions` | Singleton_Parsimony_count.py:10-14 | the first loop collects, in ascending order, exactly the indices whose column has more than one distinct symbol |
| `VariableSites.ClassifyPositions` | Singleton_Parsimony_count.py:16-26 | the second loop counts, among the given positions, those whose top symbol count is 1 and those with more than one distinct symbol |
| `VariableSites.CountVariableSites` | Singleton_Parsimony_count.py:9-26 | for a non-empty list with no sequence shorter than the first, singletons are the variable columns whose most frequent symbol occurs once, and informative sites are all variable columns |
| `VariableSites.VariableIffDisagree` | Singleton_Parsimony_count.py:12-13 | a column is variable exactly when two of its symbols differ |
| `VariableSites.MostCommonIsOne` | Singleton_Parsimony_count.py:20-21 | the top count is 1 exactly when the column is non-empty and no symbol in it repeats |
| `VariableSites.SingletonIffAllDistinct` | Singleton_Parsimony_count.py:12-22 | a column is a singleton site exactly when there are at least two sequences and its symbols are pairwise distinct |
| `VariableSites.SiteBounds` | Singleton_Parsimony_count.py:16-26 | `singletons <= parsimony_informative <= len(sequences[0])` |
| `VariableSites.UniformAlignmentHasNoSites` | Singleton_Parsimony_count.py:11-14 | identical sequences, or a single sequence, give 0 for both counts |
| `AlignmentContent.AlignmentComposition` | Singleton_Parsimony_count.py:29-30 | the `Counter` of the joined sequences counts every symbol; its total, `sum(base_counts.values())`, is the number of symbols it counts and the sum of the sequence lengths; A, T, C and G together are at most that total |
| `AlignmentContent.ProcessFasta` | Singleton_Parsimony_count.py:41-57 | IndexError exactly when the split records are empty or one is shorter than the first; otherwise the two site counts, and a composition over the file's cleaned sequence text with a positive total, so the percentages cannot divide by zero |
| `BaseContent.AddBases` | base_content_calculator.py:17-19 | counting a text into a record adds each key's count of occurrences and never adds a key |
| `BaseContent.CountBases` | base_content_calculator.py:17-19 | the inner loop leaves each key's count raised by its occurrences in the line; other characters change nothing |
| `BaseContent.TallyLine` | base_content_calculator.py:12-19 | one pass of the line loop is one `Step` of the tally |
| `BaseContent.CalculateBaseContent` | base_content_calculator.py:6-21 | the loop returns exactly `Tally(lines)`, and stops at the first KeyError |
| `BaseContent.RunStopsAtError` | base_content_calculator.py:11-19 | once a line has raised, the lines after it change nothing |
| `BaseContent.HeaderLineResets` | base_content_calculator.py:12-14 | a header sets its record to exactly `{A:0, T:0, C:0, G:0}`, forgetting earlier counts of that name; it makes the name current, leaves other records alone, and appends the name to the order only when it is new |
| `BaseContent.SequenceLineTouchesCurrentOnly` | base_content_calculator.py:16-19 | a sequence line adds its occurrences of each base to the current record only; the keys, the order and the other records stay as they were |
| `BaseContent.FirstAppearances` | base_content_calculator.py:13-14 | dropping repeats keeps the same elements, each once |
| `BaseContent.LastBlockTextStep` | base_content_calculator.py:12-19 | a header of a name empties that record's text; a sequence line extends the text of the record of the latest header only |
| `BaseContent.CountsAppend` | base_content_calculator.py:17-19 | counting a record line by line gives the counts of its whole text |
| `BaseContent.RunShape` | base_content_calculator.py:10-14 | after lines that raised nothing, the keys are the header names and the order is their first appearances; the current record is `''` before any header and the latest header's name after |
| `BaseContent.RunCounts` | base_content_calculator.py:12-19 | after lines that raised nothing, every record holds the A, T, C and G counts of the lines under its last header |
| `BaseContent.RunError` | base_content_calculator.py:10-18 | the loop raises exactly when a line before the first header has a character, and the exception is KeyError('') |
| `BaseContent.TallyKeys` | base_content_calculator.py:12-14 | the keys are exactly the stripped header names; the iteration order is first appearance, with no name twice |
| `BaseContent.TallyCounts` | base_content_calculator.py:14-19 | each record's counts are the four base counts of the text under its last header; they are non-negative and sum to at most that text's length |
| `BaseContent.TallyError` | base_content_calculator.py:10-18 | `calculate_base_content` raises exactly when a sequence character comes before the first header, and then raises KeyError('') |
| `BaseContent.TallyValid` | base_content_calculator.py:7-19 | every returned dictionary has one entry per listed name, each with the four base keys and non-negative counts |
| `BaseReport.TsvRows` | base_content_calculator.py:30-35 | one row per record in order, columns T, C, A, G, each a fraction of the sum of the four counts; the fractions add up to the whole; ZeroDivisionError exactly when some record's four counts sum to 0 |
| `BaseReport.WriteTsvRows` | base_content_calculator.py:30-35 | the row loop writes exactly `TsvRows`: every row in order, or ZeroDivisionError at the first record whose counts sum to 0 |
| `BaseReport.PrintBaseContentTable` | base_content_calculator.py:23-37 | 'json' dumps the dictionary; 'tsv' writes the header line and one row per record in insertion order, or fails with ZeroDivisionError; any other type only yields the invalid-type message |
| `BaseReport.TsvReportOfTally` | base_content_calculator.py:30-34 | after a tally that succeeded, the TSV report fails exactly when some record has none of A, T, C and G under its last header |

## Left out

- Opening and reading files: both scripts take the file as its list of lines.
- Command-line handling (`sys.argv`, `argparse`) and `main`. This includes `main` passing `''` as the output path when `-o` is absent.
- Console printing.
- Floating-point arithmetic: the percentages, the AT/GC averages, `round(..., 1)` and `:.1f`. A TSV cell is kept as the exact fraction `count / total` before it is scaled and rounded. The percentages of the alignment-wide tally are left out; the model keeps only the counts and the total they would divide.
- The JSON text `json.dump` writes, and the bytes of the TSV file: `JsonDump` carries the dictionary, and `TsvLines` carries the header and rows.
- The partial TSV file left behind when a later record divides by zero: the model returns only the error.
- Unicode: `strip`, `upper` and `isspace` are modelled on ASCII. Non-ASCII whitespace and non-ASCII letters are kept unchanged.
- `BaseReport.PrintBaseContentTable`: requires a dictionary as `calculate_base_content` builds it, with every record holding the four base keys (`BaseContent.TallyValid` proves every tally meets this). The Python function would raise KeyError on a dictionary lacking a base key; no call in the script can pass one.
- `VariableSites.CountVariableSites`: requires a non-empty list with no sequence shorter than the first, instead of modelling the IndexError the Python code raises otherwise. `AlignmentContent.ProcessFasta` checks these conditions first and returns `IndexError` itself.
