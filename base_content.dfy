/** `calculate_base_content` of the base-content script: a tally of A, T, C
    and G per record, in a dictionary keyed by header name. */
module BaseContent {
  import opened Outcomes
  import opened Text
  import opened FastaLines

  /** The counts of one record: `{'A': .., 'T': .., 'C': .., 'G': ..}`. */
  type Counts = map<char, int>

  /** The counts a header line installs. */
  const ZeroCounts: Counts := map['A' := 0, 'T' := 0, 'C' := 0, 'G' := 0]

  /** The dictionary `sequences`: the counts of every record name, and the
      names in the order they were first inserted, which is the order Python
      iterates a dictionary in (assigning to an existing key keeps its place). */
  datatype Table = Table(records: map<string, Counts>, order: seq<string>)

  /** The state of the line loop: the dictionary and `current_seq`. */
  datatype State = State(table: Table, current: string)

  const Initial: State := State(Table(map[], []), "")

  // ---------------------------------------------------------------------------
  // The tally, one line at a time

  /** The inner loop `for base in sequence` on one record's counts: every
      character that is a key of the counts is counted, any other is skipped. */
  function AddBases(counts: Counts, s: string): (r: Counts)
    ensures r.Keys == counts.Keys
    ensures forall b :: b in counts ==> r[b] == counts[b] + Occurrences(s, b)
  {
    if s == [] then counts
    else
      var b := s[0];
      AddBases(if b in counts then counts[b := counts[b] + 1] else counts, s[1..])
  }

  /** One iteration of the line loop. A header names the current record and
      (re)sets its counts to zero. A sequence line with characters looks the
      current record up, which raises KeyError when no header has named it,
      and counts its bases there. */
  function Step(st: State, line: Line): Result<State> {
    match line
    case Header(name) =>
      var order := if name in st.table.records then st.table.order else st.table.order + [name];
      Ok(State(Table(st.table.records[name := ZeroCounts], order), name))
    case Bases(text) =>
      if text == [] then Ok(st)
      else if st.current !in st.table.records then Err(KeyError(st.current))
      else
        var counts := AddBases(st.table.records[st.current], text);
        Ok(st.(table := st.table.(records := st.table.records[st.current := counts])))
  }

  /** The line loop over `ls`, stopping at the first error. */
  function Run(ls: seq<Line>): Result<State> {
    if ls == [] then Ok(Initial)
    else
      match Run(ls[..|ls| - 1])
      case Err(e) => Err(e)
      case Ok(st) => Step(st, ls[|ls| - 1])
  }

  /** What `calculate_base_content` returns for a file of `lines`. */
  function Tally(lines: seq<string>): Result<Table> {
    match Run(Parse(lines))
    case Err(e) => Err(e)
    case Ok(st) => Ok(st.table)
  }

  lemma RunAppend(ls: seq<Line>, line: Line)
    ensures Run(ls + [line]) == match Run(ls)
                                case Err(e) => Err(e)
                                case Ok(st) => Step(st, line)
  {
    assert (ls + [line])[..|ls|] == ls;
  }

  /** Once the loop has raised, the remaining lines change nothing. */
  lemma {:induction false} RunStopsAtError(ls: seq<Line>, n: nat)
    requires n <= |ls|
    requires Run(ls[..n]).Err?
    ensures Run(ls) == Run(ls[..n])
    decreases |ls| - n
  {
    if n < |ls| {
      assert ls[..n + 1] == ls[..n] + [ls[n]];
      RunAppend(ls[..n], ls[n]);
      RunStopsAtError(ls, n + 1);
    } else {
      assert ls[..n] == ls;
    }
  }

  lemma AddBasesFirst(counts: Counts, s: string)
    requires s != []
    ensures AddBases(counts, s) == AddBases(if s[0] in counts then counts[s[0] := counts[s[0]] + 1] else counts, s[1..])
  {
  }

  /** The inner loop `for base in sequence`, on the record's dictionary: each
      character that is one of its keys adds one to that key. */
  method CountBases(counts: Counts, sequence: string) returns (r: Counts)
    ensures r == AddBases(counts, sequence)
  {
    r := counts;
    var k: nat := 0;
    while k < |sequence|
      invariant k <= |sequence|
      invariant AddBases(r, sequence[k..]) == AddBases(counts, sequence)
    {
      var base := sequence[k];
      AddBasesFirst(r, sequence[k..]);
      assert sequence[k..][1..] == sequence[k + 1..];
      if base in r {
        r := r[base := r[base] + 1];
      }
      k := k + 1;
    }
  }

  /** One pass of the line loop of `calculate_base_content` as written: a
      header installs fresh counts; a sequence line runs the inner loop over its
      cleaned characters, after the dictionary lookup that fails when no header
      has named the current record. */
  method TallyLine(st: State, line: string) returns (r: Result<State>)
    ensures r == Step(st, Classify(line))
  {
    var records := st.table.records;
    var order := st.table.order;
    var current := st.current;
    if IsHeader(line) {
      current := HeaderName(line);
      if current !in records {
        order := order + [current];
      }
      records := records[current := ZeroCounts];
    } else {
      var sequence := Clean(line);
      if sequence != [] {
        if current !in records {
          // the lookup `sequences[current_seq]` made for the first base
          return Err(KeyError(current));
        }
        var counts := CountBases(records[current], sequence);
        records := records[current := counts];
      }
    }
    r := Ok(State(Table(records, order), current));
  }

  /** `calculate_base_content` as written: the line loop, stopping at the
      first exception. */
  method CalculateBaseContent(lines: seq<string>) returns (r: Result<Table>)
    ensures r == Tally(lines)
  {
    var st := Initial;
    var i: nat := 0;
    while i < |lines|
      invariant i <= |lines|
      invariant Run(Parse(lines[..i])) == Ok(st)
    {
      var next := TallyLine(st, lines[i]);
      assert lines[..i + 1][..i] == lines[..i];
      RunAppend(Parse(lines[..i]), Classify(lines[i]));
      if next.Err? {
        ParsePrefix(lines, i + 1);
        RunStopsAtError(Parse(lines), i + 1);
        return Err(next.error);
      }
      st := next.value;
      i := i + 1;
    }
    assert lines[..i] == lines;
    r := Ok(st.table);
  }

  /** A header line never fails: it makes its name the current record, sets
      that record to four zero counts (forgetting what an earlier header of the
      same name had counted), leaves every other record alone, and appends the
      name to the order only when it is new. */
  lemma HeaderLineResets(st: State, name: string)
    ensures Step(st, Header(name)).Ok?
    ensures var st' := Step(st, Header(name)).value;
      && st'.current == name
      && st'.table.records[name] == map['A' := 0, 'T' := 0, 'C' := 0, 'G' := 0]
      && st'.table.records.Keys == st.table.records.Keys + {name}
      && (forall n :: n in st.table.records && n != name ==> st'.table.records[n] == st.table.records[n])
      && st'.table.order == if name in st.table.records then st.table.order else st.table.order + [name]
  {
  }

  /** A sequence line changes the current record only: every other record, the
      insertion order and the current name stay as they were, and the current
      record gains the occurrences of each base in the line. */
  lemma SequenceLineTouchesCurrentOnly(st: State, text: string)
    requires Step(st, Bases(text)).Ok?
    ensures var st' := Step(st, Bases(text)).value;
      && st'.current == st.current && st'.table.order == st.table.order
      && st'.table.records.Keys == st.table.records.Keys
      && (forall n :: n in st.table.records && n != st.current ==> st'.table.records[n] == st.table.records[n])
      && (st.current in st.table.records ==>
            forall b :: b in st.table.records[st.current] ==>
              st'.table.records[st.current][b] == st.table.records[st.current][b] + Occurrences(text, b))
  {
  }

  // ---------------------------------------------------------------------------
  // Reference definitions over the whole file

  /** The names the header lines of `ls` introduce, in order, repeats included. */
  function HeaderNames(ls: seq<Line>): seq<string> {
    if ls == [] then []
    else
      var last := ls[|ls| - 1];
      HeaderNames(ls[..|ls| - 1]) + (if last.Header? then [last.name] else [])
  }

  predicate NoRepeats(xs: seq<string>) {
    forall i, j :: 0 <= i < j < |xs| ==> xs[i] != xs[j]
  }

  /** `xs` with every repeat dropped, each element kept where it first appears. */
  function FirstAppearances(xs: seq<string>): (r: seq<string>)
    ensures forall x :: x in r <==> x in xs
    ensures NoRepeats(r)
  {
    if xs == [] then []
    else
      var x := xs[|xs| - 1];
      var prev := FirstAppearances(xs[..|xs| - 1]);
      assert xs == xs[..|xs| - 1] + [x];
      if x in xs[..|xs| - 1] then prev else prev + [x]
  }

  /** The index of the last header line of `ls` naming `name`, or -1. */
  function LastHeader(ls: seq<Line>, name: string): (j: int)
    ensures -1 <= j < |ls|
    ensures j >= 0 ==> ls[j] == Header(name)
  {
    if ls == [] then -1
    else if ls[|ls| - 1] == Header(name) then |ls| - 1
    else LastHeader(ls[..|ls| - 1], name)
  }

  /** The index of the last header line of `ls`, or -1. */
  function LastAnyHeader(ls: seq<Line>): (j: int)
    ensures -1 <= j < |ls|
    ensures j >= 0 ==> ls[j].Header?
  {
    if ls == [] then -1
    else if ls[|ls| - 1].Header? then |ls| - 1
    else LastAnyHeader(ls[..|ls| - 1])
  }

  /** The characters of the sequence lines of `ls` whose nearest header line
      above is the one at index `j`; with `j == -1`, of the sequence lines above
      every header. */
  function TextUnder(ls: seq<Line>, j: int): string {
    if ls == [] then []
    else
      var init := ls[..|ls| - 1];
      var last := ls[|ls| - 1];
      TextUnder(init, j) + (if last.Bases? && LastAnyHeader(init) == j then last.text else [])
  }

  /** The sequence text of the record `name` as it stands after `ls`: the
      characters of the sequence lines under the last header naming it. Empty
      when no header names it. */
  function LastBlockText(ls: seq<Line>, name: string): string {
    var j := LastHeader(ls, name);
    if j < 0 then [] else TextUnder(ls, j)
  }

  /** The counts of the four bases in `s`; no other character is counted. */
  function CountsOf(s: string): (r: Counts)
    ensures r.Keys == ZeroCounts.Keys
    ensures forall b :: b in r ==> r[b] >= 0
    ensures r['A'] + r['T'] + r['C'] + r['G'] <= |s|
  {
    BaseOccurrencesBound(s);
    map['A' := Occurrences(s, 'A'), 'T' := Occurrences(s, 'T'), 'C' := Occurrences(s, 'C'), 'G' := Occurrences(s, 'G')]
  }

  // ---------------------------------------------------------------------------
  // Lemmas over the reference definitions

  lemma {:induction false} HeaderNamesLast(ls: seq<Line>, name: string)
    ensures name in HeaderNames(ls) <==> LastHeader(ls, name) >= 0
    decreases |ls|
  {
    if ls != [] {
      HeaderNamesLast(ls[..|ls| - 1], name);
    }
  }

  lemma TextUnderAppend(ls: seq<Line>, line: Line, j: int)
    ensures TextUnder(ls + [line], j) ==
      TextUnder(ls, j) + (if line.Bases? && LastAnyHeader(ls) == j then line.text else [])
  {
    assert (ls + [line])[..|ls|] == ls;
  }

  /** No line lies under a header that has not come yet. */
  lemma {:induction false} TextUnderFresh(ls: seq<Line>, j: int)
    requires |ls| <= j
    ensures TextUnder(ls, j) == []
    decreases |ls|
  {
    if ls != [] {
      TextUnderFresh(ls[..|ls| - 1], j);
    }
  }

  lemma LastHeaderAppend(ls: seq<Line>, line: Line, name: string)
    ensures LastHeader(ls + [line], name) == if line == Header(name) then |ls| else LastHeader(ls, name)
    ensures LastAnyHeader(ls + [line]) == if line.Header? then |ls| else LastAnyHeader(ls)
  {
    assert (ls + [line])[..|ls|] == ls;
  }

  /** How the text of the record `name` changes with one more line: a header
      naming it empties it; a sequence line extends it when `name` is the
      current record; nothing else touches it. */
  lemma LastBlockTextStep(ls: seq<Line>, line: Line, name: string)
    ensures LastBlockText(ls + [line], name) ==
      if line == Header(name) then []
      else if line.Bases? && 0 <= LastHeader(ls, name) == LastAnyHeader(ls) then LastBlockText(ls, name) + line.text
      else LastBlockText(ls, name)
  {
    LastHeaderAppend(ls, line, name);
    if line == Header(name) {
      TextUnderAppend(ls, line, |ls|);
      TextUnderFresh(ls, |ls|);
    } else if LastHeader(ls, name) >= 0 {
      TextUnderAppend(ls, line, LastHeader(ls, name));
    }
  }

  /** Counting a record's bases line by line gives the counts of its text. */
  lemma CountsAppend(s: string, t: string)
    ensures AddBases(CountsOf(s), t) == CountsOf(s + t)
  {
    var l := AddBases(CountsOf(s), t);
    var r := CountsOf(s + t);
    forall b | b in l
      ensures l[b] == r[b]
    {
      OccurrencesAppend(s, t, b);
    }
    assert l.Keys == r.Keys;
  }

  // ---------------------------------------------------------------------------
  // What the tally holds after a whole file

  /** The shape of the dictionary after lines that raised no error: its keys
      are the header names, its order is their first appearances, and the
      current record is the one the last header named ('' before any header). */
  lemma {:induction false} RunShape(ls: seq<Line>)
    requires Run(ls).Ok?
    ensures var st := Run(ls).value;
      && (forall n :: n in st.table.records <==> n in HeaderNames(ls))
      && st.table.order == FirstAppearances(HeaderNames(ls))
      && (LastAnyHeader(ls) < 0 ==> st.current == "" && st.table.records == map[])
      && (LastAnyHeader(ls) >= 0 ==>
            && ls[LastAnyHeader(ls)] == Header(st.current)
            && LastHeader(ls, st.current) == LastAnyHeader(ls)
            && st.current in st.table.records)
    decreases |ls|
  {
    if ls != [] {
      var init := ls[..|ls| - 1];
      var line := ls[|ls| - 1];
      assert ls == init + [line];
      RunShape(init);
      LastHeaderAppend(init, line, Run(init).value.current);
      var names := HeaderNames(init);
      if line.Header? {
        assert HeaderNames(ls) == names + [line.name];
        assert (names + [line.name])[..|names|] == names;
        LastHeaderAppend(init, line, line.name);
        HeaderNamesLast(ls, line.name);
      } else {
        assert HeaderNames(ls) == names;
      }
    }
  }

  /** Every record of `st` counts the bases of its text in `ls`. */
  ghost predicate CountsMatch(st: State, ls: seq<Line>) {
    forall n :: n in st.table.records ==> st.table.records[n] == CountsOf(LastBlockText(ls, n))
  }

  /** A header line keeps the counts matching: its record restarts from zero,
      the others keep their text. */
  lemma HeaderKeepsCounts(ls: seq<Line>, st: State, name: string)
    requires CountsMatch(st, ls)
    ensures CountsMatch(Step(st, Header(name)).value, ls + [Header(name)])
  {
    var records := Step(st, Header(name)).value.table.records;
    forall n | n in records
      ensures records[n] == CountsOf(LastBlockText(ls + [Header(name)], n))
    {
      LastBlockTextStep(ls, Header(name), n);
      if n == name {
        assert CountsOf([]) == ZeroCounts;
      }
    }
  }

  /** Once the current record exists, it is the one the last header named. */
  lemma CurrentIsLastHeader(ls: seq<Line>)
    requires Run(ls).Ok? && Run(ls).value.current in Run(ls).value.table.records
    ensures var j := LastAnyHeader(ls);
      0 <= j && ls[j] == Header(Run(ls).value.current) && LastHeader(ls, Run(ls).value.current) == j
  {
    RunShape(ls);
  }

  /** A line with no characters changes no record's text. */
  lemma EmptyLineKeepsCounts(ls: seq<Line>, st: State)
    requires CountsMatch(st, ls)
    ensures CountsMatch(st, ls + [Bases([])])
  {
    forall n | n in st.table.records
      ensures st.table.records[n] == CountsOf(LastBlockText(ls + [Bases([])], n))
    {
      LastBlockTextStep(ls, Bases([]), n);
      assert LastBlockText(ls, n) + [] == LastBlockText(ls, n);
    }
  }

  /** A sequence line with characters extends the text of the current record,
      and of no other. */
  lemma BasesLineCounts(ls: seq<Line>, st: State, text: string, n: string)
    requires Run(ls) == Ok(st) && st.current in st.table.records
    requires CountsMatch(st, ls)
    requires text != [] && n in st.table.records
    ensures Step(st, Bases(text)).value.table.records[n] == CountsOf(LastBlockText(ls + [Bases(text)], n))
  {
    CurrentIsLastHeader(ls);
    LastBlockTextStep(ls, Bases(text), n);
    if n == st.current {
      CountsAppend(LastBlockText(ls, n), text);
    }
  }

  /** A sequence line keeps the counts matching: it extends the text of the
      current record only, which is the record of the last header. */
  lemma BasesKeepCounts(ls: seq<Line>, st: State, text: string)
    requires Run(ls) == Ok(st)
    requires CountsMatch(st, ls)
    requires Step(st, Bases(text)).Ok?
    ensures CountsMatch(Step(st, Bases(text)).value, ls + [Bases(text)])
  {
    if text == [] {
      EmptyLineKeepsCounts(ls, st);
    } else {
      var records := Step(st, Bases(text)).value.table.records;
      forall n | n in records
        ensures records[n] == CountsOf(LastBlockText(ls + [Bases(text)], n))
      {
        BasesLineCounts(ls, st, text, n);
      }
    }
  }

  /** The counts of each record are the numbers of A, T, C and G in its text:
      the sequence lines after the last header of that name, up to the next
      header. An earlier header of the same name, and its lines, are forgotten. */
  lemma {:induction false} RunCounts(ls: seq<Line>)
    requires Run(ls).Ok?
    ensures CountsMatch(Run(ls).value, ls)
    decreases |ls|
  {
    if ls != [] {
      var init := ls[..|ls| - 1];
      var line := ls[|ls| - 1];
      assert ls == init + [line];
      RunCounts(init);
      match line
      case Header(name) => HeaderKeepsCounts(init, Run(init).value, name);
      case Bases(text) => BasesKeepCounts(init, Run(init).value, text);
    }
  }

  /** A tally that has already failed keeps failing, with text before the
      first header. */
  lemma ErrorStays(ls: seq<Line>, line: Line)
    requires Run(ls).Err? && TextUnder(ls, -1) != []
    ensures Run(ls + [line]) == Run(ls)
    ensures TextUnder(ls + [line], -1) != []
  {
    RunAppend(ls, line);
    TextUnderAppend(ls, line, -1);
  }

  /** A tally that has not failed fails on the next line exactly when that line
      has characters and no header has come yet. */
  lemma ErrorStarts(ls: seq<Line>, line: Line)
    requires Run(ls).Ok? && TextUnder(ls, -1) == []
    ensures Run(ls + [line]).Err? <==> TextUnder(ls + [line], -1) != []
    ensures Run(ls + [line]).Err? ==> Run(ls + [line]).error == KeyError("")
  {
    RunAppend(ls, line);
    TextUnderAppend(ls, line, -1);
    RunShape(ls);
  }

  /** The tally fails exactly when a sequence line before the first header
      holds a character, and then the error is the lookup of the name ''. */
  lemma {:induction false} RunError(ls: seq<Line>)
    ensures Run(ls).Err? <==> TextUnder(ls, -1) != []
    ensures Run(ls).Err? ==> Run(ls).error == KeyError("")
    decreases |ls|
  {
    if ls != [] {
      var init := ls[..|ls| - 1];
      var line := ls[|ls| - 1];
      assert ls == init + [line];
      RunError(init);
      if Run(init).Err? {
        ErrorStays(init, line);
      } else {
        ErrorStarts(init, line);
      }
    }
  }

  /** The keys of the dictionary are exactly the names of the file's header
      lines, its iteration order is the order in which each name first
      appears, and no name is listed twice. */
  lemma TallyKeys(lines: seq<string>)
    requires Tally(lines).Ok?
    ensures forall n :: n in Tally(lines).value.records <==> n in HeaderNames(Parse(lines))
    ensures Tally(lines).value.order == FirstAppearances(HeaderNames(Parse(lines)))
    ensures NoRepeats(Tally(lines).value.order)
  {
    RunShape(Parse(lines));
  }

  /** After a file that raised no error, every record counts exactly the four
      bases of its text; the counts are non-negative and together no more than
      the number of characters of that text. */
  lemma TallyCounts(lines: seq<string>, name: string)
    requires Tally(lines).Ok? && name in Tally(lines).value.records
    ensures Tally(lines).value.records[name] == CountsOf(LastBlockText(Parse(lines), name))
    ensures var c := Tally(lines).value.records[name];
      && c.Keys == ZeroCounts.Keys
      && c['A'] >= 0 && c['T'] >= 0 && c['C'] >= 0 && c['G'] >= 0
      && c['A'] + c['T'] + c['C'] + c['G'] <= |LastBlockText(Parse(lines), name)|
  {
    RunCounts(Parse(lines));
  }

  /** `calculate_base_content` raises exactly when a line before the first
      header holds a sequence character, and the exception is KeyError('').
      Otherwise it returns the dictionary. */
  lemma TallyError(lines: seq<string>)
    ensures Tally(lines).Err? <==> TextUnder(Parse(lines), -1) != []
    ensures Tally(lines).Err? ==> Tally(lines).error == KeyError("")
  {
    RunError(Parse(lines));
  }

  /** Counts with the four base keys and no negative value. */
  predicate ValidCounts(c: Counts) {
    && 'A' in c && 'T' in c && 'C' in c && 'G' in c
    && c.Keys <= {'A', 'T', 'C', 'G'}
    && forall b :: b in c ==> c[b] >= 0
  }

  /** A dictionary as `calculate_base_content` builds it. */
  ghost predicate ValidTable(t: Table) {
    && (forall n :: n in t.records <==> n in t.order)
    && NoRepeats(t.order)
    && (forall n :: n in t.records ==> ValidCounts(t.records[n]))
  }

  /** Every dictionary the tally returns has one entry per listed name, each
      with the four base counts. */
  lemma TallyValid(lines: seq<string>)
    requires Tally(lines).Ok?
    ensures ValidTable(Tally(lines).value)
  {
    var ls := Parse(lines);
    var t := Tally(lines).value;
    RunShape(ls);
    assert t.order == FirstAppearances(HeaderNames(ls));
    RunCounts(ls);
    forall n | n in t.records
      ensures ValidCounts(t.records[n])
    {
      var c := CountsOf(LastBlockText(ls, n));
      assert t.records[n] == c;
    }
  }
}
