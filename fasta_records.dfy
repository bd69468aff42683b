/** The line loop of `process_fasta_file`: turns the lines of a FASTA file into
    the list of record sequences, dropping header text and empty records. */
module FastaRecords {
  import opened Text
  import opened FastaLines

  /** The number of header lines in `ls`. */
  function HeaderCount(ls: seq<Line>): nat {
    if ls == [] then 0
    else HeaderCount(ls[..|ls| - 1]) + (if ls[|ls| - 1].Header? then 1 else 0)
  }

  /** The cleaned text of every non-header line, in order: all the sequence
      characters the file holds. */
  function SequenceText(lines: seq<string>): string {
    BasesText(Parse(lines))
  }

  /** The file cut at its header lines: the lines before the first header form
      the first group, and every header opens a group of its own (without the
      header line itself). */
  function Groups(ls: seq<Line>): (gs: seq<seq<Line>>)
    ensures |gs| == HeaderCount(ls) + 1
  {
    if ls == [] then [[]]
    else
      var gs := Groups(ls[..|ls| - 1]);
      var last := ls[|ls| - 1];
      if last.Header? then gs + [[]]
      else gs[..|gs| - 1] + [gs[|gs| - 1] + [last]]
  }

  /** The record sequences of `gs`, leaving out the groups whose text is empty. */
  function Emit(gs: seq<seq<Line>>): seq<string> {
    if gs == [] then []
    else
      var t := BasesText(gs[|gs| - 1]);
      Emit(gs[..|gs| - 1]) + (if t == [] then [] else [t])
  }

  /** The sequences `process_fasta_file` collects from `lines`. */
  function Records(lines: seq<string>): seq<string> {
    Emit(Groups(Parse(lines)))
  }

  /** The state of the splitting loop: the records collected so far and the
      record being read. */
  datatype Splitter = Splitter(sequences: seq<string>, current: string)

  /** One iteration of the splitting loop: a header flushes the current record
      when it is non-empty and starts an empty one; any other line extends it. */
  function Feed(st: Splitter, line: Line): Splitter {
    match line
    case Header(_) => Splitter(if st.current != "" then st.sequences + [st.current] else st.sequences, "")
    case Bases(text) => Splitter(st.sequences, st.current + text)
  }

  /** The loop state after the groups `gs`: the records of every closed group,
      and the text of the last, still open, group. */
  function Open(gs: seq<seq<Line>>): Splitter
    requires gs != []
  {
    Splitter(Emit(gs[..|gs| - 1]), BasesText(gs[|gs| - 1]))
  }

  /** Feeding one more line moves the loop state along the groups. */
  lemma FeedGroups(ls: seq<Line>, line: Line)
    ensures Feed(Open(Groups(ls)), line) == Open(Groups(ls + [line]))
  {
    var gs := Groups(ls);
    assert (ls + [line])[..|ls|] == ls;
    if line.Header? {
      assert (gs + [[]])[..|gs|] == gs;
    } else {
      var last := gs[|gs| - 1] + [line];
      BasesTextAppend(gs[|gs| - 1], line);
      assert (gs[..|gs| - 1] + [last])[..|gs| - 1] == gs[..|gs| - 1];
    }
  }

  /** One pass of the splitting loop on a line of the file. */
  method FeedLine(st: Splitter, line: string) returns (r: Splitter)
    ensures r == Feed(st, Classify(line))
  {
    var sequences, current := st.sequences, st.current;
    if IsHeader(line) {
      if current != "" {
        sequences := sequences + [current];
      }
      current := "";
    } else {
      current := current + Clean(line);
    }
    r := Splitter(sequences, current);
  }

  /** The splitting loop as written: `current` accumulates cleaned sequence
      lines, and a header, or the end of the input, flushes it when it is non-empty. */
  method SplitRecords(lines: seq<string>) returns (sequences: seq<string>)
    ensures sequences == Records(lines)
  {
    var st := Splitter([], "");
    var i := 0;
    while i < |lines|
      invariant 0 <= i <= |lines|
      invariant st == Open(Groups(Parse(lines[..i])))
    {
      st := FeedLine(st, lines[i]);
      ParseNext(lines, i);
      FeedGroups(Parse(lines[..i]), Classify(lines[i]));
      i := i + 1;
    }
    assert lines[..i] == lines;
    RecordsOfOpen(Parse(lines));
    sequences := st.sequences;
    if st.current != "" {
      sequences := sequences + [st.current];
    }
  }

  /** At the end of the input the open group is flushed like any other. */
  lemma RecordsOfOpen(ls: seq<Line>)
    ensures var st := Open(Groups(ls));
      Emit(Groups(ls)) == if st.current != "" then st.sequences + [st.current] else st.sequences
  {
    var gs := Groups(ls);
    assert gs == gs[..|gs| - 1] + [gs[|gs| - 1]];
  }

  /** No emitted record is empty. */
  lemma {:induction false} EmitNonEmpty(gs: seq<seq<Line>>)
    ensures forall k :: 0 <= k < |Emit(gs)| ==> Emit(gs)[k] != []
    decreases |gs|
  {
    if gs != [] {
      EmitNonEmpty(gs[..|gs| - 1]);
    }
  }

  /** Every record the splitter returns is a non-empty sequence: a header
      followed by no sequence characters yields nothing. */
  lemma RecordsNonEmpty(lines: seq<string>)
    ensures forall k :: 0 <= k < |Records(lines)| ==> Records(lines)[k] != []
  {
    EmitNonEmpty(Groups(Parse(lines)));
  }

  lemma {:induction false} EmitLength(gs: seq<seq<Line>>)
    ensures |Emit(gs)| <= |gs|
    decreases |gs|
  {
    if gs != [] {
      EmitLength(gs[..|gs| - 1]);
    }
  }

  /** At most one record per header, plus one for the lines before the first header. */
  lemma RecordsCount(lines: seq<string>)
    ensures |Records(lines)| <= HeaderCount(Parse(lines)) + 1
  {
    EmitLength(Groups(Parse(lines)));
  }

  /** The text of the groups, joined, empty groups included. */
  function AllBasesText(gs: seq<seq<Line>>): string {
    if gs == [] then [] else AllBasesText(gs[..|gs| - 1]) + BasesText(gs[|gs| - 1])
  }

  lemma {:induction false} JoinEmit(gs: seq<seq<Line>>)
    ensures Join(Emit(gs)) == AllBasesText(gs)
    decreases |gs|
  {
    if gs != [] {
      var init := gs[..|gs| - 1];
      var t := BasesText(gs[|gs| - 1]);
      JoinEmit(init);
      JoinAppend(Emit(init), if t == [] then [] else [t]);
      if t != [] {
        assert Join([t]) == Join([t][..0]) + t;
      }
    }
  }

  lemma AllBasesTextSnoc(init: seq<seq<Line>>, g: seq<Line>)
    ensures AllBasesText(init + [g]) == AllBasesText(init) + BasesText(g)
  {
    assert (init + [g])[..|init|] == init;
  }

  lemma AllBasesTextNewGroup(gs: seq<seq<Line>>)
    ensures AllBasesText(gs + [[]]) == AllBasesText(gs)
  {
    AllBasesTextSnoc(gs, []);
  }

  lemma AllBasesTextExtendLast(gs: seq<seq<Line>>, line: Line)
    requires gs != []
    ensures AllBasesText(gs[..|gs| - 1] + [gs[|gs| - 1] + [line]]) == AllBasesText(gs) + (if line.Bases? then line.text else [])
  {
    var init, g := gs[..|gs| - 1], gs[|gs| - 1];
    assert gs == init + [g];
    AllBasesTextSnoc(init, g);
    AllBasesTextSnoc(init, g + [line]);
    BasesTextAppend(g, line);
    ConcatAssoc(AllBasesText(init), BasesText(g), if line.Bases? then line.text else []);
  }

  lemma {:induction false} GroupsText(ls: seq<Line>)
    ensures AllBasesText(Groups(ls)) == BasesText(ls)
    decreases |ls|
  {
    if ls != [] {
      var init := ls[..|ls| - 1];
      var last := ls[|ls| - 1];
      assert ls == init + [last];
      GroupsText(init);
      BasesTextAppend(init, last);
      if last.Header? {
        AllBasesTextNewGroup(Groups(init));
      } else {
        AllBasesTextExtendLast(Groups(init), last);
      }
    }
  }

  /** The records, joined, are exactly the cleaned non-header lines in order:
      no header text is kept and no sequence character is lost. */
  lemma RecordsText(lines: seq<string>)
    ensures Join(Records(lines)) == SequenceText(lines)
  {
    JoinEmit(Groups(Parse(lines)));
    GroupsText(Parse(lines));
  }

  lemma {:induction false} HeaderlessGroups(ls: seq<Line>)
    requires forall k :: 0 <= k < |ls| ==> ls[k].Bases?
    ensures Groups(ls) == [ls]
    decreases |ls|
  {
    if ls != [] {
      var init := ls[..|ls| - 1];
      HeaderlessGroups(init);
      assert init + [ls[|ls| - 1]] == ls;
    }
  }

  /** A file without header lines is one record (the lines are not rejected),
      or none when it holds no sequence characters. */
  lemma HeaderlessInput(lines: seq<string>)
    requires forall k :: 0 <= k < |lines| ==> !IsHeader(lines[k])
    ensures Records(lines) == (if SequenceText(lines) == [] then [] else [SequenceText(lines)])
  {
    var ls := Parse(lines);
    forall k | 0 <= k < |ls|
      ensures ls[k].Bases?
    {
      ParseAt(lines, k);
    }
    HeaderlessGroups(ls);
    assert [ls][..0] == [];
    assert Emit([ls]) == Emit([]) + (if BasesText(ls) == [] then [] else [BasesText(ls)]);
  }
}
