/** The lines of a FASTA file as both scripts read them: a line starting with
    '>' is a header, any other line contributes its stripped, upper-cased text. */
module FastaLines {
  import opened Text

  /** A line as the loops read it: a line starting with '>' is a header naming
      the record `line[1:].strip()`; any other line contributes the characters
      of `line.strip().upper()`. */
  datatype Line = Header(name: string) | Bases(text: string)

  function Classify(line: string): Line {
    if IsHeader(line) then Header(HeaderName(line)) else Bases(Clean(line))
  }

  /** The lines of a file, classified. */
  function Parse(lines: seq<string>): (ls: seq<Line>)
    ensures |ls| == |lines|
  {
    if lines == [] then [] else Parse(lines[..|lines| - 1]) + [Classify(lines[|lines| - 1])]
  }

  lemma {:induction false} ParsePrefix(lines: seq<string>, n: nat)
    requires n <= |lines|
    ensures Parse(lines)[..n] == Parse(lines[..n])
    decreases |lines|
  {
    if n < |lines| {
      var init := lines[..|lines| - 1];
      ParsePrefix(init, n);
      assert init[..n] == lines[..n];
      assert Parse(lines)[..n] == Parse(init)[..n];
    } else {
      assert lines[..n] == lines;
    }
  }

  lemma ParseAppend(lines: seq<string>, line: string)
    ensures Parse(lines + [line]) == Parse(lines) + [Classify(line)]
  {
    assert (lines + [line])[..|lines|] == lines;
  }

  /** Reading one more line of the file classifies it. */
  lemma ParseNext(lines: seq<string>, i: nat)
    requires i < |lines|
    ensures Parse(lines[..i + 1]) == Parse(lines[..i]) + [Classify(lines[i])]
  {
    assert lines[..i + 1] == lines[..i] + [lines[i]];
    ParseAppend(lines[..i], lines[i]);
  }

  /** Each line is classified on its own. */
  lemma {:induction false} ParseAt(lines: seq<string>, k: nat)
    requires k < |lines|
    ensures Parse(lines)[k] == Classify(lines[k])
    decreases |lines|
  {
    if k < |lines| - 1 {
      ParseAt(lines[..|lines| - 1], k);
    }
  }

  /** The characters the sequence lines of `ls` contribute, in order. */
  function BasesText(ls: seq<Line>): string {
    if ls == [] then []
    else
      var last := ls[|ls| - 1];
      BasesText(ls[..|ls| - 1]) + (if last.Bases? then last.text else [])
  }

  lemma BasesTextAppend(xs: seq<Line>, line: Line)
    ensures BasesText(xs + [line]) == BasesText(xs) + (if line.Bases? then line.text else [])
  {
    assert (xs + [line])[..|xs|] == xs;
  }
}
