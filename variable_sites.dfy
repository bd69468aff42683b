/** `count_variable_sites`: classifies the columns of an alignment as variable,
    singleton and (as the code defines it) parsimony-informative. */
module VariableSites {
  import opened Text

  /** What the classifier can index without an IndexError: at least one
      sequence, and none shorter than the first (whose length sets the columns). */
  predicate Indexable(seqs: seq<string>) {
    |seqs| > 0 && forall k :: 0 <= k < |seqs| ==> |seqs[k]| >= |seqs[0]|
  }

  /** The number of columns the classifier visits, `len(sequences[0])`. */
  function Width(seqs: seq<string>): nat
    requires |seqs| > 0
  {
    |seqs[0]|
  }

  /** The symbols at position `i`, one per sequence. */
  function Column(seqs: seq<string>, i: nat): (col: seq<char>)
    requires Indexable(seqs) && i < Width(seqs)
    ensures |col| == |seqs|
    ensures forall k :: 0 <= k < |seqs| ==> col[k] == seqs[k][i]
  {
    seq(|seqs|, k requires 0 <= k < |seqs| => seqs[k][i])
  }

  /** The set of distinct symbols of a column, `set(...)` in the source. */
  function Symbols(col: seq<char>): set<char> {
    set c | c in col
  }

  /** A column is variable when it holds more than one distinct symbol. */
  predicate IsVariable(col: seq<char>) {
    |Symbols(col)| > 1
  }

  /** The largest count in `col` of a symbol of `xs`. */
  function MaxOccurrences(col: seq<char>, xs: seq<char>): (r: nat)
    ensures forall k :: 0 <= k < |xs| ==> Occurrences(col, xs[k]) <= r
    ensures xs == [] ==> r == 0
    ensures xs != [] ==> exists k :: 0 <= k < |xs| && Occurrences(col, xs[k]) == r
  {
    if xs == [] then 0
    else
      var rest := MaxOccurrences(col, xs[1..]);
      if Occurrences(col, xs[0]) >= rest then Occurrences(col, xs[0])
      else
        var k :| 0 <= k < |xs[1..]| && Occurrences(col, xs[1..][k]) == rest;
        assert Occurrences(col, xs[k + 1]) == rest;
        rest
  }

  /** `Counter(col).most_common(1)[0][1]`: how often the most frequent symbol occurs. */
  function MostCommonCount(col: seq<char>): (r: nat)
    ensures forall k :: 0 <= k < |col| ==> Occurrences(col, col[k]) <= r
    ensures col == [] ==> r == 0
    ensures col != [] ==> exists k :: 0 <= k < |col| && Occurrences(col, col[k]) == r
  {
    MaxOccurrences(col, col)
  }

  /** The singleton test of the source: the most frequent symbol occurs once. */
  predicate IsSingletonColumn(col: seq<char>) {
    MostCommonCount(col) == 1
  }

  /** No symbol of the column occurs twice. */
  ghost predicate AllDistinct(col: seq<char>) {
    forall j, k :: 0 <= j < k < |col| ==> col[j] != col[k]
  }

  /** Whether column `i` is variable, the test of the first loop. */
  ghost predicate IsVariableSite(seqs: seq<string>, i: nat)
    requires Indexable(seqs) && i < Width(seqs)
  {
    IsVariable(Column(seqs, i))
  }

  /** Whether column `i` is a singleton site: variable, and its most frequent
      symbol occurs once. */
  ghost predicate IsSingletonSite(seqs: seq<string>, i: nat)
    requires Indexable(seqs) && i < Width(seqs)
  {
    IsVariable(Column(seqs, i)) && IsSingletonColumn(Column(seqs, i))
  }

  /** For each of the first `n` columns, whether it is variable. */
  ghost function VariableFlags(seqs: seq<string>, n: nat): (fs: seq<bool>)
    requires Indexable(seqs) && n <= Width(seqs)
    ensures |fs| == n
  {
    if n == 0 then [] else VariableFlags(seqs, n - 1) + [IsVariable(Column(seqs, n - 1))]
  }

  /** For each of the first `n` columns, whether its most frequent symbol occurs once. */
  ghost function MostCommonFlags(seqs: seq<string>, n: nat): (fs: seq<bool>)
    requires Indexable(seqs) && n <= Width(seqs)
    ensures |fs| == n
  {
    if n == 0 then [] else MostCommonFlags(seqs, n - 1) + [IsSingletonColumn(Column(seqs, n - 1))]
  }

  /** The flags of column `i` are its two tests. */
  lemma {:induction false} FlagsAt(seqs: seq<string>, n: nat, i: nat)
    requires Indexable(seqs) && i < n <= Width(seqs)
    ensures VariableFlags(seqs, n)[i] == IsVariable(Column(seqs, i))
    ensures MostCommonFlags(seqs, n)[i] == IsSingletonColumn(Column(seqs, i))
  {
    if i < n - 1 {
      FlagsAt(seqs, n - 1, i);
    }
  }

  /** The number of variable columns of the alignment. */
  ghost function VariableSites(seqs: seq<string>): nat
    requires Indexable(seqs)
  {
    CountTrue(VariableFlags(seqs, Width(seqs)))
  }

  /** The number of singleton columns of the alignment: variable columns whose
      most frequent symbol occurs once. */
  ghost function SingletonSites(seqs: seq<string>): nat
    requires Indexable(seqs)
  {
    CountBoth(VariableFlags(seqs, Width(seqs)), MostCommonFlags(seqs, Width(seqs)))
  }

  /** The number of `true` entries of `fs`. */
  ghost function CountTrue(fs: seq<bool>): nat {
    if fs == [] then 0 else CountTrue(fs[..|fs| - 1]) + (if fs[|fs| - 1] then 1 else 0)
  }

  /** The number of indices where both `a` and `b` are `true`. */
  ghost function CountBoth(a: seq<bool>, b: seq<bool>): nat
    requires |a| == |b|
  {
    if a == [] then 0
    else CountBoth(a[..|a| - 1], b[..|b| - 1]) + (if a[|a| - 1] && b[|b| - 1] then 1 else 0)
  }

  /** The indices where `fs` is `true`, in ascending order. */
  ghost function IndicesOf(fs: seq<bool>): (ps: seq<nat>)
    ensures forall k :: 0 <= k < |ps| ==> ps[k] < |fs| && fs[ps[k]]
  {
    if fs == [] then [] else IndicesOf(fs[..|fs| - 1]) + (if fs[|fs| - 1] then [|fs| - 1] else [])
  }

  /** The number of entries of `ps` at which `fs` is `true`. */
  ghost function CountAt(fs: seq<bool>, ps: seq<nat>): nat
    requires forall k :: 0 <= k < |ps| ==> ps[k] < |fs|
  {
    if ps == [] then 0 else CountAt(fs, ps[..|ps| - 1]) + (if fs[ps[|ps| - 1]] then 1 else 0)
  }

  /** Testing `b` at the indices where `a` holds counts the indices where both hold. */
  lemma {:induction false} CountAtIndices(a: seq<bool>, b: seq<bool>)
    requires |a| == |b|
    ensures CountAt(b, IndicesOf(a)) == CountBoth(a, b)
    ensures CountAt(a, IndicesOf(a)) == CountTrue(a)
  {
    if a != [] {
      var a', b' := a[..|a| - 1], b[..|b| - 1];
      CountAtIndices(a', b');
      var ps := IndicesOf(a');
      CountAtWider(a', a, ps);
      CountAtWider(b', b, ps);
      if a[|a| - 1] {
        assert (ps + [|a'|])[..|ps|] == ps;
      } else {
        assert ps + [] == ps;
      }
    }
  }

  /** Counting at positions inside a prefix does not look past the prefix. */
  lemma {:induction false} CountAtWider(short: seq<bool>, long: seq<bool>, ps: seq<nat>)
    requires |short| <= |long| && short == long[..|short|]
    requires forall k :: 0 <= k < |ps| ==> ps[k] < |short|
    ensures CountAt(short, ps) == CountAt(long, ps)
  {
    if ps != [] {
      CountAtWider(short, long, ps[..|ps| - 1]);
    }
  }

  lemma {:induction false} CountBothBound(a: seq<bool>, b: seq<bool>)
    requires |a| == |b|
    ensures CountBoth(a, b) <= CountTrue(a) <= |a|
  {
    if a != [] {
      CountBothBound(a[..|a| - 1], b[..|b| - 1]);
    }
  }

  lemma {:induction false} CountNoneTrue(a: seq<bool>, b: seq<bool>)
    requires |a| == |b|
    requires forall i :: 0 <= i < |a| ==> !a[i]
    ensures CountTrue(a) == 0 && CountBoth(a, b) == 0
  {
    if a != [] {
      CountNoneTrue(a[..|a| - 1], b[..|b| - 1]);
    }
  }

  /** One more column of the first loop appends its index when it is variable. */
  lemma CollectStep(seqs: seq<string>, i: nat)
    requires Indexable(seqs) && i < Width(seqs)
    ensures IndicesOf(VariableFlags(seqs, i + 1))
         == IndicesOf(VariableFlags(seqs, i)) + (if |Symbols(Column(seqs, i))| > 1 then [i] else [])
  {
    assert VariableFlags(seqs, i + 1)[..i] == VariableFlags(seqs, i);
  }

  /** One more position of the second loop adds its two test results to the counts. */
  lemma ClassifyStep(seqs: seq<string>, ps: seq<nat>, j: nat)
    requires Indexable(seqs) && j < |ps|
    requires forall k :: 0 <= k < |ps| ==> ps[k] < Width(seqs)
    ensures CountAt(MostCommonFlags(seqs, Width(seqs)), ps[..j + 1])
         == CountAt(MostCommonFlags(seqs, Width(seqs)), ps[..j])
            + (if MostCommonCount(Column(seqs, ps[j])) == 1 then 1 else 0)
    ensures CountAt(VariableFlags(seqs, Width(seqs)), ps[..j + 1])
         == CountAt(VariableFlags(seqs, Width(seqs)), ps[..j])
            + (if |Symbols(Column(seqs, ps[j]))| > 1 then 1 else 0)
  {
    assert ps[..j + 1][..j] == ps[..j];
    FlagsAt(seqs, Width(seqs), ps[j]);
  }

  /** The first loop of `count_variable_sites`: the positions whose column
      holds more than one distinct symbol, in ascending order. */
  method VariablePositions(seqs: seq<string>) returns (positions: seq<nat>)
    requires Indexable(seqs)
    ensures positions == IndicesOf(VariableFlags(seqs, Width(seqs)))
  {
    positions := [];
    var i: nat := 0;
    while i < |seqs[0]|
      invariant i <= Width(seqs)
      invariant positions == IndicesOf(VariableFlags(seqs, i))
    {
      var bases := Symbols(Column(seqs, i));
      CollectStep(seqs, i);
      if |bases| > 1 {
        positions := positions + [i];
      }
      i := i + 1;
    }
  }

  /** The second loop of `count_variable_sites`: among `positions`, the ones
      whose most frequent symbol occurs once, and the ones with more than one
      distinct symbol. */
  method ClassifyPositions(seqs: seq<string>, positions: seq<nat>) returns (singletons: nat, informative: nat)
    requires Indexable(seqs)
    requires forall k :: 0 <= k < |positions| ==> positions[k] < Width(seqs)
    ensures singletons == CountAt(MostCommonFlags(seqs, Width(seqs)), positions)
    ensures informative == CountAt(VariableFlags(seqs, Width(seqs)), positions)
  {
    singletons, informative := 0, 0;
    var j: nat := 0;
    while j < |positions|
      invariant j <= |positions|
      invariant singletons == CountAt(MostCommonFlags(seqs, Width(seqs)), positions[..j])
      invariant informative == CountAt(VariableFlags(seqs, Width(seqs)), positions[..j])
    {
      var bases := Column(seqs, positions[j]);
      ClassifyStep(seqs, positions, j);
      if MostCommonCount(bases) == 1 {
        singletons := singletons + 1;
      }
      if |Symbols(bases)| > 1 {
        informative := informative + 1;
      }
      j := j + 1;
    }
    assert positions[..j] == positions;
  }

  /** `count_variable_sites` as written: a first loop collects the positions
      whose column holds more than one distinct symbol; a second counts, among
      those, the ones whose most frequent symbol occurs once (singletons) and the
      ones with more than one distinct symbol (parsimony-informative, which as
      written is every one of them). */
  method CountVariableSites(seqs: seq<string>) returns (singletons: nat, informative: nat)
    requires Indexable(seqs)
    ensures singletons == SingletonSites(seqs)
    ensures informative == VariableSites(seqs)
  {
    var positions := VariablePositions(seqs);
    singletons, informative := ClassifyPositions(seqs, positions);
    CountAtIndices(VariableFlags(seqs, Width(seqs)), MostCommonFlags(seqs, Width(seqs)));
  }

  /** A column is variable exactly when two of its symbols differ. */
  lemma VariableIffDisagree(col: seq<char>)
    ensures IsVariable(col) <==> exists j, k :: 0 <= j < |col| && 0 <= k < |col| && col[j] != col[k]
  {
    if exists j, k :: 0 <= j < |col| && 0 <= k < |col| && col[j] != col[k] {
      var j, k :| 0 <= j < |col| && 0 <= k < |col| && col[j] != col[k];
      var pair := {col[j], col[k]};
      assert |pair| == 2;
      assert Symbols(col) == pair + (Symbols(col) - pair);
    } else if col == [] {
      assert Symbols(col) == {};
    } else {
      assert Symbols(col) == {col[0]};
    }
  }

  /** Two positions holding the same symbol make it occur at least twice. */
  lemma {:induction false} RepeatedSymbol(col: seq<char>, j: nat, k: nat)
    requires j < k < |col| && col[j] == col[k]
    ensures Occurrences(col, col[j]) >= 2
    decreases j
  {
    if j > 0 {
      RepeatedSymbol(col[1..], j - 1, k - 1);
    } else {
      OccurrencePositive(col[1..], k - 1);
    }
  }

  /** A symbol at some position occurs at least once. */
  lemma {:induction false} OccurrencePositive(col: seq<char>, k: nat)
    requires k < |col|
    ensures Occurrences(col, col[k]) >= 1
    decreases k
  {
    if k > 0 {
      OccurrencePositive(col[1..], k - 1);
    }
  }

  /** In a column without a repeated symbol, every symbol occurs at most once. */
  lemma {:induction false} DistinctOccurrences(col: seq<char>, c: char)
    requires AllDistinct(col)
    ensures Occurrences(col, c) <= 1
    decreases |col|
  {
    if col != [] {
      var rest := col[1..];
      assert AllDistinct(rest) by {
        forall j, k | 0 <= j < k < |rest| ensures rest[j] != rest[k] {
          assert rest[j] == col[j + 1] && rest[k] == col[k + 1];
        }
      }
      DistinctOccurrences(rest, c);
      if c == col[0] && Occurrences(rest, c) > 0 {
        AbsentNoOccurrences(rest, c);
      }
    }
  }

  /** A symbol that occurs is at some position. */
  lemma {:induction false} AbsentNoOccurrences(xs: seq<char>, c: char)
    requires Occurrences(xs, c) > 0
    ensures exists k :: 0 <= k < |xs| && xs[k] == c
    decreases |xs|
  {
    if xs[0] != c {
      AbsentNoOccurrences(xs[1..], c);
      var k :| 0 <= k < |xs[1..]| && xs[1..][k] == c;
      assert xs[k + 1] == c;
    }
  }

  /** The `most_common` test: the top count is 1 exactly when the column is
      non-empty and no symbol in it repeats. */
  lemma MostCommonIsOne(col: seq<char>)
    ensures IsSingletonColumn(col) <==> col != [] && AllDistinct(col)
  {
    if IsSingletonColumn(col) {
      forall j, k | 0 <= j < k < |col| ensures col[j] != col[k] {
        if col[j] == col[k] {
          RepeatedSymbol(col, j, k);
        }
      }
    }
    if col != [] && AllDistinct(col) {
      forall k | 0 <= k < |col| ensures Occurrences(col, col[k]) == 1 {
        DistinctOccurrences(col, col[k]);
        OccurrencePositive(col, k);
      }
    }
  }

  /** A column counts as a singleton exactly when it has at least two symbols
      and all of them differ. */
  lemma SingletonIffAllDistinct(seqs: seq<string>, i: nat)
    requires Indexable(seqs) && i < Width(seqs)
    ensures IsSingletonSite(seqs, i) <==> |seqs| >= 2 && AllDistinct(Column(seqs, i))
  {
    var col := Column(seqs, i);
    VariableIffDisagree(col);
    MostCommonIsOne(col);
    if |seqs| >= 2 && AllDistinct(col) {
      assert col[0] != col[1];
    }
  }

  /** The two counts `count_variable_sites` returns satisfy
      `0 <= singletons <= informative <= len(sequences[0])`: every singleton
      column is also counted as informative, because the informative test
      repeats the variability test. */
  lemma SiteBounds(seqs: seq<string>)
    requires Indexable(seqs)
    ensures SingletonSites(seqs) <= VariableSites(seqs) <= Width(seqs)
  {
    CountBothBound(VariableFlags(seqs, Width(seqs)), MostCommonFlags(seqs, Width(seqs)));
  }

  /** An alignment of identical sequences, or of a single sequence, has no
      variable column, so both counts are 0. */
  lemma UniformAlignmentHasNoSites(seqs: seq<string>)
    requires Indexable(seqs)
    requires forall k :: 0 <= k < |seqs| ==> seqs[k] == seqs[0]
    ensures VariableSites(seqs) == 0 && SingletonSites(seqs) == 0
  {
    var flags := VariableFlags(seqs, Width(seqs));
    forall i | 0 <= i < Width(seqs) ensures !flags[i] {
      FlagsAt(seqs, Width(seqs), i);
      VariableIffDisagree(Column(seqs, i));
    }
    CountNoneTrue(flags, MostCommonFlags(seqs, Width(seqs)));
  }
}
