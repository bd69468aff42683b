/** ASCII models of the Python string operations both scripts use on FASTA lines. */
module Text {

  /** The ASCII characters Python's `str.isspace` accepts: tab to carriage return,
      the four separators 0x1C to 0x1F, and the space. */
  predicate IsSpace(c: char) {
    9 <= c as int <= 13 || 28 <= c as int <= 32
  }

  /** `str.lstrip()` with no argument, on ASCII. */
  function TrimLeft(s: string): (r: string)
    ensures |r| <= |s|
  {
    if s != [] && IsSpace(s[0]) then TrimLeft(s[1..]) else s
  }

  /** `lstrip` removes a prefix made of whitespace only, and stops at the first
      other character. */
  lemma {:induction false} TrimLeftSpec(s: string)
    ensures var r := TrimLeft(s);
      && r == s[|s| - |r|..]
      && (forall k :: 0 <= k < |s| - |r| ==> IsSpace(s[k]))
      && (r == [] || !IsSpace(r[0]))
    decreases |s|
  {
    if s != [] && IsSpace(s[0]) {
      TrimLeftSpec(s[1..]);
      var r := TrimLeft(s);
      assert s[1..][|s| - 1 - |r|..] == s[|s| - |r|..];
      forall k | 0 < k < |s| - |r|
        ensures IsSpace(s[k])
      {
        assert s[k] == s[1..][k - 1];
      }
    }
  }

  /** `str.rstrip()` with no argument, on ASCII. */
  function TrimRight(s: string): (r: string)
    ensures |r| <= |s|
  {
    if s != [] && IsSpace(s[|s| - 1]) then TrimRight(s[..|s| - 1]) else s
  }

  /** `rstrip` removes a suffix made of whitespace only, and stops at the last
      other character. */
  lemma {:induction false} TrimRightSpec(s: string)
    ensures var r := TrimRight(s);
      && r == s[..|r|]
      && (forall k :: |r| <= k < |s| ==> IsSpace(s[k]))
      && (r == [] || !IsSpace(r[|r| - 1]))
    decreases |s|
  {
    if s != [] && IsSpace(s[|s| - 1]) {
      var init := s[..|s| - 1];
      TrimRightSpec(init);
      var r := TrimRight(s);
      assert init[..|r|] == s[..|r|];
      forall k | |r| <= k < |s| - 1
        ensures IsSpace(s[k])
      {
        assert s[k] == init[k];
      }
    }
  }

  /** `r` is the slice of `s` starting at `i`, and everything of `s` around it is whitespace. */
  ghost predicate SpaceAround(s: string, i: int, r: string) {
    0 <= i <= |s| - |r| && r == s[i..i + |r|]
    && (forall k :: 0 <= k < i ==> IsSpace(s[k]))
    && (forall k :: i + |r| <= k < |s| ==> IsSpace(s[k]))
  }

  /** `str.strip()`: the part of `s` left after removing leading and trailing whitespace. */
  function Strip(s: string): (r: string)
    ensures |r| <= |s|
  {
    TrimRight(TrimLeft(s))
  }

  /** `strip` keeps a slice of its argument surrounded by whitespace only, and
      the slice neither starts nor ends with whitespace. */
  lemma StripSpec(s: string)
    ensures var r := Strip(s);
      && (r == [] || (!IsSpace(r[0]) && !IsSpace(r[|r| - 1])))
      && exists i :: SpaceAround(s, i, r)
  {
    var t := TrimLeft(s);
    var r := TrimRight(t);
    TrimLeftSpec(s);
    TrimRightSpec(t);
    var i := |s| - |t|;
    assert r == s[i..i + |r|];
    forall k | i + |r| <= k < |s|
      ensures IsSpace(s[k])
    {
      assert s[k] == t[k - i];
    }
    assert SpaceAround(s, i, r);
    if r != [] {
      assert r[0] == t[0];
    }
  }

  /** `str.upper()` on one ASCII character. */
  function UpperChar(c: char): char {
    if 'a' <= c <= 'z' then (c as int - 32) as char else c
  }

  /** `str.upper()`, ASCII letters only. */
  function Upper(s: string): (r: string)
    ensures |r| == |s|
  {
    if s == [] then [] else [UpperChar(s[0])] + Upper(s[1..])
  }

  /** `upper` maps every character on its own and leaves no lower-case letter. */
  lemma {:induction false} UpperSpec(s: string)
    ensures forall k :: 0 <= k < |s| ==> Upper(s)[k] == UpperChar(s[k])
    ensures forall k :: 0 <= k < |s| ==> !('a' <= Upper(s)[k] <= 'z')
    decreases |s|
  {
    if s != [] {
      UpperSpec(s[1..]);
      forall k | 0 < k < |s|
        ensures Upper(s)[k] == UpperChar(s[k])
      {
        assert Upper(s)[k] == Upper(s[1..])[k - 1];
      }
    }
  }

  /** `line.strip().upper()`, what both scripts keep of a sequence line. */
  function Clean(line: string): (r: string)
    ensures |r| <= |line|
  {
    Upper(Strip(line))
  }

  /** Concatenation regroups freely; stated apart so that callers use it on
      opaque operands instead of unfolding them. */
  lemma ConcatAssoc(x: string, y: string, z: string)
    ensures (x + y) + z == x + (y + z)
  {
  }

  /** `line.startswith('>')`. */
  predicate IsHeader(line: string) {
    |line| > 0 && line[0] == '>'
  }

  /** `line[1:].strip()`, the record name a header line introduces. */
  function HeaderName(line: string): (name: string)
    requires IsHeader(line)
    ensures |name| < |line|
    ensures name == [] || (!IsSpace(name[0]) && !IsSpace(name[|name| - 1]))
  {
    StripSpec(line[1..]);
    Strip(line[1..])
  }

  /** How often `c` occurs in `xs`: the count `Counter` keeps for `c`. */
  function Occurrences(xs: seq<char>, c: char): nat {
    if xs == [] then 0 else (if xs[0] == c then 1 else 0) + Occurrences(xs[1..], c)
  }

  lemma {:induction false} OccurrencesAppend(xs: seq<char>, ys: seq<char>, c: char)
    ensures Occurrences(xs + ys, c) == Occurrences(xs, c) + Occurrences(ys, c)
    decreases |xs|
  {
    if xs != [] {
      assert (xs + ys)[0] == xs[0] && (xs + ys)[1..] == xs[1..] + ys;
      OccurrencesAppend(xs[1..], ys, c);
    } else {
      assert xs + ys == ys;
    }
  }

  /** The occurrences of the four bases in `s` together are at most its length. */
  lemma {:induction false} BaseOccurrencesBound(s: string)
    ensures Occurrences(s, 'A') + Occurrences(s, 'T') + Occurrences(s, 'C') + Occurrences(s, 'G') <= |s|
    decreases |s|
  {
    if s != [] {
      BaseOccurrencesBound(s[1..]);
    }
  }

  /** The sum of the lengths of `ss`. */
  function TotalLength(ss: seq<string>): nat {
    if ss == [] then 0 else TotalLength(ss[..|ss| - 1]) + |ss[|ss| - 1]|
  }

  /** `''.join(ss)`. */
  function Join(ss: seq<string>): (r: string)
    ensures |r| == TotalLength(ss)
  {
    if ss == [] then [] else Join(ss[..|ss| - 1]) + ss[|ss| - 1]
  }

  lemma JoinSnoc(ss: seq<string>, x: string)
    ensures Join(ss + [x]) == Join(ss) + x
  {
    assert (ss + [x])[..|ss|] == ss;
  }

  lemma {:induction false} JoinAppend(a: seq<string>, b: seq<string>)
    ensures Join(a + b) == Join(a) + Join(b)
    decreases |b|
  {
    if b == [] {
      assert a + b == a;
    } else {
      var b', x := b[..|b| - 1], b[|b| - 1];
      assert b == b' + [x];
      assert a + b == (a + b') + [x];
      JoinAppend(a, b');
      JoinSnoc(a + b', x);
      JoinSnoc(b', x);
      ConcatAssoc(Join(a), Join(b'), x);
    }
  }

  /** Each string of `ss` is no longer than all of them together. */
  lemma {:induction false} TotalLengthBoundsEach(ss: seq<string>, k: nat)
    requires k < |ss|
    ensures |ss[k]| <= TotalLength(ss)
    decreases |ss|
  {
    if k < |ss| - 1 {
      TotalLengthBoundsEach(ss[..|ss| - 1], k);
    }
  }

  /** `Occurrences` is the multiplicity `Counter` and `multiset` give a symbol. */
  lemma {:induction false} OccurrencesMultiplicity(xs: seq<char>, c: char)
    ensures Occurrences(xs, c) == multiset(xs)[c]
    decreases |xs|
  {
    if xs != [] {
      assert xs == [xs[0]] + xs[1..];
      OccurrencesMultiplicity(xs[1..], c);
    }
  }
}
