/** Splitting of the lines of a TUM RGB-D association file (TUMReader::readImageNames).
    A line reads `T C;X D`: a timestamp token T in nanoseconds, a colour image path C, an
    ignored token X and a depth image path D. */
module IndexLine {
  import opened StdString

  /** What one non-empty line contributes, before the image folder is prefixed. */
  datatype Fields = Fields(timeToken: string, colorName: string, depthName: string)

  /** s.substr(0, s.find(c)): everything before the first c, or all of s when c is absent. */
  function BeforeFirst(s: CppString, c: char): (r: CppString)
    ensures c in s ==> r == s[..Find(s, c)]
    ensures c !in s ==> r == s
    ensures c !in r
  {
    Substr(s, 0, Find(s, c))
  }

  /** s.substr(s.find(c) + 1, s.size() - 1).  With c present this is everything after the
      first c.  With c absent, npos + 1 wraps to 0 and the count size() - 1 drops the last
      character; on an empty s the count wraps to npos and the result is empty. */
  function AfterFirst(s: CppString, c: char): (r: CppString)
    ensures c in s ==> r == s[Find(s, c) + 1..]
    ensures c !in s && s != [] ==> r == s[..|s| - 1]
    ensures s == [] ==> r == []
  {
    Substr(s, Add(Find(s, c), 1), Sub(|s|, 1))
  }

  /** s.substr(s.find(c) + 1, bound).  Once the bound is at least the size of s it cuts
      nothing: the result is everything after the first c, or all of s when c is absent. */
  function AfterFirstWithin(s: CppString, c: char, bound: SizeT): (r: CppString)
    ensures |s| <= bound && c in s ==> r == s[Find(s, c) + 1..]
    ensures |s| <= bound && c !in s ==> r == s
  {
    Substr(s, Add(Find(s, c), 1), bound)
  }

  /** The colour half of a line: what precedes its first ';' (line_rgb). */
  function ColorHalf(line: CppString): (h: CppString)
    ensures |h| <= Find(line, ';')
    ensures ';' !in h
  {
    BeforeFirst(line, ';')
  }

  /** The depth half of a line: what follows its first ';' (line_depth).  A line without ';'
      gets the line without its last character. */
  function DepthHalf(line: CppString): (h: CppString)
    ensures |h| <= |line|
  {
    AfterFirst(line, ';')
  }

  /** line_time_: the colour half up to its first space. */
  function TimeToken(line: CppString): (t: CppString)
    ensures ' ' !in t && ';' !in t
  {
    BeforeFirst(ColorHalf(line), ' ')
  }

  /** rgb_file_name: the colour half after its first space, with at most pos characters,
      pos being the position of ';' in the whole line.  The bound never bites (see
      ColorNameIsRestOfHalf). */
  function ColorName(line: CppString): (c: CppString)
    ensures ';' !in c
  {
    AfterFirstWithin(ColorHalf(line), ' ', Find(line, ';'))
  }

  /** depth_file_name: the depth half after its first space, cut with the count
      line_depth.size() - 1. */
  function DepthName(line: CppString): (d: CppString)
    ensures |d| <= |line|
  {
    AfterFirst(DepthHalf(line), ' ')
  }

  /** The three fields the parser cuts out of one line. */
  function SplitLine(line: CppString): (f: Fields)
    ensures ' ' !in f.timeToken && ';' !in f.timeToken
    ensures ';' !in f.colorName
  {
    Fields(TimeToken(line), ColorName(line), DepthName(line))
  }

  /** The colour file name is the colour half after its first space, or the whole colour
      half when it has no space: the ';' bound passed to substr never truncates it. */
  lemma ColorNameIsRestOfHalf(line: CppString)
    ensures var h := ColorHalf(line);
      && (' ' in h ==> SplitLine(line).colorName == h[Find(h, ' ') + 1..])
      && (' ' !in h ==> SplitLine(line).colorName == h)
  {
    assert |ColorHalf(line)| <= Find(line, ';');
  }

  /** Cutting `A B` at its first space, where A holds no space: the text before it is A,
      and the text after it is B, whether the count is size() - 1 or any bound >= size(). */
  lemma CutAtSpace(h: CppString, a: string, b: string, bound: SizeT)
    requires h == a + " " + b && ' ' !in a && |h| <= bound
    ensures BeforeFirst(h, ' ') == a
    ensures AfterFirst(h, ' ') == b
    ensures AfterFirstWithin(h, ' ', bound) == b
  {
    assert h[..|a|] == a;
    FindAt(h, ' ', |a|);
    assert h[|a| + 1..] == b;
  }

  /** The halves of `L;R` where L holds no ';' are L and R. */
  lemma CutAtSeparator(line: CppString, l: string, r: string)
    requires line == l + ";" + r && ';' !in l
    ensures Find(line, ';') == |l|
    ensures ColorHalf(line) == l && DepthHalf(line) == r
  {
    assert line[..|l|] == l;
    FindAt(line, ';', |l|);
    assert line[|l| + 1..] == r;
  }

  /** A well-formed line `T C;X D` (no ';' before the separator, no space in T or X) yields
      timestamp token T, colour name C and depth name D; D may hold anything. */
  lemma WellFormedLine(line: CppString, t: string, c: string, x: string, d: string)
    requires line == t + " " + c + ";" + x + " " + d
    requires ' ' !in t && ';' !in t && ';' !in c && ' ' !in x
    ensures SplitLine(line) == Fields(t, c, d)
  {
    assert line == (t + " " + c) + ";" + (x + " " + d);
    CutAtSeparator(line, t + " " + c, x + " " + d);
    CutAtSpace(t + " " + c, t, c, Find(line, ';'));
    CutAtSpace(x + " " + d, x, d, |x + " " + d|);
  }

  /** A line of the documented shape: the depth name keeps everything after the first space
      of the depth half, here a second timestamp as well as the path. */
  lemma SampleLine()
    ensures var stamp, rgb, depth := "1000000000", "rgb/1.png", "depth/1.png";
      SplitLine(stamp + " " + rgb + ";" + "depth" + " " + (stamp + " " + depth))
        == Fields(stamp, rgb, stamp + " " + depth)
  {
    var stamp, rgb, depth := "1000000000", "rgb/1.png", "depth/1.png";
    WellFormedLine(stamp + " " + rgb + ";" + "depth" + " " + (stamp + " " + depth),
                   stamp, rgb, "depth", stamp + " " + depth);
  }

  /** A non-empty line without ';': the colour half is the whole line and the depth half is
      the line without its last character, so both file names come from the same text. */
  lemma LineWithoutSeparator(line: CppString)
    requires line != [] && ';' !in line
    ensures ColorHalf(line) == line
    ensures DepthHalf(line) == line[..|line| - 1]
    ensures SplitLine(line).depthName == AfterFirst(line[..|line| - 1], ' ')
  {
  }

  /** A depth half without a space gives the depth name "that half without its last
      character"; a colour half without a space gives the whole half as colour name. */
  lemma HalvesWithoutSpace(line: CppString)
    ensures var dh := DepthHalf(line);
      ' ' !in dh && dh != [] ==> SplitLine(line).depthName == dh[..|dh| - 1]
    ensures ' ' !in ColorHalf(line) ==> SplitLine(line).colorName == ColorHalf(line)
    ensures ' ' !in ColorHalf(line) ==> SplitLine(line).timeToken == ColorHalf(line)
  {
    ColorNameIsRestOfHalf(line);
  }

  /** The lines readImageNames keeps, in file order: every non-empty line. */
  function NonEmptyLines(lines: seq<CppString>): (kept: seq<CppString>)
    ensures |kept| <= |lines|
    ensures forall k :: 0 <= k < |kept| ==> kept[k] != []
  {
    if lines == [] then []
    else
      var last := lines[|lines| - 1];
      NonEmptyLines(lines[..|lines| - 1]) + (if last == [] then [] else [last])
  }

  /** Filtering is line by line: the kept lines of a + b are those of a, then those of b. */
  lemma {:induction false} NonEmptyLinesAppend(a: seq<CppString>, b: seq<CppString>)
    ensures NonEmptyLines(a + b) == NonEmptyLines(a) + NonEmptyLines(b)
    decreases |b|
  {
    if b == [] {
      assert a + b == a;
    } else {
      var b' := b[..|b| - 1];
      assert (a + b)[..|a + b| - 1] == a + b';
      NonEmptyLinesAppend(a, b');
    }
  }

  /** One line on its own is kept exactly when it is non-empty. */
  lemma NonEmptyLinesOfLine(line: CppString)
    ensures NonEmptyLines([line]) == if line == [] then [] else [line]
  {
    assert [line][..0] == [];
  }

  /** Line i is kept, or not, between the kept lines before it and those after it: the
      index keeps file order. */
  lemma {:induction false} NonEmptyLinesAt(lines: seq<CppString>, i: nat)
    requires i < |lines|
    ensures NonEmptyLines(lines)
         == NonEmptyLines(lines[..i]) + (NonEmptyLines([lines[i]]) + NonEmptyLines(lines[i + 1..]))
  {
    var before, here, after := lines[..i], [lines[i]], lines[i + 1..];
    assert lines == before + (here + after);
    NonEmptyLinesAppend(before, here + after);
    NonEmptyLinesAppend(here, after);
  }

  /** Some line is kept exactly when some line is non-empty. */
  lemma {:induction false} NonEmptyLinesIff(lines: seq<CppString>)
    ensures |NonEmptyLines(lines)| > 0 <==> exists i :: 0 <= i < |lines| && lines[i] != []
    decreases |lines|
  {
    if lines != [] {
      var front := lines[..|lines| - 1];
      NonEmptyLinesIff(front);
      assert forall i :: 0 <= i < |front| ==> front[i] == lines[i];
    }
  }
}
