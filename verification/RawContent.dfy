/** Splitting of raw text at newlines (pkg/context/indexer.go, splitRawContent). */
module RawContent {
  import opened Text

  const DEFAULT_MAX := 4096

  /** The lines that are not empty, in order. */
  function NonEmpty(lines: seq<string>): seq<string>
  {
    if lines == [] then []
    else if lines[0] == "" then NonEmpty(lines[1..])
    else [lines[0]] + NonEmpty(lines[1..])
  }

  function Lines(s: string): seq<string>
  {
    Split(s, ['\n'])
  }

  /** The non-empty lines of every part, one part after the other. */
  function LinesOf(parts: seq<string>): seq<string>
  {
    if parts == [] then [] else NonEmpty(Lines(parts[0])) + LinesOf(parts[1..])
  }

  lemma {:induction false} NonEmptyConcat(a: seq<string>, b: seq<string>)
    ensures NonEmpty(a + b) == NonEmpty(a) + NonEmpty(b)
  {
    if a == [] {
      assert a + b == b;
    } else {
      NonEmptyConcat(a[1..], b);
      assert (a + b)[1..] == a[1..] + b;
      if a[0] != "" { Regroup([a[0]], NonEmpty(a[1..]), NonEmpty(b)); }
    }
  }

  lemma {:induction false} LinesOfConcat(a: seq<string>, b: seq<string>)
    ensures LinesOf(a + b) == LinesOf(a) + LinesOf(b)
  {
    if a == [] {
      assert a + b == b;
    } else {
      LinesOfConcat(a[1..], b);
      assert (a + b)[1..] == a[1..] + b;
      Regroup(NonEmpty(Lines(a[0])), LinesOf(a[1..]), LinesOf(b));
    }
  }

  lemma LineOfItself(line: string)
    requires '\n' !in line
    ensures Lines(line) == [line] && NonEmpty(Lines(line)) == if line == "" then [] else [line]
  {
    forall i | 0 <= i <= |line| ensures !Occurs(line, ['\n'], i) {
      if i < |line| { assert line[i..][0] == line[i]; }
    }
    assert NonEmpty([line]) == if line == "" then [] else [line];
  }

  lemma GluedLines(a: string, b: string)
    ensures NonEmpty(Lines(a + "\n" + b)) == NonEmpty(Lines(a)) + NonEmpty(Lines(b))
  {
    SplitAround(a, '\n', b);
    NonEmptyConcat(Lines(a), Lines(b));
  }

  lemma {:induction false} TrimKeepsLines(s: string)
    ensures NonEmpty(Lines(TrimNewlines(s))) == NonEmpty(Lines(s))
  {
    if s != "" && s[|s| - 1] == '\n' {
      TrimKeepsLines(s[..|s| - 1]);
      assert s == s[..|s| - 1] + "\n" + "";
      GluedLines(s[..|s| - 1], "");
      LineOfItself("");
    }
  }

  lemma LinesHaveNoNewline(s: string)
    ensures forall l :: l in Lines(s) ==> '\n' !in l
  {
    SplitHasNone(s, ['\n']);
    forall l | l in Lines(s) ensures '\n' !in l {
      forall j | 0 <= j < |l| ensures l[j] != '\n' { OccursOne(l, '\n', j); }
    }
  }

  // ----- The loop -----

  /** The parts a line finishes, and the buffer it leaves. */
  function Emit(buf: string, line: string, maxBytes: int): seq<string>
  {
    (if buf != "" && |buf| + |line| + 1 > maxBytes then [TrimNewlines(buf)] else [])
    + (if |line| > maxBytes then [line] else [])
  }

  function Carry(buf: string, line: string, maxBytes: int): string
  {
    if |line| > maxBytes then ""
    else if buf == "" || |buf| + |line| + 1 > maxBytes then line
    else buf + "\n" + line
  }

  function Fill(buf: string, lines: seq<string>, maxBytes: int): seq<string>
    decreases |lines|
  {
    if lines == [] then (if buf == "" then [] else [TrimNewlines(buf)])
    else Emit(buf, lines[0], maxBytes) + Fill(Carry(buf, lines[0], maxBytes), lines[1..], maxBytes)
  }

  function Limit(maxBytes: int): int
  {
    if maxBytes <= 0 then DEFAULT_MAX else maxBytes
  }

  lemma FillLaws(content: string, max: int)
    requires max >= 0
    ensures var parts := Fill("", Lines(content), max);
            && LinesOf(parts) == NonEmpty(Lines(content)) && FewestParts(parts, Lines(content), max)
            && forall p :: p in parts ==> |p| <= max || p in Lines(content)
  {
    LinesHaveNoNewline(content);
    FillKeepsLines("", Lines(content), max);
    FillWithin("", Lines(content), max);
    FillIsFewest(Lines(content), max);
    LineOfItself("");
    assert [] + NonEmpty(Lines(content)) == NonEmpty(Lines(content));
  }

  /** For content above the limit: the parts hold the input's non-empty lines in
      order, each exactly once, and a part above the limit is one whole line. */
  method SplitRawContent(content: string, maxBytes: int) returns (parts: seq<string>)
    ensures |content| <= Limit(maxBytes) ==> parts == [content]
    ensures |content| > Limit(maxBytes) ==> parts == Fill("", Lines(content), Limit(maxBytes))
    ensures |content| > Limit(maxBytes) ==> FewestParts(parts, Lines(content), Limit(maxBytes))
    ensures LinesOf(parts) == NonEmpty(Lines(content))
    ensures forall p :: p in parts ==> |p| <= Limit(maxBytes) || p in Lines(content)
  {
    var max := if maxBytes <= 0 then DEFAULT_MAX else maxBytes;
    FillLaws(content, max);
    LineOfItself("");
    if |content| <= max {
      assert LinesOf([content]) == NonEmpty(Lines(content)) + LinesOf([]);
      return [content];
    }
    parts := SplitLines(Split(content, ['\n']), max);
  }

  /** The loop over the lines. */
  method SplitLines(lines: seq<string>, max: int) returns (parts: seq<string>)
    ensures parts == Fill("", lines, max)
  {
    parts := [];
    var buf := "";
    for i := 0 to |lines|
      invariant parts + Fill(buf, lines[i..], max) == Fill("", lines, max)
    {
      FillStep(parts, buf, lines, i, max);
      parts, buf := AddLine(parts, buf, lines[i], max);
    }
    if |buf| > 0 {
      parts := parts + [TrimNewlines(buf)];
    }
  }

  /** The loop body. Its second flush never runs: a line above the limit has
      always emptied the buffer already. */
  method AddLine(parts: seq<string>, buf: string, line: string, max: int) returns (parts': seq<string>, buf': string)
    ensures parts' == parts + Emit(buf, line, max)
    ensures buf' == Carry(buf, line, max)
  {
    parts', buf' := parts, buf;
    var lineLen := |line| + 1;
    if |buf'| > 0 && |buf'| + lineLen > max {
      parts' := parts' + [TrimNewlines(buf')];
      buf' := "";
    }
    if |line| > max {
      if |buf'| > 0 {
        parts' := parts' + [TrimNewlines(buf')];
        buf' := "";
      }
      parts' := parts' + [line];
      return;
    }
    if |buf'| > 0 {
      buf' := buf' + "\n";
    }
    buf' := buf' + line;
  }

  lemma FillStep(done: seq<string>, buf: string, lines: seq<string>, i: nat, max: int)
    requires i < |lines|
    ensures done + Fill(buf, lines[i..], max) ==
              done + Emit(buf, lines[i], max) + Fill(Carry(buf, lines[i], max), lines[i + 1..], max)
  {
    var line, rest := lines[i], lines[i + 1..];
    assert lines[i..][0] == line && lines[i..][1..] == rest;
    assert Fill(buf, lines[i..], max) == Emit(buf, line, max) + Fill(Carry(buf, line, max), rest, max);
    Regroup(done, Emit(buf, line, max), Fill(Carry(buf, line, max), rest, max));
  }

  lemma {:induction false} FillKeepsLines(buf: string, lines: seq<string>, max: int)
    requires forall l :: l in lines ==> '\n' !in l
    ensures LinesOf(Fill(buf, lines, max)) == NonEmpty(Lines(buf)) + NonEmpty(lines)
    decreases |lines|
  {
    if lines == [] {
      BufferLines(buf);
    } else {
      var line, rest := lines[0], lines[1..];
      var out, carry := Emit(buf, line, max), Carry(buf, line, max);
      assert line in lines;
      FillKeepsLines(carry, rest, max);
      LinesOfConcat(out, Fill(carry, rest, max));
      StepKeepsLines(buf, line, max);
      assert lines == [line] + rest;
      NonEmptyConcat([line], rest);
      Regroup(LinesOf(out), NonEmpty(Lines(carry)), NonEmpty(rest));
      Regroup(NonEmpty(Lines(buf)), NonEmpty([line]), NonEmpty(rest));
    }
  }

  lemma BufferLines(buf: string)
    ensures LinesOf(if buf == "" then [] else [TrimNewlines(buf)]) == NonEmpty(Lines(buf))
  {
    TrimKeepsLines(buf);
    LineOfItself("");
    var part := TrimNewlines(buf);
    assert LinesOf([part]) == NonEmpty(Lines(part)) + LinesOf([]);
  }

  lemma StepKeepsLines(buf: string, line: string, max: int)
    requires '\n' !in line
    ensures LinesOf(Emit(buf, line, max)) + NonEmpty(Lines(Carry(buf, line, max))) ==
              NonEmpty(Lines(buf)) + NonEmpty([line])
  {
    var a := if buf != "" && |buf| + |line| + 1 > max then [TrimNewlines(buf)] else [];
    var b := if |line| > max then [line] else [];
    LinesOfConcat(a, b);
    BufferLines(buf);
    LineOfItself(line);
    LineOfItself("");
    assert LinesOf([line]) == NonEmpty(Lines(line)) + LinesOf([]);
    assert NonEmpty([line]) == NonEmpty(Lines(line));
    if |line| <= max && buf != "" && |buf| + |line| + 1 <= max { GluedLines(buf, line); }
  }

  lemma {:induction false} FillWithin(buf: string, lines: seq<string>, max: int)
    requires |buf| <= max
    ensures forall p :: p in Fill(buf, lines, max) ==> |p| <= max || p in lines
    ensures forall l :: l in lines && |l| > max ==> l in Fill(buf, lines, max)
    decreases |lines|
  {
    if lines != [] {
      FillWithin(Carry(buf, lines[0], max), lines[1..], max);
      assert forall l :: l in lines <==> l == lines[0] || l in lines[1..];
    }
  }

  /** The limit holds for every part exactly when no line exceeds it. */
  lemma LimitHoldsExactlyWhen(content: string, max: int)
    requires |content| > max > 0
    ensures (forall p :: p in Fill("", Lines(content), max) ==> |p| <= max)
       <==> (forall l :: l in Lines(content) ==> |l| <= max)
  {
    FillWithin("", Lines(content), max);
  }

  /** No part is empty, so nothing the loop emits is skipped on insertion. */
  lemma {:induction false} PartsNotEmpty(buf: string, lines: seq<string>, max: int)
    requires max >= 0 && (forall l :: l in lines ==> '\n' !in l)
    requires buf != "" ==> buf[0] != '\n'
    ensures "" !in Fill(buf, lines, max)
    decreases |lines|
  {
    TrimKeepsFirst(buf);
    if lines != [] {
      assert lines[0] in lines;
      PartsNotEmpty(Carry(buf, lines[0], max), lines[1..], max);
    }
  }

  lemma {:induction false} TrimKeepsFirst(s: string)
    requires s != "" ==> s[0] != '\n'
    ensures s != "" ==> TrimNewlines(s) != ""
  {
    if s != "" && s[|s| - 1] == '\n' { TrimKeepsFirst(s[..|s| - 1]); }
  }

  // ----- As few parts as possible -----

  /** The lines without the blank ones at the beginning, which an empty buffer swallows. */
  function Strip(lines: seq<string>): (r: seq<string>)
    ensures r != [] ==> r[0] != ""
  {
    if lines != [] && lines[0] == "" then Strip(lines[1..]) else lines
  }

  /** It takes away leading lines, all of them blank. */
  lemma {:induction false} StripIs(lines: seq<string>) returns (n: nat)
    ensures n <= |lines| && Strip(lines) == lines[n..] && forall i :: 0 <= i < n ==> lines[i] == ""
  {
    if lines != [] && lines[0] == "" {
      n := StripIs(lines[1..]);
      n := n + 1;
      assert lines[1..][n - 1..] == lines[n..];
    } else {
      n := 0;
    }
  }

  function Flatten(blocks: seq<seq<string>>): seq<string>
  {
    if blocks == [] then [] else blocks[0] + Flatten(blocks[1..])
  }

  /** Behind its leading blank lines a block is within the limit, or one line. */
  predicate FitsBlock(block: seq<string>, max: int)
  {
    |Strip(block)| == 1 || |Join(Strip(block), "\n")| <= max
  }

  /** An in-order grouping of the lines into such blocks. */
  ghost predicate Grouping(blocks: seq<seq<string>>, lines: seq<string>, max: int)
  {
    Flatten(blocks) == lines && forall b :: b in blocks ==> FitsBlock(b, max)
  }

  /** The parts of those blocks that are not blank. */
  function PartsOf(blocks: seq<seq<string>>): seq<string>
  {
    if blocks == [] then []
    else
      var core := Strip(blocks[0]);
      (if core == [] then [] else [TrimNewlines(Join(core, "\n"))]) + PartsOf(blocks[1..])
  }

  /** A longer buffer can only need more parts, and at most one more. */
  lemma {:induction false} FillMonotone(c: string, d: string, lines: seq<string>, max: int)
    requires |c| <= |d| <= max
    ensures |Fill(c, lines, max)| <= |Fill(d, lines, max)| <= |Fill(c, lines, max)| + 1
    decreases |lines|
  {
    if lines != [] {
      var line, rest := lines[0], lines[1..];
      if |line| <= max {
        if d == "" || |d| + |line| + 1 <= max {
          FillMonotone(Carry(c, line, max), Carry(d, line, max), rest, max);
        } else if c == "" || |c| + |line| + 1 <= max {
          FillMonotone(line, Carry(c, line, max), rest, max);
        }
      }
    }
  }

  function Glue(buf: string, text: string): string
  {
    if buf == "" then text else buf + "\n" + text
  }

  lemma {:induction false} JoinAtLeast(block: seq<string>)
    ensures block != [] ==> |Join(block, "\n")| >= |block[0]| && |Join(block, "\n")| >= |Join(block[1..], "\n")|
  {
  }

  /** A block that fits behind the buffer is swallowed whole. */
  lemma {:induction false} FillSwallows(buf: string, block: seq<string>, rest: seq<string>, max: int)
    requires block != [] && (buf != "" || block[0] != "") && |Glue(buf, Join(block, "\n"))| <= max
    ensures Fill(buf, block + rest, max) == Fill(Glue(buf, Join(block, "\n")), rest, max)
    decreases |block|
  {
    var line := block[0];
    assert (block + rest)[0] == line && (block + rest)[1..] == block[1..] + rest;
    JoinAtLeast(block);
    if |block| == 1 {
      assert block[1..] + rest == rest;
    } else {
      assert Glue(Glue(buf, line), Join(block[1..], "\n")) == Glue(buf, Join(block, "\n"));
      FillSwallows(Glue(buf, line), block[1..], rest, max);
    }
  }

  lemma {:induction false} FillStrips(block: seq<string>, rest: seq<string>, max: int)
    requires max >= 0
    ensures Fill("", block + rest, max) == Fill("", Strip(block) + rest, max)
    decreases |block|
  {
    if block != [] && block[0] == "" {
      assert (block + rest)[0] == "" && (block + rest)[1..] == block[1..] + rest;
      FillStrips(block[1..], rest, max);
    }
  }

  /** One block of a grouping costs one part at most. */
  lemma FillBlock(block: seq<string>, rest: seq<string>, max: int)
    requires max >= 0 && FitsBlock(block, max)
    ensures |Fill("", block + rest, max)| <= (if Strip(block) == [] then 0 else 1) + |Fill("", rest, max)|
  {
    var core := Strip(block);
    FillStrips(block, rest, max);
    if core == [] {
      assert core + rest == rest;
    } else if |core| == 1 && |core[0]| > max {
      assert (core + rest)[0] == core[0] && (core + rest)[1..] == rest;
    } else {
      assert |core| == 1 ==> Join(core, "\n") == core[0];
      FillSwallows("", core, rest, max);
      FillMonotone("", Join(core, "\n"), rest, max);
    }
  }

  lemma PartsOfHead(block: seq<string>, blocks: seq<seq<string>>)
    ensures |PartsOf([block] + blocks)| == (if Strip(block) == [] then 0 else 1) + |PartsOf(blocks)|
  {
    assert ([block] + blocks)[1..] == blocks;
  }

  /** No in-order grouping of the lines has fewer parts. */
  lemma {:induction false} FillMinimal(blocks: seq<seq<string>>, lines: seq<string>, max: int)
    requires max >= 0 && Grouping(blocks, lines, max)
    ensures |Fill("", lines, max)| <= |PartsOf(blocks)|
    decreases |blocks|
  {
    if blocks != [] {
      FillMinimal(blocks[1..], Flatten(blocks[1..]), max);
      FillBlock(blocks[0], Flatten(blocks[1..]), max);
      PartsOfHead(blocks[0], blocks[1..]);
      assert blocks == [blocks[0]] + blocks[1..];
    }
  }

  lemma {:induction false} StripSnoc(block: seq<string>, line: string)
    ensures Strip(block) != [] ==> Strip(block + [line]) == Strip(block) + [line]
    ensures Strip(block) == [] ==> Strip(block + [line]) == Strip([line])
  {
    if block == [] {
      assert block + [line] == [line];
    } else if block[0] == "" {
      assert (block + [line])[0] == "" && (block + [line])[1..] == block[1..] + [line];
      StripSnoc(block[1..], line);
    } else {
      assert (block + [line])[0] == block[0];
    }
  }

  lemma StripOne(line: string)
    ensures Strip([line]) == if line == "" then [] else [line]
  {
    assert [line][1..] == [];
  }

  /** What the buffer holds of a block. */
  function Buffered(block: seq<string>): string
  {
    Join(Strip(block), "\n")
  }

  lemma BufferedEmpty(block: seq<string>)
    ensures Buffered(block) == "" <==> Strip(block) == []
  {
    JoinAtLeast(Strip(block));
  }

  lemma BufferedSnoc(block: seq<string>, line: string)
    ensures Buffered(block + [line]) == Glue(Buffered(block), line)
  {
    StripSnoc(block, line);
    StripOne(line);
    JoinSnoc(Strip(block), line, "\n");
    BufferedEmpty(block);
  }

  lemma GroupingFront(block: seq<string>, blocks: seq<seq<string>>, lines: seq<string>, max: int)
    requires FitsBlock(block, max) && Grouping(blocks, lines, max)
    ensures Grouping([block] + blocks, block + lines, max)
    ensures PartsOf([block] + blocks) ==
              (if Strip(block) == [] then [] else [TrimNewlines(Buffered(block))]) + PartsOf(blocks)
  {
    assert ([block] + blocks)[1..] == blocks;
  }

  lemma OneLine(line: string, max: int)
    requires '\n' !in line && |line| > max >= 0
    ensures FitsBlock([line], max) && Strip([line]) == [line] && TrimNewlines(Buffered([line])) == line
  {
    assert line[|line| - 1] in line;
  }

  /** blocks is a grouping of the lines behind those of the block, and makes these parts. */
  ghost predicate Groups(blocks: seq<seq<string>>, lines: seq<string>, parts: seq<string>, max: int)
  {
    Grouping(blocks, lines, max) && PartsOf(blocks) == parts
  }

  /** An overlong line ends the block and is one of its own. */
  lemma GroupsAlone(block: seq<string>, line: string, rest: seq<string>, more: seq<seq<string>>, max: int)
    requires '\n' !in line && |line| > max >= |Buffered(block)| && Groups(more, rest, Fill("", rest, max), max)
    ensures Groups([block] + ([[line]] + more), block + ([line] + rest), Fill(Buffered(block), [line] + rest, max), max)
  {
    var buf := Buffered(block);
    BufferedEmpty(block);
    OneLine(line, max);
    GroupingFront([line], more, rest, max);
    GroupingFront(block, [[line]] + more, [line] + rest, max);
    assert ([line] + rest)[1..] == rest;
    Regroup(if buf == "" then [] else [TrimNewlines(buf)], [line], PartsOf(more));
  }

  /** A line that overflows the buffer begins a new block. */
  lemma GroupsNext(block: seq<string>, line: string, rest: seq<string>, more: seq<seq<string>>, max: int)
    requires Buffered(block) != "" && |Buffered(block)| <= max && |line| <= max < |Buffered(block)| + |line| + 1
    requires Groups(more, [line] + rest, Fill(line, rest, max), max)
    ensures Groups([block] + more, block + ([line] + rest), Fill(Buffered(block), [line] + rest, max), max)
  {
    BufferedEmpty(block);
    GroupingFront(block, more, [line] + rest, max);
    assert ([line] + rest)[1..] == rest;
    assert Emit(Buffered(block), line, max) == [TrimNewlines(Buffered(block))];
  }

  /** A line that fits joins the block. */
  lemma GroupsGlued(block: seq<string>, line: string, rest: seq<string>, blocks: seq<seq<string>>, max: int)
    requires |line| <= max && (Buffered(block) == "" || |Buffered(block)| + |line| + 1 <= max)
    requires Groups(blocks, (block + [line]) + rest, Fill(Buffered(block + [line]), rest, max), max)
    ensures Groups(blocks, block + ([line] + rest), Fill(Buffered(block), [line] + rest, max), max)
  {
    var buf := Buffered(block);
    BufferedSnoc(block, line);
    Regroup(block, [line], rest);
    assert ([line] + rest)[0] == line && ([line] + rest)[1..] == rest;
    assert Emit(buf, line, max) == [] && Carry(buf, line, max) == Buffered(block + [line]);
    assert [] + Fill(Carry(buf, line, max), rest, max) == Fill(Carry(buf, line, max), rest, max);
  }

  /** The parts are those of such a grouping. */
  lemma {:induction false} FillGroups(block: seq<string>, lines: seq<string>, max: int)
    returns (blocks: seq<seq<string>>)
    requires max >= 0 && |Buffered(block)| <= max && forall l :: l in lines ==> '\n' !in l
    ensures Groups(blocks, block + lines, Fill(Buffered(block), lines, max), max)
    decreases |lines|
  {
    if lines == [] {
      BufferedEmpty(block);
      GroupingFront(block, [], [], max);
      blocks := [block];
      assert [block] + [] == [block];
    } else {
      var line, rest := lines[0], lines[1..];
      assert line in lines && lines == [line] + rest;
      assert forall l :: l in rest ==> l in lines;
      if |line| > max {
        var more := FillGroups([], rest, max);
        assert [] + rest == rest && Buffered([]) == "";
        GroupsAlone(block, line, rest, more, max);
        blocks := [block] + ([[line]] + more);
      } else if Buffered(block) != "" && |Buffered(block)| + |line| + 1 > max {
        BufferedSnoc([], line);
        assert [] + [line] == [line] && Buffered([]) == "";
        var more := FillGroups([line], rest, max);
        GroupsNext(block, line, rest, more, max);
        blocks := [block] + more;
      } else {
        BufferedSnoc(block, line);
        blocks := FillGroups(block + [line], rest, max);
        GroupsGlued(block, line, rest, blocks, max);
      }
    }
  }

  ghost predicate FromGrouping(parts: seq<string>, lines: seq<string>, max: int)
  {
    exists blocks :: Grouping(blocks, lines, max) && parts == PartsOf(blocks)
  }

  /** The parts of an in-order grouping of the lines, of which none has fewer. */
  ghost predicate FewestParts(parts: seq<string>, lines: seq<string>, max: int)
  {
    FromGrouping(parts, lines, max) && forall blocks :: Grouping(blocks, lines, max) ==> |parts| <= |PartsOf(blocks)|
  }

  lemma FillFromGrouping(lines: seq<string>, max: int)
    requires max >= 0 && forall l :: l in lines ==> '\n' !in l
    ensures FromGrouping(Fill("", lines, max), lines, max)
  {
    var blocks := FillGroups([], lines, max);
    assert [] + lines == lines && Buffered([]) == "";
    assert Groups(blocks, lines, Fill("", lines, max), max);
  }

  lemma FillIsFewest(lines: seq<string>, max: int)
    requires max >= 0 && forall l :: l in lines ==> '\n' !in l
    ensures FewestParts(Fill("", lines, max), lines, max)
  {
    var parts := Fill("", lines, max);
    FillFromGrouping(lines, max);
    forall other | Grouping(other, lines, max) ensures |parts| <= |PartsOf(other)| {
      FillMinimal(other, lines, max);
    }
  }
}
