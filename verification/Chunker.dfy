/** Splitting of oversized chunks (pkg/context/chunker.go) at paragraph boundaries,
    and inside a paragraph only when it alone is too long. */
module Chunker {
  import opened Text

  const BREAK := "\n\n"

  // ----- hardSplit -----

  /** Where a string longer than maxBytes is cut: behind the last newline of its
      first maxBytes bytes, else behind the last space, else at maxBytes. */
  function Cut(s: string, maxBytes: nat): (cut: nat)
    requires 0 < maxBytes < |s|
    ensures 0 < cut <= maxBytes
  {
    var nl, sp := LastIndex(s[..maxBytes], '\n'), LastIndex(s[..maxBytes], ' ');
    if nl > 0 then nl + 1 else if sp > 0 then sp + 1 else maxBytes
  }

  /** c stands at one of the places from a on and before b. */
  predicate Among(s: string, c: char, a: int, b: int)
  {
    exists i :: 0 <= a <= i < b <= |s| && s[i] == c
  }

  /** Where s, as it is from `from` on, must be cut: behind the last newline of the next
      maxBytes bytes, the first of them aside; else so behind the last space; else after
      maxBytes bytes. What is not longer than that is left whole. */
  predicate CutRight(s: string, maxBytes: nat, from: nat, to: nat)
  {
    var end := from + maxBytes;
    from < to <= |s| &&
    if |s| <= end then to == |s|
    else if Among(s, '\n', from + 1, end) then
      from + 1 < to <= end && s[to - 1] == '\n' && !Among(s, '\n', to, end)
    else if Among(s, ' ', from + 1, end) then
      from + 1 < to <= end && s[to - 1] == ' ' && !Among(s, ' ', to, end)
    else to == end
  }

  /** One cut, and the trimmed piece that it makes. */
  predicate CutStep(s: string, maxBytes: nat, from: nat, to: nat, part: string)
  {
    CutRight(s, maxBytes, from, to) && part == TrimSpace(s[from..to])
  }

  /** The cuts lead from `from` to the end of s, and make the parts. */
  ghost predicate CutsFrom(s: string, maxBytes: nat, from: nat, parts: seq<string>, at: seq<nat>)
  {
    && |at| == |parts| + 1 && at[0] == from && at[|parts|] == |s|
    && forall k {:trigger parts[k]} :: 0 <= k < |parts| ==> CutStep(s, maxBytes, at[k], at[k + 1], parts[k])
  }

  ghost predicate CutInto(s: string, maxBytes: nat, parts: seq<string>)
  {
    exists at :: CutsFrom(s, maxBytes, 0, parts, at)
  }

  lemma AmongLast(s: string, c: char, maxBytes: nat)
    requires 0 < maxBytes < |s|
    ensures var i := LastIndex(s[..maxBytes], c);
            && (i > 0 <==> Among(s, c, 1, maxBytes))
            && (i > 0 ==> s[i] == c && !Among(s, c, i + 1, maxBytes))
  {
  }

  lemma CutIsRight(s: string, maxBytes: nat)
    requires 0 < maxBytes < |s|
    ensures CutRight(s, maxBytes, 0, Cut(s, maxBytes))
  {
    AmongLast(s, '\n', maxBytes);
    AmongLast(s, ' ', maxBytes);
  }

  lemma CutRightBehind(s: string, maxBytes: nat, cut: nat, from: nat, to: nat)
    requires cut <= |s| && CutRight(s[cut..], maxBytes, from, to)
    ensures CutRight(s, maxBytes, from + cut, to + cut)
  {
    var rest, end := s[cut..], from + maxBytes;
    assert forall i :: 0 <= i < |rest| ==> rest[i] == s[i + cut];
    AmongBehind(s, '\n', cut, from + 1, end);
    AmongBehind(s, ' ', cut, from + 1, end);
    AmongBehind(s, '\n', cut, to, end);
    AmongBehind(s, ' ', cut, to, end);
  }

  lemma AmongBehind(s: string, c: char, cut: nat, a: nat, b: nat)
    requires cut <= |s|
    ensures Among(s[cut..], c, a, b) <==> Among(s, c, a + cut, b + cut)
  {
    if Among(s[cut..], c, a, b) {
      var i :| a <= i < b <= |s[cut..]| && s[cut..][i] == c;
      assert s[i + cut] == c;
    }
    if Among(s, c, a + cut, b + cut) {
      var i :| a + cut <= i < b + cut <= |s| && s[i] == c;
      assert s[cut..][i - cut] == c;
    }
  }

  function HardParts(s: string, maxBytes: nat): seq<string>
    requires maxBytes > 0
    decreases |s|
  {
    if |s| > maxBytes then
      var cut := Cut(s, maxBytes);
      [TrimSpace(s[..cut])] + HardParts(s[cut..], maxBytes)
    else if s != "" then [TrimSpace(s)]
    else []
  }

  function HardSplitOf(s: string, maxBytes: nat): seq<string>
    requires maxBytes > 0
  {
    if |s| <= maxBytes then [s] else HardParts(s, maxBytes)
  }

  /** The search for the cut in the loop of hardSplit. */
  method FindCut(rest: string, maxBytes: nat) returns (cut: nat)
    requires 0 < maxBytes < |rest|
    ensures cut == Cut(rest, maxBytes)
  {
    cut := maxBytes;
    var nl := LastIndex(rest[..cut], '\n');
    if nl > 0 {
      cut := nl + 1;
    } else {
      var sp := LastIndex(rest[..cut], ' ');
      if sp > 0 { cut := sp + 1; }
    }
  }

  method HardSplit(s: string, maxBytes: nat) returns (parts: seq<string>)
    requires maxBytes > 0
    ensures parts == HardSplitOf(s, maxBytes)
    ensures if |s| <= maxBytes then parts == [s] else CutInto(s, maxBytes, parts)
  {
    if |s| <= maxBytes { return [s]; }
    parts := [];
    var rest := s;
    while |rest| > maxBytes
      invariant parts + HardParts(rest, maxBytes) == HardParts(s, maxBytes)
    {
      var cut := FindCut(rest, maxBytes);
      Regroup(parts, [TrimSpace(rest[..cut])], HardParts(rest[cut..], maxBytes));
      parts := parts + [TrimSpace(rest[..cut])];
      rest := rest[cut..];
    }
    if |rest| > 0 {
      parts := parts + [TrimSpace(rest)];
    }
    HardSplitCuts(s, maxBytes);
  }

  lemma CutsInFront(s: string, maxBytes: nat, from: nat, to: nat, part: string, parts: seq<string>, at: seq<nat>)
    requires CutStep(s, maxBytes, from, to, part) && CutsFrom(s, maxBytes, to, parts, at)
    ensures CutsFrom(s, maxBytes, from, [part] + parts, [from] + at)
  {
    var more, all := [part] + parts, [from] + at;
    forall k | 0 <= k < |more| ensures CutStep(s, maxBytes, all[k], all[k + 1], more[k]) {
      if k > 0 { assert CutStep(s, maxBytes, at[k - 1], at[k - 1 + 1], parts[k - 1]); }
    }
  }

  /** The first part of what is left, and the cut behind it. */
  lemma FirstCut(s: string, maxBytes: nat, from: nat) returns (to: nat)
    requires maxBytes > 0 && from < |s|
    ensures CutRight(s, maxBytes, from, to)
    ensures HardParts(s[from..], maxBytes) == [TrimSpace(s[from..to])] + HardParts(s[to..], maxBytes)
  {
    var rest := s[from..];
    if |rest| > maxBytes {
      var cut := Cut(rest, maxBytes);
      CutIsRight(rest, maxBytes);
      CutRightBehind(s, maxBytes, from, 0, cut);
      to := from + cut;
      assert rest[..cut] == s[from..to] && rest[cut..] == s[to..];
    } else {
      to := |s|;
      assert s[from..to] == rest && s[to..] == "";
    }
  }

  /** The parts are cut where they must be. */
  lemma {:induction false} HardPartsAreCut(s: string, maxBytes: nat, from: nat) returns (at: seq<nat>)
    requires maxBytes > 0 && from <= |s|
    ensures CutsFrom(s, maxBytes, from, HardParts(s[from..], maxBytes), at)
    decreases |s| - from
  {
    if from == |s| {
      at := [from];
    } else {
      var to := FirstCut(s, maxBytes, from);
      var more := HardPartsAreCut(s, maxBytes, to);
      CutsInFront(s, maxBytes, from, to, TrimSpace(s[from..to]), HardParts(s[to..], maxBytes), more);
      at := [from] + more;
    }
  }

  lemma HardSplitCuts(s: string, maxBytes: nat)
    requires maxBytes > 0 && s != ""
    ensures if |s| <= maxBytes then HardSplitOf(s, maxBytes) == [s] else CutInto(s, maxBytes, HardSplitOf(s, maxBytes))
  {
    if |s| > maxBytes {
      var at := HardPartsAreCut(s, maxBytes, 0);
      assert s[0..] == s;
    }
  }

  /** A cut in the middle of a word comes after maxBytes bytes, and then there is neither a
      newline nor a space among them, the first aside. */
  lemma WordCutOnlyWhen(s: string, maxBytes: nat, from: nat, to: nat)
    requires CutRight(s, maxBytes, from, to) && to < |s|
    requires s[to - 1] != '\n' && s[to - 1] != ' '
    ensures to == from + maxBytes && forall i :: from < i < to ==> s[i] != '\n' && s[i] != ' '
  {
    forall i | from < i < to ensures s[i] != '\n' && s[i] != ' ' {
      assert s[i] == '\n' ==> Among(s, '\n', from + 1, from + maxBytes);
      assert s[i] == ' ' ==> Among(s, ' ', from + 1, from + maxBytes);
    }
  }

  ghost predicate AllWithin(parts: seq<string>, maxBytes: nat)
  {
    forall p :: p in parts ==> |p| <= maxBytes
  }

  lemma {:induction false} HardPartsLaws(s: string, maxBytes: nat)
    requires maxBytes > 0
    ensures AllWithin(HardParts(s, maxBytes), maxBytes)
    ensures NonSpace(Concat(HardParts(s, maxBytes))) == NonSpace(s)
    decreases |s|
  {
    if |s| > maxBytes {
      var cut := Cut(s, maxBytes);
      HardPartsLaws(s[cut..], maxBytes);
      TrimKeeps(s[..cut]);
      NonSpaceConcat(TrimSpace(s[..cut]), Concat(HardParts(s[cut..], maxBytes)));
      NonSpaceConcat(s[..cut], s[cut..]);
      assert s == s[..cut] + s[cut..];
    } else if s != "" {
      TrimKeeps(s);
      assert Concat([TrimSpace(s)]) == TrimSpace(s);
    }
  }

  lemma HardSplitLaws(s: string, maxBytes: nat)
    requires maxBytes > 0
    ensures AllWithin(HardSplitOf(s, maxBytes), maxBytes)
    ensures NonSpace(Concat(HardSplitOf(s, maxBytes))) == NonSpace(s)
  {
    HardPartsLaws(s, maxBytes);
    assert Concat([s]) == s;
  }

  // ----- splitOversized -----

  /** The trimmed, non-blank paragraphs. */
  function Clean(paras: seq<string>): seq<string>
  {
    if paras == [] then []
    else (if TrimSpace(paras[0]) == "" then [] else [TrimSpace(paras[0])]) + Clean(paras[1..])
  }

  /** The block that is growing, as a chunk of its own if it is not empty. */
  function Flush(current: string): seq<string>
  {
    if current == "" then [] else [current]
  }

  function Glue(current: string, para: string): string
  {
    if current == "" then para else current + BREAK + para
  }

  /** The next paragraph does not fit behind the growing block. */
  predicate Overflows(current: string, para: string, maxBytes: nat)
  {
    current != "" && |current| + 2 + |para| > maxBytes
  }

  /** The chunks that the next paragraph finishes, and the block left growing. */
  function Emit(current: string, para: string, maxBytes: nat): seq<string>
    requires maxBytes > 0
  {
    if |para| > maxBytes then Flush(current) + HardSplitOf(para, maxBytes)
    else if Overflows(current, para, maxBytes) then [current]
    else []
  }

  function Carry(current: string, para: string, maxBytes: nat): string
  {
    if |para| > maxBytes then ""
    else if Overflows(current, para, maxBytes) then para
    else Glue(current, para)
  }

  /** The chunks made of non-blank paragraphs when `current` has been gathered. */
  function Pack(current: string, paras: seq<string>, maxBytes: nat): seq<string>
    requires maxBytes > 0
    decreases |paras|
  {
    if paras == [] then Flush(current)
    else Emit(current, paras[0], maxBytes) + Pack(Carry(current, paras[0], maxBytes), paras[1..], maxBytes)
  }

  /** Splits content longer than maxBytes; it terminates on every input. */
  method SplitOversized(content: string, maxBytes: nat) returns (chunks: seq<string>)
    requires maxBytes > 0
    ensures chunks == Pack("", Clean(Split(content, BREAK)), maxBytes)
    ensures AllWithin(chunks, maxBytes)
    ensures NonSpace(Concat(chunks)) == NonSpace(content)
  {
    var paragraphs := Split(content, BREAK);
    chunks := [];
    var current := "";
    ghost var all := Pack("", Clean(paragraphs), maxBytes);
    for i := 0 to |paragraphs|
      invariant chunks + Pack(current, Clean(paragraphs[i..]), maxBytes) == all
    {
      var para := TrimSpace(paragraphs[i]);
      CleanStep(paragraphs, i);
      if para == "" { continue; }
      PackStep(chunks, current, para, Clean(paragraphs[i + 1..]), maxBytes);
      chunks, current := AddParagraph(chunks, current, para, maxBytes);
    }
    if |current| > 0 {
      chunks := chunks + [current];
    }
    PackWithin("", Clean(paragraphs), maxBytes);
    PackKeeps("", Clean(paragraphs), maxBytes);
    CleanKeeps(content);
  }

  /** The loop body of SplitOversized for a non-blank paragraph. */
  method AddParagraph(chunks: seq<string>, current: string, para: string, maxBytes: nat)
    returns (chunks': seq<string>, current': string)
    requires maxBytes > 0
    ensures chunks' == chunks + Emit(current, para, maxBytes)
    ensures current' == Carry(current, para, maxBytes)
  {
    chunks', current' := chunks, current;
    if |para| > maxBytes {
      if |current'| > 0 {
        chunks' := chunks' + [current'];
        current' := "";
      }
      var parts := HardSplit(para, maxBytes);
      Regroup(chunks, Flush(current), parts);
      assert chunks' == chunks + Flush(current);
      chunks' := chunks' + parts;
      return;
    }
    if |current'| > 0 && |current'| + 2 + |para| > maxBytes {
      chunks' := chunks' + [current'];
      current' := "";
    }
    if |current'| > 0 {
      current' := current' + BREAK;
    }
    current' := current' + para;
  }

  lemma CleanStep(paras: seq<string>, i: nat)
    requires i < |paras|
    ensures Clean(paras[i..]) ==
              if TrimSpace(paras[i]) == "" then Clean(paras[i + 1..]) else [TrimSpace(paras[i])] + Clean(paras[i + 1..])
  {
    assert paras[i..][1..] == paras[i + 1..];
  }

  lemma PackStep(done: seq<string>, current: string, para: string, rest: seq<string>, maxBytes: nat)
    requires maxBytes > 0
    ensures done + Pack(current, [para] + rest, maxBytes) ==
              done + Emit(current, para, maxBytes) + Pack(Carry(current, para, maxBytes), rest, maxBytes)
  {
    assert ([para] + rest)[1..] == rest;
  }

  lemma {:induction false} PackWithin(current: string, paras: seq<string>, maxBytes: nat)
    requires maxBytes > 0 && |current| <= maxBytes
    ensures AllWithin(Pack(current, paras, maxBytes), maxBytes)
    decreases |paras|
  {
    if paras != [] {
      HardSplitLaws(paras[0], maxBytes);
      PackWithin(Carry(current, paras[0], maxBytes), paras[1..], maxBytes);
    }
  }

  /** The non-space bytes of the chunks. */
  function Kept(chunks: seq<string>): string
  {
    NonSpace(Concat(chunks))
  }

  lemma {:induction false} PackKeeps(current: string, paras: seq<string>, maxBytes: nat)
    requires maxBytes > 0
    ensures Kept(Pack(current, paras, maxBytes)) == NonSpace(current) + Kept(paras)
    decreases |paras|
  {
    FlushKeeps(current);
    if paras != [] {
      var para, rest := paras[0], paras[1..];
      var out, carry := Emit(current, para, maxBytes), Carry(current, para, maxBytes);
      PackKeeps(carry, rest, maxBytes);
      KeptConcat(out, Pack(carry, rest, maxBytes));
      StepKeeps(current, para, maxBytes);
      Regroup(Kept(out), NonSpace(carry), Kept(rest));
      Regroup(NonSpace(current), NonSpace(para), Kept(rest));
      NonSpaceHead(para, rest);
      assert paras == [para] + rest;
    }
  }

  lemma KeptConcat(a: seq<string>, b: seq<string>)
    ensures Kept(a + b) == Kept(a) + Kept(b)
  {
    ConcatAppend(a, b);
    NonSpaceConcat(Concat(a), Concat(b));
  }

  lemma StepKeeps(current: string, para: string, maxBytes: nat)
    requires maxBytes > 0
    ensures Kept(Emit(current, para, maxBytes)) + NonSpace(Carry(current, para, maxBytes)) ==
              NonSpace(current) + NonSpace(para)
  {
    FlushKeeps(current);
    if |para| > maxBytes {
      HardSplitLaws(para, maxBytes);
      KeptConcat(Flush(current), HardSplitOf(para, maxBytes));
    } else if !Overflows(current, para, maxBytes) {
      GlueKeeps(current, para);
    }
  }

  lemma FlushKeeps(current: string)
    ensures Concat(Flush(current)) == current
  {
    assert current != "" ==> Concat([current]) == current;
  }

  lemma GlueKeeps(current: string, para: string)
    ensures NonSpace(Glue(current, para)) == NonSpace(current) + NonSpace(para)
  {
    BreakIsSpace();
    if current != "" {
      NonSpaceConcat(current, BREAK);
      NonSpaceConcat(current + BREAK, para);
      assert NonSpace(current) + "" == NonSpace(current);
    }
  }

  lemma BreakIsSpace()
    ensures NonSpace(BREAK) == ""
  {
    assert BREAK[1..] == "\n" && "\n"[1..] == "";
  }

  /** Blank lines and outer white space are all that cleaning removes. */
  lemma CleanKeeps(content: string)
    ensures NonSpace(Concat(Clean(Split(content, BREAK)))) == NonSpace(content)
  {
    JoinSplit(content, BREAK);
    CleanKeepsJoined(Split(content, BREAK));
  }

  lemma {:induction false} CleanKeepsJoined(paras: seq<string>)
    ensures NonSpace(Concat(Clean(paras))) == NonSpace(Join(paras, BREAK))
  {
    if paras != [] {
      CleanKeepsJoined(paras[1..]);
      TrimKeeps(paras[0]);
      CleanHead(paras);
      if |paras| > 1 {
        NonSpaceConcat(paras[0] + BREAK, Join(paras[1..], BREAK));
        NonSpaceConcat(paras[0], BREAK);
        assert NonSpace(BREAK) == "" by { assert BREAK[1..] == "\n"; }
      } else {
        assert paras[1..] == [];
      }
    }
  }

  lemma CleanHead(paras: seq<string>)
    requires paras != []
    ensures NonSpace(Concat(Clean(paras))) == NonSpace(TrimSpace(paras[0])) + NonSpace(Concat(Clean(paras[1..])))
  {
    CleanStep(paras, 0);
    assert paras[0..] == paras;
    NonSpaceHead(TrimSpace(paras[0]), Clean(paras[1..]));
  }

  lemma NonSpaceHead(para: string, rest: seq<string>)
    ensures NonSpace(Concat([para] + rest)) == NonSpace(para) + NonSpace(Concat(rest))
    ensures NonSpace(Concat(rest)) == NonSpace("") + NonSpace(Concat(rest))
  {
    assert ([para] + rest)[1..] == rest;
    NonSpaceConcat(para, Concat(rest));
  }

  // ----- Blank chunks -----

  function Pieces(s: string, maxBytes: nat): seq<string>
    requires maxBytes > 0
    decreases |s|
  {
    if |s| > maxBytes then
      var cut := Cut(s, maxBytes);
      [s[..cut]] + Pieces(s[cut..], maxBytes)
    else if s != "" then [s]
    else []
  }

  predicate Blank(s: string)
  {
    forall i :: 0 <= i < |s| ==> IsSpace(s[i])
  }

  lemma {:induction false} BlankIsTrimmedAway(s: string)
    ensures TrimSpace(s) == "" <==> Blank(s)
  {
    if s != "" {
      if IsSpace(s[0]) {
        BlankIsTrimmedAway(s[1..]);
        assert s == [s[0]] + s[1..];
      } else {
        TrimRightKeeps(s);
        assert NonSpace(s) != "";
      }
    }
  }

  /** The cuts share out s. */
  lemma {:induction false} PiecesMakeUp(s: string, maxBytes: nat)
    requires maxBytes > 0
    ensures Concat(Pieces(s, maxBytes)) == s
    decreases |s|
  {
    if |s| > maxBytes {
      var cut := Cut(s, maxBytes);
      PiecesMakeUp(s[cut..], maxBytes);
      assert ([s[..cut]] + Pieces(s[cut..], maxBytes))[1..] == Pieces(s[cut..], maxBytes);
      assert s == s[..cut] + s[cut..];
    } else if s != "" {
      assert Concat([s]) == s;
    }
  }

  ghost predicate AnyBlank(pieces: seq<string>)
  {
    exists p :: p in pieces && Blank(p)
  }

  /** Some piece that the cuts make of an overlong paragraph is white space only. */
  ghost predicate HasBlankPiece(s: string, maxBytes: nat)
    requires maxBytes > 0
  {
    |s| > maxBytes && AnyBlank(Pieces(s, maxBytes))
  }

  lemma AnyBlankHead(p: string, rest: seq<string>)
    ensures AnyBlank([p] + rest) <==> Blank(p) || AnyBlank(rest)
  {
    assert p in [p] + rest;
    assert forall q :: q in rest ==> q in [p] + rest;
  }

  /** A part is empty exactly when its piece is blank. */
  lemma {:induction false} EmptyPartExactlyWhen(s: string, maxBytes: nat)
    requires maxBytes > 0
    ensures "" in HardParts(s, maxBytes) <==> AnyBlank(Pieces(s, maxBytes))
    decreases |s|
  {
    if |s| > maxBytes {
      var cut := Cut(s, maxBytes);
      EmptyPartExactlyWhen(s[cut..], maxBytes);
      BlankIsTrimmedAway(s[..cut]);
      AnyBlankHead(s[..cut], Pieces(s[cut..], maxBytes));
    } else if s != "" {
      BlankIsTrimmedAway(s);
    }
  }

  /** A chunk is empty exactly when some overlong paragraph has a blank piece. */
  lemma {:induction false} EmptyChunkExactlyWhen(current: string, paras: seq<string>, maxBytes: nat)
    requires maxBytes > 0 && "" !in paras
    ensures "" in Pack(current, paras, maxBytes) <==> exists p :: p in paras && HasBlankPiece(p, maxBytes)
    decreases |paras|
  {
    if paras != [] {
      var para, rest := paras[0], paras[1..];
      assert paras == [para] + rest && para in paras;
      EmptyChunkExactlyWhen(Carry(current, para, maxBytes), rest, maxBytes);
      EmptyPartExactlyWhen(para, maxBytes);
      assert "" in Emit(current, para, maxBytes) <==> HasBlankPiece(para, maxBytes);
    }
  }

  predicate AdjacentSpaces(s: string)
  {
    exists i {:trigger s[i]} :: 0 <= i < |s| - 1 && IsSpace(s[i]) && IsSpace(s[i + 1])
  }

  /** A trimmed paragraph without adjacent white space has no blank piece, unless it is
      cut into single bytes. */
  lemma {:induction false} SingleSpacesMakeNone(s: string, maxBytes: nat)
    requires maxBytes >= 2 && !AdjacentSpaces(s) && (s != "" ==> !IsSpace(s[|s| - 1]))
    ensures forall p :: p in Pieces(s, maxBytes) ==> !Blank(p)
    decreases |s|
  {
    if |s| > maxBytes {
      var cut := Cut(s, maxBytes);
      var rest := s[cut..];
      assert forall i :: 0 <= i < |rest| ==> rest[i] == s[cut + i];
      assert !AdjacentSpaces(rest);
      SingleSpacesMakeNone(rest, maxBytes);
      assert cut >= 2 && !Blank(s[..cut]) by {
        assert s[..cut][0] == s[0] && s[..cut][1] == s[1];
      }
    }
  }

  /** Three spaces between two words, cut at two bytes. */
  lemma BlankChunk(s: string)
    requires s == "a   b"
    ensures "" in Pack("", [s], 2)
  {
    var first, p, rest := s[..2], s[2..4], s[2..];
    assert first == "a " && Cut(s, 2) == 2;
    assert rest[..2] == p && p[..1] == " " && Cut(rest, 2) == 2;
    assert Pieces(s, 2) == [first] + Pieces(rest, 2);
    assert Pieces(rest, 2) == [p] + Pieces(rest[2..], 2);
    AnyBlankHead(p, Pieces(rest[2..], 2));
    AnyBlankHead(first, Pieces(rest, 2));
    assert s in [s];
    EmptyChunkExactlyWhen("", [s], 2);
  }

  // ----- As few chunks as possible -----

  function Flatten(blocks: seq<seq<string>>): seq<string>
  {
    if blocks == [] then [] else blocks[0] + Flatten(blocks[1..])
  }

  /** An in-order grouping of the paragraphs into blocks that fit. */
  ghost predicate Grouping(blocks: seq<seq<string>>, paras: seq<string>, maxBytes: nat)
  {
    Flatten(blocks) == paras && forall b :: b in blocks ==> |Join(b, BREAK)| <= maxBytes
  }

  function Joined(blocks: seq<seq<string>>): seq<string>
  {
    if blocks == [] then [] else [Join(blocks[0], BREAK)] + Joined(blocks[1..])
  }

  /** Paragraphs as they come from cleaning, none longer than maxBytes. */
  ghost predicate Fitting(paras: seq<string>, maxBytes: nat)
  {
    forall p :: p in paras ==> 0 < |p| <= maxBytes
  }

  /** A longer head start can only need more chunks, and at most one more. */
  lemma {:induction false} PackMonotone(c: string, d: string, paras: seq<string>, maxBytes: nat)
    requires maxBytes > 0 && Fitting(paras, maxBytes) && |c| <= |d|
    ensures |Pack(c, paras, maxBytes)| <= |Pack(d, paras, maxBytes)| <= |Pack(c, paras, maxBytes)| + 1
    decreases |paras|
  {
    if paras != [] {
      var para, rest := paras[0], paras[1..];
      assert para in paras;
      var fits := (x: string) => x == "" || |x| + 2 + |para| <= maxBytes;
      if fits(d) {
        if fits(c) {
          PackMonotone(Glue(c, para), Glue(d, para), rest, maxBytes);
        }
      } else if fits(c) {
        PackMonotone(para, Glue(c, para), rest, maxBytes);
      }
    }
  }

  /** A block that fits behind the head start is swallowed whole. */
  lemma {:induction false} PackSwallows(c: string, block: seq<string>, rest: seq<string>, maxBytes: nat)
    requires maxBytes > 0 && Fitting(block + rest, maxBytes)
    requires block != [] && |Glue(c, Join(block, BREAK))| <= maxBytes
    ensures Pack(c, block + rest, maxBytes) == Pack(Glue(c, Join(block, BREAK)), rest, maxBytes)
    decreases |block|
  {
    var para := block[0];
    assert (block + rest)[0] == para && (block + rest)[1..] == block[1..] + rest;
    assert para in block + rest;
    if |block| == 1 {
      assert block[1..] == [] && block[1..] + rest == rest;
    } else {
      assert |Glue(c, para)| + 2 + |Join(block[1..], BREAK)| == |Glue(c, Join(block, BREAK))|;
      assert Glue(Glue(c, para), Join(block[1..], BREAK)) == Glue(c, Join(block, BREAK));
      PackSwallows(Glue(c, para), block[1..], rest, maxBytes);
    }
  }

  /** No in-order grouping of the same paragraphs uses fewer chunks. */
  lemma {:induction false} PackMinimal(blocks: seq<seq<string>>, paras: seq<string>, maxBytes: nat)
    requires maxBytes > 0 && Fitting(paras, maxBytes) && Grouping(blocks, paras, maxBytes)
    ensures |Pack("", paras, maxBytes)| <= |blocks|
    decreases |blocks|
  {
    if blocks != [] {
      var block, rest := blocks[0], Flatten(blocks[1..]);
      assert block in blocks;
      assert forall p :: p in rest ==> p in paras;
      PackMinimal(blocks[1..], rest, maxBytes);
      if block == [] {
        assert paras == rest;
      } else {
        PackSwallows("", block, rest, maxBytes);
        PackMonotone("", Join(block, BREAK), rest, maxBytes);
      }
    }
  }

  lemma GroupingFront(block: seq<string>, blocks: seq<seq<string>>, paras: seq<string>, maxBytes: nat)
    requires |Join(block, BREAK)| <= maxBytes && Grouping(blocks, paras, maxBytes)
    ensures Grouping([block] + blocks, block + paras, maxBytes)
    ensures Joined([block] + blocks) == [Join(block, BREAK)] + Joined(blocks)
  {
    assert ([block] + blocks)[1..] == blocks;
  }

  /** And the chunks are themselves such a grouping. */
  lemma {:induction false} PackGroups(block: seq<string>, paras: seq<string>, maxBytes: nat)
    returns (blocks: seq<seq<string>>)
    requires maxBytes > 0 && Fitting(block + paras, maxBytes) && |Join(block, BREAK)| <= maxBytes
    ensures Grouping(blocks, block + paras, maxBytes)
    ensures Joined(blocks) == Pack(Join(block, BREAK), paras, maxBytes)
    decreases |paras|
  {
    JoinEmpty(block, block + paras, maxBytes);
    if paras == [] {
      GroupingFront(block, [], [], maxBytes);
      blocks := if block == [] then [] else [block];
      assert block + paras == block && [block] + [] == [block] && block + [] == block;
    } else {
      var para, rest := paras[0], paras[1..];
      assert para in block + paras && paras == [para] + rest;
      if Overflows(Join(block, BREAK), para, maxBytes) {
        assert forall p :: p in paras ==> p in block + paras;
        var more := PackGroups([para], rest, maxBytes);
        GroupingFront(block, more, [para] + rest, maxBytes);
        blocks := [block] + more;
      } else {
        JoinSnoc(block, para, BREAK);
        assert block + paras == (block + [para]) + rest;
        blocks := PackGroups(block + [para], rest, maxBytes);
      }
    }
  }

  /** With no overlong paragraph the chunks are an in-order grouping of the
      paragraphs, and no such grouping has fewer blocks. */
  lemma SplitIsOptimal(content: string, maxBytes: nat, other: seq<seq<string>>) returns (blocks: seq<seq<string>>)
    requires maxBytes > 0
    requires forall p :: p in Clean(Split(content, BREAK)) ==> |p| <= maxBytes
    requires Grouping(other, Clean(Split(content, BREAK)), maxBytes)
    ensures Grouping(blocks, Clean(Split(content, BREAK)), maxBytes)
    ensures Joined(blocks) == Pack("", Clean(Split(content, BREAK)), maxBytes)
    ensures |blocks| <= |other|
  {
    var paras := Clean(Split(content, BREAK));
    CleanNonEmpty(Split(content, BREAK));
    assert [] + paras == paras;
    blocks := PackGroups([], paras, maxBytes);
    PackMinimal(other, paras, maxBytes);
    JoinedSize(blocks);
  }

  /** An overlong paragraph is split by itself, between those before it and those behind it. */
  lemma {:induction false} PackAround(current: string, pre: seq<string>, big: string, post: seq<string>, maxBytes: nat)
    requires maxBytes > 0 && Fitting(pre, maxBytes) && |big| > maxBytes
    ensures Pack(current, pre + [big] + post, maxBytes) ==
              Pack(current, pre, maxBytes) + HardSplitOf(big, maxBytes) + Pack("", post, maxBytes)
    decreases |pre|
  {
    var all := pre + [big] + post;
    if pre == [] {
      assert all[0] == big && all[1..] == post;
    } else {
      var carry := Carry(current, pre[0], maxBytes);
      assert pre[0] in pre && all[0] == pre[0] && all[1..] == pre[1..] + [big] + post;
      PackAround(carry, pre[1..], big, post, maxBytes);
      var out, more := Emit(current, pre[0], maxBytes), Pack(carry, pre[1..], maxBytes);
      Regroup(out, more, HardSplitOf(big, maxBytes));
      Regroup(out, more + HardSplitOf(big, maxBytes), Pack("", post, maxBytes));
    }
  }

  /** texts are trimmed paragraphs, none of them blank, from rising places. */
  ghost predicate CleanedAt(paras: seq<string>, texts: seq<string>, at: seq<nat>)
  {
    && |at| == |texts|
    && (forall k :: 0 <= k < |at| ==> at[k] < |paras| && texts[k] == TrimSpace(paras[at[k]]) != "")
    && (forall j, k :: 0 <= j < k < |at| ==> at[j] < at[k])
    && (forall i: nat :: i < |paras| && TrimSpace(paras[i]) != "" ==> i in at)
  }

  /** Cleaning keeps exactly the paragraphs that are not blank, trimmed and in their order. */
  lemma {:induction false} CleanIs(paras: seq<string>) returns (at: seq<nat>)
    ensures CleanedAt(paras, Clean(paras), at)
  {
    at := [];
    if paras != [] {
      var n := |paras| - 1;
      at := CleanIs(paras[..n]);
      CleanSnoc(paras[..n], paras[n]);
      assert paras == paras[..n] + [paras[n]];
      if TrimSpace(paras[n]) != "" {
        var was := at;
        at := at + [n];
        forall i: nat | i < |paras| && TrimSpace(paras[i]) != "" ensures i in at {
          if i < n { assert paras[..n][i] == paras[i] && i in was; }
        }
      }
    }
  }

  lemma {:induction false} CleanSnoc(paras: seq<string>, p: string)
    ensures Clean(paras + [p]) == Clean(paras) + (if TrimSpace(p) == "" then [] else [TrimSpace(p)])
  {
    if paras == [] {
      assert paras + [p] == [p] && [p][1..] == [];
    } else {
      CleanSnoc(paras[1..], p);
      assert (paras + [p])[1..] == paras[1..] + [p];
    }
  }

  lemma {:induction false} CleanNonEmpty(paras: seq<string>)
    ensures forall p :: p in Clean(paras) ==> p != ""
  {
    if paras != [] { CleanNonEmpty(paras[1..]); }
  }

  lemma {:induction false} JoinedSize(blocks: seq<seq<string>>)
    ensures |Joined(blocks)| == |blocks|
  {
    if blocks != [] { JoinedSize(blocks[1..]); }
  }

  lemma JoinEmpty(block: seq<string>, all: seq<string>, maxBytes: nat)
    requires Fitting(all, maxBytes) && forall p :: p in block ==> p in all
    ensures Join(block, BREAK) == "" <==> block == []
  {
    if block != [] { assert block[0] in all; }
  }
}
