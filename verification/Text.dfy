/** The parts of Go's strings package that the program leans on, over ASCII bytes. */
module Text {

  predicate IsSpace(c: char)
  {
    c == ' ' || '\t' <= c <= '\r'
  }

  function TrimLeft(s: string): string
  {
    if s != "" && IsSpace(s[0]) then TrimLeft(s[1..]) else s
  }

  function TrimRight(s: string): string
  {
    if s != "" && IsSpace(s[|s| - 1]) then TrimRight(s[..|s| - 1]) else s
  }

  /** strings.TrimSpace */
  function TrimSpace(s: string): (r: string)
  {
    TrimRight(TrimLeft(s))
  }

  /** All white space at both ends goes, and nothing else. */
  lemma {:induction false} TrimSpaceIs(s: string) returns (a: nat, b: nat)
    ensures a <= b <= |s| && TrimSpace(s) == s[a..b]
    ensures forall i :: 0 <= i < a || b <= i < |s| ==> IsSpace(s[i])
    ensures a < b ==> !IsSpace(s[a]) && !IsSpace(s[b - 1])
  {
    if s != "" && IsSpace(s[0]) {
      a, b := TrimSpaceIs(s[1..]);
      a, b := a + 1, b + 1;
      assert s == [s[0]] + s[1..];
    } else {
      a := 0;
      b := TrimRightIs(s);
      assert s[0..b] == s[..b];
    }
  }

  lemma {:induction false} TrimRightIs(s: string) returns (b: nat)
    ensures b <= |s| && TrimRight(s) == s[..b]
    ensures (forall i :: b <= i < |s| ==> IsSpace(s[i])) && (b > 0 ==> !IsSpace(s[b - 1]))
  {
    if s != "" && IsSpace(s[|s| - 1]) {
      b := TrimRightIs(s[..|s| - 1]);
    } else {
      b := |s|;
    }
  }

  /** strings.TrimRight(s, "\n") */
  function TrimNewlines(s: string): (r: string)
    ensures r <= s && (r != "" ==> r[|r| - 1] != '\n')
    ensures forall i :: |r| <= i < |s| ==> s[i] == '\n'
  {
    if s != "" && s[|s| - 1] == '\n' then TrimNewlines(s[..|s| - 1]) else s
  }

  /** The bytes of s that are not white space, in order. */
  function NonSpace(s: string): string
  {
    if s == "" then ""
    else if IsSpace(s[0]) then NonSpace(s[1..])
    else [s[0]] + NonSpace(s[1..])
  }

  lemma {:induction false} NonSpaceConcat(a: string, b: string)
    ensures NonSpace(a + b) == NonSpace(a) + NonSpace(b)
  {
    if a == "" {
      assert a + b == b;
    } else {
      NonSpaceConcat(a[1..], b);
      assert (a + b)[0] == a[0] && (a + b)[1..] == a[1..] + b;
      if !IsSpace(a[0]) { Regroup([a[0]], NonSpace(a[1..]), NonSpace(b)); }
    }
  }

  lemma {:induction false} TrimLeftKeeps(s: string)
    ensures NonSpace(TrimLeft(s)) == NonSpace(s) && |TrimLeft(s)| <= |s|
  {
    if s != "" && IsSpace(s[0]) { TrimLeftKeeps(s[1..]); }
  }

  lemma {:induction false} TrimRightKeeps(s: string)
    ensures NonSpace(TrimRight(s)) == NonSpace(s) && |TrimRight(s)| <= |s|
  {
    if s != "" && IsSpace(s[|s| - 1]) {
      TrimRightKeeps(s[..|s| - 1]);
      assert s == s[..|s| - 1] + [s[|s| - 1]];
      NonSpaceConcat(s[..|s| - 1], [s[|s| - 1]]);
    }
  }

  lemma TrimKeeps(s: string)
    ensures NonSpace(TrimSpace(s)) == NonSpace(s) && |TrimSpace(s)| <= |s|
  {
    TrimLeftKeeps(s);
    TrimRightKeeps(TrimLeft(s));
  }

  lemma Regroup<T>(a: seq<T>, b: seq<T>, c: seq<T>)
    ensures (a + b) + c == a + (b + c)
  {
  }

  function Concat(parts: seq<string>): string
  {
    if parts == [] then "" else parts[0] + Concat(parts[1..])
  }

  lemma {:induction false} ConcatAppend(a: seq<string>, b: seq<string>)
    ensures Concat(a + b) == Concat(a) + Concat(b)
  {
    if a == [] {
      assert a + b == b;
    } else {
      ConcatAppend(a[1..], b);
      assert (a + b)[0] == a[0] && (a + b)[1..] == a[1..] + b;
      Regroup(a[0], Concat(a[1..]), Concat(b));
    }
  }

  /** strings.Join */
  function Join(parts: seq<string>, sep: string): string
  {
    if parts == [] then "" else if |parts| == 1 then parts[0] else parts[0] + sep + Join(parts[1..], sep)
  }

  lemma {:induction false} JoinSnoc(parts: seq<string>, part: string, sep: string)
    ensures Join(parts + [part], sep) == if parts == [] then part else Join(parts, sep) + sep + part
  {
    if parts == [] {
      assert parts + [part] == [part];
    } else {
      JoinSnoc(parts[1..], part, sep);
      assert (parts + [part])[1..] == parts[1..] + [part];
    }
  }

  /** strings.Index: the first place where sub occurs in s, or -1. */
  function Index(s: string, sub: string): (i: int)
    ensures -1 <= i <= |s|
    ensures i >= 0 ==> Occurs(s, sub, i) && forall j :: 0 <= j < i ==> !Occurs(s, sub, j)
    ensures i < 0 ==> forall j :: 0 <= j ==> !Occurs(s, sub, j)
  {
    if sub <= s then
      assert s[0..] == s;
      0
    else if s == "" then -1
    else
      var i := Index(s[1..], sub);
      assert forall j :: 0 < j <= |s| ==> s[j..] == s[1..][j - 1..];
      assert forall j :: 0 < j <= |s| ==> (Occurs(s, sub, j) <==> Occurs(s[1..], sub, j - 1));
      if i < 0 then -1 else i + 1
  }

  /** sub stands at offset i of s. */
  predicate Occurs(s: string, sub: string, i: int)
  {
    0 <= i <= |s| && sub <= s[i..]
  }

  lemma OccursBehind(s: string, sub: string, from: int, i: int)
    requires 0 <= from <= |s|
    ensures Occurs(s[from..], sub, i) <==> i >= 0 && Occurs(s, sub, from + i)
  {
    if 0 <= i && from + i <= |s| {
      assert s[from..][i..] == s[from + i..];
    }
  }

  /** strings.Index(s[from:], sub), told in offsets of s. */
  lemma IndexBehind(s: string, sub: string, from: int)
    requires 0 <= from <= |s| && sub != ""
    ensures var pos := Index(s[from..], sub);
            if pos == -1 then forall i :: i >= from ==> !Occurs(s, sub, i)
            else
              && from + pos < |s| && Occurs(s, sub, from + pos)
              && forall i :: from <= i < from + pos ==> !Occurs(s, sub, i)
  {
    forall i | i >= from ensures Occurs(s, sub, i) <==> Occurs(s[from..], sub, i - from) {
      OccursBehind(s, sub, from, i - from);
    }
  }

  /** strings.Split for a non-empty separator. */
  function Split(s: string, sep: string): (parts: seq<string>)
    requires sep != ""
    ensures parts != []
  {
    var i := Index(s, sep);
    if i < 0 then [s] else [s[..i]] + Split(s[i + |sep|..], sep)
  }

  lemma {:induction false} JoinSplit(s: string, sep: string)
    requires sep != ""
    ensures Join(Split(s, sep), sep) == s
    decreases |s|
  {
    var i := Index(s, sep);
    if i >= 0 {
      JoinSplit(s[i + |sep|..], sep);
      assert s[i..] == sep + s[i + |sep|..];
      assert s == s[..i] + sep + s[i + |sep|..];
      assert ([s[..i]] + Split(s[i + |sep|..], sep))[1..] == Split(s[i + |sep|..], sep);
    }
  }

  lemma OccursInPrefix(s: string, n: nat, sub: string, i: int)
    requires n <= |s| && Occurs(s[..n], sub, i)
    ensures Occurs(s, sub, i)
  {
    assert s[i..][..n - i] == s[..n][i..];
  }

  /** No piece contains the separator. */
  lemma {:induction false} SplitHasNone(s: string, sep: string)
    requires sep != ""
    ensures forall p, i :: p in Split(s, sep) ==> !Occurs(p, sep, i)
    decreases |s|
  {
    var at := Index(s, sep);
    if at >= 0 {
      forall i ensures !Occurs(s[..at], sep, i) {
        if Occurs(s[..at], sep, i) {
          OccursInPrefix(s, at, sep, i);
        }
      }
      SplitHasNone(s[at + |sep|..], sep);
    }
  }

  lemma OccursOne(s: string, c: char, i: int)
    ensures Occurs(s, [c], i) <==> 0 <= i < |s| && s[i] == c
  {
    if 0 <= i < |s| { assert s[i..][0] == s[i]; }
  }

  lemma IndexAround(a: string, c: char, b: string)
    ensures Index(a + [c] + b, [c]) == if Index(a, [c]) < 0 then |a| else Index(a, [c])
    ensures Index(a, [c]) < |a|
  {
    var s := a + [c] + b;
    forall i ensures Occurs(a, [c], i) <==> 0 <= i < |a| && s[i] == c { OccursOne(a, c, i); }
    forall i ensures Occurs(s, [c], i) <==> 0 <= i < |s| && s[i] == c { OccursOne(s, c, i); }
    assert s[|a|] == c;
  }

  lemma SlicesAround(a: string, c: char, b: string, i: nat)
    requires i < |a|
    ensures (a + [c] + b)[..i] == a[..i] && (a + [c] + b)[i + 1..] == a[i + 1..] + [c] + b
    ensures (a + [c] + b)[..|a|] == a && (a + [c] + b)[|a| + 1..] == b
  {
  }

  /** Splitting on one byte meets every occurrence of it. */
  lemma {:induction false} SplitAround(a: string, c: char, b: string)
    ensures Split(a + [c] + b, [c]) == Split(a, [c]) + Split(b, [c])
    decreases |a|
  {
    var s, i := a + [c] + b, Index(a, [c]);
    IndexAround(a, c, b);
    if i < 0 {
      assert s[..|a|] == a && s[|a| + 1..] == b;
      assert Split(s, [c]) == [a] + Split(b, [c]);
    } else {
      SlicesAround(a, c, b, i);
      var rest := Split(a[i + 1..], [c]);
      assert Split(a, [c]) == [a[..i]] + rest;
      SplitAround(a[i + 1..], c, b);
      assert Split(s, [c]) == [a[..i]] + (rest + Split(b, [c]));
      Regroup([a[..i]], rest, Split(b, [c]));
    }
  }

  /** The last place of c in s, or -1. */
  function LastIndex(s: string, c: char): (i: int)
    ensures -1 <= i < |s|
    ensures i >= 0 ==> s[i] == c
    ensures forall j :: i < j < |s| ==> s[j] != c
  {
    if s == "" then -1
    else if s[|s| - 1] == c then |s| - 1
    else LastIndex(s[..|s| - 1], c)
  }
}
