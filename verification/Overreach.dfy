/** Can a directory that a remote lists by its own name be outdone (pkg/config/config.go)?
    Specificity is counted on a pattern as written, while it may match under the
    resolved directory, which can be shorter. */
module Overreach {
  import opened Collections
  import opened Text
  import opened Routing

  // ----- Class-free patterns as tokens -----

  datatype Tok = Star | One | Lit(c: char)

  /** No backslash stands at the end without a character to quote. */
  predicate Closed(p: string)
  {
    if p == "" then true
    else if p[0] == '\\' then |p| > 1 && Closed(p[2..])
    else Closed(p[1..])
  }

  function Tokens(p: string): seq<Tok>
  {
    if p == "" then []
    else if p[0] == '*' then [Star] + Tokens(p[1..])
    else if p[0] == '?' then [One] + Tokens(p[1..])
    else if p[0] == '\\' then if |p| > 1 then [Lit(p[1])] + Tokens(p[2..]) else []
    else [Lit(p[0])] + Tokens(p[1..])
  }

  predicate TokMatch(ts: seq<Tok>, s: string)
    decreases |ts| + |s|
  {
    if ts == [] then s == ""
    else match ts[0]
      case Star => TokMatch(ts[1..], s) || (s != "" && s[0] != '/' && TokMatch(ts, s[1..]))
      case One => s != "" && s[0] != '/' && TokMatch(ts[1..], s[1..])
      case Lit(c) => s != "" && s[0] == c && TokMatch(ts[1..], s[1..])
  }

  function Lits(ts: seq<Tok>): nat
  {
    if ts == [] then 0 else (if ts[0].Lit? then 1 else 0) + Lits(ts[1..])
  }

  lemma {:induction false} GlobIsTokens(classes: ClassRule, p: string, s: string)
    requires ClassFree(p)
    ensures GlobMatch(classes, p, s) <==> Closed(p) && TokMatch(Tokens(p), s)
    decreases |p| + |s|
  {
    if p != "" {
      var ts := Tokens(p);
      if p[0] == '*' {
        GlobIsTokens(classes, p[1..], s);
        if s != "" { GlobIsTokens(classes, p, s[1..]); }
      } else if p[0] == '\\' {
        if |p| > 1 && s != "" { GlobIsTokens(classes, p[2..], s[1..]); }
      } else if s != "" {
        GlobIsTokens(classes, p[1..], s[1..]);
      }
    }
  }

  lemma {:induction false} LiteralLenIsLits(p: string)
    requires ClassFree(p) && Closed(p)
    ensures LiteralLen(p) == Lits(Tokens(p))
  {
    if p != "" {
      if p[0] == '\\' { LiteralLenIsLits(p[2..]); } else { LiteralLenIsLits(p[1..]); }
    }
  }

  // ----- Clean directories -----

  /** What has been read of a path component so far. */
  datatype Part = Fresh | Dot | DotDot | Proper

  function Grow(part: Part, c: char): Part
  {
    if c != '.' || part.DotDot? || part.Proper? then Proper
    else if part.Fresh? then Dot else DotDot
  }

  /** s completes the component and goes on with others, none of them "", "." or "..". */
  predicate CleanTail(s: string, part: Part)
  {
    if s == "" then part.Proper?
    else if s[0] == '/' then part.Proper? && CleanTail(s[1..], Fresh)
    else CleanTail(s[1..], Grow(part, s[0]))
  }

  /** An absolute path as filepath.Clean leaves it. */
  predicate CleanDir(e: string)
  {
    e == "/" || (e != "" && e[0] == '/' && CleanTail(e, Proper))
  }

  lemma {:induction false} CleanTailConcat(t: string, u: string, part: Part)
    requires CleanTail(t, part)
    ensures CleanTail(t + u, part) <==> CleanTail(u, Proper)
    decreases t
  {
    if t == "" {
      assert t + u == u;
    } else {
      assert (t + u)[0] == t[0] && (t + u)[1..] == t[1..] + u;
      CleanTailConcat(t[1..], u, if t[0] == '/' then Fresh else Grow(part, t[0]));
    }
  }

  // ----- The shortest clean match -----

  /** The component ends improper if its stars match nothing. */
  predicate Lacks(ts: seq<Tok>, part: Part)
  {
    if ts == [] then !part.Proper?
    else match ts[0]
      case Star => Lacks(ts[1..], part)
      case One => false
      case Lit(c) => if c == '/' then !part.Proper? else Lacks(ts[1..], Grow(part, c))
  }

  /** Every question mark and, where a component needs it, one star filled with an 'a'. */
  function Filled(ts: seq<Tok>, part: Part): string
  {
    if ts == [] then ""
    else match ts[0]
      case Star => if Lacks(ts[1..], part) then "a" + Filled(ts[1..], Proper) else Filled(ts[1..], part)
      case One => "a" + Filled(ts[1..], Proper)
      case Lit(c) => [c] + Filled(ts[1..], if c == '/' then Fresh else Grow(part, c))
  }

  lemma {:induction false} FilledMatches(ts: seq<Tok>, part: Part)
    ensures TokMatch(ts, Filled(ts, part)) && |Filled(ts, part)| >= Lits(ts)
  {
    if ts != [] {
      var rest, u := ts[1..], Filled(ts, part);
      match ts[0]
      case Star =>
        var next := if Lacks(rest, part) then Proper else part;
        FilledMatches(rest, next);
        if Lacks(rest, part) { assert u[1..] == Filled(rest, Proper) && TokMatch(ts, u[1..]); }
      case One => FilledMatches(rest, Proper);
      case Lit(c) => FilledMatches(rest, if c == '/' then Fresh else Grow(part, c));
    }
  }

  lemma {:induction false} ProperLacksNothing(ts: seq<Tok>)
    ensures !Lacks(ts, Proper)
  {
    if ts != [] { ProperLacksNothing(ts[1..]); }
  }

  /** A component that lacks nothing is filled as if it were proper already. */
  lemma {:induction false} NothingLacking(ts: seq<Tok>, part: Part)
    requires !Lacks(ts, part)
    ensures Filled(ts, part) == Filled(ts, Proper)
    ensures CleanTail(Filled(ts, part), part) <==> CleanTail(Filled(ts, Proper), Proper)
  {
    if ts != [] {
      var rest := ts[1..];
      ProperLacksNothing(rest);
      match ts[0]
      case Star => NothingLacking(rest, part);
      case One =>
      case Lit(c) => if c != '/' { NothingLacking(rest, Grow(part, c)); }
    }
  }

  /** With the component filled up ahead: no clean match is shorter, whatever it began with. */
  lemma {:induction false} ProperIsLeast(ts: seq<Tok>, s: string, part: Part)
    requires TokMatch(ts, s) && CleanTail(s, part)
    ensures CleanTail(Filled(ts, Proper), Proper) && |Filled(ts, Proper)| <= |s|
    decreases |ts| + |s|, 0
  {
    if ts != [] {
      var rest := ts[1..];
      match ts[0]
      case Star =>
        ProperLacksNothing(rest);
        if TokMatch(rest, s) {
          ProperIsLeast(rest, s, part);
        } else {
          ProperIsLeast(ts, s[1..], Grow(part, s[0]));
        }
      case One => ProperIsLeast(rest, s[1..], Grow(part, s[0]));
      case Lit(c) =>
        if c == '/' {
          FilledIsLeast(rest, s[1..], Fresh);
        } else {
          ProperIsLeast(rest, s[1..], Grow(part, c));
        }
    }
  }

  /** Where the component lacks a character, a star of it has matched one. */
  lemma {:induction false} LackingCostsOne(ts: seq<Tok>, s: string, part: Part)
    requires TokMatch(ts, s) && CleanTail(s, part) && Lacks(ts, part)
    ensures 1 + |Filled(ts, Proper)| <= |s|
    decreases |ts| + |s|, 0
  {
    var rest := ts[1..];
    match ts[0]
    case Star =>
      ProperLacksNothing(rest);
      if TokMatch(rest, s) {
        LackingCostsOne(rest, s, part);
      } else {
        ProperIsLeast(ts, s[1..], Grow(part, s[0]));
      }
    case One =>
    case Lit(c) => LackingCostsOne(rest, s[1..], Grow(part, c));
  }

  /** No clean match is shorter than the filled pattern, which is clean if there is one. */
  lemma {:induction false} FilledIsLeast(ts: seq<Tok>, s: string, part: Part)
    requires TokMatch(ts, s) && CleanTail(s, part)
    ensures CleanTail(Filled(ts, part), part) && |Filled(ts, part)| <= |s|
    decreases |ts| + |s|, 1
  {
    if !Lacks(ts, part) {
      NothingLacking(ts, part);
      ProperIsLeast(ts, s, part);
    } else {
      var rest := ts[1..];
      match ts[0]
      case Star =>
        LackingCostsOne(ts, s, part);
        ProperIsLeast(ts, s, part);
        ProperLacksNothing(rest);
      case One =>
      case Lit(c) => FilledIsLeast(rest, s[1..], Grow(part, c));
    }
  }

  // ----- Parts of patterns -----

  predicate PlainText(l: string)
  {
    forall c :: c in l ==> !IsMeta(c)
  }

  lemma {:induction false} LiteralsAfterPlain(l: string, q: string)
    requires PlainText(l)
    ensures LiteralLen(l + q) == |l| + LiteralLen(q) && (ClassFree(l + q) <==> ClassFree(q))
    decreases l
  {
    if l == "" {
      assert l + q == q;
    } else {
      assert l[0] in l && forall c :: c in l[1..] ==> c in l;
      LiteralsAfterPlain(l[1..], q);
      assert (l + q)[1..] == l[1..] + q;
    }
  }

  /** Behind the directory it names a pattern ends or goes on with a slash. */
  lemma BehindLiteralDir(p: string)
    ensures var l, q := LiteralDir(p), p[|LiteralDir(p)|..];
            && p == l + q && (if q == "" then l == "" || l[|l| - 1] != '/' else l == "" || q[0] == '/')
  {
    var i := IndexMeta(p);
    if i >= 0 {
      var k := LastIndex(p[..i], '/');
      assert k >= 0 ==> p[..k + 1][k] == '/';
    }
  }

  lemma {:induction false} IndexMetaAt(l: string, c: char, rest: string)
    requires PlainText(l) && IsMeta(c)
    ensures IndexMeta(l + [c] + rest) == |l|
    decreases l
  {
    if l == "" {
      assert (l + [c] + rest)[0] == c;
    } else {
      assert l[0] in l && forall d :: d in l[1..] ==> d in l;
      IndexMetaAt(l[1..], c, rest);
      assert (l + [c] + rest)[1..] == l[1..] + [c] + rest;
    }
  }

  lemma {:induction false} NoIndexMeta(l: string)
    requires PlainText(l)
    ensures IndexMeta(l) == -1
    decreases l
  {
    if l != "" {
      assert l[0] in l && forall c :: c in l[1..] ==> c in l;
      NoIndexMeta(l[1..]);
    }
  }

  /** A star behind a directory and a slash leaves the directory as the literal one. */
  lemma StarDir(l: string, rest: string)
    requires PlainText(l)
    ensures LiteralDir(l + "/*" + rest) == l
  {
    var p := l + "/*" + rest;
    assert p == (l + "/") + ['*'] + rest;
    assert PlainText(l + "/");
    IndexMetaAt(l + "/", '*', rest);
    assert p[..|l| + 1] == l + "/";
    assert LastIndex(l + "/", '/') == |l|;
  }

  /** A glob whose literal directory is a link matches what its rest matches behind the target. */
  lemma MatchesThroughLink(classes: ClassRule, resolve: string -> Option<string>, dirs: seq<string>, l: string,
                           q: string, target: string, e: string)
    requires l != "" && l[0] == '/' && LiteralDir(l + q) == l && resolve(l) == Some(target) && target != l
    requires e in dirs && target <= e && GlobMatch(classes, q, e[|target|..])
    ensures MatchesAny(classes, resolve, dirs, l + q)
  {
    var p := l + q;
    assert p[|l|..] == q;
    EscapedPrefix(classes, target, q, e);
    assert GlobVariants(p, resolve) == [p, Escaped(target) + q];
    var j :| 0 <= j < |dirs| && dirs[j] == e;
    assert GlobMatch(classes, GlobVariants(p, resolve)[1], dirs[j]);
  }

  lemma LongDirectoryPattern(classes: ClassRule, resolve: string -> Option<string>, dirs: seq<string>, e: string)
    requires e in dirs
    ensures ClassFree(Escaped(e)) && MatchesAny(classes, resolve, dirs, Escaped(e)) && LiteralLen(Escaped(e)) == |e|
  {
    EscapedIsAllLiteral(e);
    EscapedMatchesOnlyItself(classes, e, e);
    var j :| 0 <= j < |dirs| && dirs[j] == e;
    assert GlobMatch(classes, GlobVariants(Escaped(e), resolve)[0], dirs[j]);
  }

  ghost predicate AllClassFree(remotes: Remotes)
  {
    forall n, i :: n in remotes && 0 <= i < |remotes[n].paths| ==> ClassFree(remotes[n].paths[i])
  }

  /** Some remote lists the directory itself, escaped. */
  ghost predicate Lists(remotes: Remotes, d: string)
  {
    exists n, i :: n in remotes && 0 <= i < |remotes[n].paths| && remotes[n].paths[i] == Escaped(d)
  }

  /** The route has just as many literals as d has characters. */
  ghost predicate NotOutdone(remotes: Remotes, routes: string -> bool, d: string)
  {
    forall n, i :: IsRoute(remotes, routes, n, i) ==> LiteralLen(remotes[n].paths[i]) == |d|
  }

  function Entry(paths: seq<string>): RemoteEntry
  {
    RemoteEntry("", "", false, paths)
  }

  /** Of two remotes with one glob each, the one with more literals is the route. */
  lemma MoreLiteralsWin(remotes: Remotes, routes: string -> bool, d: string, p: string)
    requires remotes.Keys == {"a", "b"} && remotes["a"].paths == [Escaped(d)] && remotes["b"].paths == [p]
    requires ClassFree(p) && routes(p) && LiteralLen(p) > |d|
    ensures AllClassFree(remotes) && Lists(remotes, d) && IsRoute(remotes, routes, "b", 0)
    ensures !NotOutdone(remotes, routes, d)
  {
    EscapedIsAllLiteral(d);
    assert remotes["a"].paths[0] == Escaped(d) && remotes["b"].paths[0] == p;
    assert IsRoute(remotes, routes, "b", 0);
  }

  lemma LongerGlobWins(classes: ClassRule, resolve: string -> Option<string>, dirs: seq<string>, d: string, p: string)
    requires ClassFree(p) && MatchesAny(classes, resolve, dirs, p) && LiteralLen(p) > |d|
    ensures var remotes := map["a" := Entry([Escaped(d)]), "b" := Entry([p])];
            && AllClassFree(remotes) && Lists(remotes, d)
            && IsRoute(remotes, Matcher(classes, resolve, dirs), "b", 0)
            && !NotOutdone(remotes, Matcher(classes, resolve, dirs), d)
  {
    var remotes := map["a" := Entry([Escaped(d)]), "b" := Entry([p])];
    MoreLiteralsWin(remotes, Matcher(classes, resolve, dirs), d, p);
  }

  // ----- When a listed directory is outdone -----

  /** A resolver whose results are clean, as those of filepath.EvalSymlinks are. */
  ghost predicate CleanResolver(resolve: string -> Option<string>)
  {
    forall l :: l != "" && l[0] == '/' && resolve(l).Some? ==> CleanDir(resolve(l).value)
  }

  /** The directory that the pattern names is resolved, and the pattern has more literals
      than the shortest clean path that it matches under the resolved one. */
  predicate Overreaches(resolve: string -> Option<string>, p: string)
  {
    var l := LiteralDir(p);
    var q := p[|l|..];
    && l != "" && l[0] == '/' && resolve(l).Some? && resolve(l).value != l
    && var target, least := resolve(l).value, Filled(Tokens(q), Proper);
       && Closed(q) && CleanTail(least, Proper) && (target == "/" ==> q == "")
       && |l| + LiteralLen(q) > |target| + |least|
  }

  /** Resolving to a path that is no shorter never overreaches. */
  lemma LongerTargetIsSafe(resolve: string -> Option<string>, p: string)
    requires ClassFree(p)
    requires var l := LiteralDir(p); l != "" && resolve(l).Some? ==> |l| <= |resolve(l).value|
    ensures !Overreaches(resolve, p)
  {
    if Overreaches(resolve, p) {
      var l, q := LiteralDir(p), p[|LiteralDir(p)|..];
      BehindLiteralDir(p);
      LiteralsAfterPlain(l, q);
      LiteralLenIsLits(q);
      FilledMatches(Tokens(q), Proper);
    }
  }

  /** A clean path below a clean directory goes on cleanly, if at all, and below the root
      not with a slash. */
  lemma BelowCleanDir(target: string, u: string)
    requires CleanDir(target) && (u == "" || u[0] == '/')
    ensures CleanDir(target + u) <==> CleanTail(u, Proper) && (target == "/" ==> u == "")
  {
    if target == "/" {
      if u == "" {
        assert target + u == "/" && CleanTail("", Proper);
      } else {
        var e := target + u;
        assert |e| > 1 && e[0] == '/' && e[1..] == u;
        assert !CleanTail(u, Fresh);
      }
    } else {
      CleanTailConcat(target, u, Proper);
      assert (target + u)[0] == '/';
    }
  }

  /** What overreaches matches, under the resolved directory, a clean path with fewer
      characters than it has literals. */
  lemma OverreachingMatch(classes: ClassRule, resolve: string -> Option<string>, p: string) returns (e: string)
    requires ClassFree(p) && CleanResolver(resolve) && Overreaches(resolve, p)
    ensures CleanDir(e) && MatchesAny(classes, resolve, [e], p) && LiteralLen(p) > |e|
  {
    var l, q := LiteralDir(p), p[|LiteralDir(p)|..];
    var target, least := resolve(l).value, Filled(Tokens(q), Proper);
    BehindLiteralDir(p);
    LiteralsAfterPlain(l, q);
    FilledMatches(Tokens(q), Proper);
    GlobIsTokens(classes, q, least);
    e := target + least;
    assert e[|target|..] == least;
    MatchesThroughLink(classes, resolve, [e], l, q, target, e);
    assert q == "" || q[0] == '/';
    BelowCleanDir(target, least);
  }

  lemma TwinOverreaches(classes: ClassRule, resolve: string -> Option<string>, p: string, e: string)
    requires ClassFree(p) && CleanResolver(resolve) && CleanDir(e) && LiteralLen(p) > |e|
    requires |GlobVariants(p, resolve)| == 2 && GlobMatch(classes, GlobVariants(p, resolve)[1], e)
    ensures Overreaches(resolve, p)
  {
    var l, q := LiteralDir(p), p[|LiteralDir(p)|..];
    var target := resolve(l).value;
    BehindLiteralDir(p);
    LiteralsAfterPlain(l, q);
    EscapedPrefix(classes, target, q, e);
    var u := e[|target|..];
    GlobIsTokens(classes, q, u);
    assert e == target + u;
    assert q == "" || q[0] == '/';
    BelowCleanDir(target, u);
    FilledIsLeast(Tokens(q), u, Proper);
  }

  /** A class-free glob matches some clean path that has fewer characters than the glob has
      literals exactly when it overreaches. */
  lemma OverreachesExactlyWhen(classes: ClassRule, resolve: string -> Option<string>, p: string)
    requires ClassFree(p) && CleanResolver(resolve)
    ensures (exists e :: CleanDir(e) && MatchesAny(classes, resolve, [e], p) && LiteralLen(p) > |e|) <==>
              Overreaches(resolve, p)
  {
    if e :| CleanDir(e) && MatchesAny(classes, resolve, [e], p) && LiteralLen(p) > |e| {
      MatchOverreaches(classes, resolve, [e], e, p);
    }
    if Overreaches(resolve, p) {
      var e := OverreachingMatch(classes, resolve, p);
    }
  }

  /** The clean directories of a path, none of them longer than d, which is one of them. */
  ghost predicate LongestOf(dirs: seq<string>, d: string)
  {
    d in dirs && forall e :: e in dirs ==> CleanDir(e) && |e| <= |d|
  }

  lemma MatchOverreaches(classes: ClassRule, resolve: string -> Option<string>, dirs: seq<string>, d: string, p: string)
    requires ClassFree(p) && CleanResolver(resolve) && LongestOf(dirs, d)
    requires MatchesAny(classes, resolve, dirs, p) && LiteralLen(p) > |d|
    ensures Overreaches(resolve, p)
  {
    var variants := GlobVariants(p, resolve);
    var i, j :| 0 <= i < |variants| && 0 <= j < |dirs| && GlobMatch(classes, variants[i], dirs[j]);
    assert dirs[j] in dirs;
    if i == 0 {
      LiteralsAtMostMatched(classes, p, dirs[j]);
    } else {
      TwinOverreaches(classes, resolve, p, dirs[j]);
    }
  }

  ghost predicate NoneOverreaches(remotes: Remotes, resolve: string -> Option<string>)
  {
    forall n, i :: n in remotes && 0 <= i < |remotes[n].paths| ==> !Overreaches(resolve, remotes[n].paths[i])
  }

  /** When no configured glob overreaches, a listed directory is not outdone. */
  lemma ListedIsNotOutdone(classes: ClassRule, resolve: string -> Option<string>, dirs: seq<string>, d: string,
                           remotes: Remotes)
    requires AllClassFree(remotes) && CleanResolver(resolve) && LongestOf(dirs, d) && Lists(remotes, d)
    requires forall n, i :: n in remotes && 0 <= i < |remotes[n].paths| && remotes[n].paths[i] != Escaped(d) ==>
               !Overreaches(resolve, remotes[n].paths[i])
    ensures NotOutdone(remotes, Matcher(classes, resolve, dirs), d)
  {
    var routes := Matcher(classes, resolve, dirs);
    var m, j :| m in remotes && 0 <= j < |remotes[m].paths| && remotes[m].paths[j] == Escaped(d);
    LongDirectoryPattern(classes, resolve, dirs, d);
    assert Routes(remotes, routes, m, j);
    forall n, i | IsRoute(remotes, routes, n, i) ensures LiteralLen(remotes[n].paths[i]) == |d| {
      if LiteralLen(remotes[n].paths[i]) > |d| {
        MatchOverreaches(classes, resolve, dirs, d, remotes[n].paths[i]);
      }
    }
  }

  /** The remotes with one more, which lists d. */
  function Listing(remotes: Remotes, z: string, d: string): Remotes
  {
    remotes[z := Entry([Escaped(d)])]
  }

  /** However a path's directories lie, and whichever of them z lists. */
  ghost predicate NeverOutdone(classes: ClassRule, resolve: string -> Option<string>, remotes: Remotes, z: string)
  {
    forall dirs, d :: LongestOf(dirs, d) ==> NotOutdone(Listing(remotes, z, d), Matcher(classes, resolve, dirs), d)
  }

  lemma ListingKeeps(remotes: Remotes, z: string, d: string)
    requires AllClassFree(remotes) && z !in remotes
    ensures AllClassFree(Listing(remotes, z, d)) && Lists(Listing(remotes, z, d), d)
  {
    var more := Listing(remotes, z, d);
    EscapedIsAllLiteral(d);
    assert more[z].paths[0] == Escaped(d);
    assert forall n :: n in remotes ==> more[n] == remotes[n];
  }

  lemma OneOverreachOutdoes(classes: ClassRule, resolve: string -> Option<string>, remotes: Remotes, z: string,
                            n: string, i: int)
    requires AllClassFree(remotes) && CleanResolver(resolve) && z !in remotes
    requires n in remotes && 0 <= i < |remotes[n].paths| && Overreaches(resolve, remotes[n].paths[i])
    ensures !NeverOutdone(classes, resolve, remotes, z)
  {
    var d := OverreachingMatch(classes, resolve, remotes[n].paths[i]);
    var more, routes := Listing(remotes, z, d), Matcher(classes, resolve, [d]);
    assert more[n] == remotes[n];
    assert Routes(more, routes, n, i);
    var m, j := RouteExists(more, routes, n, i);
    assert !NotOutdone(more, routes, d);
    assert LongestOf([d], d);
  }

  /** A remote that lists a path's longest directory by its own name is never outdone by the
      configured class-free globs, whatever the path, if and only if none of them overreaches. */
  lemma NeverOutdoneExactlyWhen(classes: ClassRule, resolve: string -> Option<string>, remotes: Remotes, z: string)
    requires AllClassFree(remotes) && CleanResolver(resolve) && z !in remotes
    ensures NeverOutdone(classes, resolve, remotes, z) <==> NoneOverreaches(remotes, resolve)
  {
    if NoneOverreaches(remotes, resolve) {
      forall dirs, d | LongestOf(dirs, d)
        ensures NotOutdone(Listing(remotes, z, d), Matcher(classes, resolve, dirs), d)
      {
        ListingKeeps(remotes, z, d);
        ListedIsNotOutdone(classes, resolve, dirs, d, Listing(remotes, z, d));
      }
    } else {
      var n, i :| n in remotes && 0 <= i < |remotes[n].paths| && Overreaches(resolve, remotes[n].paths[i]);
      OneOverreachOutdoes(classes, resolve, remotes, z, n, i);
    }
  }

  // ----- Inputs -----

  /** Another spelling of a directory's name, without any link, outdoes the name. */
  lemma DottedNameOutdoes(classes: ClassRule, resolve: string -> Option<string>, dirs: seq<string>, d: string)
    requires CleanDir(d) && d != "/" && d[|d| - 1] != '/' && PlainText(d) && d in dirs
    requires resolve("/." + d) == Some(d)
    ensures var remotes := map["a" := Entry([Escaped(d)]), "b" := Entry(["/." + d])];
            && IsRoute(remotes, Matcher(classes, resolve, dirs), "b", 0)
            && !NotOutdone(remotes, Matcher(classes, resolve, dirs), d)
  {
    var l := "/." + d;
    assert PlainText(l);
    NoIndexMeta(l);
    assert l + "" == l && LiteralDir(l) == l;
    LiteralsAfterPlain(l, "");
    assert d[|d|..] == "";
    MatchesThroughLink(classes, resolve, dirs, l, "", d, d);
    LongerGlobWins(classes, resolve, dirs, d, l);
  }

  lemma DottedDirectory(classes: ClassRule, resolve: string -> Option<string>)
    requires resolve("/./d/p") == Some("/d/p")
    ensures var remotes := map["a" := Entry([Escaped("/d/p")]), "b" := Entry(["/./d/p"])];
            IsRoute(remotes, Matcher(classes, resolve, ["/d/p"]), "b", 0)
  {
    assert "/." + "/d/p" == "/./d/p";
    DottedNameOutdoes(classes, resolve, ["/d/p"], "/d/p");
  }

  lemma {:induction false} StarMatches(classes: ClassRule, w: string)
    requires '/' !in w
    ensures GlobMatch(classes, "*", w) && LiteralLen("*") == 0 && ClassFree("*")
    decreases w
  {
    assert "*"[1..] == "";
    if w != "" {
      assert w[0] in w && forall c :: c in w[1..] ==> c in w;
      StarMatches(classes, w[1..]);
    }
  }

  /** A star behind a link matches whatever stands directly in the linked directory. */
  lemma WildcardThroughLink(classes: ClassRule, resolve: string -> Option<string>, dirs: seq<string>, l: string,
                            target: string, w: string)
    requires l != "" && l[0] == '/' && PlainText(l) && resolve(l) == Some(target) && target != l
    requires '/' !in w && target + "/" + w in dirs
    ensures var p := l + "/*"; ClassFree(p) && MatchesAny(classes, resolve, dirs, p) && LiteralLen(p) == |l| + 1
  {
    var e := target + "/" + w;
    StarDir(l, "");
    assert l + "/*" + "" == l + "/*" && "/*"[1..] == "*";
    StarMatches(classes, w);
    LiteralsAfterPlain(l, "/*");
    assert e[|target|..] == "/" + w && ("/" + w)[1..] == w;
    assert GlobMatch(classes, "/*", "/" + w);
    MatchesThroughLink(classes, resolve, dirs, l, "/*", target, e);
  }

  /** A wildcard through the link /lnk to /d routes /d/p away from the remote that lists
      it by name: the wildcard has five literals, the name four. */
  lemma ListedDirectoryOutdone(classes: ClassRule, resolve: string -> Option<string>)
    requires resolve("/lnk") == Some("/d")
    ensures var remotes := map["a" := Entry([Escaped("/d/p")]), "b" := Entry(["/lnk/*"])];
            IsRoute(remotes, Matcher(classes, resolve, ["/d/p"]), "b", 0)
  {
    assert "/d" + "/" + "p" == "/d/p" && "/lnk" + "/*" == "/lnk/*";
    WildcardThroughLink(classes, resolve, ["/d/p"], "/lnk", "/d", "p");
    LongerGlobWins(classes, resolve, ["/d/p"], "/d/p", "/lnk/*");
  }
}
