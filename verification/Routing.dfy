/** Routing a project path to a remote (pkg/config/config.go): the most specific
    matching glob wins, then the first default remote. */
module Routing {
  import opened Collections
  import opened StringOrder
  import opened Text

  // ----- Globs -----

  /** path.Match's metacharacters, the escape included. */
  predicate IsMeta(c: char)
  {
    c == '*' || c == '?' || c == '[' || c == '\\'
  }

  /** The meaning of a pattern that begins with a [...] class is a parameter. */
  type ClassRule = (string, string) -> bool

  /** The pattern language of Go's path.Match, bytewise; a malformed pattern matches nothing. */
  predicate GlobMatch(classes: ClassRule, p: string, s: string)
    decreases |p| + |s|
  {
    if p == "" then s == ""
    else match p[0]
      case '*' => GlobMatch(classes, p[1..], s) || (s != "" && s[0] != '/' && GlobMatch(classes, p, s[1..]))
      case '?' => s != "" && s[0] != '/' && GlobMatch(classes, p[1..], s[1..])
      case '[' => classes(p, s)
      case '\\' => |p| > 1 && s != "" && s[0] == p[1] && GlobMatch(classes, p[2..], s[1..])
      case c => s != "" && s[0] == c && GlobMatch(classes, p[1..], s[1..])
  }

  /** No [...] class: every '[' is escaped. */
  predicate ClassFree(p: string)
  {
    if p == "" then true
    else if p[0] == '[' then false
    else if p[0] == '\\' && |p| > 1 then ClassFree(p[2..])
    else ClassFree(p[1..])
  }

  function AfterClass(p: string): (r: string)
    ensures |r| <= |p| && (p != "" ==> |r| < |p|)
  {
    if p == "" then "" else if p[0] == ']' then p[1..] else AfterClass(p[1..])
  }

  /** The number of literal characters of a pattern. */
  function LiteralLen(p: string): nat
    decreases |p|
  {
    if p == "" then 0
    else match p[0]
      case '*' => LiteralLen(p[1..])
      case '?' => LiteralLen(p[1..])
      case '[' => LiteralLen(AfterClass(p))
      case '\\' => 1 + if |p| > 1 then LiteralLen(p[2..]) else 0
      case _ => 1 + LiteralLen(p[1..])
  }

  method SkipClass(pattern: string, start: nat) returns (i: nat)
    requires start < |pattern|
    ensures start <= i <= |pattern|
    ensures AfterClass(pattern[start..]) == if i < |pattern| then pattern[i + 1..] else ""
  {
    i := start;
    while i < |pattern| && pattern[i] != ']'
      invariant start <= i <= |pattern|
      invariant AfterClass(pattern[start..]) == AfterClass(pattern[i..])
    {
      assert pattern[i..][1..] == pattern[i + 1..];
      i := i + 1;
    }
    if i < |pattern| { assert pattern[i..][1..] == pattern[i + 1..]; }
  }

  method GlobLiteralLen(pattern: string) returns (n: nat)
    ensures n == LiteralLen(pattern)
  {
    n := 0;
    var i := 0;
    assert pattern[0..] == pattern;
    while i < |pattern|
      invariant 0 <= i
      invariant n + (if i < |pattern| then LiteralLen(pattern[i..]) else 0) == LiteralLen(pattern)
    {
      ghost var rest := pattern[i..];
      assert rest[1..] == pattern[i + 1..];
      assert i + 2 <= |pattern| ==> rest[2..] == pattern[i + 2..];
      match pattern[i] {
        case '*' =>
        case '?' =>
        case '[' => i := SkipClass(pattern, i);
        case '\\' =>
          i := i + 1;
          n := n + 1;
        case _ => n := n + 1;
      }
      i := i + 1;
    }
  }

  function Quoted(c: char): string
  {
    if IsMeta(c) then ['\\', c] else [c]
  }

  /** s with every metacharacter quoted. */
  function Escaped(s: string): string
  {
    if s == "" then "" else Quoted(s[0]) + Escaped(s[1..])
  }

  lemma {:induction false} EscapedSnoc(s: string, c: char)
    ensures Escaped(s + [c]) == Escaped(s) + Quoted(c)
  {
    if s == "" {
      assert s + [c] == [c];
      assert Escaped([c]) == Quoted(c) + Escaped("");
    } else {
      EscapedSnoc(s[1..], c);
      assert (s + [c])[1..] == s[1..] + [c];
      Regroup(Quoted(s[0]), Escaped(s[1..]), Quoted(c));
    }
  }

  method GlobEscape(s: string) returns (r: string)
    ensures r == Escaped(s)
  {
    r := "";
    for i := 0 to |s|
      invariant r == Escaped(s[..i])
    {
      assert s[..i + 1] == s[..i] + [s[i]];
      EscapedSnoc(s[..i], s[i]);
      Regroup(r, "\\", [s[i]]);
      if IsMeta(s[i]) {
        r := r + "\\";
      }
      r := r + [s[i]];
    }
    assert s[..|s|] == s;
  }

  // ----- What escaping means -----

  lemma QuotedMatches(classes: ClassRule, c: char, p: string, t: string)
    ensures GlobMatch(classes, Quoted(c) + p, t) <==> t != "" && t[0] == c && GlobMatch(classes, p, t[1..])
  {
    var q := Quoted(c) + p;
    assert q[|Quoted(c)|..] == p;
  }

  lemma {:induction false} EscapedPrefix(classes: ClassRule, r: string, q: string, t: string)
    ensures GlobMatch(classes, Escaped(r) + q, t) <==> r <= t && GlobMatch(classes, q, t[|r|..])
  {
    if r == "" {
      assert Escaped(r) + q == q && t[0..] == t;
    } else {
      Regroup(Quoted(r[0]), Escaped(r[1..]), q);
      QuotedMatches(classes, r[0], Escaped(r[1..]) + q, t);
      if t != "" {
        EscapedPrefix(classes, r[1..], q, t[1..]);
        PrefixOfRest(r, t);
      }
    }
  }

  lemma PrefixOfRest(r: string, t: string)
    requires r != "" && t != ""
    ensures r <= t <==> r[0] == t[0] && r[1..] <= t[1..]
    ensures r <= t ==> t[1..][|r| - 1..] == t[|r|..]
  {
    assert r == [r[0]] + r[1..] && t == [t[0]] + t[1..];
  }

  /** A path written without metacharacters stands for itself. */
  lemma {:induction false} PlainIsEscaped(d: string)
    requires forall c :: c in d ==> !IsMeta(c)
    ensures Escaped(d) == d
  {
    if d != "" {
      assert d[0] in d;
      PlainIsEscaped(d[1..]);
    }
  }

  /** An escaped string matches itself and nothing else. */
  lemma EscapedMatchesOnlyItself(classes: ClassRule, s: string, t: string)
    ensures GlobMatch(classes, Escaped(s), t) <==> t == s
  {
    EscapedPrefix(classes, s, "", t);
    assert Escaped(s) + "" == Escaped(s);
    if s <= t { assert t == s + t[|s|..]; }
  }

  // ----- What the literal count means -----

  /** A class-free pattern has no more literals than what it matches has characters. */
  lemma {:induction false} LiteralsAtMostMatched(classes: ClassRule, p: string, t: string)
    requires ClassFree(p) && GlobMatch(classes, p, t)
    ensures LiteralLen(p) <= |t|
    decreases |p| + |t|
  {
    if p != "" {
      if p[0] == '*' {
        if GlobMatch(classes, p[1..], t) {
          LiteralsAtMostMatched(classes, p[1..], t);
        } else {
          LiteralsAtMostMatched(classes, p, t[1..]);
        }
      } else if p[0] == '\\' {
        LiteralsAtMostMatched(classes, p[2..], t[1..]);
      } else {
        LiteralsAtMostMatched(classes, p[1..], t[1..]);
      }
    }
  }

  /** An escaped string is class-free and reaches that bound. */
  lemma {:induction false} EscapedIsAllLiteral(s: string)
    ensures ClassFree(Escaped(s)) && LiteralLen(Escaped(s)) == |s|
  {
    if s != "" {
      EscapedIsAllLiteral(s[1..]);
      var p := Escaped(s);
      var head := if IsMeta(s[0]) then 2 else 1;
      assert p[head..] == Escaped(s[1..]);
    }
  }

  // ----- A glob and its variant behind a symlink -----

  /** The index of the first metacharacter, or -1. */
  function IndexMeta(p: string): (i: int)
    ensures -1 <= i < |p|
    ensures forall c :: c in (if i < 0 then p else p[..i]) ==> !IsMeta(c)
  {
    if p == "" then -1
    else if IsMeta(p[0]) then 0
    else
      var i := IndexMeta(p[1..]);
      if i < 0 then -1
      else
        assert p[..i + 1] == [p[0]] + p[1..][..i];
        i + 1
  }

  /** The directory a pattern names before its first metacharacter, without a closing slash. */
  function LiteralDir(pattern: string): (dir: string)
    ensures dir <= pattern && forall c :: c in dir ==> !IsMeta(c)
  {
    var i := IndexMeta(pattern);
    var dir := if i < 0 then pattern else pattern[..LastIndex(pattern[..i], '/') + 1];
    assert i >= 0 ==> forall c :: c in dir ==> c in pattern[..i];
    if dir != "" && dir[|dir| - 1] == '/' then dir[..|dir| - 1] else dir
  }

  /** The pattern, and its twin under the directory that resolve leads to. */
  function GlobVariants(pattern: string, resolve: string -> Option<string>): seq<string>
  {
    var dir := LiteralDir(pattern);
    if dir == "" || dir[0] != '/' then [pattern]
    else match resolve(dir)
      case None => [pattern]
      case Some(target) => if target == dir then [pattern] else [pattern, Escaped(target) + pattern[|dir|..]]
  }

  /** The twin matches a path behind the link exactly when the pattern matches the
      same path before it, whatever characters the resolved directory contains. */
  lemma VariantFollowsLink(classes: ClassRule, pattern: string, resolve: string -> Option<string>, u: string)
    requires |GlobVariants(pattern, resolve)| == 2
    ensures var dir := LiteralDir(pattern);
            && resolve(dir).Some?
            && (GlobMatch(classes, GlobVariants(pattern, resolve)[1], resolve(dir).value + u)
                <==> GlobMatch(classes, pattern, dir + u))
  {
    var dir := LiteralDir(pattern);
    var target := resolve(dir).value;
    var q := pattern[|dir|..];
    PlainIsEscaped(dir);
    assert pattern == Escaped(dir) + q;
    EscapedPrefix(classes, dir, q, dir + u);
    EscapedPrefix(classes, target, q, target + u);
    assert (dir + u)[|dir|..] == u && (target + u)[|target|..] == u;
  }

  /** The pattern or its twin matches one of the directories. */
  predicate MatchesAny(classes: ClassRule, resolve: string -> Option<string>, dirs: seq<string>, pattern: string)
  {
    exists i, j :: 0 <= i < |GlobVariants(pattern, resolve)| && 0 <= j < |dirs|
                   && GlobMatch(classes, GlobVariants(pattern, resolve)[i], dirs[j])
  }

  method GlobMatchAny(classes: ClassRule, resolve: string -> Option<string>, dirs: seq<string>, pattern: string)
    returns (matched: bool)
    ensures matched == MatchesAny(classes, resolve, dirs, pattern)
  {
    var variants := GlobVariants(pattern, resolve);
    for i := 0 to |variants|
      invariant forall h, j :: 0 <= h < i && 0 <= j < |dirs| ==> !GlobMatch(classes, variants[h], dirs[j])
    {
      for j := 0 to |dirs|
        invariant forall k :: 0 <= k < j ==> !GlobMatch(classes, variants[i], dirs[k])
      {
        if GlobMatch(classes, variants[i], dirs[j]) {
          return true;
        }
      }
    }
    return false;
  }

  ghost function Matcher(classes: ClassRule, resolve: string -> Option<string>, dirs: seq<string>): string -> bool
  {
    p => MatchesAny(classes, resolve, dirs, p)
  }

  // ----- Remotes -----

  datatype RemoteEntry = RemoteEntry(name: string, serverUrl: string, isDefault: bool, paths: seq<string>)

  type Remotes = map<string, RemoteEntry>

  ghost predicate Sorted(names: seq<string>)
  {
    SortedBy((s: string) => s, names)
  }

  /** The configured remotes by name, whatever order the map is walked in. */
  method RemoteNames(remotes: Remotes) returns (names: seq<string>)
    ensures Sorted(names) && forall n :: n in names <==> n in remotes
  {
    names := [];
    var left := remotes.Keys;
    while left != {}
      invariant left <= remotes.Keys
      invariant forall n :: n in names <==> n in remotes.Keys - left
      invariant Distinct(names)
      decreases |left|
    {
      var name :| name in left;
      DistinctSnoc(names, name);
      names := names + [name];
      left := left - {name};
    }
    names := SortBy((s: string) => s, names);
  }

  method DefaultRemoteNames(remotes: Remotes) returns (names: seq<string>)
    ensures Sorted(names) && forall n :: n in names <==> n in remotes && remotes[n].isDefault
  {
    var all := RemoteNames(remotes);
    names := [];
    for i := 0 to |all|
      invariant forall n :: n in names <==> n in all[..i] && remotes[n].isDefault
      invariant Sorted(names)
    {
      assert all[..i + 1] == all[..i] + [all[i]];
      if remotes[all[i]].isDefault {
        forall j | 0 <= j < |names| ensures Below(names[j], all[i]) {
          assert names[j] in all[..i];
        }
        names := names + [all[i]];
      }
    }
    assert all[..|all|] == all;
  }

  /** The first default by name, or none. */
  ghost predicate IsDefaultRemote(remotes: Remotes, r: Option<RemoteEntry>)
  {
    match r
    case None => forall n :: n in remotes ==> !remotes[n].isDefault
    case Some(e) =>
      && e.name in remotes && remotes[e.name].isDefault && e == remotes[e.name].(name := e.name)
      && forall n :: n in remotes && remotes[n].isDefault && n != e.name ==> Below(e.name, n)
  }

  method DefaultRemote(remotes: Remotes) returns (r: Option<RemoteEntry>)
    ensures IsDefaultRemote(remotes, r)
    ensures r.Some? ==> forall n :: n in remotes && remotes[n].isDefault && n != r.value.name ==> Below(r.value.name, n)
  {
    var names := DefaultRemoteNames(remotes);
    if |names| == 0 {
      return None;
    }
    assert names[0] in names;
    return Some(remotes[names[0]].(name := names[0]));
  }

  // ----- The route -----

  /** Pattern i of remote n routes the path. */
  ghost predicate Routes(remotes: Remotes, routes: string -> bool, n: string, i: int)
  {
    n in remotes && 0 <= i < |remotes[n].paths| && routes(remotes[n].paths[i])
  }

  /** More literals, then the smaller name, then the earlier place in the list. */
  ghost predicate Beats(remotes: Remotes, n: string, i: int, m: string, j: int)
    requires n in remotes && 0 <= i < |remotes[n].paths| && m in remotes && 0 <= j < |remotes[m].paths|
  {
    var a, b := LiteralLen(remotes[n].paths[i]), LiteralLen(remotes[m].paths[j]);
    a > b || (a == b && (Below(n, m) || (n == m && i < j)))
  }

  ghost predicate IsRoute(remotes: Remotes, routes: string -> bool, n: string, i: int)
  {
    && Routes(remotes, routes, n, i)
    && forall m, j :: Routes(remotes, routes, m, j) && (m, j) != (n, i) ==> Beats(remotes, n, i, m, j)
  }

  /** There is at most one route: map order cannot show in the result. */
  lemma RouteIsUnique(remotes: Remotes, routes: string -> bool, n: string, i: int, m: string, j: int)
    requires IsRoute(remotes, routes, n, i) && IsRoute(remotes, routes, m, j)
    ensures n == m && i == j
  {
    if (n, i) != (m, j) {
      if Below(n, m) { BelowAsymmetric(n, m); }
      BelowIrreflexive(n);
    }
  }

  /** (m, j) comes before (names[k], i) in the order the loops visit the patterns. */
  ghost predicate Visited(names: seq<string>, k: int, i: int, m: string, j: int)
    requires 0 <= k <= |names|
  {
    m in names[..k] || (k < |names| && m == names[k] && j < i)
  }

  /** The best pattern among those visited, if any routes the path. */
  ghost predicate BestSoFar(remotes: Remotes, routes: string -> bool, names: seq<string>, k: int, i: int,
                            found: bool, bn: string, bi: int)
    requires 0 <= k <= |names|
  {
    && (found ==> Routes(remotes, routes, bn, bi) && Visited(names, k, i, bn, bi))
    && (forall m, j :: Routes(remotes, routes, m, j) && Visited(names, k, i, m, j) ==>
          found && ((m, j) == (bn, bi) || Beats(remotes, bn, bi, m, j)))
  }

  lemma NextPattern(remotes: Remotes, routes: string -> bool, names: seq<string>, k: int, i: int, found: bool,
                    bn: string, bi: int)
    requires Sorted(names) && (forall n :: n in names <==> n in remotes)
    requires 0 <= k < |names| && 0 <= i < |remotes[names[k]].paths|
    requires BestSoFar(remotes, routes, names, k, i, found, bn, bi)
    ensures var p := remotes[names[k]].paths[i];
            var better := (!found || LiteralLen(p) > LiteralLen(remotes[bn].paths[bi])) && routes(p);
            BestSoFar(remotes, routes, names, k, i + 1, found || better,
                      if better then names[k] else bn, if better then i else bi)
  {
    var n := names[k];
    if found && bn != n {
      assert bn in names[..k];
      var h :| 0 <= h < k && names[h] == bn;
      assert Below(bn, n);
    }
  }

  lemma NextRemote(remotes: Remotes, routes: string -> bool, names: seq<string>, k: int, found: bool, bn: string,
                   bi: int)
    requires (forall n :: n in names <==> n in remotes) && 0 <= k < |names|
    requires BestSoFar(remotes, routes, names, k, |remotes[names[k]].paths|, found, bn, bi)
    ensures BestSoFar(remotes, routes, names, k + 1, 0, found, bn, bi)
  {
    assert names[..k + 1] == names[..k] + [names[k]];
    forall m, j | Routes(remotes, routes, m, j) && Visited(names, k + 1, 0, m, j)
      ensures found && ((m, j) == (bn, bi) || Beats(remotes, bn, bi, m, j))
    {
      assert Visited(names, k, |remotes[names[k]].paths|, m, j);
    }
  }

  /** The loop's variables record pattern bi of remote bn. */
  ghost predicate Records(remotes: Remotes, best: Option<RemoteEntry>, bestPattern: string, bestScore: int,
                          bn: string, bi: int)
  {
    if best.None? then bestScore == -1
    else
      && bn in remotes && 0 <= bi < |remotes[bn].paths|
      && best.value == remotes[bn].(name := bn) && bestPattern == remotes[bn].paths[bi]
      && bestScore == LiteralLen(bestPattern)
  }

  /** The remote that a path with these directories routes to, with the glob that routed it. */
  method ResolveRemoteWithPattern(remotes: Remotes, classes: ClassRule, resolve: string -> Option<string>,
                                  dirs: seq<string>)
    returns (r: Option<RemoteEntry>, pattern: string)
    ensures var routes := Matcher(classes, resolve, dirs);
            && (forall n, i :: IsRoute(remotes, routes, n, i) ==>
                  r == Some(remotes[n].(name := n)) && pattern == remotes[n].paths[i])
            && ((exists n, i :: IsRoute(remotes, routes, n, i)) || (pattern == "" && IsDefaultRemote(remotes, r)))
            && ((exists n, i :: Routes(remotes, routes, n, i)) ==> exists n, i :: IsRoute(remotes, routes, n, i))
  {
    var names := RemoteNames(remotes);
    var best: Option<RemoteEntry>, bestPattern: string, bestScore: int := None, "", -1;
    ghost var bn, bi := "", 0;
    ghost var routes := Matcher(classes, resolve, dirs);
    for k := 0 to |names|
      invariant BestSoFar(remotes, routes, names, k, 0, best.Some?, bn, bi)
      invariant Records(remotes, best, bestPattern, bestScore, bn, bi)
    {
      var entry := remotes[names[k]];
      for i := 0 to |entry.paths|
        invariant BestSoFar(remotes, routes, names, k, i, best.Some?, bn, bi)
        invariant Records(remotes, best, bestPattern, bestScore, bn, bi)
      {
        NextPattern(remotes, routes, names, k, i, best.Some?, bn, bi);
        var pattern := entry.paths[i];
        var score := GlobLiteralLen(pattern);
        if score > bestScore {
          var matched := GlobMatchAny(classes, resolve, dirs, pattern);
          if matched {
            best, bestPattern, bestScore := Some(entry.(name := names[k])), pattern, score;
            bn, bi := names[k], i;
          }
        }
      }
      NextRemote(remotes, routes, names, k, best.Some?, bn, bi);
    }
    AllVisited(remotes, routes, names, best.Some?, bn, bi);
    if best.Some? {
      forall n, i | IsRoute(remotes, routes, n, i) ensures n == bn && i == bi {
        RouteIsUnique(remotes, routes, n, i, bn, bi);
      }
      return best, bestPattern;
    }
    r := DefaultRemote(remotes);
    pattern := "";
  }

  lemma AllVisited(remotes: Remotes, routes: string -> bool, names: seq<string>, found: bool, bn: string, bi: int)
    requires forall n :: n in names <==> n in remotes
    requires BestSoFar(remotes, routes, names, |names|, 0, found, bn, bi)
    ensures found ==> IsRoute(remotes, routes, bn, bi)
    ensures !found ==> forall n, i :: !Routes(remotes, routes, n, i)
  {
    assert names[..|names|] == names;
    forall n, i | Routes(remotes, routes, n, i) ensures Visited(names, |names|, 0, n, i) {}
  }

  // ----- Some pattern is the route -----

  /** The loops' walk over the patterns from one on ends with the route, if there is one. */
  lemma {:induction false} BestFrom(remotes: Remotes, routes: string -> bool, names: seq<string>, k: nat, i: nat,
                                    found: bool, bn: string, bi: int)
    requires Sorted(names) && (forall n :: n in names <==> n in remotes)
    requires k <= |names| && (if k < |names| then i <= |remotes[names[k]].paths| else i == 0)
    requires BestSoFar(remotes, routes, names, k, i, found, bn, bi)
    ensures (exists n, j :: IsRoute(remotes, routes, n, j)) || forall n, j :: !Routes(remotes, routes, n, j)
    decreases |names| - k, if k < |names| then |remotes[names[k]].paths| - i else 0
  {
    if k == |names| {
      AllVisited(remotes, routes, names, found, bn, bi);
    } else if i < |remotes[names[k]].paths| {
      NextPattern(remotes, routes, names, k, i, found, bn, bi);
      var p := remotes[names[k]].paths[i];
      var better := (!found || LiteralLen(p) > LiteralLen(remotes[bn].paths[bi])) && routes(p);
      BestFrom(remotes, routes, names, k, i + 1, found || better,
               if better then names[k] else bn, if better then i else bi);
    } else {
      NextRemote(remotes, routes, names, k, found, bn, bi);
      BestFrom(remotes, routes, names, k + 1, 0, found, bn, bi);
    }
  }

  lemma {:induction false} ListNames(keys: set<string>) returns (names: seq<string>)
    ensures Distinct(names) && forall n :: n in names <==> n in keys
  {
    if keys == {} {
      names := [];
    } else {
      var n :| n in keys;
      var rest := ListNames(keys - {n});
      DistinctSnoc(rest, n);
      names := rest + [n];
    }
  }

  lemma RouteExists(remotes: Remotes, routes: string -> bool, n: string, i: int) returns (m: string, j: int)
    requires Routes(remotes, routes, n, i)
    ensures IsRoute(remotes, routes, m, j)
  {
    var names := ListNames(remotes.Keys);
    names := SortBy((s: string) => s, names);
    assert names[..0] == [];
    BestFrom(remotes, routes, names, 0, 0, false, "", 0);
    m, j :| IsRoute(remotes, routes, m, j);
  }
}
