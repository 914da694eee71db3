/** Quoting for a shell (pkg/context/sandbox.go, cmd/anchored/self_update.go), against
    the quoting and token rules of the POSIX Shell Command Language, sections 2.2.1
    (backslash), 2.2.2 (single quotes) and 2.3 (token recognition). */
module ShellQuoting {
  import opened Collections
  import opened Text

  // ----- The shell -----

  /** Between words, inside one, or inside single quotes within one. */
  datatype State = Between | InWord(word: string) | Quoted(word: string)

  /** What section 2.2 has quoted if it is to stand for itself. */
  predicate Special(c: char)
  {
    || c == '|' || c == '&' || c == ';' || c == '<' || c == '>' || c == '(' || c == ')'
    || c == '$' || c == '`' || c == '\\' || c == '"' || c == '\'' || c == ' ' || c == '\t' || c == '\n'
  }

  /** What section 2.2 has quoted in some places only: these begin comments and home
      directories, or match the names of files. */
  predicate Dependent(c: char)
  {
    c == '*' || c == '?' || c == '[' || c == '#' || c == '~'
  }

  /** Characters that stand for themselves outside quotes wherever they are in an argument. */
  predicate Plain(c: char)
  {
    !Special(c) && !Dependent(c) && c != '\0'
  }

  predicate NoneSpecial(s: string)
  {
    forall c :: c in s ==> !Special(c)
  }

  predicate NoneDependent(s: string)
  {
    forall c :: c in s ==> !Dependent(c)
  }

  predicate AllPlain(s: string)
  {
    forall c :: c in s ==> Plain(c)
  }

  function SoFar(st: State): string
  {
    if st.Between? then "" else st.word
  }

  function Before(words: seq<string>, r: Option<seq<string>>): Option<seq<string>>
  {
    if r.Some? then Some(words + r.value) else None
  }

  /** The words of a simple command; None when the text is more than a list of words
      (an operator, an expansion, an open quote), when a character's meaning depends on
      its place or on the files there are, or when the text holds a NUL. */
  function Words(st: State, s: string): Option<seq<string>>
    decreases |s|
  {
    if s == "" then
      match st
      case Between => Some([])
      case InWord(w) => Some([w])
      case Quoted(_) => None
    else if s[0] == '\0' then None
    else if st.Quoted? then Words(if s[0] == '\'' then InWord(st.word) else Quoted(st.word + [s[0]]), s[1..])
    else if s[0] == ' ' || s[0] == '\t' then Before(if st.Between? then [] else [st.word], Words(Between, s[1..]))
    else if s[0] == '\'' then Words(Quoted(SoFar(st)), s[1..])
    else if s[0] == '\\' then
      if |s| == 1 || s[1] == '\0' then None
      else if s[1] == '\n' then Words(st, s[2..])
      else Words(InWord(SoFar(st) + [s[1]]), s[2..])
    else if Plain(s[0]) then Words(InWord(SoFar(st) + [s[0]]), s[1..])
    else None
  }

  // ----- The program -----

  /** strings.ReplaceAll(s, "'", `'\''`) */
  function EscapeQuotes(s: string): string
  {
    if s == "" then "" else (if s[0] == '\'' then "'\\''" else [s[0]]) + EscapeQuotes(s[1..])
  }

  function ShellQuote(s: string): string
  {
    "'" + EscapeQuotes(s) + "'"
  }

  function SudoHint(binPath: string, flags: seq<string>): string
  {
    Join(["sudo", ShellQuote(binPath), "self-update"] + flags, " ")
  }

  function OverrideCommand(flags: seq<string>): string
  {
    "anchored self-update " + Join(flags, " ")
  }

  /** The arguments that the flags are meant to be, unquoted. */
  function IntendedFlags(force: bool, assumeYes: bool, noPlugin: bool, configPath: string,
                         target: string): seq<string>
  {
    var flags := With(With(With([], force, ["--force"]), assumeYes, ["--yes"]), noPlugin, ["--no-plugin"]);
    With(With(flags, configPath != "", ["--config", configPath]), target != "", ["--version", target])
  }

  function With(flags: seq<string>, given: bool, more: seq<string>): seq<string>
  {
    if given then flags + more else flags
  }

  // ----- Reading what was quoted -----

  /** Inside quotes, an escaped text adds itself to the word and closes it. */
  lemma {:induction false} EscapedReads(w: string, s: string, rest: string)
    requires '\0' !in s
    ensures Words(Quoted(w), EscapeQuotes(s) + ("'" + rest)) == Words(InWord(w + s), rest)
    decreases s
  {
    if s == "" {
      assert EscapeQuotes(s) + ("'" + rest) == "'" + rest;
      assert ("'" + rest)[1..] == rest && w + s == w;
    } else {
      assert s[0] in s && forall c :: c in s[1..] ==> c in s;
      var tail := EscapeQuotes(s[1..]) + ("'" + rest);
      EscapedReads(w + [s[0]], s[1..], rest);
      assert w + [s[0]] + s[1..] == w + s;
      HeadReads(w, s[0], tail);
      Regroup(if s[0] == '\'' then "'\\''" else [s[0]], EscapeQuotes(s[1..]), "'" + rest);
    }
  }

  lemma HeadReads(w: string, c: char, tail: string)
    requires c != '\0'
    ensures Words(Quoted(w), (if c == '\'' then "'\\''" else [c]) + tail) == Words(Quoted(w + [c]), tail)
  {
    if c == '\'' {
      var s := "'\\''" + tail;
      assert s[1..] == "\\''" + tail && s[1..][2..] == "'" + tail && s[1..][2..][1..] == tail;
      assert Words(Quoted(w), s) == Words(InWord(w), s[1..]);
      assert Words(InWord(w), s[1..]) == Words(InWord(w + [c]), s[1..][2..]);
    } else {
      assert ([c] + tail)[1..] == tail;
    }
  }

  lemma QuoteReads(st: State, s: string, rest: string)
    requires '\0' !in s && !st.Quoted?
    ensures Words(st, ShellQuote(s) + rest) == Words(InWord(SoFar(st) + s), rest)
  {
    var all := ShellQuote(s) + rest;
    assert all[1..] == EscapeQuotes(s) + ("'" + rest);
    EscapedReads(SoFar(st), s, rest);
  }

  lemma {:induction false} PlainReads(w: string, s: string, rest: string)
    requires AllPlain(s)
    ensures Words(InWord(w), s + rest) == Words(InWord(w + s), rest)
    decreases s
  {
    if s == "" {
      assert s + rest == rest && w + s == w;
    } else {
      assert s[0] in s && forall c :: c in s[1..] ==> c in s;
      PlainReads(w + [s[0]], s[1..], rest);
      assert (s + rest)[1..] == s[1..] + rest;
      assert w + [s[0]] + s[1..] == w + s;
    }
  }

  /** r is how the program writes the argument m: quoted, or as it is. */
  ghost predicate Writes(r: string, m: string)
  {
    r == ShellQuote(m) || (r == m && m != "" && AllPlain(m))
  }

  lemma PlainWordReads(m: string, rest: string)
    requires m != "" && AllPlain(m)
    ensures Words(Between, m + rest) == Words(InWord(m), rest)
  {
    var c, tail := m[0], m[1..];
    assert c in m && forall d :: d in tail ==> d in m;
    var s := m + rest;
    assert s[0] == c && s[1..] == tail + rest;
    assert "" + [c] == [c];
    assert Words(Between, s) == Words(InWord([c]), s[1..]);
    PlainReads([c], tail, rest);
    assert [c] + tail == m;
  }

  lemma WrittenReads(r: string, m: string, rest: string)
    requires Writes(r, m) && '\0' !in m
    ensures Words(Between, r + rest) == Words(InWord(m), rest)
  {
    if r == ShellQuote(m) {
      QuoteReads(Between, m, rest);
      assert "" + m == m;
    } else {
      PlainWordReads(m, rest);
    }
  }

  ghost predicate AllWritten(rs: seq<string>, ms: seq<string>)
  {
    |rs| == |ms| && forall i :: 0 <= i < |rs| ==> Writes(rs[i], ms[i])
  }

  ghost predicate NoNul(ms: seq<string>)
  {
    forall i :: 0 <= i < |ms| ==> '\0' !in ms[i]
  }

  /** A written argument and a blank behind it are read as one word. */
  lemma WrittenThenBlank(r: string, m: string, tail: string)
    requires Writes(r, m) && '\0' !in m
    ensures Words(Between, r + (" " + tail)) == Before([m], Words(Between, tail))
  {
    WrittenReads(r, m, " " + tail);
    assert (" " + tail)[0] == ' ' && (" " + tail)[1..] == tail;
    assert Words(InWord(m), " " + tail) == Before([m], Words(Between, tail));
  }

  lemma BeforeTwice(m: string, ms: seq<string>, words: Option<seq<string>>)
    ensures Before([m], Before(ms, words)) == Before([m] + ms, words)
  {
    if words.Some? { Regroup([m], ms, words.value); }
  }

  lemma JoinBlank(rs: seq<string>, rest: string)
    requires |rs| > 1
    ensures Join(rs, " ") + (" " + rest) == rs[0] + (" " + (Join(rs[1..], " ") + (" " + rest)))
  {
    var others := Join(rs[1..], " ");
    assert Join(rs, " ") == rs[0] + " " + others;
    Regroup(rs[0] + " ", others, " " + rest);
    Regroup(rs[0], " ", others + (" " + rest));
  }

  /** Written arguments joined by blanks are read as those arguments. */
  lemma {:induction false} JoinReads(rs: seq<string>, ms: seq<string>, rest: string)
    requires AllWritten(rs, ms) && NoNul(ms) && rs != []
    ensures Words(Between, Join(rs, " ") + (" " + rest)) == Before(ms, Words(Between, rest))
  {
    if |rs| == 1 {
      WrittenThenBlank(rs[0], ms[0], rest);
      assert Join(rs, " ") == rs[0] && ms == [ms[0]];
    } else {
      var tail := Join(rs[1..], " ") + (" " + rest);
      JoinReads(rs[1..], ms[1..], rest);
      WrittenThenBlank(rs[0], ms[0], tail);
      JoinBlank(rs, rest);
      assert ms == [ms[0]] + ms[1..];
      BeforeTwice(ms[0], ms[1..], Words(Between, rest));
    }
  }

  /** A NUL is refused wherever it stands. */
  lemma {:induction false} NulRefused(st: State, s: string)
    requires '\0' in s
    ensures Words(st, s) == None
    decreases |s|
  {
    if s[0] != '\0' {
      assert s == [s[0]] + s[1..] && '\0' in s[1..];
      if !st.Quoted? && s[0] == '\\' {
        if |s| > 1 && s[1] != '\0' {
          assert s[1..] == [s[1]] + s[2..];
          NulRefused(if s[1] == '\n' then st else InWord(SoFar(st) + [s[1]]), s[2..]);
        }
      } else if st.Quoted? {
        NulRefused(if s[0] == '\'' then InWord(st.word) else Quoted(st.word + [s[0]]), s[1..]);
      } else if s[0] == '\'' {
        NulRefused(Quoted(SoFar(st)), s[1..]);
      } else {
        NulRefused(Between, s[1..]);
        NulRefused(InWord(SoFar(st) + [s[0]]), s[1..]);
      }
    }
  }

  lemma {:induction false} EscapeKeepsNul(s: string)
    ensures '\0' in EscapeQuotes(s) <==> '\0' in s
  {
    if s != "" {
      EscapeKeepsNul(s[1..]);
      assert s == [s[0]] + s[1..];
    }
  }

  /** A quoted string is one word, the string itself, for every string a shell can hold. */
  lemma QuoteIsOneWord(s: string)
    ensures Words(Between, ShellQuote(s)) == Some([s]) <==> '\0' !in s
  {
    if '\0' in s {
      EscapeKeepsNul(s);
      NulRefused(Between, ShellQuote(s));
    } else {
      QuoteReads(Between, s, "");
      assert ShellQuote(s) + "" == ShellQuote(s) && "" + s == s;
    }
  }

  // ----- A word that is not quoted -----

  function Size(words: seq<string>): nat
  {
    if words == [] then 0 else |words[0]| + Size(words[1..])
  }

  /** The words hold no more characters than the text, and only plain text keeps all. */
  lemma {:induction false} OnlyPlainKeepsAll(st: State, s: string)
    requires Words(st, s).Some?
    ensures var n := Size(Words(st, s).value);
            n <= |SoFar(st)| + |s| && (n == |SoFar(st)| + |s| ==> !st.Quoted? && AllPlain(s))
    decreases |s|
  {
    if s == "" {
      assert st.InWord? ==> Words(st, s).value == [st.word];
    } else if st.Quoted? {
      OnlyPlainKeepsAll(if s[0] == '\'' then InWord(st.word) else Quoted(st.word + [s[0]]), s[1..]);
    } else if s[0] == ' ' || s[0] == '\t' {
      OnlyPlainKeepsAll(Between, s[1..]);
      var rest := Words(Between, s[1..]).value;
      assert [] + rest == rest;
      assert st.InWord? ==> Words(st, s).value[1..] == rest;
    } else if s[0] == '\'' {
      OnlyPlainKeepsAll(Quoted(SoFar(st)), s[1..]);
    } else if s[0] == '\\' {
      OnlyPlainKeepsAll(if s[1] == '\n' then st else InWord(SoFar(st) + [s[1]]), s[2..]);
    } else {
      OnlyPlainKeepsAll(InWord(SoFar(st) + [s[0]]), s[1..]);
      assert s == [s[0]] + s[1..];
    }
  }

  lemma BareReads(t: string)
    ensures Words(Between, t) == Some([t]) <==> t != "" && AllPlain(t)
  {
    assert Size([t]) == |t|;
    if t != "" && AllPlain(t) {
      WrittenReads(t, t, "");
      assert t + "" == t;
    } else if Words(Between, t) == Some([t]) {
      OnlyPlainKeepsAll(Between, t);
    }
  }

  /** Leaving aside characters whose meaning depends on their place, an unquoted text
      is the one word it looks like exactly when nothing in it is special. */
  lemma BareIsOneWord(t: string)
    requires NoneDependent(t)
    ensures Words(Between, t) == Some([t]) <==> t != "" && NoneSpecial(t) && '\0' !in t
  {
    BareReads(t);
    PlainExactlyWhen(t);
  }

  lemma PlainExactlyWhen(t: string)
    ensures AllPlain(t) <==> NoneSpecial(t) && NoneDependent(t) && '\0' !in t
  {
    if AllPlain(t) {
      forall c | c in t ensures !Special(c) && !Dependent(c) && c != '\0' { assert Plain(c); }
    }
  }

  // ----- The command offered to the user -----

  /** out writes the intended arguments, save the last one when that is the bare target. */
  ghost predicate Rendered(out: seq<string>, intended: seq<string>, target: string)
  {
    if target == "" then AllWritten(out, intended)
    else
      && |out| == |intended| > 0 && out[|out| - 1] == target == intended[|out| - 1]
      && AllWritten(out[..|out| - 1], intended[..|out| - 1])
  }

  lemma WrittenAppend(rs: seq<string>, ms: seq<string>, given: bool, r: seq<string>, m: seq<string>)
    requires AllWritten(rs, ms) && AllWritten(r, m)
    ensures AllWritten(With(rs, given, r), With(ms, given, m))
  {
  }

  lemma WrittenPair(s: string, r: string, m: string)
    requires AllWritten([s], [s]) && Writes(r, m)
    ensures AllWritten([s, r], [s, m])
  {
    assert [s][0] == s;
  }

  /** Letters, digits, '-' and '.', all that the program writes without quotes. */
  predicate Tame(c: char)
  {
    'a' <= c <= 'z' || 'A' <= c <= 'Z' || '0' <= c <= '9' || c == '-' || c == '.'
  }

  predicate AllTame(s: string)
  {
    forall c :: c in s ==> Tame(c)
  }

  lemma TameCharIsPlain(c: char)
    requires Tame(c)
    ensures Plain(c)
  {
  }

  lemma TameIsPlain(s: string)
    requires AllTame(s)
    ensures AllPlain(s)
  {
    forall c | c in s ensures Plain(c) { TameCharIsPlain(c); }
  }

  lemma LiteralsAreTame()
    ensures AllTame("--force") && AllTame("--yes") && AllTame("--no-plugin") && AllTame("--config")
    ensures AllTame("--version") && AllTame("anchored") && AllTame("self-update") && AllTame("sudo")
  {
  }

  /** The words that the program writes as they are. */
  lemma LiteralWords()
    ensures AllPlain("--force") && AllPlain("--yes") && AllPlain("--no-plugin") && AllPlain("--config")
    ensures AllPlain("--version") && AllPlain("anchored") && AllPlain("self-update") && AllPlain("sudo")
  {
    LiteralsAreTame();
    TameIsPlain("--force");
    TameIsPlain("--yes");
    TameIsPlain("--no-plugin");
    TameIsPlain("--config");
    TameIsPlain("--version");
    TameIsPlain("anchored");
    TameIsPlain("self-update");
    TameIsPlain("sudo");
  }

  lemma PlainWritten(s: string)
    requires s != "" && AllPlain(s)
    ensures AllWritten([s], [s]) && NoNul([s])
  {
    PlainHasNoNul(s);
  }

  lemma TargetLast(rs: seq<string>, ms: seq<string>, target: string)
    requires AllWritten(rs, ms)
    ensures Rendered(With(rs, target != "", ["--version", target]),
                     With(ms, target != "", ["--version", target]), target)
  {
    if target != "" {
      var out, intended := rs + ["--version", target], ms + ["--version", target];
      LiteralWords();
      PlainWritten("--version");
      assert out[..|out| - 1] == rs + ["--version"] && intended[..|out| - 1] == ms + ["--version"];
      WrittenAppend(rs, ms, true, ["--version"], ["--version"]);
    }
  }

  /** One of the source's conditional appends. */
  method AppendIf(out: seq<string>, given: bool, more: seq<string>, ghost meant: seq<string>, ghost m: seq<string>)
    returns (r: seq<string>)
    requires AllWritten(out, meant) && AllWritten(more, m)
    ensures r == With(out, given, more) && AllWritten(r, With(meant, given, m))
  {
    WrittenAppend(out, meant, given, more, m);
    r := out;
    if given {
      r := r + more;
    }
  }

  method SelfUpdateFlags(force: bool, assumeYes: bool, noPlugin: bool, configPath: string, target: string)
    returns (out: seq<string>)
    ensures Rendered(out, IntendedFlags(force, assumeYes, noPlugin, configPath, target), target)
  {
    out := [];
    ghost var meant: seq<string> := [];
    LiteralWords();
    PlainWritten("--force");
    PlainWritten("--yes");
    PlainWritten("--no-plugin");
    PlainWritten("--config");
    WrittenPair("--config", ShellQuote(configPath), configPath);
    out := AppendIf(out, force, ["--force"], meant, ["--force"]);
    meant := With(meant, force, ["--force"]);
    out := AppendIf(out, assumeYes, ["--yes"], meant, ["--yes"]);
    meant := With(meant, assumeYes, ["--yes"]);
    out := AppendIf(out, noPlugin, ["--no-plugin"], meant, ["--no-plugin"]);
    meant := With(meant, noPlugin, ["--no-plugin"]);
    out := AppendIf(out, configPath != "", ["--config", ShellQuote(configPath)], meant, ["--config", configPath]);
    meant := With(meant, configPath != "", ["--config", configPath]);
    TargetLast(out, meant, target);
    if target != "" {
      out := out + ["--version", target];
    }
  }

  /** What follows written arguments is read by itself. */
  lemma JoinThen(rs: seq<string>, ms: seq<string>, r: string)
    requires AllWritten(rs, ms) && NoNul(ms) && rs != []
    ensures Words(Between, Join(rs + [r], " ")) == Before(ms, Words(Between, r))
  {
    JoinSnoc(rs, r, " ");
    Regroup(Join(rs, " "), " ", r);
    JoinReads(rs, ms, r);
  }

  lemma BeforeOne(words: seq<string>, r: Option<seq<string>>, m: string)
    ensures Before(words, r) == Some(words + [m]) <==> r == Some([m])
  {
    if r.Some? { assert (words + r.value)[|words|..] == r.value && (words + [m])[|words|..] == [m]; }
  }

  lemma {:induction false} NulStays(parts: seq<string>, i: nat)
    requires i < |parts| && '\0' in parts[i]
    ensures '\0' in Join(parts, " ")
  {
    if i > 0 { NulStays(parts[1..], i - 1); }
  }

  lemma NulInWritten(rs: seq<string>, ms: seq<string>, i: nat)
    requires i < |rs| == |ms| && Writes(rs[i], ms[i]) && '\0' in ms[i]
    ensures Words(Between, Join(rs, " ")) == None
  {
    EscapeKeepsNul(ms[i]);
    NulStays(rs, i);
    NulRefused(Between, Join(rs, " "));
  }

  /** A list whose last element may be bare is read as what it is meant to be exactly
      when a bare element is plain and nothing holds a NUL. */
  lemma ListReads(rs: seq<string>, ms: seq<string>, r: string, m: string, bare: bool)
    requires AllWritten(rs, ms) && rs != [] && if bare then r == m else Writes(r, m)
    ensures Words(Between, Join(rs + [r], " ")) == Some(ms + [m])
            <==> NoNul(ms) && if bare then m != "" && AllPlain(m) else '\0' !in m
  {
    if i :| 0 <= i < |ms| && '\0' in ms[i] {
      NulInWritten(rs + [r], ms + [m], i);
    } else {
      JoinThen(rs, ms, r);
      BeforeOne(ms, Words(Between, r), m);
      if bare {
        BareReads(m);
      } else if r == ShellQuote(m) {
        QuoteIsOneWord(m);
      } else {
        BareReads(m);
        PlainHasNoNul(m);
      }
    }
  }

  lemma PlainHasNoNul(s: string)
    requires AllPlain(s)
    ensures '\0' !in s
  {
    assert !Plain('\0');
  }

  /** Command words before rendered flags are read as those words and the flags,
      exactly when the target is plain and no argument holds a NUL. */
  lemma CommandReads(heads: seq<string>, meant: seq<string>, out: seq<string>, intended: seq<string>, target: string)
    requires |heads| > 1 && AllWritten(heads, meant) && Rendered(out, intended, target)
    ensures Words(Between, Join(heads + out, " ")) == Some(meant + intended)
            <==> NoNul(meant) && NoNul(intended) && AllPlain(target)
  {
    var all, want := heads + out, meant + intended;
    var last := |all| - 1;
    FrontWritten(heads, meant, out, intended, target);
    FrontAndLast(all);
    FrontAndLast(want);
    ListReads(all[..last], want[..last], all[last], want[last], target != "");
    NoNulAppend(meant, intended);
    NoNulAppend(want[..last], [want[last]]);
    NoNulOne(want[last]);
    if AllPlain(target) { PlainHasNoNul(target); }
  }

  lemma FrontAndLast(s: seq<string>)
    requires s != []
    ensures s == s[..|s| - 1] + [s[|s| - 1]]
  {
  }

  lemma NoNulOne(m: string)
    ensures NoNul([m]) <==> '\0' !in m
  {
    assert [m][0] == m;
  }

  lemma NoNulAppend(a: seq<string>, b: seq<string>)
    ensures NoNul(a + b) <==> NoNul(a) && NoNul(b)
  {
    if NoNul(a + b) {
      assert forall i :: 0 <= i < |a| ==> a[i] == (a + b)[i];
      assert forall i :: 0 <= i < |b| ==> b[i] == (a + b)[|a| + i];
    }
  }

  lemma FrontWritten(heads: seq<string>, meant: seq<string>, out: seq<string>, intended: seq<string>, target: string)
    requires heads != [] && AllWritten(heads, meant) && Rendered(out, intended, target)
    ensures var all, want, last := heads + out, meant + intended, |heads + out| - 1;
            && |all| == |want| && AllWritten(all[..last], want[..last])
            && (if target == "" then Writes(all[last], want[last]) else all[last] == want[last] == target)
  {
    var last := |heads + out| - 1;
    if target != "" {
      assert (heads + out)[..last] == heads + out[..|out| - 1];
      assert (meant + intended)[..last] == meant + intended[..|out| - 1];
      WrittenAppend(heads, meant, true, out[..|out| - 1], intended[..|out| - 1]);
    } else {
      WrittenAppend(heads, meant, true, out, intended);
    }
  }

  lemma SudoHeads(binPath: string)
    ensures AllWritten(["sudo", ShellQuote(binPath), "self-update"], ["sudo", binPath, "self-update"])
    ensures NoNul(["sudo", binPath, "self-update"]) <==> '\0' !in binPath
  {
    LiteralWords();
    PlainWritten("sudo");
    PlainWritten("self-update");
    WrittenPair("sudo", ShellQuote(binPath), binPath);
    WrittenAppend(["sudo", ShellQuote(binPath)], ["sudo", binPath], true, ["self-update"], ["self-update"]);
    assert ["sudo", ShellQuote(binPath), "self-update"] == ["sudo", ShellQuote(binPath)] + ["self-update"];
    assert ["sudo", binPath, "self-update"] == ["sudo", binPath] + ["self-update"];
    assert ["sudo", binPath] == ["sudo"] + [binPath];
    NoNulAppend(["sudo", binPath], ["self-update"]);
    NoNulAppend(["sudo"], [binPath]);
    NoNulOne(binPath);
  }

  lemma TargetPlainExactlyWhen(out: seq<string>, intended: seq<string>, target: string)
    requires Rendered(out, intended, target) && NoneDependent(target) && NoNul(intended)
    ensures AllPlain(target) <==> NoneSpecial(target)
  {
    PlainExactlyWhen(target);
  }

  /** The sudo hint is read by a shell as exactly the intended command if and only if
      nothing in the version is special and no argument holds a NUL. */
  lemma HintIsTheCommand(binPath: string, out: seq<string>, intended: seq<string>, target: string)
    requires Rendered(out, intended, target) && NoneDependent(target)
    ensures Words(Between, SudoHint(binPath, out)) == Some(["sudo", binPath, "self-update"] + intended)
            <==> '\0' !in binPath && NoNul(intended) && NoneSpecial(target)
  {
    SudoHeads(binPath);
    CommandReads(["sudo", ShellQuote(binPath), "self-update"], ["sudo", binPath, "self-update"], out, intended, target);
    if NoNul(intended) { TargetPlainExactlyWhen(out, intended, target); }
  }

  lemma OverrideHeads()
    ensures AllWritten(["anchored", "self-update"], ["anchored", "self-update"]) && NoNul(["anchored", "self-update"])
  {
    LiteralWords();
    PlainWritten("anchored");
    PlainWritten("self-update");
    WrittenAppend(["anchored"], ["anchored"], true, ["self-update"], ["self-update"]);
    assert ["anchored", "self-update"] == ["anchored"] + ["self-update"];
    NoNulAppend(["anchored"], ["self-update"]);
  }

  /** So is the override command. */
  lemma OverrideIsTheCommand(out: seq<string>, intended: seq<string>, target: string)
    requires Rendered(out, intended, target) && NoneDependent(target) && out != []
    ensures Words(Between, OverrideCommand(out)) == Some(["anchored", "self-update"] + intended)
            <==> NoNul(intended) && NoneSpecial(target)
  {
    OverrideHeads();
    CommandReads(["anchored", "self-update"], ["anchored", "self-update"], out, intended, target);
    JoinTwoHeads(out);
    if NoNul(intended) { TargetPlainExactlyWhen(out, intended, target); }
  }

  lemma JoinTwoHeads(out: seq<string>)
    requires out != []
    ensures Join(["anchored", "self-update"] + out, " ") == OverrideCommand(out)
  {
    var all := ["anchored", "self-update"] + out;
    assert all[1..] == ["self-update"] + out && all[1..][1..] == out;
    assert Join(all[1..], " ") == "self-update" + " " + Join(out, " ");
  }

  // ----- The shape check on version tags -----

  predicate Digits(s: string)
  {
    s != "" && forall c :: c in s ==> '0' <= c <= '9'
  }

  predicate PreRelease(s: string)
  {
    && |s| > 1 && s[0] == '-'
    && forall c :: c in s[1..] ==> '0' <= c <= '9' || 'a' <= c <= 'z' || 'A' <= c <= 'Z' || c == '.'
  }

  /** ^v?\d+\.\d+\.\d+(-[0-9A-Za-z.]+)?$ */
  ghost predicate ValidVersionTag(s: string)
  {
    exists v, major, minor, patch, pre ::
      && (v == "" || v == "v") && Digits(major) && Digits(minor) && Digits(patch) && (pre == "" || PreRelease(pre))
      && s == v + major + "." + minor + "." + patch + pre
  }

  lemma AllTameConcat(a: string, b: string)
    requires AllTame(a) && AllTame(b)
    ensures AllTame(a + b)
  {
  }

  lemma DigitsAreTame(s: string)
    requires Digits(s)
    ensures AllTame(s)
  {
  }

  lemma DotIsTame()
    ensures AllTame(".") && AllTame("v") && AllTame("")
  {
  }

  lemma PreReleaseIsTame(s: string)
    requires PreRelease(s)
    ensures AllTame(s)
  {
    assert s == [s[0]] + s[1..];
  }

  /** A tag that passed the check needs no quotes, so every hint printed for one is
      read as the intended command. */
  lemma CheckedTagIsPlain(target: string)
    requires ValidVersionTag(target)
    ensures target != "" && NoneSpecial(target) && NoneDependent(target)
    ensures Words(Between, target) == Some([target])
  {
    var v, major, minor, patch, pre :|
      && (v == "" || v == "v") && Digits(major) && Digits(minor) && Digits(patch) && (pre == "" || PreRelease(pre))
      && target == v + major + "." + minor + "." + patch + pre;
    DigitsAreTame(major);
    DigitsAreTame(minor);
    DigitsAreTame(patch);
    DotIsTame();
    AllTameConcat(v, major);
    AllTameConcat(v + major, ".");
    AllTameConcat(v + major + ".", minor);
    AllTameConcat(v + major + "." + minor, ".");
    AllTameConcat(v + major + "." + minor + ".", patch);
    if pre != "" { PreReleaseIsTame(pre); }
    AllTameConcat(v + major + "." + minor + "." + patch, pre);
    TameIsPlain(target);
    PlainExactlyWhen(target);
    BareReads(target);
  }
}
