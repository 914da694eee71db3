/** Flags anywhere in an argument list (cmd/anchored/helpers.go): the reorderer that
    moves flags before positionals, against the parser of Go's flag package, which
    stops at the first positional. */
module FlagArgs {
  import opened Collections
  import opened Text

  /** The registered flags, each with whether it is a bool flag. */
  type Formals = map<string, bool>

  predicate Dashed(a: string)
  {
    a != "" && a[0] == '-'
  }

  function TrimDashes(a: string): string
  {
    if Dashed(a) then TrimDashes(a[1..]) else a
  }

  // ----- The reorderer -----

  /** A valued flag, written without '=', whose next argument is its value. */
  predicate TakesNext(formals: Formals, args: seq<string>)
    requires args != []
  {
    && Dashed(args[0]) && '=' !in args[0]
    && TrimDashes(args[0]) in formals && !formals[TrimDashes(args[0])]
    && |args| > 1 && !Dashed(args[1])
  }

  /** What the dashed argument at the head of args becomes. */
  function Emitted(formals: Formals, args: seq<string>): seq<string>
    requires args != []
  {
    var a := args[0];
    if '=' in a || TrimDashes(a) !in formals || formals[TrimDashes(a)] then [a]
    else if TakesNext(formals, args) then [a, args[1]]
    else [a + "="]
  }

  function Behind(formals: Formals, args: seq<string>): seq<string>
    requires args != []
  {
    if TakesNext(formals, args) then args[2..] else args[1..]
  }

  function FlagPart(formals: Formals, args: seq<string>): seq<string>
  {
    if args == [] then []
    else if !Dashed(args[0]) then FlagPart(formals, args[1..])
    else Emitted(formals, args) + FlagPart(formals, Behind(formals, args))
  }

  function Positionals(formals: Formals, args: seq<string>): seq<string>
  {
    if args == [] then []
    else if !Dashed(args[0]) then [args[0]] + Positionals(formals, args[1..])
    else Positionals(formals, Behind(formals, args))
  }

  function Reordered(formals: Formals, args: seq<string>): seq<string>
  {
    FlagPart(formals, args) + Positionals(formals, args)
  }

  lemma FlagStep(formals: Formals, args: seq<string>, flags: seq<string>)
    requires args != []
    ensures (flags + if Dashed(args[0]) then Emitted(formals, args) else []) + FlagPart(formals, Behind(formals, args))
            == flags + FlagPart(formals, args)
  {
    if Dashed(args[0]) { Regroup(flags, Emitted(formals, args), FlagPart(formals, Behind(formals, args))); }
  }

  lemma PositionalStep(formals: Formals, args: seq<string>, positional: seq<string>)
    requires args != []
    ensures (positional + if Dashed(args[0]) then [] else [args[0]]) + Positionals(formals, Behind(formals, args))
            == positional + Positionals(formals, args)
  {
    var rest := Positionals(formals, Behind(formals, args));
    if Dashed(args[0]) {
      assert Positionals(formals, args) == rest;
      assert positional + [] == positional;
    } else {
      assert Behind(formals, args) == args[1..] && Positionals(formals, args) == [args[0]] + rest;
      Regroup(positional, [args[0]], rest);
    }
  }

  /** One dashed argument: what it becomes, and the index of the next to look at. */
  method MoveFlag(formals: Formals, args: seq<string>, start: nat) returns (emitted: seq<string>, i: nat)
    requires start < |args| && Dashed(args[start])
    ensures start < i <= |args| && args[i..] == Behind(formals, args[start..])
    ensures emitted == Emitted(formals, args[start..])
  {
    i := start;
    ghost var rest := args[i..];
    var a := args[i];
    assert rest[0] == a && (i + 1 < |args| ==> rest[1] == args[i + 1] && rest[2..] == args[i + 2..]);
    if '=' in a {
      emitted := [a];
    } else {
      var name := TrimDashes(a);
      if name !in formals {
        emitted := [a];
      } else if formals[name] {
        emitted := [a];
      } else if i + 1 < |args| && !Dashed(args[i + 1]) {
        emitted := [a, args[i + 1]];
        i := i + 1;
      } else {
        emitted := [a + "="];
      }
    }
    i := i + 1;
  }

  method ReorderArgsForFlag(formals: Formals, args: seq<string>) returns (r: seq<string>)
    ensures r == Reordered(formals, args)
  {
    var flagArgs: seq<string>, positional: seq<string> := [], [];
    var i := 0;
    assert args[0..] == args;
    while i < |args|
      invariant 0 <= i <= |args|
      invariant flagArgs + FlagPart(formals, args[i..]) == FlagPart(formals, args)
      invariant positional + Positionals(formals, args[i..]) == Positionals(formals, args)
    {
      FlagStep(formals, args[i..], flagArgs);
      PositionalStep(formals, args[i..], positional);
      if !Dashed(args[i]) {
        assert args[i..][1..] == args[i + 1..] && flagArgs + [] == flagArgs;
        positional := positional + [args[i]];
        i := i + 1;
        continue;
      }
      assert positional + [] == positional;
      var emitted;
      emitted, i := MoveFlag(formals, args, i);
      flagArgs := flagArgs + emitted;
    }
    return flagArgs + positional;
  }

  // ----- Go's parser -----

  datatype FlagError =
    BadSyntax | NotDefined(name: string) | Invalid(name: string, value: string) | NeedsArgument(name: string)

  type Setting = (string, string)

  /** The settings made, in order, then the remaining arguments or the first error. */
  datatype Parsed = Done(settings: seq<Setting>, rest: seq<string>) | Failed(settings: seq<Setting>, error: FlagError)

  datatype Token = Bad | Named(name: string, value: Option<string>)

  /** The first '=' of s, or -1. */
  function IndexEq(s: string): (i: int)
    ensures -1 <= i < |s|
    ensures if i < 0 then '=' !in s else s[i] == '=' && '=' !in s[..i]
  {
    if s == "" then -1
    else if s[0] == '=' then 0
    else
      var i := IndexEq(s[1..]);
      assert i >= 0 ==> s[..i + 1] == [s[0]] + s[1..][..i];
      if i < 0 then -1 else i + 1
  }

  /** The argument without its one or two dashes. */
  function Body(s: string): string
    requires Dashed(s)
  {
    if |s| > 1 && s[1] == '-' then s[2..] else s[1..]
  }

  /** A dashed argument other than "-" and "--" taken apart. */
  function TokenOf(s: string): Token
    requires Dashed(s)
  {
    var body := Body(s);
    if body == "" || body[0] == '-' || body[0] == '=' then Bad
    else
      var i := IndexEq(body);
      if i < 0 then Named(body, None) else Named(body[..i], Some(body[i + 1..]))
  }

  /** Whether the flag accepts the value. */
  type Accepts = (string, string) -> bool

  function Set(accepts: Accepts, name: string, value: string, next: Parsed): Parsed
  {
    if !accepts(name, value) then Failed([], Invalid(name, value))
    else match next
      case Done(s, rest) => Done([(name, value)] + s, rest)
      case Failed(s, error) => Failed([(name, value)] + s, error)
  }

  /** FlagSet.Parse of Go's standard library. */
  function Parse(formals: Formals, accepts: Accepts, args: seq<string>): Parsed
  {
    if args == [] || |args[0]| < 2 || args[0][0] != '-' then Done([], args)
    else if args[0] == "--" then Done([], args[1..])
    else match TokenOf(args[0])
      case Bad => Failed([], BadSyntax)
      case Named(name, value) =>
        if name !in formals then Failed([], NotDefined(name))
        else if formals[name] then
          Set(accepts, name, if value.Some? then value.value else "true", Parse(formals, accepts, args[1..]))
        else match value
          case Some(v) => Set(accepts, name, v, Parse(formals, accepts, args[1..]))
          case None =>
            if |args| == 1 then Failed([], NeedsArgument(name))
            else Set(accepts, name, args[1], Parse(formals, accepts, args[2..]))
  }

  // ----- The meaning wanted: flags are read wherever they stand -----

  /** Flags scanned anywhere: a valued flag takes the next argument unless that looks
      like a flag, and is empty otherwise; what is not dashed is positional. */
  function Scan(formals: Formals, accepts: Accepts, args: seq<string>): Parsed
  {
    if args == [] then Done([], [])
    else if !Dashed(args[0]) then
      match Scan(formals, accepts, args[1..])
      case Done(s, rest) => Done(s, [args[0]] + rest)
      case Failed(s, error) => Failed(s, error)
    else if |args[0]| < 2 then Failed([], BadSyntax)
    else match TokenOf(args[0])
      case Bad => Failed([], BadSyntax)
      case Named(name, value) =>
        if name !in formals then Failed([], NotDefined(name))
        else if value.Some? then Set(accepts, name, value.value, Scan(formals, accepts, args[1..]))
        else if formals[name] then Set(accepts, name, "true", Scan(formals, accepts, args[1..]))
        else if |args| > 1 && !Dashed(args[1]) then Set(accepts, name, args[1], Scan(formals, accepts, args[2..]))
        else Set(accepts, name, "", Scan(formals, accepts, args[1..]))
  }

  predicate Bare(a: string)
  {
    a == "-" || a == "--"
  }

  predicate NoneBare(args: seq<string>)
  {
    forall a :: a in args ==> !Bare(a)
  }

  predicate NoneDashed(args: seq<string>)
  {
    forall a :: a in args ==> !Dashed(a)
  }

  lemma TrimmedBody(a: string)
    requires Dashed(a) && !TokenOf(a).Bad?
    ensures TrimDashes(a) == Body(a)
  {
    assert TrimDashes(a[1..]) == Body(a);
  }

  lemma BodyAppend(a: string, b: string)
    requires Dashed(a) && !Bare(a)
    ensures Body(a + b) == Body(a) + b
    ensures forall c :: c in Body(a) ==> c in a
  {
  }

  /** The name the reorderer looks up is the name the parser reads. */
  lemma SameName(a: string)
    requires Dashed(a) && !Bare(a) && '=' !in a
    ensures TokenOf(a).Bad? || TokenOf(a) == Named(TrimDashes(a), None)
    ensures TokenOf(a + "=") == if TokenOf(a).Bad? then Bad else Named(TrimDashes(a), Some(""))
  {
    BodyAppend(a, "=");
    EqAtEnd(Body(a));
    assert (Body(a) + "=")[..|Body(a)|] == Body(a) && (Body(a) + "=")[|Body(a)| + 1..] == "";
    if !TokenOf(a).Bad? { TrimmedBody(a); }
  }

  lemma {:induction false} EqAtEnd(s: string)
    requires '=' !in s
    ensures IndexEq(s + "=") == |s| && IndexEq(s) == -1
  {
    if s != "" {
      assert forall c :: c in s[1..] ==> c in s;
      assert s[0] in s;
      EqAtEnd(s[1..]);
      assert (s + "=")[1..] == s[1..] + "=";
    }
  }

  /** An argument that contains '=' carries its value there. */
  lemma ValueInside(a: string)
    requires Dashed(a) && !Bare(a) && '=' in a
    ensures TokenOf(a).Bad? || TokenOf(a).value.Some?
  {
    assert a == a[..|a| - |Body(a)|] + Body(a);
  }

  /** The value a dashed argument gives its flag. */
  function Given(formals: Formals, args: seq<string>): string
    requires args != [] && Dashed(args[0])
  {
    match TokenOf(args[0])
    case Bad => ""
    case Named(name, value) =>
      if value.Some? then value.value
      else if name in formals && formals[name] then "true"
      else if TakesNext(formals, args) then args[1] else ""
  }

  /** One dashed argument read, with the outcome of what follows. */
  function Read(formals: Formals, accepts: Accepts, token: Token, given: string, next: Parsed): Parsed
  {
    match token
    case Bad => Failed([], BadSyntax)
    case Named(name, _) => if name !in formals then Failed([], NotDefined(name)) else Set(accepts, name, given, next)
  }

  /** The parser at a dashed argument that does not take the next one as its value. */
  lemma ParseOne(formals: Formals, accepts: Accepts, a: string, p: seq<string>)
    requires Dashed(a) && !Bare(a)
    requires var token := TokenOf(a);
             token.Bad? || token.name !in formals || formals[token.name] || token.value.Some?
    ensures Parse(formals, accepts, [a] + p) ==
              Read(formals, accepts, TokenOf(a),
                   if TokenOf(a).Named? && TokenOf(a).value.Some? then TokenOf(a).value.value else "true",
                   Parse(formals, accepts, p))
  {
    var e := [a] + p;
    assert e[0] == a && e[1..] == p;
  }

  /** And at one that does. */
  lemma ParseTwo(formals: Formals, accepts: Accepts, a: string, v: string, p: seq<string>)
    requires Dashed(a) && !Bare(a)
    requires var token := TokenOf(a);
             token.Named? && token.name in formals && !formals[token.name] && token.value.None?
    ensures Parse(formals, accepts, [a, v] + p) == Set(accepts, TokenOf(a).name, v, Parse(formals, accepts, p))
  {
    var e := [a, v] + p;
    assert e[0] == a && e[1] == v && e[2..] == p;
  }

  /** The parser on what one dashed argument became, with p behind it. */
  lemma ParseEmitted(formals: Formals, accepts: Accepts, args: seq<string>, p: seq<string>)
    requires args != [] && Dashed(args[0]) && !Bare(args[0])
    ensures Parse(formals, accepts, Emitted(formals, args) + p)
            == Read(formals, accepts, TokenOf(args[0]), Given(formals, args), Parse(formals, accepts, p))
  {
    var a := args[0];
    if '=' in a {
      ValueInside(a);
      ParseOne(formals, accepts, a, p);
    } else {
      SameName(a);
      if TakesNext(formals, args) && TokenOf(a).Named? {
        ParseTwo(formals, accepts, a, args[1], p);
      } else {
        EmittedAlone(formals, accepts, args, p);
      }
    }
  }

  lemma EmittedAlone(formals: Formals, accepts: Accepts, args: seq<string>, p: seq<string>)
    requires args != [] && Dashed(args[0]) && !Bare(args[0]) && '=' !in args[0]
    requires TokenOf(args[0]).Bad? || !TakesNext(formals, args)
    ensures Parse(formals, accepts, Emitted(formals, args) + p)
            == Read(formals, accepts, TokenOf(args[0]), Given(formals, args), Parse(formals, accepts, p))
  {
    var a, name := args[0], TrimDashes(args[0]);
    SameName(a);
    if TokenOf(a).Bad? {
      BadEmitted(formals, accepts, args, p);
    } else if name !in formals || formals[name] {
      ParseOne(formals, accepts, a, p);
    } else {
      ParseOne(formals, accepts, a + "=", p);
    }
  }

  lemma BadEmitted(formals: Formals, accepts: Accepts, args: seq<string>, p: seq<string>)
    requires args != [] && Dashed(args[0]) && !Bare(args[0]) && '=' !in args[0] && TokenOf(args[0]).Bad?
    ensures Parse(formals, accepts, Emitted(formals, args) + p) == Failed([], BadSyntax)
  {
    SameName(args[0]);
    var e := Emitted(formals, args) + p;
    assert e[0] == Emitted(formals, args)[0];
    assert TokenOf(e[0]).Bad? && !Bare(e[0]);
  }

  lemma ScanDashed(formals: Formals, accepts: Accepts, args: seq<string>)
    requires args != [] && Dashed(args[0]) && !Bare(args[0])
    ensures Scan(formals, accepts, args)
            == Read(formals, accepts, TokenOf(args[0]), Given(formals, args),
                    Scan(formals, accepts, Behind(formals, args)))
  {
    if '=' in args[0] {
      ValueInside(args[0]);
    } else {
      SameName(args[0]);
    }
  }

  /** r is what the parser makes of the flags that s was scanned from, with p behind them. */
  ghost predicate Agrees(r: Parsed, s: Parsed, p: seq<string>, positional: seq<string>)
  {
    match s
    case Done(settings, rest) => r == Done(settings, p) && rest == positional
    case Failed(_, _) => r == s
  }

  lemma ReadAgrees(formals: Formals, accepts: Accepts, token: Token, given: string, r: Parsed, s: Parsed,
                   q: seq<string>, positional: seq<string>)
    requires Agrees(r, s, q, positional)
    ensures var s1 := Read(formals, accepts, token, given, s);
            Agrees(Read(formals, accepts, token, given, r), s1, q, positional)
  {
  }

  /** The parser, run on the flags of args and then on p, where it stops at once and
      leaves q, reads the flags as the scan does and leaves q. */
  lemma {:induction false} ParseFlagPart(formals: Formals, accepts: Accepts, args: seq<string>, p: seq<string>,
                                         q: seq<string>)
    requires NoneBare(args) && Parse(formals, accepts, p) == Done([], q)
    ensures Agrees(Parse(formals, accepts, FlagPart(formals, args) + p), Scan(formals, accepts, args), q,
                   Positionals(formals, args))
  {
    if args == [] {
      assert FlagPart(formals, args) + p == p;
    } else {
      var rest := Behind(formals, args);
      var tail := FlagPart(formals, rest) + p;
      assert args[0] in args && forall a :: a in rest ==> a in args;
      ParseFlagPart(formals, accepts, rest, p, q);
      if Dashed(args[0]) {
        ParseEmitted(formals, accepts, args, tail);
        ScanDashed(formals, accepts, args);
        ReadAgrees(formals, accepts, TokenOf(args[0]), Given(formals, args),
                   Parse(formals, accepts, tail), Scan(formals, accepts, rest), q, Positionals(formals, rest));
        Regroup(Emitted(formals, args), FlagPart(formals, rest), p);
      }
    }
  }

  lemma {:induction false} PositionalsAreNotDashed(formals: Formals, args: seq<string>)
    ensures NoneDashed(Positionals(formals, args))
  {
    if args != [] { PositionalsAreNotDashed(formals, Behind(formals, args)); }
  }

  /** Parsing the reordered list is scanning for flags anywhere: the same settings in
      the same order or the same first error, and all positionals in their order. */
  lemma ReorderedParsesAnywhere(formals: Formals, accepts: Accepts, args: seq<string>)
    requires NoneBare(args)
    ensures Parse(formals, accepts, Reordered(formals, args)) == Scan(formals, accepts, args)
  {
    var p := Positionals(formals, args);
    PositionalsAreNotDashed(formals, args);
    assert p != [] ==> p[0] in p;
    ParseFlagPart(formals, accepts, args, p, p);
  }

  // ----- Lists that need no reordering -----

  /** The head is a valued flag and the dashed argument behind it its value to the parser. */
  predicate TakesDashed(formals: Formals, args: seq<string>)
  {
    && |args| > 1 && Dashed(args[0]) && !Bare(args[0]) && Dashed(args[1])
    && var token := TokenOf(args[0]);
       token.Named? && token.value.None? && token.name in formals && !formals[token.name]
  }

  /** Reading on from flag to flag, the parser takes some dashed argument as a value. */
  predicate ReadsDashedValue(formals: Formals, args: seq<string>)
  {
    args != [] && Dashed(args[0]) &&
    (TakesDashed(formals, args) || ReadsDashedValue(formals, Behind(formals, args)))
  }

  /** Otherwise the reorderer leaves such a head, and what it takes, as it is. */
  lemma HeadStays(formals: Formals, args: seq<string>)
    requires args != [] && Dashed(args[0]) && !Bare(args[0]) && !TakesDashed(formals, args)
    requires var token := TokenOf(args[0]);
             && token.Named? && token.name in formals
             && (token.value.None? && !formals[token.name] ==> |args| > 1)
    ensures Emitted(formals, args) + Behind(formals, args) == args
  {
    if '=' in args[0] { ValueInside(args[0]); } else { SameName(args[0]); }
    assert args == [args[0]] + args[1..];
    assert |args| > 1 ==> args == [args[0], args[1]] + args[2..];
  }

  lemma TakesDashedIsEmpty(formals: Formals, accepts: Accepts, args: seq<string>)
    requires TakesDashed(formals, args)
    ensures Given(formals, args) == ""
    ensures Parse(formals, accepts, args) ==
              Set(accepts, TokenOf(args[0]).name, args[1], Parse(formals, accepts, args[2..]))
  {
    assert args == [args[0], args[1]] + args[2..];
    ParseTwo(formals, accepts, args[0], args[1], args[2..]);
  }

  /** The head of a list that the parser reads to its end. */
  lemma CompleteToken(formals: Formals, accepts: Accepts, args: seq<string>, settings: seq<Setting>)
    requires args != [] && args != ["--"] && Parse(formals, accepts, args) == Done(settings, [])
    ensures Dashed(args[0]) && !Bare(args[0])
    ensures var token := TokenOf(args[0]);
            && token.Named? && token.name in formals
            && (token.value.None? && !formals[token.name] ==> |args| > 1)
  {
  }

  lemma CompleteHead(formals: Formals, accepts: Accepts, args: seq<string>, settings: seq<Setting>)
    requires args != [] && args != ["--"] && Parse(formals, accepts, args) == Done(settings, [])
    ensures Dashed(args[0]) && !Bare(args[0]) && settings != []
    ensures if TakesDashed(formals, args) then Given(formals, args) == "" && settings[0].1 == args[1]
            else
              && Emitted(formals, args) + Behind(formals, args) == args
              && Parse(formals, accepts, Behind(formals, args)) == Done(settings[1..], [])
  {
    CompleteToken(formals, accepts, args, settings);
    if TakesDashed(formals, args) {
      TakesDashedIsEmpty(formals, accepts, args);
    } else {
      HeadStays(formals, args);
      ParseEmitted(formals, accepts, args, Behind(formals, args));
      ReadDone(formals, accepts, TokenOf(args[0]), Given(formals, args),
               Parse(formals, accepts, Behind(formals, args)), settings);
    }
  }

  lemma ReadDone(formals: Formals, accepts: Accepts, token: Token, given: string, next: Parsed, settings: seq<Setting>)
    requires Read(formals, accepts, token, given, next) == Done(settings, [])
    ensures settings != [] && next == Done(settings[1..], [])
  {
    if next.Done? && token.Named? {
      assert ([(token.name, given)] + next.settings)[1..] == next.settings;
    }
  }

  /** A list that is read to its end without dashed values has nothing to reorder. */
  lemma {:induction false} NothingToReorder(formals: Formals, accepts: Accepts, args: seq<string>,
                                            settings: seq<Setting>)
    requires "" !in formals && Parse(formals, accepts, args) == Done(settings, [])
    requires !ReadsDashedValue(formals, args)
    ensures FlagPart(formals, args) == args && Positionals(formals, args) == []
    decreases |args|
  {
    if args == ["--"] {
      BareHasNoName("--");
    } else if args != [] {
      CompleteHead(formals, accepts, args, settings);
      NothingToReorder(formals, accepts, Behind(formals, args), settings[1..]);
    }
  }

  /** A setting other than the first one made, or other settings behind it. */
  lemma ReadDiffers(formals: Formals, accepts: Accepts, token: Token, given: string, next: Parsed,
                    settings: seq<Setting>, q: seq<string>)
    requires settings != [] && (settings[0].1 != given || next != Done(settings[1..], q))
    ensures Read(formals, accepts, token, given, next) != Done(settings, q)
  {
    if next.Done? && token.Named? {
      assert ([(token.name, given)] + next.settings)[1..] == next.settings;
    }
  }

  /** Otherwise the flag that took the first such value is given the empty one. */
  lemma {:induction false} DashedValueIsLost(formals: Formals, accepts: Accepts, args: seq<string>,
                                             settings: seq<Setting>, p: seq<string>, q: seq<string>)
    requires Parse(formals, accepts, args) == Done(settings, []) && ReadsDashedValue(formals, args)
    ensures Parse(formals, accepts, FlagPart(formals, args) + p) != Done(settings, q)
    decreases |args|
  {
    assert args != ["--"];
    var rest := Behind(formals, args);
    var tail := FlagPart(formals, rest) + p;
    CompleteHead(formals, accepts, args, settings);
    if !TakesDashed(formals, args) { DashedValueIsLost(formals, accepts, rest, settings[1..], p, q); }
    ReadDiffers(formals, accepts, TokenOf(args[0]), Given(formals, args), Parse(formals, accepts, tail), settings, q);
    ParseEmitted(formals, accepts, args, tail);
    Regroup(Emitted(formals, args), FlagPart(formals, rest), p);
  }

  /** Reordering a list that Go's parser reads to its end keeps its settings exactly when
      the parser takes no dashed argument as a value; then it leaves the list as it is. */
  lemma KeepsSettingsExactlyWhen(formals: Formals, accepts: Accepts, args: seq<string>, settings: seq<Setting>)
    requires "" !in formals && Parse(formals, accepts, args) == Done(settings, [])
    ensures Parse(formals, accepts, Reordered(formals, args)) == Done(settings, []) <==>
              !ReadsDashedValue(formals, args)
    ensures !ReadsDashedValue(formals, args) ==> Reordered(formals, args) == args
  {
    if ReadsDashedValue(formals, args) {
      DashedValueIsLost(formals, accepts, args, settings, Positionals(formals, args), []);
    } else {
      NothingToReorder(formals, accepts, args, settings);
      assert args + [] == args;
    }
  }

  /** A negative number behind a flag is its value to the parser and a flag to the reorderer. */
  lemma NegativeValueIsLost(accepts: Accepts)
    requires accepts("n", "-5")
    ensures Parse(map["n" := false], accepts, ["--n", "-5"]) == Done([("n", "-5")], [])
    ensures Reordered(map["n" := false], ["--n", "-5"]) == ["--n=", "-5"]
  {
    var formals, args := map["n" := false], ["--n", "-5"];
    assert "--n"[1..] == "-n" && "-n"[1..] == "n" && "--n"[2..] == "n" && "-5"[1..] == "5";
    assert TokenOf("--n") == Named("n", None);
    assert TrimDashes("--n") == TrimDashes("-n") == TrimDashes("n") == "n";
    assert TrimDashes("-5") == TrimDashes("5") == "5";
    assert args[1..] == ["-5"] && args[2..] == [] && ["-5"][1..] == [];
    assert Emitted(formals, args) == ["--n" + "="] && "--n" + "=" == "--n=";
    assert Emitted(formals, ["-5"]) == ["-5"];
    assert FlagPart(formals, args) == ["--n="] + FlagPart(formals, ["-5"]);
  }

  // ----- Bare dashes -----

  lemma BareHasNoName(b: string)
    requires Bare(b)
    ensures TrimDashes(b) == "" && Dashed(b) && '=' !in b
  {
    assert "--"[1..] == "-" && "-"[1..] == "";
  }

  lemma {:induction false} PartsAround(formals: Formals, pre: seq<string>, b: string, post: seq<string>)
    requires Bare(b) && "" !in formals
    ensures FlagPart(formals, pre + [b] + post) == FlagPart(formals, pre) + [b] + FlagPart(formals, post)
    ensures Positionals(formals, pre + [b] + post) == Positionals(formals, pre) + Positionals(formals, post)
    decreases |pre|
  {
    var all := pre + [b] + post;
    if pre == [] {
      assert all[0] == b && all[1..] == post;
      BareHasNoName(b);
    } else {
      BehindAround(formals, pre, b, post);
      PartsAround(formals, Behind(formals, pre), b, post);
      if Dashed(pre[0]) {
        Regroup(Emitted(formals, pre), FlagPart(formals, Behind(formals, pre)), [b]);
        Regroup(Emitted(formals, pre), FlagPart(formals, Behind(formals, pre)) + [b], FlagPart(formals, post));
      } else {
        Regroup([pre[0]], Positionals(formals, pre[1..]), Positionals(formals, post));
      }
    }
  }

  lemma BehindAround(formals: Formals, pre: seq<string>, b: string, post: seq<string>)
    requires pre != [] && Bare(b)
    ensures var all := pre + [b] + post;
            && all[0] == pre[0]
            && Behind(formals, all) == Behind(formals, pre) + [b] + post
            && Emitted(formals, all) == Emitted(formals, pre)
  {
    var all := pre + [b] + post;
    assert all[1..] == pre[1..] + [b] + post;
    assert |pre| > 1 ==> all[2..] == pre[2..] + [b] + post && all[1] == pre[1];
    assert |pre| == 1 ==> all[1] == b;
  }

  /** With a bare "-" or "--" after pre, exactly the flags of pre are read; the flags
      behind it are left among the remaining arguments, before all positionals. */
  lemma BareDashEndsTheFlags(formals: Formals, accepts: Accepts, pre: seq<string>, b: string, post: seq<string>)
    requires NoneBare(pre) && Bare(b) && "" !in formals
    ensures var left := FlagPart(formals, post) + (Positionals(formals, pre) + Positionals(formals, post));
            Agrees(Parse(formals, accepts, Reordered(formals, pre + [b] + post)), Scan(formals, accepts, pre),
                   if b == "-" then [b] + left else left, Positionals(formals, pre))
  {
    var pos := Positionals(formals, pre) + Positionals(formals, post);
    PartsAround(formals, pre, b, post);
    var left := FlagPart(formals, post) + pos;
    assert ([b] + left)[1..] == left;
    ParseFlagPart(formals, accepts, pre, [b] + left, if b == "-" then [b] + left else left);
    Regroup(FlagPart(formals, pre) + [b], FlagPart(formals, post), pos);
    Regroup(FlagPart(formals, pre), [b], FlagPart(formals, post) + pos);
  }

  /** So a bare dash before a flag keeps that flag from being read at all. */
  lemma FlagBehindBareDashIsLost(accepts: Accepts)
    ensures Parse(map["json" := true], accepts, Reordered(map["json" := true], ["-", "--json"])) ==
              Done([], ["-", "--json"])
  {
    var formals := map["json" := true];
    BareDashEndsTheFlags(formals, accepts, [], "-", ["--json"]);
    assert [] + ["-"] + ["--json"] == ["-", "--json"];
    assert TrimDashes("--json") == TrimDashes("-json") == TrimDashes("json") by {
      assert "--json"[1..] == "-json" && "-json"[1..] == "json";
    }
    assert FlagPart(formals, ["--json"]) == ["--json"];
  }

  // ----- Reordering twice -----

  lemma FlagPartOfEmitted(formals: Formals, args: seq<string>, p: seq<string>)
    requires args != [] && Dashed(args[0])
    ensures FlagPart(formals, Emitted(formals, args) + p) == Emitted(formals, args) + FlagPart(formals, p)
    ensures Positionals(formals, Emitted(formals, args) + p) == Positionals(formals, p)
  {
    var e := Emitted(formals, args);
    var all := e + p;
    assert all[|e|..] == p && Dashed(all[0]);
    assert '=' in args[0] + "=" by { assert (args[0] + "=")[|args[0]|] == '='; }
    assert Behind(formals, all) == p && Emitted(formals, all) == e;
  }

  lemma {:induction false} NotDashedStay(formals: Formals, p: seq<string>)
    requires NoneDashed(p)
    ensures FlagPart(formals, p) == [] && Positionals(formals, p) == p
  {
    if p != [] {
      assert p[0] in p && forall a :: a in p[1..] ==> a in p;
      NotDashedStay(formals, p[1..]);
    }
  }

  lemma {:induction false} FlagPartOfFlagPart(formals: Formals, args: seq<string>, p: seq<string>)
    requires NoneDashed(p)
    ensures FlagPart(formals, FlagPart(formals, args) + p) == FlagPart(formals, args)
    ensures Positionals(formals, FlagPart(formals, args) + p) == p
  {
    if args == [] {
      assert FlagPart(formals, args) + p == p;
      NotDashedStay(formals, p);
    } else {
      var rest := Behind(formals, args);
      FlagPartOfFlagPart(formals, rest, p);
      if Dashed(args[0]) {
        FlagPartOfEmitted(formals, args, FlagPart(formals, rest) + p);
        Regroup(Emitted(formals, args), FlagPart(formals, rest), p);
      }
    }
  }

  /** Reordering a reordered list changes nothing, whatever it holds. */
  lemma ReorderIsIdempotent(formals: Formals, args: seq<string>)
    ensures Reordered(formals, Reordered(formals, args)) == Reordered(formals, args)
  {
    PositionalsAreNotDashed(formals, args);
    FlagPartOfFlagPart(formals, args, Positionals(formals, args));
  }
}
