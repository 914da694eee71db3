/** The retry commands that self-update prints (cmd/anchored/self_update.go): read by a shell
    and then by the flag parser of self-update itself, they ask for the options of the run
    that printed them. */
module RetryCommand {
  import opened Collections
  import opened Text
  import F = FlagArgs
  import Q = ShellQuoting

  /** The flags of self-update, each with whether it is a bool flag. */
  const FORMALS: F.Formals := map[
    "config" := false, "check" := true, "json" := true, "force" := true, "yes" := true, "no-plugin" := true,
    "version" := false
  ]

  /** What the flag variables are set to, in order. */
  function Options(force: bool, assumeYes: bool, noPlugin: bool, configPath: string, target: string): seq<F.Setting>
  {
    (if force then [("force", "true")] else [])
    + ((if assumeYes then [("yes", "true")] else [])
    + ((if noPlugin then [("no-plugin", "true")] else [])
    + ((if configPath != "" then [("config", configPath)] else [])
    + (if target != "" then [("version", target)] else []))))
  }

  function Opt(given: bool, args: seq<string>): seq<string>
  {
    if given then args else []
  }

  ghost predicate AcceptsAll(accepts: F.Accepts)
  {
    forall name, value :: accepts(name, value)
  }

  lemma TokenOfOption(name: string)
    requires name != "" && name[0] != '-' && '=' !in name
    ensures F.Dashed("--" + name) && !F.Bare("--" + name) && F.TokenOf("--" + name) == F.Named(name, None)
  {
    var a := "--" + name;
    assert a[2..] == name && a[0] == '-' && a[1] == '-';
    assert F.IndexEq(name) == -1;
    assert name[0] in name;
  }

  lemma NoEq(name: string)
    requires name in {"force", "yes", "no-plugin", "config", "version"}
    ensures name != "" && name[0] != '-' && '=' !in name && name in FORMALS
  {
  }

  /** A bool flag that stands in front is set to true. */
  lemma SwitchReads(accepts: F.Accepts, given: bool, name: string, rest: seq<string>, settings: seq<F.Setting>)
    requires AcceptsAll(accepts) && name in {"force", "yes", "no-plugin"}
    requires F.Parse(FORMALS, accepts, rest) == F.Done(settings, [])
    ensures F.Parse(FORMALS, accepts, Opt(given, ["--" + name]) + rest) ==
              F.Done((if given then [(name, "true")] else []) + settings, [])
  {
    NoEq(name);
    if given {
      TokenOfOption(name);
      F.ParseOne(FORMALS, accepts, "--" + name, rest);
    } else {
      assert [] + rest == rest && [] + settings == settings;
    }
  }

  /** A valued flag that stands in front takes the argument behind it, whatever it is. */
  lemma ValueReads(accepts: F.Accepts, name: string, value: string, rest: seq<string>, settings: seq<F.Setting>)
    requires AcceptsAll(accepts) && name in {"config", "version"}
    requires F.Parse(FORMALS, accepts, rest) == F.Done(settings, [])
    ensures F.Parse(FORMALS, accepts, Opt(value != "", ["--" + name, value]) + rest) ==
              F.Done((if value != "" then [(name, value)] else []) + settings, [])
  {
    NoEq(name);
    if value != "" {
      TokenOfOption(name);
      F.ParseTwo(FORMALS, accepts, "--" + name, value, rest);
    } else {
      assert [] + rest == rest && [] + settings == settings;
    }
  }

  lemma InFront(given: bool, first: seq<string>, g2: bool, s2: seq<string>, g3: bool, s3: seq<string>,
                g4: bool, s4: seq<string>, g5: bool, s5: seq<string>)
    ensures Q.With(Q.With(Q.With(Q.With(Opt(given, first), g2, s2), g3, s3), g4, s4), g5, s5) ==
              Opt(given, first) + (Opt(g2, s2) + (Opt(g3, s3) + (Opt(g4, s4) + (Opt(g5, s5) + []))))
  {
    var a, b, c, d, e := Opt(given, first), Opt(g2, s2), Opt(g3, s3), Opt(g4, s4), Opt(g5, s5);
    assert Q.With(a, g2, s2) == a + b && Q.With(a + b, g3, s3) == a + b + c;
    assert Q.With(a + b + c, g4, s4) == a + b + c + d && Q.With(a + b + c + d, g5, s5) == a + b + c + d + e;
    assert a + b + c + d + e == a + (b + (c + (d + (e + []))));
  }

  lemma FlagsInTurn(force: bool, assumeYes: bool, noPlugin: bool, configPath: string, target: string)
    ensures Q.IntendedFlags(force, assumeYes, noPlugin, configPath, target) ==
              Opt(force, ["--" + "force"]) + (Opt(assumeYes, ["--" + "yes"]) + (Opt(noPlugin, ["--" + "no-plugin"])
              + (Opt(configPath != "", ["--" + "config", configPath])
              + (Opt(target != "", ["--" + "version", target]) + []))))
  {
    var f, y, n, c, v := "--" + "force", "--" + "yes", "--" + "no-plugin", "--" + "config", "--" + "version";
    assert f == "--force" && y == "--yes" && n == "--no-plugin" && c == "--config" && v == "--version";
    assert Q.With([], force, [f]) == Opt(force, [f]);
    InFront(force, [f], assumeYes, [y], noPlugin, [n], configPath != "", [c, configPath], target != "", [v, target]);
  }

  /** The flags rebuilt from a run's options are parsed to just these options. */
  lemma FlagsKeepOptions(accepts: F.Accepts, force: bool, assumeYes: bool, noPlugin: bool, configPath: string,
                         target: string)
    requires AcceptsAll(accepts)
    ensures F.Parse(FORMALS, accepts, Q.IntendedFlags(force, assumeYes, noPlugin, configPath, target)) ==
              F.Done(Options(force, assumeYes, noPlugin, configPath, target), [])
  {
    var version := Opt(target != "", ["--" + "version", target]) + [];
    var versionSet := (if target != "" then [("version", target)] else []) + [];
    ValueReads(accepts, "version", target, [], []);
    var config := Opt(configPath != "", ["--" + "config", configPath]) + version;
    var configSet := (if configPath != "" then [("config", configPath)] else []) + versionSet;
    ValueReads(accepts, "config", configPath, version, versionSet);
    var plugin := Opt(noPlugin, ["--" + "no-plugin"]) + config;
    var pluginSet := (if noPlugin then [("no-plugin", "true")] else []) + configSet;
    SwitchReads(accepts, noPlugin, "no-plugin", config, configSet);
    var yes := Opt(assumeYes, ["--" + "yes"]) + plugin;
    var yesSet := (if assumeYes then [("yes", "true")] else []) + pluginSet;
    SwitchReads(accepts, assumeYes, "yes", plugin, pluginSet);
    SwitchReads(accepts, force, "force", yes, yesSet);
    FlagsInTurn(force, assumeYes, noPlugin, configPath, target);
    assert versionSet == if target != "" then [("version", target)] else [];
  }

  lemma OptNoNul(given: bool, name: string, value: string, rest: seq<string>)
    requires name in {"no-plugin", "config", "version", "force", "yes"} && '\0' !in value && Q.NoNul(rest)
    ensures Q.NoNul(Opt(given, ["--" + name, value]) + rest) && Q.NoNul(Opt(given, ["--" + name]) + rest)
  {
    var a := "--" + name;
    assert forall c :: c in a ==> c == '-' || c in name;
    assert '\0' !in name;
    var one, two := [a] + rest, [a, value] + rest;
    assert forall i :: 0 < i < |one| ==> one[i] == rest[i - 1];
    assert forall i :: 1 < i < |two| ==> two[i] == rest[i - 2];
    assert [] + rest == rest;
  }

  /** Nothing but the config path and the version can bring a NUL into the flags. */
  lemma FlagsNoNul(noPlugin: bool, configPath: string, target: string)
    requires '\0' !in configPath && '\0' !in target
    ensures Q.NoNul(Q.IntendedFlags(true, false, noPlugin, configPath, target))
  {
    var version := Opt(target != "", ["--" + "version", target]) + [];
    OptNoNul(target != "", "version", target, []);
    var config := Opt(configPath != "", ["--" + "config", configPath]) + version;
    OptNoNul(configPath != "", "config", configPath, version);
    var plugin := Opt(noPlugin, ["--" + "no-plugin"]) + config;
    OptNoNul(noPlugin, "no-plugin", "", config);
    OptNoNul(false, "yes", "", plugin);
    OptNoNul(true, "force", "", Opt(false, ["--" + "yes"]) + plugin);
    FlagsInTurn(true, false, noPlugin, configPath, target);
  }

  lemma ForceStands(noPlugin: bool, configPath: string, target: string)
    ensures |Q.IntendedFlags(true, false, noPlugin, configPath, target)| > 0
  {
    FlagsInTurn(true, false, noPlugin, configPath, target);
  }

  /** The override command, pasted into a shell, installs the pinned version past the refusal
      and keeps the config path and the choice about the plugin. */
  lemma OverrideKeepsOptions(accepts: F.Accepts, out: seq<string>, noPlugin: bool, configPath: string, target: string)
    requires AcceptsAll(accepts) && '\0' !in configPath && '\0' !in target
    requires Q.NoneDependent(target) && Q.NoneSpecial(target)
    requires Q.Rendered(out, Q.IntendedFlags(true, false, noPlugin, configPath, target), target)
    ensures var args := Q.IntendedFlags(true, false, noPlugin, configPath, target);
            && Q.Words(Q.Between, Q.OverrideCommand(out)) == Some(["anchored", "self-update"] + args)
            && F.Parse(FORMALS, accepts, args) == F.Done(Options(true, false, noPlugin, configPath, target), [])
  {
    var args := Q.IntendedFlags(true, false, noPlugin, configPath, target);
    FlagsKeepOptions(accepts, true, false, noPlugin, configPath, target);
    FlagsNoNul(noPlugin, configPath, target);
    ForceStands(noPlugin, configPath, target);
    Q.OverrideIsTheCommand(out, args, target);
  }
}
