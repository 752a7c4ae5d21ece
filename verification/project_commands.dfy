/**
  How the project configuration validates the commands section, adds
  commands for notebooks found in the project directory and for a conda
  meta.yaml app entry, and picks the default command.
 */
module ProjectCommands {
  import opened Values
  import opened Text
  import opened Problems

  /** The command types, in the order they are checked. */
  const CommandTypes: seq<string> := ["conda_app_entry", "unix", "windows", "notebook", "bokeh_app"]

  /** A command type that cannot be combined with any other. */
  predicate Exclusive(t: string) {
    t == "notebook" || t == "bokeh_app"
  }

  datatype Command = Command(name: string, attributes: seq<(string, Yaml)>)

  /** Every command is stored under its own name. */
  predicate KeyedByName(commands: map<string, Command>) {
    forall n :: n in commands ==> commands[n].name == n
  }

  // ---------------------------------------------------------------------
  // The rules for one command
  // ---------------------------------------------------------------------

  /** `description`, `supports_http_options` and `env_spec` have the right
      types when present, and `env_spec` names a known env spec. */
  predicate FieldsValid(a: seq<(string, Yaml)>, envSpecs: set<string>) {
    && (HasKey(a, "description") ==> Get(a, "description", YNull).YStr?)
    && (HasKey(a, "supports_http_options") ==> Get(a, "supports_http_options", YNull).YBool?)
    && (HasKey(a, "env_spec") ==> Get(a, "env_spec", YNull).YStr? && Get(a, "env_spec", YNull).s in envSpecs)
  }

  /** At least one command type is present. */
  predicate HasCommandLine(a: seq<(string, Yaml)>) {
    exists t :: t in CommandTypes && HasKey(a, t)
  }

  /** Every command type present holds a string. */
  predicate TypesAreStrings(a: seq<(string, Yaml)>) {
    forall t :: t in CommandTypes && HasKey(a, t) ==> Get(a, t, YNull).YStr?
  }

  /** A present exclusive type is the only command type present. */
  predicate ExclusiveAlone(a: seq<(string, Yaml)>) {
    && (HasKey(a, "notebook") ==> forall t :: t in CommandTypes && t != "notebook" ==> !HasKey(a, t))
    && (HasKey(a, "bokeh_app") ==> forall t :: t in CommandTypes && t != "bokeh_app" ==> !HasKey(a, t))
  }

  predicate CommandLineValid(a: seq<(string, Yaml)>) {
    HasCommandLine(a) && TypesAreStrings(a) && ExclusiveAlone(a)
  }

  /** The rules a command entry must follow, stated independently of the
      order in which they are checked. */
  predicate ValidCommand(name: string, attrs: Yaml, envSpecs: set<string>) {
    !IsBlank(name) && attrs.YMap? && FieldsValid(attrs.entries, envSpecs) && CommandLineValid(attrs.entries)
  }

  // ---------------------------------------------------------------------
  // Checking one command
  // ---------------------------------------------------------------------

  /** The attributes as stored (`copied_attrs`): `env_spec` is added, naming
      the default env spec, when the command does not name one. */
  function WithEnvSpec(attrs: seq<(string, Yaml)>, defaultEnvSpec: Option<string>): (r: seq<(string, Yaml)>)
    ensures Lookup(r, "env_spec") ==
            if HasKey(attrs, "env_spec") then Lookup(attrs, "env_spec") else Some(FromOption(defaultEnvSpec))
    ensures forall k :: k != "env_spec" ==> Lookup(r, k) == Lookup(attrs, k)
  {
    if HasKey(attrs, "env_spec") then attrs
    else
      var v := FromOption(defaultEnvSpec);
      assert forall k :: Lookup(attrs + [("env_spec", v)], k) ==
                         if HasKey(attrs, k) then Lookup(attrs, k) else if k == "env_spec" then Some(v) else None by {
        forall k {
          LookupSnoc(attrs, "env_spec", v, k);
        }
      }
      attrs + [("env_spec", v)]
  }

  /** Adding `env_spec` does not change the command line, since `env_spec`
      is not a command type. */
  lemma CopiedCommandLine(a: seq<(string, Yaml)>, defaultEnvSpec: Option<string>)
    ensures CommandLineValid(WithEnvSpec(a, defaultEnvSpec)) == CommandLineValid(a)
  {
    var c := WithEnvSpec(a, defaultEnvSpec);
    EnvSpecIsNoCommandType();
    SameTypesSameLine(a, c);
    SameTypesSameStrings(a, c);
    SameTypesSameAlone(a, c);
  }

  /** Two attribute lists that agree on the command types. */
  predicate SameTypes(a: seq<(string, Yaml)>, c: seq<(string, Yaml)>) {
    forall t :: t in CommandTypes ==> Lookup(a, t) == Lookup(c, t)
  }

  lemma SameTypesSameLine(a: seq<(string, Yaml)>, c: seq<(string, Yaml)>)
    requires SameTypes(a, c)
    ensures HasCommandLine(c) == HasCommandLine(a)
  {
    if HasCommandLine(a) {
      var t :| t in CommandTypes && HasKey(a, t);
      assert HasKey(c, t);
    }
    if HasCommandLine(c) {
      var t :| t in CommandTypes && HasKey(c, t);
      assert HasKey(a, t);
    }
  }

  lemma SameTypesSameAlone(a: seq<(string, Yaml)>, c: seq<(string, Yaml)>)
    requires SameTypes(a, c)
    ensures ExclusiveAlone(c) == ExclusiveAlone(a)
  {
    assert "notebook" in CommandTypes && "bokeh_app" in CommandTypes;
    assert HasKey(a, "notebook") == HasKey(c, "notebook");
    assert HasKey(a, "bokeh_app") == HasKey(c, "bokeh_app");
  }

  lemma SameTypesSameStrings(a: seq<(string, Yaml)>, c: seq<(string, Yaml)>)
    requires SameTypes(a, c)
    ensures TypesAreStrings(c) == TypesAreStrings(a)
  {
  }

  lemma EnvSpecIsNoCommandType()
    ensures forall t :: t in CommandTypes ==> t != "env_spec"
  {
    assert forall t :: t in CommandTypes ==> t[0] != 'e';
  }

  /** The command types among the attributes, in checking order. */
  function TypesIn(attrs: seq<(string, Yaml)>, types: seq<string>): (r: seq<string>)
    ensures |r| <= |types|
    ensures forall t :: t in r <==> t in types && HasKey(attrs, t)
    decreases |types|
  {
    if |types| == 0 then []
    else if HasKey(attrs, types[0]) then [types[0]] + TypesIn(attrs, types[1..])
    else TypesIn(attrs, types[1..])
  }

  predicate NoDuplicates(s: seq<string>) {
    forall i, j :: 0 <= i < j < |s| ==> s[i] != s[j]
  }

  /** The collected types never repeat when the checked types do not. */
  lemma {:induction false} TypesInNoDuplicates(attrs: seq<(string, Yaml)>, types: seq<string>)
    requires NoDuplicates(types)
    ensures NoDuplicates(TypesIn(attrs, types))
    decreases |types|
  {
    if |types| > 0 {
      var tail := types[1..];
      assert NoDuplicates(tail) by {
        forall i, j | 0 <= i < j < |tail| ensures tail[i] != tail[j] {
          assert tail[i] == types[i + 1] && tail[j] == types[j + 1];
        }
      }
      TypesInNoDuplicates(attrs, tail);
      var rest := TypesIn(attrs, tail);
      assert types[0] !in tail by {
        forall k | 0 <= k < |tail| ensures tail[k] != types[0] {
          assert tail[k] == types[k + 1];
        }
      }
      if HasKey(attrs, types[0]) {
        var r := [types[0]] + rest;
        forall i, j | 0 <= i < j < |r| ensures r[i] != r[j] {
          assert r[j] == rest[j - 1];
          if i > 0 {
            assert r[i] == rest[i - 1];
          } else {
            assert rest[j - 1] in rest;
          }
        }
      }
    }
  }

  /** One problem per present command type whose value is not a string. */
  function TypeProblems(name: string, attrs: seq<(string, Yaml)>, types: seq<string>): (r: seq<RawProblem>)
    ensures r == [] <==> forall t :: t in types && HasKey(attrs, t) ==> Get(attrs, t, YNull).YStr?
    ensures forall p :: p in r ==> p.Message? && p.issue.CommandAttrNotString? && p.issue.name == name
                                   && p.issue.attr in types && p.issue.value == Get(attrs, p.issue.attr, YNull)
                                   && HasKey(attrs, p.issue.attr) && !p.issue.value.YStr?
    decreases |types|
  {
    if |types| == 0 then []
    else
      var t := types[0];
      var rest := TypeProblems(name, attrs, types[1..]);
      assert forall u :: u in types <==> u == t || u in types[1..];
      if HasKey(attrs, t) && !Get(attrs, t, YNull).YStr? then
        [Message(CommandAttrNotString(name, t, Get(attrs, t, YNull)))] + rest
      else rest
  }

  /** `list.remove`: drops the first occurrence (RemoveFirstDropsFirst). */
  function RemoveFirst(s: seq<string>, x: string): (r: seq<string>)
    ensures x in s ==> |r| == |s| - 1
    ensures x !in s ==> r == s
    ensures forall y :: y != x ==> (y in r <==> y in s)
    decreases |s|
  {
    if |s| == 0 then []
    else if s[0] == x then s[1..]
    else [s[0]] + RemoveFirst(s[1..], x)
  }

  /** What `list.remove` drops is the first `x`: the list is cut at that
      one position and nothing else moves. */
  lemma {:induction false} RemoveFirstDropsFirst(s: seq<string>, x: string)
    requires x in s
    ensures exists i :: RemovedFirstAt(s, x, i, RemoveFirst(s, x))
    decreases |s|
  {
    if s[0] == x {
      assert RemovedFirstAt(s, x, 0, RemoveFirst(s, x));
    } else {
      RemoveFirstDropsFirst(s[1..], x);
      var i :| RemovedFirstAt(s[1..], x, i, RemoveFirst(s[1..], x));
      RemovedFirstAtCons(s, x, i, RemoveFirst(s[1..], x));
      assert RemoveFirst(s, x) == [s[0]] + RemoveFirst(s[1..], x);
    }
  }

  /** `s[i]` is the first `x` in `s`, and `r` is `s` without it. */
  predicate RemovedFirstAt(s: seq<string>, x: string, i: int, r: seq<string>) {
    0 <= i < |s| && s[i] == x && x !in s[..i] && r == s[..i] + s[i + 1..]
  }

  /** Putting back a head that is not `x` moves the first `x` one place on. */
  lemma RemovedFirstAtCons(s: seq<string>, x: string, i: int, rest: seq<string>)
    requires |s| > 0 && s[0] != x && RemovedFirstAt(s[1..], x, i, rest)
    ensures RemovedFirstAt(s, x, i + 1, [s[0]] + rest)
  {
    assert s[..i + 1] == [s[0]] + s[1..][..i];
    assert s[i + 2..] == s[1..][i + 1..];
  }

  /** The exclusive type a command names: `bokeh_app` before `notebook`. */
  function ExclusiveLabel(attrs: seq<(string, Yaml)>): (r: Option<string>)
    ensures r.Some? ==> Exclusive(r.value) && HasKey(attrs, r.value)
    ensures r.None? <==> !HasKey(attrs, "notebook") && !HasKey(attrs, "bokeh_app")
  {
    if HasKey(attrs, "bokeh_app") then Some("bokeh_app")
    else if HasKey(attrs, "notebook") then Some("notebook")
    else None
  }

  /** The collected types are empty exactly when there is no command line. */
  lemma NoTypesIff(a: seq<(string, Yaml)>)
    ensures TypesIn(a, CommandTypes) == [] <==> !HasCommandLine(a)
  {
    var types := TypesIn(a, CommandTypes);
    if types != [] {
      assert types[0] in types;
    }
  }

  /** The multiple-commands check fires exactly when an exclusive type is
      not alone. */
  lemma MultipleIff(a: seq<(string, Yaml)>)
    ensures (ExclusiveLabel(a).Some? && |TypesIn(a, CommandTypes)| > 1) <==> !ExclusiveAlone(a)
  {
    if ExclusiveLabel(a).Some? && |TypesIn(a, CommandTypes)| > 1 {
      MultipleBreaksAlone(a);
    }
    if !ExclusiveAlone(a) {
      NotAloneIsMultiple(a);
    }
  }

  lemma MultipleBreaksAlone(a: seq<(string, Yaml)>)
    requires ExclusiveLabel(a).Some? && |TypesIn(a, CommandTypes)| > 1
    ensures !ExclusiveAlone(a)
  {
    var types := TypesIn(a, CommandTypes);
    var e := ExclusiveLabel(a).value;
    CommandTypesDistinct();
    TypesInNoDuplicates(a, CommandTypes);
    var other := if types[0] == e then types[1] else types[0];
    assert types[0] in types && types[1] in types;
    assert other != e;
    assert other in CommandTypes && HasKey(a, other);
  }

  /** The command types are five different names. */
  lemma CommandTypesDistinct()
    ensures NoDuplicates(CommandTypes)
  {
    var firsts := ['c', 'u', 'w', 'n', 'b'];
    assert forall i :: 0 <= i < |CommandTypes| ==> CommandTypes[i][0] == firsts[i];
  }

  lemma NotAloneIsMultiple(a: seq<(string, Yaml)>)
    requires !ExclusiveAlone(a)
    ensures ExclusiveLabel(a).Some? && |TypesIn(a, CommandTypes)| > 1
  {
    var e := if HasKey(a, "notebook") && !(forall u :: u in CommandTypes && u != "notebook" ==> !HasKey(a, u))
             then "notebook" else "bokeh_app";
    var t :| t in CommandTypes && t != e && HasKey(a, t);
    TwoDistinct(TypesIn(a, CommandTypes), e, t);
  }

  lemma TwoDistinct(s: seq<string>, x: string, y: string)
    requires x in s && y in s && x != y
    ensures |s| > 1
  {
  }

  /** The problems with the fields other than the command types. */
  function FieldProblems(name: string, a: seq<(string, Yaml)>, envSpecs: set<string>): (r: seq<RawProblem>)
    ensures r == [] <==> FieldsValid(a, envSpecs)
    ensures HasKey(a, "env_spec") && Get(a, "env_spec", YNull).YStr? && Get(a, "env_spec", YNull).s !in envSpecs ==>
              r != [] && r[|r| - 1] == Message(CommandEnvSpecUnknown(name, Get(a, "env_spec", YNull).s))
  {
    var description := Get(a, "description", YNull);
    var http := Get(a, "supports_http_options", YNull);
    var envSpec := Get(a, "env_spec", YNull);
    (if HasKey(a, "description") && !description.YStr? then [Message(CommandDescriptionNotString(name))] else [])
    + (if HasKey(a, "supports_http_options") && !http.YBool? then [Message(HttpOptionsNotBool(name))] else [])
    + (if !HasKey(a, "env_spec") then []
       else if !envSpec.YStr? then [Message(CommandEnvSpecNotString(name))]
       else if envSpec.s !in envSpecs then [Message(CommandEnvSpecUnknown(name, envSpec.s))]
       else [])
  }

  /** The problems with the command types, in the order they are found:
      non-string values, then no command line at all, then an exclusive type
      alongside another. */
  function CommandLineProblems(name: string, copied: seq<(string, Yaml)>): (r: seq<RawProblem>)
    ensures r == [] <==> CommandLineValid(copied)
    ensures !HasCommandLine(copied) ==> r == [Message(NoCommandLine(name))]
    ensures var types := TypesIn(copied, CommandTypes);
            var excl := ExclusiveLabel(copied);
            excl.Some? && |types| > 1 ==>
              r != [] && r[|r| - 1] == Message(MultipleCommands(name, excl.value, RemoveFirst(types, excl.value)))
  {
    var types := TypesIn(copied, CommandTypes);
    var excl := ExclusiveLabel(copied);
    NoTypesIff(copied);
    MultipleIff(copied);
    var noLine := if types == [] then [Message(NoCommandLine(name))] else [];
    var multiple :=
      if excl.Some? && |types| > 1 then [Message(MultipleCommands(name, excl.value, RemoveFirst(types, excl.value)))]
      else [];
    assert !HasCommandLine(copied) ==> TypeProblems(name, copied, CommandTypes) == [];
    TypeProblems(name, copied, CommandTypes) + noLine + multiple
  }

  datatype CommandCheck = CommandCheck(problems: seq<RawProblem>, attributes: seq<(string, Yaml)>)

  /** One entry of the commands loop: the problems it adds and the
      attributes a kept command stores. */
  function CheckEntry(name: string, attrs: Yaml, envSpecs: set<string>, defaultEnvSpec: Option<string>): (r: CommandCheck)
    ensures r.problems == [] <==> ValidCommand(name, attrs, envSpecs)
    ensures attrs.YMap? ==> r.attributes == WithEnvSpec(attrs.entries, defaultEnvSpec)
  {
    var copied := if attrs.YMap? then WithEnvSpec(attrs.entries, defaultEnvSpec) else [];
    if IsBlank(name) then CommandCheck([Message(EmptyCommandName(name))], copied)
    else if !attrs.YMap? then CommandCheck([Message(CommandAttrsNotDict(name, attrs))], copied)
    else
      CopiedCommandLine(attrs.entries, defaultEnvSpec);
      CommandCheck(FieldProblems(name, attrs.entries, envSpecs) + CommandLineProblems(name, copied), copied)
  }

  /** A blank name or a non-mapping entry is reported on its own, before
      any attribute is looked at. */
  lemma CheckEntryStopsEarly(name: string, attrs: Yaml, envSpecs: set<string>, defaultEnvSpec: Option<string>)
    ensures var r := CheckEntry(name, attrs, envSpecs, defaultEnvSpec);
            && (IsBlank(name) ==> r.problems == [Message(EmptyCommandName(name))])
            && (!IsBlank(name) && !attrs.YMap? ==> r.problems == [Message(CommandAttrsNotDict(name, attrs))])
  {
  }

  // ---------------------------------------------------------------------
  // The commands loop
  // ---------------------------------------------------------------------

  /** Every entry passes its checks. */
  predicate AllValid(entries: seq<(string, Yaml)>, envSpecs: set<string>)
    decreases |entries|
  {
    |entries| == 0 || (ValidCommand(entries[0].0, entries[0].1, envSpecs) && AllValid(entries[1..], envSpecs))
  }

  /** The names an entry list declares. */
  function NameSet(entries: seq<(string, Yaml)>): set<string>
    decreases |entries|
  {
    if |entries| == 0 then {} else {entries[0].0} + NameSet(entries[1..])
  }

  /** NameSet holds exactly the keys. */
  lemma {:induction false} NameSetIsKeys(entries: seq<(string, Yaml)>)
    ensures forall n :: n in NameSet(entries) <==> n in KeysOf(entries)
    decreases |entries|
  {
    if |entries| > 0 {
      NameSetIsKeys(entries[1..]);
      assert forall i :: 0 < i < |entries| ==> KeysOf(entries)[i] == KeysOf(entries[1..])[i - 1];
      assert KeysOf(entries)[0] == entries[0].0;
    }
  }

  /** The names of the entries before the first one that fails. */
  function ValidPrefixNames(entries: seq<(string, Yaml)>, envSpecs: set<string>): (r: set<string>)
    ensures r <= NameSet(entries)
    decreases |entries|
  {
    if |entries| == 0 || !ValidCommand(entries[0].0, entries[0].1, envSpecs) then {}
    else {entries[0].0} + ValidPrefixNames(entries[1..], envSpecs)
  }

  /** When every entry passes, every entry's name is kept. */
  lemma {:induction false} AllValidKeepsEveryName(entries: seq<(string, Yaml)>, envSpecs: set<string>)
    requires AllValid(entries, envSpecs)
    ensures ValidPrefixNames(entries, envSpecs) == NameSet(entries)
    decreases |entries|
  {
    if |entries| > 0 {
      AllValidKeepsEveryName(entries[1..], envSpecs);
    }
  }

  /** Some entry of the section has name `n` and stored attributes `attrs`. */
  predicate AttributesFrom(entries: seq<(string, Yaml)>, n: string, attrs: seq<(string, Yaml)>,
                           defaultEnvSpec: Option<string>) {
    exists i :: 0 <= i < |entries| && entries[i].0 == n && entries[i].1.YMap?
                && attrs == WithEnvSpec(entries[i].1.entries, defaultEnvSpec)
  }

  lemma AttributesFromTail(entries: seq<(string, Yaml)>, n: string, attrs: seq<(string, Yaml)>,
                           defaultEnvSpec: Option<string>)
    requires |entries| > 0 && AttributesFrom(entries[1..], n, attrs, defaultEnvSpec)
    ensures AttributesFrom(entries, n, attrs, defaultEnvSpec)
  {
    var i :| 0 <= i < |entries[1..]| && entries[1..][i].0 == n && entries[1..][i].1.YMap?
             && attrs == WithEnvSpec(entries[1..][i].1.entries, defaultEnvSpec);
    assert entries[i + 1] == entries[1..][i];
  }

  /** The loop's state: whether anything failed so far, the commands kept
      and the problems. */
  datatype Scan = Scan(failed: bool, commands: map<string, Command>, problems: seq<RawProblem>)

  /** What the loop may store under `n`: the command it started with, or a
      command built from an entry of that name. */
  predicate StoredFrom(entries: seq<(string, Yaml)>, acc: map<string, Command>, n: string, c: Command,
                       defaultEnvSpec: Option<string>) {
    (n in acc && c == acc[n]) || (c.name == n && AttributesFrom(entries, n, c.attributes, defaultEnvSpec))
  }

  /** The loop over the commands section. Once a check fails, in this
      entry or any before it, no further command is kept. */
  function ScanCommands(entries: seq<(string, Yaml)>, envSpecs: set<string>, defaultEnvSpec: Option<string>,
                        acc: Scan): (r: Scan)
    ensures r.failed == (acc.failed || !AllValid(entries, envSpecs))
    ensures r.commands.Keys == acc.commands.Keys + (if acc.failed then {} else ValidPrefixNames(entries, envSpecs))
    ensures forall n :: n in r.commands ==> StoredFrom(entries, acc.commands, n, r.commands[n], defaultEnvSpec)
    ensures acc.problems <= r.problems
    ensures r.problems == acc.problems <==> AllValid(entries, envSpecs)
    decreases |entries|
  {
    if |entries| == 0 then acc
    else
      var name := entries[0].0;
      var check := CheckEntry(name, entries[0].1, envSpecs, defaultEnvSpec);
      var failed := acc.failed || check.problems != [];
      var commands := if failed then acc.commands else acc.commands[name := Command(name, check.attributes)];
      var next := Scan(failed, commands, acc.problems + check.problems);
      var r := ScanCommands(entries[1..], envSpecs, defaultEnvSpec, next);
      ScanStepKeys(entries, envSpecs, acc.failed, acc.commands.Keys, failed, commands.Keys, r.commands.Keys);
      ScanStepStored(entries, envSpecs, defaultEnvSpec, acc, check, next, r);
      ScanStepProblems(entries, envSpecs, acc.problems, check.problems, r.problems);
      r
  }

  /** The inductive step of ScanCommands' contract on the kept names. */
  lemma ScanStepKeys(entries: seq<(string, Yaml)>, envSpecs: set<string>, accFailed: bool, accKeys: set<string>,
                     nextFailed: bool, nextKeys: set<string>, keys: set<string>)
    requires |entries| > 0
    requires nextFailed == (accFailed || !ValidCommand(entries[0].0, entries[0].1, envSpecs))
    requires nextKeys == if nextFailed then accKeys else accKeys + {entries[0].0}
    requires keys == nextKeys + (if nextFailed then {} else ValidPrefixNames(entries[1..], envSpecs))
    ensures keys == accKeys + (if accFailed then {} else ValidPrefixNames(entries, envSpecs))
  {
    if !nextFailed {
      assert ValidPrefixNames(entries, envSpecs) == {entries[0].0} + ValidPrefixNames(entries[1..], envSpecs);
    } else if !accFailed {
      assert ValidPrefixNames(entries, envSpecs) == {};
    }
  }

  /** The inductive step of ScanCommands' contract on the problems. */
  lemma ScanStepProblems(entries: seq<(string, Yaml)>, envSpecs: set<string>,
                         accProblems: seq<RawProblem>, added: seq<RawProblem>, problems: seq<RawProblem>)
    requires |entries| > 0
    requires added == [] <==> ValidCommand(entries[0].0, entries[0].1, envSpecs)
    requires accProblems + added <= problems
    requires problems == accProblems + added <==> AllValid(entries[1..], envSpecs)
    ensures accProblems <= problems
    ensures problems == accProblems <==> AllValid(entries, envSpecs)
  {
    if problems == accProblems {
      assert |accProblems + added| <= |problems|;
    }
  }

  /** The inductive step of ScanCommands' contract on the stored commands. */
  lemma ScanStepStored(entries: seq<(string, Yaml)>, envSpecs: set<string>, defaultEnvSpec: Option<string>,
                       acc: Scan, check: CommandCheck, next: Scan, r: Scan)
    requires |entries| > 0
    requires check == CheckEntry(entries[0].0, entries[0].1, envSpecs, defaultEnvSpec)
    requires next.failed == (acc.failed || check.problems != [])
    requires next.commands == if next.failed then acc.commands
                              else acc.commands[entries[0].0 := Command(entries[0].0, check.attributes)]
    requires forall n :: n in r.commands ==> StoredFrom(entries[1..], next.commands, n, r.commands[n], defaultEnvSpec)
    ensures forall n :: n in r.commands ==> StoredFrom(entries, acc.commands, n, r.commands[n], defaultEnvSpec)
  {
    var name := entries[0].0;
    forall n | n in r.commands ensures StoredFrom(entries, acc.commands, n, r.commands[n], defaultEnvSpec) {
      var c := r.commands[n];
      if n in next.commands && c == next.commands[n] {
        if !next.failed && n == name {
          assert entries[0].0 == n && entries[0].1.YMap?;
          assert AttributesFrom(entries, n, c.attributes, defaultEnvSpec);
        }
      } else {
        AttributesFromTail(entries, n, c.attributes, defaultEnvSpec);
      }
    }
  }

  /** The first non-blank name in the section (`first_command_name`). */
  function FirstCommandName(entries: seq<(string, Yaml)>): (r: Option<string>)
    ensures r.Some? ==> !IsBlank(r.value) && r.value in NameSet(entries)
    decreases |entries|
  {
    if |entries| == 0 then None
    else if !IsBlank(entries[0].0) then Some(entries[0].0)
    else
      FirstCommandName(entries[1..])
  }

  /** The first name is the earliest non-blank one, and there is none only
      when every name is blank. */
  lemma {:induction false} FirstCommandNameIsFirst(entries: seq<(string, Yaml)>)
    ensures FirstCommandName(entries).None? <==> forall i :: 0 <= i < |entries| ==> IsBlank(entries[i].0)
    ensures FirstCommandName(entries).Some? ==>
              exists i :: 0 <= i < |entries| && entries[i].0 == FirstCommandName(entries).value
                          && forall j :: 0 <= j < i ==> IsBlank(entries[j].0)
    decreases |entries|
  {
    if |entries| > 0 && IsBlank(entries[0].0) {
      var tail := entries[1..];
      FirstCommandNameIsFirst(tail);
      assert forall i :: 0 < i < |entries| ==> entries[i] == tail[i - 1];
      if FirstCommandName(tail).Some? {
        var i :| 0 <= i < |tail| && tail[i].0 == FirstCommandName(tail).value
                 && forall j :: 0 <= j < i ==> IsBlank(tail[j].0);
        assert entries[i + 1].0 == FirstCommandName(entries).value;
        assert forall j :: 0 <= j < i + 1 ==> IsBlank(entries[j].0) by {
          forall j | 0 < j < i + 1 ensures IsBlank(entries[j].0) {
            assert entries[j] == tail[j - 1];
          }
        }
      }
    } else if |entries| > 0 {
      assert entries[0].0 == FirstCommandName(entries).value;
    }
  }

  // ---------------------------------------------------------------------
  // Generated commands
  // ---------------------------------------------------------------------

  /** A listed file that becomes a notebook command: not hidden, and named
      `*.ipynb`. */
  predicate IsNotebookFile(f: string) {
    f != [] && f[0] != '.' && EndsWith(f, ".ipynb")
  }

  /** Only top-level hidden entries are dropped: a notebook inside a
      visible directory is listed even when its own name starts with a dot. */
  lemma NotebookFileExamples()
    ensures IsNotebookFile("analysis.ipynb") && IsNotebookFile("sub/.draft.ipynb")
    ensures !IsNotebookFile(".draft.ipynb") && !IsNotebookFile(".ipynb_checkpoints/a.ipynb")
    ensures !IsNotebookFile("analysis.py")
  {
    assert "analysis.ipynb"[8..] == ".ipynb";
    assert "sub/.draft.ipynb"[10..] == ".ipynb";
    assert "analysis.py"[5..] != ".ipynb" by {
      assert "analysis.py"[5..][0] == 's';
    }
  }

  function NotebookCommand(f: string, defaultEnvSpec: Option<string>): (c: Command)
    ensures c.name == f && |c.attributes| == 3 && DistinctKeys(c.attributes)
    ensures Lookup(c.attributes, "notebook") == Some(YStr(f))
    ensures Lookup(c.attributes, "auto_generated") == Some(YBool(true))
    ensures Lookup(c.attributes, "env_spec") == Some(FromOption(defaultEnvSpec))
  {
    assert "notebook"[0] == 'n' && "auto_generated"[0] == 'a' && "env_spec"[0] == 'e';
    var attrs := [("notebook", YStr(f)), ("auto_generated", YBool(true)), ("env_spec", FromOption(defaultEnvSpec))];
    assert Lookup(attrs[2..], "env_spec") == Some(FromOption(defaultEnvSpec));
    assert attrs[1..][1..] == attrs[2..];
    Command(f, attrs)
  }

  function MetaCommand(appEntry: string, defaultEnvSpec: Option<string>): (c: Command)
    ensures c.name == "default" && |c.attributes| == 3 && DistinctKeys(c.attributes)
    ensures Lookup(c.attributes, "conda_app_entry") == Some(YStr(appEntry))
    ensures Lookup(c.attributes, "auto_generated") == Some(YBool(true))
    ensures Lookup(c.attributes, "env_spec") == Some(FromOption(defaultEnvSpec))
  {
    assert "conda_app_entry"[0] == 'c' && "auto_generated"[0] == 'a' && "env_spec"[0] == 'e';
    var attrs := [("conda_app_entry", YStr(appEntry)), ("auto_generated", YBool(true)),
                  ("env_spec", FromOption(defaultEnvSpec))];
    assert Lookup(attrs[2..], "env_spec") == Some(FromOption(defaultEnvSpec));
    assert attrs[1..][1..] == attrs[2..];
    Command("default", attrs)
  }

  /** Adds a notebook command for every listed notebook file that does not
      already name a command. */
  function AddNotebooks(commands: map<string, Command>, files: seq<string>, defaultEnvSpec: Option<string>): (r: map<string, Command>)
    ensures forall n :: n in commands ==> n in r && r[n] == commands[n]
    ensures forall n :: n in r <==> n in commands || (n in files && IsNotebookFile(n))
    ensures forall n :: n in r && n !in commands ==> r[n] == NotebookCommand(n, defaultEnvSpec)
    decreases |files|
  {
    if |files| == 0 then commands
    else
      var f := files[0];
      var next := if IsNotebookFile(f) && f !in commands then commands[f := NotebookCommand(f, defaultEnvSpec)] else commands;
      assert forall n :: n in files <==> n == f || n in files[1..];
      AddNotebooks(next, files[1..], defaultEnvSpec)
  }

  /** The notebook files of a listing. */
  function NotebookNames(listing: Option<seq<string>>): (r: set<string>)
    ensures forall f :: f in r <==> listing.Some? && f in listing.value && IsNotebookFile(f)
  {
    match listing
    case None => {}
    case Some(files) => set f | f in files && IsNotebookFile(f)
  }

  /** `_add_notebook_commands` over the project directory's file listing,
      which is `None` when listing the directory failed. */
  function AddNotebookCommands(commands: map<string, Command>, listing: Option<seq<string>>,
                               defaultEnvSpec: Option<string>): (r: map<string, Command>)
    ensures listing.None? ==> r == commands
    ensures r.Keys == commands.Keys + NotebookNames(listing)
    ensures forall n :: n in commands ==> r[n] == commands[n]
    ensures forall n :: n in r && n !in commands ==> r[n] == NotebookCommand(n, defaultEnvSpec)
    ensures KeyedByName(commands) ==> KeyedByName(r)
  {
    match listing
    case None => commands
    case Some(files) => AddNotebooks(commands, files, defaultEnvSpec)
  }

  /** A generated notebook command names exactly one command type. */
  lemma NotebookCommandHasOneType(f: string, defaultEnvSpec: Option<string>)
    ensures TypesIn(NotebookCommand(f, defaultEnvSpec).attributes, CommandTypes) == ["notebook"]
  {
    var nb := NotebookCommand(f, defaultEnvSpec).attributes;
    assert "notebook"[0] == 'n' && "auto_generated"[0] == 'a' && "env_spec"[0] == 'e';
    assert "conda_app_entry"[0] == 'c' && "unix"[0] == 'u' && "windows"[0] == 'w' && "bokeh_app"[0] == 'b';
    assert !HasKey(nb, "conda_app_entry") && !HasKey(nb, "unix") && !HasKey(nb, "windows") && !HasKey(nb, "bokeh_app");
    assert HasKey(nb, "notebook");
  }

  /** The command generated from a meta.yaml app entry names exactly one
      command type. */
  lemma MetaCommandHasOneType(appEntry: string, defaultEnvSpec: Option<string>)
    ensures TypesIn(MetaCommand(appEntry, defaultEnvSpec).attributes, CommandTypes) == ["conda_app_entry"]
  {
    var meta := MetaCommand(appEntry, defaultEnvSpec).attributes;
    assert "conda_app_entry"[0] == 'c' && "auto_generated"[0] == 'a' && "env_spec"[0] == 'e';
    assert "unix"[0] == 'u' && "windows"[0] == 'w' && "notebook"[0] == 'n' && "bokeh_app"[0] == 'b';
    assert HasKey(meta, "conda_app_entry");
    assert !HasKey(meta, "unix") && !HasKey(meta, "windows") && !HasKey(meta, "notebook") && !HasKey(meta, "bokeh_app");
  }

  // ---------------------------------------------------------------------
  // _update_commands
  // ---------------------------------------------------------------------

  /** The meta.yaml app entry is present but not a string. */
  predicate AppEntryBad(metaAppEntry: Yaml) {
    !metaAppEntry.YNull? && !metaAppEntry.YStr?
  }

  /** Whether the meta.yaml app entry or the commands section fails a check. */
  predicate CommandsFail(section: Yaml, metaAppEntry: Yaml, envSpecs: set<string>) {
    || AppEntryBad(metaAppEntry)
    || (!section.YNull? && !section.YMap?)
    || (section.YMap? && !AllValid(section.entries, envSpecs))
  }

  /** The names the commands section declares. */
  function SectionNames(section: Yaml): set<string> {
    if section.YMap? then NameSet(section.entries) else {}
  }

  /** The app entry check and the commands loop, run on the section if it
      is a mapping. */
  function ScanSection(section: Yaml, metaAppEntry: Yaml, envSpecs: set<string>,
                       defaultEnvSpec: Option<string>): (r: Scan)
    ensures r.failed == CommandsFail(section, metaAppEntry, envSpecs)
    ensures r.problems == [] <==> !r.failed
    ensures AppEntryBad(metaAppEntry) || !section.YMap? ==> r.commands == map[]
    ensures !AppEntryBad(metaAppEntry) && section.YMap? ==> r.commands.Keys == ValidPrefixNames(section.entries, envSpecs)
    ensures !r.failed ==> r.commands.Keys == SectionNames(section)
    ensures KeyedByName(r.commands)
    ensures section.YMap? ==> forall n :: n in r.commands ==>
              AttributesFrom(section.entries, n, r.commands[n].attributes, defaultEnvSpec)
    ensures AppEntryBad(metaAppEntry) ==> r.problems[0] == Message(AppEntryNotString(metaAppEntry))
    ensures !section.YNull? && !section.YMap? ==> r.problems[|r.problems| - 1] == Message(CommandsNotDict(section))
  {
    var appBad := AppEntryBad(metaAppEntry);
    var appProblems := if appBad then [Message(AppEntryNotString(metaAppEntry))] else [];
    if section.YNull? then Scan(appBad, map[], appProblems)
    else if !section.YMap? then Scan(true, map[], appProblems + [Message(CommandsNotDict(section))])
    else
      var r := ScanCommands(section.entries, envSpecs, defaultEnvSpec, Scan(appBad, map[], appProblems));
      assert !r.failed ==> r.commands.Keys == SectionNames(section) by {
        if !r.failed {
          AllValidKeepsEveryName(section.entries, envSpecs);
        }
      }
      r
  }

  datatype CommandsOutcome = CommandsOutcome(
    commands: map<string, Command>,
    defaultCommand: Option<string>,
    problems: seq<RawProblem>)

  /** `_update_commands`. The meta.yaml app entry, the env spec names, the
      default env spec and the project directory's file listing are inputs. */
  function UpdateCommands(root: seq<(string, Yaml)>, metaAppEntry: Yaml, envSpecs: set<string>,
                          defaultEnvSpec: Option<string>, listing: Option<seq<string>>): (r: CommandsOutcome)
    ensures var section := Get(root, "commands", YNull);
            && (r.problems == [] <==> !CommandsFail(section, metaAppEntry, envSpecs))
            && (CommandsFail(section, metaAppEntry, envSpecs) ==> r.commands == map[])
    ensures "default" in r.commands ==> r.defaultCommand == Some("default")
    ensures var section := Get(root, "commands", YNull);
            "default" !in r.commands && section.YMap? && FirstCommandName(section.entries).Some? ==>
              r.defaultCommand == FirstCommandName(section.entries)
    ensures !CommandsFail(Get(root, "commands", YNull), metaAppEntry, envSpecs) ==> KeyedByName(r.commands)
  {
    var section := Get(root, "commands", YNull);
    var scan := ScanSection(section, metaAppEntry, envSpecs, defaultEnvSpec);
    var first := if section.YMap? then FirstCommandName(section.entries) else None;
    var local := AddNotebookCommands(scan.commands, listing, defaultEnvSpec);
    var kept :=
      if scan.failed then local
      else if metaAppEntry.YStr? && local == map[] then map["default" := MetaCommand(metaAppEntry.s, defaultEnvSpec)]
      else local;
    var final := if scan.failed then map[] else kept;
    var firstName := if first.None? && kept != map[] then Some(Least(kept.Keys)) else first;
    CommandsOutcome(final, if "default" in final then Some("default") else firstName, scan.problems)
  }

  /** Without a failure, the commands are the section's entries and the
      listed notebooks, or else only the meta.yaml app entry's command. */
  lemma UpdatedCommandNames(root: seq<(string, Yaml)>, metaAppEntry: Yaml, envSpecs: set<string>,
                            defaultEnvSpec: Option<string>, listing: Option<seq<string>>)
    requires !CommandsFail(Get(root, "commands", YNull), metaAppEntry, envSpecs)
    ensures var section := Get(root, "commands", YNull);
            var r := UpdateCommands(root, metaAppEntry, envSpecs, defaultEnvSpec, listing);
            r.commands.Keys ==
              if metaAppEntry.YStr? && SectionNames(section) == {} && NotebookNames(listing) == {} then {"default"}
              else SectionNames(section) + NotebookNames(listing)
  {
  }

  /** Without a failure, a section entry is stored under its name with its
      attributes and the defaulted `env_spec`, and a listed notebook that
      no entry names gets a generated notebook command. */
  lemma UpdatedCommandContents(root: seq<(string, Yaml)>, metaAppEntry: Yaml, envSpecs: set<string>,
                               defaultEnvSpec: Option<string>, listing: Option<seq<string>>)
    requires !CommandsFail(Get(root, "commands", YNull), metaAppEntry, envSpecs)
    ensures var section := Get(root, "commands", YNull);
            var r := UpdateCommands(root, metaAppEntry, envSpecs, defaultEnvSpec, listing);
            && (section.YMap? ==> forall n :: n in SectionNames(section) ==>
                  AttributesFrom(section.entries, n, r.commands[n].attributes, defaultEnvSpec))
            && (forall f :: f in NotebookNames(listing) && f !in SectionNames(section) ==>
                  r.commands[f] == NotebookCommand(f, defaultEnvSpec))
  {
  }

  /** With no section entries, no listed notebooks and a string app entry,
      the only command is the app entry's, and it is the default. */
  lemma MetaAppEntryIsDefault(root: seq<(string, Yaml)>, metaAppEntry: Yaml, envSpecs: set<string>,
                              defaultEnvSpec: Option<string>, listing: Option<seq<string>>)
    requires !CommandsFail(Get(root, "commands", YNull), metaAppEntry, envSpecs)
    requires metaAppEntry.YStr? && SectionNames(Get(root, "commands", YNull)) == {} && NotebookNames(listing) == {}
    ensures var r := UpdateCommands(root, metaAppEntry, envSpecs, defaultEnvSpec, listing);
            r.commands == map["default" := MetaCommand(metaAppEntry.s, defaultEnvSpec)] && r.defaultCommand == Some("default")
  {
  }

  /** Without a failure, there is a default command exactly when there is
      a command, and it is one of them: `default` if present, else the
      first listed entry, else the least name in sort order. */
  lemma DefaultCommandIsACommand(root: seq<(string, Yaml)>, metaAppEntry: Yaml, envSpecs: set<string>,
                                 defaultEnvSpec: Option<string>, listing: Option<seq<string>>)
    requires !CommandsFail(Get(root, "commands", YNull), metaAppEntry, envSpecs)
    ensures var section := Get(root, "commands", YNull);
            var r := UpdateCommands(root, metaAppEntry, envSpecs, defaultEnvSpec, listing);
            && (r.defaultCommand.Some? <==> r.commands != map[])
            && (r.defaultCommand.Some? ==> r.defaultCommand.value in r.commands)
            && ("default" !in r.commands && SectionNames(section) == {} && r.commands != map[] ==>
                  r.defaultCommand == Some(Least(r.commands.Keys)))
  {
    var section := Get(root, "commands", YNull);
    UpdatedCommandNames(root, metaAppEntry, envSpecs, defaultEnvSpec, listing);
    if section.YMap? {
      FirstCommandNameIsFirst(section.entries);
      if section.entries == [] {
        assert SectionNames(section) == {};
      } else {
        assert ValidCommand(section.entries[0].0, section.entries[0].1, envSpecs);
        assert section.entries[0].0 in SectionNames(section);
      }
    }
  }

  /** After a failure the commands are dropped, but the default command is
      still chosen, so it can name a command that does not exist: here
      `b` is not a mapping, and `a` stays the default. */
  lemma DefaultCommandAfterFailure()
    ensures var root := [("commands", YMap([("a", YMap([("unix", YStr("run"))])), ("b", YInt(3))]))];
            var r := UpdateCommands(root, YNull, {}, None, None);
            r.commands == map[] && r.defaultCommand == Some("a") && r.problems != []
  {
    var entries := [("a", YMap([("unix", YStr("run"))])), ("b", YInt(3))];
    var root := [("commands", YMap(entries))];
    assert Get(root, "commands", YNull) == YMap(entries);
    assert !AllValid(entries, {}) by {
      assert entries[1..][0] == ("b", YInt(3));
    }
    ExampleFirstName(entries);
  }

  lemma ExampleFirstName(entries: seq<(string, Yaml)>)
    requires |entries| > 0 && entries[0].0 == "a"
    ensures FirstCommandName(entries) == Some("a")
  {
    assert !IsBlank("a") by {
      assert !IsSpace('a');
    }
  }
}
