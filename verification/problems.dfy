/**
  Project problems. The configuration code collects problems either as plain
  messages or as ProjectProblem objects that may carry an automatic fix; a
  message here is the structured Issue it reports rather than its formatted
  text.
 */
module Problems {
  import opened Values

  /** What a problem reports, with the data its message interpolates. */
  datatype Issue =
    // project name
    | NameNotString(value: Yaml)
    | NameBlank
    | MetaNameNotString(value: Yaml)
    // env_specs section
    | NotAList(key: string, what: string, value: Yaml)
    | ItemNotString(key: string, what: string, item: Yaml)
    | InvalidPackageSpec(spec: string)
    | InvalidPipSpec(spec: string)
    | EnvSpecsNotDict(value: Yaml)
    | EmptyEnvSpecName(name: string)
    | EnvSpecDescriptionNotString(name: string)
    | InheritFromNotString(name: string)
    | CircularInheritance(trail: seq<string>)
    | InheritFromUnknown(name: string)
    | EnvFileSpecNotInProject(name: string, envFile: string)
    | EnvFileSpecOutOfSync(name: string, envFile: string)
    | EmptyEnvSpecs
    // commands section
    | AppEntryNotString(value: Yaml)
    | CommandsNotDict(value: Yaml)
    | EmptyCommandName(name: string)
    | CommandAttrsNotDict(name: string, value: Yaml)
    | CommandDescriptionNotString(name: string)
    | HttpOptionsNotBool(name: string)
    | CommandEnvSpecNotString(name: string)
    | CommandEnvSpecUnknown(name: string, envSpec: string)
    | CommandAttrNotString(name: string, attr: string, value: Yaml)
    | NoCommandLine(name: string)
    | MultipleCommands(name: string, exclusive: string, others: seq<string>)

  /** The automatic fix a problem offers (`fix_function`). */
  datatype FixAction =
    | NoFix
    | OverwriteEnvSpec(name: string, section: Yaml)
    | AddDefaultEnvSpec

  /** What happens when the user declines the fix (`no_fix_function`). */
  datatype DeclineAction =
    | NoDeclineAction
    | RememberSkippedImport(hash: string)

  datatype ProjectProblem = ProjectProblem(issue: Issue, fix: FixAction, decline: DeclineAction)

  /** An entry of the problem list as collected: a plain message or an object. */
  datatype RawProblem =
    | Message(issue: Issue)
    | Problem(problem: ProjectProblem)

  /** `ProjectProblem.can_fix` */
  function CanFix(p: ProjectProblem): (r: bool)
    ensures r <==> !p.fix.NoFix?
  {
    p.fix != NoFix
  }

  /** The issue an entry reports (`problem_strings`). */
  function IssueOf(p: RawProblem): Issue {
    match p
    case Message(issue) => issue
    case Problem(problem) => problem.issue
  }

  /** `_make_problems_into_objects(problems)`: objects stay as they are, each
      plain message becomes a problem without a fix. */
  method MakeProblemsIntoObjects(problems: seq<RawProblem>) returns (objects: seq<ProjectProblem>)
    ensures |objects| == |problems|
    ensures forall i :: 0 <= i < |problems| ==> objects[i].issue == IssueOf(problems[i])
    ensures forall i :: 0 <= i < |problems| && problems[i].Problem? ==> objects[i] == problems[i].problem
    ensures forall i :: 0 <= i < |problems| && problems[i].Message? ==>
              !CanFix(objects[i]) && objects[i].decline.NoDeclineAction?
  {
    objects := [];
    var k := 0;
    while k < |problems|
      invariant 0 <= k <= |problems|
      invariant |objects| == k
      invariant forall i :: 0 <= i < k ==> objects[i].issue == IssueOf(problems[i])
      invariant forall i :: 0 <= i < k && problems[i].Problem? ==> objects[i] == problems[i].problem
      invariant forall i :: 0 <= i < k && problems[i].Message? ==>
                  objects[i].fix.NoFix? && objects[i].decline.NoDeclineAction?
    {
      var next := match problems[k]
        case Problem(p) => p
        case Message(issue) => ProjectProblem(issue, NoFix, NoDeclineAction);
      objects := objects + [next];
      k := k + 1;
    }
  }
}
