/**
  How the project configuration turns its project file into a project name
  and a table of EnvSpecs: the name fallback chain, the lenient string-list
  parser, shared top-level packages, inheritance resolution with cycle
  detection, the environment.yml import decision and the default env spec.
 */
module ProjectEnvSpecs {
  import opened Values
  import opened Text
  import opened EnvSpecs
  import opened EnvironmentYml
  import opened Problems

  // ---------------------------------------------------------------------
  // Project name
  // ---------------------------------------------------------------------

  datatype NameOutcome = NameOutcome(name: string, problems: seq<RawProblem>)

  /** A project-file `name` that is kept: a string that is not blank. */
  predicate UsableName(v: Yaml) {
    v.YStr? && !IsBlank(v.s)
  }

  /** `_update_name`: the project file's name, else a string conda-meta name,
      else the directory's base name; each rejected value is reported once. */
  function UpdateName(root: seq<(string, Yaml)>, metaName: Yaml, directoryPath: string): (r: NameOutcome)
    ensures var v := Get(root, "name", YNull);
            && (UsableName(v) ==> r.name == v.s && r.problems == [])
            && (!UsableName(v) && metaName.YStr? ==> r.name == metaName.s)
            && (!UsableName(v) && !metaName.YStr? ==> r.name == Basename(directoryPath))
            && |r.problems| == (if v.YNull? || UsableName(v) then 0 else 1)
                               + (if UsableName(v) || metaName.YNull? || metaName.YStr? then 0 else 1)
            && (v.YStr? && IsBlank(v.s) ==> r.problems[0] == Message(NameBlank))
            && (!v.YNull? && !v.YStr? ==> r.problems[0] == Message(NameNotString(v)))
            && (!UsableName(v) && !metaName.YNull? && !metaName.YStr? ==>
                  r.problems[|r.problems| - 1] == Message(MetaNameNotString(metaName)))
  {
    var v := Get(root, "name", YNull);
    var rejected :=
      if v.YNull? then []
      else if !v.YStr? then [Message(NameNotString(v))]
      else if IsBlank(v.s) then [Message(NameBlank)]
      else [];
    if UsableName(v) then NameOutcome(v.s, [])
    else if metaName.YStr? then NameOutcome(metaName.s, rejected)
    else if metaName.YNull? then NameOutcome(Basename(directoryPath), rejected)
    else NameOutcome(Basename(directoryPath), rejected + [Message(MetaNameNotString(metaName))])
  }

  // ---------------------------------------------------------------------
  // String lists with special items
  // ---------------------------------------------------------------------

  datatype ListParse = ListParse(cleaned: seq<string>, special: seq<Yaml>, problems: seq<RawProblem>)

  /** The loop of `_parse_string_list_with_special`: strings are stripped into
      `cleaned`, items the filter accepts go to `special`, anything else is
      reported. */
  function SortItems(items: seq<Yaml>, key: string, what: string, special: Yaml -> bool): (r: ListParse)
    ensures |r.cleaned| + |r.special| + |r.problems| == |items|
    ensures r.cleaned == StripAll(StringItems(items))
    ensures forall x :: x in r.special <==> x in items && !x.YStr? && special(x)
    decreases |items|
  {
    if |items| == 0 then ListParse([], [], [])
    else
      var rest := SortItems(items[1..], key, what, special);
      var x := items[0];
      if x.YStr? then
        ListParse([Strip(x.s)] + rest.cleaned, rest.special, rest.problems)
      else if special(x) then
        ListParse(rest.cleaned, [x] + rest.special, rest.problems)
      else
        ListParse(rest.cleaned, rest.special, [Message(ItemNotString(key, what, x))] + rest.problems)
  }

  /** The problems of the loop each report an item of the list that is
      neither a string nor special, under the list's key. */
  lemma {:induction false} SortItemsProblems(items: seq<Yaml>, key: string, what: string, special: Yaml -> bool)
    ensures var r := SortItems(items, key, what, special);
            forall p :: p in r.problems ==>
              && p.Message? && p.issue.ItemNotString? && p.issue.key == key
              && p.issue.item in items && !p.issue.item.YStr? && !special(p.issue.item)
    decreases |items|
  {
    if |items| > 0 {
      SortItemsProblems(items[1..], key, what, special);
      var rest: seq<RawProblem> := SortItems(items[1..], key, what, special).problems;
      var x := items[0];
      var added: seq<RawProblem> := if x.YStr? || special(x) then [] else [Message(ItemNotString(key, what, x))];
      assert SortItems(items, key, what, special).problems == added + rest;
      forall p: RawProblem | p in added + rest
        ensures p.Message? && p.issue.ItemNotString? && p.issue.key == key
        ensures p.issue.item in items && !p.issue.item.YStr? && !special(p.issue.item)
      {
        if p in rest {
          assert p.issue.item in items[1..];
        }
      }
    }
  }

  lemma ConcatAssoc<T>(a: seq<T>, b: seq<T>, c: seq<T>)
    ensures a + (b + c) == (a + b) + c
  {
  }

  lemma {:induction false} SortItemsAppend(a: seq<Yaml>, b: seq<Yaml>, key: string, what: string, special: Yaml -> bool)
    ensures SortItems(a + b, key, what, special).cleaned
            == SortItems(a, key, what, special).cleaned + SortItems(b, key, what, special).cleaned
    ensures SortItems(a + b, key, what, special).special
            == SortItems(a, key, what, special).special + SortItems(b, key, what, special).special
    ensures SortItems(a + b, key, what, special).problems
            == SortItems(a, key, what, special).problems + SortItems(b, key, what, special).problems
    decreases |a|
  {
    if |a| == 0 {
      assert a + b == b;
    } else {
      assert (a + b)[1..] == a[1..] + b;
      SortItemsAppend(a[1..], b, key, what, special);
      var restA := SortItems(a[1..], key, what, special);
      var restB := SortItems(b, key, what, special);
      if a[0].YStr? {
        ConcatAssoc([Strip(a[0].s)], restA.cleaned, restB.cleaned);
      } else if special(a[0]) {
        ConcatAssoc([a[0]], restA.special, restB.special);
      } else {
        ConcatAssoc([Message(ItemNotString(key, what, a[0]))], restA.problems, restB.problems);
      }
    }
  }

  /** A list of already-stripped strings parses back to itself, with nothing
      special and nothing reported. */
  lemma {:induction false} SortStrippedStrings(ss: seq<string>, key: string, what: string, special: Yaml -> bool)
    requires forall i :: 0 <= i < |ss| ==> IsStripped(ss[i])
    ensures SortItems(AsStrings(ss), key, what, special) == ListParse(ss, [], [])
    decreases |ss|
  {
    if |ss| > 0 {
      assert AsStrings(ss)[1..] == AsStrings(ss[1..]);
      SortStrippedStrings(ss[1..], key, what, special);
      StripAllStripped(ss);
      StringItemsOfStrings(ss);
      assert [ss[0]] + ss[1..] == ss;
    }
  }

  /** `_parse_string_list_with_special(parent, key, what, special)`: a missing
      key is an empty list; a value that is not a list gives nothing and one
      problem; otherwise the items are sorted as above. */
  function ParseStringListWithSpecial(parent: seq<(string, Yaml)>, key: string, what: string,
                                      special: Yaml -> bool): (r: ListParse)
    ensures var v := Get(parent, key, YList([]));
            && (!v.YList? ==> r == ListParse([], [], [Message(NotAList(key, what, v))]))
            && (v.YList? ==> |r.cleaned| + |r.special| + |r.problems| == |v.items|
                             && r.cleaned == StripAll(StringItems(v.items))
                             && (forall x :: x in r.special <==> x in v.items && !x.YStr? && special(x)))
    ensures forall i :: 0 <= i < |r.cleaned| ==> IsStripped(r.cleaned[i])
  {
    var v := Get(parent, key, YList([]));
    if !v.YList? then ListParse([], [], [Message(NotAList(key, what, v))])
    else
      var r := SortItems(v.items, key, what, special);
      StripAllEntries(StringItems(v.items));
      r
  }

  /** The filter of `_parse_string_list`: nothing is special. */
  function NothingSpecial(x: Yaml): bool { false }

  /** `_parse_channels`: the stripped strings of `channels`, with nothing
      set aside as special. */
  function ParseChannels(parent: seq<(string, Yaml)>): (r: ListParse)
    ensures r.special == []
    ensures var v := Get(parent, "channels", YList([]));
            && (!v.YList? ==> r.cleaned == [] && r.problems == [Message(NotAList("channels", "channel name", v))])
            && (v.YList? ==> r.cleaned == StripAll(StringItems(v.items)) && |r.cleaned| + |r.problems| == |v.items|)
  {
    var v := Get(parent, "channels", YList([]));
    if v.YList? then
      SortNothingSpecial(v.items, "channels", "channel name");
      ParseStringListWithSpecial(parent, "channels", "channel name", NothingSpecial)
    else
      ParseStringListWithSpecial(parent, "channels", "channel name", NothingSpecial)
  }

  /** With the filter of `_parse_string_list`, no item is set aside. */
  lemma {:induction false} SortNothingSpecial(items: seq<Yaml>, key: string, what: string)
    ensures SortItems(items, key, what, NothingSpecial).special == []
    decreases |items|
  {
    if |items| > 0 {
      SortNothingSpecial(items[1..], key, what);
    }
  }

  // ---------------------------------------------------------------------
  // Packages
  // ---------------------------------------------------------------------

  /** The special items of a packages list: `{pip: ...}` dictionaries. */
  function IsPipDict(x: Yaml): bool {
    x.YMap? && HasKey(x.entries, "pip")
  }

  datatype PackageParse = PackageParse(conda: seq<string>, pip: seq<string>, problems: seq<RawProblem>)

  /** The `pip:` lists of several dictionaries, concatenated in order. */
  function PipFromDicts(dicts: seq<Yaml>): (r: ListParse)
    requires forall i :: 0 <= i < |dicts| ==> dicts[i].YMap?
    ensures r.special == []
    ensures forall i :: 0 <= i < |r.cleaned| ==> IsStripped(r.cleaned[i])
    decreases |dicts|
  {
    if |dicts| == 0 then ListParse([], [], [])
    else
      var first := ParseStringListWithSpecial(dicts[0].entries, "pip", "pip package name", NothingSpecial);
      var rest := PipFromDicts(dicts[1..]);
      ListParse(first.cleaned + rest.cleaned, [], first.problems + rest.problems)
  }

  /** Several `pip:` dictionaries contribute their packages in the order the
      dictionaries are listed. */
  lemma {:induction false} PipFromDictsAppend(a: seq<Yaml>, b: seq<Yaml>)
    requires forall i :: 0 <= i < |a| ==> a[i].YMap?
    requires forall i :: 0 <= i < |b| ==> b[i].YMap?
    ensures PipFromDicts(a + b).cleaned == PipFromDicts(a).cleaned + PipFromDicts(b).cleaned
    ensures PipFromDicts(a + b).problems == PipFromDicts(a).problems + PipFromDicts(b).problems
    decreases |a|
  {
    if |a| == 0 {
      assert a + b == b;
    } else {
      assert (a + b)[1..] == a[1..] + b;
      PipFromDictsAppend(a[1..], b);
      var first := ParseStringListWithSpecial(a[0].entries, "pip", "pip package name", NothingSpecial);
      ConcatAssoc(first.cleaned, PipFromDicts(a[1..]).cleaned, PipFromDicts(b).cleaned);
      ConcatAssoc(first.problems, PipFromDicts(a[1..]).problems, PipFromDicts(b).problems);
    }
  }

  /** One problem per spec the package-spec parser rejects, in order. */
  function InvalidSpecs(specs: seq<string>, valid: string -> bool, pip: bool): (r: seq<RawProblem>)
    ensures |r| <= |specs|
    ensures (forall i :: 0 <= i < |specs| ==> valid(specs[i])) <==> r == []
    ensures forall s :: s in specs && !valid(s) ==>
              Message(if pip then InvalidPipSpec(s) else InvalidPackageSpec(s)) in r
    decreases |specs|
  {
    if |specs| == 0 then []
    else
      var rest := InvalidSpecs(specs[1..], valid, pip);
      assert forall i :: 1 <= i < |specs| ==> specs[i] == specs[1..][i - 1];
      if valid(specs[0]) then rest
      else [Message(if pip then InvalidPipSpec(specs[0]) else InvalidPackageSpec(specs[0]))] + rest
  }

  /** The message `_parse_packages` gives for a rejected spec. */
  function SpecProblem(s: string, pip: bool): RawProblem {
    Message(if pip then InvalidPipSpec(s) else InvalidPackageSpec(s))
  }

  /** Every problem reported is about a rejected spec of the list. */
  lemma {:induction false} InvalidSpecsSound(specs: seq<string>, valid: string -> bool, pip: bool)
    ensures forall p :: p in InvalidSpecs(specs, valid, pip) ==> exists s :: RejectedAs(specs, valid, s, pip, p)
    decreases |specs|
  {
    if |specs| > 0 {
      InvalidSpecsSound(specs[1..], valid, pip);
      forall p | p in InvalidSpecs(specs, valid, pip) ensures exists s :: RejectedAs(specs, valid, s, pip, p) {
        if p in InvalidSpecs(specs[1..], valid, pip) {
          var s :| RejectedAs(specs[1..], valid, s, pip, p);
          assert RejectedAs(specs, valid, s, pip, p);
        } else {
          assert RejectedAs(specs, valid, specs[0], pip, p);
        }
      }
    }
  }

  /** `p` is the problem for the rejected spec `s` of the list. */
  predicate RejectedAs(specs: seq<string>, valid: string -> bool, s: string, pip: bool, p: RawProblem) {
    s in specs && !valid(s) && p == SpecProblem(s, pip)
  }

  /** A single spec gives no problem when it parses and its own problem
      otherwise. */
  lemma InvalidSpecsOne(s: string, valid: string -> bool, pip: bool)
    ensures InvalidSpecs([s], valid, pip) == if valid(s) then [] else [SpecProblem(s, pip)]
  {
    assert [s][1..] == [];
  }

  /** The problems for two lists of specs are those of the first followed by
      those of the second: with the one-spec case, exactly one problem per
      rejected spec, in the order of the specs. */
  lemma {:induction false} InvalidSpecsAppend(a: seq<string>, b: seq<string>, valid: string -> bool, pip: bool)
    ensures InvalidSpecs(a + b, valid, pip) == InvalidSpecs(a, valid, pip) + InvalidSpecs(b, valid, pip)
    decreases |a|
  {
    if |a| == 0 {
      assert a + b == b;
    } else {
      assert (a + b)[1..] == a[1..] + b;
      InvalidSpecsAppend(a[1..], b, valid, pip);
    }
  }

  lemma InSecondOfFour<T>(x: T, a: seq<T>, b: seq<T>, c: seq<T>, d: seq<T>)
    requires x in b
    ensures x in a + b + c + d
  {
  }

  lemma InFourthOfFour<T>(x: T, a: seq<T>, b: seq<T>, c: seq<T>, d: seq<T>)
    requires x in d
    ensures x in a + b + c + d
  {
  }

  /** `_parse_packages(parent)`: conda specs are the strings of `packages`;
      pip specs come from its `{pip: [...]}` entries; the package-spec
      parsers are parameters. */
  function ParsePackages(parent: seq<(string, Yaml)>, validConda: string -> bool, validPip: string -> bool): (r: PackageParse)
    ensures var listed := ParseStringListWithSpecial(parent, "packages", "package name", IsPipDict);
            r.conda == listed.cleaned && listed.problems <= r.problems
    ensures forall i :: 0 <= i < |r.conda| ==> IsStripped(r.conda[i])
    ensures forall i :: 0 <= i < |r.pip| ==> IsStripped(r.pip[i])
    ensures forall s :: s in r.conda && !validConda(s) ==> Message(InvalidPackageSpec(s)) in r.problems
    ensures forall s :: s in r.pip && !validPip(s) ==> Message(InvalidPipSpec(s)) in r.problems
  {
    var listed := ParseStringListWithSpecial(parent, "packages", "package name", IsPipDict);
    PipDictsAreMaps(listed.special);
    var pip := PipFromDicts(listed.special);
    var badConda := InvalidSpecs(listed.cleaned, validConda, false);
    var badPip := InvalidSpecs(pip.cleaned, validPip, true);
    var problems := listed.problems + badConda + pip.problems + badPip;
    assert listed.problems <= problems;
    forall s | s in listed.cleaned && !validConda(s) ensures Message(InvalidPackageSpec(s)) in problems {
      InSecondOfFour(Message(InvalidPackageSpec(s)), listed.problems, badConda, pip.problems, badPip);
    }
    forall s | s in pip.cleaned && !validPip(s) ensures Message(InvalidPipSpec(s)) in problems {
      InFourthOfFour(Message(InvalidPipSpec(s)), listed.problems, badConda, pip.problems, badPip);
    }
    PackageParse(listed.cleaned, pip.cleaned, problems)
  }

  /** The items `_parse_packages` sets aside are the `{pip: [...]}`
      mappings. */
  lemma PipDictsAreMaps(special: seq<Yaml>)
    requires forall v :: v in special ==> IsPipDict(v)
    ensures forall i :: 0 <= i < |special| ==> special[i].YMap?
  {
    forall i | 0 <= i < |special| ensures special[i].YMap? {
      assert special[i] in special;
    }
  }

  /** The whole result of `_parse_packages`, in order: the pip specs are
      those of the `{pip: [...]}` entries in turn, and the problems are the
      list's own, then one per rejected conda spec, then those of the pip
      entries, then one per rejected pip spec. */
  lemma ParsePackagesInOrder(parent: seq<(string, Yaml)>, validConda: string -> bool, validPip: string -> bool)
    ensures var listed := ParseStringListWithSpecial(parent, "packages", "package name", IsPipDict);
            var r := ParsePackages(parent, validConda, validPip);
            && (forall i :: 0 <= i < |listed.special| ==> listed.special[i].YMap?)
            && r.conda == listed.cleaned
            && r.pip == PipFromDicts(listed.special).cleaned
            && r.problems == listed.problems + InvalidSpecs(r.conda, validConda, false)
                             + PipFromDicts(listed.special).problems + InvalidSpecs(r.pip, validPip, true)
  {
    var listed := ParseStringListWithSpecial(parent, "packages", "package name", IsPipDict);
    PipDictsAreMaps(listed.special);
  }

  lemma SortPipTail(pip: seq<string>)
    ensures SortItems(PipTail(pip), "packages", "package name", IsPipDict) == ListParse([], PipTail(pip), [])
  {
    if pip != [] {
      assert IsPipDict(PipEntry(pip));
      assert PipTail(pip)[1..] == [];
    }
  }

  /** The packages list `to_json` writes sorts back into its conda strings
      and its pip entry. */
  lemma SortPackagesBack(conda: seq<string>, pip: seq<string>)
    requires forall i :: 0 <= i < |conda| ==> IsStripped(conda[i])
    ensures SortItems(AsStrings(conda) + PipTail(pip), "packages", "package name", IsPipDict)
            == ListParse(conda, PipTail(pip), [])
  {
    var strings := SortItems(AsStrings(conda), "packages", "package name", IsPipDict);
    var tail := SortItems(PipTail(pip), "packages", "package name", IsPipDict);
    var all := SortItems(AsStrings(conda) + PipTail(pip), "packages", "package name", IsPipDict);
    assert strings == ListParse(conda, [], []) by {
      SortStrippedStrings(conda, "packages", "package name", IsPipDict);
    }
    assert tail == ListParse([], PipTail(pip), []) by {
      SortPipTail(pip);
    }
    assert all == ListParse(strings.cleaned + tail.cleaned, strings.special + tail.special,
                            strings.problems + tail.problems) by {
      SortItemsAppend(AsStrings(conda), PipTail(pip), "packages", "package name", IsPipDict);
    }
    assert conda + [] == conda && [] + PipTail(pip) == PipTail(pip);
  }

  /** The `pip:` list of the entry `to_json` writes parses as its strings. */
  lemma PipEntryParses(pip: seq<string>)
    requires forall i :: 0 <= i < |pip| ==> IsStripped(pip[i])
    ensures ParseStringListWithSpecial(PipEntry(pip).entries, "pip", "pip package name", NothingSpecial)
            == ListParse(pip, [], [])
  {
    SortStrippedStrings(pip, "pip", "pip package name", NothingSpecial);
    assert Get(PipEntry(pip).entries, "pip", YList([])) == YList(AsStrings(pip));
  }

  /** One dictionary contributes exactly its own `pip:` list. */
  lemma PipFromOneDict(d: Yaml)
    requires d.YMap?
    ensures PipFromDicts([d]).cleaned
            == ParseStringListWithSpecial(d.entries, "pip", "pip package name", NothingSpecial).cleaned
    ensures PipFromDicts([d]).problems
            == ParseStringListWithSpecial(d.entries, "pip", "pip package name", NothingSpecial).problems
  {
    assert [d][1..] == [];
    var first := ParseStringListWithSpecial(d.entries, "pip", "pip package name", NothingSpecial);
    assert first.cleaned + [] == first.cleaned;
    assert first.problems + [] == first.problems;
  }

  /** The pip entry `to_json` writes reads back as its pip strings. */
  lemma PipTailBack(pip: seq<string>)
    requires forall i :: 0 <= i < |pip| ==> IsStripped(pip[i])
    ensures PipFromDicts(PipTail(pip)) == ListParse(pip, [], [])
  {
    if pip != [] {
      PipEntryParses(pip);
      PipFromOneDict(PipEntry(pip));
    }
  }

  /** A section written from stripped, accepted lists reads back as those
      lists and that parent name, with no problem. */
  lemma SectionJsonReadsBack(conda: seq<string>, channels: seq<string>, pip: seq<string>,
                             inheritFromName: Option<string>, validConda: string -> bool, validPip: string -> bool)
    requires forall i :: 0 <= i < |conda| ==> IsStripped(conda[i]) && validConda(conda[i])
    requires forall i :: 0 <= i < |pip| ==> IsStripped(pip[i]) && validPip(pip[i])
    requires forall i :: 0 <= i < |channels| ==> IsStripped(channels[i])
    ensures var section := SectionJson(conda, channels, pip, inheritFromName).entries;
            && ParsePackages(section, validConda, validPip) == PackageParse(conda, pip, [])
            && ParseChannels(section) == ListParse(channels, [], [])
            && Get(section, "inherit_from", YNull) == FromOption(inheritFromName)
  {
    SortStrippedStrings(channels, "channels", "channel name", NothingSpecial);
    SortPackagesBack(conda, pip);
    PipTailBack(pip);
    assert InvalidSpecs(conda, validConda, false) == [];
    assert InvalidSpecs(pip, validPip, true) == [];
  }

  /** What `to_json` writes reads back, through the project file's parser,
      as the same effective lists and parent name, with no problem, when
      every entry is already stripped and accepted by the package-spec
      parsers. */
  lemma ToJsonReadsBack(s: EnvSpec, validConda: string -> bool, validPip: string -> bool)
    requires forall k: ListKind, i :: 0 <= i < |Effective(s, k)| ==> IsStripped(Effective(s, k)[i])
    requires forall i :: 0 <= i < |Effective(s, Conda)| ==> validConda(Effective(s, Conda)[i])
    requires forall i :: 0 <= i < |Effective(s, Pip)| ==> validPip(Effective(s, Pip)[i])
    ensures var section := ToJson(s).entries;
            && ParsePackages(section, validConda, validPip) == PackageParse(Effective(s, Conda), Effective(s, Pip), [])
            && ParseChannels(section) == ListParse(Effective(s, Channels), [], [])
            && Get(section, "inherit_from", YNull) == FromOption(s.inheritFromName)
  {
    var conda := Effective(s, Conda);
    var pip := Effective(s, Pip);
    var channels := Effective(s, Channels);
    assert forall i :: 0 <= i < |conda| ==> IsStripped(conda[i]);
    assert forall i :: 0 <= i < |pip| ==> IsStripped(pip[i]);
    assert forall i :: 0 <= i < |channels| ==> IsStripped(channels[i]);
    SectionJsonReadsBack(conda, channels, pip, s.inheritFromName, validConda, validPip);
  }

  // ---------------------------------------------------------------------
  // Collecting the env_specs section
  // ---------------------------------------------------------------------

  /** The attributes an accepted env spec is built from. */
  datatype SpecAttrs = SpecAttrs(
    name: string,
    conda: seq<string>,
    channels: seq<string>,
    pip: seq<string>,
    description: Option<string>,
    inheritFromName: Option<string>)

  /** The top-level packages, pip packages and channels every spec starts with. */
  datatype Shared = Shared(conda: seq<string>, channels: seq<string>, pip: seq<string>)

  predicate StringOrNull(v: Yaml) {
    v.YNull? || v.YStr?
  }

  function OptionalString(v: Yaml): (r: Option<string>)
    requires StringOrNull(v)
    ensures FromOption(r) == v
  {
    if v.YStr? then Some(v.s) else None
  }

  /** An env_specs entry is kept when its name is not blank and its
      description and inherit_from are strings or absent. */
  predicate Accepted(entry: (string, Yaml)) {
    && !IsBlank(entry.0)
    && entry.1.YMap?
    && StringOrNull(Get(entry.1.entries, "description", YNull))
    && StringOrNull(Get(entry.1.entries, "inherit_from", YNull))
  }

  /** Every non-blank name maps to attributes (the source calls `attrs.get`). */
  predicate EntriesUsable(entries: seq<(string, Yaml)>) {
    forall i :: 0 <= i < |entries| && !IsBlank(entries[i].0) ==> entries[i].1.YMap?
  }

  /** The env_specs entries that are kept, in the section's order. */
  function AcceptedEntries(entries: seq<(string, Yaml)>): (r: seq<(string, Yaml)>)
    ensures |r| <= |entries|
    ensures forall e :: e in r <==> e in entries && Accepted(e)
    ensures forall k :: 0 <= k < |r| ==> Accepted(r[k])
    ensures Subsequence(r, entries)
    decreases |entries|
  {
    if |entries| == 0 then []
    else if Accepted(entries[0]) then [entries[0]] + AcceptedEntries(entries[1..])
    else AcceptedEntries(entries[1..])
  }

  /** The kept names are exactly the names of acceptable entries. */
  lemma {:induction false} AcceptedNames(entries: seq<(string, Yaml)>, n: string)
    ensures n in KeysOf(AcceptedEntries(entries)) <==>
            exists i :: 0 <= i < |entries| && entries[i].0 == n && Accepted(entries[i])
  {
    var kept := AcceptedEntries(entries);
    if n in KeysOf(kept) {
      var k :| 0 <= k < |kept| && KeysOf(kept)[k] == n;
      assert kept[k] in kept;
      var i :| 0 <= i < |entries| && entries[i] == kept[k];
    }
    if exists i :: 0 <= i < |entries| && entries[i].0 == n && Accepted(entries[i]) {
      var i :| 0 <= i < |entries| && entries[i].0 == n && Accepted(entries[i]);
      assert entries[i] in kept;
      var k :| 0 <= k < |kept| && kept[k] == entries[i];
      assert KeysOf(kept)[k] == n;
    }
  }

  /** The first kept entry is the first acceptable one, so it names the
      fallback default env spec. */
  lemma {:induction false} FirstAcceptedEntry(entries: seq<(string, Yaml)>)
    ensures AcceptedEntries(entries) == [] <==> NoneAccepted(entries)
    ensures AcceptedEntries(entries) != [] ==>
              exists i :: FirstAcceptedAt(entries, i) && entries[i] == AcceptedEntries(entries)[0]
    decreases |entries|
  {
    var kept := AcceptedEntries(entries);
    if kept != [] {
      assert kept[0] in kept;
    }
    if |entries| > 0 {
      if Accepted(entries[0]) {
        assert FirstAcceptedAt(entries, 0);
      } else if kept != [] {
        FirstAcceptedEntry(entries[1..]);
        var i :| FirstAcceptedAt(entries[1..], i) && entries[1..][i] == AcceptedEntries(entries[1..])[0];
        FirstAcceptedShift(entries, i);
      }
    }
  }

  /** No entry of the section is acceptable. */
  predicate NoneAccepted(entries: seq<(string, Yaml)>) {
    forall i :: 0 <= i < |entries| ==> !Accepted(entries[i])
  }

  /** `entries[i]` is acceptable and no entry before it is. */
  predicate FirstAcceptedAt(entries: seq<(string, Yaml)>, i: int) {
    0 <= i < |entries| && Accepted(entries[i]) && forall j :: 0 <= j < i ==> !Accepted(entries[j])
  }

  lemma FirstAcceptedShift(entries: seq<(string, Yaml)>, i: int)
    requires |entries| > 0 && !Accepted(entries[0]) && FirstAcceptedAt(entries[1..], i)
    ensures FirstAcceptedAt(entries, i + 1) && entries[i + 1] == entries[1..][i]
  {
    forall j | 0 <= j < i + 1 ensures !Accepted(entries[j]) {
      if j > 0 {
        assert entries[j] == entries[1..][j - 1];
      }
    }
  }

  /** The attributes of a kept entry: the shared lists come first, then the
      entry's own. */
  function AttrsOf(entry: (string, Yaml), shared: Shared, validConda: string -> bool, validPip: string -> bool): (a: SpecAttrs)
    requires Accepted(entry)
    ensures a.name == entry.0
    ensures shared.conda <= a.conda && shared.pip <= a.pip && shared.channels <= a.channels
    ensures a.conda[|shared.conda|..] == ParsePackages(entry.1.entries, validConda, validPip).conda
    ensures a.pip[|shared.pip|..] == ParsePackages(entry.1.entries, validConda, validPip).pip
    ensures a.channels[|shared.channels|..] == ParseChannels(entry.1.entries).cleaned
    ensures FromOption(a.description) == Get(entry.1.entries, "description", YNull)
    ensures FromOption(a.inheritFromName) == Get(entry.1.entries, "inherit_from", YNull)
  {
    var attrs := entry.1.entries;
    var own := ParsePackages(attrs, validConda, validPip);
    var channels := ParseChannels(attrs).cleaned;
    assert (shared.conda + own.conda)[|shared.conda|..] == own.conda;
    assert (shared.pip + own.pip)[|shared.pip|..] == own.pip;
    assert (shared.channels + channels)[|shared.channels|..] == channels;
    SpecAttrs(entry.0, shared.conda + own.conda, shared.channels + channels, shared.pip + own.pip,
              OptionalString(Get(attrs, "description", YNull)), OptionalString(Get(attrs, "inherit_from", YNull)))
  }

  /** The problems one env_specs entry reports: why it was rejected, or
      those of its own lists. */
  function EntryProblems(entry: (string, Yaml), validConda: string -> bool, validPip: string -> bool): (r: seq<RawProblem>)
    requires !IsBlank(entry.0) ==> entry.1.YMap?
    ensures IsBlank(entry.0) ==> r == [Message(EmptyEnvSpecName(entry.0))]
    ensures !IsBlank(entry.0) && !StringOrNull(Get(entry.1.entries, "description", YNull)) ==>
              r == [Message(EnvSpecDescriptionNotString(entry.0))]
    ensures !IsBlank(entry.0) && StringOrNull(Get(entry.1.entries, "description", YNull))
            && !StringOrNull(Get(entry.1.entries, "inherit_from", YNull)) ==>
              r == [Message(InheritFromNotString(entry.0))]
    ensures Accepted(entry) ==>
              r == ParsePackages(entry.1.entries, validConda, validPip).problems + ParseChannels(entry.1.entries).problems
  {
    var (name, attrs) := entry;
    if IsBlank(name) then [Message(EmptyEnvSpecName(name))]
    else if !StringOrNull(Get(attrs.entries, "description", YNull)) then [Message(EnvSpecDescriptionNotString(name))]
    else if !StringOrNull(Get(attrs.entries, "inherit_from", YNull)) then [Message(InheritFromNotString(name))]
    else ParsePackages(attrs.entries, validConda, validPip).problems + ParseChannels(attrs.entries).problems
  }

  function NamesOf(accepted: seq<SpecAttrs>): (r: seq<string>)
    ensures |r| == |accepted|
    ensures forall i :: 0 <= i < |accepted| ==> r[i] == accepted[i].name
    decreases |accepted|
  {
    if |accepted| == 0 then [] else [accepted[0].name] + NamesOf(accepted[1..])
  }

  datatype Collected = Collected(accepted: seq<SpecAttrs>, problems: seq<RawProblem>)

  /** The attributes start with the lists every env spec shares. */
  predicate ExtendsShared(a: SpecAttrs, shared: Shared) {
    shared.conda <= a.conda && shared.pip <= a.pip && shared.channels <= a.channels
  }

  /** The kept names of a non-empty entry list: the first entry's name when it
      is kept, then those of the rest. */
  lemma AcceptedKeysCons(entries: seq<(string, Yaml)>)
    requires |entries| > 0
    ensures KeysOf(AcceptedEntries(entries))
            == (if Accepted(entries[0]) then [entries[0].0] else []) + KeysOf(AcceptedEntries(entries[1..]))
  {
    var rest := AcceptedEntries(entries[1..]);
    if Accepted(entries[0]) {
      assert KeysOf([entries[0]] + rest) == [entries[0].0] + KeysOf(rest);
    } else {
      assert [] + KeysOf(rest) == KeysOf(rest);
    }
  }

  /** Prepending kept attributes keeps the names in step and the shared
      prefix. */
  lemma CollectStep(a: SpecAttrs, rest: seq<SpecAttrs>, shared: Shared)
    requires ExtendsShared(a, shared)
    requires forall k :: 0 <= k < |rest| ==> ExtendsShared(rest[k], shared)
    ensures NamesOf([a] + rest) == [a.name] + NamesOf(rest)
    ensures forall k :: 0 <= k < |[a] + rest| ==> ExtendsShared(([a] + rest)[k], shared)
  {
    assert ([a] + rest)[1..] == rest;
  }

  /** `f` applied to every element, in order. */
  function MapAll<A, B>(s: seq<A>, f: A --> B): (r: seq<B>)
    requires forall k :: 0 <= k < |s| ==> f.requires(s[k])
    ensures |r| == |s|
    ensures forall k :: 0 <= k < |s| ==> r[k] == f(s[k])
  {
    seq(|s|, k requires 0 <= k < |s| => f(s[k]))
  }

  lemma MapAllCons<A, B>(x: A, s: seq<A>, f: A --> B)
    requires f.requires(x) && forall k :: 0 <= k < |s| ==> f.requires(s[k])
    ensures forall k :: 0 <= k < |[x] + s| ==> f.requires(([x] + s)[k])
    ensures MapAll([x] + s, f) == [f(x)] + MapAll(s, f)
  {
    assert forall k :: 0 < k < |[x] + s| ==> ([x] + s)[k] == s[k - 1];
  }

  /** The attributes of one kept entry, as a function value. */
  function AttrsFn(shared: Shared, validConda: string -> bool, validPip: string -> bool): (f: ((string, Yaml)) --> SpecAttrs)
    ensures forall e :: Accepted(e) ==> f.requires(e) && f(e) == AttrsOf(e, shared, validConda, validPip)
  {
    e requires Accepted(e) => AttrsOf(e, shared, validConda, validPip)
  }

  /** The attributes of each kept entry, in order. */
  function AttrsList(kept: seq<(string, Yaml)>, shared: Shared,
                     validConda: string -> bool, validPip: string -> bool): (r: seq<SpecAttrs>)
    requires forall k :: 0 <= k < |kept| ==> Accepted(kept[k])
    ensures |r| == |kept|
    ensures forall k :: 0 <= k < |kept| ==> r[k] == AttrsOf(kept[k], shared, validConda, validPip)
  {
    MapAll(kept, AttrsFn(shared, validConda, validPip))
  }

  /** The env_specs loop: one set of attributes per kept entry, in order,
      and every entry's problems, in order. */
  function CollectEnvSpecs(entries: seq<(string, Yaml)>, shared: Shared,
                           validConda: string -> bool, validPip: string -> bool): (r: Collected)
    requires EntriesUsable(entries)
    ensures NamesOf(r.accepted) == KeysOf(AcceptedEntries(entries))
    ensures forall k :: 0 <= k < |r.accepted| ==> ExtendsShared(r.accepted[k], shared)
    ensures r.accepted == AttrsList(AcceptedEntries(entries), shared, validConda, validPip)
    decreases |entries|
  {
    if |entries| == 0 then Collected([], [])
    else
      var entry := entries[0];
      assert !IsBlank(entry.0) ==> entry.1.YMap?;
      assert EntriesUsable(entries[1..]) by {
        forall i | 0 <= i < |entries[1..]| && !IsBlank(entries[1..][i].0) ensures entries[1..][i].1.YMap? {
          assert entries[1..][i] == entries[i + 1];
        }
      }
      var rest := CollectEnvSpecs(entries[1..], shared, validConda, validPip);
      var problems := EntryProblems(entry, validConda, validPip) + rest.problems;
      AcceptedKeysCons(entries);
      if Accepted(entry) then
        var a := AttrsOf(entry, shared, validConda, validPip);
        CollectStep(a, rest.accepted, shared);
        assert AcceptedEntries(entries) == [entry] + AcceptedEntries(entries[1..]);
        MapAllCons(entry, AcceptedEntries(entries[1..]), AttrsFn(shared, validConda, validPip));
        Collected([a] + rest.accepted, problems)
      else
        assert [] + KeysOf(AcceptedEntries(entries[1..])) == KeysOf(AcceptedEntries(entries[1..]));
        Collected(rest.accepted, problems)
  }

  // ---------------------------------------------------------------------
  // Inheritance resolution
  // ---------------------------------------------------------------------

  /** The accepted attributes by name. */
  function TableOf(accepted: seq<SpecAttrs>): (t: map<string, SpecAttrs>)
    ensures forall n :: n in t <==> n in NamesOf(accepted)
    ensures forall n :: n in t ==> t[n].name == n && t[n] in accepted
    decreases |accepted|
  {
    if |accepted| == 0 then map[]
    else
      var rest := TableOf(accepted[1..]);
      assert NamesOf(accepted) == [accepted[0].name] + NamesOf(accepted[1..]);
      rest[accepted[0].name := accepted[0]]
  }

  /** A spec built from the table: its own fields are those of the
      attributes under its name, and so are its ancestors'. */
  predicate FromTable(table: map<string, SpecAttrs>, s: EnvSpec)
    decreases s
  {
    && s.name in table
    && HoldsAttrs(s, table[s.name])
    && (s.inheritFrom.Some? ==> FromTable(table, s.inheritFrom.value))
  }

  /** The spec's own lists, description and inherit_from are those of the
      attributes. */
  predicate HoldsAttrs(s: EnvSpec, a: SpecAttrs) {
    && s.ownConda == a.conda && s.ownChannels == a.channels && s.ownPip == a.pip
    && s.givenDescription == a.description && s.inheritFromName == a.inheritFromName
  }

  /** Every kept entry (each one accepted) has a spec under its name that
      holds the attributes collected from that entry. */
  predicate HoldsEntries(specs: map<string, EnvSpec>, kept: seq<(string, Yaml)>, shared: Shared,
                         validConda: string -> bool, validPip: string -> bool) {
    forall e :: e in kept ==> Accepted(e) && e.0 in specs && HoldsAttrs(specs[e.0], AttrsOf(e, shared, validConda, validPip))
  }

  /** Everything built so far sits under its own name, was built from the
      table and satisfies the constructor's assertion. */
  predicate GoodBuilt(table: map<string, SpecAttrs>, built: map<string, EnvSpec>) {
    forall n :: n in built ==> built[n].name == n && FromTable(table, built[n]) && Wellformed(built[n])
  }

  predicate NamedByKey(table: map<string, SpecAttrs>) {
    forall n :: n in table ==> table[n].name == n
  }

  function TrailSet(trail: seq<string>): set<string> {
    set n | n in trail
  }

  datatype Resolution = Resolution(spec: EnvSpec, built: map<string, EnvSpec>, problems: seq<RawProblem>)

  function BuildSpec(a: SpecAttrs, parent: Option<EnvSpec>): EnvSpec {
    EnvSpec(a.name, a.conda, a.channels, a.pip, a.description, a.inheritFromName, parent)
  }

  /** A spec built from the table's attributes, on no parent or on the
      parent its attributes name, is one the table accounts for. */
  lemma BuildSpecFromTable(table: map<string, SpecAttrs>, a: SpecAttrs, parent: Option<EnvSpec>)
    requires a.name in table && table[a.name] == a
    requires parent.Some? ==> FromTable(table, parent.value) && Wellformed(parent.value)
                              && a.inheritFromName == Some(parent.value.name)
    ensures FromTable(table, BuildSpec(a, parent)) && Wellformed(BuildSpec(a, parent))
  {
  }

  lemma AddBuilt(table: map<string, SpecAttrs>, built: map<string, EnvSpec>, spec: EnvSpec)
    requires GoodBuilt(table, built) && FromTable(table, spec) && Wellformed(spec)
    ensures GoodBuilt(table, built[spec.name := spec])
  {
  }

  /** Putting a table name on the trail shrinks the names still off it. */
  lemma TrailShrinks(table: map<string, SpecAttrs>, trail: seq<string>, name: string)
    requires name in table && name !in trail
    ensures |table.Keys - TrailSet(trail + [name])| < |table.Keys - TrailSet(trail)|
  {
    assert table.Keys - TrailSet(trail + [name]) == (table.Keys - TrailSet(trail)) - {name};
  }

  /** `make_env_spec(name, trail)`. A name already built is returned as it
      is. Otherwise a name already on the trail is a cycle: it is reported
      and its parent is not followed. An unknown parent name is reported and
      left unresolved. A known one is built first and attached. */
  function MakeEnvSpec(table: map<string, SpecAttrs>, name: string, trail: seq<string>,
                       built: map<string, EnvSpec>, problems: seq<RawProblem>): (r: Resolution)
    requires name in table && NamedByKey(table)
    requires GoodBuilt(table, built)
    ensures GoodBuilt(table, r.built)
    ensures name in r.built && r.built[name] == r.spec
    ensures forall n :: n in built ==> n in r.built && r.built[n] == built[n]
    ensures forall n :: n in r.built ==> n in built || n in table
    ensures problems <= r.problems
    ensures name in built ==> r == Resolution(built[name], built, problems)
    ensures name !in built && name in trail ==>
              r.spec.inheritFrom.None? && r.problems == problems + [Message(CircularInheritance(trail))]
    ensures name !in built && name !in trail && table[name].inheritFromName.Some?
            && table[name].inheritFromName.value !in table ==>
              r.spec.inheritFrom.None? && r.problems == problems + [Message(InheritFromUnknown(name))]
    ensures name !in built && name !in trail && table[name].inheritFromName.Some?
            && table[name].inheritFromName.value in table ==>
              r.spec.inheritFrom.Some? && r.spec.inheritFrom.value.name == table[name].inheritFromName.value
    decreases |table.Keys - TrailSet(trail)|
  {
    if name in built then Resolution(built[name], built, problems)
    else
      var a := table[name];
      var cycle := name in trail;
      var reported := if cycle then problems + [Message(CircularInheritance(trail))] else problems;
      if a.inheritFromName.None? || cycle || a.inheritFromName.value !in table then
        var spec := BuildSpec(a, None);
        BuildSpecFromTable(table, a, None);
        AddBuilt(table, built, spec);
        var unknown := if a.inheritFromName.Some? && !cycle then [Message(InheritFromUnknown(name))] else [];
        Resolution(spec, built[name := spec], reported + unknown)
      else
        var parentName := a.inheritFromName.value;
        TrailShrinks(table, trail, name);
        var p := MakeEnvSpec(table, parentName, trail + [name], built, reported);
        var spec := BuildSpec(a, Some(p.spec));
        BuildSpecFromTable(table, a, Some(p.spec));
        AddBuilt(table, p.built, spec);
        Resolution(spec, p.built[name := spec], p.problems)
  }

  /** `for name in env_spec_attrs: make_env_spec(name, [])` */
  function ResolveAll(table: map<string, SpecAttrs>, names: seq<string>,
                      built: map<string, EnvSpec>, problems: seq<RawProblem>): (r: Resolution)
    requires NamedByKey(table) && GoodBuilt(table, built)
    requires forall i :: 0 <= i < |names| ==> names[i] in table
    requires forall n :: n in built ==> n in table
    ensures GoodBuilt(table, r.built)
    ensures forall n :: n in built || n in names ==> n in r.built
    ensures forall n :: n in r.built ==> n in table
    ensures forall n :: n in built ==> r.built[n] == built[n]
    ensures problems <= r.problems
    decreases |names|
  {
    if |names| == 0 then Resolution(EnvSpec("", [], [], [], None, None, None), built, problems)
    else
      var step := MakeEnvSpec(table, names[0], [], built, problems);
      var rest := ResolveAll(table, names[1..], step.built, step.problems);
      assert forall n :: n in names ==> n == names[0] || n in names[1..];
      rest
  }

  /** A resolved parent is always the spec its `inherit_from` names, and that
      name is among the accepted env specs. */
  lemma ParentIsNamedAcceptedSpec(table: map<string, SpecAttrs>, built: map<string, EnvSpec>, n: string)
    requires GoodBuilt(table, built) && n in built && built[n].inheritFrom.Some?
    ensures built[n].inheritFromName == Some(built[n].inheritFrom.value.name)
    ensures built[n].inheritFrom.value.name in table
  {
    var s := built[n];
    assert FromTable(table, s.inheritFrom.value);
  }

  /** Two specs inheriting from each other: resolving `a` first reports the
      cycle along `a, b`; `b` is built on a parentless `a`, and `a` is then
      rebuilt on that `b`. */
  lemma MutualInheritanceExample()
    ensures var a := SpecAttrs("a", [], [], [], None, Some("b"));
            var b := SpecAttrs("b", [], [], [], None, Some("a"));
            var table := map["a" := a, "b" := b];
            var r := MakeEnvSpec(table, "a", [], map[], []);
            && r.problems == [Message(CircularInheritance(["a", "b"]))]
            && r.spec == BuildSpec(a, Some(BuildSpec(b, Some(BuildSpec(a, None)))))
            && r.built["b"] == BuildSpec(b, Some(BuildSpec(a, None)))
  {
    var a := SpecAttrs("a", [], [], [], None, Some("b"));
    var b := SpecAttrs("b", [], [], [], None, Some("a"));
    var table := map["a" := a, "b" := b];
    assert NamedByKey(table);
    var inner := MakeEnvSpec(table, "a", ["a", "b"], map[], []);
    assert inner.spec == BuildSpec(a, None);
    assert inner.problems == [Message(CircularInheritance(["a", "b"]))];
    var middle := MakeEnvSpec(table, "b", ["a"], map[], []);
    assert ["a"] + ["b"] == ["a", "b"];
    assert middle.spec == BuildSpec(b, Some(BuildSpec(a, None)));
    assert [] + ["a"] == ["a"];
  }

  // ---------------------------------------------------------------------
  // environment.yml import, empty section, default env spec
  // ---------------------------------------------------------------------

  /** The first of environment.yml and environment.yaml that is out of sync,
      with the file name it came from. */
  function OutOfSyncEnvFile(known: seq<EnvSpec>, directoryPath: string, envYml: EnvironmentFile,
                            envYaml: EnvironmentFile, digest: string -> string): (r: Option<(EnvSpec, string)>)
    requires envYml.Parsed? ==> NameFieldsAreStrings(envYml.document)
    requires envYaml.Parsed? ==> NameFieldsAreStrings(envYaml.document)
    ensures var first := FindOutOfSyncSpec(known, envYml, PathJoin(directoryPath, "environment.yml"), digest);
            var second := FindOutOfSyncSpec(known, envYaml, PathJoin(directoryPath, "environment.yaml"), digest);
            && (first.Some? ==> r == Some((first.value, "environment.yml")))
            && (first.None? && second.Some? ==> r == Some((second.value, "environment.yaml")))
            && (first.None? && second.None? ==> r.None?)
  {
    match FindOutOfSyncSpec(known, envYml, PathJoin(directoryPath, "environment.yml"), digest)
    case Some(spec) => Some((spec, "environment.yml"))
    case None =>
      match FindOutOfSyncSpec(known, envYaml, PathJoin(directoryPath, "environment.yaml"), digest)
      case Some(spec) => Some((spec, "environment.yaml"))
      case None => None
  }

  /** The environment-file check of `_update_env_specs` as written: either
      search raises when it reaches a known spec of the file's name that has
      a parent; otherwise it answers as OutOfSyncEnvFile. */
  function OutOfSyncEnvFileAsWritten(known: seq<EnvSpec>, directoryPath: string, envYml: EnvironmentFile,
                                     envYaml: EnvironmentFile, digest: string -> string): (r: Outcome<Option<(EnvSpec, string)>>)
    requires envYml.Parsed? ==> NameFieldsAreStrings(envYml.document)
    requires envYaml.Parsed? ==> NameFieldsAreStrings(envYaml.document)
    ensures r.Returns? ==> r.value == OutOfSyncEnvFile(known, directoryPath, envYml, envYaml, digest)
    ensures (forall e :: e in known ==> e.inheritFrom.None?) ==>
              r == Returns(OutOfSyncEnvFile(known, directoryPath, envYml, envYaml, digest))
    ensures r.Raises? ==> exists e :: e in known && e.inheritFrom.Some?
  {
    match FindOutOfSyncSpecAsWritten(known, envYml, PathJoin(directoryPath, "environment.yml"), digest)
    case Raises => Raises
    case Returns(Some(spec)) => Returns(Some((spec, "environment.yml")))
    case Returns(None) =>
      match FindOutOfSyncSpecAsWritten(known, envYaml, PathJoin(directoryPath, "environment.yaml"), digest)
      case Raises => Raises
      case Returns(Some(spec)) => Returns(Some((spec, "environment.yaml")))
      case Returns(None) => Returns(None)
  }

  /** The import problem for an out-of-sync environment file, unless its hash
      is the one recorded under `skip_imports: environment_yml`; otherwise the
      empty-section problem when the section was empty or missing. */
  function ImportProblems(candidate: Option<(EnvSpec, string)>, skipped: Yaml, specs: map<string, EnvSpec>,
                          emptyOrMissing: bool, digest: string -> string): (r: seq<RawProblem>)
    ensures |r| <= 1
    ensures var importing := candidate.Some? && skipped != YStr(ChannelsAndPackagesHash(candidate.value.0, digest));
            && (importing ==>
                  var spec := candidate.value.0;
                  var hash := ChannelsAndPackagesHash(spec, digest);
                  && |r| == 1 && r[0].Problem?
                  && r[0].problem.fix == OverwriteEnvSpec(spec.name, ToJson(spec))
                  && r[0].problem.decline == RememberSkippedImport(hash)
                  && (spec.name in specs <==> r[0].problem.issue.EnvFileSpecOutOfSync?)
                  && (spec.name !in specs <==> r[0].problem.issue.EnvFileSpecNotInProject?))
            && (!importing ==>
                  && (r == [] <==> !emptyOrMissing)
                  && (emptyOrMissing ==> r == [Problem(ProjectProblem(EmptyEnvSpecs, AddDefaultEnvSpec, NoDeclineAction))]))
  {
    match candidate
    case Some((spec, envFile)) =>
      var hash := ChannelsAndPackagesHash(spec, digest);
      if skipped != YStr(hash) then
        var issue := if spec.name in specs then EnvFileSpecOutOfSync(spec.name, envFile)
                     else EnvFileSpecNotInProject(spec.name, envFile);
        [Problem(ProjectProblem(issue, OverwriteEnvSpec(spec.name, ToJson(spec)), RememberSkippedImport(hash)))]
      else if emptyOrMissing then [Problem(ProjectProblem(EmptyEnvSpecs, AddDefaultEnvSpec, NoDeclineAction))]
      else []
    case None =>
      if emptyOrMissing then [Problem(ProjectProblem(EmptyEnvSpecs, AddDefaultEnvSpec, NoDeclineAction))]
      else []
  }

  /** `default_env_spec_name`: `default` when there is such a spec, else the
      first accepted name, if any. */
  function DefaultEnvSpecName(specs: map<string, EnvSpec>, first: Option<string>): (r: Option<string>)
    ensures "default" in specs ==> r == Some("default")
    ensures "default" !in specs ==> r == first
  {
    if "default" in specs then Some("default") else first
  }

  /** When the specs are exactly the listed names, the default names a spec,
      and there is one exactly when there is some spec. */
  lemma DefaultNamesASpec(specs: map<string, EnvSpec>, names: seq<string>)
    requires forall n :: n in specs <==> n in names
    ensures var d := DefaultEnvSpecName(specs, if names == [] then None else Some(names[0]));
            && (d.Some? ==> d.value in specs)
            && (d.None? <==> specs == map[])
  {
    if specs != map[] {
      var n :| n in specs;
      assert n in names;
    }
  }

  /** `project_file.get_value(['skip_imports', 'environment_yml'])`: the
      value under that path, or None when either level is missing or
      `skip_imports` is not a mapping. */
  function SkippedImport(root: seq<(string, Yaml)>): (r: Yaml)
    ensures match Lookup(root, "skip_imports")
            case Some(YMap(entries)) =>
              (HasKey(entries, "environment_yml") ==> Lookup(entries, "environment_yml") == Some(r))
              && (!HasKey(entries, "environment_yml") ==> r == YNull)
            case _ => r == YNull
  {
    match Get(root, "skip_imports", YNull)
    case YMap(entries) => Get(entries, "environment_yml", YNull)
    case _ => YNull
  }

  /** The env_specs section can be read without the source raising. */
  predicate EnvSpecsReadable(root: seq<(string, Yaml)>) {
    var section := Get(root, "env_specs", YMap([]));
    section.YMap? ==> DistinctKeys(section.entries) && EntriesUsable(section.entries)
  }

  datatype EnvSpecsOutcome = EnvSpecsOutcome(
    specs: map<string, EnvSpec>,
    defaultName: Option<string>,
    problems: seq<RawProblem>)

  /** Filtering a dictionary's entries keeps their keys distinct. */
  lemma {:induction false} AcceptedKeysDistinct(entries: seq<(string, Yaml)>)
    requires DistinctKeys(entries)
    ensures DistinctKeys(AcceptedEntries(entries))
    decreases |entries|
  {
    if |entries| > 0 {
      DistinctKeysTail(entries);
      AcceptedKeysDistinct(entries[1..]);
      if Accepted(entries[0]) {
        var rest := AcceptedEntries(entries[1..]);
        DistinctKeysCons(entries[0], rest);
        assert AcceptedEntries(entries) == [entries[0]] + rest;
      }
    }
  }

  /** The rest of a dictionary's entries have distinct keys, none of them
      the first key. */
  lemma DistinctKeysTail(entries: seq<(string, Yaml)>)
    requires |entries| > 0 && DistinctKeys(entries)
    ensures DistinctKeys(entries[1..])
    ensures forall e :: e in entries[1..] ==> e.0 != entries[0].0
  {
    forall i, j | 0 <= i < j < |entries[1..]| ensures entries[1..][i].0 != entries[1..][j].0 {
      assert entries[1..][i] == entries[i + 1] && entries[1..][j] == entries[j + 1];
    }
    forall e | e in entries[1..] ensures e.0 != entries[0].0 {
      var i :| 0 <= i < |entries[1..]| && entries[1..][i] == e;
      assert entries[i + 1] == e;
    }
  }

  /** An entry whose key is new can go in front. */
  lemma DistinctKeysCons(x: (string, Yaml), rest: seq<(string, Yaml)>)
    requires DistinctKeys(rest)
    requires forall e :: e in rest ==> e.0 != x.0
    ensures DistinctKeys([x] + rest)
  {
    var r := [x] + rest;
    forall i, j | 0 <= i < j < |r| ensures r[i].0 != r[j].0 {
      assert r[j] == rest[j - 1];
      if i > 0 {
        assert r[i] == rest[i - 1];
      } else {
        assert rest[j - 1] in rest;
      }
    }
  }

  /** An accepted entry whose name no earlier entry has is held in the table
      under that name; as names come from the keys of one dictionary, that is
      every accepted entry. */
  lemma {:induction false} TableKeepsAccepted(accepted: seq<SpecAttrs>, k: nat)
    requires k < |accepted|
    requires forall i :: 0 <= i < k ==> accepted[i].name != accepted[k].name
    ensures accepted[k].name in TableOf(accepted) && TableOf(accepted)[accepted[k].name] == accepted[k]
    decreases k
  {
    if k > 0 {
      var tail := accepted[1..];
      var x := accepted[k];
      assert x.name in TableOf(tail) && TableOf(tail)[x.name] == x by {
        assert x == tail[k - 1];
        forall i | 0 <= i < k - 1 ensures tail[i].name != tail[k - 1].name {
          assert tail[i] == accepted[i + 1];
        }
        TableKeepsAccepted(tail, k - 1);
      }
      assert x.name != accepted[0].name;
    }
  }

  /** Once every name is resolved, the spec under a kept name holds the
      attributes collected for it. */
  lemma BuiltFromAccepted(accepted: seq<SpecAttrs>, built: map<string, EnvSpec>, k: nat)
    requires k < |accepted|
    requires forall i, j :: 0 <= i < j < |accepted| ==> accepted[i].name != accepted[j].name
    requires GoodBuilt(TableOf(accepted), built) && accepted[k].name in built
    ensures HoldsAttrs(built[accepted[k].name], accepted[k])
  {
    TableKeepsAccepted(accepted, k);
  }

  /** Every kept entry of a dictionary ends up as a spec holding that
      entry's attributes. */
  lemma KeptSpecsHoldAttrs(kept: seq<(string, Yaml)>, accepted: seq<SpecAttrs>, built: map<string, EnvSpec>,
                           shared: Shared, validConda: string -> bool, validPip: string -> bool)
    requires forall k :: 0 <= k < |kept| ==> Accepted(kept[k])
    requires DistinctKeys(kept)
    requires NamesOf(accepted) == KeysOf(kept)
    requires accepted == AttrsList(kept, shared, validConda, validPip)
    requires GoodBuilt(TableOf(accepted), built)
    requires forall n :: n in NamesOf(accepted) ==> n in built
    ensures HoldsEntries(built, kept, shared, validConda, validPip)
  {
    forall e | e in kept
      ensures e.0 in built && HoldsAttrs(built[e.0], AttrsOf(e, shared, validConda, validPip))
    {
      var k :| 0 <= k < |kept| && kept[k] == e;
      KeptSpecHoldsAccepted(kept, accepted, built, k);
      assert accepted[k] == AttrsOf(kept[k], shared, validConda, validPip);
    }
  }

  /** The spec under the `k`-th kept name holds the `k`-th collected
      attributes. */
  lemma KeptSpecHoldsAccepted(kept: seq<(string, Yaml)>, accepted: seq<SpecAttrs>, built: map<string, EnvSpec>, k: nat)
    requires DistinctKeys(kept)
    requires NamesOf(accepted) == KeysOf(kept)
    requires GoodBuilt(TableOf(accepted), built)
    requires forall n :: n in NamesOf(accepted) ==> n in built
    requires k < |kept|
    ensures kept[k].0 in built && HoldsAttrs(built[kept[k].0], accepted[k])
  {
    KeptNamesDistinct(kept, accepted);
    var names := NamesOf(accepted);
    assert names[k] == kept[k].0 == accepted[k].name;
    assert names[k] in names;
    BuiltFromAccepted(accepted, built, k);
  }

  /** Attributes collected from the entries of one dictionary carry
      different names. */
  lemma KeptNamesDistinct(kept: seq<(string, Yaml)>, accepted: seq<SpecAttrs>)
    requires DistinctKeys(kept)
    requires NamesOf(accepted) == KeysOf(kept)
    ensures |accepted| == |kept|
    ensures forall i, j :: 0 <= i < j < |accepted| ==> accepted[i].name != accepted[j].name
  {
    var names := NamesOf(accepted);
    assert forall i :: 0 <= i < |kept| ==> names[i] == kept[i].0;
  }

  datatype BuiltSpecs = BuiltSpecs(names: seq<string>, specs: map<string, EnvSpec>, problems: seq<RawProblem>)

  /** Specs resolved for every name of the table, and only for those, are
      exactly the table's names, and each parent is one of them. */
  lemma ResolvedSpecsClosed(table: map<string, SpecAttrs>, names: seq<string>, specs: map<string, EnvSpec>)
    requires GoodBuilt(table, specs)
    requires forall n :: n in table <==> n in names
    requires forall n :: n in names ==> n in specs
    requires forall n :: n in specs ==> n in table
    ensures forall n :: n in specs <==> n in names
    ensures forall n :: n in specs ==> specs[n].name == n && Wellformed(specs[n])
    ensures forall n :: n in specs && specs[n].inheritFrom.Some? ==> specs[n].inheritFrom.value.name in specs
  {
    forall n | n in specs && specs[n].inheritFrom.Some? ensures specs[n].inheritFrom.value.name in specs {
      ParentIsNamedAcceptedSpec(table, specs, n);
    }
  }

  /** The env_specs loop and inheritance resolution, after the shared
      lists have been parsed with `problems`. */
  function ResolveSection(section: Yaml, shared: Shared, problems: seq<RawProblem>,
                          validConda: string -> bool, validPip: string -> bool): (r: BuiltSpecs)
    requires section.YMap? ==> EntriesUsable(section.entries)
    ensures !section.YMap? ==> r.names == [] && Message(EnvSpecsNotDict(section)) in r.problems
    ensures section.YMap? ==> r.names == KeysOf(AcceptedEntries(section.entries))
    ensures forall n :: n in r.specs <==> n in r.names
    ensures forall n :: n in r.specs ==> r.specs[n].name == n && Wellformed(r.specs[n])
    ensures forall n :: n in r.specs && r.specs[n].inheritFrom.Some? ==> r.specs[n].inheritFrom.value.name in r.specs
    ensures section.YMap? && DistinctKeys(section.entries) ==>
              HoldsEntries(r.specs, AcceptedEntries(section.entries), shared, validConda, validPip)
    ensures problems <= r.problems
  {
    var collected :=
      if section.YMap? then CollectEnvSpecs(section.entries, shared, validConda, validPip)
      else Collected([], [Message(EnvSpecsNotDict(section))]);
    var names := NamesOf(collected.accepted);
    var table := TableOf(collected.accepted);
    assert forall i :: 0 <= i < |names| ==> names[i] in table;
    var resolved := ResolveAll(table, names, map[], problems + collected.problems);
    ResolvedSpecsClosed(table, names, resolved.built);
    assert section.YMap? && DistinctKeys(section.entries) ==>
             HoldsEntries(resolved.built, AcceptedEntries(section.entries), shared, validConda, validPip) by {
      if section.YMap? && DistinctKeys(section.entries) {
        AcceptedKeysDistinct(section.entries);
        KeptSpecsHoldAttrs(AcceptedEntries(section.entries), collected.accepted, resolved.built, shared, validConda, validPip);
      }
    }
    assert problems <= problems + collected.problems;
    BuiltSpecs(names, resolved.built, resolved.problems)
  }

  /** The lists every env spec starts with: the top-level `packages`
      (conda and pip) and `channels`. */
  function SharedOf(root: seq<(string, Yaml)>, validConda: string -> bool, validPip: string -> bool): Shared {
    var packages := ParsePackages(root, validConda, validPip);
    Shared(packages.conda, ParseChannels(root).cleaned, packages.pip)
  }

  /** The first half of `_update_env_specs`: the shared lists, the
      env_specs loop and inheritance resolution. */
  function BuildEnvSpecs(root: seq<(string, Yaml)>, validConda: string -> bool, validPip: string -> bool): (r: BuiltSpecs)
    requires EnvSpecsReadable(root)
    ensures var section := Get(root, "env_specs", YMap([]));
            && (!section.YMap? ==> r.names == [] && Message(EnvSpecsNotDict(section)) in r.problems)
            && (section.YMap? ==> r.names == KeysOf(AcceptedEntries(section.entries)))
    ensures forall n :: n in r.specs <==> n in r.names
    ensures forall n :: n in r.specs ==> r.specs[n].name == n && Wellformed(r.specs[n])
    ensures forall n :: n in r.specs && r.specs[n].inheritFrom.Some? ==> r.specs[n].inheritFrom.value.name in r.specs
    ensures var section := Get(root, "env_specs", YMap([]));
            section.YMap? ==>
              HoldsEntries(r.specs, AcceptedEntries(section.entries), SharedOf(root, validConda, validPip), validConda, validPip)
    ensures ParsePackages(root, validConda, validPip).problems <= r.problems
  {
    var packages := ParsePackages(root, validConda, validPip);
    var channels := ParseChannels(root);
    var shared := SharedOf(root, validConda, validPip);
    var built := ResolveSection(Get(root, "env_specs", YMap([])), shared, packages.problems + channels.problems,
                                validConda, validPip);
    assert packages.problems <= packages.problems + channels.problems;
    built
  }

  /** The tail of `_update_env_specs`: at most one problem, about an
      out-of-sync environment file or an empty env_specs section. */
  function EnvFileProblems(built: BuiltSpecs, root: seq<(string, Yaml)>, directoryPath: string,
                           envYml: EnvironmentFile, envYaml: EnvironmentFile, digest: string -> string): (r: seq<RawProblem>)
    requires forall n :: n in built.names ==> n in built.specs
    requires envYml.Parsed? ==> NameFieldsAreStrings(envYml.document)
    requires envYaml.Parsed? ==> NameFieldsAreStrings(envYaml.document)
    ensures |r| <= 1
    ensures var section := Get(root, "env_specs", YMap([]));
            section.YMap? && section.entries == [] ==> |r| == 1
    ensures var section := Get(root, "env_specs", YMap([]));
            r == [] ==> !(section.YMap? && section.entries == [])
                        || OutOfSyncEnvFile(SpecsInOrder(built), directoryPath, envYml, envYaml, digest).Some?
  {
    var section := Get(root, "env_specs", YMap([]));
    var candidate := OutOfSyncEnvFile(SpecsInOrder(built), directoryPath, envYml, envYaml, digest);
    ImportProblems(candidate, SkippedImport(root), built.specs, section.YMap? && section.entries == [], digest)
  }

  /** Which problem the tail adds: an empty or missing section always gives
      one; an out-of-sync environment file whose hash was not recorded as
      skipped gives the import problem (updating the spec of that name when
      there is one, adding it otherwise, or remembering the hash if
      declined); otherwise an empty or missing section gives the
      empty-section problem and anything else gives none. */
  lemma EnvFileProblemsExact(built: BuiltSpecs, root: seq<(string, Yaml)>, directoryPath: string,
                             envYml: EnvironmentFile, envYaml: EnvironmentFile, digest: string -> string)
    requires forall n :: n in built.names ==> n in built.specs
    requires envYml.Parsed? ==> NameFieldsAreStrings(envYml.document)
    requires envYaml.Parsed? ==> NameFieldsAreStrings(envYaml.document)
    ensures var r := EnvFileProblems(built, root, directoryPath, envYml, envYaml, digest);
            var section := Get(root, "env_specs", YMap([]));
            var emptyOrMissing := section.YMap? && section.entries == [];
            var candidate := OutOfSyncEnvFile(SpecsInOrder(built), directoryPath, envYml, envYaml, digest);
            var importing := candidate.Some? && SkippedImport(root) != YStr(ChannelsAndPackagesHash(candidate.value.0, digest));
            && (emptyOrMissing ==> |r| == 1)
            && (!importing ==>
                  r == if emptyOrMissing then [Problem(ProjectProblem(EmptyEnvSpecs, AddDefaultEnvSpec, NoDeclineAction))] else [])
            && (importing ==>
                  && |r| == 1 && r[0].Problem?
                  && r[0].problem.fix == OverwriteEnvSpec(candidate.value.0.name, ToJson(candidate.value.0))
                  && r[0].problem.decline == RememberSkippedImport(ChannelsAndPackagesHash(candidate.value.0, digest))
                  && (candidate.value.0.name in built.specs <==> r[0].problem.issue.EnvFileSpecOutOfSync?))
  {
  }

  /** The built specs, one per name. */
  function SpecsInOrder(built: BuiltSpecs): (r: seq<EnvSpec>)
    requires forall n :: n in built.names ==> n in built.specs
    ensures |r| == |built.names|
    ensures forall i :: 0 <= i < |r| ==> r[i] == built.specs[built.names[i]]
  {
    seq(|built.names|, i requires 0 <= i < |built.names| => built.specs[built.names[i]])
  }

  /** `_update_env_specs`: builds the env specs, decides about importing an
      environment file and picks the default env spec. File reading, YAML
      parsing, the digest and the package-spec parsers are parameters. */
  function UpdateEnvSpecs(root: seq<(string, Yaml)>, directoryPath: string,
                          envYml: EnvironmentFile, envYaml: EnvironmentFile, digest: string -> string,
                          validConda: string -> bool, validPip: string -> bool): (r: EnvSpecsOutcome)
    requires EnvSpecsReadable(root)
    requires envYml.Parsed? ==> NameFieldsAreStrings(envYml.document)
    requires envYaml.Parsed? ==> NameFieldsAreStrings(envYaml.document)
    ensures var section := Get(root, "env_specs", YMap([]));
            && (!section.YMap? ==> r.specs == map[])
            && (section.YMap? ==> forall n :: n in r.specs <==> n in KeysOf(AcceptedEntries(section.entries)))
    ensures forall n :: n in r.specs ==> r.specs[n].name == n && Wellformed(r.specs[n])
    ensures forall n :: n in r.specs && r.specs[n].inheritFrom.Some? ==> r.specs[n].inheritFrom.value.name in r.specs
    ensures var section := Get(root, "env_specs", YMap([]));
            section.YMap? ==>
              HoldsEntries(r.specs, AcceptedEntries(section.entries), SharedOf(root, validConda, validPip), validConda, validPip)
    ensures "default" in r.specs ==> r.defaultName == Some("default")
    ensures BuildEnvSpecs(root, validConda, validPip).problems <= r.problems
    ensures |r.problems| <= |BuildEnvSpecs(root, validConda, validPip).problems| + 1
  {
    var built := BuildEnvSpecs(root, validConda, validPip);
    var section := Get(root, "env_specs", YMap([]));
    var emptyOrMissing := section.YMap? && section.entries == [];
    var names := built.names;
    var specs := built.specs;
    var tail := EnvFileProblems(built, root, directoryPath, envYml, envYaml, digest);
    var problems := built.problems + tail;
    assert built.problems <= problems && |problems| <= |built.problems| + 1;
    assert !section.YMap? ==> specs == map[] by {
      if !section.YMap? {
        assert forall n :: n !in specs;
      }
    }
    var first := if names == [] then None else Some(names[0]);
    EnvSpecsOutcome(specs, DefaultEnvSpecName(specs, first), problems)
  }

  /** `_update_env_specs` as written: it raises in the environment-file
      check exactly when OutOfSyncEnvFileAsWritten does, which needs a built
      spec with a parent; otherwise it gives what UpdateEnvSpecs gives. */
  function UpdateEnvSpecsAsWritten(root: seq<(string, Yaml)>, directoryPath: string,
                                   envYml: EnvironmentFile, envYaml: EnvironmentFile, digest: string -> string,
                                   validConda: string -> bool, validPip: string -> bool): (r: Outcome<EnvSpecsOutcome>)
    requires EnvSpecsReadable(root)
    requires envYml.Parsed? ==> NameFieldsAreStrings(envYml.document)
    requires envYaml.Parsed? ==> NameFieldsAreStrings(envYaml.document)
    ensures var built := BuildEnvSpecs(root, validConda, validPip);
            r.Raises? <==> OutOfSyncEnvFileAsWritten(SpecsInOrder(built), directoryPath, envYml, envYaml, digest).Raises?
    ensures r.Returns? ==> r.value == UpdateEnvSpecs(root, directoryPath, envYml, envYaml, digest, validConda, validPip)
  {
    var known := SpecsInOrder(BuildEnvSpecs(root, validConda, validPip));
    if OutOfSyncEnvFileAsWritten(known, directoryPath, envYml, envYaml, digest).Raises? then Raises
    else Returns(UpdateEnvSpecs(root, directoryPath, envYml, envYaml, digest, validConda, validPip))
  }

  /** Only a project with an env spec that has a parent can make
      `_update_env_specs` raise. */
  lemma UpdateEnvSpecsRaisesOnlyWithParents(root: seq<(string, Yaml)>, directoryPath: string,
                                            envYml: EnvironmentFile, envYaml: EnvironmentFile, digest: string -> string,
                                            validConda: string -> bool, validPip: string -> bool)
    requires EnvSpecsReadable(root)
    requires envYml.Parsed? ==> NameFieldsAreStrings(envYml.document)
    requires envYaml.Parsed? ==> NameFieldsAreStrings(envYaml.document)
    ensures var built := BuildEnvSpecs(root, validConda, validPip);
            (forall n :: n in built.specs ==> built.specs[n].inheritFrom.None?) ==>
              UpdateEnvSpecsAsWritten(root, directoryPath, envYml, envYaml, digest, validConda, validPip)
              == Returns(UpdateEnvSpecs(root, directoryPath, envYml, envYaml, digest, validConda, validPip))
  {
    SpecsInOrderParents(BuildEnvSpecs(root, validConda, validPip));
  }

  /** Listing the built specs in order brings in no spec with a parent
      when none of them has one. */
  lemma SpecsInOrderParents(built: BuiltSpecs)
    requires forall n :: n in built.names ==> n in built.specs
    ensures (forall n :: n in built.specs ==> built.specs[n].inheritFrom.None?) ==>
            forall e :: e in SpecsInOrder(built) ==> e.inheritFrom.None?
  {
    var known := SpecsInOrder(built);
    if forall n :: n in built.specs ==> built.specs[n].inheritFrom.None? {
      forall e | e in known ensures e.inheritFrom.None? {
        var i :| 0 <= i < |known| && known[i] == e;
        assert e == built.specs[built.names[i]];
      }
    }
  }

  /** The default env spec is `default` when there is one, else the first
      accepted name of the section; it names a spec, and there is none
      exactly when there are no specs. */
  lemma UpdatedDefaultEnvSpec(root: seq<(string, Yaml)>, directoryPath: string,
                              envYml: EnvironmentFile, envYaml: EnvironmentFile, digest: string -> string,
                              validConda: string -> bool, validPip: string -> bool)
    requires EnvSpecsReadable(root)
    requires envYml.Parsed? ==> NameFieldsAreStrings(envYml.document)
    requires envYaml.Parsed? ==> NameFieldsAreStrings(envYaml.document)
    ensures var r := UpdateEnvSpecs(root, directoryPath, envYml, envYaml, digest, validConda, validPip);
            var section := Get(root, "env_specs", YMap([]));
            && (section.YMap? && "default" !in r.specs && AcceptedEntries(section.entries) != [] ==>
                  r.defaultName == Some(AcceptedEntries(section.entries)[0].0))
            && (r.defaultName.Some? ==> r.defaultName.value in r.specs)
            && (r.defaultName.None? <==> r.specs == map[])
  {
    var built := BuildEnvSpecs(root, validConda, validPip);
    var r := UpdateEnvSpecs(root, directoryPath, envYml, envYaml, digest, validConda, validPip);
    assert r.specs == built.specs;
    assert r.defaultName == DefaultEnvSpecName(built.specs, if built.names == [] then None else Some(built.names[0]));
    DefaultNamesASpec(built.specs, built.names);
  }

  /** The spec under each kept env_specs entry: its own conda packages,
      channels and pip packages are the shared top-level lists followed by
      the entry's own, and its description and inherit_from are the entry's. */
  lemma UpdatedSpecContents(root: seq<(string, Yaml)>, directoryPath: string,
                            envYml: EnvironmentFile, envYaml: EnvironmentFile, digest: string -> string,
                            validConda: string -> bool, validPip: string -> bool, entry: (string, Yaml))
    requires EnvSpecsReadable(root)
    requires envYml.Parsed? ==> NameFieldsAreStrings(envYml.document)
    requires envYaml.Parsed? ==> NameFieldsAreStrings(envYaml.document)
    requires var section := Get(root, "env_specs", YMap([]));
             section.YMap? && entry in section.entries && Accepted(entry)
    ensures var r := UpdateEnvSpecs(root, directoryPath, envYml, envYaml, digest, validConda, validPip);
            var top := ParsePackages(root, validConda, validPip);
            var own := ParsePackages(entry.1.entries, validConda, validPip);
            && entry.0 in r.specs
            && r.specs[entry.0].ownConda == top.conda + own.conda
            && r.specs[entry.0].ownChannels == ParseChannels(root).cleaned + ParseChannels(entry.1.entries).cleaned
            && r.specs[entry.0].ownPip == top.pip + own.pip
            && FromOption(r.specs[entry.0].givenDescription) == Get(entry.1.entries, "description", YNull)
            && FromOption(r.specs[entry.0].inheritFromName) == Get(entry.1.entries, "inherit_from", YNull)
  {
    var section := Get(root, "env_specs", YMap([]));
    assert entry in AcceptedEntries(section.entries);
    var shared := SharedOf(root, validConda, validPip);
    var a := AttrsOf(entry, shared, validConda, validPip);
    PrefixThenRest(shared.conda, a.conda);
    PrefixThenRest(shared.channels, a.channels);
    PrefixThenRest(shared.pip, a.pip);
  }

  /** After the problems of building the specs comes at most one more: an
      empty or missing section always adds exactly one, which is the import
      of an out-of-sync environment file unless that file's hash was
      recorded as skipped, and the empty-section problem otherwise. */
  lemma UpdatedTrailingProblem(root: seq<(string, Yaml)>, directoryPath: string,
                               envYml: EnvironmentFile, envYaml: EnvironmentFile, digest: string -> string,
                               validConda: string -> bool, validPip: string -> bool)
    requires EnvSpecsReadable(root)
    requires envYml.Parsed? ==> NameFieldsAreStrings(envYml.document)
    requires envYaml.Parsed? ==> NameFieldsAreStrings(envYaml.document)
    ensures var r := UpdateEnvSpecs(root, directoryPath, envYml, envYaml, digest, validConda, validPip);
            var built := BuildEnvSpecs(root, validConda, validPip);
            var section := Get(root, "env_specs", YMap([]));
            var candidate := OutOfSyncEnvFile(SpecsInOrder(built), directoryPath, envYml, envYaml, digest);
            var importing := candidate.Some? && SkippedImport(root) != YStr(ChannelsAndPackagesHash(candidate.value.0, digest));
            && built.problems <= r.problems
            && (section.YMap? && section.entries == [] ==> |r.problems| == |built.problems| + 1)
            && (!importing && section.YMap? && section.entries == [] ==>
                  r.problems[|built.problems|] == Problem(ProjectProblem(EmptyEnvSpecs, AddDefaultEnvSpec, NoDeclineAction)))
            && (importing ==>
                  |r.problems| == |built.problems| + 1
                  && r.problems[|built.problems|].Problem?
                  && r.problems[|built.problems|].problem.fix == OverwriteEnvSpec(candidate.value.0.name, ToJson(candidate.value.0)))
  {
    var built := BuildEnvSpecs(root, validConda, validPip);
    var tail := EnvFileProblems(built, root, directoryPath, envYml, envYaml, digest);
    EnvFileProblemsExact(built, root, directoryPath, envYml, envYaml, digest);
    assert (built.problems + tail)[|built.problems|..] == tail;
  }

  /** A list that starts with `p` is `p` followed by the rest. */
  lemma PrefixThenRest<T>(p: seq<T>, s: seq<T>)
    requires p <= s
    ensures s == p + s[|p|..]
  {
  }
}
