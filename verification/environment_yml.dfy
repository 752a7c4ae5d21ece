/**
  Importing an `environment.yml` file as an EnvSpec, and deciding whether
  such a file describes something the project does not already have.
  Reading and YAML parsing happen before this model starts: the file arrives
  as unreadable, malformed, or a parsed top-level mapping.
 */
module EnvironmentYml {
  import opened Values
  import opened Text
  import opened EnvSpecs

  /** The outcome of reading and parsing an environment file. */
  datatype EnvironmentFile =
    | Unreadable
    | Malformed
    | Parsed(document: seq<(string, Yaml)>)

  /** `document.get(key, [])`, replaced by an empty list unless it is a list. */
  function ListField(document: seq<(string, Yaml)>, key: string): seq<Yaml> {
    match Lookup(document, key)
    case Some(YList(items)) => items
    case _ => []
  }

  /** The list under `pip` of a `{pip: [...]}` dependency; nothing for any
      other shape of dependency. */
  function PipList(dep: Yaml): seq<Yaml> {
    match dep
    case YMap(entries) =>
      (match Lookup(entries, "pip")
       case Some(YList(items)) => items
       case _ => [])
    case _ => []
  }

  /** The string members of every `{pip: [...]}` dependency, in order. */
  function PipStrings(deps: seq<Yaml>): (r: seq<string>)
    ensures forall x :: x in r <==> exists i :: 0 <= i < |deps| && YStr(x) in PipList(deps[i])
    ensures |deps| == 1 ==> r == StringItems(PipList(deps[0]))
    decreases |deps|
  {
    if |deps| == 0 then []
    else
      var rest := PipStrings(deps[1..]);
      assert forall i :: 0 < i < |deps| ==> PipList(deps[i]) == PipList(deps[1..][i - 1]);
      StringItems(PipList(deps[0])) + rest
  }

  /** The pip strings of two dependency lists one after the other are those
      of the first list followed by those of the second: with the one-entry
      case above, the result is the concatenation, in order, of the string
      members of each `{pip: [...]}` list. */
  lemma {:induction false} PipStringsAppend(a: seq<Yaml>, b: seq<Yaml>)
    ensures PipStrings(a + b) == PipStrings(a) + PipStrings(b)
    decreases |a|
  {
    if |a| == 0 {
      assert a + b == b;
    } else {
      assert (a + b)[1..] == a[1..] + b;
      PipStringsAppend(a[1..], b);
    }
  }

  /** Plain strings carry no pip list. */
  lemma {:induction false} PipStringsOfStrings(ss: seq<string>)
    ensures PipStrings(AsStrings(ss)) == []
    decreases |ss|
  {
    if |ss| > 0 {
      assert AsStrings(ss)[1..] == AsStrings(ss[1..]);
      PipStringsOfStrings(ss[1..]);
    }
  }

  /** The name fields the loader reads are strings when it reads them. */
  predicate NameFieldsAreStrings(document: seq<(string, Yaml)>) {
    var name := Get(document, "name", YNull);
    var prefix := Get(document, "prefix", YNull);
    (Truthy(name) ==> name.YStr?) && (!Truthy(name) && Truthy(prefix) ==> prefix.YStr?)
  }

  /** The loader's name: a truthy `name`, else the non-empty base name of a
      truthy `prefix`, else the base name of the file. */
  function EnvironmentName(document: seq<(string, Yaml)>, filename: string): (r: string)
    requires NameFieldsAreStrings(document)
    ensures var name := Get(document, "name", YNull);
            var prefix := Get(document, "prefix", YNull);
            && (Truthy(name) ==> r == name.s)
            && (!Truthy(name) && Truthy(prefix) && Basename(prefix.s) != [] ==> r == Basename(prefix.s))
            && (!Truthy(name) && (!Truthy(prefix) || Basename(prefix.s) == []) ==> r == Basename(filename))
  {
    var name := Get(document, "name", YNull);
    if Truthy(name) then name.s
    else
      var prefix := Get(document, "prefix", YNull);
      var fromPrefix := if Truthy(prefix) then Basename(prefix.s) else [];
      if fromPrefix != [] then fromPrefix else Basename(filename)
  }

  /** `_load_environment_yml(filename)` after reading and parsing. */
  function LoadEnvironmentYml(file: EnvironmentFile, filename: string): (r: Option<EnvSpec>)
    requires file.Parsed? ==> NameFieldsAreStrings(file.document)
    ensures r.None? <==> !file.Parsed?
    ensures r.Some? ==>
              var s := r.value;
              var deps := ListField(file.document, "dependencies");
              && s.name == EnvironmentName(file.document, filename)
              && s.inheritFrom.None? && s.inheritFromName.None? && s.givenDescription.None?
              && s.ownConda == StringItems(deps)
              && s.ownChannels == StringItems(ListField(file.document, "channels"))
              && s.ownPip == PipStrings(deps)
              && (forall x :: x in s.ownConda <==> YStr(x) in deps)
              && (forall x :: x in s.ownPip <==> exists i :: 0 <= i < |deps| && YStr(x) in PipList(deps[i]))
              && (forall x :: x in s.ownChannels <==> YStr(x) in ListField(file.document, "channels"))
              && |s.ownConda| <= |deps|
              && |s.ownChannels| <= |ListField(file.document, "channels")|
  {
    match file
    case Unreadable => None
    case Malformed => None
    case Parsed(document) =>
      var deps := ListField(document, "dependencies");
      Some(EnvSpec(
        name := EnvironmentName(document, filename),
        ownConda := StringItems(deps),
        ownChannels := StringItems(ListField(document, "channels")),
        ownPip := PipStrings(deps),
        givenDescription := None,
        inheritFromName := None,
        inheritFrom := None))
  }

  /** A loaded spec has no parent, so its effective lists are the lists it
      read, and it satisfies the constructor's assertion. */
  lemma LoadedSpecStandsAlone(file: EnvironmentFile, filename: string, kind: ListKind)
    requires file.Parsed? && NameFieldsAreStrings(file.document)
    ensures var s := LoadEnvironmentYml(file, filename).value;
            Effective(s, kind) == Own(s, kind) && Wellformed(s)
  {
  }

  /** A file whose dependencies and channels are plain strings is imported
      exactly: same entries, same order, duplicates kept, and no pip
      packages. */
  lemma LoadKeepsOrder(document: seq<(string, Yaml)>, filename: string, conda: seq<string>, channels: seq<string>)
    requires NameFieldsAreStrings(document)
    requires ListField(document, "dependencies") == AsStrings(conda)
    requires ListField(document, "channels") == AsStrings(channels)
    ensures var s := LoadEnvironmentYml(Parsed(document), filename).value;
            s.ownConda == conda && s.ownChannels == channels && s.ownPip == []
  {
    StringItemsOfStrings(conda);
    StringItemsOfStrings(channels);
    PipStringsOfStrings(conda);
  }

  /** `{name: foo, dependencies: [numpy, {pip: [flask]}], channels: [conda-forge]}` */
  lemma LoadExample()
    ensures LoadEnvironmentYml(
              Parsed([("name", YStr("foo")),
                      ("dependencies", YList([YStr("numpy"), YMap([("pip", YList([YStr("flask")]))])])),
                      ("channels", YList([YStr("conda-forge")]))]),
              "/project/environment.yml")
            == Some(EnvSpec("foo", ["numpy"], ["conda-forge"], ["flask"], None, None, None))
  {
    var pipDep := YMap([("pip", YList([YStr("flask")]))]);
    var deps := [YStr("numpy"), pipDep];
    var document := [("name", YStr("foo")), ("dependencies", YList(deps)), ("channels", YList([YStr("conda-forge")]))];
    assert Get(document, "name", YNull) == YStr("foo");
    assert ListField(document, "dependencies") == deps by {
      assert document[1..][0].0 == "dependencies";
    }
    assert ListField(document, "channels") == [YStr("conda-forge")] by {
      assert document[1..][1..][0].0 == "channels";
    }
    assert PipList(pipDep) == [YStr("flask")];
    assert PipStrings(deps[1..][1..]) == [];
    assert PipStrings(deps[1..]) == ["flask"];
    assert PipStrings(deps) == ["flask"];
    assert StringItems(deps[1..]) == [];
    assert StringItems(deps) == ["numpy"];
    assert EnvironmentName(document, "/project/environment.yml") == "foo";
    var loaded := LoadEnvironmentYml(Parsed(document), "/project/environment.yml");
    assert loaded.Some?;
    assert loaded.value.name == "foo";
    assert loaded.value.ownConda == ["numpy"];
    assert loaded.value.ownPip == ["flask"];
    assert loaded.value.ownChannels == ["conda-forge"];
  }

  /** With no name, `prefix: /opt/envs/myenv` names the spec `myenv`. */
  lemma PrefixNameExample()
    ensures EnvironmentName([("prefix", YStr("/opt/envs/myenv"))], "/project/environment.yml") == "myenv"
  {
    assert Basename("/opt/envs/myenv") == "myenv" by {
      BasenameOfLastComponent("/opt/envs/", "myenv");
      assert "/opt/envs/" + "myenv" == "/opt/envs/myenv";
    }
  }

  /** The sync test: same name and same content hash. */
  predicate InSync(existing: EnvSpec, spec: EnvSpec, digest: string -> string) {
    existing.name == spec.name && ChannelsAndPackagesHash(existing, digest) == ChannelsAndPackagesHash(spec, digest)
  }

  /** Whether some known spec is in sync with `spec`. */
  function HasSyncedCopy(known: seq<EnvSpec>, spec: EnvSpec, digest: string -> string): (r: bool)
    ensures r <==> exists e :: e in known && InSync(e, spec, digest)
    decreases |known|
  {
    if |known| == 0 then false
    else
      var first := known[0];
      var rest := HasSyncedCopy(known[1..], spec, digest);
      assert forall e :: e in known <==> e == first || e in known[1..] by {
        assert known == [first] + known[1..];
      }
      InSync(first, spec, digest) || rest
  }

  /** `_find_out_of_sync_environment_yml_spec(known, filename)`: the loaded
      spec, unless loading failed or the project already has a spec of the
      same name and hash. */
  function FindOutOfSyncSpec(known: seq<EnvSpec>, file: EnvironmentFile, filename: string,
                             digest: string -> string): (r: Option<EnvSpec>)
    requires file.Parsed? ==> NameFieldsAreStrings(file.document)
    ensures var loaded := LoadEnvironmentYml(file, filename);
            r.None? <==> (loaded.None? || exists e :: e in known && InSync(e, loaded.value, digest))
    ensures r.Some? ==> r == LoadEnvironmentYml(file, filename)
  {
    match LoadEnvironmentYml(file, filename)
    case None => None
    case Some(spec) => if HasSyncedCopy(known, spec, digest) then None else Some(spec)
  }

  // ---------------------------------------------------------------------
  // The sync test as the code is written
  // ---------------------------------------------------------------------

  /** Some known spec with this name has a parent, so hashing it raises. */
  predicate InheritingNamed(known: seq<EnvSpec>, name: string) {
    exists e :: e in known && e.name == name && e.inheritFrom.Some?
  }

  /** The loop of `_find_out_of_sync_environment_yml_spec` as written: the
      known specs in order; one with the loaded spec's name has its hash
      computed, which raises when it has a parent, and ends the search when
      the hashes agree. The loaded spec itself never has a parent. */
  function SyncScanAsWritten(known: seq<EnvSpec>, spec: EnvSpec, digest: string -> string): (r: Outcome<bool>)
    ensures r.Returns? ==> (r.value <==> HasSyncedCopy(known, spec, digest))
    ensures r.Raises? ==> exists i :: 0 <= i < |known| && known[i].name == spec.name && known[i].inheritFrom.Some?
    decreases |known|
  {
    if |known| == 0 then Returns(false)
    else
      var e := known[0];
      var rest := SyncScanAsWritten(known[1..], spec, digest);
      if e.name != spec.name then
        assert HasSyncedCopy(known, spec, digest) == HasSyncedCopy(known[1..], spec, digest);
        rest
      else
        match HashAsWritten(e, digest)
        case Raises => Raises
        case Returns(h) =>
          if h == ChannelsAndPackagesHash(spec, digest) then Returns(true)
          else
            assert HasSyncedCopy(known, spec, digest) == HasSyncedCopy(known[1..], spec, digest);
            rest
  }

  /** The search raises exactly when a spec of the name with a parent is
      reached: never without one, and always with one when no known spec is
      in sync. */
  lemma {:induction false} SyncScanRaises(known: seq<EnvSpec>, spec: EnvSpec, digest: string -> string)
    ensures !InheritingNamed(known, spec.name) ==> SyncScanAsWritten(known, spec, digest) == Returns(HasSyncedCopy(known, spec, digest))
    ensures SyncScanAsWritten(known, spec, digest).Raises? ==> InheritingNamed(known, spec.name)
    ensures InheritingNamed(known, spec.name) && !HasSyncedCopy(known, spec, digest) ==>
              SyncScanAsWritten(known, spec, digest).Raises?
    decreases |known|
  {
    if |known| > 0 {
      SyncScanRaises(known[1..], spec, digest);
      SyncScanStep(known, spec, digest);
    }
  }

  /** One step of the search: how the first known spec decides it. */
  lemma SyncScanStep(known: seq<EnvSpec>, spec: EnvSpec, digest: string -> string)
    requires |known| > 0
    ensures var e := known[0];
            var rest := known[1..];
            && (InheritingNamed(known, spec.name) <==>
                  (e.name == spec.name && e.inheritFrom.Some?) || InheritingNamed(rest, spec.name))
            && (HasSyncedCopy(known, spec, digest) <==> InSync(e, spec, digest) || HasSyncedCopy(rest, spec, digest))
            && SyncScanAsWritten(known, spec, digest) ==
                 if e.name != spec.name then SyncScanAsWritten(rest, spec, digest)
                 else if e.inheritFrom.Some? then Raises
                 else if InSync(e, spec, digest) then Returns(true)
                 else SyncScanAsWritten(rest, spec, digest)
  {
    assert forall x :: x in known <==> x == known[0] || x in known[1..] by {
      assert known == [known[0]] + known[1..];
    }
  }

  /** `_find_out_of_sync_environment_yml_spec(known, filename)` as written:
      it raises exactly where the search reaches a known spec of the loaded
      name that has a parent, and otherwise answers as FindOutOfSyncSpec. */
  function FindOutOfSyncSpecAsWritten(known: seq<EnvSpec>, file: EnvironmentFile, filename: string,
                                      digest: string -> string): (r: Outcome<Option<EnvSpec>>)
    requires file.Parsed? ==> NameFieldsAreStrings(file.document)
    ensures r.Returns? ==> r.value == FindOutOfSyncSpec(known, file, filename, digest)
    ensures var loaded := LoadEnvironmentYml(file, filename);
            && (r.Raises? ==> loaded.Some? && InheritingNamed(known, loaded.value.name))
            && (loaded.None? || !InheritingNamed(known, loaded.value.name) ==>
                  r == Returns(FindOutOfSyncSpec(known, file, filename, digest)))
            && (FindOutOfSyncSpec(known, file, filename, digest).Some? && InheritingNamed(known, loaded.value.name) ==>
                  r.Raises?)
  {
    match LoadEnvironmentYml(file, filename)
    case None => Returns(None)
    case Some(spec) =>
      SyncScanRaises(known, spec, digest);
      match SyncScanAsWritten(known, spec, digest)
      case Raises => Raises
      case Returns(synced) => Returns(if synced then None else Some(spec))
  }

  /** A project where `b` inherits from `a`, and an environment file naming
      `b`: as written, the search raises when it reaches `b`. */
  lemma SyncTestRaisesExample(digest: string -> string)
    ensures var a := EnvSpec("a", ["x"], [], [], None, None, None);
            var b := EnvSpec("b", ["y"], [], [], None, Some("a"), Some(a));
            SyncScanAsWritten([a, b], EnvSpec("b", ["y"], [], [], None, None, None), digest) == Raises
  {
    var a := EnvSpec("a", ["x"], [], [], None, None, None);
    var b := EnvSpec("b", ["y"], [], [], None, Some("a"), Some(a));
    assert [a, b][1..] == [b];
    assert "a" != "b" by { assert "a"[0] != "b"[0]; }
  }
}
