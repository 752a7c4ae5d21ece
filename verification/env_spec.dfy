/**
  The environment-spec algebra: combine-keeping-last-duplicate, the EnvSpec
  record with its optional parent, the effective (inherited) package and
  channel lists, the content hash, the default environment path and the
  project-file serialisation.
 */
module EnvSpecs {
  import opened Values
  import opened Text

  // ---------------------------------------------------------------------
  // Combining lists, the later list winning on clashing keys
  // ---------------------------------------------------------------------

  /** The keys of the items of a list. */
  function KeySet<T(==,!new), K>(items: seq<T>, key: T -> K): set<K> {
    set x | x in items :: key(x)
  }

  /** `p` can be obtained from `s` by deleting elements. */
  predicate Subsequence<T(==)>(p: seq<T>, s: seq<T>)
    decreases |s|
  {
    if |p| == 0 then true
    else if |s| == 0 then false
    else (p[0] == s[0] && Subsequence(p[1..], s[1..])) || Subsequence(p, s[1..])
  }

  /** No two items of the list share a key. */
  predicate KeysDistinct<T, K(==)>(items: seq<T>, key: T -> K) {
    forall i, j :: 0 <= i < j < |items| ==> key(items[i]) != key(items[j])
  }

  /** The items whose key is not claimed, in their original order. */
  function Unclaimed<T(==,!new), K(==)>(items: seq<T>, claimed: set<K>, key: T -> K): (r: seq<T>)
    ensures |r| <= |items|
    ensures forall x :: x in r <==> x in items && key(x) !in claimed
    ensures Subsequence(r, items)
    decreases |items|
  {
    if |items| == 0 then []
    else
      var rest := Unclaimed(items[1..], claimed, key);
      assert items == [items[0]] + items[1..];
      if key(items[0]) in claimed then rest
      else
        assert ([items[0]] + rest)[1..] == rest;
        [items[0]] + rest
  }

  /** `_combine_keeping_last_duplicate(base, overrides, key)`: the base items
      whose key does not occur among the overrides, then every override. */
  function Combine<T(==,!new), K(==)>(base: seq<T>, overrides: seq<T>, key: T -> K): (r: seq<T>)
    ensures |overrides| <= |r| <= |base| + |overrides|
    ensures r[|r| - |overrides|..] == overrides
    ensures forall i :: 0 <= i < |r| - |overrides| ==> key(r[i]) !in KeySet(overrides, key)
    ensures Subsequence(r[..|r| - |overrides|], base)
    ensures forall x :: x in r <==> x in overrides || (x in base && key(x) !in KeySet(overrides, key))
  {
    var kept := Unclaimed(base, KeySet(overrides, key), key);
    assert (kept + overrides)[..|kept|] == kept;
    forall i | 0 <= i < |kept| ensures key(kept[i]) !in KeySet(overrides, key) {
      assert kept[i] in kept;
    }
    kept + overrides
  }

  /** Each item occurs in the unclaimed part as often as in the list, or not
      at all when its key is claimed. */
  lemma {:induction false} UnclaimedCounts<T(!new), K>(items: seq<T>, claimed: set<K>, key: T -> K, x: T)
    ensures multiset(Unclaimed(items, claimed, key))[x] == if key(x) in claimed then 0 else multiset(items)[x]
    decreases |items|
  {
    if |items| > 0 {
      UnclaimedCounts(items[1..], claimed, key, x);
      assert items == [items[0]] + items[1..];
      assert multiset(items) == multiset([items[0]]) + multiset(items[1..]);
      var rest := Unclaimed(items[1..], claimed, key);
      if key(items[0]) !in claimed {
        assert multiset([items[0]] + rest) == multiset([items[0]]) + multiset(rest);
      }
    }
  }

  /** Each item occurs in a combination as often as among the overrides,
      plus as often as in the base unless the overrides claim its key. */
  lemma CombineCounts<T(!new), K>(base: seq<T>, overrides: seq<T>, key: T -> K, x: T)
    ensures multiset(Combine(base, overrides, key))[x] ==
            multiset(overrides)[x] + (if key(x) in KeySet(overrides, key) then 0 else multiset(base)[x])
  {
    var kept := Unclaimed(base, KeySet(overrides, key), key);
    UnclaimedCounts(base, KeySet(overrides, key), key, x);
    assert multiset(kept + overrides) == multiset(kept) + multiset(overrides);
  }

  lemma {:induction false} UnclaimedAppend<T(!new), K>(a: seq<T>, b: seq<T>, claimed: set<K>, key: T -> K)
    ensures Unclaimed(a + b, claimed, key) == Unclaimed(a, claimed, key) + Unclaimed(b, claimed, key)
    decreases |a|
  {
    if |a| == 0 {
      assert a + b == b;
    } else {
      assert (a + b)[1..] == a[1..] + b;
      UnclaimedAppend(a[1..], b, claimed, key);
    }
  }

  /** Nothing is dropped when no item's key is claimed. */
  lemma {:induction false} UnclaimedNoneClaimed<T(!new), K>(items: seq<T>, claimed: set<K>, key: T -> K)
    requires forall i :: 0 <= i < |items| ==> key(items[i]) !in claimed
    ensures Unclaimed(items, claimed, key) == items
    decreases |items|
  {
    if |items| > 0 {
      UnclaimedNoneClaimed(items[1..], claimed, key);
    }
  }

  /** Everything is dropped when every item's key is claimed. */
  lemma UnclaimedAllClaimed<T(!new), K>(items: seq<T>, claimed: set<K>, key: T -> K)
    requires forall i :: 0 <= i < |items| ==> key(items[i]) in claimed
    ensures Unclaimed(items, claimed, key) == []
  {
  }

  /** Combining with no overrides returns the base; combining onto an empty
      base returns the overrides. */
  lemma CombineIdentities<T(!new), K>(a: seq<T>, key: T -> K)
    ensures Combine(a, [], key) == a
    ensures Combine([], a, key) == a
  {
    assert KeySet([], key) == {};
    UnclaimedNoneClaimed(a, {}, key);
  }

  /** Items none of whose keys are claimed, followed by items all of whose
      keys are, keep exactly the former. */
  lemma UnclaimedKeepsUnclaimedPart<T(!new), K>(kept: seq<T>, b: seq<T>, claimed: set<K>, key: T -> K)
    requires forall i :: 0 <= i < |kept| ==> key(kept[i]) !in claimed
    requires forall i :: 0 <= i < |b| ==> key(b[i]) in claimed
    ensures Unclaimed(kept + b, claimed, key) == kept
  {
    UnclaimedAppend(kept, b, claimed, key);
    UnclaimedNoneClaimed(kept, claimed, key);
    UnclaimedAllClaimed(b, claimed, key);
    assert kept + [] == kept;
  }

  /** Re-applying the same overrides changes nothing. */
  lemma CombineIdempotent<T(!new), K>(a: seq<T>, b: seq<T>, key: T -> K)
    ensures Combine(Combine(a, b, key), b, key) == Combine(a, b, key)
  {
    var ks := KeySet(b, key);
    var kept := Unclaimed(a, ks, key);
    forall i | 0 <= i < |kept| ensures key(kept[i]) !in ks {
      assert kept[i] in kept;
    }
    forall i | 0 <= i < |b| ensures key(b[i]) in ks {
      assert b[i] in b;
    }
    UnclaimedKeepsUnclaimedPart(kept, b, ks, key);
  }

  /** A combination already holding every base item (or its override) absorbs
      the base: combining the base into it again gives it back. */
  lemma CombineAbsorbsBase<T(!new), K>(a: seq<T>, b: seq<T>, key: T -> K)
    ensures Combine(a, Combine(a, b, key), key) == Combine(a, b, key)
  {
    var c := Combine(a, b, key);
    var kc := KeySet(c, key);
    forall i | 0 <= i < |a| ensures key(a[i]) in kc {
      var x := a[i];
      assert x in a;
      if key(x) in KeySet(b, key) {
        var y :| y in b && key(y) == key(x);
        assert y in c;
      } else {
        assert x in c;
      }
    }
    UnclaimedAllClaimed(a, kc, key);
  }

  lemma {:induction false} UnclaimedKeysDistinct<T(!new), K>(items: seq<T>, claimed: set<K>, key: T -> K)
    requires KeysDistinct(items, key)
    ensures KeysDistinct(Unclaimed(items, claimed, key), key)
    decreases |items|
  {
    if |items| > 0 {
      var tail := items[1..];
      TailKeysDistinct(items, key);
      UnclaimedKeysDistinct(tail, claimed, key);
      if key(items[0]) !in claimed {
        ConsKeysDistinct(items[0], Unclaimed(tail, claimed, key), key);
      }
    }
  }

  /** Dropping the head keeps the keys distinct, and the head's key is not
      among the tail's. */
  lemma TailKeysDistinct<T, K>(items: seq<T>, key: T -> K)
    requires |items| > 0 && KeysDistinct(items, key)
    ensures KeysDistinct(items[1..], key)
    ensures forall y :: y in items[1..] ==> key(y) != key(items[0])
  {
    var tail := items[1..];
    forall i, j | 0 <= i < j < |tail| ensures key(tail[i]) != key(tail[j]) {
      assert tail[i] == items[i + 1] && tail[j] == items[j + 1];
    }
    forall y | y in tail ensures key(y) != key(items[0]) {
      var k :| 0 <= k < |tail| && tail[k] == y;
      assert items[k + 1] == y;
    }
  }

  /** Prepending an item whose key is new keeps the keys distinct. */
  lemma ConsKeysDistinct<T, K>(x: T, rest: seq<T>, key: T -> K)
    requires KeysDistinct(rest, key)
    requires forall y :: y in rest ==> key(y) != key(x)
    ensures KeysDistinct([x] + rest, key)
  {
    var r := [x] + rest;
    forall i, j | 0 <= i < j < |r| ensures key(r[i]) != key(r[j]) {
      assert r[j] == rest[j - 1];
      if i == 0 {
        assert rest[j - 1] in rest;
      } else {
        assert r[i] == rest[i - 1];
      }
    }
  }

  /** Combining two lists that each name every key once yields a list that
      names every key once. */
  lemma CombineKeysDistinct<T(!new), K>(a: seq<T>, b: seq<T>, key: T -> K)
    requires KeysDistinct(a, key) && KeysDistinct(b, key)
    ensures KeysDistinct(Combine(a, b, key), key)
  {
    var ks := KeySet(b, key);
    var kept := Unclaimed(a, ks, key);
    UnclaimedKeysDistinct(a, ks, key);
    var r := kept + b;
    assert Combine(a, b, key) == r;
    forall i, j | 0 <= i < j < |r| ensures key(r[i]) != key(r[j]) {
      if j < |kept| {
        assert r[i] == kept[i] && r[j] == kept[j];
      } else if i < |kept| {
        var y := b[j - |kept|];
        assert r[j] == y && y in b;
        assert key(y) in ks;
        assert r[i] == kept[i] && kept[i] in kept;
      } else {
        assert r[i] == b[i - |kept|] && r[j] == b[j - |kept|];
      }
    }
  }

  // ---------------------------------------------------------------------
  // The EnvSpec record
  // ---------------------------------------------------------------------

  /** An environment spec. The `own*` lists are the spec's own entries; the
      parent link is a name, optionally resolved to the parent spec itself. */
  datatype EnvSpec = EnvSpec(
    name: string,
    ownConda: seq<string>,
    ownChannels: seq<string>,
    ownPip: seq<string>,
    givenDescription: Option<string>,
    inheritFromName: Option<string>,
    inheritFrom: Option<EnvSpec>)

  /** The constructor's assertion: a resolved parent carries the name the
      link names. It is checked again by every ancestor's own construction. */
  predicate Wellformed(s: EnvSpec)
    decreases s
  {
    match s.inheritFrom
    case None => true
    case Some(p) => s.inheritFromName == Some(p.name) && Wellformed(p)
  }

  /** `EnvSpec(...)`: the assertion in the constructor fails (None) unless a
      parent object comes with a matching parent name. */
  function New(name: string, conda: seq<string>, channels: seq<string>, pip: seq<string>,
               description: Option<string>, inheritFromName: Option<string>,
               inheritFrom: Option<EnvSpec>): (r: Option<EnvSpec>)
    ensures r.Some? <==> inheritFrom.None? || (inheritFromName.Some? && inheritFromName.value == inheritFrom.value.name)
    ensures r.Some? ==> r.value.name == name && r.value.ownConda == conda && r.value.ownChannels == channels
                        && r.value.ownPip == pip && r.value.givenDescription == description
                        && r.value.inheritFromName == inheritFromName && r.value.inheritFrom == inheritFrom
    ensures r.Some? && (inheritFrom.Some? ==> Wellformed(inheritFrom.value)) ==> Wellformed(r.value)
  {
    if inheritFrom.None? || inheritFromName == Some(inheritFrom.value.name) then
      Some(EnvSpec(name, conda, channels, pip, description, inheritFromName, inheritFrom))
    else None
  }

  /** The `description` property. */
  function Description(s: EnvSpec): (r: string)
    ensures s.givenDescription.None? ==> r == s.name
    ensures s.givenDescription.Some? ==> r == s.givenDescription.value
  {
    match s.givenDescription
    case None => s.name
    case Some(d) => d
  }

  datatype ListKind = Conda | Channels | Pip

  function Own(s: EnvSpec, kind: ListKind): seq<string> {
    match kind
    case Conda => s.ownConda
    case Channels => s.ownChannels
    case Pip => s.ownPip
  }

  /** Package specs and channels are their own keys. */
  function Itself(x: string): string { x }

  /** The `conda_packages`, `channels` and `pip_packages` properties: the own
      list, combined over the parent's effective list when there is a parent. */
  function Effective(s: EnvSpec, kind: ListKind): (r: seq<string>)
    ensures s.inheritFrom.None? ==> r == Own(s, kind)
    ensures |Own(s, kind)| <= |r| && r[|r| - |Own(s, kind)|..] == Own(s, kind)
    decreases s
  {
    match s.inheritFrom
    case None => Own(s, kind)
    case Some(p) => Combine(Effective(p, kind), Own(s, kind), Itself)
  }

  // ---------------------------------------------------------------------
  // The inherited lists as the code is written
  // ---------------------------------------------------------------------

  /** The two Python sequence types the combine code meets: the list it
      builds and the tuples the constructor stores. */
  datatype PySeq = PyList(items: seq<string>) | PyTuple(items: seq<string>)

  /** `_combine_keeping_last_duplicate(items1, items2)` as written: the
      filtered base is a list, and `list + items2` raises unless `items2` is a
      list too; with a list it is the combine rule. */
  function CombineAsWritten(items1: seq<string>, items2: PySeq): (r: Outcome<seq<string>>)
    ensures r.Raises? <==> items2.PyTuple?
    ensures r.Returns? ==> r.value == Combine(items1, items2.items, Itself)
  {
    match items2
    case PyTuple(_) => Raises
    case PyList(items) => Returns(Combine(items1, items, Itself))
  }

  /** The list properties as written: `_get_inherited` passes the spec's own
      stored tuple as `items2`, so reading them raises on every spec with a
      parent, and returns the own list on a spec without one. */
  function EffectiveAsWritten(s: EnvSpec, kind: ListKind): (r: Outcome<seq<string>>)
    ensures r.Raises? <==> s.inheritFrom.Some?
    ensures r.Returns? ==> r.value == Effective(s, kind)
    decreases s
  {
    match s.inheritFrom
    case None => Returns(Own(s, kind))
    case Some(p) =>
      match EffectiveAsWritten(p, kind)
      case Raises => Raises
      case Returns(base) => CombineAsWritten(base, PyTuple(Own(s, kind)))
  }

  /** `b` inherits from `a`: as written, reading `b`'s packages raises, while
      the combine rule gives the parent's `x` followed by the child's `y`. */
  lemma InheritedListRaises()
    ensures var a := EnvSpec("a", ["x"], [], [], None, None, None);
            var b := EnvSpec("b", ["y"], [], [], None, Some("a"), Some(a));
            EffectiveAsWritten(b, Conda) == Raises && Effective(b, Conda) == ["x", "y"]
  {
    var a := EnvSpec("a", ["x"], [], [], None, None, None);
    var claimed := KeySet(["y"], Itself);
    assert "x" !in claimed by {
      forall z | z in ["y"] ensures Itself(z) != "x" {
        assert z == "y";
      }
    }
    assert Unclaimed(["x"], claimed, Itself) == ["x"] by {
      assert ["x"][1..] == [];
    }
  }

  /** With the base list converted to match, as `combined + list(items2)`
      would, inheriting is the combine rule: the as-written code agrees with
      it exactly where it does not raise. */
  lemma CombineWithListAgrees(items1: seq<string>, items2: seq<string>)
    ensures CombineAsWritten(items1, PyList(items2)) == Returns(Combine(items1, items2, Itself))
    ensures CombineAsWritten(items1, PyTuple(items2)) == Raises
  {
  }

  /** The spec's ancestors, root first, ending with the spec itself. */
  function Lineage(s: EnvSpec): (r: seq<EnvSpec>)
    ensures |r| >= 1 && r[|r| - 1] == s
    ensures r[0].inheritFrom.None?
    ensures forall i :: 0 <= i < |r| - 1 ==> r[i + 1].inheritFrom == Some(r[i])
    decreases s
  {
    match s.inheritFrom
    case None => [s]
    case Some(p) => Lineage(p) + [s]
  }

  /** Applying the combine rule generation by generation, root first. */
  function CombineDown(acc: seq<string>, generations: seq<EnvSpec>, kind: ListKind): seq<string>
    decreases |generations|
  {
    if |generations| == 0 then acc
    else CombineDown(Combine(acc, Own(generations[0], kind), Itself), generations[1..], kind)
  }

  lemma {:induction false} CombineDownSnoc(acc: seq<string>, generations: seq<EnvSpec>, last: EnvSpec, kind: ListKind)
    ensures CombineDown(acc, generations + [last], kind) ==
            Combine(CombineDown(acc, generations, kind), Own(last, kind), Itself)
    decreases |generations|
  {
    if |generations| == 0 {
      assert generations + [last] == [last];
    } else {
      assert (generations + [last])[1..] == generations[1..] + [last];
      CombineDownSnoc(Combine(acc, Own(generations[0], kind), Itself), generations[1..], last, kind);
    }
  }

  /** The effective list is the combine rule applied over the whole lineage,
      starting from the root with nothing. */
  lemma {:induction false} EffectiveFromRoot(s: EnvSpec, kind: ListKind)
    ensures Effective(s, kind) == CombineDown([], Lineage(s), kind)
    decreases s
  {
    match s.inheritFrom
    case None =>
      CombineIdentities(Own(s, kind), Itself);
    case Some(p) =>
      EffectiveFromRoot(p, kind);
      CombineDownSnoc([], Lineage(p), s, kind);
  }

  /** Three generations: the grandparent's list, overridden by the parent's,
      overridden by the child's. */
  lemma ThreeGenerations(child: EnvSpec, kind: ListKind)
    requires child.inheritFrom.Some? && child.inheritFrom.value.inheritFrom.Some?
    requires child.inheritFrom.value.inheritFrom.value.inheritFrom.None?
    ensures var parent := child.inheritFrom.value;
            var grandparent := parent.inheritFrom.value;
            Effective(child, kind) ==
            Combine(Combine(Own(grandparent, kind), Own(parent, kind), Itself), Own(child, kind), Itself)
  {
  }

  /** Every effective entry is declared by the spec or one of its ancestors. */
  lemma {:induction false} EffectiveEntriesAreDeclared(s: EnvSpec, kind: ListKind, x: string)
    requires x in Effective(s, kind)
    ensures exists g :: g in Lineage(s) && x in Own(g, kind)
    decreases s
  {
    match s.inheritFrom
    case None =>
      assert s in Lineage(s);
    case Some(p) =>
      if x !in Own(s, kind) {
        EffectiveEntriesAreDeclared(p, kind, x);
        var g :| g in Lineage(p) && x in Own(g, kind);
        assert g in Lineage(s);
      } else {
        assert s in Lineage(s);
      }
  }

  /** An entry the child declares once appears once in the effective list,
      in the child's part at the end, however often the ancestors declared it. */
  lemma ChildEntryWins(s: EnvSpec, kind: ListKind, x: string)
    requires s.inheritFrom.Some?
    requires x in Own(s, kind) && multiset(Own(s, kind))[x] == 1
    ensures multiset(Effective(s, kind))[x] == 1
    ensures var r := Effective(s, kind);
            forall i :: 0 <= i < |r| && r[i] == x ==> i >= |r| - |Own(s, kind)|
  {
    assert Itself(x) in KeySet(Own(s, kind), Itself);
    CombineCounts(Effective(s.inheritFrom.value, kind), Own(s, kind), Itself, x);
  }

  // ---------------------------------------------------------------------
  // Content hash
  // ---------------------------------------------------------------------

  /** The text fed to the digest: effective conda packages, then pip
      packages, then channels, with no separators anywhere. */
  function HashInput(s: EnvSpec): string {
    Flatten(Effective(s, Conda)) + Flatten(Effective(s, Pip)) + Flatten(Effective(s, Channels))
  }

  /** `channels_and_packages_hash`. The digest (SHA-1 over the UTF-8 bytes,
      as hex) is a parameter; caching a pure value changes nothing. */
  function ChannelsAndPackagesHash(s: EnvSpec, digest: string -> string): (r: string)
    ensures r == digest(Flatten(Effective(s, Conda) + Effective(s, Pip) + Effective(s, Channels)))
  {
    HashInputIsOneRun(s);
    digest(HashInput(s))
  }

  /** `channels_and_packages_hash` as written: reading the inherited lists
      raises on a spec with a parent; otherwise it is the digest above. */
  function HashAsWritten(s: EnvSpec, digest: string -> string): (r: Outcome<string>)
    ensures r.Raises? <==> s.inheritFrom.Some?
    ensures r.Returns? ==> r.value == ChannelsAndPackagesHash(s, digest)
  {
    match (EffectiveAsWritten(s, Conda), EffectiveAsWritten(s, Pip), EffectiveAsWritten(s, Channels))
    case (Returns(conda), Returns(pip), Returns(channels)) =>
      HashInputIsOneRun(s);
      Returns(digest(Flatten(conda) + Flatten(pip) + Flatten(channels)))
    case _ => Raises
  }

  /** The three lists are digested as one run of strings: the list
      boundaries leave no trace either. */
  lemma HashInputIsOneRun(s: EnvSpec)
    ensures HashInput(s) == Flatten(Effective(s, Conda) + Effective(s, Pip) + Effective(s, Channels))
  {
    FlattenAppend(Effective(s, Conda), Effective(s, Pip));
    FlattenAppend(Effective(s, Conda) + Effective(s, Pip), Effective(s, Channels));
  }

  /** Specs whose entries concatenate to the same text hash alike, whatever
      their names, descriptions or segmentation. */
  lemma HashSeesOnlyConcatenation(a: EnvSpec, b: EnvSpec, digest: string -> string)
    requires Flatten(Effective(a, Conda) + Effective(a, Pip) + Effective(a, Channels)) ==
             Flatten(Effective(b, Conda) + Effective(b, Pip) + Effective(b, Channels))
    ensures ChannelsAndPackagesHash(a, digest) == ChannelsAndPackagesHash(b, digest)
  {
    HashInputIsOneRun(a);
    HashInputIsOneRun(b);
  }

  /** `["ab", "c"]` and `["a", "bc"]` collide. */
  lemma SegmentationCollision(digest: string -> string)
    ensures ChannelsAndPackagesHash(EnvSpec("x", ["ab", "c"], [], [], None, None, None), digest) ==
            ChannelsAndPackagesHash(EnvSpec("y", ["a", "bc"], [], [], None, None, None), digest)
  {
    var a := EnvSpec("x", ["ab", "c"], [], [], None, None, None);
    var b := EnvSpec("y", ["a", "bc"], [], [], None, None, None);
    assert Flatten(["ab", "c"]) == "abc";
    assert Flatten(["a", "bc"]) == "abc";
    assert HashInput(a) == HashInput(b);
  }

  /** A child that adds nothing of its own hashes like its parent. */
  lemma EmptyChildHashesLikeParent(s: EnvSpec, digest: string -> string)
    requires s.inheritFrom.Some?
    requires s.ownConda == [] && s.ownChannels == [] && s.ownPip == []
    ensures ChannelsAndPackagesHash(s, digest) == ChannelsAndPackagesHash(s.inheritFrom.value, digest)
  {
    var p := s.inheritFrom.value;
    CombineIdentities(Effective(p, Conda), Itself);
    CombineIdentities(Effective(p, Pip), Itself);
    CombineIdentities(Effective(p, Channels), Itself);
  }

  // ---------------------------------------------------------------------
  // Path and serialisation
  // ---------------------------------------------------------------------

  /** `path(project_dir)`: `os.path.join(project_dir, "envs", name)`. */
  function Path(s: EnvSpec, projectDir: string): (r: string)
    ensures '/' !in s.name ==> Basename(r) == s.name
    ensures StartsWith(s.name, "/") ==> r == s.name
    ensures !StartsWith(s.name, "/") ==> StartsWith(r, projectDir) && EndsWith(r, s.name)
    ensures !StartsWith(s.name, "/") ==> r == AsDirectory(projectDir) + "envs" + "/" + s.name
  {
    assert !StartsWith("envs", "/") && !EndsWith("envs", "/") by {
      assert "envs"[..1] == "e" && "envs"[3..] == "s";
    }
    JoinBelow(projectDir, "envs", s.name);
    PathJoin(PathJoin(projectDir, "envs"), s.name)
  }

  /** The `{pip: [...]}` entry of a packages list. */
  function PipEntry(pip: seq<string>): Yaml {
    YMap([("pip", YList(AsStrings(pip)))])
  }

  /** The `{pip: [...]}` entry ending a packages list, present only when
      there are pip packages. */
  function PipTail(pip: seq<string>): seq<Yaml> {
    if pip == [] then [] else [PipEntry(pip)]
  }

  /** A project-file env spec section holding the given lists: the conda
      packages followed, when there are pip packages, by one `{pip: [...]}`
      entry; the channels; and the parent name when there is one. */
  function SectionJson(conda: seq<string>, channels: seq<string>, pip: seq<string>,
                       inheritFromName: Option<string>): (r: Yaml)
    ensures r.YMap? && DistinctKeys(r.entries)
    ensures Lookup(r.entries, "packages") == Some(YList(AsStrings(conda) + PipTail(pip)))
    ensures Lookup(r.entries, "channels") == Some(YList(AsStrings(channels)))
    ensures HasKey(r.entries, "inherit_from") <==> inheritFromName.Some?
    ensures inheritFromName.Some? ==> Lookup(r.entries, "inherit_from") == Some(YStr(inheritFromName.value))
  {
    var packages := YList(AsStrings(conda) + PipTail(pip));
    var base := [("packages", packages), ("channels", YList(AsStrings(channels)))];
    assert "inherit_from"[0] == 'i' && "packages"[0] == 'p' && "channels"[0] == 'c';
    match inheritFromName
    case None =>
      assert base[0].0 != "inherit_from" && base[1].0 != "inherit_from";
      YMap(base)
    case Some(parent) =>
      var entries := base + [("inherit_from", YStr(parent))];
      assert entries[1..][1..] == [("inherit_from", YStr(parent))];
      assert entries[2].0 == "inherit_from";
      YMap(entries)
  }

  /** `to_json()`: the project-file form of the spec. It writes the
      effective lists, which already include what the parent provides. */
  function ToJson(s: EnvSpec): (r: Yaml)
    ensures r.YMap? && DistinctKeys(r.entries)
    ensures Lookup(r.entries, "packages") == Some(YList(AsStrings(Effective(s, Conda)) + PipTail(Effective(s, Pip))))
    ensures Lookup(r.entries, "channels") == Some(YList(AsStrings(Effective(s, Channels))))
    ensures s.inheritFromName.Some? ==> Lookup(r.entries, "inherit_from") == Some(YStr(s.inheritFromName.value))
    ensures HasKey(r.entries, "inherit_from") <==> s.inheritFromName.Some?
  {
    var conda := Effective(s, Conda);
    var channels := Effective(s, Channels);
    var pip := Effective(s, Pip);
    SectionJson(conda, channels, pip, s.inheritFromName)
  }

  /** `to_json()` as written: it reads the inherited lists first, so it
      raises on a spec with a parent. */
  function ToJsonAsWritten(s: EnvSpec): (r: Outcome<Yaml>)
    ensures r.Raises? <==> s.inheritFrom.Some?
    ensures r.Returns? ==> r.value == ToJson(s)
  {
    match (EffectiveAsWritten(s, Conda), EffectiveAsWritten(s, Pip), EffectiveAsWritten(s, Channels))
    case (Returns(conda), Returns(pip), Returns(channels)) => Returns(SectionJson(conda, channels, pip, s.inheritFromName))
    case _ => Raises
  }
}
