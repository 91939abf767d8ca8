/** `groupByType`: commits folded into an insertion-ordered map from a group key (the
    lower-cased type, or the key for non-conventional commits) to the commits of that group. */
module Grouping {
  import opened Wrappers
  import opened Seqs
  import opened Text
  import opened Classify

  /** The options as the caller writes them; an absent option takes its default. */
  datatype GroupByTypeOptions = GroupByTypeOptions(
    includeNonConventional: Option<bool>,
    nonConventionalKey: Option<string>,
    excludeKeys: Option<seq<string>>)

  /** The options after destructuring with defaults: each absent option takes its own
      default, whatever the other options are. */
  datatype Settings = Settings(
    includeNonConventional: bool,
    nonConventionalKey: string,
    excludeKeys: seq<string>)

  /** `opts = {}`: every option absent. */
  const NoOptions := GroupByTypeOptions(None, None, None)

  /** `const { includeNonConventional = true, nonConventionalKey = "misc", excludeKeys = [] } = opts`. */
  function Resolve(opts: GroupByTypeOptions): (o: Settings)
    ensures opts.includeNonConventional.Some? ==> o.includeNonConventional == opts.includeNonConventional.value
    ensures opts.nonConventionalKey.Some? ==> o.nonConventionalKey == opts.nonConventionalKey.value
    ensures opts.excludeKeys.Some? ==> o.excludeKeys == opts.excludeKeys.value
    ensures opts.includeNonConventional.None? ==> o.includeNonConventional
    ensures opts.nonConventionalKey.None? ==> o.nonConventionalKey == "misc"
    ensures opts.excludeKeys.None? ==> o.excludeKeys == []
  {
    Settings(
      match opts.includeNonConventional case Some(b) => b case None => true,
      match opts.nonConventionalKey case Some(k) => k case None => "misc",
      match opts.excludeKeys case Some(ks) => ks case None => [])
  }

  /** Without options, non-conventional commits are kept under `"misc"` and nothing is
      excluded. */
  lemma Defaults()
    ensures Resolve(NoOptions) == Settings(true, "misc", [])
  {
  }

  /** Giving only a custom non-conventional key keeps the other defaults: a non-conventional
      commit is still included, under that key, and nothing is excluded. */
  lemma CustomKeyOnly(c: Commit, k: string)
    requires !c.isConventional
    ensures KeyOf(c, Resolve(GroupByTypeOptions(None, Some(k), None))) == Some(k)
  {
  }

  /** The key one pass of the loop files `c` under, or `None` when a `continue` skips it. */
  function KeyOf(c: Commit, o: Settings): Option<string>
  {
    if !c.isConventional && !o.includeNonConventional then None
    else
      var key := if !c.isConventional then o.nonConventionalKey else ToLower(c.commitType);
      if c.isConventional && key == "" then None
      else if key in o.excludeKeys then None
      else Some(key)
  }

  /** The key of a commit, case by case: a conventional commit goes under its lower-cased,
      non-empty type, a non-conventional one under the non-conventional key when such commits
      are included, and no commit under an excluded key. */
  lemma KeyOfSpec(c: Commit, o: Settings, k: string)
    ensures KeyOf(c, o) == Some(k) <==>
      && k !in o.excludeKeys
      && (c.isConventional ==> k == ToLower(c.commitType) && k != "")
      && (!c.isConventional ==> o.includeNonConventional && k == o.nonConventionalKey)
  {
  }

  /** The map: its keys in insertion order, and the group of each key. */
  datatype Groups = Groups(keys: seq<string>, members: map<string, seq<Commit>>)

  /** `group = groupedCommits.get(key) ?? []; group.push(c); groupedCommits.set(key, group)`:
      a present key keeps its place, a new one goes last. */
  function Add(g: Groups, key: string, c: Commit): (r: Groups)
    ensures key in r.members
  {
    var group := if key in g.members then g.members[key] else [];
    Groups(if key in g.members then g.keys else g.keys + [key], g.members[key := group + [c]])
  }

  /** The map after the loop has seen `commits`. */
  function Grouped(commits: seq<Commit>, o: Settings): Groups
  {
    if commits == [] then Groups([], map[])
    else
      var g := Grouped(commits[..|commits| - 1], o);
      var c := commits[|commits| - 1];
      match KeyOf(c, o)
      case None => g
      case Some(k) => Add(g, k, c)
  }

  /** `groupByType(commits, opts)`. */
  method GroupByType(commits: seq<Commit>, opts: GroupByTypeOptions)
      returns (keys: seq<string>, groupedCommits: map<string, seq<Commit>>)
    ensures Groups(keys, groupedCommits) == Grouped(commits, Resolve(opts))
  {
    var o := Resolve(opts);
    var includeNonConventional, nonConventionalKey, excludeKeys :=
      o.includeNonConventional, o.nonConventionalKey, o.excludeKeys;
    keys, groupedCommits := [], map[];
    for i := 0 to |commits|
      invariant Groups(keys, groupedCommits) == Grouped(commits[..i], o)
    {
      var commit := commits[i];
      assert commits[..i + 1][..i] == commits[..i];
      if !commit.isConventional && !includeNonConventional {
        continue;
      }
      var key: string;
      if !commit.isConventional {
        key := nonConventionalKey;
      } else {
        var commitType := ToLower(commit.commitType);
        if commitType == "" {
          continue;
        }
        key := commitType;
      }
      if key in excludeKeys {
        continue;
      }
      var group := if key in groupedCommits then groupedCommits[key] else [];
      group := group + [commit];
      if key !in groupedCommits {
        keys := keys + [key];
      }
      groupedCommits := groupedCommits[key := group];
    }
    assert commits[..|commits|] == commits;
  }

  // ---------------------------------------------------------------------------
  // The groups, defined independently of the loop
  // ---------------------------------------------------------------------------

  /** The keys of the commits the loop keeps, one per kept commit, in input order. */
  function KeySeq(commits: seq<Commit>, o: Settings): (ks: seq<string>)
    ensures |ks| <= |commits|
  {
    if commits == [] then []
    else
      KeySeq(commits[..|commits| - 1], o)
        + match KeyOf(commits[|commits| - 1], o) case Some(k) => [k] case None => []
  }

  /** The commits filed under `k`, in input order. */
  function Members(commits: seq<Commit>, o: Settings, k: string): seq<Commit>
  {
    if commits == [] then []
    else
      Members(commits[..|commits| - 1], o, k)
        + if KeyOf(commits[|commits| - 1], o) == Some(k) then [commits[|commits| - 1]] else []
  }

  /** `g` is the map the loop builds from `commits`, described without the loop. */
  ghost predicate GroupsAre(g: Groups, commits: seq<Commit>, o: Settings)
  {
    && g.keys == Dedup(KeySeq(commits, o))
    && (forall k :: k in g.members <==> k in g.keys)
    && (forall k :: k in g.members ==> g.members[k] == Members(commits, o, k))
  }

  /** The map after the loop: the keys are the distinct keys of the kept commits in order of
      first occurrence; the map holds exactly those keys, and each group is the kept commits
      with that key, in input order. */
  lemma {:induction false} GroupedSpec(commits: seq<Commit>, o: Settings)
    ensures Grouped(commits, o).keys == Dedup(KeySeq(commits, o))
    ensures forall k :: k in Grouped(commits, o).members <==> k in Grouped(commits, o).keys
    ensures forall k :: k in Grouped(commits, o).members ==>
              Grouped(commits, o).members[k] == Members(commits, o, k)
    decreases |commits|
  {
    if commits != [] {
      var pre := commits[..|commits| - 1];
      GroupedSpec(pre, o);
      match KeyOf(commits[|commits| - 1], o)
      case None => SkipStep(commits, o);
      case Some(key) => AddStep(commits, o, key);
    }
  }

  /** A skipped commit changes neither the map nor its description. */
  lemma SkipStep(commits: seq<Commit>, o: Settings)
    requires commits != [] && KeyOf(commits[|commits| - 1], o).None?
    requires GroupsAre(Grouped(commits[..|commits| - 1], o), commits[..|commits| - 1], o)
    ensures GroupsAre(Grouped(commits[..|commits| - 1], o), commits, o)
  {
    var pre := commits[..|commits| - 1];
    var g := Grouped(pre, o);
    assert KeySeq(commits, o) == KeySeq(pre, o) + [];
    assert KeySeq(pre, o) + [] == KeySeq(pre, o);
    forall k | k in g.members ensures g.members[k] == Members(commits, o, k) {
      assert Members(commits, o, k) == Members(pre, o, k) + [];
    }
  }

  /** A kept commit goes last in the group of its key. */
  lemma AddStep(commits: seq<Commit>, o: Settings, key: string)
    requires commits != [] && KeyOf(commits[|commits| - 1], o) == Some(key)
    requires GroupsAre(Grouped(commits[..|commits| - 1], o), commits[..|commits| - 1], o)
    ensures GroupsAre(Add(Grouped(commits[..|commits| - 1], o), key, commits[|commits| - 1]), commits, o)
  {
    var r := Add(Grouped(commits[..|commits| - 1], o), key, commits[|commits| - 1]);
    AddKeys(commits, o, key);
    forall k | k in r.members ensures r.members[k] == Members(commits, o, k) {
      AddMember(commits, o, key, k);
    }
  }

  /** The key order after a kept commit. */
  lemma AddKeys(commits: seq<Commit>, o: Settings, key: string)
    requires commits != [] && KeyOf(commits[|commits| - 1], o) == Some(key)
    requires GroupsAre(Grouped(commits[..|commits| - 1], o), commits[..|commits| - 1], o)
    ensures Add(Grouped(commits[..|commits| - 1], o), key, commits[|commits| - 1]).keys
         == Dedup(KeySeq(commits, o))
  {
    var pre := commits[..|commits| - 1];
    var g := Grouped(pre, o);
    assert KeySeq(commits, o) == KeySeq(pre, o) + [key];
    DedupSnoc(KeySeq(pre, o), key);
    assert key in KeySeq(pre, o) <==> key in g.keys;
  }

  /** The group of one key after a kept commit. */
  lemma AddMember(commits: seq<Commit>, o: Settings, key: string, k: string)
    requires commits != [] && KeyOf(commits[|commits| - 1], o) == Some(key)
    requires GroupsAre(Grouped(commits[..|commits| - 1], o), commits[..|commits| - 1], o)
    requires k in Add(Grouped(commits[..|commits| - 1], o), key, commits[|commits| - 1]).members
    ensures Add(Grouped(commits[..|commits| - 1], o), key, commits[|commits| - 1]).members[k]
         == Members(commits, o, k)
  {
    var pre := commits[..|commits| - 1];
    var c := commits[|commits| - 1];
    var g := Grouped(pre, o);
    if k == key {
      assert Members(commits, o, k) == Members(pre, o, k) + [c];
      if key !in g.members {
        MembersAbsent(pre, o, key);
      }
    } else {
      assert Members(commits, o, k) == Members(pre, o, k) + [];
    }
  }

  /** A key that no kept commit has has an empty group. */
  lemma {:induction false} MembersAbsent(commits: seq<Commit>, o: Settings, k: string)
    requires k !in KeySeq(commits, o)
    ensures Members(commits, o, k) == []
    decreases |commits|
  {
    if commits != [] {
      var pre := commits[..|commits| - 1];
      assert KeySeq(commits, o) == KeySeq(pre, o)
        + match KeyOf(commits[|commits| - 1], o) case Some(k') => [k'] case None => [];
      MembersAbsent(pre, o, k);
    }
  }

  /** A commit is in the group of `k` only if the loop files it under `k`. */
  lemma {:induction false} MembersHaveKey(commits: seq<Commit>, o: Settings, k: string, c: Commit)
    requires c in Members(commits, o, k)
    ensures KeyOf(c, o) == Some(k)
    decreases |commits|
  {
    var pre := commits[..|commits| - 1];
    if c !in Members(pre, o, k) {
      assert c == commits[|commits| - 1];
    } else {
      MembersHaveKey(pre, o, k, c);
    }
  }

  /** Every kept commit is in the group of its key. */
  lemma {:induction false} KeptIsMember(commits: seq<Commit>, o: Settings, i: nat)
    requires i < |commits| && KeyOf(commits[i], o).Some?
    ensures commits[i] in Members(commits, o, KeyOf(commits[i], o).value)
    ensures KeyOf(commits[i], o).value in KeySeq(commits, o)
    decreases |commits|
  {
    var pre := commits[..|commits| - 1];
    var k := KeyOf(commits[i], o).value;
    if i < |commits| - 1 {
      assert commits[i] == pre[i];
      KeptIsMember(pre, o, i);
    }
  }

  /** A key that a kept commit has has a non-empty group. */
  lemma {:induction false} KeyHasMember(commits: seq<Commit>, o: Settings, k: string)
    requires k in KeySeq(commits, o)
    ensures |Members(commits, o, k)| > 0
    decreases |commits|
  {
    var pre := commits[..|commits| - 1];
    if k in KeySeq(pre, o) {
      KeyHasMember(pre, o, k);
    }
  }

  /** What `groupByType` promises: the keys are distinct; every group is non-empty; every
      commit of a group is filed under that group's key, so no commit is in two groups; and
      every commit that is not skipped is in the group of its key. */
  lemma GroupsSound(commits: seq<Commit>, o: Settings)
    ensures var g := Grouped(commits, o);
      && NoDuplicates(g.keys)
      && (forall k :: k in g.members ==> |g.members[k]| > 0)
      && (forall k, c :: k in g.members && c in g.members[k] ==> KeyOf(c, o) == Some(k))
      && (forall i :: 0 <= i < |commits| && KeyOf(commits[i], o).Some? ==>
            KeyOf(commits[i], o).value in g.members
            && commits[i] in g.members[KeyOf(commits[i], o).value])
  {
    var g := Grouped(commits, o);
    GroupedSpec(commits, o);
    forall k | k in g.members ensures |g.members[k]| > 0 {
      KeyHasMember(commits, o, k);
    }
    forall k, c | k in g.members && c in g.members[k] ensures KeyOf(c, o) == Some(k) {
      MembersHaveKey(commits, o, k, c);
    }
    forall i | 0 <= i < |commits| && KeyOf(commits[i], o).Some?
      ensures KeyOf(commits[i], o).value in g.members
      ensures commits[i] in g.members[KeyOf(commits[i], o).value]
    {
      KeptIsMember(commits, o, i);
    }
  }

  /** No group has an excluded key; without non-conventional commits every grouped commit is
      conventional; a conventional commit is grouped only under its lower-cased type, which is
      not empty; and the empty key can only be the non-conventional key. */
  lemma GroupKeys(commits: seq<Commit>, o: Settings)
    ensures var g := Grouped(commits, o);
      && (forall k :: k in g.members ==> k !in o.excludeKeys)
      && (forall k, c :: k in g.members && c in g.members[k] ==>
            if c.isConventional then k == ToLower(c.commitType) && c.commitType != ""
            else o.includeNonConventional && k == o.nonConventionalKey)
      && ("" in g.members ==> o.includeNonConventional && o.nonConventionalKey == "")
  {
    var g := Grouped(commits, o);
    GroupsSound(commits, o);
    forall k | k in g.members ensures k !in o.excludeKeys {
      KeyOfSpec(g.members[k][0], o, k);
    }
    forall k, c | k in g.members && c in g.members[k]
      ensures if c.isConventional then k == ToLower(c.commitType) && c.commitType != ""
              else o.includeNonConventional && k == o.nonConventionalKey
    {
      KeyOfSpec(c, o, k);
      assert |ToLower(c.commitType)| == |c.commitType|;
    }
  }

  // ---------------------------------------------------------------------------
  // Sizes
  // ---------------------------------------------------------------------------

  /** The sum of the group sizes over `keys`. */
  function Total(keys: seq<string>, m: map<string, seq<Commit>>): nat
    requires forall i :: 0 <= i < |keys| ==> keys[i] in m
  {
    if keys == [] then 0 else |m[keys[0]]| + Total(keys[1..], m)
  }

  lemma {:induction false} TotalSame(keys: seq<string>, m1: map<string, seq<Commit>>,
                                     m2: map<string, seq<Commit>>)
    requires forall i :: 0 <= i < |keys| ==> keys[i] in m1 && keys[i] in m2 && m1[keys[i]] == m2[keys[i]]
    ensures Total(keys, m1) == Total(keys, m2)
  {
    if keys != [] {
      TotalSame(keys[1..], m1, m2);
    }
  }

  lemma {:induction false} TotalSnoc(keys: seq<string>, m: map<string, seq<Commit>>, k: string)
    requires forall i :: 0 <= i < |keys| ==> keys[i] in m
    requires k in m
    ensures Total(keys + [k], m) == Total(keys, m) + |m[k]|
  {
    if keys == [] {
      assert [] + [k] == [k];
    } else {
      assert (keys + [k])[1..] == keys[1..] + [k];
      TotalSnoc(keys[1..], m, k);
    }
  }

  lemma {:induction false} TotalBump(keys: seq<string>, m: map<string, seq<Commit>>, k: string, c: Commit)
    requires forall i :: 0 <= i < |keys| ==> keys[i] in m
    requires NoDuplicates(keys) && k in keys
    ensures Total(keys, m[k := m[k] + [c]]) == Total(keys, m) + 1
  {
    var m' := m[k := m[k] + [c]];
    if keys[0] == k {
      assert k !in keys[1..];
      TotalSame(keys[1..], m, m');
    } else {
      TotalBump(keys[1..], m, k, c);
    }
  }

  /** Adding a commit to a map whose keys are distinct and are its domain adds one to the
      total size. */
  lemma AddTotal(g: Groups, key: string, c: Commit)
    requires NoDuplicates(g.keys) && forall k :: k in g.members <==> k in g.keys
    ensures forall i :: 0 <= i < |Add(g, key, c).keys| ==> Add(g, key, c).keys[i] in Add(g, key, c).members
    ensures Total(Add(g, key, c).keys, Add(g, key, c).members) == Total(g.keys, g.members) + 1
  {
    if key in g.members {
      TotalBump(g.keys, g.members, key, c);
    } else {
      var m := g.members[key := [c]];
      assert [] + [c] == [c];
      assert Add(g, key, c) == Groups(g.keys + [key], m);
      TotalSame(g.keys, g.members, m);
      TotalSnoc(g.keys, m, key);
    }
  }

  /** The group sizes add up to the number of commits the loop keeps. */
  lemma {:induction false} GroupSizes(commits: seq<Commit>, o: Settings)
    ensures var g := Grouped(commits, o);
      (forall i :: 0 <= i < |g.keys| ==> g.keys[i] in g.members)
      && Total(g.keys, g.members) == |KeySeq(commits, o)|
    decreases |commits|
  {
    if commits != [] {
      var pre := commits[..|commits| - 1];
      var c := commits[|commits| - 1];
      GroupSizes(pre, o);
      GroupedSpec(pre, o);
      match KeyOf(c, o)
      case None =>
        assert KeySeq(commits, o) == KeySeq(pre, o) + [];
      case Some(key) =>
        assert KeySeq(commits, o) == KeySeq(pre, o) + [key];
        AddTotal(Grouped(pre, o), key, c);
    }
  }
}
