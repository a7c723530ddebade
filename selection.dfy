/**
 * Name lookups against the exclusion and priority lists (`shouldExcludeRepo`,
 * `getPriorityIndex`) and the loop in `main` that drops excluded repositories.
 */
module Selection {
  import opened Text
  import opened Positions
  import opened GitHub

  /** `shouldExcludeRepo`: some entry of the list names the repository, ignoring case. */
  function ShouldExcludeRepo(repoName: string, excludeList: seq<string>): (b: bool)
    ensures b <==> exists k :: 0 <= k < |excludeList| && EqualFold(repoName, excludeList[k])
  {
    if excludeList == [] then false
    else if EqualFold(repoName, excludeList[0]) then true
    else
      var rest := ShouldExcludeRepo(repoName, excludeList[1..]);
      assert forall k :: 1 <= k < |excludeList| ==> excludeList[k] == excludeList[1..][k - 1];
      rest
  }

  /** `getPriorityIndex`: the first position whose entry names the repository, ignoring case, or -1. */
  function GetPriorityIndex(repoName: string, priorityList: seq<string>): (i: int)
    ensures -1 <= i < |priorityList|
    ensures i >= 0 ==> EqualFold(repoName, priorityList[i])
    ensures forall k :: 0 <= k < |priorityList| && (i < 0 || k < i) ==> !EqualFold(repoName, priorityList[k])
  {
    if priorityList == [] then -1
    else if EqualFold(repoName, priorityList[0]) then 0
    else
      var j := GetPriorityIndex(repoName, priorityList[1..]);
      assert forall k :: 1 <= k < |priorityList| ==> priorityList[k] == priorityList[1..][k - 1];
      if j < 0 then -1 else j + 1
  }

  /** The two lookups agree: a name is listed exactly when it has a priority index. */
  lemma ListedIffIndexed(repoName: string, list: seq<string>)
    ensures ShouldExcludeRepo(repoName, list) <==> GetPriorityIndex(repoName, list) >= 0
  {
  }

  /** Names that differ only in ASCII case get the same priority index. */
  lemma PriorityIgnoresCase(a: string, b: string, list: seq<string>)
    requires EqualFold(a, b)
    ensures GetPriorityIndex(a, list) == GetPriorityIndex(b, list)
  {
  }

  /** The repositories that survive the exclusion list, in their original order. */
  function Survivors(repos: seq<Repository>, excludeList: seq<string>): seq<Repository> {
    if repos == [] then []
    else
      var last := repos[|repos| - 1];
      Survivors(repos[..|repos| - 1], excludeList)
        + (if ShouldExcludeRepo(last.name, excludeList) then [] else [last])
  }

  /** The loop in `main` that copies every repository not excluded into `filteredRepos`. */
  method FilterRepos(repos: seq<Repository>, excludeList: seq<string>) returns (filteredRepos: seq<Repository>)
    ensures filteredRepos == Survivors(repos, excludeList)
  {
    filteredRepos := [];
    for i := 0 to |repos|
      invariant filteredRepos == Survivors(repos[..i], excludeList)
    {
      if !ShouldExcludeRepo(repos[i].name, excludeList) {
        filteredRepos := filteredRepos + [repos[i]];
      }
      assert repos[..i + 1][..i] == repos[..i];
    }
    assert repos[..|repos|] == repos;
  }

  /** A repository survives exactly when it was fetched and no exclusion entry names it. */
  lemma {:induction false} SurvivorsMembers(repos: seq<Repository>, excludeList: seq<string>, r: Repository)
    ensures r in Survivors(repos, excludeList) <==> r in repos && !ShouldExcludeRepo(r.name, excludeList)
  {
    if repos != [] {
      var init := repos[..|repos| - 1];
      SurvivorsMembers(init, excludeList, r);
      assert repos == init + [repos[|repos| - 1]];
    }
  }

  /** The positions of the surviving repositories, in increasing order. */
  ghost function SurvivorPositions(repos: seq<Repository>, excludeList: seq<string>): seq<nat> {
    if repos == [] then []
    else
      var rest := SurvivorPositions(repos[..|repos| - 1], excludeList);
      if ShouldExcludeRepo(repos[|repos| - 1].name, excludeList) then rest else rest + [|repos| - 1]
  }

  /** The surviving positions are increasing, in range, and as many as the survivors. */
  lemma {:induction false} SurvivorPositionsShape(repos: seq<Repository>, excludeList: seq<string>)
    ensures |SurvivorPositions(repos, excludeList)| == |Survivors(repos, excludeList)|
    ensures IsEmbedding(SurvivorPositions(repos, excludeList), |repos|)
  {
    if repos != [] {
      SurvivorPositionsShape(repos[..|repos| - 1], excludeList);
    }
  }

  /** The k-th survivor is the repository at the k-th surviving position: the filtered list is a subsequence of the input. */
  lemma {:induction false} SurvivorPositionsPick(repos: seq<Repository>, excludeList: seq<string>)
    ensures |SurvivorPositions(repos, excludeList)| == |Survivors(repos, excludeList)|
    ensures IsEmbedding(SurvivorPositions(repos, excludeList), |repos|)
    ensures forall k :: 0 <= k < |SurvivorPositions(repos, excludeList)| ==>
      Survivors(repos, excludeList)[k] == repos[SurvivorPositions(repos, excludeList)[k]]
  {
    SurvivorPositionsShape(repos, excludeList);
    if repos != [] {
      var init := repos[..|repos| - 1];
      SurvivorPositionsPick(init, excludeList);
      var rest := SurvivorPositions(init, excludeList);
      var idx := SurvivorPositions(repos, excludeList);
      forall k | 0 <= k < |rest|
        ensures Survivors(repos, excludeList)[k] == repos[idx[k]]
      {
        assert idx[k] == rest[k];
        assert init[rest[k]] == repos[rest[k]];
      }
    }
  }

  /** A position survives exactly when the repository there is not excluded. */
  lemma {:induction false} SurvivorPositionsMembers(repos: seq<Repository>, excludeList: seq<string>)
    ensures forall i :: 0 <= i < |repos| ==>
      (i in SurvivorPositions(repos, excludeList) <==> !ShouldExcludeRepo(repos[i].name, excludeList))
  {
    if repos != [] {
      var n := |repos|;
      var init := repos[..n - 1];
      SurvivorPositionsMembers(init, excludeList);
      SurvivorPositionsShape(init, excludeList);
      var rest := SurvivorPositions(init, excludeList);
      var idx := SurvivorPositions(repos, excludeList);
      forall i | 0 <= i < n - 1
        ensures i in idx <==> !ShouldExcludeRepo(repos[i].name, excludeList)
      {
        assert init[i] == repos[i];
        assert i in idx <==> i in rest;
      }
    }
  }

  /** Filtering splits over concatenation. */
  lemma {:induction false} SurvivorsAppend(a: seq<Repository>, b: seq<Repository>, excludeList: seq<string>)
    ensures Survivors(a + b, excludeList) == Survivors(a, excludeList) + Survivors(b, excludeList)
  {
    if b != [] {
      var b' := b[..|b| - 1];
      assert (a + b)[..|a + b| - 1] == a + b';
      SurvivorsAppend(a, b', excludeList);
    } else {
      assert a + b == a;
    }
  }

  /** An empty exclusion list keeps everything. */
  lemma {:induction false} SurvivorsNoExclusions(repos: seq<Repository>)
    ensures Survivors(repos, []) == repos
  {
    if repos != [] {
      SurvivorsNoExclusions(repos[..|repos| - 1]);
    }
  }

  /** Filtering twice with the same list changes nothing the second time. */
  lemma {:induction false} SurvivorsIdempotent(repos: seq<Repository>, excludeList: seq<string>)
    ensures Survivors(Survivors(repos, excludeList), excludeList) == Survivors(repos, excludeList)
  {
    if repos != [] {
      var n := |repos|;
      var init := repos[..n - 1];
      SurvivorsIdempotent(init, excludeList);
      var last := repos[n - 1];
      var tail := if ShouldExcludeRepo(last.name, excludeList) then [] else [last];
      SurvivorsAppend(Survivors(init, excludeList), tail, excludeList);
      assert Survivors(tail, excludeList) == tail by {
        if tail != [] { assert tail[..0] == []; }
      }
    }
  }

  /** The exclusion entry "X" removes repository "x" whatever its case, and keeps "y". */
  lemma ExclusionIgnoresCaseScenario(x: Repository, y: Repository)
    requires x.name == "x" && y.name == "y"
    ensures Survivors([x, y], ["X"]) == [y]
  {
    assert FoldAscii('X') == 'x' == FoldAscii('x');
    assert EqualFold(x.name, "X");
    assert FoldAscii(y.name[0]) == 'y';
    assert !EqualFold(y.name, "X");
    assert !ShouldExcludeRepo(y.name, ["X"]);
    assert ShouldExcludeRepo(x.name, ["X"]);
    assert [x, y][..1] == [x];
    assert [x][..0] == [];
    assert Survivors([x], ["X"]) == [];
  }
}
