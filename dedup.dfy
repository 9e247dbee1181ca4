/**
 * `{repo.full_name: repo for repo in all_repos}`: one repository per full
 * name, in the order names first appear, each holding the last repository
 * seen under that name.
 */
module Dedup {
  import opened Wrappers
  import opened Crawler

  predicate DistinctFullNames(repos: seq<RepoInfo>) {
    forall i, j :: 0 <= i < j < |repos| ==> repos[i].fullName != repos[j].fullName
  }

  /** The position of the entry with the given full name, as the dictionary's key lookup. */
  function IndexOfName(entries: seq<RepoInfo>, name: string): (r: Option<nat>)
    ensures r.Some? ==> r.value < |entries| && entries[r.value].fullName == name
    ensures r.None? ==> forall i :: 0 <= i < |entries| ==> entries[i].fullName != name
  {
    if entries == [] then None
    else if entries[|entries| - 1].fullName == name then Some(|entries| - 1)
    else IndexOfName(entries[..|entries| - 1], name)
  }

  /** The last repository in `repos` with the given full name. */
  function LastWithName(repos: seq<RepoInfo>, name: string): Option<RepoInfo> {
    if repos == [] then None
    else if repos[|repos| - 1].fullName == name then Some(repos[|repos| - 1])
    else LastWithName(repos[..|repos| - 1], name)
  }

  /** Inserting each repository in turn: a known key keeps its place and takes the new value. */
  function Dedup(repos: seq<RepoInfo>): (r: seq<RepoInfo>)
    ensures |r| <= |repos|
  {
    if repos == [] then []
    else
      var d := Dedup(repos[..|repos| - 1]);
      var x := repos[|repos| - 1];
      match IndexOfName(d, x.fullName)
      case None => d + [x]
      case Some(i) => d[i := x]
  }

  /**
   * The result has one repository per full name, every input name is
   * represented, and each kept repository is the last one seen under its name.
   */
  lemma {:induction false} DedupProperties(repos: seq<RepoInfo>)
    ensures DistinctFullNames(Dedup(repos))
    ensures forall x :: x in repos ==> exists y :: y in Dedup(repos) && y.fullName == x.fullName
    ensures forall y :: y in Dedup(repos) ==> LastWithName(repos, y.fullName) == Some(y)
  {
    if repos != [] {
      var init := repos[..|repos| - 1];
      var x := repos[|repos| - 1];
      var d := Dedup(init);
      DedupProperties(init);
      assert init + [x] == repos;
      match IndexOfName(d, x.fullName)
      case None =>
        DedupAppend(init, d, x);
      case Some(i) =>
        DedupReplace(init, d, x, i);
    }
  }

  lemma DedupAppend(init: seq<RepoInfo>, d: seq<RepoInfo>, x: RepoInfo)
    requires DistinctFullNames(d)
    requires forall z :: z in init ==> exists y :: y in d && y.fullName == z.fullName
    requires forall y :: y in d ==> LastWithName(init, y.fullName) == Some(y)
    requires forall i :: 0 <= i < |d| ==> d[i].fullName != x.fullName
    ensures DistinctFullNames(d + [x])
    ensures forall z :: z in init + [x] ==> exists y :: y in d + [x] && y.fullName == z.fullName
    ensures forall y :: y in d + [x] ==> LastWithName(init + [x], y.fullName) == Some(y)
  {
    var repos := init + [x];
    assert repos[..|repos| - 1] == init;
    forall z | z in repos
      ensures exists y :: y in d + [x] && y.fullName == z.fullName
    {
      if z != x {
        assert z in init;
        var y :| y in d && y.fullName == z.fullName;
        assert y in d + [x];
      }
    }
  }

  lemma DedupReplace(init: seq<RepoInfo>, d: seq<RepoInfo>, x: RepoInfo, i: nat)
    requires DistinctFullNames(d)
    requires forall z :: z in init ==> exists y :: y in d && y.fullName == z.fullName
    requires forall y :: y in d ==> LastWithName(init, y.fullName) == Some(y)
    requires i < |d| && d[i].fullName == x.fullName
    ensures DistinctFullNames(d[i := x])
    ensures forall z :: z in init + [x] ==> exists y :: y in d[i := x] && y.fullName == z.fullName
    ensures forall y :: y in d[i := x] ==> LastWithName(init + [x], y.fullName) == Some(y)
  {
    var repos := init + [x];
    var d' := d[i := x];
    assert repos[..|repos| - 1] == init;
    forall z | z in repos
      ensures exists y :: y in d' && y.fullName == z.fullName
    {
      if z != x {
        assert z in init;
        var y :| y in d && y.fullName == z.fullName;
        var k :| 0 <= k < |d| && d[k] == y;
        assert d'[k].fullName == z.fullName;
      } else {
        assert d'[i] == x;
      }
    }
    forall y | y in d'
      ensures LastWithName(repos, y.fullName) == Some(y)
    {
      var k :| 0 <= k < |d'| && d'[k] == y;
      if k != i {
        assert d[k] == y && y.fullName != x.fullName;
      }
    }
  }

  /** Input that already has one repository per name passes through unchanged. */
  lemma {:induction false} DedupKeepsDistinct(repos: seq<RepoInfo>)
    requires DistinctFullNames(repos)
    ensures Dedup(repos) == repos
  {
    if repos != [] {
      var init := repos[..|repos| - 1];
      var x := repos[|repos| - 1];
      DedupKeepsDistinct(init);
      assert forall i :: 0 <= i < |init| ==> init[i].fullName != x.fullName;
      assert init + [x] == repos;
    }
  }

  /** Removing duplicates a second time changes nothing. */
  lemma DedupIdempotent(repos: seq<RepoInfo>)
    ensures Dedup(Dedup(repos)) == Dedup(repos)
  {
    DedupProperties(repos);
    DedupKeepsDistinct(Dedup(repos));
  }
}
