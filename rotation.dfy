/**
 * The scheduler's rotation: pick a tool not yet tweeted when there is one,
 * and after a successful tweet record its name in the history.
 */
module Rotation {
  import opened Wrappers
  import opened Catalog
  import opened Tweets

  predicate NoDuplicates(names: seq<string>) {
    forall i, j :: 0 <= i < j < |names| ==> names[i] != names[j]
  }

  /** The tools whose name is not in the history, in catalog order (the list comprehension). */
  function Untweeted(tools: seq<Tool>, tweeted: seq<string>): (pool: seq<Tool>)
    ensures forall t :: t in pool <==> t in tools && t.name !in tweeted
    ensures |pool| <= |tools|
  {
    if tools == [] then []
    else
      var rest := Untweeted(tools[1..], tweeted);
      if tools[0].name !in tweeted then [tools[0]] + rest else rest
  }

  predicate SomeUntweeted(tools: seq<Tool>, tweeted: seq<string>) {
    exists t :: t in tools && t.name !in tweeted
  }

  /** What `select_tool_to_tweet` may return: a catalog tool, and a fresh one whenever one exists. */
  predicate Admissible(tools: seq<Tool>, tweeted: seq<string>, selected: Tool) {
    && selected in tools
    && (SomeUntweeted(tools, tweeted) ==> selected.name !in tweeted)
  }

  /**
   * `select_tool_to_tweet`: `random.choice` among the untweeted tools, or
   * among all tools once every name is in the history (the history itself
   * is never cleared). The random draw is an arbitrary choice.
   */
  method SelectTool(tools: seq<Tool>, tweeted: seq<string>) returns (selected: Tool)
    requires |tools| > 0
    ensures selected in tools
    ensures SomeUntweeted(tools, tweeted) ==> selected.name !in tweeted
  {
    var pool := Untweeted(tools, tweeted);
    if |pool| > 0 {
      assert pool[0] in pool;
      selected :| selected in pool;
    } else {
      assert tools[0] in tools;
      selected :| selected in tools;
    }
  }

  /** When a single catalog tool is still untweeted, it is the only admissible pick. */
  lemma SoleUntweetedIsForced(tools: seq<Tool>, tweeted: seq<string>, only: Tool, selected: Tool)
    requires only in tools && only.name !in tweeted
    requires forall t :: t in tools && t.name !in tweeted ==> t == only
    requires Admissible(tools, tweeted, selected)
    ensures selected == only
  {
  }

  /** The history list after a successful tweet of `name`. */
  function Recorded(tweeted: seq<string>, name: string): (r: seq<string>)
    ensures name in r
    ensures r == tweeted || r == tweeted + [name]
    ensures name in tweeted ==> r == tweeted
    ensures tweeted <= r && |r| <= |tweeted| + 1
    ensures NoDuplicates(tweeted) ==> NoDuplicates(r)
  {
    if name in tweeted then tweeted else tweeted + [name]
  }

  /** The history file's contents: the ordered tweeted names and the last tweet's time. */
  class History {
    var lastTweeted: Option<string>
    var tweetedTools: seq<string>

    ghost predicate Valid()
      reads this
    {
      NoDuplicates(tweetedTools)
    }

    /** The default history when no history file exists. */
    constructor ()
      ensures Valid()
      ensures lastTweeted == None && tweetedTools == []
    {
      lastTweeted := None;
      tweetedTools := [];
    }

    /** The update after a successful tweet: append the name unless present, stamp the time. */
    method RecordSuccess(name: string, now: string)
      modifies this
      ensures tweetedTools == Recorded(old(tweetedTools), name)
      ensures lastTweeted == Some(now)
      ensures old(Valid()) ==> Valid()
    {
      if name !in tweetedTools {
        tweetedTools := tweetedTools + [name];
      }
      lastTweeted := Some(now);
    }
  }

  /**
   * One pass of the scheduler loop: select a tool, compose its tweet, and
   * update the history only if posting (`posted`, the outcome of the
   * external call) succeeded.
   */
  method Round(history: History, tools: seq<Tool>, posted: bool, now: string)
    returns (selected: Tool, text: string)
    requires |tools| > 0
    modifies history
    ensures Admissible(tools, old(history.tweetedTools), selected)
    ensures old(history.Valid()) ==> history.Valid()
    ensures text == TweetText(selected)
    ensures posted ==> history.tweetedTools == Recorded(old(history.tweetedTools), selected.name)
                       && history.lastTweeted == Some(now)
    ensures !posted ==> history.tweetedTools == old(history.tweetedTools)
                        && history.lastTweeted == old(history.lastTweeted)
  {
    selected := SelectTool(tools, history.tweetedTools);
    text := TweetText(selected);
    if posted {
      history.RecordSuccess(selected.name, now);
    }
  }

  /** The history after a run of successful rounds from the empty history. */
  function HistoryAfter(picks: seq<Tool>): (r: seq<string>)
    ensures NoDuplicates(r)
  {
    if picks == [] then []
    else Recorded(HistoryAfter(picks[..|picks| - 1]), picks[|picks| - 1].name)
  }

  /** Every round picked admissibly against the history left by the rounds before it. */
  ghost predicate SuccessfulRounds(tools: seq<Tool>, picks: seq<Tool>) {
    picks == [] ||
    (var prev := picks[..|picks| - 1];
     SuccessfulRounds(tools, prev) && Admissible(tools, HistoryAfter(prev), picks[|picks| - 1]))
  }

  predicate DistinctNames(tools: seq<Tool>) {
    forall i, j :: 0 <= i < j < |tools| ==> tools[i].name != tools[j].name
  }

  function Names(tools: seq<Tool>): (r: seq<string>)
    ensures |r| == |tools| && forall i :: 0 <= i < |tools| ==> r[i] == tools[i].name
  {
    seq(|tools|, i requires 0 <= i < |tools| => tools[i].name)
  }

  lemma {:induction false} SetOfSeqSize(s: seq<string>)
    ensures |set x | x in s| <= |s|
  {
    if s != [] {
      var init := s[..|s| - 1];
      SetOfSeqSize(init);
      assert (set x | x in s) == (set x | x in init) + {s[|s| - 1]};
    }
  }

  lemma {:induction false} DistinctNamesSetSize(tools: seq<Tool>)
    requires DistinctNames(tools)
    ensures |set t | t in tools :: t.name| == |tools|
  {
    if tools != [] {
      var init := tools[..|tools| - 1];
      var last := tools[|tools| - 1];
      DistinctNamesSetSize(init);
      assert (set t | t in tools :: t.name) == (set t | t in init :: t.name) + {last.name};
      assert last.name !in (set t | t in init :: t.name);
    }
  }

  lemma SubsetSize(a: set<string>, b: set<string>)
    requires a <= b
    ensures |b - a| == |b| - |a|
  {
    assert b == a + (b - a);
    assert a !! (b - a);
  }

  /** Fewer recorded names than catalog tools leaves some tool untweeted. */
  lemma PigeonholeUntweeted(tools: seq<Tool>, tweeted: seq<string>)
    requires DistinctNames(tools) && |tweeted| < |tools|
    ensures SomeUntweeted(tools, tweeted)
  {
    var toolNames := set t | t in tools :: t.name;
    var seen := set x | x in tweeted;
    DistinctNamesSetSize(tools);
    SetOfSeqSize(tweeted);
    if !SomeUntweeted(tools, tweeted) {
      assert toolNames <= seen;
      SubsetSize(toolNames, seen);
    }
  }

  /** While rounds remain, every round adds a new name, so the history lists the picks in order. */
  lemma {:induction false} RoundsPickNewNames(tools: seq<Tool>, picks: seq<Tool>)
    requires DistinctNames(tools) && SuccessfulRounds(tools, picks)
    requires |picks| <= |tools|
    ensures DistinctNames(picks)
    ensures HistoryAfter(picks) == Names(picks)
  {
    if picks != [] {
      var prev := picks[..|picks| - 1];
      var next := picks[|picks| - 1];
      LastRound(tools, picks);
      RoundsPickNewNames(tools, prev);
      NewNameStep(tools, prev, next);
      assert prev + [next] == picks;
    }
  }

  lemma LastRound(tools: seq<Tool>, picks: seq<Tool>)
    requires SuccessfulRounds(tools, picks) && picks != []
    ensures SuccessfulRounds(tools, picks[..|picks| - 1])
    ensures Admissible(tools, HistoryAfter(picks[..|picks| - 1]), picks[|picks| - 1])
  {
  }

  /** Whatever the rounds pick comes from the catalog. */
  lemma {:induction false} PicksFromCatalog(tools: seq<Tool>, picks: seq<Tool>, p: Tool)
    requires SuccessfulRounds(tools, picks) && p in picks
    ensures p in tools
  {
    var prev := picks[..|picks| - 1];
    if p != picks[|picks| - 1] {
      assert p in prev by {
        var k :| 0 <= k < |picks| && picks[k] == p;
        assert prev[k] == p;
      }
      PicksFromCatalog(tools, prev, p);
    }
  }

  lemma NewNameStep(tools: seq<Tool>, prev: seq<Tool>, next: Tool)
    requires DistinctNames(tools) && |prev| < |tools|
    requires DistinctNames(prev) && HistoryAfter(prev) == Names(prev)
    requires Admissible(tools, Names(prev), next)
    ensures DistinctNames(prev + [next])
    ensures HistoryAfter(prev + [next]) == Names(prev + [next])
  {
    PigeonholeUntweeted(tools, Names(prev));
    assert next.name !in Names(prev);
    HistoryStep(prev, next);
    DistinctStep(prev, next);
  }

  lemma HistoryStep(prev: seq<Tool>, next: Tool)
    requires HistoryAfter(prev) == Names(prev) && next.name !in Names(prev)
    ensures HistoryAfter(prev + [next]) == Names(prev + [next])
  {
    var all := prev + [next];
    assert all[..|all| - 1] == prev;
    assert HistoryAfter(all) == Names(prev) + [next.name];
  }

  lemma DistinctStep(prev: seq<Tool>, next: Tool)
    requires DistinctNames(prev) && next.name !in Names(prev)
    ensures DistinctNames(prev + [next])
  {
    var all := prev + [next];
    forall i, j | 0 <= i < j < |all|
      ensures all[i].name != all[j].name
    {
      if j == |prev| {
        assert Names(prev)[i] == all[i].name;
      }
    }
  }

  /**
   * From the empty history and a catalog of N tools with distinct names,
   * N successful rounds tweet every tool exactly once.
   */
  lemma RotationCoversCatalog(tools: seq<Tool>, picks: seq<Tool>)
    requires DistinctNames(tools)
    requires |picks| == |tools|
    requires SuccessfulRounds(tools, picks)
    ensures DistinctNames(picks)
    ensures forall t :: t in tools ==> t in picks
  {
    RoundsPickNewNames(tools, picks);
    var pickNames := set p | p in picks :: p.name;
    var toolNames := set t | t in tools :: t.name;
    DistinctNamesSetSize(picks);
    DistinctNamesSetSize(tools);
    forall p | p in picks
      ensures p in tools
    {
      PicksFromCatalog(tools, picks, p);
    }
    assert pickNames <= toolNames;
    SubsetSize(pickNames, toolNames);
    assert toolNames - pickNames == {};
    forall t | t in tools
      ensures t in picks
    {
      assert t.name in toolNames;
      var p :| p in picks && p.name == t.name;
      var a :| 0 <= a < |tools| && tools[a] == p;
      var b :| 0 <= b < |tools| && tools[b] == t;
      assert a == b;
    }
  }
}
