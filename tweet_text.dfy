/**
 * The tweet text the scheduler posts for one tool: a header naming the tool
 * and its category, the description with bracketed and parenthesised groups
 * removed and cut to fit, the link if there is one, and fixed hashtags.
 */
module Tweets {
  import opened Wrappers
  import opened Strings
  import opened Catalog

  const MaxTweetLength: int := 280
  /** Room kept free after the description for the link and the hashtags. */
  const Reserve: int := 30
  const Hashtags: string := "#Kubetools #Kubernetes #K8s #CloudNative"
  const Ellipsis: string := "..."

  predicate Opens(c: char) { c == '[' || c == '(' }

  function Closer(c: char): char { if c == '[' then ']' else ')' }

  /**
   * The index of the first `close` in `s` that comes before any newline:
   * where a lazy `.*?` followed by `close` stops, since `.` never matches a newline.
   */
  function CloseOnLine(s: string, close: char): (r: Option<nat>)
    ensures r.Some? ==> r.value < |s| && s[r.value] == close
    ensures r.Some? ==> forall k :: 0 <= k <= r.value ==> s[k] != '\n'
  {
    if s == [] || s[0] == '\n' then None
    else if s[0] == close then Some(0)
    else match CloseOnLine(s[1..], close)
      case None => None
      case Some(k) => Some(k + 1)
  }

  /**
   * The closer found is the first one, and `None` means a newline comes
   * before every closer (or there is none).
   */
  lemma {:induction false} CloseOnLineIsFirst(s: string, close: char)
    ensures CloseOnLine(s, close).Some? ==>
      forall k :: 0 <= k < CloseOnLine(s, close).value ==> s[k] != close
    ensures CloseOnLine(s, close).None? ==>
      forall k :: 0 <= k < |s| && s[k] == close ==> exists m :: 0 <= m <= k && s[m] == '\n'
  {
    if s != [] && s[0] != '\n' && s[0] != close {
      CloseOnLineIsFirst(s[1..], close);
      if CloseOnLine(s, close).None? {
        forall k | 0 < k < |s| && s[k] == close
          ensures exists m :: 0 <= m <= k && s[m] == '\n'
        {
          assert s[1..][k - 1] == close;
          var m :| 0 <= m <= k - 1 && s[1..][m] == '\n';
          assert s[m + 1] == '\n';
        }
      }
    }
  }

  /**
   * `re.sub(r'\[.*?\]|\(.*?\)', '', s)`: scanning left to right, an opening
   * bracket or parenthesis together with everything up to the first matching
   * closer on the same line is removed; every other character is kept.
   */
  function DropGroups(s: string): (r: string)
    ensures |r| <= |s|
    decreases |s|
  {
    if s == [] then []
    else if Opens(s[0]) && CloseOnLine(s[1..], Closer(s[0])).Some? then
      DropGroups(s[CloseOnLine(s[1..], Closer(s[0])).value + 2..])
    else [s[0]] + DropGroups(s[1..])
  }

  /** No opening bracket or parenthesis in `s` is closed later on its own line. */
  predicate NoGroups(s: string) {
    forall i :: 0 <= i < |s| && Opens(s[i]) ==> CloseOnLine(s[i + 1..], Closer(s[i])).None?
  }

  lemma {:induction false} SkipLineFree(t: string, c: char, m: nat)
    requires CloseOnLine(t, c).None? && m <= |t|
    requires forall k :: 0 <= k < m ==> t[k] != '\n'
    ensures CloseOnLine(t[m..], c).None?
  {
    if m > 0 {
      assert t[0] != c;
      assert t[1..][m - 1..] == t[m..];
      SkipLineFree(t[1..], c, m - 1);
    }
  }

  /** Removing groups never brings a closer onto a line that had none. */
  lemma {:induction false} DropGroupsKeepsLineFree(t: string, c: char)
    requires CloseOnLine(t, c).None?
    ensures CloseOnLine(DropGroups(t), c).None?
    decreases |t|
  {
    if t != [] {
      var g := CloseOnLine(t[1..], Closer(t[0]));
      if Opens(t[0]) && g.Some? {
        var q := g.value + 2;
        forall k | 0 <= k < q
          ensures t[k] != '\n'
        {
          if k > 0 { assert t[k] == t[1..][k - 1]; }
        }
        SkipLineFree(t, c, q);
        DropGroupsKeepsLineFree(t[q..], c);
      } else if t[0] != '\n' {
        DropGroupsKeepsLineFree(t[1..], c);
        assert DropGroups(t)[1..] == DropGroups(t[1..]);
      }
    }
  }

  /** After the substitution no group is left for the pattern to match. */
  lemma {:induction false} DropGroupsLeavesNoGroups(s: string)
    ensures NoGroups(DropGroups(s))
    decreases |s|
  {
    if s != [] {
      var g := CloseOnLine(s[1..], Closer(s[0]));
      if Opens(s[0]) && g.Some? {
        DropGroupsLeavesNoGroups(s[g.value + 2..]);
      } else {
        DropGroupsLeavesNoGroups(s[1..]);
        KeptFirstLeavesNoGroups(s);
      }
    }
  }

  /** A kept first character opens no group, and the rest has none by induction. */
  lemma KeptFirstLeavesNoGroups(s: string)
    requires s != [] && NoGroups(DropGroups(s[1..]))
    requires !(Opens(s[0]) && CloseOnLine(s[1..], Closer(s[0])).Some?)
    ensures NoGroups(DropGroups(s))
  {
    var rest := DropGroups(s[1..]);
    var r := DropGroups(s);
    assert r == [s[0]] + rest;
    forall i | 0 <= i < |r| && Opens(r[i])
      ensures CloseOnLine(r[i + 1..], Closer(r[i])).None?
    {
      if i == 0 {
        DropGroupsKeepsLineFree(s[1..], Closer(s[0]));
        assert r[1..] == rest;
      } else {
        assert r[i] == rest[i - 1] && r[i + 1..] == rest[i..];
      }
    }
  }

  /** Text without groups passes through the substitution unchanged. */
  lemma {:induction false} DropGroupsFixesNoGroups(s: string)
    requires NoGroups(s)
    ensures DropGroups(s) == s
    decreases |s|
  {
    if s != [] {
      forall i | 0 <= i < |s[1..]| && Opens(s[1..][i])
        ensures CloseOnLine(s[1..][i + 1..], Closer(s[1..][i])).None?
      {
        assert s[1..][i + 1..] == s[i + 2..];
      }
      DropGroupsFixesNoGroups(s[1..]);
    }
  }

  /** Applying the substitution twice is the same as applying it once. */
  lemma DropGroupsIdempotent(s: string)
    ensures DropGroups(DropGroups(s)) == DropGroups(s)
  {
    DropGroupsLeavesNoGroups(s);
    DropGroupsFixesNoGroups(DropGroups(s));
  }

  /** `f"🔧 #Kubernetes Tool: {name} - Category: {category}\n\n"` */
  function Header(tool: Tool): string {
    "\U{1F527} #Kubernetes Tool: " + tool.name + " - Category: " + tool.category + "\n\n"
  }

  /** `MAX_TWEET_LENGTH - len(tweet) - 30`, which is negative for very long headers. */
  function MaxDescLength(tool: Tool): int {
    MaxTweetLength - |Header(tool)| - Reserve
  }

  /**
   * A description longer than `max` becomes `description[:max-3] + "..."`,
   * with Python's slicing, so a `max` below 3 cuts from the end.
   */
  function Shorten(d: string, max: int): (r: string)
    ensures |d| <= max ==> r == d
    ensures |d| > max >= 3 ==> |r| == max && r[..max - 3] == d[..max - 3] && r[max - 3..] == Ellipsis
    ensures |d| > max ==> |r| >= 3 && r[|r| - 3..] == Ellipsis
  {
    if |d| > max then PrefixSlice(d, max - 3) + Ellipsis else d
  }

  /**
   * With fewer than three characters of room the slice index is negative:
   * the last `3 - max` characters are dropped and the ellipsis added, so the
   * result is longer than `max` whenever the description is long enough.
   */
  lemma ShortenWithoutRoom(d: string, max: int)
    requires max < 3 && |d| > max && |d| >= 3 - max
    ensures Shorten(d, max) == d[..|d| - (3 - max)] + Ellipsis
    ensures |Shorten(d, max)| == |d| + max
  {
  }

  /** The description as it appears in the tweet. */
  function TweetDescription(tool: Tool): (r: string)
    ensures MaxDescLength(tool) >= 3 ==> |r| <= MaxDescLength(tool)
  {
    Shorten(Strip(DropGroups(tool.description)), MaxDescLength(tool))
  }

  /** The link line, present only for a non-empty URL. */
  function LinkLine(url: Option<string>): (r: string)
    ensures (url.None? || url.value == "") <==> r == ""
    ensures r != "" ==> r == url.value + "\n\n"
  {
    if url.Some? && url.value != "" then url.value + "\n\n" else ""
  }

  /**
   * `create_tweet_text`: the header, then the description and a blank line,
   * then the link line, and the hashtags last; `Assemble`'s contract says
   * where each part lands.
   */
  function TweetText(tool: Tool): string
  {
    Assemble(Header(tool), TweetDescription(tool), LinkLine(tool.url))
  }

  /**
   * The 30 characters kept free are fewer than the blank line and the
   * hashtags alone need, so a description that has to be shortened makes
   * the tweet 12 characters longer than the limit, plus the link line.
   */
  lemma ShortenedTweetOverflows(tool: Tool)
    requires |Strip(DropGroups(tool.description))| > MaxDescLength(tool) >= 3
    ensures |TweetText(tool)| == MaxTweetLength + 12 + |LinkLine(tool.url)|
  {
  }

  /** The room left for the description once the header, blank line, link line and hashtags are counted. */
  function FittedRoom(tool: Tool): int {
    MaxTweetLength - |Header(tool)| - 2 - |LinkLine(tool.url)| - |Hashtags|
  }

  /** The description cut to the room that is actually left. */
  function FittedDescription(tool: Tool): (r: string)
    ensures FittedRoom(tool) >= 3 ==> |r| <= FittedRoom(tool)
  {
    Shorten(Strip(DropGroups(tool.description)), FittedRoom(tool))
  }

  /** The tweet text laid out as `create_tweet_text` does, with the description cut to fit. */
  function FittedTweetText(tool: Tool): string {
    Assemble(Header(tool), FittedDescription(tool), LinkLine(tool.url))
  }

  /**
   * Whenever the header and link leave room for at least the ellipsis, the
   * tweet stays within the character limit, and a description that already
   * fits is posted unchanged.
   */
  lemma FittedTweetFits(tool: Tool)
    requires FittedRoom(tool) >= 3
    ensures |FittedTweetText(tool)| <= MaxTweetLength
    ensures |Strip(DropGroups(tool.description))| <= FittedRoom(tool) ==>
      FittedDescription(tool) == Strip(DropGroups(tool.description))
  {
  }

  /** The `+=` steps of the tweet text, and where each part ends up. */
  function Assemble(h: string, d: string, l: string): (r: string)
    ensures |r| == |h| + |d| + 2 + |l| + |Hashtags|
    ensures h <= r
    ensures r[|h|..|h| + |d|] == d
    ensures r[|h| + |d|..|h| + |d| + 2] == "\n\n"
    ensures r[|r| - |Hashtags| - |l|..] == l + Hashtags
  {
    var r := h + d + "\n\n" + l + Hashtags;
    assert r == h + (d + ("\n\n" + (l + Hashtags)));
    assert r[|h|..][..|d|] == d;
    r
  }
}
