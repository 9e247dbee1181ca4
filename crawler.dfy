/**
 * The crawler's per-repository logic: the Docker-and-AI/ML relevance gate,
 * the keyword classifier, and the README row it renders.
 */
module Crawler {
  import opened Strings

  /** What `get_repository_info` keeps of a repository (the update time is not used below). */
  datatype RepoInfo = RepoInfo(
    name: string,
    fullName: string,
    owner: string,
    description: string,
    url: string,
    stars: int,
    topics: seq<string>)

  /** A category slug and its keywords, in the order the configuration declares them. */
  datatype Category = Category(slug: string, keywords: seq<string>)

  const Categories: seq<Category> := [
    Category("model-context-protocol", ["mcp", "model context protocol", "claude"]),
    Category("generative-ai", ["genai", "generative ai", "llm", "gpt", "language model"]),
    Category("hugging-face", ["huggingface", "hugging face", "hf"]),
    Category("ai-ml-use-cases", ["ai use case", "ml use case", "ai implementation"]),
    Category("ai-ml-deployment", ["ai deployment", "ml deployment", "model serving"]),
    Category("developer-tools", ["developer tool", "ai tool", "ml tool"]),
    Category("assistants-automation", ["ai assistant", "automation", "ai agent", "chatbot"]),
    Category("healthcare", ["health", "medical", "doctor", "patient", "wellness"]),
    Category("education", ["education", "learning", "teaching", "course", "student"]),
    Category("nlp-communication", ["nlp", "natural language", "communication", "text analysis"]),
    Category("security-monitoring", ["security", "monitoring", "surveillance", "protection"]),
    Category("documentation", ["documentation", "knowledge", "information", "content management"])
  ]

  const DefaultCategory: string := "ai-ml-use-cases"

  const DockerTerms: seq<string> := ["docker", "container", "containerization", "dockerfile"]

  const AiMlTerms: seq<string> := [
    "ai", "ml", "machine learning", "artificial intelligence",
    "deep learning", "neural network", "tensorflow", "pytorch",
    "model", "prediction", "analysis", "analytics"]

  /** The lower-cased name, description and space-joined topics, separated by spaces. */
  function Content(repo: RepoInfo): string {
    Lower(repo.name + " " + repo.description + " " + Join(repo.topics, " "))
  }

  /** `any(term in content for term in terms)` */
  function AnyIn(content: string, terms: seq<string>): bool {
    |terms| > 0 && (Contains(content, terms[0]) || AnyIn(content, terms[1..]))
  }

  lemma {:induction false} AnyInMeansSomeTerm(content: string, terms: seq<string>)
    ensures AnyIn(content, terms) <==> exists t :: t in terms && Contains(content, t)
  {
    if |terms| > 0 {
      AnyInMeansSomeTerm(content, terms[1..]);
      if exists t :: t in terms && Contains(content, t) {
        var t :| t in terms && Contains(content, t);
        assert t == terms[0] || t in terms[1..];
      }
    }
  }

  /** `has_docker_and_ai_ml`: a Docker term and an AI/ML term must both occur. */
  function HasDockerAndAiMl(repo: RepoInfo): bool {
    AnyIn(Content(repo), DockerTerms) && AnyIn(Content(repo), AiMlTerms)
  }

  /** The gate is conjunctive: it passes exactly when one term of each list occurs in the text. */
  lemma GateIsConjunctive(repo: RepoInfo)
    ensures HasDockerAndAiMl(repo) <==>
      (exists d :: d in DockerTerms && Contains(Content(repo), d)) &&
      (exists a :: a in AiMlTerms && Contains(Content(repo), a))
  {
    AnyInMeansSomeTerm(Content(repo), DockerTerms);
    AnyInMeansSomeTerm(Content(repo), AiMlTerms);
  }

  /** "container" has "ai" inside it, so any text mentioning a container passes both halves. */
  lemma ContainerPassesGate(repo: RepoInfo)
    requires Contains(Content(repo), "container")
    ensures HasDockerAndAiMl(repo)
  {
    var c := Content(repo);
    assert OccursAt("container", "ai", 4);
    ContainsTransitive(c, "container", "ai");
    assert "container" in DockerTerms && "ai" in AiMlTerms;
    GateIsConjunctive(repo);
  }

  /** `sum(1 for keyword in keywords if keyword in content)` */
  function Score(keywords: seq<string>, content: string): (r: nat)
    ensures r <= |keywords|
    ensures r == 0 <==> forall k :: k in keywords ==> !Contains(content, k)
  {
    if keywords == [] then 0
    else (if Contains(content, keywords[0]) then 1 else 0) + Score(keywords[1..], content)
  }

  /** Over distinct keywords the score counts the keywords present, however often each occurs. */
  lemma {:induction false} ScoreCountsPresentKeywords(keywords: seq<string>, content: string)
    requires forall i, j :: 0 <= i < j < |keywords| ==> keywords[i] != keywords[j]
    ensures Score(keywords, content) == |set k | k in keywords && Contains(content, k)|
  {
    if keywords != [] {
      var rest := keywords[1..];
      ScoreCountsPresentKeywords(rest, content);
      var present := set k | k in keywords && Contains(content, k);
      var restPresent := set k | k in rest && Contains(content, k);
      assert keywords[0] !in rest;
      if Contains(content, keywords[0]) {
        assert present == restPresent + {keywords[0]};
      } else {
        assert present == restPresent;
      }
    }
  }

  function ScoreOf(categories: seq<Category>, content: string, i: nat): nat
    requires i < |categories|
  {
    Score(categories[i].keywords, content)
  }

  /** Category `i` has the top score, and every category declared before it scores less. */
  predicate IsFirstBest(categories: seq<Category>, content: string, i: nat) {
    && i < |categories|
    && (forall j :: 0 <= j < |categories| ==> ScoreOf(categories, content, j) <= ScoreOf(categories, content, i))
    && (forall j :: 0 <= j < i ==> ScoreOf(categories, content, j) < ScoreOf(categories, content, i))
  }

  predicate NothingScores(categories: seq<Category>, content: string) {
    forall j :: 0 <= j < |categories| ==> ScoreOf(categories, content, j) == 0
  }

  /** The winning category is unique: identical text always gives the identical category. */
  lemma FirstBestIsUnique(categories: seq<Category>, content: string, i: nat, i': nat)
    requires IsFirstBest(categories, content, i) && IsFirstBest(categories, content, i')
    ensures i == i'
  {
    var top, top' := ScoreOf(categories, content, i), ScoreOf(categories, content, i');
    assert top <= top' && top' <= top;
  }

  /**
   * `determine_category`: score every category, then return the first
   * category with the highest score, or the default when nothing scores.
   */
  method DetermineCategory(categories: seq<Category>, repo: RepoInfo) returns (slug: string)
    ensures NothingScores(categories, Content(repo)) ==> slug == DefaultCategory
    ensures !NothingScores(categories, Content(repo)) ==>
      exists i: nat :: IsFirstBest(categories, Content(repo), i) && slug == categories[i].slug
            && ScoreOf(categories, Content(repo), i) > 0
  {
    var content := Content(repo);
    var scores: seq<nat> := [];
    var i := 0;
    while i < |categories|
      invariant 0 <= i <= |categories| && |scores| == i
      invariant forall j :: 0 <= j < i ==> scores[j] == ScoreOf(categories, content, j)
    {
      scores := scores + [Score(categories[i].keywords, content)];
      i := i + 1;
    }
    var best: nat, top: nat := 0, 0;
    i := 0;
    while i < |scores|
      invariant 0 <= i <= |scores|
      invariant forall j :: 0 <= j < i ==> scores[j] <= top
      invariant top == 0 ==> best == 0
      invariant top > 0 ==> best < i && scores[best] == top
      invariant top > 0 ==> forall j :: 0 <= j < best ==> scores[j] < top
    {
      if scores[i] > top {
        best, top := i, scores[i];
      }
      i := i + 1;
    }
    if top > 0 {
      slug := categories[best].slug;
      assert IsFirstBest(categories, content, best);
    } else {
      slug := DefaultCategory;
    }
  }

  /** The default is itself one of the configured slugs, so the result is always a configured slug. */
  lemma DefaultIsConfigured()
    ensures exists i :: 0 <= i < |Categories| && Categories[i].slug == DefaultCategory
  {
    assert Categories[3].slug == DefaultCategory;
  }

  /** `s.replace("-", " ").title()`, used for display names and section headings alike. */
  function DashesToTitle(s: string): (r: string)
    ensures |r| == |s|
    ensures forall i :: 0 <= i < |s| && s[i] == '-' ==> r[i] == ' '
    ensures forall i :: 0 <= i < |s| ==> r[i] == TitleCharAt(ReplaceChar(s, '-', ' '), i)
  {
    TitleIsPointwise(ReplaceChar(s, '-', ' '));
    Title(ReplaceChar(s, '-', ' '))
  }

  /** "Blog" when the lower-cased name mentions "blog" or "article", otherwise "Project". */
  function TypeLabel(name: string): (r: string)
    ensures r == "Blog" || r == "Project"
    ensures r == "Blog" <==> Contains(Lower(name), "blog") || Contains(Lower(name), "article")
  {
    if Contains(Lower(name), "blog") || Contains(Lower(name), "article") then "Blog" else "Project"
  }

  /** A description over 100 characters keeps its first 97 and gains "...". */
  function ShortDescription(d: string): (r: string)
    ensures |d| <= 100 ==> r == d
    ensures |d| > 100 ==> |r| == 100 && r[..97] == d[..97] && r[97..] == "..."
    ensures |r| <= 100 || r == d
  {
    if |d| > 100 then d[..97] + "..." else d
  }

  /**
   * `format_entry_for_readme`: the table row
   * `| <display name> | <description> | <label> | [View](<url>) |`.
   */
  function FormatEntry(repo: RepoInfo, category: string): (r: string)
    ensures |r| == |DashesToTitle(repo.name)| + |ShortDescription(repo.description)| + 5
                   + |" | " + TypeLabel(repo.name) + " | [View](" + repo.url + ") |"|
    ensures "| " + DashesToTitle(repo.name) + " | " <= r
    ensures var tail := " | " + TypeLabel(repo.name) + " | [View](" + repo.url + ") |";
      |r| >= |tail| && r[|r| - |tail|..] == tail
    ensures var head := |DashesToTitle(repo.name)| + 5;
      r[head..head + |ShortDescription(repo.description)|] == ShortDescription(repo.description)
  {
    var name := DashesToTitle(repo.name);
    var desc := ShortDescription(repo.description);
    var tail := " | " + TypeLabel(repo.name) + " | [View](" + repo.url + ") |";
    var r := "| " + name + " | " + desc + tail;
    assert r == ("| " + name + " | ") + (desc + tail);
    assert r[|name| + 5..][..|desc|] == desc;
    r
  }
}
