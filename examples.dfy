/**
 * The examples that `scripts/update_title.py` gives in its docstrings and
 * comments, worked through the model. Each concrete string is passed as a
 * parameter fixed by a precondition, which keeps the solver from unfolding
 * the string functions on literals more than the proof needs.
 */
module UpdateTitleExamples {
  import opened Wrappers
  import opened Strings
  import opened UpdateTitle

  lemma AddDashboardSpaced(s: string)
    requires s == "add-dashboard"
    ensures ReplaceChar(s, '-', ' ') == "add dashboard"
  {
  }

  lemma AddDashboardTitled(r: string)
    requires r == "add dashboard"
    ensures TitleCase(r) == "Add Dashboard"
  {
    TitleCaseAt(r, 0); TitleCaseAt(r, 1); TitleCaseAt(r, 2); TitleCaseAt(r, 3);
    TitleCaseAt(r, 4); TitleCaseAt(r, 5); TitleCaseAt(r, 6); TitleCaseAt(r, 7);
    TitleCaseAt(r, 8); TitleCaseAt(r, 9); TitleCaseAt(r, 10); TitleCaseAt(r, 11); TitleCaseAt(r, 12);
  }

  lemma FeatureBranchParts(branch: string)
    requires branch == "feature/add-dashboard"
    ensures branch == "feature" + "/" + "add-dashboard"
    ensures BranchPrNumber(branch) == None
  {
    NoPrNumberWithoutTrailingDigit(branch);
  }

  /** With no PR number the fallback names the work after the last segment. */
  lemma FeatureBranchShortName(branch: string)
    requires branch == "feature/add-dashboard"
    ensures BranchShortName(branch, false) == "Add Dashboard"
  {
    FeatureBranchParts(branch);
    BranchShortNameLastSegment("feature", "add-dashboard", false);
    AddDashboardSpaced("add-dashboard");
    AddDashboardTitled("add dashboard");
  }

  lemma AddDashboardLowered(t: string)
    requires t == "Add Dashboard"
    ensures Lower(t) == "add dashboard"
  {
  }

  lemma FeatureBranchLowered(b: string)
    requires b == "feature/add-dashboard"
    ensures Lower(b) == b
  {
  }

  /** Neither "add dashboard" nor "feature/add-dashboard" has an 'n' or a 'p'. */
  lemma AddDashboardLetters(t: string, b: string)
    requires t == "add dashboard" && b == "feature/add-dashboard"
    ensures 'n' !in t && 'p' !in t && 'n' !in b && 'p' !in b
  {
  }

  /** Without an 'n' or a 'p', no word of the RENDER group occurs. */
  lemma AddDashboardNotRender(t: string, b: string)
    requires 'n' !in t && 'p' !in t && 'n' !in b && 'p' !in b
    ensures !Mentions(Groups[0], t, b)
  {
    var g := Groups[0];
    assert g.keywords == ["render", "deploy", "staging"];
    AbsentChar(t, g.keywords[0], 2);
    AbsentChar(b, g.keywords[0], 2);
    AbsentChar(t, g.keywords[1], 2);
    AbsentChar(b, g.keywords[1], 2);
    AbsentChar(t, g.keywords[2], 5);
    AbsentChar(b, g.keywords[2], 5);
    NoWordOccurs(g, t, b);
  }

  /** "dashboard" puts the feature branch's work in the GUI group. */
  lemma AddDashboardIsGui(t: string, b: string)
    requires t == "Add Dashboard" && b == "feature/add-dashboard"
    ensures Categorize(t, b) == "GUI"
  {
    AddDashboardLowered(t);
    FeatureBranchLowered(b);
    var tl := Lower(t);
    AddDashboardLetters(tl, b);
    AddDashboardNotRender(tl, b);
    assert Groups[1].keywords[1] == "dashboard";
    assert OccursAt(tl, "dashboard", 4);
    ContainsIffOccurs(tl, "dashboard");
    assert Mentions(Groups[1], tl, Lower(b));
    CategorizeFirstGroup(t, b, 1);
  }

  /**
   * "feature/add-dashboard" with no open PR: no number, the name taken from
   * the last segment of the branch, and the category GUI.
   */
  lemma FeatureBranchInfo(branch: string)
    requires branch == "feature/add-dashboard"
    ensures GetPrInfo(branch, None, None) == PrInfo(None, "Add Dashboard", "GUI")
  {
    FeatureBranchParts(branch);
    FeatureBranchShortName(branch);
    AddDashboardIsGui("Add Dashboard", branch);
  }

  // ---------------------------------------------------------------------------
  // "pr/copilot-swe-agent/111": the number from the branch, the name from the
  // segment before it when no title can be fetched.

  lemma PrBranchParts(branch: string)
    requires branch == "pr/copilot-swe-agent/111"
    ensures branch == "pr" + "/" + "copilot-swe-agent" + "/" + "111"
  {
  }

  lemma PrBranchNumber(branch: string)
    requires branch == "pr/copilot-swe-agent/111"
    ensures BranchPrNumber(branch) == Some("111")
  {
    var d := "111";
    assert AllDigits(d);
    assert branch[|branch| - |"/" + d|..] == "/" + d;
    BranchPrNumberIff(branch, d);
  }

  lemma CopilotSweAgentSpaced(s: string)
    requires s == "copilot-swe-agent"
    ensures ReplaceChar(s, '-', ' ') == "copilot" + " " + "swe" + " " + "agent"
  {
  }

  lemma CopilotTitled(r: string)
    requires r == "copilot"
    ensures TitleCase(r) == "Copilot"
  {
    TitleCaseAt(r, 0); TitleCaseAt(r, 1); TitleCaseAt(r, 2); TitleCaseAt(r, 3);
    TitleCaseAt(r, 4); TitleCaseAt(r, 5); TitleCaseAt(r, 6);
  }

  lemma SweTitled(r: string)
    requires r == "swe"
    ensures TitleCase(r) == "Swe"
  {
    TitleCaseAt(r, 0); TitleCaseAt(r, 1); TitleCaseAt(r, 2);
  }

  lemma AgentTitled(r: string)
    requires r == "agent"
    ensures TitleCase(r) == "Agent"
  {
    TitleCaseAt(r, 0); TitleCaseAt(r, 1); TitleCaseAt(r, 2); TitleCaseAt(r, 3); TitleCaseAt(r, 4);
  }

  lemma CopilotSweAgentTitled(a: string, b: string, c: string)
    requires a == "copilot" && b == "swe" && c == "agent"
    ensures TitleCase(a + " " + b + " " + c) == "Copilot Swe Agent"
  {
    TitleCaseWords(a + " " + b, c);
    TitleCaseWords(a, b);
    CopilotTitled(a);
    SweTitled(b);
    AgentTitled(c);
  }

  /** When neither lookup gives a title, the work is named after the segment before the number. */
  lemma PrBranchFallback(branch: string)
    requires branch == "pr/copilot-swe-agent/111"
    ensures GetPrInfo(branch, None, None).prNumber == Some("111")
    ensures GetPrInfo(branch, None, None).shortName == "Copilot Swe Agent"
  {
    PrBranchParts(branch);
    PrBranchNumber(branch);
    BranchShortNamePrSegment("pr", "copilot-swe-agent", "111");
    CopilotSweAgentSpaced("copilot-swe-agent");
    CopilotSweAgentTitled("copilot", "swe", "agent");
  }

  // ---------------------------------------------------------------------------
  // The docstring's full title "131 #111 RENDER: Fix deployment issues (CS)",
  // for a repository "team/131-rbt" and the branch above whose PR is titled
  // "Fix deployment issues".

  lemma ExampleSlug(url: string, path: string)
    requires path == "team/131-rbt" && url == HttpsPrefix + path + GitSuffix
    ensures ParseSlug(url) == Ok(path)
  {
    AbsentChar(path, GitSuffix, 0);
    SlugOfPlainRemote(path);
  }

  lemma ExampleRepoName(slug: string)
    requires slug == "team/131-rbt"
    ensures RepoName(slug) == "131-rbt"
  {
    assert slug == "team" + "/" + "131-rbt";
    RepoNameOfOwnerSlug("team", "131-rbt");
  }

  lemma ExampleProjectNumber(name: string)
    requires name == "131-rbt"
    ensures ProjectNumber(name) == Ok("131")
  {
    assert name[0..3] == "131";
    ProjectNumberIsFirstRun(name, 0, 3);
  }

  /** A title whose lower-cased form contains `deploy` is RENDER on any branch: RENDER is tested first. */
  lemma DeployTitleIsRender(title: string, branch: string)
    requires Contains(Lower(title), "deploy")
    ensures Categorize(title, branch) == "RENDER"
  {
    assert Groups[0].keywords[1] == "deploy";
    assert Mentions(Groups[0], Lower(title), Lower(branch));
    CategorizeFirstGroup(title, branch, 0);
  }

  lemma DeploymentIsRender(title: string, branch: string)
    requires title == "Fix deployment issues"
    ensures Categorize(title, branch) == "RENDER"
  {
    var t := Lower(title);
    assert t == "fix deployment issues";
    assert OccursAt(t, "deploy", 4);
    ContainsIffOccurs(t, "deploy");
    DeployTitleIsRender(title, branch);
  }

  /** A number in the branch is looked up with `gh pr view`, whose title names the work. */
  lemma ExamplePrInfo(branch: string, title: string)
    requires branch == "pr/copilot-swe-agent/111" && title == "Fix deployment issues"
    ensures GetPrInfo(branch, None, Some(title)) == PrInfo(Some("111"), title, "RENDER")
  {
    PrBranchNumber(branch);
    DeploymentIsRender(title, branch);
  }

  lemma ExampleFormat(project: string, pr: string, category: string, title: string)
    requires project == "131" && pr == "111" && category == "RENDER"
    ensures FormatTitle(project, Some(pr), category, title, true) == "131 #111 RENDER: " + title + " (CS)"
  {
    FormatTitleText(project, Some(pr), category, title, true);
    assert project + " #" + pr + " " + category + ": " == "131 #111 RENDER: ";
  }

  lemma ExampleFormatText(title: string)
    requires title == "Fix deployment issues"
    ensures "131 #111 RENDER: " + title + " (CS)" == "131 #111 RENDER: Fix deployment issues (CS)"
  {
  }

  /** The whole pipeline, from the remote URL and branch to the title written to `.title`. */
  lemma ExampleTitle(url: string, branch: string, title: string)
    requires url == HttpsPrefix + "team/131-rbt" + GitSuffix
    requires branch == "pr/copilot-swe-agent/111" && title == "Fix deployment issues"
    ensures GenerateTitle(Some(url), Some(branch), None, Some(title), true) == Ok("131 #111 RENDER: Fix deployment issues (CS)")
  {
    ExampleSlug(url, "team/131-rbt");
    ExampleRepoName("team/131-rbt");
    ExampleProjectNumber("131-rbt");
    ExamplePrInfo(branch, title);
    ExampleFormat("131", "111", "RENDER", title);
    ExampleFormatText(title);
  }

  // ---------------------------------------------------------------------------
  // "copilot/enhance-coauthor": no number in the branch, so `gh pr list` is
  // asked, and its entry gives the number "108" and the title
  // "Enhance co-author attribution", which is FEAT.

  lemma CoauthorTitleLowered(title: string)
    requires title == "Enhance co-author attribution"
    ensures Lower(title) == "enhance co-author attribution"
  {
  }

  lemma CoauthorBranchLowered(b: string)
    requires b == "copilot/enhance-coauthor"
    ensures Lower(b) == b
  {
  }

  lemma CoauthorBranchParts(b: string)
    requires b == "copilot/enhance-coauthor"
    ensures b == "copilot" + ['/'] + "enhance-coauthor"
  {
  }

  /** Letters missing from the lower-cased title; each rules out every word that contains it. */
  lemma CoauthorTitleLetters(t: string)
    requires t == "enhance co-author attribution"
    ensures 'd' !in t && 'f' !in t && 'g' !in t
  {
  }

  lemma CoauthorTitleMoreLetters(t: string)
    requires t == "enhance co-author attribution"
    ensures 'l' !in t && 'm' !in t && 'p' !in t && 's' !in t
  {
  }

  /** The letters missing from the branch. */
  lemma CoauthorBranchLetters(b: string)
    requires b == "copilot/enhance-coauthor"
    ensures 'd' !in b && 'f' !in b && 'g' !in b && 'm' !in b && 's' !in b
  {
  }

  /** The words the missing letters do not rule out, each split at a letter it lacks. */
  lemma CoauthorBranchWords(b: string)
    requires b == "copilot/enhance-coauthor"
    ensures !Contains(b, "ui") && !Contains(b, "api") && !Contains(b, "report") && !Contains(b, "pipeline")
  {
    CoauthorBranchParts(b);
    AbsentOnBothSides("copilot", '/', "enhance-coauthor", "ui", 0, 1);
    AbsentOnBothSides("copilot", '/', "enhance-coauthor", "api", 0, 1);
    AbsentOnBothSides("copilot", '/', "enhance-coauthor", "report", 0, 2);
    AbsentOnBothSides("copilot", '/', "enhance-coauthor", "pipeline", 3, 0);
  }

  /** "ci" and "cli": the only 'c' of "copilot" is followed by 'o'. */
  lemma CoauthorBranchLacksCi(b: string, w: string)
    requires b == "copilot/enhance-coauthor" && (w == "ci" || w == "cli")
    ensures !Contains(b, w)
  {
    var p1, p2, p3 := "c", "pilot", "enhance-coauthor";
    assert b == p1 + ['o'] + (p2 + ['/'] + p3);
    AbsentFromThree(p1, 'o', p2, '/', p3, w, |w| - 1, 0, |w| - 1);
  }

  /** "ci": neither "enhance" nor "co-author" has an 'i', and "attribution" has no 'c'. */
  lemma CoauthorTitleLacksCi(t: string, w: string)
    requires t == "enhance co-author attribution" && w == "ci"
    ensures !Contains(t, w)
  {
    var p1, p2, p3 := "enhance", "co-author", "attribution";
    assert t == p1 + [' '] + (p2 + [' '] + p3);
    AbsentFromThree(p1, ' ', p2, ' ', p3, w, 1, 1, 0);
  }

  /** "ui": the one 'u' of the title outside "co-author" is followed by 't'. */
  lemma CoauthorTitleLacksUi(t: string, w: string)
    requires t == "enhance co-author attribution" && w == "ui"
    ensures !Contains(t, w)
  {
    var p1, p2, p3, p4, p5 := "enhance", "co-author", "attri", "u", "ion";
    assert t == p1 + [' '] + (p2 + [' '] + (p3 + ['b'] + (p4 + ['t'] + p5)));
    AbsentFromFive(p1, ' ', p2, ' ', p3, 'b', p4, 't', p5, w, 0, 1, 0, 1, 0);
  }

  /** What the two strings lack, as the group lemmas below use it. */
  predicate CoauthorFacts(t: string, b: string) {
    && 'd' !in t && 'f' !in t && 'g' !in t && 'l' !in t && 'm' !in t && 'p' !in t && 's' !in t
    && 'd' !in b && 'f' !in b && 'g' !in b && 'm' !in b && 's' !in b
    && !Contains(b, "ui") && !Contains(b, "api") && !Contains(b, "report") && !Contains(b, "pipeline")
    && !Contains(b, "ci") && !Contains(b, "cli")
    && !Contains(t, "ci") && !Contains(t, "ui")
  }

  lemma CoauthorNotRender(t: string, b: string)
    requires CoauthorFacts(t, b)
    ensures !Mentions(Groups[0], t, b)
  {
    var g := Groups[0];
    assert g.keywords == ["render", "deploy", "staging"];
    AbsentChar(t, g.keywords[0], 3); AbsentChar(b, g.keywords[0], 3);
    AbsentChar(t, g.keywords[1], 0); AbsentChar(b, g.keywords[1], 0);
    AbsentChar(t, g.keywords[2], 0); AbsentChar(b, g.keywords[2], 0);
    NoWordOccurs(g, t, b);
  }

  lemma CoauthorNotGui(t: string, b: string)
    requires CoauthorFacts(t, b)
    ensures !Mentions(Groups[1], t, b)
  {
    var g := Groups[1];
    assert g.keywords == ["gui", "dashboard", "ui", "interface"];
    AbsentChar(t, g.keywords[0], 0); AbsentChar(b, g.keywords[0], 0);
    AbsentChar(t, g.keywords[1], 0); AbsentChar(b, g.keywords[1], 0);
    AbsentChar(t, g.keywords[3], 5); AbsentChar(b, g.keywords[3], 5);
    NoWordOccurs(g, t, b);
  }

  lemma CoauthorNotCli(t: string, b: string)
    requires CoauthorFacts(t, b)
    ensures !Mentions(Groups[2], t, b)
  {
    var g := Groups[2];
    assert g.keywords == ["cli", "command", "script"];
    AbsentChar(t, g.keywords[0], 1);
    AbsentChar(t, g.keywords[1], 2); AbsentChar(b, g.keywords[1], 2);
    AbsentChar(t, g.keywords[2], 0); AbsentChar(b, g.keywords[2], 0);
    NoWordOccurs(g, t, b);
  }

  lemma CoauthorNotApi(t: string, b: string)
    requires CoauthorFacts(t, b)
    ensures !Mentions(Groups[3], t, b)
  {
    var g := Groups[3];
    assert g.keywords == ["api", "endpoint", "rest"];
    AbsentChar(t, g.keywords[0], 1);
    AbsentChar(t, g.keywords[1], 2); AbsentChar(b, g.keywords[1], 2);
    AbsentChar(t, g.keywords[2], 2); AbsentChar(b, g.keywords[2], 2);
    NoWordOccurs(g, t, b);
  }

  lemma CoauthorNotData(t: string, b: string)
    requires CoauthorFacts(t, b)
    ensures !Mentions(Groups[4], t, b)
  {
    var g := Groups[4];
    assert g.keywords == ["data", "analysis", "report", "metrics"];
    AbsentChar(t, g.keywords[0], 0); AbsentChar(b, g.keywords[0], 0);
    AbsentChar(t, g.keywords[1], 5); AbsentChar(b, g.keywords[1], 5);
    AbsentChar(t, g.keywords[2], 2);
    AbsentChar(t, g.keywords[3], 0); AbsentChar(b, g.keywords[3], 0);
    NoWordOccurs(g, t, b);
  }

  lemma CoauthorNotDocs(t: string, b: string)
    requires CoauthorFacts(t, b)
    ensures !Mentions(Groups[5], t, b)
  {
    var g := Groups[5];
    assert g.keywords == ["doc", "readme", "guide"];
    AbsentChar(t, g.keywords[0], 0); AbsentChar(b, g.keywords[0], 0);
    AbsentChar(t, g.keywords[1], 3); AbsentChar(b, g.keywords[1], 3);
    AbsentChar(t, g.keywords[2], 0); AbsentChar(b, g.keywords[2], 0);
    NoWordOccurs(g, t, b);
  }

  lemma CoauthorNotInfra(t: string, b: string)
    requires CoauthorFacts(t, b)
    ensures !Mentions(Groups[6], t, b)
  {
    var g := Groups[6];
    assert g.keywords == ["infra", "ci", "cd", "pipeline"];
    AbsentChar(t, g.keywords[0], 2); AbsentChar(b, g.keywords[0], 2);
    AbsentChar(t, g.keywords[2], 1); AbsentChar(b, g.keywords[2], 1);
    AbsentChar(t, g.keywords[3], 0);
    NoWordOccurs(g, t, b);
  }

  lemma CoauthorNotFix(t: string, b: string)
    requires CoauthorFacts(t, b)
    ensures !Mentions(Groups[7], t, b)
  {
    var g := Groups[7];
    assert g.keywords == ["fix", "bug", "issue", "hotfix"];
    AbsentChar(t, g.keywords[0], 0); AbsentChar(b, g.keywords[0], 0);
    AbsentChar(t, g.keywords[1], 2); AbsentChar(b, g.keywords[1], 2);
    AbsentChar(t, g.keywords[2], 1); AbsentChar(b, g.keywords[2], 1);
    AbsentChar(t, g.keywords[3], 3); AbsentChar(b, g.keywords[3], 3);
    NoWordOccurs(g, t, b);
  }

  lemma CoauthorFactsHold(t: string, b: string)
    requires t == "enhance co-author attribution" && b == "copilot/enhance-coauthor"
    ensures CoauthorFacts(t, b)
  {
    CoauthorTitleLetters(t);
    CoauthorTitleMoreLetters(t);
    CoauthorBranchLetters(b);
    CoauthorBranchWords(b);
    CoauthorBranchLacksCi(b, "ci");
    CoauthorBranchLacksCi(b, "cli");
    CoauthorTitleLacksCi(t, "ci");
    CoauthorTitleLacksUi(t, "ui");
  }

  /** No group tested before FEAT is mentioned, and "enhance" is a FEAT word. */
  lemma CoauthorFeatFirst(t: string, b: string)
    requires CoauthorFacts(t, b) && OccursAt(t, "enhance", 0)
    ensures FirstMentioned(Groups, t, b) == 8
  {
    CoauthorNotRender(t, b);
    CoauthorNotGui(t, b);
    CoauthorNotCli(t, b);
    CoauthorNotApi(t, b);
    CoauthorNotData(t, b);
    CoauthorNotDocs(t, b);
    CoauthorNotInfra(t, b);
    CoauthorNotFix(t, b);
    assert Groups[8].keywords[3] == "enhance";
    ContainsIffOccurs(t, "enhance");
    assert Mentions(Groups[8], t, b);
    FirstMentionedIs(Groups, t, b, 8);
  }

  /**
   * "Enhance co-author attribution" on "copilot/enhance-coauthor" is FEAT:
   * none of the eight groups tested before FEAT has a word in either string,
   * and "enhance" is a FEAT word.
   */
  lemma CoauthorIsFeat(title: string, b: string)
    requires title == "Enhance co-author attribution" && b == "copilot/enhance-coauthor"
    ensures Categorize(title, b) == "FEAT"
  {
    CoauthorTitleLowered(title);
    CoauthorBranchLowered(b);
    var t := Lower(title);
    CoauthorFactsHold(t, b);
    assert t[0..7] == "enhance";
    CoauthorFeatFirst(t, Lower(b));
  }

  /** Without a number in the branch, the entry `gh pr list` gives supplies the number, the name and the category. */
  lemma CoauthorPrInfo(branch: string, title: string)
    requires branch == "copilot/enhance-coauthor" && title == "Enhance co-author attribution"
    ensures GetPrInfo(branch, Some(ListedPr("108", title)), None) == PrInfo(Some("108"), title, "FEAT")
  {
    NoPrNumberWithoutTrailingDigit(branch);
    CoauthorIsFeat(title, branch);
  }

  // ---------------------------------------------------------------------------
  // The two further titles of the `generate_title` docstring, from their parts.

  lemma ExampleFormatWithNumber(project: string, pr: string, category: string, name: string)
    requires project == "131" && pr == "108" && category == "DATA" && name == "Add co-author impact"
    ensures FormatTitle(project, Some(pr), category, name, false) == "131 #108 DATA: Add co-author impact"
  {
    FormatTitleText(project, Some(pr), category, name, false);
    assert project + " #" + pr + " " + category + ": " == "131 #108 DATA: ";
  }

  lemma ExampleFormatWithoutNumber(project: string, category: string, name: string)
    requires project == "131" && category == "CLI" && name == "Quick analysis scripts"
    ensures FormatTitle(project, None, category, name, false) == "131 CLI: Quick analysis scripts"
  {
    FormatTitleText(project, None, category, name, false);
    assert project + " " + category + ": " == "131 CLI: ";
  }
}
