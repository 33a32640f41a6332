/**
 * The title generator of `scripts/update_title.py`: it turns the git remote
 * URL, the current branch, the answers of two GitHub lookups and the
 * Codespace flag into the one-line title written to `.title`, of the form
 * `"131 #111 RENDER: Fix deployment issues (CS)"`.
 *
 * The outputs of `git` and `gh` are parameters here: `None` stands for a
 * command that failed (or, for `gh pr list`, printed nothing or an empty
 * list).
 */
module UpdateTitle {
  import opened Wrappers
  import opened Strings

  /** The `RuntimeError`s the script raises, one constructor per message. */
  datatype Error =
    | RemoteUnavailable                // "Failed to get git remote URL"
    | UnrecognizedRemote(url: string)  // "Unrecognized git remote format: {url}"
    | NoProjectNumber(repoName: string) // "Could not extract project number from repo: {repo_name}"
    | BranchUnavailable                // "Failed to get current branch"

  predicate StartsWith(s: string, prefix: string) {
    |prefix| <= |s| && s[..|prefix|] == prefix
  }

  predicate EndsWith(s: string, suffix: string) {
    |suffix| <= |s| && s[|s| - |suffix|..] == suffix
  }

  // ===========================================================================
  // get_repo_slug: parsing the remote URL

  const SshPrefix := "git@github.com:"
  const HttpsPrefix := "https://github.com/"
  const GitSuffix := ".git"

  /** In an SSH remote the first ':' is the one that ends the prefix. */
  lemma SshFirstColon(url: string)
    requires StartsWith(url, SshPrefix)
    ensures IndexOf(url, ':') == |SshPrefix| - 1
  {
    assert url[..|SshPrefix| - 1] == SshPrefix[..|SshPrefix| - 1];
    IndexOfUnique(url, ':', |SshPrefix| - 1);
  }

  /**
   * The slug of a remote URL: the text after `git@github.com:` (split at the
   * first ':') or after `https://github.com/`, with every ".git" deleted.
   */
  function ParseSlug(url: string): (r: Result<string, Error>)
    ensures r.Err? <==> !StartsWith(url, SshPrefix) && !StartsWith(url, HttpsPrefix)
    ensures r.Err? ==> r.error == UnrecognizedRemote(url)
  {
    if StartsWith(url, SshPrefix) then
      SshFirstColon(url);
      var afterColon := url[IndexOf(url, ':') + 1..];
      Ok(RemoveAll(afterColon, GitSuffix))
    else if StartsWith(url, HttpsPrefix) then
      // The prefix stands at the start, so the part after its first occurrence is the rest.
      Ok(RemoveAll(url[|HttpsPrefix|..], GitSuffix))
    else
      Err(UnrecognizedRemote(url))
  }

  /** Both remote forms name the same slug: the path with every ".git" removed. */
  lemma SlugForms(path: string)
    ensures ParseSlug(SshPrefix + path) == Ok(RemoveAll(path, GitSuffix))
    ensures ParseSlug(HttpsPrefix + path) == Ok(RemoveAll(path, GitSuffix))
  {
    var ssh := SshPrefix + path;
    assert ssh[..|SshPrefix|] == SshPrefix;
    SshFirstColon(ssh);
    assert ssh[|SshPrefix|..] == path;
    var https := HttpsPrefix + path;
    assert https[..|HttpsPrefix|] == HttpsPrefix;
    assert https[|HttpsPrefix|..] == path;
    assert https[0] != SshPrefix[0];
  }

  /**
   * When ".git" does not occur in `a`, the scan keeps `a`, deletes the ".git"
   * after it and goes on with `b`: no occurrence can straddle the junction,
   * because no proper suffix of ".git" is a prefix of it.
   */
  lemma {:induction false} RemoveGitAfter(a: string, b: string)
    requires !Contains(a, GitSuffix)
    ensures RemoveAll(a + GitSuffix + b, GitSuffix) == a + RemoveAll(b, GitSuffix)
    decreases |a|
  {
    var s := a + GitSuffix + b;
    if |a| == 0 {
      assert s[..4] == GitSuffix;
      assert s[4..] == b;
    } else {
      assert s[1..] == a[1..] + GitSuffix + b;
      if |a| >= 4 {
        assert s[..4] == a[..4];
      } else {
        assert s[|a|] == '.';
      }
      RemoveGitAfter(a[1..], b);
    }
  }

  /** A path in which ".git" does not occur loses exactly its trailing ".git". */
  lemma RemoveTrailingGit(path: string)
    requires !Contains(path, GitSuffix)
    ensures RemoveAll(path + GitSuffix, GitSuffix) == path
  {
    RemoveGitAfter(path, "");
    assert path + GitSuffix + "" == path + GitSuffix;
  }

  /** Every character of a word that occurs in `s` is a character of `s`. */
  lemma OccurrenceChars(s: string, w: string, k: nat)
    requires k < |w|
    ensures forall i :: OccursAt(s, w, i) ==> w[k] in s
  {
    forall i | OccursAt(s, w, i)
      ensures w[k] in s
    {
      assert s[i..i + |w|][k] == s[i + k];
    }
  }

  /** A character that `s` lacks rules out every word that contains it. */
  lemma AbsentChar(s: string, w: string, k: nat)
    requires k < |w| && w[k] !in s
    ensures !Contains(s, w)
  {
    ContainsIffOccurs(s, w);
    OccurrenceChars(s, w, k);
  }

  /** An occurrence in `p + [c] + q` lies inside `p`, inside `q`, or covers the `c`. */
  lemma OccurrenceSpans(p: string, c: char, q: string, w: string, i: int)
    requires OccursAt(p + [c] + q, w, i)
    ensures OccursAt(p, w, i) || OccursAt(q, w, i - |p| - 1) || c in w
  {
    var s := p + [c] + q;
    if i + |w| <= |p| {
      assert s[i..i + |w|] == p[i..i + |w|];
    } else if i > |p| {
      assert s[i..i + |w|] == q[i - |p| - 1..i - |p| - 1 + |w|];
    } else {
      assert s[i..i + |w|][|p| - i] == s[|p|] == c;
    }
  }

  /** A word that lacks `c` and occurs on neither side of a `c` does not occur in the whole. */
  lemma AbsentAcross(p: string, c: char, q: string, w: string)
    requires c !in w && !Contains(p, w) && !Contains(q, w)
    ensures !Contains(p + [c] + q, w)
  {
    ContainsIffOccurs(p, w);
    ContainsIffOccurs(q, w);
    ContainsIffOccurs(p + [c] + q, w);
    forall i | OccursAt(p + [c] + q, w, i)
      ensures OccursAt(p, w, i) || OccursAt(q, w, i - |p| - 1) || c in w
    {
      OccurrenceSpans(p, c, q, w, i);
    }
  }

  /** A word that lacks `c`, with a letter missing from `p` and a letter missing from `q`, is not in `p + [c] + q`. */
  lemma AbsentOnBothSides(p: string, c: char, q: string, w: string, i: nat, j: nat)
    requires c !in w && i < |w| && j < |w| && w[i] !in p && w[j] !in q
    ensures !Contains(p + [c] + q, w)
  {
    AbsentChar(p, w, i);
    AbsentChar(q, w, j);
    AbsentAcross(p, c, q, w);
  }

  /** The same across three pieces joined by two characters the word lacks. */
  lemma AbsentFromThree(p: string, c: char, q: string, d: char, r: string, w: string, i: nat, j: nat, k: nat)
    requires c !in w && d !in w && i < |w| && j < |w| && k < |w|
    requires w[i] !in p && w[j] !in q && w[k] !in r
    ensures !Contains(p + [c] + (q + [d] + r), w)
  {
    AbsentOnBothSides(q, d, r, w, j, k);
    AbsentChar(p, w, i);
    AbsentAcross(p, c, q + [d] + r, w);
  }

  /** The same across five pieces joined by four characters the word lacks. */
  lemma AbsentFromFive(
    p1: string, c1: char, p2: string, c2: char, p3: string, c3: char, p4: string, c4: char, p5: string,
    w: string, i1: nat, i2: nat, i3: nat, i4: nat, i5: nat)
    requires c1 !in w && c2 !in w && c3 !in w && c4 !in w
    requires i1 < |w| && i2 < |w| && i3 < |w| && i4 < |w| && i5 < |w|
    requires w[i1] !in p1 && w[i2] !in p2 && w[i3] !in p3 && w[i4] !in p4 && w[i5] !in p5
    ensures !Contains(p1 + [c1] + (p2 + [c2] + (p3 + [c3] + (p4 + [c4] + p5))), w)
  {
    AbsentFromThree(p3, c3, p4, c4, p5, w, i3, i4, i5);
    AbsentChar(p2, w, i2);
    AbsentAcross(p2, c2, p3 + [c3] + (p4 + [c4] + p5), w);
    AbsentChar(p1, w, i1);
    AbsentAcross(p1, c1, p2 + [c2] + (p3 + [c3] + (p4 + [c4] + p5)), w);
  }

  /** A remote with a trailing ".git" and no other ".git" gives the path without it. */
  lemma SlugOfPlainRemote(path: string)
    requires !Contains(path, GitSuffix)
    ensures ParseSlug(SshPrefix + path + GitSuffix) == Ok(path)
    ensures ParseSlug(HttpsPrefix + path + GitSuffix) == Ok(path)
  {
    SlugForms(path + GitSuffix);
    assert SshPrefix + path + GitSuffix == SshPrefix + (path + GitSuffix);
    assert HttpsPrefix + path + GitSuffix == HttpsPrefix + (path + GitSuffix);
    RemoveTrailingGit(path);
  }

  /**
   * ".git" is removed wherever it occurs, not only at the end: the remote of
   * a repository named "x.github.io" under owner "o" gives the slug
   * "o/xhub.io" (`a` = "o/x", `b` = "hub.io").
   */
  lemma SlugRemovesInnerGit(a: string, b: string)
    requires !Contains(a, GitSuffix) && !Contains(b, GitSuffix)
    ensures ParseSlug(SshPrefix + (a + GitSuffix + b + GitSuffix)) == Ok(a + b)
    ensures ParseSlug(HttpsPrefix + (a + GitSuffix + b + GitSuffix)) == Ok(a + b)
  {
    SlugForms(a + GitSuffix + b + GitSuffix);
    assert a + GitSuffix + b + GitSuffix == a + GitSuffix + (b + GitSuffix);
    RemoveGitAfter(a, b + GitSuffix);
    RemoveTrailingGit(b);
  }

  // ===========================================================================
  // get_repo_name_from_slug

  /** `slug.split("/")[-1]`: the longest suffix of the slug without a '/'. */
  function RepoName(slug: string): (name: string)
    ensures '/' !in name
    ensures EndsWith(slug, name)
    ensures |name| < |slug| ==> slug[|slug| - |name| - 1] == '/'
  {
    LastPartIsSuffix(slug, '/');
    Last(Split(slug, '/'))
  }

  /** The repository name is what follows the owner. */
  lemma RepoNameOfOwnerSlug(owner: string, repo: string)
    requires '/' !in repo
    ensures RepoName(owner + "/" + repo) == repo
  {
    SplitConcat(owner, repo, '/');
    SplitWithoutSeparator(repo, '/');
  }

  // ===========================================================================
  // extract_project_number: re.search(r'(\d+)[-_]', repo_name)

  /** End of the run of digits that starts at `i`. */
  function DigitRunEnd(s: string, i: nat): (j: nat)
    requires i <= |s|
    ensures i <= j <= |s|
    ensures AllDigits(s[i..j])
    ensures j == |s| || !IsDigit(s[j])
    decreases |s| - i
  {
    if i < |s| && IsDigit(s[i]) then
      var j := DigitRunEnd(s, i + 1);
      assert s[i..j] == [s[i]] + s[i + 1..j];
      j
    else i
  }

  /** The pattern `(\d+)[-_]` matches at `i` with its group ending at `k`. */
  predicate PatternAt(s: string, i: int, k: int) {
    0 <= i < k < |s| && AllDigits(s[i..k]) && (s[k] == '-' || s[k] == '_')
  }

  /** A match at `i` can only end where the digit run from `i` ends. */
  lemma PatternEndsAtRunEnd(s: string, i: nat, k: int)
    requires PatternAt(s, i, k)
    ensures k == DigitRunEnd(s, i)
  {
    var j := DigitRunEnd(s, i);
    forall m | i <= m < j ensures IsDigit(s[m]) { assert s[i..j][m - i] == s[m]; }
    forall m | i <= m < k ensures IsDigit(s[m]) { assert s[i..k][m - i] == s[m]; }
  }

  /** The leftmost start of a match at or after `from`, trying each start in turn as the regex engine does. */
  function FirstPatternAt(s: string, from: nat): (r: Option<nat>)
    requires from <= |s|
    ensures r.Some? ==> from <= r.value < |s| && PatternAt(s, r.value, DigitRunEnd(s, r.value))
    ensures forall i, k :: from <= i && (r.None? || i < r.value) ==> !PatternAt(s, i, k)
    decreases |s| - from
  {
    if from == |s| then None
    else
      var k := DigitRunEnd(s, from);
      if from < k < |s| && (s[k] == '-' || s[k] == '_') then Some(from)
      else
        NoPatternAt(s, from);
        FirstPatternAt(s, from + 1)
  }

  lemma NoPatternAt(s: string, i: nat)
    requires i < |s|
    requires var k := DigitRunEnd(s, i); !(i < k < |s| && (s[k] == '-' || s[k] == '_'))
    ensures forall k :: !PatternAt(s, i, k)
  {
    forall k | PatternAt(s, i, k)
      ensures false
    {
      PatternEndsAtRunEnd(s, i, k);
    }
  }

  /** The project number: the digits of the leftmost match of `(\d+)[-_]` in the repository name. */
  function ProjectNumber(repoName: string): (r: Result<string, Error>)
    ensures r.Ok? <==> exists i, k :: PatternAt(repoName, i, k)
    ensures r.Ok? ==> r.value != "" && AllDigits(r.value)
    ensures r.Err? ==> r.error == NoProjectNumber(repoName)
  {
    match FirstPatternAt(repoName, 0)
    case Some(i) => Ok(repoName[i..DigitRunEnd(repoName, i)])
    case None => Err(NoProjectNumber(repoName))
  }

  /**
   * The leftmost match decides the project number, and it starts a maximal
   * run of digits: the number is the first whole digit run followed by '-'
   * or '_'.
   */
  lemma ProjectNumberIsFirstRun(repoName: string, i: nat, k: nat)
    requires PatternAt(repoName, i, k)
    requires forall i', k' :: 0 <= i' < i ==> !PatternAt(repoName, i', k')
    ensures ProjectNumber(repoName) == Ok(repoName[i..k])
    ensures i == 0 || !IsDigit(repoName[i - 1])
  {
    PatternEndsAtRunEnd(repoName, i, k);
    if i > 0 && IsDigit(repoName[i - 1]) {
      assert repoName[i - 1..k] == [repoName[i - 1]] + repoName[i..k];
      assert PatternAt(repoName, i - 1, k);
    }
  }

  lemma PatternStartsWithDigit(s: string, i: int, k: int)
    ensures PatternAt(s, i, k) ==> IsDigit(s[i])
  {
    if 0 <= i < k <= |s| {
      assert s[i..k][0] == s[i];
    }
  }

  /** The number in the docstring's example is the leading run. */
  lemma ProjectNumberExamples()
    ensures ProjectNumber("131-RBT-x") == Ok("131")
    ensures ProjectNumber("rbt166-travel-booking-api") == Ok("166")
  {
    var a := "131-RBT-x";
    assert a[0..3] == "131";
    ProjectNumberIsFirstRun(a, 0, 3);
    var b := "rbt166-travel-booking-api";
    assert b[3..6] == [b[3], b[4], b[5]] == "166";
    forall i', k' | 0 <= i' < 3
      ensures !PatternAt(b, i', k')
    {
      PatternStartsWithDigit(b, i', k');
    }
    ProjectNumberIsFirstRun(b, 3, 6);
  }

  // ===========================================================================
  // get_pr_info, stage 1: re.search(r'/(\d+)$', branch)

  /** Start of the longest all-digit suffix of `s`. */
  function DigitSuffixStart(s: string): (k: nat)
    ensures k <= |s|
    ensures AllDigits(s[k..])
    ensures k > 0 ==> !IsDigit(s[k - 1])
    decreases |s|
  {
    if |s| > 0 && IsDigit(s[|s| - 1]) then
      var k := DigitSuffixStart(s[..|s| - 1]);
      assert s[k..] == s[..|s| - 1][k..] + [s[|s| - 1]];
      k
    else |s|
  }

  /** The PR number a branch name carries: the digits after its last '/', if they are all it ends with. */
  function BranchPrNumber(branch: string): (r: Option<string>)
    ensures r.Some? ==> r.value != "" && AllDigits(r.value) && EndsWith(branch, "/" + r.value)
  {
    var k := DigitSuffixStart(branch);
    if 0 < k < |branch| && branch[k - 1] == '/' then
      assert branch[k - 1..] == "/" + branch[k..];
      Some(branch[k..])
    else None
  }

  /** A branch carries the PR number `d` exactly when it ends in "/" followed by the non-empty digits `d`. */
  lemma BranchPrNumberIff(branch: string, d: string)
    ensures BranchPrNumber(branch) == Some(d) <==> d != "" && AllDigits(d) && EndsWith(branch, "/" + d)
  {
    if d != "" && AllDigits(d) && EndsWith(branch, "/" + d) {
      var m := |branch| - |d|;
      assert branch[m..] == d;
      assert branch[m - 1] == '/';
      var k := DigitSuffixStart(branch);
      forall j | m <= j < |branch| ensures IsDigit(branch[j]) { assert branch[m..][j - m] == branch[j]; }
      forall j | k <= j < |branch| ensures IsDigit(branch[j]) { assert branch[k..][j - k] == branch[j]; }
    }
  }

  /** A PR number read from the branch ends the branch, so the branch ends with a digit. */
  lemma BranchPrNumberEndsBranch(branch: string)
    ensures BranchPrNumber(branch).Some? ==> |branch| > 0 && IsDigit(branch[|branch| - 1])
  {
    if BranchPrNumber(branch).Some? {
      var d := BranchPrNumber(branch).value;
      assert branch[|branch| - 1] == (branch[|branch| - |d| - 1..])[|d|] == ("/" + d)[|d|] == d[|d| - 1];
    }
  }

  /** A branch whose last character is not a digit carries no PR number. */
  lemma NoPrNumberWithoutTrailingDigit(branch: string)
    requires branch == "" || !IsDigit(branch[|branch| - 1])
    ensures BranchPrNumber(branch) == None
  {
    BranchPrNumberEndsBranch(branch);
  }

  // ===========================================================================
  // categorize_work

  /** One `elif` of the classification: its name and the words that select it. */
  datatype Group = Group(name: string, keywords: seq<string>)

  /** The groups in the order they are tested (`scripts/update_title.py`, lines 80-103). */
  const Groups: seq<Group> := [
    Group("RENDER", ["render", "deploy", "staging"]),
    Group("GUI", ["gui", "dashboard", "ui", "interface"]),
    Group("CLI", ["cli", "command", "script"]),
    Group("API", ["api", "endpoint", "rest"]),
    Group("DATA", ["data", "analysis", "report", "metrics"]),
    Group("DOCS", ["doc", "readme", "guide"]),
    Group("INFRA", ["infra", "ci", "cd", "pipeline"]),
    Group("FIX", ["fix", "bug", "issue", "hotfix"]),
    Group("FEAT", ["feat", "feature", "add", "enhance"]),
    Group("REFACTOR", ["refactor", "cleanup", "improve"]),
    Group("TEST", ["test", "qa", "coverage"]),
    Group("DB", ["cache", "db", "database"])
  ]

  /** The label when no group is mentioned. */
  const DefaultLabel := "DEV"

  /** `any(word in title_lower or word in branch_lower for word in keywords)`. */
  predicate Mentions(g: Group, titleLower: string, branchLower: string) {
    exists k :: 0 <= k < |g.keywords| && (Contains(titleLower, g.keywords[k]) || Contains(branchLower, g.keywords[k]))
  }

  /** A group is mentioned when one of its words occurs at some position of the title or of the branch. */
  lemma MentionsIffOccurs(g: Group, titleLower: string, branchLower: string)
    ensures Mentions(g, titleLower, branchLower) <==>
      exists k, i :: 0 <= k < |g.keywords| && (OccursAt(titleLower, g.keywords[k], i) || OccursAt(branchLower, g.keywords[k], i))
  {
    forall k | 0 <= k < |g.keywords|
      ensures Contains(titleLower, g.keywords[k]) <==> exists i :: OccursAt(titleLower, g.keywords[k], i)
      ensures Contains(branchLower, g.keywords[k]) <==> exists i :: OccursAt(branchLower, g.keywords[k], i)
    {
      ContainsIffOccurs(titleLower, g.keywords[k]);
      ContainsIffOccurs(branchLower, g.keywords[k]);
    }
  }

  /**
   * Every word of the table is non-empty and already lower case, so each can
   * match the lower-cased title or branch.
   */
  lemma GroupWordsAreLowerCase()
    ensures |Groups| == 12
    ensures forall k, j :: 0 <= k < |Groups| && 0 <= j < |Groups[k].keywords| ==>
      Groups[k].keywords[j] != "" && Lower(Groups[k].keywords[j]) == Groups[k].keywords[j]
  {
  }

  /** Index of the first group mentioned, or `|groups|` when none is. */
  function FirstMentioned(groups: seq<Group>, titleLower: string, branchLower: string): (k: nat)
    ensures k <= |groups|
    ensures k < |groups| ==> Mentions(groups[k], titleLower, branchLower)
    ensures forall j :: 0 <= j < k ==> !Mentions(groups[j], titleLower, branchLower)
    decreases |groups|
  {
    if |groups| == 0 then 0
    else if Mentions(groups[0], titleLower, branchLower) then 0
    else 1 + FirstMentioned(groups[1..], titleLower, branchLower)
  }

  /** A category label: non-empty upper-case ASCII letters. */
  predicate IsLabel(s: string) {
    s != "" && forall i :: 0 <= i < |s| ==> IsUpper(s[i])
  }

  /** Every group name is a label, and none of them is the default one. */
  lemma GroupNamesAreLabels()
    ensures IsLabel(DefaultLabel)
    ensures forall k :: 0 <= k < |Groups| ==> IsLabel(Groups[k].name) && Groups[k].name != DefaultLabel
  {
    var names := ["RENDER", "GUI", "CLI", "API", "DATA", "DOCS", "INFRA", "FIX", "FEAT", "REFACTOR", "TEST", "DB"];
    assert forall k :: 0 <= k < |Groups| ==> Groups[k].name == names[k];
    assert IsLabel("RENDER") && IsLabel("GUI") && IsLabel("CLI") && IsLabel("API");
    assert IsLabel("DATA") && IsLabel("DOCS") && IsLabel("INFRA") && IsLabel("FIX");
    assert IsLabel("FEAT") && IsLabel("REFACTOR") && IsLabel("TEST") && IsLabel("DB");
    assert IsLabel("DEV");
  }

  /**
   * The category of a piece of work: the label of the first group, in the
   * order written, one of whose words occurs in the lower-cased title or
   * branch; "DEV" exactly when no word of any group occurs.
   */
  function Categorize(title: string, branch: string): (category: string)
    ensures IsLabel(category)
    ensures category == DefaultLabel <==>
      forall k :: 0 <= k < |Groups| ==> !Mentions(Groups[k], Lower(title), Lower(branch))
  {
    GroupNamesAreLabels();
    var k := FirstMentioned(Groups, Lower(title), Lower(branch));
    if k < |Groups| then Groups[k].name else DefaultLabel
  }

  /** The contract of `FirstMentioned` pins it down: the first group mentioned is the answer. */
  lemma FirstMentionedIs(groups: seq<Group>, titleLower: string, branchLower: string, k: nat)
    requires k < |groups| && Mentions(groups[k], titleLower, branchLower)
    requires forall j :: 0 <= j < k ==> !Mentions(groups[j], titleLower, branchLower)
    ensures FirstMentioned(groups, titleLower, branchLower) == k
  {
  }

  /**
   * Priority: when group `k` is the first, in the order written, with a word
   * in the lower-cased title or branch, the category is its name.
   */
  lemma CategorizeFirstGroup(title: string, branch: string, k: nat)
    requires k < |Groups| && Mentions(Groups[k], Lower(title), Lower(branch))
    requires forall j :: 0 <= j < k ==> !Mentions(Groups[j], Lower(title), Lower(branch))
    ensures Categorize(title, branch) == Groups[k].name
  {
    FirstMentionedIs(Groups, Lower(title), Lower(branch), k);
  }

  /** Which group is mentioned first does not depend on which string is the title. */
  lemma {:induction false} FirstMentionedSymmetric(groups: seq<Group>, t: string, b: string)
    ensures FirstMentioned(groups, t, b) == FirstMentioned(groups, b, t)
    decreases |groups|
  {
    if |groups| > 0 {
      assert Mentions(groups[0], t, b) == Mentions(groups[0], b, t);
      FirstMentionedSymmetric(groups[1..], t, b);
    }
  }

  /** Swapping title and branch does not change the category. */
  lemma CategorizeSymmetric(title: string, branch: string)
    ensures Categorize(title, branch) == Categorize(branch, title)
  {
    FirstMentionedSymmetric(Groups, Lower(title), Lower(branch));
  }

  /** Strings that differ only in ASCII case get the same category. */
  lemma CategorizeIgnoresCase(title: string, branch: string)
    ensures Categorize(Lower(title), Lower(branch)) == Categorize(title, branch)
  {
    LowerIdempotent(title);
    LowerIdempotent(branch);
  }

  /** A group none of whose words occurs in either string is not mentioned. */
  lemma NoWordOccurs(g: Group, t: string, b: string)
    requires forall k :: 0 <= k < |g.keywords| ==> !Contains(t, g.keywords[k]) && !Contains(b, g.keywords[k])
    ensures !Mentions(g, t, b)
  {
  }

  /** No word of the RENDER group occurs in "fix the gui bug" or "any". */
  lemma GuiExampleNotRender(t: string, b: string)
    requires t == "fix the gui bug" && b == "any"
    ensures !Mentions(Groups[0], t, b)
  {
    var g := Groups[0];
    assert g.keywords == ["render", "deploy", "staging"];
    AbsentChar(t, g.keywords[0], 0);
    AbsentChar(b, g.keywords[0], 1);
    AbsentChar(t, g.keywords[1], 0);
    AbsentChar(b, g.keywords[1], 0);
    AbsentChar(t, g.keywords[2], 0);
    AbsentChar(b, g.keywords[2], 0);
    NoWordOccurs(g, t, b);
  }

  /** A title with both a GUI word and a FIX word is GUI: the GUI group is tested first. */
  lemma CategorizeGuiBeforeFix()
    ensures Categorize("fix the gui bug", "any") == "GUI"
  {
    var t := Lower("fix the gui bug");
    var b := Lower("any");
    assert t == "fix the gui bug";
    assert b == "any";
    GuiExampleNotRender(t, b);
    assert Groups[1].keywords[0] == "gui";
    assert OccursAt(t, "gui", 8);
    ContainsIffOccurs(t, "gui");
    assert Mentions(Groups[1], t, b);
    CategorizeFirstGroup("fix the gui bug", "any", 1);
  }

  /** A title with both "render" and "fix" is RENDER, the first group. */
  lemma CategorizeRenderBeforeFix()
    ensures Categorize("Fix the render bug", "hotfix/ui") == "RENDER"
  {
    var t := Lower("Fix the render bug");
    assert t == "fix the render bug";
    assert Groups[0].keywords[0] == "render";
    assert OccursAt(t, "render", 8);
    ContainsIffOccurs(t, "render");
    assert Mentions(Groups[0], t, Lower("hotfix/ui"));
    CategorizeFirstGroup("Fix the render bug", "hotfix/ui", 0);
  }

  // ===========================================================================
  // get_pr_info, stages 2-5: lookups, fallback, category

  /** A title longer than this is cut down to it and marked with an ellipsis. */
  const MaxShortName := 40

  /** `t[:40] + "..." if len(t) > 40 else t`. */
  function Shorten(t: string): (r: string)
    ensures |t| <= MaxShortName ==> r == t
    ensures |t| > MaxShortName ==> |r| == MaxShortName + 3 && r[..MaxShortName] == t[..MaxShortName] && r[MaxShortName..] == "..."
    ensures |r| <= MaxShortName + 3
  {
    if |t| > MaxShortName then t[..MaxShortName] + "..." else t
  }

  /** A string has a '/' exactly when it splits on '/' into more than one part. */
  lemma SplitHasSeveralParts(s: string)
    ensures '/' in s <==> |Split(s, '/')| > 1
  {
    if '/' !in s {
      SplitWithoutSeparator(s, '/');
    } else {
      JoinSplit(s, '/');
    }
  }

  /** The fallback short name derived from the branch (lines 159-166). */
  function BranchShortName(branch: string, prKnown: bool): (name: string)
    ensures |name| <= MaxShortName + 3
    ensures '/' !in branch ==> |name| <= MaxShortName
  {
    var parts := Split(branch, '/');
    SplitHasSeveralParts(branch);
    if |parts| > 1 then
      var segment := if prKnown && |parts| > 2 then parts[|parts| - 2] else parts[|parts| - 1];
      Shorten(TitleCase(ReplaceChar(segment, '-', ' ')))
    else
      Take(TitleCase(ReplaceChar(branch, '-', ' ')), MaxShortName)
  }

  /** Hyphens in a segment become spaces and nothing else turns into a hyphen. */
  lemma TitleCaseKeepsNonHyphens(s: string)
    requires '-' !in s
    ensures '-' !in TitleCase(s)
  {
    forall i | 0 <= i < |s|
      ensures TitleCase(s)[i] != '-'
    {
      TitleCaseAt(s, i);
    }
  }

  /** A fallback name never contains a hyphen: the branch's hyphens all became spaces. */
  lemma BranchShortNameHasNoHyphen(branch: string, prKnown: bool)
    ensures '-' !in BranchShortName(branch, prKnown)
  {
    var parts := Split(branch, '/');
    SplitHasSeveralParts(branch);
    if |parts| > 1 {
      var segment := if prKnown && |parts| > 2 then parts[|parts| - 2] else parts[|parts| - 1];
      var t := TitleCase(ReplaceChar(segment, '-', ' '));
      TitleCaseKeepsNonHyphens(ReplaceChar(segment, '-', ' '));
      if |t| > MaxShortName {
        assert t[..MaxShortName] + "..." == Shorten(t);
        assert '-' !in t[..MaxShortName];
      }
    } else {
      TitleCaseKeepsNonHyphens(ReplaceChar(branch, '-', ' '));
    }
  }

  /** Without a known PR number, or with only two segments, the last segment names the work. */
  lemma BranchShortNameLastSegment(prefix: string, last: string, prKnown: bool)
    requires '/' !in last
    requires prKnown ==> '/' !in prefix
    ensures BranchShortName(prefix + "/" + last, prKnown) == Shorten(TitleCase(ReplaceChar(last, '-', ' ')))
  {
    SplitConcat(prefix, last, '/');
    SplitWithoutSeparator(last, '/');
    if prKnown {
      SplitWithoutSeparator(prefix, '/');
    }
  }

  /** With a known PR number and three or more segments, the next-to-last segment names the work. */
  lemma BranchShortNamePrSegment(prefix: string, middle: string, last: string)
    requires '/' !in middle && '/' !in last
    ensures BranchShortName(prefix + "/" + middle + "/" + last, true) == Shorten(TitleCase(ReplaceChar(middle, '-', ' ')))
  {
    SplitConcat(prefix + "/" + middle, last, '/');
    SplitConcat(prefix, middle, '/');
    SplitWithoutSeparator(middle, '/');
    SplitWithoutSeparator(last, '/');
  }

  /** A branch without '/' is title-cased whole and cut to 40 characters, with no ellipsis. */
  lemma BranchShortNameNoSlash(branch: string, prKnown: bool)
    requires '/' !in branch
    ensures BranchShortName(branch, prKnown) == Take(TitleCase(ReplaceChar(branch, '-', ' ')), MaxShortName)
    ensures |BranchShortName(branch, prKnown)| == if |branch| <= MaxShortName then |branch| else MaxShortName
  {
    SplitWithoutSeparator(branch, '/');
  }

  /** One entry of `gh pr list --head <branch> --json number,title --limit 1` (the number as `str` gives it). */
  datatype ListedPr = ListedPr(number: string, title: string)

  /** `(pr_number, short_name, category)` as `get_pr_info` returns it. */
  datatype PrInfo = PrInfo(prNumber: Option<string>, shortName: string, category: string)

  /** Python truthiness of `pr_number`: `None` and `""` are false, every other string is true. */
  function Truthy(o: Option<string>): (t: bool)
    ensures t <==> o != None && o != Some("")
  {
    o.Some? && o.value != ""
  }

  /**
   * `get_pr_info(branch, repo_slug)`, with `listed` the answer of
   * `gh pr list` for the branch and `viewed` the title `gh pr view` gives for
   * the PR number known at that point. The lookups are consulted in order; a
   * short name that is still empty afterwards is derived from the branch.
   */
  function GetPrInfo(branch: string, listed: Option<ListedPr>, viewed: Option<string>): (info: PrInfo)
    ensures BranchPrNumber(branch).Some? ==> info.prNumber == BranchPrNumber(branch)
    ensures BranchPrNumber(branch).None? ==>
      info.prNumber == if listed.Some? then Some(listed.value.number) else None
    ensures var fromList := BranchPrNumber(branch).None? && listed.Some? && listed.value.title != "";
      var fromView := !fromList && Truthy(info.prNumber) && viewed.Some? && viewed.value != "";
      && (fromList ==> info.shortName == Shorten(listed.value.title) && info.category == Categorize(listed.value.title, branch))
      && (fromView ==> info.shortName == Shorten(viewed.value) && info.category == Categorize(viewed.value, branch))
      && (!fromList && !fromView ==>
            info.shortName == BranchShortName(branch, Truthy(info.prNumber)) && info.category == Categorize(info.shortName, branch))
    ensures |info.shortName| <= MaxShortName + 3
    ensures IsLabel(info.category)
  {
    // Lines 120-124: a number at the end of the branch name.
    var prNumber0 := BranchPrNumber(branch);
    // Lines 127-141: otherwise the PR whose head is this branch.
    var (prNumber, listedTitle, listedName) :=
      if !Truthy(prNumber0) && listed.Some? then
        (Some(listed.value.number), listed.value.title, Shorten(listed.value.title))
      else
        (prNumber0, "", "");
    // Lines 144-157: a known number without a title is looked up by number.
    var (viewedTitle, viewedName) :=
      if Truthy(prNumber) && listedName == "" && viewed.Some? then
        (viewed.value, Shorten(viewed.value))
      else
        (listedTitle, listedName);
    // Lines 158-167: fall back to the branch name.
    var (fullTitle, shortName) :=
      if viewedName == "" then
        var name := BranchShortName(branch, Truthy(prNumber));
        (name, name)
      else
        (viewedTitle, viewedName);
    // Line 170.
    PrInfo(prNumber, shortName, Categorize(fullTitle, branch))
  }

  // ===========================================================================
  // generate_title

  const CodespaceSuffix := " (CS)"

  lemma PrefixOfJoin(a: string, b: string)
    ensures StartsWith(a + b, a)
  {
    assert (a + b)[..|a|] == a;
  }

  lemma SuffixOfJoin(a: string, b: string)
    ensures EndsWith(a + b, b)
  {
    assert (a + b)[|a|..] == b;
  }

  lemma TitleLayoutWithNumber(project: string, pr: string, category: string, shortName: string, suffix: string)
    ensures var title := project + " " + ("#" + pr + " " + category + ": " + shortName) + suffix;
      && StartsWith(title, project + " ")
      && StartsWith(title, project + " #" + pr + " ")
      && EndsWith(title, category + ": " + shortName + suffix)
  {
    var head := project + " #" + pr + " ";
    var tail := category + ": " + shortName + suffix;
    var title := project + " " + ("#" + pr + " " + category + ": " + shortName) + suffix;
    assert title == head + tail;
    assert head == project + " " + ("#" + pr + " ");
    PrefixOfJoin(project + " ", ("#" + pr + " ") + tail);
    PrefixOfJoin(head, tail);
    SuffixOfJoin(head, tail);
  }

  lemma TitleLayoutWithoutNumber(project: string, category: string, shortName: string, suffix: string)
    ensures var title := project + " " + (category + ": " + shortName) + suffix;
      && StartsWith(title, project + " ")
      && EndsWith(title, category + ": " + shortName + suffix)
  {
    var tail := category + ": " + shortName + suffix;
    assert project + " " + (category + ": " + shortName) + suffix == (project + " ") + tail;
    PrefixOfJoin(project + " ", tail);
    SuffixOfJoin(project + " ", tail);
  }

  /** What a title holds after the project number and its space, before any Codespace suffix. */
  function AfterProject(prNumber: Option<string>, category: string, shortName: string): string {
    if Truthy(prNumber) then "#" + prNumber.value + " " + category + ": " + shortName
    else category + ": " + shortName
  }

  /** The f-string of lines 198-204: `"{proj} #{pr} {cat}: {name}"` or `"{proj} {cat}: {name}"`, then " (CS)". */
  function FormatTitle(project: string, prNumber: Option<string>, category: string, shortName: string, inCodespace: bool): (title: string)
    ensures StartsWith(title, project + " ")
    ensures Truthy(prNumber) ==> StartsWith(title, project + " #" + prNumber.value + " ")
    ensures EndsWith(title, category + ": " + shortName + (if inCodespace then CodespaceSuffix else ""))
  {
    var suffix := if inCodespace then CodespaceSuffix else "";
    if Truthy(prNumber) then
      TitleLayoutWithNumber(project, prNumber.value, category, shortName, suffix);
      project + " " + AfterProject(prNumber, category, shortName) + suffix
    else
      TitleLayoutWithoutNumber(project, category, shortName, suffix);
      project + " " + AfterProject(prNumber, category, shortName) + suffix
  }

  /** The title is the f-string of line 199 or of line 201, followed by " (CS)" in a Codespace. */
  lemma FormatTitleText(project: string, prNumber: Option<string>, category: string, shortName: string, inCodespace: bool)
    ensures FormatTitle(project, prNumber, category, shortName, inCodespace) ==
      (if Truthy(prNumber) then project + " #" + prNumber.value + " " + category + ": " + shortName
       else project + " " + category + ": " + shortName)
      + (if inCodespace then CodespaceSuffix else "")
  {
    if Truthy(prNumber) {
      assert project + " " + AfterProject(prNumber, category, shortName)
        == project + " #" + prNumber.value + " " + category + ": " + shortName;
    } else {
      assert project + " " + AfterProject(prNumber, category, shortName) == project + " " + category + ": " + shortName;
    }
  }

  /** `a + [c] + x` determines `a` and `x` when `c` does not occur in `a`. */
  lemma CutAtFirst(a1: string, x1: string, a2: string, x2: string, c: char)
    requires c !in a1 && c !in a2
    requires a1 + [c] + x1 == a2 + [c] + x2
    ensures a1 == a2 && x1 == x2
  {
    var s := a1 + [c] + x1;
    assert s[..|a1|] == a1;
    IndexOfUnique(s, c, |a1|);
    var s2 := a2 + [c] + x2;
    assert s2[..|a2|] == a2;
    IndexOfUnique(s2, c, |a2|);
    assert a1 == s[..|a1|];
    assert x1 == s[|a1| + 1..];
    assert x2 == s2[|a2| + 1..];
  }

  lemma FormatTitleShape(project: string, prNumber: Option<string>, category: string, shortName: string, inCodespace: bool)
    ensures FormatTitle(project, prNumber, category, shortName, inCodespace)
      == project + [' '] + AfterProject(prNumber, category, shortName) + (if inCodespace then CodespaceSuffix else "")
  {
  }

  lemma DropCommonSuffix(a: string, b: string, x: string)
    requires a + x == b + x
    ensures a == b
  {
    assert a == (a + x)[..|a|];
    assert b == (b + x)[..|b|];
  }

  /** The part after the project number starts with '#' exactly when a PR number is shown, and then the number ends at the next space. */
  lemma AfterProjectShape(prNumber: Option<string>, category: string, shortName: string)
    requires IsLabel(category)
    ensures var rest := AfterProject(prNumber, category, shortName);
      && rest != ""
      && (rest[0] == '#' <==> Truthy(prNumber))
      && (Truthy(prNumber) ==> rest[1..] == prNumber.value + [' '] + (category + ": " + shortName))
      && (!Truthy(prNumber) ==> rest == category + ": " + shortName)
  {
    assert IsUpper(category[0]);
    if Truthy(prNumber) {
      var rest := AfterProject(prNumber, category, shortName);
      assert rest == ['#'] + (prNumber.value + [' '] + (category + ": " + shortName));
    } else {
      assert (category + ": " + shortName)[0] == category[0];
    }
  }

  /** "{cat}: {name}" determines the category and the name when the category has no ':'. */
  lemma CategoryAndName(category1: string, name1: string, category2: string, name2: string)
    requires IsLabel(category1) && IsLabel(category2)
    requires category1 + ": " + name1 == category2 + ": " + name2
    ensures category1 == category2 && name1 == name2
  {
    assert ':' !in category1 by { assert forall i :: 0 <= i < |category1| ==> IsUpper(category1[i]); }
    assert ':' !in category2 by { assert forall i :: 0 <= i < |category2| ==> IsUpper(category2[i]); }
    assert category1 + ": " + name1 == category1 + [':'] + (" " + name1);
    assert category2 + ": " + name2 == category2 + [':'] + (" " + name2);
    CutAtFirst(category1, " " + name1, category2, " " + name2, ':');
    assert name1 == (" " + name1)[1..];
    assert name2 == (" " + name2)[1..];
  }

  lemma DigitsHaveNoSpace(d: string)
    requires AllDigits(d)
    ensures ' ' !in d
  {
    assert forall i :: 0 <= i < |d| ==> IsDigit(d[i]);
  }

  /**
   * Titles are unambiguous: for one Codespace flag, a title determines the
   * project number, whether a PR number is shown and which, the category and
   * the short name.
   */
  lemma FormatTitleUnambiguous(
    project1: string, pr1: Option<string>, category1: string, name1: string,
    project2: string, pr2: Option<string>, category2: string, name2: string,
    inCodespace: bool)
    requires ' ' !in project1 && ' ' !in project2
    requires pr1.Some? ==> AllDigits(pr1.value)
    requires pr2.Some? ==> AllDigits(pr2.value)
    requires IsLabel(category1) && IsLabel(category2)
    requires FormatTitle(project1, pr1, category1, name1, inCodespace) == FormatTitle(project2, pr2, category2, name2, inCodespace)
    ensures project1 == project2 && category1 == category2 && name1 == name2
    ensures Truthy(pr1) == Truthy(pr2) && (Truthy(pr1) ==> pr1.value == pr2.value)
  {
    var rest1 := AfterProject(pr1, category1, name1);
    var rest2 := AfterProject(pr2, category2, name2);
    FormatTitleShape(project1, pr1, category1, name1, inCodespace);
    FormatTitleShape(project2, pr2, category2, name2, inCodespace);
    DropCommonSuffix(project1 + [' '] + rest1, project2 + [' '] + rest2, if inCodespace then CodespaceSuffix else "");
    CutAtFirst(project1, rest1, project2, rest2, ' ');
    AfterProjectShape(pr1, category1, name1);
    AfterProjectShape(pr2, category2, name2);
    if Truthy(pr1) {
      DigitsHaveNoSpace(pr1.value);
      DigitsHaveNoSpace(pr2.value);
      CutAtFirst(pr1.value, category1 + ": " + name1, pr2.value, category2 + ": " + name2, ' ');
    }
    CategoryAndName(category1, name1, category2, name2);
  }

  /**
   * `generate_title()`: the slug, the repository name and the project number
   * are worked out first, then the branch is read; the first of these steps to
   * fail decides the error.
   */
  function GenerateTitle(
    remoteUrl: Option<string>, branch: Option<string>,
    listed: Option<ListedPr>, viewed: Option<string>, inCodespace: bool): (r: Result<string, Error>)
    ensures remoteUrl.None? ==> r == Err(RemoteUnavailable)
    ensures remoteUrl.Some? && ParseSlug(remoteUrl.value).Err? ==> r == Err(UnrecognizedRemote(remoteUrl.value))
    ensures remoteUrl.Some? && ParseSlug(remoteUrl.value).Ok? ==>
      var name := RepoName(ParseSlug(remoteUrl.value).value);
      && (ProjectNumber(name).Err? ==> r == Err(NoProjectNumber(name)))
      && (ProjectNumber(name).Ok? && branch.None? ==> r == Err(BranchUnavailable))
      && (ProjectNumber(name).Ok? && branch.Some? ==> r.Ok? && StartsWith(r.value, ProjectNumber(name).value + " "))
    ensures r.Ok? && inCodespace ==> EndsWith(r.value, CodespaceSuffix)
  {
    if remoteUrl.None? then Err(RemoteUnavailable)
    else
      match ParseSlug(remoteUrl.value)
      case Err(e) => Err(e)
      case Ok(slug) =>
        match ProjectNumber(RepoName(slug))
        case Err(e) => Err(e)
        case Ok(project) =>
          if branch.None? then Err(BranchUnavailable)
          else
            var info := GetPrInfo(branch.value, listed, viewed);
            Ok(FormatTitle(project, info.prNumber, info.category, info.shortName, inCodespace))
  }
}
