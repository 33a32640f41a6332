# update_title: a verified model of the `.title` generator

`scripts/update_title.py` writes a one-line title for the current piece of
work to the file `.title`. The title has the form
`"{project} #{pr} {CATEGORY}: {short name}"`, or `"{project} {CATEGORY}: {short name}"`
when no PR number is known, and gets `" (CS)"` appended inside a GitHub
Codespace. The parts of the title come from these sources:

- The project number is the first run of digits followed by `-` or `_` in the
  repository name. The repository name is the last segment of the
  `owner/repo` slug, and the slug is parsed from the `origin` remote URL.
- The PR number comes from a trailing `/<digits>` of the branch name, or else
  from `gh pr list` for that branch.
- The short name is the PR title from `gh pr list` or `gh pr view`. When that
  title is longer than 40 characters, it is cut to its first 40 characters
  plus `"..."`. Failing that, the short name is derived from a segment of the
  branch name.
- The category is the first of twelve keyword groups, in the order written,
  whose keyword occurs in the lower-cased title or branch. It is `DEV` when
  none occurs.

The model keeps all of this string processing. What the `git` and `gh`
commands print, and whether `CODESPACE_NAME` is set, become parameters.

The project has four modules:

| file | module | contents |
|---|---|---|
| `wrappers.dfy` | `Wrappers` | `Option` and `Result` |
| `strings.dfy` | `Strings` | The `str` operations the script uses, restricted to ASCII, each with its laws. |
| `update_title.dfy` | `UpdateTitle` | The script's functions and the properties it promises. |
| `examples.dfy` | `UpdateTitleExamples` | The docstring examples of `get_pr_info` (lines 113-115) and `generate_title` (lines 186-188), worked through the model. Line 113 leaves the PR title unspecified, so its example uses the title `Fix deployment issues` from line 186. For lines 187-188, only the formatting step is worked, from the category and name those lines show. |

Inputs and how they are modelled:

- **`git config --get remote.origin.url`** and **`git branch --show-current`** are `Option<string>`. `None` means the command failed, and then the script raises.
- **`gh pr list`** is `Option<ListedPr>`. `None` covers a failed call, empty output or an empty list.
- **`gh pr view`** is the title it returns, as `Option<string>`.
- **Python truthiness** (lines 127, 144, 158 and 198) is modelled as follows:
  - an absent `short_name` and an empty one are both `""`;
  - `pr_number` is truthy when it is present and non-empty (`Truthy`).

The model follows the code where its comments disagree with it:

- The module docstring shows the title format `"131 | PR-111 | Short Name"` (lines 4-6). The code builds the format of lines 198-204, and the model follows that.
- The docstring says the repository name `"rbt166-travel-booking-api"` gives `"131"` (line 9). The code gives `"166"`, and `ProjectNumberExamples` proves that.
- `replace(".git", "")` deletes `.git` everywhere in the path, not only at the end. `SlugRemovesInnerGit` states the consequence. For example, the remote of `o/x.github.io` gives the slug `o/xhub.io`.

## Model

| member | source | states |
|---|---|---|
| Strings.Contains | scripts/update_title.py:80-102 | `word in s`: the empty word is in every string, and a word that is found is no longer than the string. `Strings.ContainsIffOccurs` gives the full law. |
| Strings.ContainsIffOccurs | scripts/update_title.py:80-102 | `word in s` holds exactly when `word` occurs in `s` at some position. |
| Strings.LowerChar | scripts/update_title.py:76-77 | Lower-casing one character never gives an upper-case letter. It keeps letters as letters and non-letters as non-letters, leaves every character that is not upper case unchanged, and does not change what upper-casing gives. |
| Strings.UpperChar | scripts/update_title.py:162 | Upper-casing one character never gives a lower-case letter. It keeps letters as letters and leaves every character that is not lower case unchanged. |
| Strings.Lower | scripts/update_title.py:76-77 | `lower()` keeps the length and maps every character through ASCII lower-casing. |
| Strings.LowerIdempotent | scripts/update_title.py:76-77 | Lower-casing twice is the same as lower-casing once. |
| Strings.IndexOf | scripts/update_title.py:36 | The cut of `split(":", 1)`: the index is at most the length, the character there is the separator when the index is inside the string, and no earlier character is the separator. |
| Strings.IndexOfUnique | scripts/update_title.py:36 | The first occurrence of a character is unique: any position with no earlier occurrence that holds the character (or is the end) is it. |
| Strings.Split | scripts/update_title.py:47 | `split(c)` gives at least one part, and no part contains `c`. |
| Strings.SplitWithoutSeparator | scripts/update_title.py:47 | A string without the separator splits into itself alone. |
| Strings.SplitAtFirst | scripts/update_title.py:47 | `split(c)` cuts at the first separator: the part before it, then the parts of the rest. |
| Strings.JoinSplit | scripts/update_title.py:47 | Joining the parts of `split(c)` with `c` gives back the original string. |
| Strings.SplitJoin | scripts/update_title.py:159 | Splitting a join of `c`-free parts gives back exactly those parts. |
| Strings.SplitAfterFreePiece | scripts/update_title.py:159 | A separator-free piece followed by the separator is the first part, and what follows splits on its own. |
| Strings.SplitConcat | scripts/update_title.py:159 | Splitting `p + c + q` gives the parts of `p` followed by the parts of `q`. |
| Strings.LastPartIsSuffix | scripts/update_title.py:47 | The last part of a split is a suffix of the string, and a separator precedes it unless it is the whole string. |
| Strings.RemoveAll | scripts/update_title.py:36 | `replace(pat, "")` never makes a string longer. |
| Strings.RemoveAllAbsent | scripts/update_title.py:36 | `replace(pat, "")` leaves a string unchanged when `pat` does not occur in it. |
| Strings.ReplaceChar | scripts/update_title.py:162 | `replace('-', ' ')` keeps the length, turns every `-` into a space, leaves every other character unchanged, and leaves no `-`. |
| Strings.Take | scripts/update_title.py:166 | `s[:n]` has length `min(len(s), n)` and is a prefix of `s`. |
| Strings.TitleCase | scripts/update_title.py:162 | `title()` keeps the length. Each character is lower-cased when a letter precedes it and upper-cased otherwise. |
| Strings.TitleFrom | scripts/update_title.py:162 | The left-to-right scan behind `title()` keeps the length. `Strings.TitleFromAt` and `Strings.TitleFromEach` give each character of the result. |
| Strings.TitleFromAt | scripts/update_title.py:162 | Character `i` of the scan is lower-cased when the character before it is a letter, and upper-cased otherwise. At `i = 0` the given starting state decides. |
| Strings.TitleFromEach | scripts/update_title.py:162 | The same law at every position at once. |
| Strings.TitleCaseAt | scripts/update_title.py:162 | The law of `Strings.TitleCase` at one given position: a character is lower-cased when a letter precedes it and upper-cased otherwise. |
| Strings.TitleFromConcat | scripts/update_title.py:162 | Title-casing a concatenation treats the second part as following the last character of the first. |
| Strings.TitleCaseWords | scripts/update_title.py:162 | Words separated by a space are title-cased independently. |
| Strings.TitleCaseIdempotent | scripts/update_title.py:162 | `title()` applied twice is the same as applied once. |
| UpdateTitle.ParseSlug | scripts/update_title.py:35-40 | A URL is an error exactly when it starts with neither the SSH nor the HTTPS prefix, and the error carries the URL. |
| UpdateTitle.SshFirstColon | scripts/update_title.py:35-36 | For an SSH remote, the first `:` is the one that ends `git@github.com:`, so `split(":", 1)[1]` is everything after that prefix. |
| UpdateTitle.SlugForms | scripts/update_title.py:35-42 | `git@github.com:` + r and `https://github.com/` + r give the same slug: r with every `.git` removed. |
| UpdateTitle.RemoveGitAfter | scripts/update_title.py:36-38 | Removing `.git` from `a + ".git" + b`, where `a` has no `.git`, gives `a` followed by `b` with its `.git` removed. |
| UpdateTitle.RemoveTrailingGit | scripts/update_title.py:36-38 | A path with `.git` only at its end loses exactly that suffix. |
| UpdateTitle.SlugOfPlainRemote | scripts/update_title.py:35-42 | A remote `prefix + path + ".git"` in either form gives the slug `path`, when `.git` does not occur in `path`. |
| UpdateTitle.SlugRemovesInnerGit | scripts/update_title.py:36-38 | A `.git` inside the path is removed as well as the trailing one. |
| UpdateTitle.RepoName | scripts/update_title.py:45-47 | The repository name is the longest `/`-free suffix of the slug. |
| UpdateTitle.RepoNameOfOwnerSlug | scripts/update_title.py:45-47 | The name of `owner/repo` is `repo`. |
| UpdateTitle.DigitRunEnd | scripts/update_title.py:52 | The greedy `\d+` ends at the end of the run of digits: everything skipped is a digit, and what follows is not. |
| UpdateTitle.PatternEndsAtRunEnd | scripts/update_title.py:52 | A match of `(\d+)[-_]` that starts at `i` must end where the digit run from `i` ends. |
| UpdateTitle.PatternStartsWithDigit | scripts/update_title.py:52 | A match of `(\d+)[-_]` starts with a digit. |
| UpdateTitle.FirstPatternAt | scripts/update_title.py:52 | The leftmost search finds a position where the pattern matches, and no match starts earlier. |
| UpdateTitle.NoPatternAt | scripts/update_title.py:52 | No match starts at a position whose digit run is not followed by `-` or `_`. |
| UpdateTitle.ProjectNumber | scripts/update_title.py:50-55 | A project number exists exactly when `(\d+)[-_]` matches somewhere. It is a non-empty run of digits, and otherwise the error names the repository. |
| UpdateTitle.ProjectNumberIsFirstRun | scripts/update_title.py:50-55 | The number is the leftmost matching digit run, and that run is maximal: no digit precedes it. |
| UpdateTitle.ProjectNumberExamples | scripts/update_title.py:51 | `131-RBT-x` gives `131`, and `rbt166-travel-booking-api` gives `166`. |
| UpdateTitle.DigitSuffixStart | scripts/update_title.py:120 | Marks the start of the longest all-digit suffix: everything after it is a digit, and the character before it is not. |
| UpdateTitle.BranchPrNumber | scripts/update_title.py:120-121 | A PR number from the branch is non-empty, all digits, and preceded by `/` at the end of the branch. |
| UpdateTitle.BranchPrNumberIff | scripts/update_title.py:120-121 | The branch gives the number `d` exactly when it ends with `"/" + d` and `d` is a non-empty run of digits. |
| UpdateTitle.BranchPrNumberEndsBranch | scripts/update_title.py:120-121 | A branch that gives a PR number ends with a digit. |
| UpdateTitle.NoPrNumberWithoutTrailingDigit | scripts/update_title.py:120-121 | A branch that is empty or does not end with a digit gives no PR number. |
| UpdateTitle.MentionsIffOccurs | scripts/update_title.py:80-102 | `Mentions` is the test `any(word in title_lower or word in branch_lower for word in keywords)` of one branch of the `if` chain. It holds exactly when some keyword of the group occurs at some position of the lower-cased title or branch. |
| UpdateTitle.GroupWordsAreLowerCase | scripts/update_title.py:80-103 | The table `Groups` holds the twelve keyword lists of lines 80-103 in the order written. Every keyword is non-empty and already lower case, so comparing it with the lower-cased strings is what the script does. |
| UpdateTitle.OccurrenceChars | scripts/update_title.py:80-102 | Every character of a word that occurs in a string is in the string. |
| UpdateTitle.AbsentChar | scripts/update_title.py:80-102 | A word with a character that the string lacks is not in the string. |
| UpdateTitle.OccurrenceSpans | scripts/update_title.py:80-102 | An occurrence in `p + c + q` lies inside `p`, lies inside `q`, or covers `c`. |
| UpdateTitle.AbsentAcross | scripts/update_title.py:80-102 | A word without `c` that is in neither `p` nor `q` is not in `p + c + q`. |
| UpdateTitle.FirstMentioned | scripts/update_title.py:80-103 | Gives the index of the first group with a keyword in the title or branch. No earlier group has one, and the index is past the end when no group has one. |
| UpdateTitle.GroupNamesAreLabels | scripts/update_title.py:80-105 | All twelve group names of the table `Groups` and the default `DefaultLabel` (`DEV`, line 105) are upper-case labels, and no group is named `DEV`. |
| UpdateTitle.Categorize | scripts/update_title.py:70-105 | The category is an upper-case label. It is `DEV` exactly when no keyword of any group occurs in the lower-cased title or branch. |
| UpdateTitle.FirstMentionedIs | scripts/update_title.py:80-103 | A group that is mentioned, with no earlier group mentioned, is the one the search returns. |
| UpdateTitle.CategorizeFirstGroup | scripts/update_title.py:80-103 | Priority: the category is the name of the first group, in the order written, that has a keyword in the title or branch. |
| UpdateTitle.FirstMentionedSymmetric | scripts/update_title.py:80-102 | Exchanging title and branch does not change which group is mentioned first. |
| UpdateTitle.CategorizeSymmetric | scripts/update_title.py:80-102 | `categorize_work(t, b) == categorize_work(b, t)`. |
| UpdateTitle.CategorizeIgnoresCase | scripts/update_title.py:76-77 | Lower-casing the arguments beforehand does not change the category. |
| UpdateTitle.NoWordOccurs | scripts/update_title.py:80-102 | A group none of whose words occurs in either string is not mentioned. |
| UpdateTitle.GuiExampleNotRender | scripts/update_title.py:80 | No RENDER keyword occurs in `fix the gui bug` or `any`. |
| UpdateTitle.CategorizeGuiBeforeFix | scripts/update_title.py:82-95 | The title `fix the gui bug` on the branch `any` is GUI, not FIX: no RENDER keyword occurs, and the GUI group is tested before the FIX group. `UpdateTitle.CategorizeFirstGroup` gives the general priority rule. |
| UpdateTitle.CategorizeRenderBeforeFix | scripts/update_title.py:80-95 | A title with `render` and a branch with `hotfix` and `ui` is RENDER, the first group. |
| UpdateTitle.Shorten | scripts/update_title.py:139 | A title of at most 40 characters is unchanged. A longer one becomes its first 40 characters followed by `...`, which is 43 characters. |
| UpdateTitle.SplitHasSeveralParts | scripts/update_title.py:159-160 | A branch splits into more than one part exactly when it contains `/`. |
| UpdateTitle.BranchShortName | scripts/update_title.py:158-166 | The fallback name is at most 43 characters, and at most 40 when the branch has no `/`. |
| UpdateTitle.TitleCaseKeepsNonHyphens | scripts/update_title.py:162 | Title-casing a string without `-` introduces no `-`. |
| UpdateTitle.BranchShortNameHasNoHyphen | scripts/update_title.py:162-166 | The fallback name never contains `-`. |
| UpdateTitle.BranchShortNameLastSegment | scripts/update_title.py:159-164 | Without a known PR number, or with only two segments, the name is the last segment, hyphens spaced, title-cased and shortened. |
| UpdateTitle.BranchShortNamePrSegment | scripts/update_title.py:161-164 | With a known PR number and three or more segments, the name comes from the next-to-last segment. |
| UpdateTitle.BranchShortNameNoSlash | scripts/update_title.py:165-166 | A branch without `/` is title-cased whole and cut to 40 characters with no ellipsis. |
| UpdateTitle.Truthy | scripts/update_title.py:198 | `if pr_number:` holds exactly when the number is present and not empty. The same test is made at lines 127, 144 and 161. |
| UpdateTitle.GetPrInfo | scripts/update_title.py:108-172 | See below. |
| UpdateTitle.FormatTitle | scripts/update_title.py:197-204 | The title starts with the project number and a space, and with `#<pr> ` after it when the PR number is truthy. It ends with `CATEGORY: name`, followed by ` (CS)` in a Codespace. |
| UpdateTitle.TitleLayoutWithNumber | scripts/update_title.py:199 | The line-199 title starts with `project `, then with `project #pr `, and ends with `category: name` and the suffix. |
| UpdateTitle.TitleLayoutWithoutNumber | scripts/update_title.py:201 | The line-201 title starts with `project ` and ends with `category: name` and the suffix. |
| UpdateTitle.FormatTitleText | scripts/update_title.py:197-204 | The title is exactly the f-string of line 199 when the PR number is truthy, and of line 201 otherwise, followed by ` (CS)` in a Codespace. |
| UpdateTitle.CutAtFirst | scripts/update_title.py:199 | A string of the form `a + c + x` with `c` absent from `a` determines `a` and `x`. |
| UpdateTitle.FormatTitleShape | scripts/update_title.py:197-204 | A title is the project number, a space, the rest, and the optional suffix. |
| UpdateTitle.AfterProjectShape | scripts/update_title.py:198-201 | The rest of a title starts with `#` exactly when a PR number is shown, since a category never starts with `#`. |
| UpdateTitle.CategoryAndName | scripts/update_title.py:199-201 | `CATEGORY: name` determines both the category and the name. |
| UpdateTitle.DigitsHaveNoSpace | scripts/update_title.py:199 | A PR number made of digits contains no space. |
| UpdateTitle.FormatTitleUnambiguous | scripts/update_title.py:197-204 | Take two titles built with the same Codespace flag, from project numbers without a space, PR numbers made of digits and label categories. `ProjectNumber`, `BranchPrNumber` and `Categorize` give such values. The two titles are equal only when they have the same project, the same shown PR number, the same category and the same short name. Without these conditions this fails: project `1 #2` with no PR number gives the same title as project `1` with PR `2`. |
| UpdateTitle.GenerateTitle | scripts/update_title.py:180-206 | See below. |
| UpdateTitleExamples.FeatureBranchShortName | scripts/update_title.py:114 | Without a PR number, `feature/add-dashboard` is named `Add Dashboard`. |
| UpdateTitleExamples.AddDashboardIsGui | scripts/update_title.py:82-83 | `Add Dashboard` on the branch `feature/add-dashboard` is GUI, because the branch mentions no RENDER word. |
| UpdateTitleExamples.FeatureBranchInfo | scripts/update_title.py:114 | `feature/add-dashboard` with both lookups failing gives `(None, "Add Dashboard", "GUI")`. |
| UpdateTitleExamples.PrBranchNumber | scripts/update_title.py:119-121 | `pr/copilot-swe-agent/111` gives the PR number `111`. |
| UpdateTitleExamples.CopilotSweAgentTitled | scripts/update_title.py:162 | `copilot swe agent` title-cases to `Copilot Swe Agent`. |
| UpdateTitleExamples.PrBranchFallback | scripts/update_title.py:158-164 | With both lookups failing, `pr/copilot-swe-agent/111` keeps the number `111` and is named `Copilot Swe Agent` after its middle segment. |
| UpdateTitleExamples.DeployTitleIsRender | scripts/update_title.py:76-81 | A title whose lower-cased form contains `deploy` is RENDER on any branch, since RENDER is the first group tested. |
| UpdateTitleExamples.DeploymentIsRender | scripts/update_title.py:80-81 | The title `Fix deployment issues` is RENDER on any branch, because `deploy` occurs in it. |
| UpdateTitleExamples.ExamplePrInfo | scripts/update_title.py:143-170 | The number from the branch is looked up with `gh pr view`, and that title is the short name and decides the category. |
| UpdateTitleExamples.ExampleSlug | scripts/update_title.py:37-38 | `https://github.com/team/131-rbt.git` gives the slug `team/131-rbt`. |
| UpdateTitleExamples.ExampleRepoName | scripts/update_title.py:47 | The slug `team/131-rbt` gives the repository name `131-rbt`. |
| UpdateTitleExamples.ExampleProjectNumber | scripts/update_title.py:52-55 | The repository name `131-rbt` gives the project number `131`. |
| UpdateTitleExamples.ExampleFormat | scripts/update_title.py:198-204 | Project `131`, PR `111` and category `RENDER` in a Codespace give `131 #111 RENDER: ` + name + ` (CS)`. |
| UpdateTitleExamples.ExampleTitle | scripts/update_title.py:184-186 | The remote `https://github.com/team/131-rbt.git`, the branch `pr/copilot-swe-agent/111` and the PR title `Fix deployment issues`, in a Codespace, give exactly `131 #111 RENDER: Fix deployment issues (CS)`. |
| UpdateTitleExamples.CoauthorFeatFirst | scripts/update_title.py:80-97 | Given the missing-letter facts `CoauthorFacts` of the lower-cased title `enhance co-author attribution` and the branch `copilot/enhance-coauthor`, and `enhance` at the start of the title, no keyword of the eight groups from RENDER to FIX occurs. So FEAT is the first group mentioned. |
| UpdateTitleExamples.CoauthorIsFeat | scripts/update_title.py:96-97 | `Enhance co-author attribution` on the branch `copilot/enhance-coauthor` is FEAT. |
| UpdateTitleExamples.CoauthorPrInfo | scripts/update_title.py:115 | On `copilot/enhance-coauthor`, which has no number in its name, `gh pr list` finds PR `108` titled `Enhance co-author attribution`, giving `("108", "Enhance co-author attribution", "FEAT")`. |
| UpdateTitleExamples.ExampleFormatWithNumber | scripts/update_title.py:187 | Project `131`, PR `108`, category `DATA` and name `Add co-author impact`, outside a Codespace, give `131 #108 DATA: Add co-author impact`. |
| UpdateTitleExamples.ExampleFormatWithoutNumber | scripts/update_title.py:188 | Project `131`, no PR number, category `CLI` and name `Quick analysis scripts`, outside a Codespace, give `131 CLI: Quick analysis scripts`. |

`UpdateTitle.GetPrInfo` states that:

- The PR number is the one from the branch when there is one, and otherwise the listed PR's number.
- The short name and the category come from the first source that gives a non-empty title. The sources, in order, are `gh pr list` (only without a branch number), then `gh pr view` (with a truthy number), then the branch fallback. In the fallback the category is computed from the fallback name.
- The short name is at most 43 characters.
- The category is a label.

`UpdateTitle.GenerateTitle` states that:

- Errors come in the script's order: no remote URL, an unrecognized remote, no project number in the repository name, then no branch.
- When the remote, the project number and the branch are all there, the result is a title starting with the project number and a space.
- In a Codespace, the result ends with ` (CS)`.

## Left out

- **Process I/O.** The `subprocess.run` calls to `git` and `gh` (lines 24-30, 60-67, 129-141 and 146-157) are parameters of the model, not commands it runs. Their outcomes are modelled as follows:
  - A non-zero exit code is folded into `None`. For `git` that gives the errors `RemoteUnavailable` and `BranchUnavailable`, and for `gh` the lookup stage is skipped.
  - The two `git` inputs stand for the output after its `strip()` (lines 32 and 67). The `strip()` itself is not modelled. The `gh` inputs are the parsed JSON fields, which the script does not strip.
  - `json.loads` is not modelled. The parsed answer is the input.
- **Malformed `gh` output.** Output that makes `json.loads` or `.get` raise is silently ignored by the script's `except Exception`. The model covers only the well-formed answers:
  - a list entry with a number and a title;
  - a view with a title;
  - no answer.
  - It also leaves out a `number` field that is not a string: the script passes it through `str()`, and the model takes that string as given.
- **`is_codespace`** (line 177) reads the environment variable `CODESPACE_NAME`. It becomes the boolean parameter `inCodespace`.
- **`main`** (lines 209-219) writes `.title`, prints, and re-raises. That is file and console I/O.
- **Unicode.** `lower()`, `title()` and `\d` are modelled on ASCII only. Python's versions also act on non-ASCII letters and digits, and `title()` can change the length of non-ASCII text.
- **The `$` anchor of `/(\d+)$`.** In Python `$` also matches before a final newline. The branch name has already been stripped, so that case cannot arise, and it is not modelled.
- **UpdateTitle.GenerateTitle:** the contract does not spell out the whole title. The full title is `FormatTitle` applied to the `GetPrInfo` result, and `UpdateTitleExamples.ExampleTitle` shows it for one input. The properties of the parts are proved on `FormatTitle` and `GetPrInfo`.
- **`backend/api/views.py` and `frontend/app/layout.tsx`** are not part of this model. They are a constant health-check response and page layout, with no logic of this script.
