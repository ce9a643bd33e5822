# add-to-milestone, modelled in Dafny

A GitHub Action that puts a pull request into a milestone. On a pull-request
event, `assignMilestone` in `src/runner.ts` does the following:

- it reads its inputs;
- it refuses to run without a pull request in the payload;
- it sends one team-member lookup per entry of the `teams` input;
- it lists the repository's milestones;
- it takes the first one that is active and whose title matches the
  `milestone` input, compared exactly or as a case-insensitive glob;
- it updates the pull request with that milestone.

A milestone is active when it has no due date or is due at or after the
current time. `src/main.ts` is an older flow of the same action. It checks
for a pull request, takes the first milestone whose title is exactly the
name, with no due-date filter, and updates the pull request. Any error ends
in `core.setFailed`.

The remote side is a constant of the client, so no request changes the
milestone list the scripts read.

The project has five modules:

- `Js` (`js.dfy`): the JavaScript built-ins the scripts rely on: `find`,
  `filter`, `split` and `trim`. `Join`, which the scripts never call, is a
  helper in which the round trips of `Split` are stated, and `Trim` is characterised as "remove the whitespace around a
  trimmed core".
- `GitHub` (`github.dfy`): milestones, the payload, the requests, and the
  remote side as a value (`Remote`: the milestone list it serves and the
  requests it rejects, each with an error message). `Client` is an octokit
  client whose `requests` field logs every request it sends.
- `Runner` (`runner.dfy`): `src/runner.ts`. The milestone selection is a pure
  function. `assignMilestone` is a method over the client, proved equal to a
  trace function (`AssignMilestoneTrace`: the requests sent and how the run
  ends). The properties are lemmas about that trace.
- `MainScript` (`main_script.dfy`): `src/main.ts`, in the same style
  (`RunReport` is the specification of `Run`).
- `Comparison` (`comparison.dfy`): the two selection rules side by side.

Parameters stand in for what the scripts get from outside:

- the current time is `now: int`;
- a due date is an integer timestamp;
- the Minimatch call is a parameter `minimatch: (title, pattern) -> bool`.

### What the code does, and where its test file expects otherwise (the model follows the code)

- There is no due-date override. `allow-inactive` is read and never used
  (runner.ts:55), and due dates are compared as full timestamps
  (runner.ts:19). The test file agrees: with `allow-inactive` set, a
  past-due milestone is still not found (runner.test.ts:228-268).
  `AllowInactiveIgnored` and `PastDueMilestoneNotAssigned` state this.
- The test file expects a rejection for events other than pull requests
  (runner.test.ts:158-166) and an allow-list of authors read from a file
  (runner.test.ts:271-366). The code has neither. It has a team lookup
  whose result is discarded (runner.ts:72-85).
- For a payload without a pull request, the test file expects 'Could not
  get PR number from the payload.' (runner.test.ts:174). The code throws
  'Action was not run in a PR.' in runner.ts:66 and the bare string
  'Action not run with a PR.' in main.ts:11.
- `split(',')` never returns an empty list, so the `teams.length > 0` guard
  (runner.ts:72) always holds. With the default empty input, one lookup for
  org "" and no slug is sent. `ParseTeamsOfEmptyInput` and
  `TeamLookupComesFirst` state this.

## Model

| member | source | states |
|---|---|---|
| `Js.Find` | src/runner.ts:20-24 | `find` returns nothing exactly when no element passes the test; otherwise it returns an element of the list that passes |
| `Js.Filter` | src/runner.ts:18-19 | `filter` keeps only elements that pass the test, keeps every element that passes, and never lengthens the list; `FindAfterFilter` fixes the order |
| `Js.FindAfterFilter` | src/runner.ts:18-24 | `filter` keeps order: finding in the filtered list is finding the first element that passes both the filter and the find test |
| `Js.Split` | src/runner.ts:58 | `split` always yields at least one piece, and no piece holds the separator |
| `Js.JoinSplit` | src/runner.ts:58 | joining the pieces of a split with the separator gives the input back |
| `Js.SplitJoin` | src/runner.ts:58 | splitting a join of separator-free pieces gives the pieces back |
| `Js.SplitWithoutSeparator` | src/runner.ts:77 | a string splits into one piece exactly when it holds no separator, and that piece is the whole string |
| `Js.Trim` | src/runner.ts:59 | the trimmed string starts and ends with no whitespace and is no longer than the input |
| `Js.TrimStripsPadding` | src/runner.ts:59 | `trim` removes exactly the whitespace around a trimmed core |
| `Js.TrimIdempotent` | src/runner.ts:59 | trimming twice is trimming once |
| `GitHub.FirstRejection` | src/runner.ts:83 | `Promise.all` over the lookups fails exactly when some lookup is rejected, and then with the rejection message of one of the lookups sent |
| `GitHub.Client.constructor` | src/runner.ts:70 | a new client has sent no request |
| `GitHub.Client.ListMilestones` | src/runner.ts:12-15 | logs one listing request; returns the remote's list unless the listing is rejected |
| `GitHub.Client.ListMembersInOrg` | src/runner.ts:79 | logs one lookup request for org and slug and returns the remote's answer |
| `GitHub.Client.UpdateIssue` | src/runner.ts:43-48 | logs one update request with the issue number and the milestone number, and returns the remote's answer |
| `Runner.IsActive` | src/runner.ts:19 | a milestone is active when it has no due date or is due at or after `now`; a definition, pinned by `PastDueNeverSelected` and `GetMilestoneNumber` |
| `Runner.TitleMatches` | src/runner.ts:20-23 | the glob test through `minimatch` in glob mode, case-sensitive equality otherwise; a definition, pinned by `ExactSelectionMatchesTitle` and `GetMilestoneNumber` |
| `Runner.NotFoundMessage` | src/runner.ts:29 | the not-found message quotes the milestone name between fixed text |
| `Runner.GetMilestoneNumber` | src/runner.ts:18-30 | the not-found error, with that message, is thrown exactly when no milestone is both active and matching; a returned number is the number of an active, matching milestone of the list |
| `Runner.SelectsFirstQualifying` | src/runner.ts:18-24 | the first milestone that is active and matching is the one whose number is returned |
| `Runner.SelectedIsFirstQualifying` | src/runner.ts:18-24 | a returned number comes from a milestone with no active, matching milestone before it |
| `Runner.ExactSelectionMatchesTitle` | src/runner.ts:20-23 | in exact mode the returned number belongs to an active milestone whose title equals the name, case-sensitively |
| `Runner.PastDueNeverSelected` | src/runner.ts:19 | a milestone due before `now` is never the selected one, whatever its title |
| `Runner.ParseTeams` | src/runner.ts:56-59 | the parsed team list is never empty, and entry i is comma-separated piece i with `trim` applied, so every entry is trimmed and comma-free |
| `Runner.ParseTeamsOfEmptyInput` | src/runner.ts:56-59 | the empty input parses to the single entry "" |
| `Runner.ParseTeamsDropsPadding` | src/runner.ts:59 | a piece made of whitespace, a trimmed name and whitespace parses to exactly that name |
| `Runner.ParseTeamsOfJoined` | src/runner.ts:56-59 | parsing a comma-joined list of trimmed, comma-free names gives the names back |
| `Runner.TeamLookup` | src/runner.ts:77-79 | the request is a member lookup; the slug is absent exactly when the entry has no slash, and then the org is the whole entry; otherwise org and slug are slash-free pieces |
| `Runner.TeamLookupOfJoined` | src/runner.ts:77-79 | an entry of two or more slash-free pieces joined by slashes is looked up with the first piece as org and the second as slug; later pieces are dropped |
| `Runner.TeamLookups` | src/runner.ts:76-80 | one lookup per team entry, in order |
| `Runner.LookUpTeams` | src/runner.ts:76-83 | sends every lookup in order before any is awaited, and fails with the first rejection in list order |
| `Runner.FetchMilestoneNumber` | src/runner.ts:7-34 | sends one listing request; fails with the listing's rejection, or else returns the selection over the listed milestones |
| `Runner.UpdateIssueWithMilestone` | src/runner.ts:36-49 | sends exactly one update with the pull request number and the milestone number |
| `Runner.SelectionTrace` | src/runner.ts:88-92 | selection and assignment always send the listing first; `SelectionTraceUpdates` gives the rest of what they send |
| `Runner.AssignSelected` | src/runner.ts:88-92 | getting the milestone number and updating the pull request sends the requests, and ends as, `SelectionTrace` says |
| `Runner.AssignMilestoneTrace` | src/runner.ts:51-93 | a run sends nothing exactly when the payload has no pull request, and a run that completes has a pull request and ends with an update |
| `Runner.AssignMilestone` | src/runner.ts:51-93 | the requests sent and the outcome are those of `AssignMilestoneTrace` for the client's remote |
| `Runner.MissingPrSendsNothing` | src/runner.ts:63-67 | without a pull request the run throws 'Action was not run in a PR.' and sends no request at all |
| `Runner.TeamLookupComesFirst` | src/runner.ts:72-85 | with a pull request, the team branch is always taken, so the first request sent is a member lookup |
| `Runner.SelectionTraceUpdates` | src/runner.ts:89-92 | selection and assignment send the listing, followed by exactly one update for the selected milestone when the listing and the selection succeed, and no update otherwise |
| `Runner.ExactlyOneUpdate` | src/runner.ts:83-92 | when every lookup went through, the listing succeeded and a milestone was selected, the run sends exactly one update, for the payload's pull request and the selected milestone |
| `Runner.AtMostOneUpdate` | src/runner.ts:89-92 | a run sends at most one update, as its last request, for the payload's pull request and the selected milestone |
| `Runner.CompletedIffUpdated` | src/runner.ts:89-92 | a run completes exactly when it sent that single update and the update was not rejected |
| `Runner.AllowInactiveIgnored` | src/runner.ts:55 | flipping `allow-inactive` changes neither the requests nor the outcome |
| `Runner.PastDueMilestoneNotAssigned` | src/runner.ts:19 | a past-due milestone with the exact title is reported as not found even with `allow-inactive` set, and no update is sent |
| `Runner.GlobMilestoneAssigned` | src/runner.ts:20-22 | when the matcher accepts "This is a test milestone" for "This * milestone", that milestone is assigned to the pull request |
| `Runner.ExactMilestoneAssigned` | src/runner.ts:51-93 | milestone "v1.0" numbered 42 with no due date: the run completes with one update setting the pull request's milestone to 42 |
| `MainScript.NotFoundMessage` | src/main.ts:29 | the not-found message holds the milestone name, unquoted, between fixed text |
| `MainScript.GetPrNumber` | src/main.ts:6-15 | throws 'Action not run with a PR.' exactly when the payload has no pull request, and otherwise returns its number unchanged |
| `MainScript.GetMilestoneNumber` | src/main.ts:24-30 | the not-found error is thrown exactly when no title equals the name; otherwise the number of a milestone with that title is returned, with no due-date filter |
| `MainScript.SelectsFirstTitled` | src/main.ts:24 | the first milestone with the exact title is the one whose number is returned |
| `MainScript.SelectedIsFirstTitled` | src/main.ts:24 | a returned number comes from the first milestone with that title |
| `MainScript.RunReport` | src/main.ts:50-71 | `run` sends nothing exactly when the payload has no pull request, and a run that succeeds sent the listing and then one update |
| `MainScript.Run` | src/main.ts:50-71 | the requests sent and the result are those of `RunReport` for the client's remote |
| `MainScript.UpdateOnlyAfterBothSucceed` | src/main.ts:57-66 | one update, as the last request and for the two found numbers, is sent exactly when the pull request number and the milestone were both found; otherwise none |
| `MainScript.FailsIffAStepThrew` | src/main.ts:50-71 | `run` ends in `setFailed` exactly when a step threw, and the reason is that step's error: the missing pull request, the rejected listing, the not-found message or the rejected update |
| `MainScript.PastDueMilestoneSelected` | src/main.ts:24 | a past-due milestone with the right title is still assigned |
| `Comparison.MainPicksNoLater` | src/main.ts:24 | whatever the runner selects in exact mode, the older script also finds a title match, at the same position or an earlier one |
| `Comparison.AgreeWhenAllActive` | src/runner.ts:19 | when every milestone is active, the two rules succeed together and return the same number |
| `Comparison.PastDueSelectedOnlyByMain` | src/runner.ts:19 | for a single past-due milestone with the right title, the older script selects it and the runner reports it as not found |

## Left out

- Reading inputs (`core.getInput`, `core.getBooleanInput`) is I/O. `Inputs` holds values already read. A missing required input or a malformed boolean makes `@actions/core` throw, and that is not modelled.
- Logging (`core.debug`, `core.info`, `console.log`) is output only and is not modelled.
- The token, `github.getOctokit` and the owner and repository of each request are not modelled. A request carries only its own parameters.
- Minimatch's glob semantics belong to a foreign library. Glob mode is the `minimatch` parameter, and only the instance the tests use is assumed, in `GlobMilestoneAssigned`.
- Parsing `due_on` with `new Date` and reading the clock (runner.ts:19) are not modelled. The code creates a new `Date` for each milestone, so later milestones are compared against a slightly later clock; the model uses one `now` for the whole list. Due dates and `now` are integers. An unparsable `due_on` would give NaN and drop the milestone; that case is not modelled. A `due_on` that is null or empty is `None`.
- The member lists returned by `teams.listMembersInOrg` are not modelled. So are the unused `belongsToTeam` and `inTeam` (runner.ts:74-84): the code never reads them.
- `GitHub.FirstRejection`: names the first rejected lookup in list order. `Promise.all` rejects with whichever lookup rejects first in time, which depends on timing.
- `MainScript.Run`: records the `setFailed` reason. After `setFailed`, `run` throws `undefined` (main.ts:69), and the top-level `run()` call (main.ts:73) leaves that rejection unhandled. Neither is modelled.
- Errors keep only their message. runner.ts throws `Error` objects and main.ts throws bare strings, and the model does not tell them apart.
- The listing is one request whose reply is taken as the complete list. Pagination is not modelled.
- The test file asserts behaviour the code does not have, and the model follows the code, so these are not modelled:
  - an event-kind check;
  - the message 'Could not get PR number from the payload.';
  - an allow-list of authors read from a file;
  - the "Milestones available" log lines;
  - `main.ts` delegating to `assignMilestone`.
