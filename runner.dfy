/** The milestone assignment of `src/runner.ts`: pick the first active
    milestone whose title matches the configured name or glob, and set it on
    the pull request of the triggering event. */
module Runner {
  import opened Js
  import opened GitHub

  /** The action's inputs, as `core.getInput` and `core.getBooleanInput`
      return them. */
  datatype Inputs = Inputs(
    repoToken: string,
    useExpression: bool,
    allowInactive: bool,
    teams: string,
    milestone: string)

  const NOT_IN_PR_MESSAGE := "Action was not run in a PR."

  /** The error thrown when no milestone qualifies; it quotes the name. */
  function NotFoundMessage(milestoneName: string): (message: string)
    ensures |message| == 25 + |milestoneName| + 16
    ensures message[..25] == "Milestone with the name \""
    ensures message[25..25 + |milestoneName|] == milestoneName
    ensures message[25 + |milestoneName|..] == "\" was not found."
  {
    "Milestone with the name \"" + milestoneName + "\" was not found."
  }

  // ---------------------------------------------------------------------------
  // Milestone selection
  // ---------------------------------------------------------------------------

  /** A milestone is active when it has no due date or is due at or after
      `now`. */
  predicate IsActive(m: Milestone, now: int)
  {
    m.dueOn.None? || m.dueOn.value >= now
  }

  function ActiveAt(now: int): Milestone -> bool
  {
    m => IsActive(m, now)
  }

  /** The title test: `minimatch(title, name, { nocase: true })` in glob mode,
      case-sensitive equality otherwise. */
  predicate TitleMatches(m: Milestone, milestoneName: string, useGlob: bool,
                         minimatch: (string, string) -> bool)
  {
    if useGlob then minimatch(m.title, milestoneName) else m.title == milestoneName
  }

  function Matching(milestoneName: string, useGlob: bool,
                    minimatch: (string, string) -> bool): Milestone -> bool
  {
    m => TitleMatches(m, milestoneName, useGlob, minimatch)
  }

  /** A milestone the selection may return. */
  predicate Qualifies(m: Milestone, milestoneName: string, useGlob: bool,
                      minimatch: (string, string) -> bool, now: int)
  {
    IsActive(m, now) && TitleMatches(m, milestoneName, useGlob, minimatch)
  }

  /** Position `i` holds the first qualifying milestone of the list. */
  predicate IsFirstQualifying(milestones: seq<Milestone>, i: int, milestoneName: string,
                              useGlob: bool, minimatch: (string, string) -> bool, now: int)
  {
    0 <= i < |milestones| &&
    Qualifies(milestones[i], milestoneName, useGlob, minimatch, now) &&
    forall j :: 0 <= j < i ==> !Qualifies(milestones[j], milestoneName, useGlob, minimatch, now)
  }

  /** `getMilestoneNumber` on the listed milestones: drop the inactive ones,
      take the first whose title matches, and throw when there is none. */
  function GetMilestoneNumber(milestones: seq<Milestone>, milestoneName: string, useGlob: bool,
                              minimatch: (string, string) -> bool, now: int): (r: Result<int>)
    ensures r.Err? <==>
            forall i :: 0 <= i < |milestones| ==>
              !Qualifies(milestones[i], milestoneName, useGlob, minimatch, now)
    ensures r.Err? ==> r.error == NotFoundMessage(milestoneName)
    ensures r.Ok? ==>
            exists m :: m in milestones && m.number == r.value &&
                        Qualifies(m, milestoneName, useGlob, minimatch, now)
  {
    var active := Filter(milestones, ActiveAt(now));
    match Find(active, Matching(milestoneName, useGlob, minimatch))
    case Some(m) => Ok(m.number)
    case None =>
      assert forall i :: 0 <= i < |milestones| && IsActive(milestones[i], now) ==>
        milestones[i] in active;
      Err(NotFoundMessage(milestoneName))
  }

  /** The selection returns the number of the first qualifying milestone. */
  lemma SelectsFirstQualifying(milestones: seq<Milestone>, i: int, milestoneName: string,
                               useGlob: bool, minimatch: (string, string) -> bool, now: int)
    requires IsFirstQualifying(milestones, i, milestoneName, useGlob, minimatch, now)
    ensures GetMilestoneNumber(milestones, milestoneName, useGlob, minimatch, now)
            == Ok(milestones[i].number)
  {
    var both := And(ActiveAt(now), Matching(milestoneName, useGlob, minimatch));
    FindAfterFilter(milestones, ActiveAt(now), Matching(milestoneName, useGlob, minimatch));
    FindIsFirst(milestones, both, i);
  }

  /** Conversely, a returned number belongs to the first qualifying
      milestone: no earlier milestone is both active and matching. */
  lemma SelectedIsFirstQualifying(milestones: seq<Milestone>, milestoneName: string,
                                  useGlob: bool, minimatch: (string, string) -> bool, now: int)
    returns (i: int)
    requires GetMilestoneNumber(milestones, milestoneName, useGlob, minimatch, now).Ok?
    ensures IsFirstQualifying(milestones, i, milestoneName, useGlob, minimatch, now)
    ensures GetMilestoneNumber(milestones, milestoneName, useGlob, minimatch, now)
            == Ok(milestones[i].number)
  {
    var both := And(ActiveAt(now), Matching(milestoneName, useGlob, minimatch));
    FindAfterFilter(milestones, ActiveAt(now), Matching(milestoneName, useGlob, minimatch));
    i := FindPosition(milestones, both);
  }

  /** In exact mode, the returned number belongs to an active milestone
      whose title is the name, character for character. */
  lemma ExactSelectionMatchesTitle(milestones: seq<Milestone>, milestoneName: string,
                                   minimatch: (string, string) -> bool, now: int)
    requires GetMilestoneNumber(milestones, milestoneName, false, minimatch, now).Ok?
    ensures exists i :: 0 <= i < |milestones| &&
              milestones[i].title == milestoneName && IsActive(milestones[i], now) &&
              milestones[i].number ==
                GetMilestoneNumber(milestones, milestoneName, false, minimatch, now).value
  {
  }

  /** A milestone whose due date has passed is never the one selected, even
      when its title matches: it is skipped in favour of a later one, or the
      selection fails. */
  lemma PastDueNeverSelected(milestones: seq<Milestone>, k: int, milestoneName: string,
                             useGlob: bool, minimatch: (string, string) -> bool, now: int)
    requires 0 <= k < |milestones| && milestones[k].dueOn.Some? && milestones[k].dueOn.value < now
    requires GetMilestoneNumber(milestones, milestoneName, useGlob, minimatch, now).Ok?
    ensures exists i :: IsFirstQualifying(milestones, i, milestoneName, useGlob, minimatch, now) && i != k
  {
    var i := SelectedIsFirstQualifying(milestones, milestoneName, useGlob, minimatch, now);
    assert i != k;
  }

  // ---------------------------------------------------------------------------
  // The `teams` input
  // ---------------------------------------------------------------------------

  /** `getInput('teams').split(',').map(t => t.trim())`: one trimmed entry
      per comma-separated piece, so there is always at least one entry (the
      empty input gives one empty entry). */
  function ParseTeams(input: string): (teams: seq<string>)
    ensures |teams| >= 1
    ensures |teams| == |Split(input, ',')|
    ensures forall i :: 0 <= i < |teams| ==> teams[i] == Trim(Split(input, ',')[i])
    ensures forall i :: 0 <= i < |teams| ==> IsTrimmed(teams[i]) && ',' !in teams[i]
  {
    var pieces := Split(input, ',');
    seq(|pieces|, i requires 0 <= i < |pieces| => Trim(pieces[i]))
  }

  /** The empty input yields the single entry "". */
  lemma ParseTeamsOfEmptyInput()
    ensures ParseTeams("") == [""]
  {
  }

  /** Parsing a comma-joined list of trimmed names gives the names back. */
  lemma {:induction false} ParseTeamsOfJoined(names: seq<string>)
    requires |names| >= 1
    requires forall i :: 0 <= i < |names| ==> IsTrimmed(names[i]) && ',' !in names[i]
    ensures ParseTeams(Join(names, ',')) == names
  {
    SplitJoin(names, ',');
    forall i | 0 <= i < |names|
      ensures Trim(names[i]) == names[i]
    {
      TrimStripsPadding("", names[i], "");
      assert "" + names[i] + "" == names[i];
    }
  }

  /** Whitespace written around a comma-separated name is dropped: the
      entry is the name itself. */
  lemma ParseTeamsDropsPadding(input: string, i: int, before: string, name: string, after: string)
    requires 0 <= i < |Split(input, ',')|
    requires Split(input, ',')[i] == before + name + after
    requires forall k :: 0 <= k < |before| ==> IsWhitespace(before[k])
    requires forall k :: 0 <= k < |after| ==> IsWhitespace(after[k])
    requires IsTrimmed(name)
    ensures ParseTeams(input)[i] == name
  {
    TrimStripsPadding(before, name, after);
  }

  /** `const [org, team_slug] = team.split('/')`: the slug is `undefined`
      when the entry has no slash, and anything after a second slash is
      dropped. */
  function TeamLookup(team: string): (r: Request)
    ensures r.ListMembersInOrg?
    ensures r.teamSlug.None? <==> '/' !in team
    ensures '/' !in team ==> r.org == team
    ensures r.teamSlug.Some? ==> '/' !in r.org && '/' !in r.teamSlug.value
  {
    var parts := Split(team, '/');
    SplitWithoutSeparator(team, '/');
    ListMembersInOrg(parts[0], if |parts| > 1 then Some(parts[1]) else None)
  }

  /** An entry made of two or more slash-free pieces joined by slashes is
      looked up with the first piece as org and the second as slug; the
      rest is dropped. */
  lemma TeamLookupOfJoined(parts: seq<string>)
    requires |parts| >= 2
    requires forall i :: 0 <= i < |parts| ==> '/' !in parts[i]
    ensures TeamLookup(Join(parts, '/')) == ListMembersInOrg(parts[0], Some(parts[1]))
  {
    SplitJoin(parts, '/');
  }

  function TeamLookups(teams: seq<string>): (r: seq<Request>)
    ensures |r| == |teams|
    ensures forall i :: 0 <= i < |r| ==> r[i] == TeamLookup(teams[i])
  {
    seq(|teams|, i requires 0 <= i < |teams| => TeamLookup(teams[i]))
  }

  // ---------------------------------------------------------------------------
  // assignMilestone
  // ---------------------------------------------------------------------------

  datatype Outcome = Completed | Threw(message: string)

  /** What one run of `assignMilestone` sends and how it ends. */
  datatype Trace = Trace(requests: seq<Request>, outcome: Outcome)

  /** `getMilestoneNumber` followed by `updateIssueWithMilestone`, as a
      value: list the milestones, select one, update the pull request with
      it. */
  function SelectionTrace(milestoneName: string, useGlob: bool, prNumber: int, remote: Remote,
                          minimatch: (string, string) -> bool, now: int): (t: Trace)
    ensures |t.requests| >= 1 && t.requests[0] == ListMilestones
  {
    if ListMilestones in remote.rejects then
      Trace([ListMilestones], Threw(remote.rejects[ListMilestones]))
    else
      match GetMilestoneNumber(remote.milestones, milestoneName, useGlob, minimatch, now)
      case Err(message) => Trace([ListMilestones], Threw(message))
      case Ok(milestoneNumber) =>
        var update := UpdateIssue(prNumber, milestoneNumber);
        Trace([ListMilestones, update],
              if update in remote.rejects then Threw(remote.rejects[update]) else Completed)
  }

  /** The run of `assignMilestone` against `remote`, as a value: reject a
      payload without a pull request before any request; send one member
      lookup per team entry and wait for all of them; then select and
      assign the milestone. Any rejection or thrown error ends the run with
      that error. `allowInactive` is read but never used. */
  function AssignMilestoneTrace(inputs: Inputs, payload: Payload, remote: Remote,
                                minimatch: (string, string) -> bool, now: int): (t: Trace)
    ensures t.requests == [] <==> payload.pullRequest.None?
    ensures t.outcome == Completed ==> payload.pullRequest.Some? && t.requests[|t.requests| - 1].UpdateIssue?
  {
    match payload.pullRequest
    case None => Trace([], Threw(NOT_IN_PR_MESSAGE))
    case Some(pr) =>
      var lookups := TeamLookups(ParseTeams(inputs.teams));
      match FirstRejection(lookups, remote)
      case Some(reason) => Trace(lookups, Threw(reason))
      case None =>
        var rest := SelectionTrace(inputs.milestone, inputs.useExpression, pr.number, remote,
                                   minimatch, now);
        Trace(lookups + rest.requests, rest.outcome)
  }

  /** `teams.map(...)` followed by `await Promise.all(promises)`: every
      lookup is sent before any is awaited; the first rejected one in list
      order gives the error. */
  method LookUpTeams(client: Client, teams: seq<string>) returns (failure: Option<string>)
    modifies client
    ensures client.requests == old(client.requests) + TeamLookups(teams)
    ensures failure == FirstRejection(TeamLookups(teams), client.remote)
  {
    ghost var lookups := TeamLookups(teams);
    failure := None;
    var i := 0;
    while i < |teams|
      invariant 0 <= i <= |teams|
      invariant client.requests == old(client.requests) + lookups[..i]
      invariant failure == FirstRejection(lookups[..i], client.remote)
    {
      var lookup := TeamLookup(teams[i]);
      var response := client.ListMembersInOrg(lookup.org, lookup.teamSlug);
      FirstRejectionAppend(lookups[..i], lookup, client.remote);
      assert lookups[..i + 1] == lookups[..i] + [lookup];
      if failure.None? && response.Rejected? {
        failure := Some(response.reason);
      }
      i := i + 1;
    }
    assert lookups[..i] == lookups;
  }

  /** `getMilestoneNumber`: list the milestones, then select one. */
  method FetchMilestoneNumber(client: Client, milestoneName: string, useGlobExpression: bool,
                              minimatch: (string, string) -> bool, now: int)
    returns (r: Result<int>)
    modifies client
    ensures client.requests == old(client.requests) + [ListMilestones]
    ensures r == if ListMilestones in client.remote.rejects
                 then Err(client.remote.rejects[ListMilestones])
                 else GetMilestoneNumber(client.remote.milestones, milestoneName, useGlobExpression,
                                         minimatch, now)
  {
    var listing, milestones := client.ListMilestones();
    if listing.Rejected? {
      return Err(listing.reason);
    }
    r := GetMilestoneNumber(milestones, milestoneName, useGlobExpression, minimatch, now);
  }

  /** `updateIssueWithMilestone`: one update request. */
  method UpdateIssueWithMilestone(client: Client, prNumber: int, milestoneNumber: int)
    returns (response: Response)
    modifies client
    ensures client.requests == old(client.requests) + [UpdateIssue(prNumber, milestoneNumber)]
    ensures response == Respond(client.remote, UpdateIssue(prNumber, milestoneNumber))
  {
    response := client.UpdateIssue(prNumber, milestoneNumber);
  }

  /** Once every lookup went through, the run continues as selection and
      assignment. */
  lemma AssignMilestoneTraceAfterLookups(inputs: Inputs, payload: Payload, remote: Remote,
                                         minimatch: (string, string) -> bool, now: int)
    requires payload.pullRequest.Some?
    requires FirstRejection(TeamLookups(ParseTeams(inputs.teams)), remote).None?
    ensures var rest := SelectionTrace(inputs.milestone, inputs.useExpression,
                                       payload.pullRequest.value.number, remote, minimatch, now);
            AssignMilestoneTrace(inputs, payload, remote, minimatch, now)
            == Trace(TeamLookups(ParseTeams(inputs.teams)) + rest.requests, rest.outcome)
  {
  }

  /** A rejected lookup ends the run with its error, after the lookups. */
  lemma AssignMilestoneTraceAtLookupFailure(inputs: Inputs, payload: Payload, remote: Remote,
                                            minimatch: (string, string) -> bool, now: int)
    requires payload.pullRequest.Some?
    requires FirstRejection(TeamLookups(ParseTeams(inputs.teams)), remote).Some?
    ensures AssignMilestoneTrace(inputs, payload, remote, minimatch, now)
            == Trace(TeamLookups(ParseTeams(inputs.teams)),
                     Threw(FirstRejection(TeamLookups(ParseTeams(inputs.teams)), remote).value))
  {
  }

  /** The last two steps of `assignMilestone`: get the milestone number,
      then update the pull request with it. */
  method AssignSelected(client: Client, milestoneName: string, useGlobExpression: bool,
                        prNumber: int, minimatch: (string, string) -> bool, now: int)
    returns (outcome: Outcome)
    modifies client
    ensures client.requests == old(client.requests) +
            SelectionTrace(milestoneName, useGlobExpression, prNumber, client.remote, minimatch, now).requests
    ensures outcome ==
            SelectionTrace(milestoneName, useGlobExpression, prNumber, client.remote, minimatch, now).outcome
  {
    var selection := FetchMilestoneNumber(client, milestoneName, useGlobExpression, minimatch, now);
    if selection.Err? {
      return Threw(selection.error);
    }
    var update := UpdateIssueWithMilestone(client, prNumber, selection.value);
    if update.Rejected? {
      return Threw(update.reason);
    }
    return Completed;
  }

  /** `assignMilestone`, step by step against the client. */
  method AssignMilestone(inputs: Inputs, payload: Payload, client: Client,
                         minimatch: (string, string) -> bool, now: int)
    returns (outcome: Outcome)
    modifies client
    ensures client.requests ==
            old(client.requests) + AssignMilestoneTrace(inputs, payload, client.remote, minimatch, now).requests
    ensures outcome == AssignMilestoneTrace(inputs, payload, client.remote, minimatch, now).outcome
  {
    var useGlobExpression := inputs.useExpression;
    var teams := ParseTeams(inputs.teams);
    var milestoneName := inputs.milestone;

    if payload.pullRequest.None? {
      MissingPrSendsNothing(inputs, payload, client.remote, minimatch, now);
      return Threw(NOT_IN_PR_MESSAGE);
    }
    var prNumber := payload.pullRequest.value.number;

    if |teams| > 0 {
      var failure := LookUpTeams(client, teams);
      if failure.Some? {
        AssignMilestoneTraceAtLookupFailure(inputs, payload, client.remote, minimatch, now);
        return Threw(failure.value);
      }
    }
    ghost var afterLookups := client.requests;
    AssignMilestoneTraceAfterLookups(inputs, payload, client.remote, minimatch, now);
    ghost var rest := SelectionTrace(milestoneName, useGlobExpression, prNumber, client.remote,
                                     minimatch, now);
    outcome := AssignSelected(client, milestoneName, useGlobExpression, prNumber, minimatch, now);
    assert client.requests == afterLookups + rest.requests;
  }

  // ---------------------------------------------------------------------------
  // Properties of a run
  // ---------------------------------------------------------------------------

  /** Without a pull request in the payload the run throws before sending
      anything. */
  lemma MissingPrSendsNothing(inputs: Inputs, payload: Payload, remote: Remote,
                              minimatch: (string, string) -> bool, now: int)
    requires payload.pullRequest.None?
    ensures AssignMilestoneTrace(inputs, payload, remote, minimatch, now)
            == Trace([], Threw("Action was not run in a PR."))
  {
  }

  /** With a pull request, the team branch is always taken: the first
      request sent is a member lookup. */
  lemma TeamLookupComesFirst(inputs: Inputs, payload: Payload, remote: Remote,
                             minimatch: (string, string) -> bool, now: int)
    requires payload.pullRequest.Some?
    ensures var t := AssignMilestoneTrace(inputs, payload, remote, minimatch, now);
            |t.requests| >= 1 && t.requests[0].ListMembersInOrg?
  {
  }

  /** The update requests among the lookups: none. */
  lemma LookupsAreNotUpdates(teams: seq<string>)
    ensures Updates(TeamLookups(teams)) == []
  {
    FilterNone(TeamLookups(teams), IsUpdate);
  }

  /** Selecting and assigning sends at most one update, as its last
      request, for the given pull request and the selected milestone. */
  lemma SelectionTraceUpdates(milestoneName: string, useGlob: bool, prNumber: int, remote: Remote,
                              minimatch: (string, string) -> bool, now: int)
    ensures var t := SelectionTrace(milestoneName, useGlob, prNumber, remote, minimatch, now);
            var selection := GetMilestoneNumber(remote.milestones, milestoneName, useGlob, minimatch, now);
            if ListMilestones !in remote.rejects && selection.Ok?
            then t.requests == [ListMilestones, UpdateIssue(prNumber, selection.value)] &&
                 Updates(t.requests) == [UpdateIssue(prNumber, selection.value)]
            else t.requests == [ListMilestones] && Updates(t.requests) == []
  {
    var t := SelectionTrace(milestoneName, useGlob, prNumber, remote, minimatch, now);
    assert Updates([ListMilestones]) == [];
    if |t.requests| == 2 {
      FilterConcat([ListMilestones], [t.requests[1]], IsUpdate);
      assert [ListMilestones] + [t.requests[1]] == t.requests;
    }
  }

  /** Requests sent after update-free lookups keep their updates, and the
      last of them stays last. */
  lemma UpdatesAfterLookups(lookups: seq<Request>, rest: seq<Request>)
    requires Updates(lookups) == []
    ensures Updates(lookups + rest) == Updates(rest)
    ensures |rest| > 0 ==> (lookups + rest)[|lookups + rest| - 1] == rest[|rest| - 1]
  {
    FilterConcat(lookups, rest, IsUpdate);
  }

  /** Once every lookup went through, the listing succeeded and a milestone
      was selected, the run sends exactly one update: for the payload's pull
      request and the selected milestone. */
  lemma ExactlyOneUpdate(inputs: Inputs, payload: Payload, remote: Remote,
                         minimatch: (string, string) -> bool, now: int)
    requires payload.pullRequest.Some?
    requires FirstRejection(TeamLookups(ParseTeams(inputs.teams)), remote).None?
    requires ListMilestones !in remote.rejects
    requires GetMilestoneNumber(remote.milestones, inputs.milestone, inputs.useExpression,
                                minimatch, now).Ok?
    ensures Updates(AssignMilestoneTrace(inputs, payload, remote, minimatch, now).requests)
            == [UpdateIssue(payload.pullRequest.value.number,
                            GetMilestoneNumber(remote.milestones, inputs.milestone,
                                               inputs.useExpression, minimatch, now).value)]
  {
    var prNumber := payload.pullRequest.value.number;
    var lookups := TeamLookups(ParseTeams(inputs.teams));
    var rest := SelectionTrace(inputs.milestone, inputs.useExpression, prNumber, remote,
                               minimatch, now);
    AssignMilestoneTraceAfterLookups(inputs, payload, remote, minimatch, now);
    SelectionTraceUpdates(inputs.milestone, inputs.useExpression, prNumber, remote,
                          minimatch, now);
    LookupsAreNotUpdates(ParseTeams(inputs.teams));
    UpdatesAfterLookups(lookups, rest.requests);
  }

  /** A run sends at most one update, as its very last request, and only
      for the pull request of the payload and the selected milestone. */
  lemma AtMostOneUpdate(inputs: Inputs, payload: Payload, remote: Remote,
                        minimatch: (string, string) -> bool, now: int)
    ensures var t := AssignMilestoneTrace(inputs, payload, remote, minimatch, now);
            var selection := GetMilestoneNumber(remote.milestones, inputs.milestone,
                                                inputs.useExpression, minimatch, now);
            Updates(t.requests) == [] ||
            (payload.pullRequest.Some? && selection.Ok? &&
             Updates(t.requests) == [UpdateIssue(payload.pullRequest.value.number, selection.value)] &&
             t.requests[|t.requests| - 1] == UpdateIssue(payload.pullRequest.value.number, selection.value))
  {
    var t := AssignMilestoneTrace(inputs, payload, remote, minimatch, now);
    if payload.pullRequest.None? {
      assert t.requests == [];
      assert Updates([]) == [];
    } else {
      var prNumber := payload.pullRequest.value.number;
      var lookups := TeamLookups(ParseTeams(inputs.teams));
      LookupsAreNotUpdates(ParseTeams(inputs.teams));
      if FirstRejection(lookups, remote).Some? {
        assert t.requests == lookups;
      } else {
        var rest := SelectionTrace(inputs.milestone, inputs.useExpression, prNumber, remote,
                                   minimatch, now);
        AssignMilestoneTraceAfterLookups(inputs, payload, remote, minimatch, now);
        assert t.requests == lookups + rest.requests;
        SelectionTraceUpdates(inputs.milestone, inputs.useExpression, prNumber, remote,
                              minimatch, now);
        UpdatesAfterLookups(lookups, rest.requests);
      }
    }
  }

  /** A run completes exactly when it has sent the update for the payload's
      pull request and the selected milestone, and that update went
      through. */
  lemma CompletedIffUpdated(inputs: Inputs, payload: Payload, remote: Remote,
                            minimatch: (string, string) -> bool, now: int)
    ensures var t := AssignMilestoneTrace(inputs, payload, remote, minimatch, now);
            var selection := GetMilestoneNumber(remote.milestones, inputs.milestone,
                                                inputs.useExpression, minimatch, now);
            t.outcome == Completed <==>
            (payload.pullRequest.Some? && selection.Ok? &&
             Updates(t.requests) == [UpdateIssue(payload.pullRequest.value.number, selection.value)] &&
             UpdateIssue(payload.pullRequest.value.number, selection.value) !in remote.rejects)
  {
    var t := AssignMilestoneTrace(inputs, payload, remote, minimatch, now);
    if payload.pullRequest.None? {
      assert t.requests == [];
      assert Updates([]) == [];
    } else {
      var prNumber := payload.pullRequest.value.number;
      var lookups := TeamLookups(ParseTeams(inputs.teams));
      LookupsAreNotUpdates(ParseTeams(inputs.teams));
      if FirstRejection(lookups, remote).Some? {
        assert t == Trace(lookups, Threw(FirstRejection(lookups, remote).value));
      } else {
        var rest := SelectionTrace(inputs.milestone, inputs.useExpression, prNumber, remote,
                                   minimatch, now);
        AssignMilestoneTraceAfterLookups(inputs, payload, remote, minimatch, now);
        assert t == Trace(lookups + rest.requests, rest.outcome);
        SelectionTraceUpdates(inputs.milestone, inputs.useExpression, prNumber, remote,
                              minimatch, now);
        UpdatesAfterLookups(lookups, rest.requests);
      }
    }
  }

  /** The `allow-inactive` input changes nothing. */
  lemma AllowInactiveIgnored(inputs: Inputs, payload: Payload, remote: Remote,
                             minimatch: (string, string) -> bool, now: int)
    ensures AssignMilestoneTrace(inputs, payload, remote, minimatch, now)
            == AssignMilestoneTrace(inputs.(allowInactive := !inputs.allowInactive),
                                    payload, remote, minimatch, now)
  {
  }

  /** A past-due milestone is not assigned even though its title matches
      and `allow-inactive` is set: the run throws the not-found error and
      sends no update. */
  lemma PastDueMilestoneNotAssigned(inputs: Inputs, payload: Payload, m: Milestone,
                                    minimatch: (string, string) -> bool, now: int)
    requires inputs.allowInactive && !inputs.useExpression
    requires payload.pullRequest.Some?
    requires m.title == inputs.milestone && m.dueOn.Some? && m.dueOn.value < now
    ensures var t := AssignMilestoneTrace(inputs, payload, Remote([m], map[]), minimatch, now);
            t.outcome == Threw(NotFoundMessage(m.title)) && Updates(t.requests) == []
  {
    AtMostOneUpdate(inputs, payload, Remote([m], map[]), minimatch, now);
  }

  /** A milestone named by a glob the matcher accepts is assigned, with the
      pull request's number: the case of the pattern "This * milestone" and
      the title "This is a test milestone". */
  lemma GlobMilestoneAssigned(inputs: Inputs, payload: Payload, m: Milestone,
                              minimatch: (string, string) -> bool, now: int)
    requires inputs.useExpression && inputs.milestone == "This * milestone"
    requires m.title == "This is a test milestone" && m.dueOn.None?
    requires minimatch("This is a test milestone", "This * milestone")
    requires payload.pullRequest.Some?
    ensures var t := AssignMilestoneTrace(inputs, payload, Remote([m], map[]), minimatch, now);
            t.outcome == Completed &&
            Updates(t.requests) == [UpdateIssue(payload.pullRequest.value.number, m.number)]
  {
    var remote := Remote([m], map[]);
    SelectsFirstQualifying([m], 0, inputs.milestone, true, minimatch, now);
    CompletedIffUpdated(inputs, payload, remote, minimatch, now);
  }

  /** Milestone "v1.0" with number 42 and no due date, exact mode: the pull
      request is updated with milestone 42. */
  lemma ExactMilestoneAssigned(inputs: Inputs, prNumber: int,
                               minimatch: (string, string) -> bool, now: int)
    requires !inputs.useExpression && inputs.milestone == "v1.0"
    ensures var t := AssignMilestoneTrace(inputs, Payload(Some(PullRequest(prNumber))),
                                          Remote([Milestone("v1.0", 42, None)], map[]), minimatch, now);
            t.outcome == Completed && Updates(t.requests) == [UpdateIssue(prNumber, 42)]
  {
    var payload := Payload(Some(PullRequest(prNumber)));
    var remote := Remote([Milestone("v1.0", 42, None)], map[]);
    SelectsFirstQualifying(remote.milestones, 0, "v1.0", false, minimatch, now);
    CompletedIffUpdated(inputs, payload, remote, minimatch, now);
  }
}
