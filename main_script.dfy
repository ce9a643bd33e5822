/** The older flow of `src/main.ts`: take the pull request number from the
    payload, pick the first milestone whose title is exactly the configured
    name (whatever its due date), and set it on the pull request; any error
    is reported through `core.setFailed`. */
module MainScript {
  import opened Js
  import opened GitHub

  const NO_PR_MESSAGE := "Action not run with a PR."

  /** The string thrown when no title matches; unlike the runner's message,
      the name is not quoted. */
  function NotFoundMessage(milestoneName: string): (message: string)
    ensures |message| == 24 + |milestoneName| + 15
    ensures message[..24] == "Milestone with the name "
    ensures message[24..24 + |milestoneName|] == milestoneName
    ensures message[24 + |milestoneName|..] == " was not found."
  {
    "Milestone with the name " + milestoneName + " was not found."
  }

  /** `getPrNumber`: the payload's pull request number, or a throw when the
      payload carries no pull request. */
  function GetPrNumber(payload: Payload): (r: Result<int>)
    ensures r.Err? <==> payload.pullRequest.None?
    ensures r.Err? ==> r.error == NO_PR_MESSAGE
    ensures r.Ok? ==> r.value == payload.pullRequest.value.number
  {
    match payload.pullRequest
    case None => Err(NO_PR_MESSAGE)
    case Some(pr) => Ok(pr.number)
  }

  function TitleIs(milestoneName: string): Milestone -> bool
  {
    (m: Milestone) => m.title == milestoneName
  }

  /** Position `i` holds the first milestone titled `milestoneName`. */
  predicate IsFirstTitled(milestones: seq<Milestone>, i: int, milestoneName: string)
  {
    0 <= i < |milestones| && milestones[i].title == milestoneName &&
    forall j :: 0 <= j < i ==> milestones[j].title != milestoneName
  }

  /** `getMilestoneNumber` on the listed milestones: the first whose title
      equals the name; there is no due-date filter. */
  function GetMilestoneNumber(milestones: seq<Milestone>, milestoneName: string): (r: Result<int>)
    ensures r.Err? <==> forall i :: 0 <= i < |milestones| ==> milestones[i].title != milestoneName
    ensures r.Err? ==> r.error == NotFoundMessage(milestoneName)
    ensures r.Ok? ==> exists m :: m in milestones && m.title == milestoneName && m.number == r.value
  {
    match Find(milestones, TitleIs(milestoneName))
    case Some(m) => Ok(m.number)
    case None => Err(NotFoundMessage(milestoneName))
  }

  /** The selection returns the number of the first milestone with that
      title. */
  lemma SelectsFirstTitled(milestones: seq<Milestone>, i: int, milestoneName: string)
    requires IsFirstTitled(milestones, i, milestoneName)
    ensures GetMilestoneNumber(milestones, milestoneName) == Ok(milestones[i].number)
  {
    FindIsFirst(milestones, TitleIs(milestoneName), i);
  }

  /** Conversely, a returned number belongs to the first milestone with that
      title. */
  lemma SelectedIsFirstTitled(milestones: seq<Milestone>, milestoneName: string) returns (i: int)
    requires GetMilestoneNumber(milestones, milestoneName).Ok?
    ensures IsFirstTitled(milestones, i, milestoneName)
    ensures GetMilestoneNumber(milestones, milestoneName) == Ok(milestones[i].number)
  {
    i := FindPosition(milestones, TitleIs(milestoneName));
  }

  /** How `run` ends: normally, or after `core.setFailed(reason)` (the
      promise then rejects with `undefined`, the value `setFailed`
      returns). */
  datatype RunResult = Succeeded | SetFailed(reason: string)

  datatype Report = Report(requests: seq<Request>, result: RunResult)

  /** The run of `run` against `remote`, as a value. */
  function RunReport(milestoneName: string, payload: Payload, remote: Remote): (r: Report)
    ensures r.requests == [] <==> payload.pullRequest.None?
    ensures r.result == Succeeded ==>
              |r.requests| == 2 && r.requests[0] == ListMilestones && r.requests[1].UpdateIssue?
  {
    match GetPrNumber(payload)
    case Err(message) => Report([], SetFailed(message))
    case Ok(prNumber) =>
      if ListMilestones in remote.rejects then
        Report([ListMilestones], SetFailed(remote.rejects[ListMilestones]))
      else
        match GetMilestoneNumber(remote.milestones, milestoneName)
        case Err(message) => Report([ListMilestones], SetFailed(message))
        case Ok(milestoneNumber) =>
          var update := UpdateIssue(prNumber, milestoneNumber);
          Report([ListMilestones, update],
                 if update in remote.rejects then SetFailed(remote.rejects[update]) else Succeeded)
  }

  /** `run`, step by step against the client: every error thrown inside the
      `try` block ends in `setFailed`. */
  method Run(milestoneName: string, payload: Payload, client: Client) returns (result: RunResult)
    modifies client
    ensures client.requests == old(client.requests) + RunReport(milestoneName, payload, client.remote).requests
    ensures result == RunReport(milestoneName, payload, client.remote).result
  {
    var prNumber := GetPrNumber(payload);
    if prNumber.Err? {
      return SetFailed(prNumber.error);
    }
    var listing, milestones := client.ListMilestones();
    if listing.Rejected? {
      return SetFailed(listing.reason);
    }
    var milestoneNumber := GetMilestoneNumber(milestones, milestoneName);
    if milestoneNumber.Err? {
      return SetFailed(milestoneNumber.error);
    }
    var update := client.UpdateIssue(prNumber.value, milestoneNumber.value);
    if update.Rejected? {
      return SetFailed(update.reason);
    }
    return Succeeded;
  }

  /** `run` sends an update only once both the pull request number and the
      milestone number were found, and then exactly one, for those two
      numbers, as its last request. Otherwise it sends none. */
  lemma UpdateOnlyAfterBothSucceed(milestoneName: string, payload: Payload, remote: Remote)
    ensures var report := RunReport(milestoneName, payload, remote);
            var prNumber := GetPrNumber(payload);
            var milestoneNumber := GetMilestoneNumber(remote.milestones, milestoneName);
            if prNumber.Ok? && ListMilestones !in remote.rejects && milestoneNumber.Ok?
            then Updates(report.requests) == [UpdateIssue(prNumber.value, milestoneNumber.value)] &&
                 report.requests[|report.requests| - 1] == UpdateIssue(prNumber.value, milestoneNumber.value)
            else Updates(report.requests) == []
  {
    var report := RunReport(milestoneName, payload, remote);
    assert Updates([ListMilestones]) == [];
    if |report.requests| == 2 {
      FilterConcat([ListMilestones], [report.requests[1]], IsUpdate);
      assert [ListMilestones] + [report.requests[1]] == report.requests;
    }
  }

  /** `run` fails exactly when a step threw; the failure reason is the
      thrown error: the missing pull request, the milestone not found, or a
      rejected request. */
  lemma FailsIffAStepThrew(milestoneName: string, payload: Payload, remote: Remote)
    ensures var report := RunReport(milestoneName, payload, remote);
            var prNumber := GetPrNumber(payload);
            var milestoneNumber := GetMilestoneNumber(remote.milestones, milestoneName);
            (report.result.SetFailed? <==>
              prNumber.Err? || ListMilestones in remote.rejects || milestoneNumber.Err? ||
              UpdateIssue(prNumber.value, milestoneNumber.value) in remote.rejects) &&
            (prNumber.Err? ==> report == Report([], SetFailed("Action not run with a PR."))) &&
            (prNumber.Ok? && ListMilestones in remote.rejects ==>
               report.result == SetFailed(remote.rejects[ListMilestones])) &&
            (prNumber.Ok? && ListMilestones !in remote.rejects && milestoneNumber.Err? ==>
               report.result == SetFailed(NotFoundMessage(milestoneName))) &&
            (prNumber.Ok? && ListMilestones !in remote.rejects && milestoneNumber.Ok? &&
             UpdateIssue(prNumber.value, milestoneNumber.value) in remote.rejects ==>
               report.result == SetFailed(remote.rejects[UpdateIssue(prNumber.value, milestoneNumber.value)]))
  {
  }

  /** A past-due milestone with the right title is still selected. */
  lemma PastDueMilestoneSelected(m: Milestone, prNumber: int)
    requires m.dueOn.Some?
    ensures RunReport(m.title, Payload(Some(PullRequest(prNumber))), Remote([m], map[]))
            == Report([ListMilestones, UpdateIssue(prNumber, m.number)], Succeeded)
  {
  }
}
