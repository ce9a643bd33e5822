/** What the scripts see of GitHub: the event payload, the repository's
    milestones and the REST client. The client is modelled as an object that
    records every request it sends, in order, and answers each one from a
    fixed description of the remote side. */
module GitHub {
  import opened Js

  /** A milestone as `issues.listMilestones` returns it. The due date is a
      timestamp; `None` stands for a missing `due_on` (null, or the empty
      string, which is falsy too). */
  datatype Milestone = Milestone(title: string, number: int, dueOn: Option<int>)

  /** The part of `github.context.payload.pull_request` the scripts read. */
  datatype PullRequest = PullRequest(number: int)

  /** The event payload; `pullRequest` is absent for events that do not
      concern a pull request. */
  datatype Payload = Payload(pullRequest: Option<PullRequest>)

  /** The requests the scripts send, for the repository of the event. */
  datatype Request =
    | ListMilestones
    | ListMembersInOrg(org: string, teamSlug: Option<string>)
    | UpdateIssue(issueNumber: int, milestone: int)

  /** The settled state of an awaited request. */
  datatype Response = Resolved | Rejected(reason: string)

  /** The remote side: the milestone list it serves and the requests it
      rejects, each with the error message the rejection carries. */
  datatype Remote = Remote(milestones: seq<Milestone>, rejects: map<Request, string>)

  /** How the remote answers one request. */
  function Respond(remote: Remote, request: Request): (r: Response)
    ensures r.Rejected? <==> request in remote.rejects
    ensures r.Rejected? ==> r.reason == remote.rejects[request]
  {
    if request in remote.rejects then Rejected(remote.rejects[request]) else Resolved
  }

  function IsUpdate(request: Request): bool
  {
    request.UpdateIssue?
  }

  /** The write requests among `requests`, in order. */
  function Updates(requests: seq<Request>): (r: seq<Request>)
    ensures forall i :: 0 <= i < |r| ==> r[i].UpdateIssue? && r[i] in requests
    ensures forall i :: 0 <= i < |requests| && requests[i].UpdateIssue? ==> requests[i] in r
  {
    Filter(requests, IsUpdate)
  }

  function IsRejectedBy(remote: Remote): Request -> bool
  {
    request => request in remote.rejects
  }

  /** The reason of the first of `requests` the remote rejects. */
  function FirstRejection(requests: seq<Request>, remote: Remote): (r: Option<string>)
    ensures r.None? <==> forall i :: 0 <= i < |requests| ==> requests[i] !in remote.rejects
    ensures r.Some? ==> r.value in remote.rejects.Values
    ensures r.Some? ==> exists i :: 0 <= i < |requests| && requests[i] in remote.rejects &&
                                    r.value == remote.rejects[requests[i]]
  {
    match Find(requests, IsRejectedBy(remote))
    case Some(request) => Some(remote.rejects[request])
    case None => None
  }

  /** The first rejection among requests extended at the end. */
  lemma FirstRejectionAppend(requests: seq<Request>, request: Request, remote: Remote)
    ensures FirstRejection(requests + [request], remote) ==
            if FirstRejection(requests, remote).Some? then FirstRejection(requests, remote)
            else if request in remote.rejects then Some(remote.rejects[request])
            else None
  {
    FindAppend(requests, request, IsRejectedBy(remote));
  }

  /** An octokit client bound to one repository. `requests` is the log of
      every request sent through it; only `UpdateIssue` changes anything on
      the remote side. */
  class Client {
    const remote: Remote
    var requests: seq<Request>

    constructor (remote: Remote)
      ensures this.remote == remote && requests == []
    {
      this.remote := remote;
      requests := [];
    }

    /** `rest.issues.listMilestones({ owner, repo })`. */
    method ListMilestones() returns (response: Response, milestones: seq<Milestone>)
      modifies this
      ensures requests == old(requests) + [Request.ListMilestones]
      ensures response == Respond(remote, Request.ListMilestones)
      ensures milestones == if response.Resolved? then remote.milestones else []
    {
      requests := requests + [Request.ListMilestones];
      response := Respond(remote, Request.ListMilestones);
      milestones := if response.Resolved? then remote.milestones else [];
    }

    /** `rest.teams.listMembersInOrg({ org, team_slug })`; the member list
        itself is never used, so it is not returned. */
    method ListMembersInOrg(org: string, teamSlug: Option<string>) returns (response: Response)
      modifies this
      ensures requests == old(requests) + [Request.ListMembersInOrg(org, teamSlug)]
      ensures response == Respond(remote, Request.ListMembersInOrg(org, teamSlug))
    {
      requests := requests + [Request.ListMembersInOrg(org, teamSlug)];
      response := Respond(remote, Request.ListMembersInOrg(org, teamSlug));
    }

    /** `rest.issues.update({ owner, repo, issue_number, milestone })`. */
    method UpdateIssue(issueNumber: int, milestone: int) returns (response: Response)
      modifies this
      ensures requests == old(requests) + [Request.UpdateIssue(issueNumber, milestone)]
      ensures response == Respond(remote, Request.UpdateIssue(issueNumber, milestone))
    {
      requests := requests + [Request.UpdateIssue(issueNumber, milestone)];
      response := Respond(remote, Request.UpdateIssue(issueNumber, milestone));
    }
  }
}
