/** The two selection rules side by side: `src/runner.ts` in exact mode
    searches the active milestones, `src/main.ts` searches all of them. */
module Comparison {
  import opened Js
  import opened GitHub
  import Runner
  import MainScript

  /** Whatever the runner picks in exact mode is a title match for the
      older script too, and the older script picks the same milestone or
      one earlier in the list. */
  lemma MainPicksNoLater(milestones: seq<Milestone>, milestoneName: string,
                         minimatch: (string, string) -> bool, now: int)
    returns (i: int, j: int)
    requires Runner.GetMilestoneNumber(milestones, milestoneName, false, minimatch, now).Ok?
    ensures 0 <= i <= j < |milestones|
    ensures MainScript.IsFirstTitled(milestones, i, milestoneName)
    ensures MainScript.GetMilestoneNumber(milestones, milestoneName) == Ok(milestones[i].number)
    ensures Runner.IsFirstQualifying(milestones, j, milestoneName, false, minimatch, now)
    ensures Runner.GetMilestoneNumber(milestones, milestoneName, false, minimatch, now)
            == Ok(milestones[j].number)
  {
    j := Runner.SelectedIsFirstQualifying(milestones, milestoneName, false, minimatch, now);
    i := MainScript.SelectedIsFirstTitled(milestones, milestoneName);
  }

  /** When every milestone is active the two rules pick the same milestone,
      and fail together. */
  lemma AgreeWhenAllActive(milestones: seq<Milestone>, milestoneName: string,
                           minimatch: (string, string) -> bool, now: int)
    requires forall k :: 0 <= k < |milestones| ==> Runner.IsActive(milestones[k], now)
    ensures Runner.GetMilestoneNumber(milestones, milestoneName, false, minimatch, now).Ok?
            <==> MainScript.GetMilestoneNumber(milestones, milestoneName).Ok?
    ensures Runner.GetMilestoneNumber(milestones, milestoneName, false, minimatch, now).Ok? ==>
            Runner.GetMilestoneNumber(milestones, milestoneName, false, minimatch, now).value
            == MainScript.GetMilestoneNumber(milestones, milestoneName).value
  {
    if MainScript.GetMilestoneNumber(milestones, milestoneName).Ok? {
      var i := MainScript.SelectedIsFirstTitled(milestones, milestoneName);
      Runner.SelectsFirstQualifying(milestones, i, milestoneName, false, minimatch, now);
    }
  }

  /** A past-due milestone with the right title: the older script selects
      it, the runner reports it as not found. */
  lemma PastDueSelectedOnlyByMain(m: Milestone, minimatch: (string, string) -> bool, now: int)
    requires m.dueOn.Some? && m.dueOn.value < now
    ensures MainScript.GetMilestoneNumber([m], m.title) == Ok(m.number)
    ensures Runner.GetMilestoneNumber([m], m.title, false, minimatch, now)
            == Err(Runner.NotFoundMessage(m.title))
  {
  }
}
