/** The top level of `cleanBranches`: the early "nothing to do" outcomes, the
    dry run, the interactive selection and confirmation (taken as inputs), and
    the sequential, failure-tolerant deletion loop. The repository backend is
    a record of what it reports plus an abstract `deleteLocalBranch`. */
module Clean {
  import opened SeqUtil
  import opened Text
  import opened Selection
  import Age

  /** What the backend reports before any branch is touched: whether the
      working directory is a repository, the current branch, and the entries of
      `git branch --merged`. */
  datatype Repository = Repository(isRepo: bool, current: string, merged: seq<string>)

  /** The result of one `deleteLocalBranch(name, force)` call. */
  datatype DeleteResult = Removed | Failed(message: string)

  /** One deletion attempt as the loop issued it. */
  datatype Attempt = Attempt(branch: string, force: bool, result: DeleteResult)

  /** One line of the dry-run listing: name, label and colour band. */
  datatype PreviewLine = PreviewLine(name: string, relativeTime: string, band: Age.AgeBand)

  /** How a run ends. */
  datatype Outcome =
    | NotARepository
    | NothingToClean
    | NothingOlderThan(days: int)
    | DryRun(preview: seq<PreviewLine>)
    | NoneSelected
    | Cancelled(selected: seq<string>)
    | Cleaned(attempts: seq<Attempt>)

  /** The merged branches left after the exclude list of `opts`. */
  function EligibleOf(opts: Options, repo: Repository): seq<string> {
    Eligible(repo.merged, ExcludeList(opts.exclude, repo.current))
  }

  /** The sorted, thresholded records the run presents. */
  function CandidatesOf(opts: Options, repo: Repository, now: int, log: string -> LogResult): seq<BranchInfo> {
    Candidates(opts, repo.current, repo.merged, now, log)
  }

  /** The checkbox answer: the candidate names the user leaves ticked, in list order. */
  function Selected(candidates: seq<BranchInfo>, choose: string -> bool): seq<string> {
    Filter(Names(candidates), choose)
  }

  /** The dry-run listing: one line per record, in order, with its name and
      label, coloured red from 91 whole days of age on, yellow from 31 days
      up to 91, and green below 31 days (future dates included). */
  function Preview(s: seq<BranchInfo>, now: int): (r: seq<PreviewLine>)
    ensures |r| == |s|
    ensures forall i :: 0 <= i < |s| ==>
              r[i].name == s[i].name && r[i].relativeTime == s[i].relativeTime
    ensures forall i :: 0 <= i < |s| ==>
              (r[i].band == Age.Stale <==> now - s[i].date >= 91 * Age.MsPerDay)
    ensures forall i :: 0 <= i < |s| ==>
              (r[i].band == Age.Aging <==> 31 * Age.MsPerDay <= now - s[i].date < 91 * Age.MsPerDay)
    ensures forall i :: 0 <= i < |s| ==>
              (r[i].band == Age.Fresh <==> now - s[i].date < 31 * Age.MsPerDay)
  {
    seq(|s|, i requires 0 <= i < |s| => PreviewLine(s[i].name, s[i].relativeTime, Age.Band(now, s[i].date)))
  }

  /** The deletion loop: every selected branch is attempted exactly once, in
      selection order, with force set; a failure is recorded and the loop
      goes on with the next branch. */
  method DeleteAll(selected: seq<string>, deleteLocalBranch: (string, bool) -> DeleteResult)
    returns (attempts: seq<Attempt>)
    ensures |attempts| == |selected|
    ensures forall i :: 0 <= i < |selected| ==>
              attempts[i] == Attempt(selected[i], true, deleteLocalBranch(selected[i], true))
  {
    attempts := [];
    for i := 0 to |selected|
      invariant |attempts| == i
      invariant forall k :: 0 <= k < i ==>
                  attempts[k] == Attempt(selected[k], true, deleteLocalBranch(selected[k], true))
    {
      var result := deleteLocalBranch(selected[i], true);
      attempts := attempts + [Attempt(selected[i], true, result)];
    }
  }

  /** Every branch the user can select names an eligible merged branch: it
      never normalises to the current branch or to a configured exclude name. */
  lemma NeverSelectsProtected(opts: Options, repo: Repository, now: int, log: string -> LogResult,
                              choose: string -> bool, n: string)
    requires n in Selected(CandidatesOf(opts, repo, now, log), choose)
    ensures n in EligibleOf(opts, repo)
    ensures n in repo.merged
    ensures Normalize(n) != repo.current
    ensures forall p :: p in Split(opts.exclude, ',') ==> Normalize(n) != Trim(p)
  {
    var c := CandidatesOf(opts, repo, now, log);
    FilterMembership(Names(c), choose, n);
    var i :| 0 <= i < |Names(c)| && Names(c)[i] == n;
    CandidatesProperties(opts, repo.current, repo.merged, now, log);
    assert c[i] in c;
    SurvivorsAreNotProtected(repo.merged, opts.exclude, repo.current, n);
  }

  /** Every deletion attempt names a branch the user could select, so none
      normalises to the current branch and all are eligible merged branches. */
  lemma AttemptsNeverProtected(opts: Options, repo: Repository, now: int, log: string -> LogResult,
                               choose: string -> bool, attempts: seq<Attempt>)
    requires |attempts| == |Selected(CandidatesOf(opts, repo, now, log), choose)|
    requires forall i :: 0 <= i < |attempts| ==>
               attempts[i].branch == Selected(CandidatesOf(opts, repo, now, log), choose)[i]
    ensures forall a :: a in attempts ==>
              Normalize(a.branch) != repo.current && a.branch in EligibleOf(opts, repo)
  {
    var selected := Selected(CandidatesOf(opts, repo, now, log), choose);
    forall a | a in attempts
      ensures Normalize(a.branch) != repo.current && a.branch in EligibleOf(opts, repo)
    {
      var k :| 0 <= k < |attempts| && attempts[k] == a;
      assert selected[k] in selected;
      NeverSelectsProtected(opts, repo, now, log, choose, selected[k]);
    }
  }

  /** What follows a non-empty list: the dry-run listing, or the checkbox
      selection, the confirmation and the deletion loop. */
  method Conclude(dryRun: bool, branches: seq<BranchInfo>, now: int, choose: string -> bool,
                  confirm: bool, deleteLocalBranch: (string, bool) -> DeleteResult)
    returns (outcome: Outcome)
    ensures outcome.DryRun? <==> dryRun
    ensures outcome.DryRun? ==> outcome.preview == Preview(branches, now)
    ensures outcome == NoneSelected <==> !dryRun && Selected(branches, choose) == []
    ensures outcome.Cancelled? <==> !dryRun && Selected(branches, choose) != [] && !confirm
    ensures outcome.Cancelled? ==> outcome.selected == Selected(branches, choose)
    ensures outcome.Cleaned? <==> !dryRun && Selected(branches, choose) != [] && confirm
    ensures outcome.Cleaned? ==>
              |outcome.attempts| == |Selected(branches, choose)| &&
              forall i :: 0 <= i < |outcome.attempts| ==>
                outcome.attempts[i] == Attempt(Selected(branches, choose)[i], true,
                                               deleteLocalBranch(Selected(branches, choose)[i], true))
    ensures !outcome.NotARepository? && !outcome.NothingToClean? && !outcome.NothingOlderThan?
  {
    if dryRun {
      return DryRun(Preview(branches, now));
    }
    var selectedBranches := Filter(Names(branches), choose);
    if |selectedBranches| == 0 {
      return NoneSelected;
    }
    if !confirm {
      return Cancelled(selectedBranches);
    }
    var attempts := DeleteAll(selectedBranches, deleteLocalBranch);
    outcome := Cleaned(attempts);
  }

  /** `cleanBranches(options)` with the clock, the backend, the checkbox
      answer and the confirmation passed in. Returns how the run ends and the
      number of branches the threshold removed. */
  method CleanBranches(opts: Options, repo: Repository, now: int, log: string -> LogResult,
                       choose: string -> bool, confirm: bool,
                       deleteLocalBranch: (string, bool) -> DeleteResult)
    returns (outcome: Outcome, filteredCount: nat)
    ensures outcome == NotARepository <==> !repo.isRepo
    ensures outcome == NothingToClean <==> repo.isRepo && EligibleOf(opts, repo) == []
    ensures outcome.NothingOlderThan? <==>
              repo.isRepo && EligibleOf(opts, repo) != [] && ThresholdActive(opts.olderThan) &&
              CandidatesOf(opts, repo, now, log) == []
    ensures outcome.NothingOlderThan? ==> outcome.days == opts.olderThan.value
    ensures outcome.DryRun? <==> repo.isRepo && CandidatesOf(opts, repo, now, log) != [] && opts.dryRun
    ensures outcome.DryRun? ==> outcome.preview == Preview(CandidatesOf(opts, repo, now, log), now)
    ensures outcome == NoneSelected <==>
              repo.isRepo && CandidatesOf(opts, repo, now, log) != [] && !opts.dryRun &&
              Selected(CandidatesOf(opts, repo, now, log), choose) == []
    ensures outcome.Cancelled? <==>
              repo.isRepo && CandidatesOf(opts, repo, now, log) != [] && !opts.dryRun &&
              Selected(CandidatesOf(opts, repo, now, log), choose) != [] && !confirm
    ensures outcome.Cancelled? ==> outcome.selected == Selected(CandidatesOf(opts, repo, now, log), choose)
    ensures outcome.Cleaned? <==>
              repo.isRepo && CandidatesOf(opts, repo, now, log) != [] && !opts.dryRun &&
              Selected(CandidatesOf(opts, repo, now, log), choose) != [] && confirm
    ensures outcome.Cleaned? ==>
              var selected := Selected(CandidatesOf(opts, repo, now, log), choose);
              |outcome.attempts| == |selected| &&
              forall i :: 0 <= i < |selected| ==>
                outcome.attempts[i] == Attempt(selected[i], true, deleteLocalBranch(selected[i], true))
    ensures outcome.Cleaned? ==>
              forall a :: a in outcome.attempts ==>
                Normalize(a.branch) != repo.current && a.branch in EligibleOf(opts, repo)
    ensures filteredCount ==
              if repo.isRepo && EligibleOf(opts, repo) != []
              then |EligibleOf(opts, repo)| - |CandidatesOf(opts, repo, now, log)|
              else 0
    ensures !ThresholdActive(opts.olderThan) ==> filteredCount == 0
  {
    if !repo.isRepo {
      return NotARepository, 0;
    }

    var excludeBranches := TrimAll(Split(opts.exclude, ','));
    excludeBranches := excludeBranches + [repo.current];
    var mergedBranches := Eligible(repo.merged, excludeBranches);
    if |mergedBranches| == 0 {
      return NothingToClean, 0;
    }

    var branches;
    branches, filteredCount := PrepareBranches(mergedBranches, now, log, opts.olderThan);
    assert branches == CandidatesOf(opts, repo, now, log);

    if |branches| == 0 {
      // Without the threshold the list is as long as the non-empty eligible
      // list, so the "no merged branches" message of this branch is unreachable.
      assert ThresholdActive(opts.olderThan);
      return NothingOlderThan(opts.olderThan.value), filteredCount;
    }

    outcome := Conclude(opts.dryRun, branches, now, choose, confirm, deleteLocalBranch);
    if outcome.Cleaned? {
      AttemptsNeverProtected(opts, repo, now, log, choose, outcome.attempts);
    }
  }
}
