# git-smart-clean: a verified model of `cleanBranches`

git-smart-clean is a command-line tool. It lists the local branches already
merged into the current branch. It leaves out the entries whose name, after
removing a first `remotes/origin/` and trimming, is the current branch or a
name in an exclude list, and labels each branch with the age of its last
commit. With `--older-than N` it keeps only branches older than N days. It
then previews them (`--dry-run`), or lets the user tick branches and confirm
before it force-deletes them one by one.

This project models the core of `src/index.js` in Dafny and proves
properties of the model:

- `age.dfy` (module `Age`): `getRelativeTime` as a ladder of floored unit
  counts and the label it renders; `getAgeColor` as three bands
  (`Fresh`, `Aging`, `Stale` for green, yellow and red).
- `text.dfy` (module `Text`): the JavaScript string operations the pipeline
  uses. These are `trim`, `split` on `,`, `replace` with a string pattern
  (first occurrence only), and `${n}` for a non-negative integer.
- `seq_util.dfy` (module `SeqUtil`): `Option`, the order-preserving
  `filter`, and the subsequence relation.
- `selection.dfy` (module `Selection`), the selection pipeline:
  - the exclude list, with the current branch pushed;
  - the exclusion filter on the normalised name;
  - the fail-soft enrichment with commit date and label;
  - the stable oldest-first sort, as a specification function and as an
    in-place insertion sort on an array;
  - the strict `--older-than` cutoff.
- `clean.dfy` (module `Clean`): `cleanBranches` as a method. It returns how
  the run ends and how many branches the threshold removed. The deletion
  loop runs in order and goes on after a failure.

The clock, the git backend, the checkbox answer and the confirmation answer
are parameters:

- `now` is an instant in integer milliseconds.
- `log` gives the result of `git log <branch> -1` for each branch.
- `deleteLocalBranch` gives the result of each deletion.
- `choose` says which candidate names stay ticked.
- `confirm` is the answer to the confirmation prompt.

`--older-than N` keeps a branch only if `b.date < cutoffDate`
(`src/index.js:118`), so a branch exactly N days old is removed;
`Selection.ThresholdDropsExactAge` states this.

The current branch is pushed onto the exclude list as it is, while each
merged entry is compared by its normalised name (`src/index.js:70-75`).
So a checked-out branch whose own name does not normalise to itself, such as
`remotes/origin/x` or a name ending in a no-break space, is not excluded,
unless its normalised name is an exclude name. It is listed, ticked by
default and passed to `deleteLocalBranch`;
`Selection.PrefixedCurrentBranchSurvives` states this.

A cutoff beyond the range of a `Date` (more than 8.64e15 ms from the epoch)
is an Invalid Date, and `b.date < cutoffDate` is then false for every branch.
A large negative `--older-than` such as `-100000000` gets there, and the run
ends with "No merged branches older than -100000000 days!".
`Selection.CutoffDate`, `Selection.KeepOlderThanDate` and
`Selection.FarCutoffIsInvalidDate` model this.

## Model

| member | source | states |
|---|---|---|
| Age.RelativeTime | src/index.js:7-33 | Definition of `getRelativeTime` at the instant `now`: the label of the classified elapsed time; characterised by ClassifyPicksLargestUnit, JustNowIffUnderAMinute and RenderRoundTrip |
| Age.ClassifyPicksLargestUnit | src/index.js:9-31 | The label names unit u with count n exactly when n is u's floored count, n is positive, and every larger unit counts zero or less |
| Age.LadderNested | src/index.js:10-16 | A positive count of a unit makes every smaller unit's count positive |
| Age.JustNowIffUnderAMinute | src/index.js:9-32 | "just now" is given exactly when less than one minute has elapsed |
| Age.FutureCommitIsJustNow | src/index.js:9-32 | A commit dated after the clock (negative elapsed time) is labelled "just now" |
| Age.CountsStayBelowNextUnit | src/index.js:13-29 | A label in months says at most 12, weeks at most 4, days at most 6, hours at most 23, minutes at most 59 |
| Age.LabelDaysAreBandDays | src/index.js:10-13 | The label's day count equals the single floor division by a day's length that the colour band uses |
| Age.UnitWordRoundTrip | src/index.js:19-29 | Each unit word reads back as its unit, singular exactly for a count of one |
| Age.RenderRoundTrip | src/index.js:18-32 | Every label reads back to the age it renders: count, unit and plural form |
| Age.RenderInjective | src/index.js:18-32 | Two different ages never get the same label |
| Age.Band | src/index.js:36-47 | Definition of `getAgeColor` at the instant `now` as a band; characterised by BandThresholds |
| Age.BandThresholds | src/index.js:36-46 | Red from 91 whole days on, yellow from 31 up to 91 days, green below 31 days (future dates included), in milliseconds of elapsed time |
| Age.BandNeverFresherWithAge | src/index.js:38-46 | An older commit is never in a fresher band than a newer one |
| Text.LeadingSpaces | src/index.js:69 | Counts the white space at the front: all of it is white space and the next character is not |
| Text.TrailingSpaces | src/index.js:69 | Counts the white space at the back: all of it is white space and the character before is not |
| Text.Trim | src/index.js:69 | `trim` returns the middle of the string; what it cuts off is all white space; the result neither starts nor ends with white space |
| Text.TrimOfTrimmed | src/index.js:69 | A string without white space at either end is its own trim |
| Text.TrimIdempotent | src/index.js:69 | Trimming twice is trimming once |
| Text.Split | src/index.js:69 | `split(',')` gives at least one piece, and no piece contains the separator |
| Text.JoinSplit | src/index.js:69 | Joining the pieces of a split with the separator gives back the string |
| Text.SplitJoin | src/index.js:69 | Splitting a join of separator-free pieces gives back the pieces |
| Text.IndexOfFrom | src/index.js:74 | The index found is the first occurrence at or after the start; when none is found, there is no occurrence |
| Text.RemoveFirst | src/index.js:74 | `replace(pat, '')` removes the first occurrence only, and leaves a string without one unchanged |
| Text.RemoveFirstOfPrefixed | src/index.js:74 | A name that starts with the pattern loses exactly that prefix |
| Text.RemoveFirstKeepsSecondCopy | src/index.js:74 | A second copy of the pattern survives the replace |
| Text.NatToString | src/index.js:19-29 | The decimal rendering of a count is a non-empty digit string that reads back as the count, with a leading `0` only for zero |
| Text.NatToStringInjective | src/index.js:19-29 | Different counts render differently |
| SeqUtil.FilterMembership | src/index.js:73-76 | `filter` keeps exactly the entries satisfying the predicate |
| SeqUtil.FilterMultiplicity | src/index.js:73-76 | `filter` keeps each satisfying entry as often as it occurs, and drops every other entry |
| SeqUtil.FilterIsSubsequence | src/index.js:73-76 | `filter` keeps the input order |
| Selection.ExcludeList | src/index.js:69-70 | Definition of the exclude list; characterised by ExcludeListMembers |
| Selection.Normalize | src/index.js:74 | Definition of the compared name; characterised by NormalizeRemoteEntry and NormalizePlainName |
| Selection.Eligible | src/index.js:73-76 | Definition of the exclusion filter; characterised by EligibleExact |
| Selection.TrimAll | src/index.js:69 | The trimmed list has one entry per piece, each the trim of its piece |
| Selection.ExcludeListMembers | src/index.js:69-70 | The exclude list holds exactly the current branch and the trimmed comma-separated names |
| Selection.EligibleExact | src/index.js:73-76 | A merged entry survives exactly when its normalised name is not excluded, with its multiplicity, unchanged, in input order |
| Selection.SurvivorsAreNotProtected | src/index.js:69-76 | No surviving entry normalises to the current branch or to any trimmed exclude name |
| Selection.PrefixedCurrentBranchSurvives | src/index.js:69-76 | A checked-out branch named `remotes/origin/<name>` survives the filter when no exclude name trims to the trimmed `<name>` |
| Selection.NormalizeRemoteEntry | src/index.js:74 | A `remotes/origin/` entry is compared by the trimmed name after the prefix |
| Selection.Describe | src/index.js:88-104 | Definition of the record built for one branch; its three cases are stated by Enrich |
| Selection.Enrich | src/index.js:86-106 | One record per branch, in order, name unchanged. A failed lookup gives now and "unknown", an empty log gives now and "committed just now", otherwise the commit date and "committed " plus its label |
| Selection.UnknownExactlyWhenLookupFailed | src/index.js:88-104 | A record says "unknown" exactly when its log lookup threw |
| Selection.SortByDate | src/index.js:109 | Definition of the stable date sort; characterised by SortByDateSorted, SortByDatePermutes and SortByDateStable |
| Selection.InsertKeepsSorted | src/index.js:109 | Inserting into a date-sorted list keeps it sorted |
| Selection.InsertStable | src/index.js:109 | Insertion puts the new record after every record of its own date |
| Selection.SortByDateSorted | src/index.js:109 | The sort orders records by non-decreasing date |
| Selection.SortByDatePermutes | src/index.js:109 | The sort is a permutation of its input |
| Selection.SortByDateStable | src/index.js:109 | The sort is stable: the records of each date keep their input order |
| Selection.SortByDateKeepsMembers | src/index.js:109 | The sort keeps the length and the set of records |
| Selection.SortInPlace | src/index.js:109 | The array sorted in place holds the stable date sort of its old contents |
| Selection.InsertInPlace | src/index.js:109 | One pass moves the next record into the sorted prefix as Insert does, and leaves the rest of the array alone |
| Selection.ShiftLater | src/index.js:109 | The entries just before position i that are dated later than the record each move up one place; the entry before the gap, if any, is dated no later than the record; nothing else moves |
| Selection.Cutoff | src/index.js:113-114 | Definition of the cutoff instant, `now` moved back by fixed-length days |
| Selection.CutoffDate | src/index.js:113-114 | Definition of the cutoff `Date` (TimeClip applied to `Cutoff`); characterised by FarCutoffIsInvalidDate and OrdinaryCutoffIsValid |
| Selection.OrdinaryCutoffIsValid | src/index.js:113-114 | With a clock between the epoch and the end of the `Date` range, a threshold of 0 to 100000000 days gives a valid cutoff `Date`, the instant moved back by that many days |
| Selection.OrdinaryThresholdKeepsOlder | src/index.js:112-119 | With such a clock and a positive threshold of at most 100000000 days, the selection keeps exactly the sorted records dated strictly before the moved instant |
| Selection.FarCutoffIsInvalidDate | src/index.js:112-114 | With a clock after the epoch, a threshold of -100000000 days or less gives an Invalid Date cutoff |
| Selection.KeepOlder | src/index.js:118 | Definition of the threshold filter; characterised by KeepOlderExact |
| Selection.KeepOlderThanDate | src/index.js:117-119 | Definition of the threshold filter against a possibly invalid cutoff: nothing is kept for an Invalid Date |
| Selection.KeepOlderExact | src/index.js:112-121 | The threshold keeps exactly the records dated strictly before the cutoff, in order, and removes as many as are dated at or after it |
| Selection.ThresholdDropsExactAge | src/index.js:113-118 | A record aged exactly the threshold is removed |
| Selection.FilterKeepsSorted | src/index.js:109-119 | Filtering the sorted list keeps it sorted |
| Selection.PrepareBranches | src/index.js:86-126 | The in-place steps give the enriched, sorted, thresholded list; filteredCount is the count before minus after, and zero without a threshold |
| Selection.ThresholdActive | src/index.js:112 | Definition of the truthiness of `options.olderThan` (lines 112 and 130): present and not zero |
| Selection.Prepare | src/index.js:86-126 | Definition of steps 3 to 5 on the eligible names: enrich, stable sort, then the threshold filter against the cutoff `Date` when the threshold is active; PrepareBranches is proved equal to it; characterised by CandidatesProperties |
| Selection.Candidates | src/index.js:69-126 | Definition of the presented list; characterised by CandidatesProperties |
| Selection.CandidatesProperties | src/index.js:69-126 | The presented list is sorted oldest first and names only eligible branches. With the threshold every record is older than the cutoff, and the list is empty when the cutoff is an Invalid Date; without it no branch is dropped |
| Selection.DefaultExcludeSplit | bin/cli.js:12 | The default exclude value splits into main, master and develop |
| Selection.DefaultExcludeList | src/index.js:69-70 | An exclude value that splits like the default gives the three names and the current branch |
| Selection.NormalizePlainName | src/index.js:74 | A name in which `remotes/origin/` does not occur and without surrounding white space is compared as it is |
| Selection.ScenarioEligible | src/index.js:69-76 | With the default excludes and `main` checked out, `main` is dropped and the feature branches survive in order |
| Selection.SortDescendingThree | src/index.js:109 | Three records dated in decreasing order sort into reverse order |
| Selection.ThreeBranchesThirtyDays | src/index.js:86-126 | With a clock between the epoch and the end of the `Date` range, branches aged 5, 40 and 120 days with a 30-day threshold give the 120-day branch, then the 40-day branch |
| Selection.ScenarioThirtyDays | src/index.js:69-126 | The whole selection on that example, from the merged list to the presented names |
| Clean.Preview | src/index.js:141-151 | The dry run lists every presented record, in order, with its name and label, in red exactly from 91 whole days of age on, yellow exactly from 31 up to 91 days, green exactly below 31 days |
| Clean.DeleteAll | src/index.js:193-200 | Each selected branch is attempted once, in selection order, with force; a failure does not stop the loop |
| Clean.Selected | src/index.js:154-169 | Definition of the checkbox answer: the ticked candidate names in list order; characterised by NeverSelectsProtected |
| Clean.NeverSelectsProtected | src/index.js:154-174 | A selectable branch is an eligible merged branch whose normalised name is never the current branch and never an exclude name |
| Clean.AttemptsNeverProtected | src/index.js:193-200 | No deletion attempt names a branch that normalises to the current branch, and every one names an eligible merged branch |
| Clean.Conclude | src/index.js:141-200 | For a non-empty list: a dry run exactly when asked; nothing selected ends the run; a refusal cancels with the selection; a confirmation deletes exactly the selection |
| Clean.CleanBranches | src/index.js:49-200 | Each outcome happens exactly under its condition: not a repository; nothing eligible; nothing older than N days (only with a threshold); dry run; none selected; cancelled; cleaned. Deletion touches only eligible branches. filteredCount is how many the threshold removed |

## Left out

- Terminal output is not modelled: the spinners, colours, `console.log`
  messages, the `padEnd(40)` display strings and the final success
  message. The colour is kept as the `Age.AgeBand` of each preview line.
- The `inquirer` prompts are the parameters `choose` (which names stay
  ticked; all start ticked) and `confirm`.
- `process.exit(1)` outside a repository is the `NotARepository` outcome.
- The rethrow of an error from the backend is not modelled. Unlike a single
  branch's log lookup, such an error has no outcome in the model.
- `Promise.all` runs the log lookups concurrently. The model maps over the
  branches in order, which gives the same result list.
- The clock is one `now` for the whole run. The source reads a new `Date` in
  every helper call; those reads differ only by the time the run takes.
- `Selection.Cutoff`: a fixed 86,400,000 ms per day. The source moves the
  date back with `setDate`, which follows the local calendar across
  daylight-saving changes.
- `Selection.CutoffDate`: the range test is made on the UTC instant. The
  local-time offset that `setDate` applies is not modelled, and neither is
  the floating-point rounding of a huge `--older-than` value.
- Parsing a commit date string into a `Date` is not modelled. `log` gives
  integer milliseconds, so an unparseable (NaN) date has no counterpart.
- `--older-than` is parsed by `parseInt` in `bin/cli.js`, which is not part
  of this model. `olderThan` is `Option<int>`, and it is active when
  present and not zero, as in JavaScript. A NaN value counts as absent.
- The `splice` that refills the array is a reassignment of the sequence.
- Strings are sequences of Unicode scalar values, not UTF-16 code units.
  This does not change `trim`, `split(',')` or `replace` on the names.
- The "No merged branches to clean up!" message at line 133 is
  unreachable. Without a threshold the list is as long as the non-empty
  eligible list; `Clean.CleanBranches` proves this, so there is no outcome
  for it.
