/** The branch selection pipeline of `cleanBranches`: the exclude list, the
    exclusion filter over the merged branches, the fail-soft enrichment with
    commit dates and labels, the stable oldest-first sort, and the
    `--older-than` threshold. */
module Selection {
  import opened SeqUtil
  import opened Text
  import Age

  /** The remote-tracking prefix removed before comparing a name. */
  const RemotePrefix: string := "remotes/origin/"

  /** The parsed command-line options the pipeline reads. */
  datatype Options = Options(dryRun: bool, olderThan: Option<int>, exclude: string)

  /** What `git log <branch> -1` gives back: it throws, it has no latest
      entry, or its latest entry carries a commit instant in milliseconds. */
  datatype LogResult = LookupFailed | NoLatest | Latest(date: int)

  /** One merged branch with its last-commit instant and its age label. */
  datatype BranchInfo = BranchInfo(name: string, date: int, relativeTime: string)

  // --- Step 1: the exclude list ---

  function TrimAll(parts: seq<string>): (r: seq<string>)
    ensures |r| == |parts|
    ensures forall i :: 0 <= i < |parts| ==> r[i] == Trim(parts[i])
  {
    if parts == [] then [] else [Trim(parts[0])] + TrimAll(parts[1..])
  }

  /** `options.exclude.split(',').map(b => b.trim())` with the current branch pushed. */
  function ExcludeList(exclude: string, current: string): seq<string> {
    TrimAll(Split(exclude, ',')) + [current]
  }

  /** The exclude list holds the current branch and the trimmed comma-separated
      names, and nothing else. */
  lemma ExcludeListMembers(exclude: string, current: string, x: string)
    ensures x in ExcludeList(exclude, current) <==>
              x == current || exists p :: p in Split(exclude, ',') && Trim(p) == x
  {
    var parts := Split(exclude, ',');
    TrimAllMembers(parts, x);
    assert ExcludeList(exclude, current) == TrimAll(parts) + [current];
  }

  lemma {:induction false} TrimAllMembers(parts: seq<string>, x: string)
    ensures x in TrimAll(parts) <==> exists p :: p in parts && Trim(p) == x
  {
    if parts != [] {
      TrimAllMembers(parts[1..], x);
      assert TrimAll(parts) == [Trim(parts[0])] + TrimAll(parts[1..]);
      if Trim(parts[0]) == x {
        assert parts[0] in parts;
      }
      if exists p :: p in parts[1..] && Trim(p) == x {
        var p :| p in parts[1..] && Trim(p) == x;
        assert p in parts;
      }
      if exists p :: p in parts && Trim(p) == x {
        var p :| p in parts && Trim(p) == x;
        assert p == parts[0] || p in parts[1..];
      }
    }
  }

  // --- Step 2: the exclusion filter ---

  /** `branch.replace('remotes/origin/', '').trim()`. */
  function Normalize(branch: string): string {
    Trim(RemoveFirst(branch, RemotePrefix))
  }

  /** The filter's test: the normalised name is not in the exclude list. */
  function NotExcluded(excludes: seq<string>): string -> bool {
    b => Normalize(b) !in excludes
  }

  /** The merged branches that survive the exclude list, original strings in input order. */
  function Eligible(branches: seq<string>, excludes: seq<string>): seq<string> {
    Filter(branches, NotExcluded(excludes))
  }

  /** The exclusion filter keeps exactly the entries whose normalised name is
      not excluded, each as often as it occurs, unchanged and in input order. */
  lemma EligibleExact(branches: seq<string>, excludes: seq<string>, b: string)
    ensures b in Eligible(branches, excludes) <==> b in branches && Normalize(b) !in excludes
    ensures multiset(Eligible(branches, excludes))[b] ==
              if Normalize(b) !in excludes then multiset(branches)[b] else 0
    ensures IsSubsequence(Eligible(branches, excludes), branches)
  {
    FilterMembership(branches, NotExcluded(excludes), b);
    FilterMultiplicity(branches, NotExcluded(excludes), b);
    FilterIsSubsequence(branches, NotExcluded(excludes));
  }

  /** No surviving branch normalises to the current branch or to a configured name. */
  lemma SurvivorsAreNotProtected(merged: seq<string>, exclude: string, current: string, b: string)
    requires b in Eligible(merged, ExcludeList(exclude, current))
    ensures b in merged
    ensures Normalize(b) != current
    ensures forall p :: p in Split(exclude, ',') ==> Normalize(b) != Trim(p)
  {
    EligibleExact(merged, ExcludeList(exclude, current), b);
    forall p | p in Split(exclude, ',')
      ensures Normalize(b) != Trim(p)
    {
      ExcludeListMembers(exclude, current, Trim(p));
    }
    ExcludeListMembers(exclude, current, current);
  }

  /** A remote-tracking entry is compared by the name after the prefix. */
  lemma NormalizeRemoteEntry(name: string)
    ensures Normalize(RemotePrefix + name) == Trim(name)
  {
    RemoveFirstOfPrefixed(RemotePrefix, name);
  }

  /** The current branch is pushed as it is, but each merged entry is compared
      by its normalised name: a checked-out branch named `remotes/origin/<name>`
      is not excluded by its own entry, and is listed like any other. */
  lemma PrefixedCurrentBranchSurvives(exclude: string, name: string)
    requires forall p :: p in Split(exclude, ',') ==> Trim(p) != Trim(name)
    ensures RemotePrefix + name in Eligible([RemotePrefix + name], ExcludeList(exclude, RemotePrefix + name))
  {
    var current := RemotePrefix + name;
    NormalizeRemoteEntry(name);
    assert |Trim(name)| < |current|;
    ExcludeListMembers(exclude, current, Trim(name));
    EligibleExact([current], ExcludeList(exclude, current), current);
  }

  // --- Step 3: fail-soft enrichment ---

  /** The record built for one branch from its log lookup. */
  function Describe(name: string, now: int, log: LogResult): BranchInfo {
    match log
    case LookupFailed => BranchInfo(name, now, "unknown")
    case NoLatest => BranchInfo(name, now, "committed " + Age.RelativeTime(now, now))
    case Latest(d) => BranchInfo(name, d, "committed " + Age.RelativeTime(now, d))
  }

  /** The order-preserving map over the eligible branches: one record per
      branch with its name unchanged; a failed lookup gives `now` and
      "unknown", a log without entries gives `now` and "committed just now". */
  function Enrich(names: seq<string>, now: int, log: string -> LogResult): (r: seq<BranchInfo>)
    ensures |r| == |names|
    ensures forall i :: 0 <= i < |names| ==> r[i].name == names[i]
    ensures forall i :: 0 <= i < |names| && log(names[i]) == LookupFailed ==>
              r[i].date == now && r[i].relativeTime == "unknown"
    ensures forall i :: 0 <= i < |names| && log(names[i]) == NoLatest ==>
              r[i].date == now && r[i].relativeTime == "committed just now"
    ensures forall i :: 0 <= i < |names| && log(names[i]).Latest? ==>
              r[i].date == log(names[i]).date &&
              r[i].relativeTime == "committed " + Age.RelativeTime(now, log(names[i]).date)
  {
    Age.JustNowIffUnderAMinute(0);
    assert "committed " + "just now" == "committed just now";
    seq(|names|, i requires 0 <= i < |names| => Describe(names[i], now, log(names[i])))
  }

  /** A record is labelled "unknown" exactly when its lookup failed. */
  lemma UnknownExactlyWhenLookupFailed(names: seq<string>, now: int, log: string -> LogResult, i: nat)
    requires i < |names|
    ensures Enrich(names, now, log)[i].relativeTime == "unknown" <==> log(names[i]) == LookupFailed
  {
    var r := Enrich(names, now, log)[i];
    if !log(names[i]).LookupFailed? {
      assert r.relativeTime[0] == 'c';
    }
  }

  // --- Step 4: the stable sort, oldest first ---

  predicate SortedByDate(s: seq<BranchInfo>) {
    forall i, j :: 0 <= i < j < |s| ==> s[i].date <= s[j].date
  }

  /** Inserts `x` after every leading entry dated no later than it. */
  function Insert(s: seq<BranchInfo>, x: BranchInfo): seq<BranchInfo> {
    if s == [] then [x]
    else if x.date < s[0].date then [x] + s
    else [s[0]] + Insert(s[1..], x)
  }

  /** The order `sort((a, b) => a.date - b.date)` leaves: a stable sort by date. */
  function SortByDate(s: seq<BranchInfo>): seq<BranchInfo>
    decreases |s|
  {
    if s == [] then [] else Insert(SortByDate(s[..|s| - 1]), s[|s| - 1])
  }

  function HasDate(d: int): BranchInfo -> bool {
    (r: BranchInfo) => r.date == d
  }

  /** The records dated `d`, in their order in `s`. */
  function DatedAt(s: seq<BranchInfo>, d: int): seq<BranchInfo> {
    Filter(s, HasDate(d))
  }

  lemma {:induction false} InsertMembers(s: seq<BranchInfo>, x: BranchInfo)
    ensures multiset(Insert(s, x)) == multiset(s) + multiset{x}
  {
    if s != [] && x.date >= s[0].date {
      InsertMembers(s[1..], x);
      assert s == [s[0]] + s[1..];
    }
  }

  lemma {:induction false} InsertKeepsSorted(s: seq<BranchInfo>, x: BranchInfo)
    requires SortedByDate(s)
    ensures SortedByDate(Insert(s, x))
  {
    if s != [] && x.date >= s[0].date {
      InsertKeepsSorted(s[1..], x);
      var t := Insert(s[1..], x);
      InsertMembers(s[1..], x);
      forall k | 0 <= k < |t|
        ensures s[0].date <= t[k].date
      {
        assert t[k] in multiset(t);
        assert t[k] in s[1..] || t[k] == x;
      }
    }
  }

  /** Inserting into a sorted sequence places `x` after every record of its
      own date, as appending it would. */
  lemma {:induction false} InsertStable(s: seq<BranchInfo>, x: BranchInfo, d: int)
    requires SortedByDate(s)
    ensures DatedAt(Insert(s, x), d) == DatedAt(s, d) + DatedAt([x], d)
  {
    if s == [] {
      assert DatedAt([], d) == [];
    } else if x.date < s[0].date {
      InsertStableFront(s, x, d);
    } else {
      InsertStable(s[1..], x, d);
      InsertStableLater(s, x, d);
    }
  }

  /** `x` goes in front of a sorted `s` dated later: no entry of `s` shares its date. */
  lemma InsertStableFront(s: seq<BranchInfo>, x: BranchInfo, d: int)
    requires SortedByDate(s) && s != [] && x.date < s[0].date
    ensures DatedAt(Insert(s, x), d) == DatedAt(s, d) + DatedAt([x], d)
  {
    FilterConcat([x], s, HasDate(d));
    if x.date == d {
      FilterKeepsNone(s, HasDate(d));
    } else {
      assert DatedAt([x], d) == [] + DatedAt([], d);
    }
  }

  /** `x` goes after the head of `s`: the step case, given the property for `s[1..]`. */
  lemma InsertStableLater(s: seq<BranchInfo>, x: BranchInfo, d: int)
    requires s != [] && x.date >= s[0].date
    requires DatedAt(Insert(s[1..], x), d) == DatedAt(s[1..], d) + DatedAt([x], d)
    ensures DatedAt(Insert(s, x), d) == DatedAt(s, d) + DatedAt([x], d)
  {
    var a, b, c := DatedAt([s[0]], d), DatedAt(s[1..], d), DatedAt([x], d);
    assert a + (b + c) == (a + b) + c;
    assert DatedAt(Insert(s, x), d) == a + (b + c) by {
      assert Insert(s, x) == [s[0]] + Insert(s[1..], x);
      FilterConcat([s[0]], Insert(s[1..], x), HasDate(d));
    }
    assert DatedAt(s, d) == a + b by { DatedAtHead(s, d); }
  }

  lemma DatedAtHead(s: seq<BranchInfo>, d: int)
    requires s != []
    ensures DatedAt(s, d) == DatedAt([s[0]], d) + DatedAt(s[1..], d)
  {
    FilterConcat([s[0]], s[1..], HasDate(d));
    assert [s[0]] + s[1..] == s;
  }

  /** The sort orders the records by non-decreasing date. */
  lemma {:induction false} SortByDateSorted(s: seq<BranchInfo>)
    ensures SortedByDate(SortByDate(s))
    decreases |s|
  {
    if s != [] {
      SortByDateSorted(s[..|s| - 1]);
      InsertKeepsSorted(SortByDate(s[..|s| - 1]), s[|s| - 1]);
    }
  }

  /** The sort is a permutation of its input. */
  lemma {:induction false} SortByDatePermutes(s: seq<BranchInfo>)
    ensures multiset(SortByDate(s)) == multiset(s)
    decreases |s|
  {
    if s != [] {
      var init, last := s[..|s| - 1], s[|s| - 1];
      SortByDatePermutes(init);
      InsertMembers(SortByDate(init), last);
      MultisetOfSnoc(s);
    }
  }

  /** The sort is stable: the records of any one date keep their input order. */
  lemma {:induction false} SortByDateStable(s: seq<BranchInfo>, d: int)
    ensures DatedAt(SortByDate(s), d) == DatedAt(s, d)
    decreases |s|
  {
    if s != [] {
      var init, last := s[..|s| - 1], s[|s| - 1];
      SortByDateStable(init, d);
      SortByDateSorted(init);
      InsertStable(SortByDate(init), last, d);
      FilterConcat(init, [last], HasDate(d));
      assert init + [last] == s;
    }
  }

  /** Inserting between a prefix dated no later than `x` and a suffix dated later. */
  lemma {:induction false} InsertBetween(p: seq<BranchInfo>, q: seq<BranchInfo>, x: BranchInfo)
    requires forall k :: 0 <= k < |p| ==> p[k].date <= x.date
    requires forall k :: 0 <= k < |q| ==> q[k].date > x.date
    ensures Insert(p + q, x) == p + [x] + q
  {
    if p == [] {
      assert p + q == q;
    } else {
      assert (p + q)[0] == p[0];
      assert (p + q)[1..] == p[1..] + q;
      InsertBetween(p[1..], q, x);
      assert [p[0]] + (p[1..] + [x] + q) == p + [x] + q;
    }
  }

  lemma SortStep(s: seq<BranchInfo>, i: nat)
    requires i < |s|
    ensures SortByDate(s[..i + 1]) == Insert(SortByDate(s[..i]), s[i])
  {
    assert s[..i + 1][..i] == s[..i];
  }

  /** `branchesWithInfo.sort(...)`: a stable insertion sort in place. */
  method SortInPlace(a: array<BranchInfo>)
    modifies a
    ensures a[..] == SortByDate(old(a[..]))
  {
    ghost var input := a[..];
    var i := 0;
    while i < a.Length
      invariant 0 <= i <= a.Length
      invariant a[..i] == SortByDate(input[..i])
      invariant a[i..] == input[i..]
    {
      SortByDateSorted(input[..i]);
      SortStep(input, i);
      InsertInPlace(a, i);
      i := i + 1;
    }
    assert input[..a.Length] == input;
  }

  /** Shifts the entries of `a[..i]` dated later than `x` one place to the
      right and returns the gap left in front of them. */
  method ShiftLater(a: array<BranchInfo>, i: nat, x: BranchInfo) returns (j: nat)
    requires i < a.Length
    modifies a
    ensures j <= i
    ensures a[..j] == old(a[..j])
    ensures a[j + 1..i + 1] == old(a[j..i])
    ensures forall k :: j < k <= i ==> a[k].date > x.date
    ensures j > 0 ==> a[j - 1].date <= x.date
    ensures a[i + 1..] == old(a[i + 1..])
  {
    j := i;
    while j > 0 && a[j - 1].date > x.date
      invariant 0 <= j <= i
      invariant a[..j] == old(a[..j])
      invariant forall k :: j < k <= i ==> a[k] == old(a[k - 1]) && a[k].date > x.date
      invariant a[i + 1..] == old(a[i + 1..])
    {
      a[j] := a[j - 1];
      j := j - 1;
    }
    ShiftedSlice(a[..], old(a[..]), i, j);
  }

  /** Entries each moved up one place form the old slice, one place later. */
  lemma ShiftedSlice(shifted: seq<BranchInfo>, before: seq<BranchInfo>, i: nat, j: nat)
    requires |shifted| == |before| && j <= i < |shifted|
    requires forall k :: j < k <= i ==> shifted[k] == before[k - 1]
    ensures shifted[j + 1..i + 1] == before[j..i]
  {
    forall k | 0 <= k < i - j ensures shifted[j + 1..i + 1][k] == before[j..i][k] {
      assert shifted[j + 1..i + 1][k] == shifted[j + 1 + k];
    }
  }

  /** One pass of the insertion sort: moves `a[i]` into the sorted prefix
      `a[..i]`, after every entry dated no later than it. */
  method InsertInPlace(a: array<BranchInfo>, i: nat)
    requires i < a.Length
    requires SortedByDate(a[..i])
    modifies a
    ensures a[..i + 1] == Insert(old(a[..i]), old(a[i]))
    ensures a[i + 1..] == old(a[i + 1..])
  {
    var x := a[i];
    ghost var sorted := a[..i];
    var j := ShiftLater(a, i, x);
    ghost var shifted := a[..];
    a[j] := x;
    assert a[..] == shifted[j := x];
    PlacedIsInsert(sorted, shifted, i, j, x);
  }

  /** The array after the shift, with `x` written into the gap, holds the
      sorted prefix with `x` inserted. */
  lemma PlacedIsInsert(sorted: seq<BranchInfo>, s: seq<BranchInfo>, i: nat, j: nat, x: BranchInfo)
    requires SortedByDate(sorted) && |sorted| == i < |s| && j <= i
    requires s[..j] == sorted[..j] && s[j + 1..i + 1] == sorted[j..]
    requires forall k :: j < k <= i ==> s[k].date > x.date
    requires j > 0 ==> s[j - 1].date <= x.date
    ensures s[j := x][..i + 1] == Insert(sorted, x)
  {
    var p, q := sorted[..j], sorted[j..];
    PrefixNotLater(sorted, j, x);
    SuffixLater(sorted, s, i, j, x);
    assert p + q == sorted;
    InsertBetween(p, q, x);
    PlacedSplit(s, i, j, x);
  }

  /** The entries moved up by the shift are the sorted entries from the gap on. */
  lemma SuffixLater(sorted: seq<BranchInfo>, s: seq<BranchInfo>, i: nat, j: nat, x: BranchInfo)
    requires |sorted| == i < |s| && j <= i
    requires s[j + 1..i + 1] == sorted[j..]
    requires forall k :: j < k <= i ==> s[k].date > x.date
    ensures forall k :: 0 <= k < |sorted[j..]| ==> sorted[j..][k].date > x.date
  {
    forall k | 0 <= k < |sorted[j..]| ensures sorted[j..][k].date > x.date {
      assert sorted[j..][k] == s[j + 1..i + 1][k] == s[j + 1 + k];
    }
  }

  /** In a sorted sequence, everything before an entry dated no later than `x` is too. */
  lemma PrefixNotLater(sorted: seq<BranchInfo>, j: nat, x: BranchInfo)
    requires SortedByDate(sorted) && j <= |sorted|
    requires j > 0 ==> sorted[j - 1].date <= x.date
    ensures forall k :: 0 <= k < |sorted[..j]| ==> sorted[..j][k].date <= x.date
  {
  }

  lemma PlacedSplit(s: seq<BranchInfo>, i: nat, j: nat, x: BranchInfo)
    requires j <= i < |s|
    ensures s[j := x][..i + 1] == s[..j] + [x] + s[j + 1..i + 1]
  {
    var r := s[..i + 1];
    assert s[j := x][..i + 1] == r[j := x];
    assert r[j := x] == r[..j] + [x] + r[j + 1..];
  }

  // --- Step 5: the --older-than threshold ---

  /** JavaScript truthiness of `options.olderThan`: present and not zero. */
  predicate ThresholdActive(olderThan: Option<int>) {
    olderThan.Some? && olderThan.value != 0
  }

  /** `now` moved back by `days` fixed-length days. */
  function Cutoff(now: int, days: int): int {
    now - days * Age.MsPerDay
  }

  /** The largest distance from the epoch, in milliseconds, that a `Date` can
      hold: ECMAScript's TimeClip turns any instant beyond it into NaN. */
  const MaxTimeValue: int := 8_640_000_000_000_000

  /** `cutoffDate` after `setDate(getDate() - days)`: the moved instant, or
      `None` for the Invalid Date that TimeClip gives beyond the range. */
  function CutoffDate(now: int, days: int): (r: Option<int>)
    ensures r.None? <==> Cutoff(now, days) < -MaxTimeValue || MaxTimeValue < Cutoff(now, days)
    ensures r.Some? ==> r.value == Cutoff(now, days)
  {
    var c := Cutoff(now, days);
    if -MaxTimeValue <= c <= MaxTimeValue then Some(c) else None
  }

  function OlderThan(cutoff: int): BranchInfo -> bool {
    (b: BranchInfo) => b.date < cutoff
  }

  function NotOlderThan(cutoff: int): BranchInfo -> bool {
    (b: BranchInfo) => b.date >= cutoff
  }

  /** `branchesWithInfo.filter(b => b.date < cutoffDate)`. */
  function KeepOlder(s: seq<BranchInfo>, cutoff: int): seq<BranchInfo> {
    Filter(s, OlderThan(cutoff))
  }

  /** The same filter against a cutoff that may be an Invalid Date: NaN
      compares false with every date, so then nothing is kept. */
  function KeepOlderThanDate(s: seq<BranchInfo>, cutoff: Option<int>): seq<BranchInfo> {
    match cutoff
    case None => []
    case Some(c) => KeepOlder(s, c)
  }

  /** The threshold keeps exactly the records dated strictly before the cutoff
      (one dated exactly at the cutoff is dropped), in their existing order, and
      the number it removes is the number dated at or after the cutoff. */
  lemma KeepOlderExact(s: seq<BranchInfo>, cutoff: int, b: BranchInfo)
    ensures b in KeepOlder(s, cutoff) <==> b in s && b.date < cutoff
    ensures IsSubsequence(KeepOlder(s, cutoff), s)
    ensures |s| - |KeepOlder(s, cutoff)| == |Filter(s, NotOlderThan(cutoff))|
  {
    FilterMembership(s, OlderThan(cutoff), b);
    FilterIsSubsequence(s, OlderThan(cutoff));
    FilterComplementCount(s, OlderThan(cutoff), NotOlderThan(cutoff));
  }

  /** Filtering a sorted sequence leaves it sorted. */
  lemma {:induction false} FilterKeepsSorted(s: seq<BranchInfo>, p: BranchInfo -> bool)
    requires SortedByDate(s)
    ensures SortedByDate(Filter(s, p))
  {
    if s != [] {
      FilterKeepsSorted(s[1..], p);
      var t := Filter(s[1..], p);
      forall k | 0 <= k < |t|
        ensures s[0].date <= t[k].date
      {
        assert t[k] in t;
      }
    }
  }

  // --- The whole selection ---

  /** Enrichment, sort and threshold applied to the eligible branches. */
  function Prepare(names: seq<string>, now: int, log: string -> LogResult, olderThan: Option<int>): seq<BranchInfo> {
    var sorted := SortByDate(Enrich(names, now, log));
    if ThresholdActive(olderThan) then KeepOlderThanDate(sorted, CutoffDate(now, olderThan.value)) else sorted
  }

  /** The records the pipeline presents: eligible, enriched, sorted oldest
      first and, when the threshold is active, strictly older than the cutoff. */
  function Candidates(opts: Options, current: string, merged: seq<string>,
                      now: int, log: string -> LogResult): seq<BranchInfo>
  {
    Prepare(Eligible(merged, ExcludeList(opts.exclude, current)), now, log, opts.olderThan)
  }

  /** Steps 3 to 5 as the source runs them: the records are mapped out of the
      eligible names, sorted in place, then replaced by those older than the
      cutoff; `filteredCount` is the count before minus the count after. */
  method PrepareBranches(names: seq<string>, now: int, log: string -> LogResult, olderThan: Option<int>)
    returns (branches: seq<BranchInfo>, filteredCount: nat)
    ensures branches == Prepare(names, now, log, olderThan)
    ensures filteredCount == |names| - |branches|
    ensures !ThresholdActive(olderThan) ==> filteredCount == 0
  {
    var info := Enrich(names, now, log);
    var a := new BranchInfo[|info|](i requires 0 <= i < |info| => info[i]);
    assert a[..] == info;
    SortInPlace(a);
    SortByDateKeepsMembers(info);
    branches := a[..];
    filteredCount := 0;
    if ThresholdActive(olderThan) {
      var cutoffDate := CutoffDate(now, olderThan.value);
      var originalCount := |branches|;
      branches := KeepOlderThanDate(branches, cutoffDate);
      filteredCount := originalCount - |branches|;
    }
  }

  function Names(s: seq<BranchInfo>): (r: seq<string>)
    ensures |r| == |s|
    ensures forall i :: 0 <= i < |s| ==> r[i] == s[i].name
  {
    seq(|s|, i requires 0 <= i < |s| => s[i].name)
  }

  /** What the presented list guarantees: it is sorted oldest first; every
      record names an eligible branch; with the threshold active every record
      is strictly older than the cutoff, and none is when the cutoff falls
      outside the `Date` range; without the threshold no branch is dropped. */
  lemma CandidatesProperties(opts: Options, current: string, merged: seq<string>,
                             now: int, log: string -> LogResult)
    ensures SortedByDate(Candidates(opts, current, merged, now, log))
    ensures forall b :: b in Candidates(opts, current, merged, now, log) ==>
              b.name in Eligible(merged, ExcludeList(opts.exclude, current))
    ensures ThresholdActive(opts.olderThan) ==>
              forall b :: b in Candidates(opts, current, merged, now, log) ==>
                b.date < Cutoff(now, opts.olderThan.value)
    ensures ThresholdActive(opts.olderThan) && CutoffDate(now, opts.olderThan.value).None? ==>
              Candidates(opts, current, merged, now, log) == []
    ensures !ThresholdActive(opts.olderThan) ==>
              |Candidates(opts, current, merged, now, log)| ==
              |Eligible(merged, ExcludeList(opts.exclude, current))|
  {
    var eligible := Eligible(merged, ExcludeList(opts.exclude, current));
    var enriched := Enrich(eligible, now, log);
    var sorted := SortByDate(enriched);
    SortByDateSorted(enriched);
    SortByDateKeepsMembers(enriched);
    if ThresholdActive(opts.olderThan) && CutoffDate(now, opts.olderThan.value).Some? {
      var cutoff := Cutoff(now, opts.olderThan.value);
      FilterKeepsSorted(sorted, OlderThan(cutoff));
      forall b | b in KeepOlder(sorted, cutoff)
        ensures b in enriched && b.date < cutoff
      {
        KeepOlderExact(sorted, cutoff, b);
      }
    }
    forall b | b in enriched
      ensures b.name in eligible
    {
      var i :| 0 <= i < |enriched| && enriched[i] == b;
    }
  }

  /** The sort keeps the length and the members of its input. */
  lemma SortByDateKeepsMembers(s: seq<BranchInfo>)
    ensures |SortByDate(s)| == |s|
    ensures forall b :: b in SortByDate(s) <==> b in s
  {
    SortByDatePermutes(s);
    assert |multiset(SortByDate(s))| == |multiset(s)|;
    forall b
      ensures b in SortByDate(s) <==> b in s
    {
      assert b in SortByDate(s) <==> b in multiset(SortByDate(s));
      assert b in s <==> b in multiset(s);
    }
  }

  /** A record aged exactly the threshold is dropped: the comparison with the
      cutoff is strict. */
  lemma ThresholdDropsExactAge(s: seq<BranchInfo>, now: int, days: int, b: BranchInfo)
    requires b in s && b.date == now - days * Age.MsPerDay
    ensures b !in KeepOlder(s, Cutoff(now, days))
  {
    KeepOlderExact(s, Cutoff(now, days), b);
  }

  /** A large negative threshold, which `parseInt` accepts and which is truthy,
      moves the cutoff beyond the `Date` range, so no branch is kept. */
  lemma FarCutoffIsInvalidDate(now: int, days: int)
    requires 0 < now <= MaxTimeValue
    requires days <= -100_000_000
    ensures CutoffDate(now, days).None?
  {
  }

  /** A threshold of up to 100000000 days, with a clock reading between the
      epoch and the end of the `Date` range, gives a valid cutoff `Date`. */
  lemma OrdinaryCutoffIsValid(now: int, days: int)
    requires 0 <= now <= MaxTimeValue
    requires 0 <= days <= 100_000_000
    ensures CutoffDate(now, days) == Some(Cutoff(now, days))
  {
  }

  /** For such a clock and a positive threshold, the selection keeps exactly
      the sorted records dated strictly before `now` moved back by `days` days. */
  lemma OrdinaryThresholdKeepsOlder(names: seq<string>, now: int, log: string -> LogResult, days: int)
    requires 0 <= now <= MaxTimeValue
    requires 0 < days <= 100_000_000
    ensures Prepare(names, now, log, Some(days)) ==
            KeepOlder(SortByDate(Enrich(names, now, log)), Cutoff(now, days))
  {
    OrdinaryCutoffIsValid(now, days);
  }

  /** The default `--exclude` value splits into its three names. */
  lemma DefaultExcludeSplit()
    ensures Split("main,master,develop", ',') == ["main", "master", "develop"]
  {
    SplitOfThree("main,master,develop", "main", "master", "develop", ',');
  }

  /** Three pieces free of the separator, joined by it, split back into those pieces. */
  lemma SplitOfThree(s: string, a: string, b: string, c: string, sep: char)
    requires s == a + [sep] + b + [sep] + c
    requires sep !in a && sep !in b && sep !in c
    ensures Split(s, sep) == [a, b, c]
  {
    var parts := [a, b, c];
    assert Join(parts, sep) == s by {
      assert Join(parts[2..], sep) == c;
      assert Join(parts[1..], sep) == b + [sep] + c;
    }
    SplitJoin(parts, sep);
  }

  /** An exclude value that splits like the default gives the three default
      names and the current branch. */
  lemma DefaultExcludeList(exclude: string, current: string)
    requires Split(exclude, ',') == ["main", "master", "develop"]
    ensures ExcludeList(exclude, current) == ["main", "master", "develop", current]
  {
    ExcludeListOfThree(exclude, current, "main", "master", "develop");
  }

  /** Three pieces without white space at their ends are kept as they are. */
  lemma ExcludeListOfThree(exclude: string, current: string, a: string, b: string, c: string)
    requires Split(exclude, ',') == [a, b, c]
    requires a != [] && !IsJsSpace(a[0]) && !IsJsSpace(a[|a| - 1])
    requires b != [] && !IsJsSpace(b[0]) && !IsJsSpace(b[|b| - 1])
    requires c != [] && !IsJsSpace(c[0]) && !IsJsSpace(c[|c| - 1])
    ensures ExcludeList(exclude, current) == [a, b, c, current]
  {
    TrimOfTrimmed(a);
    TrimOfTrimmed(b);
    TrimOfTrimmed(c);
    assert TrimAll([a, b, c]) == [a, b, c];
    assert [a, b, c] + [current] == [a, b, c, current];
  }

  /** A name in which the remote prefix does not occur and that neither
      starts nor ends with white space is compared as it is. */
  lemma NormalizePlainName(b: string)
    requires forall j: nat :: !OccursAt(b, RemotePrefix, j)
    requires b != [] ==> !IsJsSpace(b[0]) && !IsJsSpace(b[|b| - 1])
    ensures Normalize(b) == b
  {
    TrimOfTrimmed(b);
  }

  /** With the default exclude list and `main` checked out, `main` is dropped
      and the three feature branches survive in their order. */
  lemma ScenarioEligible(exclude: string)
    requires Split(exclude, ',') == ["main", "master", "develop"]
    ensures Eligible(["main", "feature-a", "feature-b", "old-hotfix"], ExcludeList(exclude, "main"))
            == ["feature-a", "feature-b", "old-hotfix"]
  {
    DefaultExcludeList(exclude, "main");
    ScenarioFilter(ExcludeList(exclude, "main"));
  }

  lemma ScenarioFilter(excludes: seq<string>)
    requires excludes == ["main", "master", "develop", "main"]
    ensures Eligible(["main", "feature-a", "feature-b", "old-hotfix"], excludes)
            == ["feature-a", "feature-b", "old-hotfix"]
  {
    assert !NotExcluded(excludes)("main") by { ShortPlainName("main"); }
    assert NotExcluded(excludes)("feature-a") by { PlainNameKept(excludes, "feature-a"); }
    assert NotExcluded(excludes)("feature-b") by { PlainNameKept(excludes, "feature-b"); }
    assert NotExcluded(excludes)("old-hotfix") by { PlainNameKept(excludes, "old-hotfix"); }
    FilterDropsFirst(NotExcluded(excludes), "main", "feature-a", "feature-b", "old-hotfix");
  }

  lemma PlainNameKept(excludes: seq<string>, b: string)
    requires |b| < |RemotePrefix| && b != [] && !IsJsSpace(b[0]) && !IsJsSpace(b[|b| - 1])
    requires b !in excludes
    ensures NotExcluded(excludes)(b)
  {
    ShortPlainName(b);
  }

  /** A name shorter than the remote prefix cannot contain it. */
  lemma ShortPlainName(b: string)
    requires |b| < |RemotePrefix| && b != [] && !IsJsSpace(b[0]) && !IsJsSpace(b[|b| - 1])
    ensures Normalize(b) == b
  {
    NormalizePlainName(b);
  }

  /** Three records dated in decreasing order sort into reverse order. */
  lemma SortDescendingThree(x: BranchInfo, y: BranchInfo, z: BranchInfo)
    requires z.date < y.date < x.date
    ensures SortByDate([x, y, z]) == [z, y, x]
  {
    assert [x, y, z][..2] == [x, y];
    assert [x, y][..1] == [x];
    assert SortByDate([x]) == [x];
    assert SortByDate([x, y]) == Insert([x], y) == [y, x];
    assert Insert([y, x], z) == [z, y, x];
  }

  /** Three eligible branches committed 5, 40 and 120 days before `now` and a
      30-day threshold: the oldest comes first, then the 40-day branch; the
      5-day branch is dropped. */
  lemma ThreeBranchesThirtyDays(young: string, middle: string, oldest: string,
                                now: int, log: string -> LogResult)
    requires log(young) == Latest(now - 5 * Age.MsPerDay)
    requires log(middle) == Latest(now - 40 * Age.MsPerDay)
    requires log(oldest) == Latest(now - 120 * Age.MsPerDay)
    requires 0 <= now <= MaxTimeValue
    ensures Names(Prepare([young, middle, oldest], now, log, Some(30))) == [oldest, middle]
  {
    assert CutoffDate(now, 30) == Some(Cutoff(now, 30));
    var e := Enrich([young, middle, oldest], now, log);
    SortThenKeepTwo(e, Cutoff(now, 30));
  }

  lemma SortThenKeepTwo(e: seq<BranchInfo>, cutoff: int)
    requires |e| == 3 && e[2].date < e[1].date < cutoff <= e[0].date
    ensures KeepOlder(SortByDate(e), cutoff) == [e[2], e[1]]
  {
    assert e == [e[0], e[1], e[2]];
    SortDescendingThree(e[0], e[1], e[2]);
    KeepFirstTwo(e[2], e[1], e[0], cutoff);
  }

  lemma KeepFirstTwo(x: BranchInfo, y: BranchInfo, z: BranchInfo, cutoff: int)
    requires x.date < cutoff && y.date < cutoff <= z.date
    ensures KeepOlder([x, y, z], cutoff) == [x, y]
  {
    assert [x, y, z] == [x, y] + [z];
    FilterConcat([x, y], [z], OlderThan(cutoff));
    FilterKeepsAll([x, y], OlderThan(cutoff));
    FilterKeepsNone([z], OlderThan(cutoff));
  }

  /** The whole selection on three merged branches besides the checked-out
      `main`, committed 5, 40 and 120 days before `now`, with the default
      exclude list (see DefaultExcludeSplit) and a 30-day threshold. */
  lemma ScenarioThirtyDays(exclude: string, now: int, log: string -> LogResult)
    requires Split(exclude, ',') == ["main", "master", "develop"]
    requires log("feature-a") == Latest(now - 5 * Age.MsPerDay)
    requires log("feature-b") == Latest(now - 40 * Age.MsPerDay)
    requires log("old-hotfix") == Latest(now - 120 * Age.MsPerDay)
    requires 0 <= now <= MaxTimeValue
    ensures Names(Candidates(Options(false, Some(30), exclude), "main",
                             ["main", "feature-a", "feature-b", "old-hotfix"], now, log))
            == ["old-hotfix", "feature-b"]
  {
    ScenarioEligible(exclude);
    ThreeBranchesThirtyDays("feature-a", "feature-b", "old-hotfix", now, log);
  }
}
