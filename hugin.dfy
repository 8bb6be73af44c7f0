/**
  Hugin, the Hugging Face cache scout: the size-unit choice of
  `get_size_str`, the ordering, filtering and totals of `ls`, and the target
  resolution and confirmation guard of `nuke`.
*/
module Hugin {
  import opened Wrappers
  import opened Text
  import opened Seqs

  /** One cached repository as `scan_cache_dir` reports it; a revision is its set of refs. */
  datatype Repo = Repo(repoId: string, repoType: string, sizeOnDisk: nat, revisions: seq<set<string>>, path: string)

  // ---------------------------------------------------------------------
  // get_size_str

  function Pow1024(k: nat): (r: nat)
    ensures r >= 1
  {
    if k == 0 then 1 else 1024 * Pow1024(k - 1)
  }

  /**
    The unit `get_size_str` prints: the value is divided by 1024 until it
    drops below 1024, at most four times. The running quotient is kept
    exactly, as `size` over `divisor`, and "quotient < 1024" is decided by
    `size < 1024 * divisor`. Python divides in floating point; dividing by a
    power of two is exact, and every size whose conversion to float could
    round (2^53 bytes and up) is a PB size on either reading, so the exact
    quotient makes the same choice.
  */
  method SizeUnit(size: int) returns (unit: string)
    ensures unit == "B" <==> size < Pow1024(1)
    ensures unit == "KB" <==> Pow1024(1) <= size < Pow1024(2)
    ensures unit == "MB" <==> Pow1024(2) <= size < Pow1024(3)
    ensures unit == "GB" <==> Pow1024(3) <= size < Pow1024(4)
    ensures unit == "TB" <==> Pow1024(4) <= size < Pow1024(5)
    ensures unit == "PB" <==> Pow1024(5) <= size
  {
    var units := ["B", "KB", "MB", "GB", "TB"];
    var divisor: nat := 1;
    var i := 0;
    while i < |units|
      invariant 0 <= i <= |units|
      invariant divisor == Pow1024(i)
      invariant i > 0 ==> Pow1024(i) <= size
    {
      if size < 1024 * divisor {
        unit := units[i];
        return;
      }
      divisor := 1024 * divisor;
      i := i + 1;
    }
    unit := "PB";
  }

  // ---------------------------------------------------------------------
  // ls

  /** `repos.sort(key=size_on_disk, reverse=True)`: larger first; Python's reversed sort stays stable. */
  predicate BySizeDesc(a: Repo, b: Repo) {
    a.sizeOnDisk >= b.sizeOnDisk
  }

  /** `repos.sort(key=repo_id)`: code-point order of the ids. */
  predicate ById(a: Repo, b: Repo) {
    StrLe(a.repoId, b.repoId)
  }

  lemma BySizeDescIsPreorder()
    ensures TotalPreorder(BySizeDesc)
  {
  }

  lemma ByIdIsPreorder()
    ensures TotalPreorder(ById)
  {
    StrLeIsPreorder();
  }

  /** The listing order: by size, largest first, for "size"; by repo id for any other value. */
  function Ordered(repos: seq<Repo>, sortBy: string): (r: seq<Repo>)
    ensures multiset(r) == multiset(repos)
    ensures sortBy == "size" ==> forall i, j | 0 <= i < j < |r| :: r[i].sizeOnDisk >= r[j].sizeOnDisk
    ensures sortBy != "size" ==> forall i, j | 0 <= i < j < |r| :: StrLe(r[i].repoId, r[j].repoId)
  {
    if sortBy == "size" then
      BySizeDescIsPreorder();
      SortPermutes(repos, BySizeDesc);
      SortSorted(repos, BySizeDesc);
      InsertionSort(repos, BySizeDesc)
    else
      ByIdIsPreorder();
      SortPermutes(repos, ById);
      SortSorted(repos, ById);
      InsertionSort(repos, ById)
  }

  /** `not (filter_str and filter_str.lower() not in repo_id.lower())`, with ASCII case folding. */
  predicate Matches(filter: Option<string>, repo: Repo) {
    filter.None? || filter.value == "" || Contains(Lower(repo.repoId), Lower(filter.value))
  }

  /** The repos the loop does not skip, in listing order. */
  function Shown(repos: seq<Repo>, filter: Option<string>): (r: seq<Repo>)
    ensures |r| <= |repos|
    ensures forall x :: x in r <==> x in repos && Matches(filter, x)
    decreases |repos|
  {
    if repos == [] then []
    else
      var init := repos[..|repos| - 1];
      var last := repos[|repos| - 1];
      assert forall x :: x in repos <==> x in init || x == last;
      Shown(init, filter) + (if Matches(filter, last) then [last] else [])
  }

  /** The loop's skipping is the comprehension `[r for r in repos if matches]`. */
  lemma {:induction false} ShownIsFilter(repos: seq<Repo>, filter: Option<string>)
    ensures Shown(repos, filter) == Filter(repos, x => Matches(filter, x))
    decreases |repos|
  {
    if repos != [] {
      ShownIsFilter(repos[..|repos| - 1], filter);
      FilterStep(repos, x => Matches(filter, x));
    }
  }

  /** Filtering keeps the listing: its order, and each shown repo as often as it is listed. */
  lemma ShownKeepsListing(repos: seq<Repo>, filter: Option<string>)
    ensures SubsequenceOf(Shown(repos, filter), repos)
    ensures forall x :: multiset(Shown(repos, filter))[x] == if Matches(filter, x) then multiset(repos)[x] else 0
  {
    ShownIsFilter(repos, filter);
  }

  function TotalSize(repos: seq<Repo>): nat
    decreases |repos|
  {
    if repos == [] then 0 else TotalSize(repos[..|repos| - 1]) + repos[|repos| - 1].sizeOnDisk
  }

  /** Without a filter every repo of the listing is shown. */
  lemma {:induction false} ShownUnfiltered(repos: seq<Repo>)
    ensures Shown(repos, None) == repos
    decreases |repos|
  {
    if repos != [] {
      var init := repos[..|repos| - 1];
      var last := repos[|repos| - 1];
      ShownUnfiltered(init);
      assert Matches(None, last);
      assert Shown(repos, None) == init + [last];
      assert init + [last] == repos;
    }
  }

  /** The total of the shown rows never exceeds the total of the listing. */
  lemma {:induction false} ShownTotalAtMost(repos: seq<Repo>, filter: Option<string>)
    ensures TotalSize(Shown(repos, filter)) <= TotalSize(repos)
    decreases |repos|
  {
    if repos != [] {
      var init := repos[..|repos| - 1];
      var last := repos[|repos| - 1];
      ShownTotalAtMost(init, filter);
      var before := Shown(init, filter);
      if Matches(filter, last) {
        assert (before + [last])[..|before|] == before;
      } else {
        assert before + [] == before;
      }
    }
  }

  /** The union of the refs of all revisions. */
  function AllRefs(revisions: seq<set<string>>): (r: set<string>)
    ensures forall ref :: ref in r <==> exists i | 0 <= i < |revisions| :: ref in revisions[i]
    decreases |revisions|
  {
    if revisions == [] then {}
    else
      var init := revisions[..|revisions| - 1];
      assert forall i | 0 <= i < |init| :: init[i] == revisions[i];
      AllRefs(init) + revisions[|revisions| - 1]
  }

  /** The REFS cell: the refs (printed `", "`-joined, in set order) or "detached". */
  datatype RefsCell = Refs(refs: set<string>) | Detached

  /** The inner loop: `refs.update(revision.refs)` for each revision. */
  method CollectRefs(revisions: seq<set<string>>) returns (cell: RefsCell)
    ensures cell.Detached? <==> forall i | 0 <= i < |revisions| :: revisions[i] == {}
    ensures cell.Refs? ==> cell.refs == AllRefs(revisions) && cell.refs != {}
  {
    var refs: set<string> := {};
    for i := 0 to |revisions|
      invariant refs == AllRefs(revisions[..i])
    {
      assert revisions[..i + 1][..i] == revisions[..i];
      refs := refs + revisions[i];
    }
    assert revisions[..|revisions|] == revisions;
    if refs == {} {
      forall i | 0 <= i < |revisions| ensures revisions[i] == {} {
        assert forall ref | ref in revisions[i] :: ref in refs;
      }
      cell := Detached;
    } else {
      cell := Refs(refs);
    }
  }

  datatype Row = Row(repo: Repo, refs: RefsCell)

  function RefsOf(repo: Repo): RefsCell {
    var refs := AllRefs(repo.revisions);
    if refs == {} then Detached else Refs(refs)
  }

  function RowsOf(shown: seq<Repo>): (rows: seq<Row>)
    ensures |rows| == |shown| && forall i | 0 <= i < |rows| :: rows[i] == Row(shown[i], RefsOf(shown[i]))
  {
    seq(|shown|, i requires 0 <= i < |shown| => Row(shown[i], RefsOf(shown[i])))
  }

  /** One more repo of the listing: shown or skipped, and counted in the total only when shown. */
  lemma {:induction false} ShownStep(listing: seq<Repo>, i: nat, filter: Option<string>)
    requires i < |listing|
    ensures Shown(listing[..i + 1], filter) == Shown(listing[..i], filter) + (if Matches(filter, listing[i]) then [listing[i]] else [])
    ensures TotalSize(Shown(listing[..i + 1], filter)) ==
      TotalSize(Shown(listing[..i], filter)) + (if Matches(filter, listing[i]) then listing[i].sizeOnDisk else 0)
  {
    var prefix := listing[..i + 1];
    assert prefix[..|prefix| - 1] == listing[..i] && prefix[|prefix| - 1] == listing[i];
    var before := Shown(listing[..i], filter);
    if Matches(filter, listing[i]) {
      assert Shown(prefix, filter) == before + [listing[i]];
      assert (before + [listing[i]])[..|before|] == before;
      assert TotalSize(before + [listing[i]]) == TotalSize(before) + listing[i].sizeOnDisk;
    } else {
      assert Shown(prefix, filter) == before + [];
      assert before + [] == before;
    }
  }

  lemma {:induction false} RowsOfAppend(shown: seq<Repo>, repo: Repo)
    ensures RowsOf(shown + [repo]) == RowsOf(shown) + [Row(repo, RefsOf(repo))]
  {
  }

  /** The loop of `ls` over the sorted listing: skip, collect the refs, add a row, count and sum. */
  method Tabulate(listing: seq<Repo>, filter: Option<string>) returns (rows: seq<Row>, count: nat, totalSize: nat)
    ensures rows == RowsOf(Shown(listing, filter))
    ensures count == |rows|
    ensures totalSize == TotalSize(Shown(listing, filter))
  {
    rows, count, totalSize := [], 0, 0;
    for i := 0 to |listing|
      invariant count == |rows| && rows == RowsOf(Shown(listing[..i], filter))
      invariant totalSize == TotalSize(Shown(listing[..i], filter))
    {
      ShownStep(listing, i, filter);
      var repo := listing[i];
      if !Matches(filter, repo) {
        continue;
      }
      var cell := CollectRefs(repo.revisions);
      assert cell == RefsOf(repo);
      RowsOfAppend(Shown(listing[..i], filter), repo);
      rows := rows + [Row(repo, cell)];
      totalSize := totalSize + repo.sizeOnDisk;
      count := count + 1;
    }
    assert listing[..|listing|] == listing;
  }

  /** `ls`: the rows in listing order, their number and the sum of their sizes. */
  method ListCache(repos: seq<Repo>, sortBy: string, filter: Option<string>)
    returns (rows: seq<Row>, count: nat, totalSize: nat)
    ensures rows == RowsOf(Shown(Ordered(repos, sortBy), filter))
    ensures count == |rows|
    ensures totalSize == TotalSize(Shown(Ordered(repos, sortBy), filter))
  {
    rows, count, totalSize := Tabulate(Ordered(repos, sortBy), filter);
  }

  // ---------------------------------------------------------------------
  // nuke

  /** `next(r for r in repos if r.repo_id == target)`, as an index. */
  function FirstExact(repos: seq<Repo>, target: string): (r: Option<nat>)
    ensures r.Some? ==> r.value < |repos| && repos[r.value].repoId == target
    ensures r.Some? ==> forall j | 0 <= j < r.value :: repos[j].repoId != target
    ensures r.None? ==> forall j | 0 <= j < |repos| :: repos[j].repoId != target
    decreases |repos|
  {
    if repos == [] then None
    else if repos[0].repoId == target then Some(0)
    else match FirstExact(repos[1..], target)
      case None => None
      case Some(k) => Some(k + 1)
  }

  /** Case-insensitive substring match on the repo id. */
  predicate Fuzzy(target: string, repo: Repo) {
    Contains(Lower(repo.repoId), Lower(target))
  }

  /** The fuzzy candidates, in cache order. */
  function Candidates(repos: seq<Repo>, target: string): (r: seq<Repo>)
    ensures forall x :: x in r <==> x in repos && Fuzzy(target, x)
    ensures forall x :: multiset(r)[x] == if Fuzzy(target, x) then multiset(repos)[x] else 0
    ensures SubsequenceOf(r, repos)
  {
    Filter(repos, x => Fuzzy(target, x))
  }

  datatype Resolution = Resolved(repo: Repo) | Ambiguous(matches: seq<Repo>) | NotFound

  /**
    The target of `nuke`: the first exact id match; failing that the single
    fuzzy candidate; several candidates are ambiguous and none is not found.
  */
  function Resolve(repos: seq<Repo>, target: string): (r: Resolution)
    ensures FirstExact(repos, target).Some? ==> r == Resolved(repos[FirstExact(repos, target).value])
    ensures FirstExact(repos, target).None? ==>
      && (|Candidates(repos, target)| == 1 <==> r.Resolved?)
      && (r.Resolved? ==> r.repo == Candidates(repos, target)[0])
      && (|Candidates(repos, target)| > 1 <==> r.Ambiguous?)
      && (r.Ambiguous? ==> r.matches == Candidates(repos, target))
    ensures r.NotFound? <==> forall x | x in repos :: !Fuzzy(target, x)
    ensures r.Resolved? ==> r.repo in repos
  {
    match FirstExact(repos, target)
    case Some(k) =>
      ContainsSelf(Lower(target));
      assert repos[k] in Candidates(repos, target);
      Resolved(repos[k])
    case None =>
      var c := Candidates(repos, target);
      if |c| == 1 then
        assert c[0] in c;
        Resolved(c[0])
      else if |c| > 1 then
        assert c[0] in c;
        Ambiguous(c)
      else
        assert c == [];
        NotFound
  }

  /**
    The cache lists each repo once. With no exact match, a target that
    exactly one repo's id contains resolves to that repo.
  */
  lemma SingleMatchResolves(repos: seq<Repo>, target: string, i: nat)
    requires forall a, b | 0 <= a < b < |repos| :: repos[a] != repos[b]
    requires FirstExact(repos, target).None?
    requires i < |repos| && Fuzzy(target, repos[i])
    requires forall j | 0 <= j < |repos| && j != i :: !Fuzzy(target, repos[j])
    ensures Resolve(repos, target) == Resolved(repos[i])
  {
    var c := Candidates(repos, target);
    forall x ensures multiset(c)[x] == multiset{repos[i]}[x] {
      DistinctCounts(repos, x);
      if x != repos[i] && x in repos {
        var j :| 0 <= j < |repos| && repos[j] == x;
      }
    }
    assert multiset(c) == multiset{repos[i]};
    assert |c| == 1;
    assert c[0] in multiset(c);
  }

  datatype NukeOutcome =
    | NoTarget(resolution: Resolution)
    | Aborted(repo: Repo)
    | Deleted(repo: Repo)
    | DeleteFailed(repo: Repo)

  /**
    `nuke`: `confirmed` is the answer to the prompt (asked only without
    `--force`), `removed` whether `shutil.rmtree` succeeded.
  */
  function Nuke(repos: seq<Repo>, target: string, force: bool, confirmed: bool, removed: bool): (r: NukeOutcome)
    ensures r.NoTarget? <==> !Resolve(repos, target).Resolved?
    ensures r.NoTarget? ==> r.resolution == Resolve(repos, target)
    ensures (r.Deleted? || r.DeleteFailed?) <==> Resolve(repos, target).Resolved? && (force || confirmed)
    ensures r.Aborted? <==> Resolve(repos, target).Resolved? && !force && !confirmed
    ensures !r.NoTarget? ==> r.repo == Resolve(repos, target).repo
    ensures r.Deleted? ==> removed
    ensures r.DeleteFailed? ==> !removed
  {
    match Resolve(repos, target)
    case Resolved(repo) =>
      if !force && !confirmed then Aborted(repo)
      else if removed then Deleted(repo)
      else DeleteFailed(repo)
    case other => NoTarget(other)
  }
}
