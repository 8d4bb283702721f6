/** The combined audit timeline, page by page (app/modules/audit/routes.py). */
module AuditLog {
  import opened Wrappers
  import opened Sequences

  const PAGE_SIZE := 50

  datatype Kind = Diagnostic | Action | Discovery | Change

  /** A stored row, as far as paging looks at it; `when` is `started_at`, or `created_at` of a change. */
  datatype Row = Row(kind: Kind, id: nat, when: int)

  type Log = set<Row>

  function Shown(wanted: bool, kind: Kind, kinds: set<Kind>): set<Kind> {
    if wanted then kinds + {kind} else kinds
  }

  function KindsShown(filter: string): set<Kind> {
    Shown(filter in {"", "change"}, Change,
          Shown(filter in {"", "discovery"}, Discovery,
                Shown(filter in {"", "action"}, Action,
                      Shown(filter in {"", "diagnostic"}, Diagnostic, {}))))
  }

  predicate Before(row: Row, cursor: Option<int>) {
    cursor.Some? ==> row.when < cursor.value
  }

  function Eligible(log: Log, kinds: set<Kind>, cursor: Option<int>): set<Row> {
    set r | r in log && r.kind in kinds && Before(r, cursor)
  }

  function Age(row: Row): int {
    -row.when
  }

  predicate NewestFirst(rows: seq<Row>) {
    SortedBy(rows, Age)
  }

  function LastWhen(rows: seq<Row>): int {
    if rows == [] then 0 else rows[|rows| - 1].when
  }

  /** The `limit` newest of `all`, newest first, ties in any order. */
  ghost predicate TopOf(rows: seq<Row>, all: set<Row>, limit: nat) {
    && NoDuplicates(rows) && NewestFirst(rows) && Elements(rows) <= all
    && |rows| == (if |all| < limit then |all| else limit)
    && forall r :: r in all && r !in rows ==> r.when <= LastWhen(rows)
  }

  lemma LastIsOldest(rows: seq<Row>)
    requires NewestFirst(rows)
    ensures forall r :: r in rows ==> LastWhen(rows) <= r.when
  {
    forall r | r in rows ensures LastWhen(rows) <= r.when {
      var i :| 0 <= i < |rows| && rows[i] == r;
      assert i < |rows| - 1 ==> Age(rows[i]) <= Age(rows[|rows| - 1]);
    }
  }

  // ---------------------------------------------------------------- one page

  function NoOlder(rows: seq<Row>, when: int): set<Row> {
    set s | s in rows && s.when >= when
  }

  /** Gathered from the sources `kinds`: a row left out has a page and one more that are no older. */
  ghost predicate Gathered(entries: seq<Row>, log: Log, kinds: set<Kind>, cursor: Option<int>) {
    && NoDuplicates(entries)
    && Elements(entries) <= Eligible(log, kinds, cursor)
    && forall r :: r in Eligible(log, kinds, cursor) && r !in entries ==> |NoOlder(entries, r.when)| > PAGE_SIZE
  }

  lemma AppendDistinct<T>(a: seq<T>, b: seq<T>)
    requires NoDuplicates(a) && NoDuplicates(b) && forall x :: x in b ==> x !in a
    ensures NoDuplicates(a + b)
  {
    var s := a + b;
    forall i, j | 0 <= i < j < |s| ensures s[i] != s[j] {
      if i < |a| <= j {
        assert s[j] == b[j - |a|] && s[j] in b;
      }
    }
  }

  lemma SubsetCount<T>(a: set<T>, b: set<T>)
    requires a <= b
    ensures |a| <= |b|
  {
    if a != {} {
      var x :| x in a;
      SubsetCount(a - {x}, b - {x});
    }
  }

  /** A query that left a row out is full of rows no older. */
  lemma LeftOut(rows: seq<Row>, all: set<Row>, limit: nat, r: Row)
    requires TopOf(rows, all, limit) && r in all && r !in rows
    ensures NoOlder(rows, r.when) == Elements(rows) && |Elements(rows)| == limit
  {
    LastIsOldest(rows);
    DistinctLength(rows);
    SubsetCount(Elements(rows) + {r}, all);
  }

  lemma GatherOneMore(entries: seq<Row>, query: seq<Row>, kind: Kind, log: Log, kinds: set<Kind>, cursor: Option<int>)
    requires Gathered(entries, log, kinds, cursor) && kind !in kinds
    requires TopOf(query, Eligible(log, {kind}, cursor), PAGE_SIZE + 1)
    ensures Gathered(entries + query, log, kinds + {kind}, cursor)
  {
    var all := entries + query;
    assert forall x :: x in entries ==> x in Elements(entries);
    assert forall x :: x in query ==> x in Elements(query);
    AppendDistinct(entries, query);
    forall r | r in Eligible(log, kinds + {kind}, cursor) && r !in all ensures |NoOlder(all, r.when)| > PAGE_SIZE {
      if r.kind == kind {
        LeftOut(query, Eligible(log, {kind}, cursor), PAGE_SIZE + 1, r);
        SubsetCount(NoOlder(query, r.when), NoOlder(all, r.when));
      } else {
        SubsetCount(NoOlder(entries, r.when), NoOlder(all, r.when));
      }
    }
    forall x | x in Elements(all) ensures x in Eligible(log, kinds + {kind}, cursor) {
      assert x in Elements(entries) || x in Elements(query);
    }
  }

  /** What is beyond the first page of a sorted list is no newer than its last row. */
  lemma BeyondPage(sorted: seq<Row>, n: nat, r: Row)
    requires 0 < n <= |sorted| && NewestFirst(sorted) && r in sorted && r !in sorted[..n]
    ensures r.when <= LastWhen(sorted[..n])
  {
    var i :| 0 <= i < |sorted| && sorted[i] == r;
    assert forall j :: 0 <= j < n ==> sorted[..n][j] == sorted[j];
    assert Age(sorted[n - 1]) <= Age(sorted[i]);
  }

  /** So is anything with more than a page of rows no older. */
  lemma CountedBeyond(sorted: seq<Row>, n: nat, when: int)
    requires 0 < n <= |sorted| && NewestFirst(sorted) && |NoOlder(sorted, when)| > n
    ensures when <= LastWhen(sorted[..n])
  {
    var page := sorted[..n];
    ElementsCount(page);
    if forall s :: s in NoOlder(sorted, when) ==> s in page {
      SubsetCount(NoOlder(sorted, when), Elements(page));
      assert false;
    }
    var s :| s in NoOlder(sorted, when) && s !in page;
    BeyondPage(sorted, n, s);
  }

  lemma {:induction false} ElementsCount<T(!new)>(s: seq<T>)
    ensures |Elements(s)| <= |s|
  {
    if s == [] {
      assert Elements(s) == {};
    } else {
      ElementsCount(s[..|s| - 1]);
      assert Elements(s) == Elements(s[..|s| - 1]) + {s[|s| - 1]};
    }
  }

  function FirstPage(sorted: seq<Row>): seq<Row> {
    if |sorted| > PAGE_SIZE then sorted[..PAGE_SIZE] else sorted
  }

  lemma NothingLeftOut(entries: seq<Row>, all: set<Row>)
    requires |entries| <= PAGE_SIZE && Elements(entries) <= all
    requires forall r :: r in all && r !in entries ==> |NoOlder(entries, r.when)| > PAGE_SIZE
    ensures Elements(entries) == all
  {
    ElementsCount(entries);
    forall r | r in all ensures r in entries {
      if r !in entries {
        SubsetCount(NoOlder(entries, r.when), Elements(entries));
      }
    }
  }

  lemma FullPageIsTop(entries: seq<Row>, sorted: seq<Row>, all: set<Row>)
    requires |sorted| > PAGE_SIZE && NewestFirst(sorted) && Elements(sorted) == Elements(entries)
    requires forall r :: r in all && r !in entries ==> |NoOlder(entries, r.when)| > PAGE_SIZE
    ensures forall r :: r in all && r !in sorted[..PAGE_SIZE] ==> r.when <= LastWhen(sorted[..PAGE_SIZE])
  {
    forall r | r in all && r !in sorted[..PAGE_SIZE] ensures r.when <= LastWhen(sorted[..PAGE_SIZE]) {
      if r in Elements(entries) {
        BeyondPage(sorted, PAGE_SIZE, r);
      } else {
        assert forall s :: s in sorted <==> s in Elements(sorted);
        assert NoOlder(sorted, r.when) == NoOlder(entries, r.when);
        CountedBeyond(sorted, PAGE_SIZE, r.when);
      }
    }
  }

  /** The first page of what was gathered and sorted is the first page of everything. */
  lemma PageOfGathered(entries: seq<Row>, log: Log, kinds: set<Kind>, cursor: Option<int>)
    requires Gathered(entries, log, kinds, cursor)
    ensures |entries| > PAGE_SIZE <==> |Eligible(log, kinds, cursor)| > PAGE_SIZE
    ensures TopOf(FirstPage(SortBy(entries, Age)), Eligible(log, kinds, cursor), PAGE_SIZE)
  {
    var all, sorted := Eligible(log, kinds, cursor), SortBy(entries, Age);
    SortByArranges(entries, Age);
    SortKeepsDistinct(entries, Age);
    DistinctLength(entries);
    SubsetCount(Elements(entries), all);
    assert Elements(sorted) == Elements(entries);
    if |entries| <= PAGE_SIZE {
      NothingLeftOut(entries, all);
    } else {
      FullPageIsTop(entries, sorted, all);
      assert Elements(FirstPage(sorted)) <= Elements(sorted);
    }
  }

  /** One of the four sources, when the filter wants it. */
  method Gather(entries: seq<Row>, query: seq<Row>, wanted: bool, kind: Kind, ghost log: Log, ghost kinds: set<Kind>, ghost cursor: Option<int>)
    returns (more: seq<Row>)
    requires Gathered(entries, log, kinds, cursor) && kind !in kinds
    requires TopOf(query, Eligible(log, {kind}, cursor), PAGE_SIZE + 1)
    ensures Gathered(more, log, Shown(wanted, kind, kinds), cursor)
  {
    more := entries;
    if wanted {
      GatherOneMore(entries, query, kind, log, kinds, cursor);
      more := more + query;
    }
  }

  /** The entries of the sources the filter asks for, before sorting. */
  method GatherAll(ghost log: Log, filter: string, ghost cursor: Option<int>,
                   diagnostics: seq<Row>, actions: seq<Row>, runs: seq<Row>, changes: seq<Row>)
    returns (entries: seq<Row>)
    requires TopOf(diagnostics, Eligible(log, {Diagnostic}, cursor), PAGE_SIZE + 1)
    requires TopOf(actions, Eligible(log, {Action}, cursor), PAGE_SIZE + 1)
    requires TopOf(runs, Eligible(log, {Discovery}, cursor), PAGE_SIZE + 1)
    requires TopOf(changes, Eligible(log, {Change}, cursor), PAGE_SIZE + 1)
    ensures Gathered(entries, log, KindsShown(filter), cursor)
  {
    ghost var one := Shown(filter in {"", "diagnostic"}, Diagnostic, {});
    ghost var two := Shown(filter in {"", "action"}, Action, one);
    ghost var three := Shown(filter in {"", "discovery"}, Discovery, two);
    entries := Gather([], diagnostics, filter in {"", "diagnostic"}, Diagnostic, log, {}, cursor);
    entries := Gather(entries, actions, filter in {"", "action"}, Action, log, one, cursor);
    entries := Gather(entries, runs, filter in {"", "discovery"}, Discovery, log, two, cursor);
    entries := Gather(entries, changes, filter in {"", "change"}, Change, log, three, cursor);
  }

  /** The filter's word for each source; no word asks for all four. */
  predicate Wants(filter: string, kind: Kind) {
    || filter == ""
    || match kind {
         case Diagnostic => filter == "diagnostic"
         case Action => filter == "action"
         case Discovery => filter == "discovery"
         case Change => filter == "change"
       }
  }

  function Matching(log: Log, filter: string, cursor: Option<int>): set<Row> {
    set r | r in log && Wants(filter, r.kind) && (cursor.Some? ==> r.when < cursor.value)
  }

  /** The fifty newest of `all`, newest first, or all of them when they are fewer. */
  ghost predicate NewestFifty(page: seq<Row>, all: set<Row>) {
    && (forall r :: r in page ==> r in all)
    && (forall i, j :: 0 <= i < j < |page| ==> page[i] != page[j] && page[i].when >= page[j].when)
    && |page| == (if |all| < 50 then |all| else 50)
    && forall r, s :: r in all && r !in page && s in page ==> r.when <= s.when
  }

  lemma ShownIff(filter: string, kind: Kind)
    ensures kind in KindsShown(filter) <==> Wants(filter, kind)
  {
    match kind {
      case Diagnostic =>
      case Action =>
      case Discovery =>
      case Change =>
    }
  }

  lemma MatchingIsEligible(log: Log, filter: string, cursor: Option<int>)
    ensures Eligible(log, KindsShown(filter), cursor) == Matching(log, filter, cursor)
  {
    forall r | r in log ensures r.kind in KindsShown(filter) <==> Wants(filter, r.kind) {
      ShownIff(filter, r.kind);
    }
  }

  lemma TopIsNewest(page: seq<Row>, all: set<Row>)
    requires TopOf(page, all, PAGE_SIZE)
    ensures NewestFifty(page, all)
  {
    LastIsOldest(page);
    assert forall r :: r in page ==> r in Elements(page);
    assert forall i, j :: 0 <= i < j < |page| ==> Age(page[i]) <= Age(page[j]);
  }

  /**
   * `audit_log`, from the four queries it makes: the page is the newest fifty of all the rows
   * asked for, and more are offered exactly when there are more.
   */
  method AuditPage(ghost log: Log, filter: string, ghost cursor: Option<int>,
                   diagnostics: seq<Row>, actions: seq<Row>, runs: seq<Row>, changes: seq<Row>)
    returns (page: seq<Row>, hasMore: bool, nextCursor: Option<int>)
    requires TopOf(diagnostics, Eligible(log, {Diagnostic}, cursor), PAGE_SIZE + 1)
    requires TopOf(actions, Eligible(log, {Action}, cursor), PAGE_SIZE + 1)
    requires TopOf(runs, Eligible(log, {Discovery}, cursor), PAGE_SIZE + 1)
    requires TopOf(changes, Eligible(log, {Change}, cursor), PAGE_SIZE + 1)
    ensures TopOf(page, Eligible(log, KindsShown(filter), cursor), PAGE_SIZE)
    ensures hasMore <==> |Eligible(log, KindsShown(filter), cursor)| > PAGE_SIZE
    ensures nextCursor == if hasMore then Some(page[PAGE_SIZE - 1].when) else None
    ensures NewestFifty(page, Matching(log, filter, cursor)) && (hasMore <==> |Matching(log, filter, cursor)| > 50)
  {
    var entries := GatherAll(log, filter, cursor, diagnostics, actions, runs, changes);
    page, hasMore, nextCursor := FirstOf(entries, log, KindsShown(filter), cursor);
    MatchingIsEligible(log, filter, cursor);
    TopIsNewest(page, Eligible(log, KindsShown(filter), cursor));
  }

  method FirstOf(entries: seq<Row>, ghost log: Log, ghost kinds: set<Kind>, ghost cursor: Option<int>)
    returns (page: seq<Row>, hasMore: bool, nextCursor: Option<int>)
    requires Gathered(entries, log, kinds, cursor)
    ensures TopOf(page, Eligible(log, kinds, cursor), PAGE_SIZE)
    ensures hasMore <==> |Eligible(log, kinds, cursor)| > PAGE_SIZE
    ensures nextCursor == if hasMore then Some(page[PAGE_SIZE - 1].when) else None
  {
    PageOfGathered(entries, log, kinds, cursor);
    SortByArranges(entries, Age);
    page := FirstPage(SortBy(entries, Age));
    hasMore := |entries| > PAGE_SIZE;
    nextCursor := if page != [] && hasMore then Some(page[|page| - 1].when) else None;
  }

  // ---------------------------------------------------------------- walking the pages

  /** One request: the rows stored when it was served, and the page it got. */
  datatype Visit = Visit(log: Log, page: seq<Row>)

  function CursorAt(walk: seq<Visit>, i: nat): Option<int>
    requires i <= |walk|
  {
    if i == 0 then None else Some(LastWhen(walk[i - 1].page))
  }

  function Asked(walk: seq<Visit>, kinds: set<Kind>, i: nat): set<Row>
    requires i < |walk|
  {
    Eligible(walk[i].log, kinds, CursorAt(walk, i))
  }

  /** Request `i` was answered with its page, and offered more if another follows. */
  ghost predicate Answered(walk: seq<Visit>, kinds: set<Kind>, i: nat)
    requires i < |walk|
  {
    TopOf(walk[i].page, Asked(walk, kinds, i), PAGE_SIZE) && (i < |walk| - 1 ==> |Asked(walk, kinds, i)| > PAGE_SIZE)
  }

  /** Each request but the first follows the cursor of the one before. The log may change in between. */
  ghost predicate IsWalk(walk: seq<Visit>, kinds: set<Kind>) {
    forall i :: 0 <= i < |walk| ==> Answered(walk, kinds, i)
  }

  ghost predicate Finished(walk: seq<Visit>, kinds: set<Kind>) {
    IsWalk(walk, kinds) && walk != [] && |Asked(walk, kinds, |walk| - 1)| <= PAGE_SIZE
  }

  /** What an answer says of its page. */
  lemma PageFacts(walk: seq<Visit>, kinds: set<Kind>, i: nat)
    requires i < |walk| && Answered(walk, kinds, i)
    ensures forall r :: r in walk[i].page ==> r in Asked(walk, kinds, i) && LastWhen(walk[i].page) <= r.when
    ensures i < |walk| - 1 ==> |walk[i].page| == PAGE_SIZE
    ensures forall r :: r in Asked(walk, kinds, i) && r !in walk[i].page ==>
      r.when <= LastWhen(walk[i].page) && |Asked(walk, kinds, i)| > PAGE_SIZE
  {
    var page, all := walk[i].page, Asked(walk, kinds, i);
    LastIsOldest(page);
    assert forall r :: r in page ==> r in Elements(page);
    forall r | r in all && r !in page ensures |all| > PAGE_SIZE {
      DistinctLength(page);
      SubsetCount(Elements(page) + {r}, all);
    }
  }

  /** The last row of a page that has another after it. */
  lemma BoundaryRow(walk: seq<Visit>, kinds: set<Kind>, i: nat) returns (last: Row)
    requires i < |walk| - 1 && Answered(walk, kinds, i)
    ensures last in walk[i].page && last in Asked(walk, kinds, i) && last.when == LastWhen(walk[i].page)
  {
    PageFacts(walk, kinds, i);
    last := walk[i].page[PAGE_SIZE - 1];
  }

  function AllRows(walk: seq<Visit>): seq<Row> {
    if walk == [] then [] else AllRows(walk[..|walk| - 1]) + walk[|walk| - 1].page
  }

  lemma WalkPrefix(walk: seq<Visit>, kinds: set<Kind>, n: nat)
    requires IsWalk(walk, kinds) && n <= |walk|
    ensures IsWalk(walk[..n], kinds)
  {
    var first := walk[..n];
    forall i | 0 <= i < n ensures Answered(first, kinds, i) {
      assert CursorAt(first, i) == CursorAt(walk, i) && first[i] == walk[i];
      assert Answered(walk, kinds, i);
    }
  }

  /** Every page is strictly older than every page before it, whatever is stored meanwhile. */
  lemma {:induction false} PagesDescend(walk: seq<Visit>, kinds: set<Kind>, i: nat, j: nat, r: Row)
    requires IsWalk(walk, kinds) && i < j < |walk| && r in Asked(walk, kinds, j)
    ensures r.when < LastWhen(walk[i].page)
    decreases j
  {
    if i < j - 1 {
      assert Answered(walk, kinds, j - 1);
      var last := BoundaryRow(walk, kinds, j - 1);
      PagesDescend(walk, kinds, i, j - 1, last);
    }
  }

  lemma {:induction false} AllRowsAre(walk: seq<Visit>, r: Row)
    ensures r in AllRows(walk) <==> exists i :: 0 <= i < |walk| && r in walk[i].page
  {
    if walk != [] {
      var n := |walk| - 1;
      AllRowsAre(walk[..n], r);
      if i :| 0 <= i < |walk| && r in walk[i].page {
        assert i < n ==> r in walk[..n][i].page;
      }
      if i :| 0 <= i < n && r in walk[..n][i].page {
        assert r in walk[i].page;
      }
    }
  }

  /** No row is ever shown twice, and the pages run newest first from one to the next. */
  lemma {:induction false} NoRowRepeats(walk: seq<Visit>, kinds: set<Kind>)
    requires IsWalk(walk, kinds)
    ensures NoDuplicates(AllRows(walk)) && NewestFirst(AllRows(walk))
  {
    if walk != [] {
      var n := |walk| - 1;
      var before, page := AllRows(walk[..n]), walk[n].page;
      WalkPrefix(walk, kinds, n);
      NoRowRepeats(walk[..n], kinds);
      assert Answered(walk, kinds, n);
      forall r, s | r in before && s in page ensures s.when < r.when {
        OlderThanBefore(walk, kinds, r, s);
      }
      AppendDescending(before, page);
    }
  }

  lemma OlderThanBefore(walk: seq<Visit>, kinds: set<Kind>, r: Row, s: Row)
    requires IsWalk(walk, kinds) && walk != [] && r in AllRows(walk[..|walk| - 1]) && s in walk[|walk| - 1].page
    ensures s.when < r.when
  {
    var n := |walk| - 1;
    AllRowsAre(walk[..n], r);
    var i :| 0 <= i < n && r in walk[..n][i].page;
    assert Answered(walk, kinds, i) && Answered(walk, kinds, n);
    PageFacts(walk, kinds, i);
    PageFacts(walk, kinds, n);
    PagesDescend(walk, kinds, i, n, s);
  }

  lemma AppendDescending(before: seq<Row>, page: seq<Row>)
    requires NoDuplicates(before) && NewestFirst(before) && NoDuplicates(page) && NewestFirst(page)
    requires forall r, s :: r in before && s in page ==> s.when < r.when
    ensures NoDuplicates(before + page) && NewestFirst(before + page)
  {
    AppendDistinct(before, page);
  }

  lemma {:induction false} FullPages(walk: seq<Visit>, kinds: set<Kind>)
    requires IsWalk(walk, kinds) && walk != []
    ensures |AllRows(walk)| == PAGE_SIZE * (|walk| - 1) + |walk[|walk| - 1].page|
  {
    var n := |walk| - 1;
    if n > 0 {
      WalkPrefix(walk, kinds, n);
      FullPages(walk[..n], kinds);
      assert Answered(walk, kinds, n - 1);
      PageFacts(walk, kinds, n - 1);
    } else {
      assert AllRows(walk[..0]) == [];
    }
  }

  lemma ShownWasAsked(walk: seq<Visit>, kinds: set<Kind>, r: Row) returns (i: nat)
    requires IsWalk(walk, kinds) && r in AllRows(walk)
    ensures i < |walk| && r in walk[i].page && r in Asked(walk, kinds, i)
  {
    AllRowsAre(walk, r);
    i :| 0 <= i < |walk| && r in walk[i].page;
    assert Answered(walk, kinds, i);
    PageFacts(walk, kinds, i);
  }

  /** A walk ends: every page before the last shows fifty rows not shown before. */
  lemma WalkIsBounded(walk: seq<Visit>, kinds: set<Kind>, stored: set<Row>)
    requires IsWalk(walk, kinds) && walk != [] && forall i :: 0 <= i < |walk| ==> Asked(walk, kinds, i) <= stored
    ensures PAGE_SIZE * (|walk| - 1) <= |stored|
  {
    NoRowRepeats(walk, kinds);
    FullPages(walk, kinds);
    DistinctLength(AllRows(walk));
    forall r | r in AllRows(walk) ensures r in stored {
      var i := ShownWasAsked(walk, kinds, r);
    }
    SubsetCount(Elements(AllRows(walk)), stored);
  }

  // ---------------------------------------------------------------- what a walk shows

  /** Row `r` ties with the last row of a page that has another after it, and is not on that page. */
  ghost predicate LostToTie(walk: seq<Visit>, r: Row) {
    exists i :: 0 <= i < |walk| - 1 && r !in walk[i].page && r.when == LastWhen(walk[i].page)
  }

  /** The first page whose cursor `r` does not pass, or the last page. */
  lemma {:induction false} Lands(walk: seq<Visit>, r: Row, n: nat) returns (i: nat)
    requires n < |walk|
    ensures i <= n && Before(r, CursorAt(walk, i))
    ensures i < n ==> LastWhen(walk[i].page) <= r.when
  {
    if n == 0 {
      i := 0;
    } else {
      i := Lands(walk, r, n - 1);
      if i == n - 1 && r.when < LastWhen(walk[i].page) {
        i := n;
      }
    }
  }

  lemma NotShownIsTied(walk: seq<Visit>, kinds: set<Kind>, r: Row)
    requires Finished(walk, kinds) && r.kind in kinds && forall i :: 0 <= i < |walk| ==> r in walk[i].log
    requires forall i :: 0 <= i < |walk| ==> r !in walk[i].page
    ensures LostToTie(walk, r)
  {
    var n := |walk| - 1;
    var i := Lands(walk, r, n);
    assert Answered(walk, kinds, i) && r !in walk[i].page && r in walk[i].log;
    PageFacts(walk, kinds, i);
    assert r in Asked(walk, kinds, i);
    assert i != n;
  }

  lemma ShownIsNotTied(walk: seq<Visit>, kinds: set<Kind>, r: Row, i: nat, j: nat)
    requires IsWalk(walk, kinds) && i < |walk| - 1 && j < |walk|
    requires r !in walk[i].page && r in walk[j].page
    ensures r.when != LastWhen(walk[i].page)
  {
    assert Answered(walk, kinds, i) && Answered(walk, kinds, j);
    PageFacts(walk, kinds, j);
    if i < j {
      PagesDescend(walk, kinds, i, j, r);
    } else {
      var last := BoundaryRow(walk, kinds, i);
      PagesDescend(walk, kinds, j, i, last);
    }
  }

  /**
   * A row stored throughout the walk is shown exactly when no page boundary fell within a tie
   * that it lost.
   */
  lemma StoredRowsShownIff(walk: seq<Visit>, kinds: set<Kind>, r: Row)
    requires Finished(walk, kinds) && r.kind in kinds && forall i :: 0 <= i < |walk| ==> r in walk[i].log
    ensures r in AllRows(walk) <==> !LostToTie(walk, r)
  {
    AllRowsAre(walk, r);
    if r in AllRows(walk) {
      var j :| 0 <= j < |walk| && r in walk[j].page;
      forall i | 0 <= i < |walk| - 1 && r !in walk[i].page ensures r.when != LastWhen(walk[i].page) {
        ShownIsNotTied(walk, kinds, r, i, j);
      }
    } else {
      NotShownIsTied(walk, kinds, r);
    }
  }

  // ---------------------------------------------------------------- when a walk shows everything

  function NewerThan(rows: set<Row>, when: int): set<Row> {
    set r | r in rows && r.when > when
  }

  function NotOlderThan(rows: set<Row>, when: int): set<Row> {
    set r | r in rows && r.when >= when
  }

  /** Newest first, the rows of one instant all fall between the same two multiples of the page size. */
  predicate NoTieCrossesAPage(rows: set<Row>) {
    forall r :: r in rows ==> |NewerThan(rows, r.when)| / PAGE_SIZE == (|NotOlderThan(rows, r.when)| - 1) / PAGE_SIZE
  }

  predicate LogStays(walk: seq<Visit>, log: Log) {
    forall i :: 0 <= i < |walk| ==> walk[i].log == log
  }

  /** What the first `n` pages show, and how much it is. */
  lemma FirstPages(walk: seq<Visit>, kinds: set<Kind>, n: nat)
    requires IsWalk(walk, kinds) && n <= |walk|
    ensures |Elements(AllRows(walk[..n]))| <= PAGE_SIZE * n
    ensures n < |walk| ==> |Elements(AllRows(walk[..n]))| == PAGE_SIZE * n
  {
    WalkPrefix(walk, kinds, n);
    NoRowRepeats(walk[..n], kinds);
    DistinctLength(AllRows(walk[..n]));
    if n > 0 {
      FullPages(walk[..n], kinds);
      assert Answered(walk, kinds, n - 1);
      PageFacts(walk, kinds, n - 1);
    }
  }

  lemma OnFirstPages(walk: seq<Visit>, n: nat, r: Row)
    requires n <= |walk|
    ensures r in Elements(AllRows(walk[..n])) <==> exists i :: 0 <= i < n && r in walk[i].page
  {
    AllRowsAre(walk[..n], r);
    assert forall i :: 0 <= i < n ==> walk[..n][i] == walk[i];
  }

  lemma QuotientsMeet(newer: nat, notOlder: nat, i: nat)
    requires PAGE_SIZE * i <= newer < notOlder <= PAGE_SIZE * (i + 1)
    ensures newer / PAGE_SIZE == (notOlder - 1) / PAGE_SIZE == i
  {
  }

  /** A row with everything no older on the first `i + 1` pages, itself on the last of them. */
  lemma TieOnOnePage(walk: seq<Visit>, kinds: set<Kind>, log: Log, i: nat, r: Row)
    requires IsWalk(walk, kinds) && LogStays(walk, log) && i < |walk| && r in walk[i].page
    requires NotOlderThan(Eligible(log, kinds, None), r.when) <= Elements(AllRows(walk[..i + 1]))
    ensures var all := Eligible(log, kinds, None);
      |NewerThan(all, r.when)| / PAGE_SIZE == (|NotOlderThan(all, r.when)| - 1) / PAGE_SIZE
  {
    var all := Eligible(log, kinds, None);
    var newer, notOlder := NewerThan(all, r.when), NotOlderThan(all, r.when);
    assert Answered(walk, kinds, i);
    PageFacts(walk, kinds, i);
    FirstPages(walk, kinds, i);
    FirstPages(walk, kinds, i + 1);
    forall s | s in Elements(AllRows(walk[..i])) ensures s in newer {
      EarlierIsNewer(walk, kinds, log, i, s, r);
    }
    SubsetCount(Elements(AllRows(walk[..i])), newer);
    SubsetCount(newer + {r}, notOlder);
    SubsetCount(notOlder, Elements(AllRows(walk[..i + 1])));
    QuotientsMeet(|newer|, |notOlder|, i);
  }

  lemma EarlierIsNewer(walk: seq<Visit>, kinds: set<Kind>, log: Log, i: nat, s: Row, r: Row)
    requires IsWalk(walk, kinds) && LogStays(walk, log) && i < |walk|
    requires s in Elements(AllRows(walk[..i])) && r in Asked(walk, kinds, i)
    ensures s in Eligible(log, kinds, None) && s.when > r.when
  {
    OnFirstPages(walk, i, s);
    var j :| 0 <= j < i && s in walk[j].page;
    assert Answered(walk, kinds, j);
    PageFacts(walk, kinds, j);
    PagesDescend(walk, kinds, j, i, r);
  }

  lemma AllShownKeepsTies(walk: seq<Visit>, kinds: set<Kind>, log: Log)
    requires Finished(walk, kinds) && LogStays(walk, log)
    requires Eligible(log, kinds, None) <= Elements(AllRows(walk))
    ensures NoTieCrossesAPage(Eligible(log, kinds, None))
  {
    var all := Eligible(log, kinds, None);
    assert walk[..|walk|] == walk;
    forall r | r in all ensures |NewerThan(all, r.when)| / PAGE_SIZE == (|NotOlderThan(all, r.when)| - 1) / PAGE_SIZE {
      OnFirstPages(walk, |walk|, r);
      var i :| 0 <= i < |walk| && r in walk[i].page;
      forall s | s in NotOlderThan(all, r.when) ensures s in Elements(AllRows(walk[..i + 1])) {
        OnFirstPages(walk, |walk|, s);
        var j :| 0 <= j < |walk| && s in walk[j].page;
        NotOnALaterPage(walk, kinds, i, j, r, s);
        OnFirstPages(walk, i + 1, s);
      }
      TieOnOnePage(walk, kinds, log, i, r);
    }
  }

  lemma NotOnALaterPage(walk: seq<Visit>, kinds: set<Kind>, i: nat, j: nat, r: Row, s: Row)
    requires IsWalk(walk, kinds) && i < |walk| && j < |walk|
    requires r in walk[i].page && s in walk[j].page && s.when >= r.when
    ensures j <= i
  {
    assert Answered(walk, kinds, i) && Answered(walk, kinds, j);
    PageFacts(walk, kinds, i);
    PageFacts(walk, kinds, j);
    if i < j {
      PagesDescend(walk, kinds, i, j, s);
    }
  }

  /** With no tie across a page boundary, what page `n` starts from is what has not been shown. */
  lemma {:induction false} NothingSkipped(walk: seq<Visit>, kinds: set<Kind>, log: Log, n: nat)
    requires IsWalk(walk, kinds) && LogStays(walk, log) && n < |walk|
    requires NoTieCrossesAPage(Eligible(log, kinds, None))
    ensures Eligible(log, kinds, None) <= Elements(AllRows(walk[..n])) + Asked(walk, kinds, n)
  {
    if n > 0 {
      NothingSkipped(walk, kinds, log, n - 1);
      BoundaryCutsNoTie(walk, kinds, log, n - 1);
    }
  }

  lemma BoundaryCutsNoTie(walk: seq<Visit>, kinds: set<Kind>, log: Log, i: nat)
    requires IsWalk(walk, kinds) && LogStays(walk, log) && i < |walk| - 1
    requires NoTieCrossesAPage(Eligible(log, kinds, None))
    requires Eligible(log, kinds, None) <= Elements(AllRows(walk[..i])) + Asked(walk, kinds, i)
    ensures Eligible(log, kinds, None) <= Elements(AllRows(walk[..i + 1])) + Asked(walk, kinds, i + 1)
  {
    var all, when := Eligible(log, kinds, None), LastWhen(walk[i].page);
    var shown, notOlder := Elements(AllRows(walk[..i + 1])), NotOlderThan(all, when);
    assert Answered(walk, kinds, i);
    var last := BoundaryRow(walk, kinds, i);
    NewerThanBoundary(walk, kinds, log, i);
    FirstPages(walk, kinds, i + 1);
    forall s | s in shown ensures s in notOlder {
      ShownIsNotOlder(walk, kinds, log, i, s);
    }
    TieIsWithinPage(all, last, i + 1);
    SameWhenAsLarge(shown, notOlder);
    forall r | r in all ensures r in shown || r in Asked(walk, kinds, i + 1) {
      assert r.when < when || r in notOlder;
    }
  }

  lemma TieIsWithinPage(all: set<Row>, r: Row, pages: nat)
    requires NoTieCrossesAPage(all) && r in all && |NewerThan(all, r.when)| < PAGE_SIZE * pages
    ensures |NotOlderThan(all, r.when)| <= PAGE_SIZE * pages
  {
    QuotientBounds(|NewerThan(all, r.when)|, |NotOlderThan(all, r.when)|, pages);
  }

  lemma QuotientBounds(newer: nat, notOlder: nat, pages: nat)
    requires newer < PAGE_SIZE * pages && newer / PAGE_SIZE == (notOlder - 1) / PAGE_SIZE
    ensures notOlder <= PAGE_SIZE * pages
  {
    var q := newer / PAGE_SIZE;
    assert newer == PAGE_SIZE * q + newer % PAGE_SIZE;
    assert notOlder - 1 == PAGE_SIZE * q + (notOlder - 1) % PAGE_SIZE;
  }

  lemma SameWhenAsLarge(a: set<Row>, b: set<Row>)
    requires a <= b && |a| >= |b|
    ensures a == b
  {
    if x :| x in b && x !in a {
      SubsetCount(a + {x}, b);
    }
  }

  lemma ShownIsNotOlder(walk: seq<Visit>, kinds: set<Kind>, log: Log, i: nat, s: Row)
    requires IsWalk(walk, kinds) && LogStays(walk, log) && i < |walk| - 1
    requires s in Elements(AllRows(walk[..i + 1]))
    ensures s in NotOlderThan(Eligible(log, kinds, None), LastWhen(walk[i].page))
  {
    OnFirstPages(walk, i + 1, s);
    var j :| 0 <= j < i + 1 && s in walk[j].page;
    assert Answered(walk, kinds, j) && Answered(walk, kinds, i);
    PageFacts(walk, kinds, j);
    var last := BoundaryRow(walk, kinds, i);
    if j < i {
      PagesDescend(walk, kinds, j, i, last);
    }
  }

  /** Fewer rows than the pages so far hold are newer than the last one shown. */
  lemma NewerThanBoundary(walk: seq<Visit>, kinds: set<Kind>, log: Log, i: nat)
    requires IsWalk(walk, kinds) && LogStays(walk, log) && i < |walk| - 1
    requires Eligible(log, kinds, None) <= Elements(AllRows(walk[..i])) + Asked(walk, kinds, i)
    ensures |NewerThan(Eligible(log, kinds, None), LastWhen(walk[i].page))| < PAGE_SIZE * (i + 1)
  {
    var newer := NewerThan(Eligible(log, kinds, None), LastWhen(walk[i].page));
    var shown := Elements(AllRows(walk[..i + 1]));
    assert Answered(walk, kinds, i);
    PageFacts(walk, kinds, i);
    var last := BoundaryRow(walk, kinds, i);
    OnFirstPages(walk, i + 1, last);
    forall s | s in newer ensures s in shown {
      OnFirstPages(walk, i + 1, s);
      OnFirstPages(walk, i, s);
    }
    FirstPages(walk, kinds, i + 1);
    SubsetCount(newer + {last}, shown);
  }

  /**
   * While the stored rows stay the same, a finished walk shows all of them exactly when no tie of
   * timestamps crosses a page boundary.
   */
  lemma WalkShowsAllIff(walk: seq<Visit>, kinds: set<Kind>, log: Log)
    requires Finished(walk, kinds) && LogStays(walk, log)
    ensures Eligible(log, kinds, None) <= Elements(AllRows(walk)) <==> NoTieCrossesAPage(Eligible(log, kinds, None))
  {
    if Eligible(log, kinds, None) <= Elements(AllRows(walk)) {
      AllShownKeepsTies(walk, kinds, log);
    }
    if NoTieCrossesAPage(Eligible(log, kinds, None)) {
      var n := |walk| - 1;
      NothingSkipped(walk, kinds, log, n);
      assert Answered(walk, kinds, n);
      PageFacts(walk, kinds, n);
      assert AllRows(walk) == AllRows(walk[..n]) + walk[n].page;
    }
  }

  predicate DistinctTimes(log: Log) {
    forall r, s :: r in log && s in log && r.when == s.when ==> r == s
  }

  lemma DistinctTimesLoseNone(walk: seq<Visit>, kinds: set<Kind>, r: Row)
    requires IsWalk(walk, kinds) && forall i :: 0 <= i < |walk| ==> r in walk[i].log && DistinctTimes(walk[i].log)
    ensures !LostToTie(walk, r)
  {
    forall i | 0 <= i < |walk| - 1 && r !in walk[i].page ensures r.when != LastWhen(walk[i].page) {
      assert Answered(walk, kinds, i);
      var last := BoundaryRow(walk, kinds, i);
      assert DistinctTimes(walk[i].log);
    }
  }

  lemma ShownIsFromTheFirstLog(walk: seq<Visit>, kinds: set<Kind>, r: Row)
    requires IsWalk(walk, kinds) && r in AllRows(walk)
    requires forall i, x :: 0 < i < |walk| && x in walk[i].log && x !in walk[0].log ==> x.when >= LastWhen(walk[0].page)
    ensures r in Eligible(walk[0].log, kinds, None)
  {
    var i := ShownWasAsked(walk, kinds, r);
    if i > 0 {
      PagesDescend(walk, kinds, 0, i, r);
    }
  }

  /**
   * With distinct timestamps, and only newer rows arriving meanwhile, a finished walk shows
   * exactly the rows stored at the first request, newest first, each once.
   */
  lemma WalkShowsTheFirstLog(walk: seq<Visit>, kinds: set<Kind>)
    requires Finished(walk, kinds)
    requires forall i :: 0 <= i < |walk| ==> walk[0].log <= walk[i].log && DistinctTimes(walk[i].log)
    requires forall i, r :: 0 < i < |walk| && r in walk[i].log && r !in walk[0].log ==> r.when >= LastWhen(walk[0].page)
    ensures NoDuplicates(AllRows(walk)) && NewestFirst(AllRows(walk))
    ensures Elements(AllRows(walk)) == Eligible(walk[0].log, kinds, None)
  {
    NoRowRepeats(walk, kinds);
    forall r | r in Eligible(walk[0].log, kinds, None) ensures r in AllRows(walk) {
      DistinctTimesLoseNone(walk, kinds, r);
      StoredRowsShownIff(walk, kinds, r);
    }
    forall r | r in AllRows(walk) ensures r in Eligible(walk[0].log, kinds, None) {
      ShownIsFromTheFirstLog(walk, kinds, r);
    }
  }

  lemma SomeRowIsNotOnThePage(page: seq<Row>, all: set<Row>) returns (r: Row)
    requires |page| < |all|
    ensures r in all && r !in page
  {
    ElementsCount(page);
    if all <= Elements(page) {
      SubsetCount(all, Elements(page));
      assert false;
    }
    r :| r in all && r !in Elements(page);
  }

  /** Distinct timestamps matter: of more than fifty rows of one instant, every finished walk leaves one out. */
  lemma TiesAreSkipped(walk: seq<Visit>, kinds: set<Kind>, log: Log, when: int)
    requires Finished(walk, kinds) && forall i :: 0 <= i < |walk| ==> walk[i].log == log
    requires |log| > PAGE_SIZE && forall r :: r in log ==> r.kind in kinds && r.when == when
    ensures exists r :: r in log && r !in AllRows(walk)
  {
    assert Eligible(log, kinds, None) == log;
    assert Answered(walk, kinds, 0);
    PageFacts(walk, kinds, 0);
    var last := BoundaryRow(walk, kinds, 0);
    var r := SomeRowIsNotOnThePage(walk[0].page, log);
    assert LostToTie(walk, r);
    StoredRowsShownIff(walk, kinds, r);
  }
}
