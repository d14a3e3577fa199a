/** Cursor-paged people reads (`runtime/src/apis.rs`): `search_people` enumerates, `who_to_follow` samples.
    A storage map is its rows in storage-key order, which is what the runtime's iterators walk. */
module People {
  import opened Prelude
  import opened Ordering

  const MAX_PAGE := 100
  const MAX_PEOPLE_SCAN := 10_000

  /** An account, by its storage key: its Blake2-128 hash followed by the account itself. */
  type Account = Key

  /** One row of the walked map, with the two values read beside it: the gate's binding and the follower count. */
  datatype Row = Row(account: Account, bound: bool, name: Bytes, followers: nat)

  datatype Page = Page(people: seq<Row>, next: Option<Account>)

  ghost predicate StorageOrder(rows: seq<Row>) {
    forall i, j :: 0 <= i < j < |rows| ==> Less(rows[i].account, rows[j].account)
  }

  // ---------- the name filter ----------

  function LowerByte(b: byte): byte {
    if 65 <= b <= 90 then b + 32 else b
  }

  function LowerBytes(s: Bytes): (r: Bytes)
    ensures |r| == |s| && forall i :: 0 <= i < |s| ==> r[i] == LowerByte(s[i])
  {
    if s == [] then [] else [LowerByte(s[0])] + LowerBytes(s[1..])
  }

  predicate MatchesAt(haystack: Bytes, needle: Bytes, i: nat)
    requires i + |needle| <= |haystack|
  {
    forall j :: 0 <= j < |needle| ==> LowerByte(haystack[i + j]) == LowerByte(needle[j])
  }

  /** Equal, or one the ASCII capital of the other. */
  predicate SameLetter(a: byte, b: byte) {
    a == b || (65 <= a <= 90 && b == a + 32) || (65 <= b <= 90 && a == b + 32)
  }

  /** The needle stands at `i`, byte for byte, up to ASCII case. */
  predicate OccursCi(haystack: Bytes, needle: Bytes, i: int) {
    0 <= i <= |haystack| - |needle| && forall j :: 0 <= j < |needle| ==> SameLetter(haystack[i + j], needle[j])
  }

  predicate OccursLowered(haystack: Bytes, needle: Bytes, i: int) {
    0 <= i <= |haystack| - |needle| && LowerBytes(haystack)[i..i + |needle|] == LowerBytes(needle)
  }

  lemma MatchesLowered(haystack: Bytes, needle: Bytes, i: nat)
    requires i + |needle| <= |haystack|
    ensures MatchesAt(haystack, needle, i) <==> OccursLowered(haystack, needle, i)
  {
    hide LowerByte;
    var h, n := LowerBytes(haystack)[i..i + |needle|], LowerBytes(needle);
    assert forall j :: 0 <= j < |needle| ==> h[j] == LowerByte(haystack[i + j]) && n[j] == LowerByte(needle[j]);
  }

  lemma MatchesCi(haystack: Bytes, needle: Bytes, i: nat)
    requires i + |needle| <= |haystack|
    ensures MatchesAt(haystack, needle, i) <==> OccursCi(haystack, needle, i)
  {
    assert forall j :: 0 <= j < |needle| ==>
                         (SameLetter(haystack[i + j], needle[j]) <==>
                          LowerByte(haystack[i + j]) == LowerByte(needle[j]));
  }

  lemma MatchesEitherWay(haystack: Bytes, needle: Bytes)
    ensures forall i :: 0 <= i <= |haystack| - |needle| && MatchesAt(haystack, needle, i) ==>
                          OccursLowered(haystack, needle, i) && OccursCi(haystack, needle, i)
    ensures forall i :: OccursLowered(haystack, needle, i) ==>
                          0 <= i <= |haystack| - |needle| && MatchesAt(haystack, needle, i)
    ensures forall i :: OccursCi(haystack, needle, i) ==>
                          0 <= i <= |haystack| - |needle| && MatchesAt(haystack, needle, i)
    ensures needle == [] ==> OccursLowered(haystack, needle, 0) && OccursCi(haystack, needle, 0)
  {
    forall i | 0 <= i <= |haystack| - |needle|
      ensures MatchesAt(haystack, needle, i) <==> OccursLowered(haystack, needle, i)
      ensures MatchesAt(haystack, needle, i) <==> OccursCi(haystack, needle, i)
    {
      MatchesLowered(haystack, needle, i);
      MatchesCi(haystack, needle, i);
    }
  }

  /** `contains_ci`: the lower-cased needle occurs in the lower-cased haystack. */
  predicate ContainsCi(haystack: Bytes, needle: Bytes): (r: bool)
    ensures r <==> exists i :: OccursLowered(haystack, needle, i)
    ensures r <==> exists i :: OccursCi(haystack, needle, i)
  {
    MatchesEitherWay(haystack, needle);
    hide OccursLowered, OccursCi, MatchesAt;
    if needle == [] then true
    else if |needle| > |haystack| then false
    else exists i :: 0 <= i <= |haystack| - |needle| && MatchesAt(haystack, needle, i)
  }

  // ---------- the walk ----------

  /** Bound people only; with a term, only those whose name contains it. */
  predicate Hit(row: Row, term: Option<Bytes>) {
    row.bound && (term.Some? ==> ContainsCi(row.name, term.value))
  }

  function Hits(rows: seq<Row>, term: Option<Bytes>): seq<Row> {
    if rows == [] then [] else
    var last := rows[|rows| - 1];
    Hits(rows[..|rows| - 1], term) + if Hit(last, term) then [last] else []
  }

  lemma {:induction false} HitsAppend(a: seq<Row>, b: seq<Row>, term: Option<Bytes>)
    ensures Hits(a + b, term) == Hits(a, term) + Hits(b, term)
    decreases |b|
  {
    hide Hit;
    if b == [] {
      assert a + b == a;
    } else {
      var n := |b| - 1;
      HitsAppend(a, b[..n], term);
      assert (a + b)[..|a + b| - 1] == a + b[..n];
    }
  }

  lemma HitsSnoc(rows: seq<Row>, from: nat, i: nat, term: Option<Bytes>)
    requires from <= i < |rows|
    ensures Hits(rows[from..i + 1], term) == Hits(rows[from..i], term) + if Hit(rows[i], term) then [rows[i]] else []
  {
    hide Hit;
    assert rows[from..i + 1][..i - from] == rows[from..i];
  }

  lemma HitsSplit(rows: seq<Row>, from: nat, e: nat, term: Option<Bytes>)
    requires from <= e <= |rows|
    ensures Hits(rows[from..], term) == Hits(rows[from..e], term) + Hits(rows[e..], term)
  {
    HitsAppend(rows[from..e], rows[e..], term);
    assert rows[from..] == rows[from..e] + rows[e..];
  }

  /** Where a walk resumed exclusively after an account begins. */
  function After(rows: seq<Row>, after: Option<Account>): (i: nat)
    ensures i <= |rows|
  {
    if after.None? then 0 else FirstAfter(rows, after.value)
  }

  function FirstAfter(rows: seq<Row>, a: Account): (i: nat)
    ensures i <= |rows|
    ensures forall j :: 0 <= j < i ==> !Less(a, rows[j].account)
    ensures i < |rows| ==> Less(a, rows[i].account)
  {
    if rows == [] || Less(a, rows[0].account) then 0 else 1 + FirstAfter(rows[1..], a)
  }

  /** Resuming after a row resumes at the next one: nothing skipped, nothing repeated. */
  lemma ResumesNext(rows: seq<Row>, i: nat)
    requires StorageOrder(rows) && i < |rows|
    ensures After(rows, Some(rows[i].account)) == i + 1
  {
    hide Less;
    var a := rows[i].account;
    var p := FirstAfter(rows, a);
    LessIrreflexive(a);
    if p <= i && p < |rows| {
      if p < i {
        LessTransitive(a, rows[p].account, a);
      }
    }
    assert p > i;
    assert i + 1 < |rows| ==> Less(a, rows[i + 1].account);
  }

  function Cursor(rows: seq<Row>, e: nat): Option<Account> {
    if 0 < e < |rows| then Some(rows[e - 1].account) else None
  }

  function Clamp(limit: nat): (r: nat)
    ensures 1 <= limit <= 100 ==> r == limit
    ensures limit == 0 ==> r == 1
    ensures limit > 100 ==> r == 100
  {
    if limit < 1 then 1 else if limit > MAX_PAGE then MAX_PAGE else limit
  }

  /** Ordered by follower count, descending; ties in any order. */
  ghost predicate Ranked(out: seq<Row>, rows: seq<Row>) {
    multiset(out) == multiset(rows) && Descends(out)
  }

  predicate Descends(rows: seq<Row>) {
    forall i, j :: 0 <= i < j < |rows| ==> rows[i].followers >= rows[j].followers
  }

  method Rank(rows: seq<Row>) returns (out: seq<Row>)
    ensures Ranked(out, rows)
  {
    hide Ranked;
    out := [];
    assert Ranked(out, rows[..0]) by {
      NoneRanked(rows);
    }
    for i := 0 to |rows|
      invariant Ranked(out, rows[..i])
    {
      var p := 0;
      while p < |out| && out[p].followers >= rows[i].followers
        invariant 0 <= p <= |out|
        invariant forall j :: 0 <= j < p ==> out[j].followers >= rows[i].followers
      {
        p := p + 1;
      }
      InsertRanked(out, rows, i, p);
      out := out[..p] + [rows[i]] + out[p..];
    }
    assert rows[..|rows|] == rows;
  }

  lemma NoneRanked(rows: seq<Row>)
    ensures Ranked([], rows[..0])
  {
    assert rows[..0] == [];
  }

  lemma InsertRanked(out: seq<Row>, rows: seq<Row>, i: nat, p: nat)
    requires i < |rows| && Ranked(out, rows[..i]) && p <= |out|
    requires forall j :: 0 <= j < p ==> out[j].followers >= rows[i].followers
    requires p < |out| ==> out[p].followers < rows[i].followers
    ensures Ranked(out[..p] + [rows[i]] + out[p..], rows[..i + 1])
  {
    assert rows[..i + 1] == rows[..i] + [rows[i]];
    InsertOne(out, p, rows[i]);
    InsertDescends(out, p, rows[i]);
  }

  lemma InsertDescends(out: seq<Row>, p: nat, row: Row)
    requires Descends(out) && p <= |out|
    requires forall j :: 0 <= j < p ==> out[j].followers >= row.followers
    requires p < |out| ==> out[p].followers < row.followers
    ensures Descends(out[..p] + [row] + out[p..])
  {
    var s := out[..p] + [row] + out[p..];
    assert forall i :: 0 <= i < |s| ==> s[i] == if i < p then out[i] else if i == p then row else out[i - 1];
  }

  // ---------- search_people: one page ----------

  /** The page has room and the budget is not spent when the walk stands at `j`. */
  predicate Open(rows: seq<Row>, term: Option<Bytes>, cap: nat, from: nat, j: nat)
    requires from <= j <= |rows|
  {
    |Hits(rows[from..j], term)| < cap && j - from < MAX_PEOPLE_SCAN
  }

  /** The rows one page examines: up to the first point where the page is full or the budget spent. */
  ghost predicate IsWindow(rows: seq<Row>, term: Option<Bytes>, cap: nat, from: nat, e: nat) {
    from <= e <= |rows|
    && (forall j :: from <= j < e ==> Open(rows, term, cap, from, j))
    && (e < |rows| ==> !Open(rows, term, cap, from, e))
  }

  lemma WindowFacts(rows: seq<Row>, term: Option<Bytes>, cap: nat, from: nat, e: nat)
    requires IsWindow(rows, term, cap, from, e) && cap >= 1
    ensures |Hits(rows[from..e], term)| <= cap && e - from <= 10_000
    ensures from < |rows| ==> from < e
    ensures e < |rows| ==> |Hits(rows[from..e], term)| == cap || e - from == 10_000
  {
    hide Hit;
    assert rows[from..from] == [];
    if from < e {
      assert Open(rows, term, cap, from, e - 1);
      HitsSnoc(rows, from, e - 1, term);
    }
  }

  ghost predicate SearchPageTo(rows: seq<Row>, term: Bytes, cap: nat, after: Option<Account>, page: Page, e: nat) {
    var from := After(rows, after);
    IsWindow(rows, Some(term), cap, from, e)
    && Ranked(page.people, Hits(rows[from..e], Some(term)))
    && page.next == Cursor(rows, e)
  }

  ghost predicate IsSearchPage(rows: seq<Row>, term: Bytes, cap: nat, after: Option<Account>, page: Page) {
    exists e :: SearchPageTo(rows, term, cap, after, page, e)
  }

  method SearchPeople(rows: seq<Row>, term: Bytes, limit: nat, after: Option<Account>) returns (page: Page)
    ensures IsSearchPage(rows, term, Clamp(limit), after, page)
  {
    hide Hit, Ranked, Hits, Open;
    var cap := Clamp(limit);
    var matches: seq<Row>, examined, last: Option<Account>, stoppedShort := [], 0, None, false;
    var from := After(rows, after);
    var i := from;
    NoHits(rows, from, Some(term));
    while i < |rows|
      invariant from <= i <= |rows| && examined == i - from
      invariant matches == Hits(rows[from..i], Some(term))
      invariant i > from ==> last == Some(rows[i - 1].account)
      invariant forall j :: from <= j < i ==> Open(rows, Some(term), cap, from, j)
      invariant !stoppedShort
    {
      OpenMeans(rows, Some(term), cap, from, i);
      if |matches| >= cap || examined >= MAX_PEOPLE_SCAN {
        stoppedShort := true;
        break;
      }
      examined := examined + 1;
      last := Some(rows[i].account);
      HitsSnoc(rows, from, i, Some(term));
      if Hit(rows[i], Some(term)) {
        matches := matches + [rows[i]];
      }
      i := i + 1;
    }
    WindowFacts(rows, Some(term), cap, from, i);
    var next := if stoppedShort then last else None;
    var people := Rank(matches);
    page := Page(people, next);
    assert SearchPageTo(rows, term, cap, after, page, i);
  }

  lemma NoHits(rows: seq<Row>, from: nat, term: Option<Bytes>)
    requires from <= |rows|
    ensures Hits(rows[from..from], term) == []
  {
    assert rows[from..from] == [];
  }

  lemma OpenMeans(rows: seq<Row>, term: Option<Bytes>, cap: nat, from: nat, j: nat)
    requires from <= j <= |rows|
    ensures Open(rows, term, cap, from, j) <==> |Hits(rows[from..j], term)| < cap && j - from < MAX_PEOPLE_SCAN
  {
  }

  // ---------- search_people: a whole run ----------

  /** Chasing cursors until one page carries none. */
  ghost predicate SearchRun(rows: seq<Row>, term: Bytes, cap: nat, after: Option<Account>, pages: seq<Page>)
    decreases |pages|
  {
    pages != [] && IsSearchPage(rows, term, cap, after, pages[0])
    && if pages[0].next.None? then |pages| == 1 else SearchRun(rows, term, cap, pages[0].next, pages[1..])
  }

  function All(pages: seq<Page>): seq<Row> {
    if pages == [] then [] else pages[0].people + All(pages[1..])
  }

  /** A cursor always leaves a row unexamined, and the next page starts there. */
  lemma SearchResumes(rows: seq<Row>, term: Bytes, cap: nat, after: Option<Account>, page: Page, e: nat)
    requires StorageOrder(rows) && cap >= 1 && SearchPageTo(rows, term, cap, after, page, e)
    ensures page.next.None? <==> e == |rows|
    ensures page.next.Some? ==> After(rows, after) < e < |rows| && After(rows, page.next) == e
    ensures |page.people| <= cap
  {
    hide Hit, Less, Open, Hits, After;
    SameLength(page.people, Hits(rows[After(rows, after)..e], Some(term)));
    WindowFacts(rows, Some(term), cap, After(rows, after), e);
    if 0 < e < |rows| {
      ResumesNext(rows, e - 1);
    }
  }

  lemma CursorMeansMore(rows: seq<Row>, term: Bytes, limit: nat, after: Option<Account>, page: Page)
    requires StorageOrder(rows) && IsSearchPage(rows, term, Clamp(limit), after, page)
    ensures page.next.Some? ==> After(rows, after) < After(rows, page.next) < |rows|
    ensures |page.people| <= Clamp(limit)
  {
    var e: nat :| SearchPageTo(rows, term, Clamp(limit), after, page, e);
    SearchResumes(rows, term, Clamp(limit), after, page, e);
  }

  /** A run returns exactly the remaining matches, each as often as it stands in the map. */
  lemma {:induction false} RunCovers(rows: seq<Row>, term: Bytes, cap: nat, after: Option<Account>, pages: seq<Page>)
    requires StorageOrder(rows) && cap >= 1 && SearchRun(rows, term, cap, after, pages)
    ensures multiset(All(pages)) == multiset(Hits(rows[After(rows, after)..], Some(term)))
    decreases |pages|
  {
    hide Hits, IsWindow, StorageOrder, After;
    var e: nat :| SearchPageTo(rows, term, cap, after, pages[0], e);
    var from := After(rows, after);
    SearchResumes(rows, term, cap, after, pages[0], e);
    assert All(pages) == pages[0].people + All(pages[1..]);
    assert from <= e <= |rows| by {
      assert IsWindow(rows, Some(term), cap, from, e);
      WindowBounds(rows, Some(term), cap, from, e);
    }
    if pages[0].next.None? {
      assert rows[from..e] == rows[from..];
      assert All(pages[1..]) == [];
    } else {
      RunCovers(rows, term, cap, pages[0].next, pages[1..]);
      HitsSplit(rows, from, e, Some(term));
    }
  }

  lemma WindowBounds(rows: seq<Row>, term: Option<Bytes>, cap: nat, from: nat, e: nat)
    requires IsWindow(rows, term, cap, from, e)
    ensures from <= e <= |rows|
  {
  }

  /** Chasing terminates: no run is longer than the rows it walks. */
  lemma {:induction false} RunBounded(rows: seq<Row>, term: Bytes, cap: nat, after: Option<Account>, pages: seq<Page>)
    requires StorageOrder(rows) && cap >= 1 && SearchRun(rows, term, cap, after, pages)
    ensures |pages| == 1 || |pages| <= |rows| - After(rows, after)
    decreases |pages|
  {
    hide Hits, IsWindow, StorageOrder, After;
    var e: nat :| SearchPageTo(rows, term, cap, after, pages[0], e);
    SearchResumes(rows, term, cap, after, pages[0], e);
    if pages[0].next.Some? {
      RunBounded(rows, term, cap, pages[0].next, pages[1..]);
    }
  }

  method ChaseSearch(rows: seq<Row>, term: Bytes, limit: nat, after: Option<Account>) returns (pages: seq<Page>)
    requires StorageOrder(rows)
    ensures SearchRun(rows, term, Clamp(limit), after, pages)
    decreases |rows| - After(rows, after)
  {
    hide After, IsSearchPage, StorageOrder;
    var page := SearchPeople(rows, term, limit, after);
    CursorMeansMore(rows, term, limit, after, page);
    if page.next.None? {
      pages := [page];
    } else {
      var rest := ChaseSearch(rows, term, limit, page.next);
      pages := [page] + rest;
      assert pages[1..] == rest;
    }
  }

  lemma LastIsNew(rows: seq<Row>)
    requires StorageOrder(rows) && rows != []
    ensures rows[|rows| - 1] !in rows[..|rows| - 1]
  {
    hide Less;
    LessIrreflexive(rows[|rows| - 1].account);
  }

  lemma {:induction false} HitsOnce(rows: seq<Row>, term: Option<Bytes>, row: Row)
    requires StorageOrder(rows)
    ensures multiset(Hits(rows, term))[row] == if row in rows && Hit(row, term) then 1 else 0
  {
    hide Hit, Less;
    if rows != [] {
      var n := |rows| - 1;
      HitsOnce(rows[..n], term, row);
      assert rows == rows[..n] + [rows[n]];
      LastIsNew(rows);
    }
  }

  predicate OnPage(pages: seq<Page>, i: int, row: Row) {
    0 <= i < |pages| && row in pages[i].people
  }

  lemma {:induction false} OccursOnSomePage(pages: seq<Page>, row: Row) returns (i: int)
    ensures row in All(pages) ==> OnPage(pages, i, row)
    ensures forall j :: OnPage(pages, j, row) ==> multiset(All(pages))[row] >= 1
    ensures forall j, k :: OnPage(pages, j, row) && OnPage(pages, k, row) && j != k ==> multiset(All(pages))[row] >= 2
  {
    i := 0;
    if pages != [] {
      var rest := pages[1..];
      assert multiset(All(pages)) == multiset(pages[0].people) + multiset(All(rest));
      i := OccursOnSomePage(rest, row);
      assert forall j :: OnPage(pages, j, row) && j > 0 ==> OnPage(rest, j - 1, row);
      assert row in pages[0].people ==> multiset(pages[0].people)[row] >= 1;
      if row in pages[0].people {
        i := 0;
      } else {
        i := i + 1;
      }
    }
  }

  /** Every bound, matching profile is returned on exactly one page of the run; nobody else is returned. */
  lemma EveryMatchOnce(rows: seq<Row>, term: Bytes, limit: nat, pages: seq<Page>, row: Row)
    requires StorageOrder(rows) && SearchRun(rows, term, Clamp(limit), None, pages)
    ensures multiset(All(pages))[row] ==
            if row in rows && row.bound && (exists at :: OccursCi(row.name, term, at)) then 1 else 0
    ensures row in rows && row.bound && (exists at :: OccursCi(row.name, term, at)) ==>
              exists i :: OnPage(pages, i, row) && forall j :: OnPage(pages, j, row) ==> j == i
  {
    hide ContainsCi, OccursCi, Less, Hits, SearchRun, StorageOrder;
    assert Hit(row, Some(term)) <==> row.bound && exists at :: OccursCi(row.name, term, at);
    RunCovers(rows, term, Clamp(limit), None, pages);
    assert rows[After(rows, None)..] == rows;
    HitsOnce(rows, Some(term), row);
    var i := OccursOnSomePage(pages, row);
    if row in rows && Hit(row, Some(term)) {
      assert row in multiset(All(pages));
      assert OnPage(pages, i, row);
    }
  }

  // ---------- who_to_follow: one page ----------

  function Min(a: nat, b: nat): nat {
    if a <= b then a else b
  }

  function FollowEnd(rows: seq<Row>, after: Option<Account>): (e: nat)
    ensures After(rows, after) <= e <= |rows|
  {
    Min(After(rows, after) + MAX_PEOPLE_SCAN, |rows|)
  }

  function Window(rows: seq<Row>, after: Option<Account>): seq<Row> {
    Hits(rows[After(rows, after)..FollowEnd(rows, after)], None)
  }

  /** A window holds the bound rows among the next ten thousand. */
  lemma WindowMembers(rows: seq<Row>, after: Option<Account>, row: Row)
    ensures row in Window(rows, after) <==>
            row.bound
            && exists i :: After(rows, after) <= i < After(rows, after) + 10_000 && i < |rows| && rows[i] == row
  {
    hide Hit, Hits;
    var from, e := After(rows, after), FollowEnd(rows, after);
    HitsMembers(rows[from..e], None, row);
    BoundIsHit(row);
    if i :| from <= i < from + 10_000 && i < |rows| && rows[i] == row {
      assert rows[from..e][i - from] == row;
    }
  }

  lemma {:induction false} HitsMembers(rows: seq<Row>, term: Option<Bytes>, row: Row)
    ensures row in Hits(rows, term) <==> row in rows && Hit(row, term)
  {
    hide Hit;
    if rows != [] {
      var n := |rows| - 1;
      HitsMembers(rows[..n], term, row);
      assert rows == rows[..n] + [rows[n]];
    }
  }

  ghost predicate TopOf(people: seq<Row>, rows: seq<Row>, cap: nat) {
    exists ranked :: Ranked(ranked, rows) && people == ranked[..Min(cap, |ranked|)]
  }

  ghost predicate IsFollowPage(rows: seq<Row>, cap: nat, after: Option<Account>, page: Page) {
    TopOf(page.people, Window(rows, after), cap) && page.next == Cursor(rows, FollowEnd(rows, after))
  }

  method WhoToFollow(rows: seq<Row>, limit: nat, after: Option<Account>) returns (page: Page)
    ensures IsFollowPage(rows, Clamp(limit), after, page)
  {
    hide Hit, Ranked, Hits;
    var cap := Clamp(limit);
    var ranked: seq<Row>, examined, last: Option<Account>, stoppedShort := [], 0, None, false;
    var from := After(rows, after);
    var i := from;
    NoHits(rows, from, None);
    while i < |rows|
      invariant from <= i <= |rows| && examined == i - from <= MAX_PEOPLE_SCAN
      invariant ranked == Hits(rows[from..i], None)
      invariant i > from ==> last == Some(rows[i - 1].account)
      invariant !stoppedShort
    {
      if examined >= MAX_PEOPLE_SCAN {
        stoppedShort := true;
        break;
      }
      examined := examined + 1;
      last := Some(rows[i].account);
      HitsSnoc(rows, from, i, None);
      BoundIsHit(rows[i]);
      if rows[i].bound {
        ranked := ranked + [rows[i]];
      }
      i := i + 1;
    }
    var next := if stoppedShort then last else None;
    assert i == FollowEnd(rows, after);
    var sorted := Rank(ranked);
    page := Page(sorted[..Min(cap, |sorted|)], next);
  }

  lemma BoundIsHit(row: Row)
    ensures Hit(row, None) <==> row.bound
  {
  }

  /** Whoever a page drops is matched by a full page of accounts with at least as many followers. */
  lemma DroppedAreOutranked(rows: seq<Row>, limit: nat, after: Option<Account>, page: Page, row: Row)
    requires IsFollowPage(rows, Clamp(limit), after, page)
    requires row in Window(rows, after) && row !in page.people
    ensures |page.people| == Clamp(limit)
    ensures forall p :: p in page.people ==> p.followers >= row.followers
  {
    hide Window;
    var cap := Clamp(limit);
    var ranked :| Ranked(ranked, Window(rows, after)) && page.people == ranked[..Min(cap, |ranked|)];
    SameMultiset(ranked, Window(rows, after));
    var i :| 0 <= i < |ranked| && ranked[i] == row;
    assert forall j :: 0 <= j < |page.people| ==> page.people[j] == ranked[j] && page.people[j] != row;
  }

  // ---------- who_to_follow: a whole run ----------

  ghost predicate FollowRun(rows: seq<Row>, cap: nat, after: Option<Account>, pages: seq<Page>)
    decreases |pages|
  {
    pages != [] && IsFollowPage(rows, cap, after, pages[0])
    && if pages[0].next.None? then |pages| == 1 else FollowRun(rows, cap, pages[0].next, pages[1..])
  }

  /** The windows partition the authors: each page's window starts where the previous one ended. */
  lemma FollowResumes(rows: seq<Row>, after: Option<Account>)
    requires StorageOrder(rows)
    ensures var next := Cursor(rows, FollowEnd(rows, after));
            if next.None? then Hits(rows[After(rows, after)..], None) == Window(rows, after)
            else After(rows, after) < After(rows, next) == FollowEnd(rows, after) < |rows|
                 && Hits(rows[After(rows, after)..], None) ==
                    Window(rows, after) + Hits(rows[After(rows, next)..], None)
  {
    hide Hit, Less, Hits;
    var from, e := After(rows, after), FollowEnd(rows, after);
    if 0 < e < |rows| {
      ResumesNext(rows, e - 1);
      HitsSplit(rows, from, e, None);
    } else {
      assert rows[from..e] == rows[from..];
    }
  }

  method ChaseFollow(rows: seq<Row>, limit: nat, after: Option<Account>) returns (pages: seq<Page>)
    requires StorageOrder(rows)
    ensures FollowRun(rows, Clamp(limit), after, pages)
    decreases |rows| - After(rows, after)
  {
    hide After, TopOf, StorageOrder;
    var page := WhoToFollow(rows, limit, after);
    FollowResumes(rows, after);
    if page.next.None? {
      pages := [page];
    } else {
      var rest := ChaseFollow(rows, limit, page.next);
      pages := [page] + rest;
      assert pages[1..] == rest;
    }
  }

  /** How many rows have at least `x` followers. */
  function AtLeast(rows: seq<Row>, x: int): nat {
    if rows == [] then 0 else (if rows[0].followers >= x then 1 else 0) + AtLeast(rows[1..], x)
  }

  lemma {:induction false} AtLeastAppend(a: seq<Row>, b: seq<Row>, x: int)
    ensures AtLeast(a + b, x) == AtLeast(a, x) + AtLeast(b, x)
  {
    if a == [] {
      assert a + b == b;
    } else {
      AtLeastAppend(a[1..], b, x);
      assert (a + b)[1..] == a[1..] + b;
    }
  }

  lemma AtLeastWithout(rows: seq<Row>, i: nat, x: int)
    requires i < |rows|
    ensures AtLeast(rows, x) == AtLeast(Without(rows, i), x) + if rows[i].followers >= x then 1 else 0
  {
    assert rows == rows[..i] + ([rows[i]] + rows[i + 1..]);
    AtLeastAppend(rows[..i], [rows[i]] + rows[i + 1..], x);
    AtLeastAppend([rows[i]], rows[i + 1..], x);
    AtLeastAppend(rows[..i], rows[i + 1..], x);
  }

  lemma {:induction false} AtLeastPermuted(a: seq<Row>, b: seq<Row>, x: int)
    requires multiset(a) == multiset(b)
    ensures AtLeast(a, x) == AtLeast(b, x)
    decreases |a|
  {
    hide AtLeast;
    SameLength(a, b);
    if a == [] {
      assert a == b;
    } else {
      var j := FindIn(a, 0, b);
      WithoutSame(a, 0, b, j);
      AtLeastPermuted(Without(a, 0), Without(b, j), x);
      AtLeastWithout(a, 0, x);
      AtLeastWithout(b, j, x);
    }
  }

  /** In a ranking the rows with at least `x` followers come first. */
  lemma {:induction false} RankedCounts(ranked: seq<Row>, x: int)
    requires Descends(ranked)
    ensures AtLeast(ranked, x) <= |ranked|
    ensures forall i :: 0 <= i < |ranked| ==> (ranked[i].followers >= x <==> i < AtLeast(ranked, x))
  {
    if ranked != [] {
      RankedCounts(ranked[1..], x);
      forall i | 0 <= i < |ranked|
        ensures ranked[i].followers >= x <==> i < AtLeast(ranked, x)
      {
        if i > 0 {
          assert ranked[1..][i - 1] == ranked[i];
        }
        if ranked[0].followers < x && |ranked| > 1 {
          assert ranked[1..][0].followers < x;
        }
      }
    }
  }

  lemma TopCounts(people: seq<Row>, rows: seq<Row>, cap: nat, x: int)
    requires TopOf(people, rows, cap)
    ensures AtLeast(people, x) == Min(cap, AtLeast(rows, x))
  {
    hide AtLeast;
    var ranked :| Ranked(ranked, rows) && people == ranked[..Min(cap, |ranked|)];
    AtLeastPermuted(ranked, rows, x);
    RankedCounts(ranked, x);
    RankedCounts(people, x);
    var n, m := AtLeast(ranked, x), AtLeast(people, x);
    if m < |people| {
      assert people[m] == ranked[m];
    }
    if 0 < m {
      assert people[m - 1] == ranked[m - 1];
    }
  }

  /** Truncating every window to `cap` loses nothing above rank `cap` overall. */
  lemma {:induction false} RunKeepsCounts(rows: seq<Row>, cap: nat, after: Option<Account>, pages: seq<Page>, x: int)
    requires StorageOrder(rows) && FollowRun(rows, cap, after, pages)
    ensures Min(cap, AtLeast(All(pages), x)) == Min(cap, AtLeast(Hits(rows[After(rows, after)..], None), x))
    ensures multiset(All(pages)) <= multiset(Hits(rows[After(rows, after)..], None))
    decreases |pages|
  {
    hide AtLeast, Hits, StorageOrder, After, Window, TopOf;
    FollowResumes(rows, after);
    TopCounts(pages[0].people, Window(rows, after), cap, x);
    TopSubset(pages[0].people, Window(rows, after), cap);
    AtLeastAppend(pages[0].people, All(pages[1..]), x);
    if pages[0].next.None? {
      assert All(pages[1..]) == [];
      assert pages[0].people + All(pages[1..]) == pages[0].people;
    } else {
      RunKeepsCounts(rows, cap, pages[0].next, pages[1..], x);
      AtLeastAppend(Window(rows, after), Hits(rows[After(rows, pages[0].next)..], None), x);
    }
  }

  lemma TopSubset(people: seq<Row>, rows: seq<Row>, cap: nat)
    requires TopOf(people, rows, cap)
    ensures multiset(people) <= multiset(rows)
  {
    var ranked :| Ranked(ranked, rows) && people == ranked[..Min(cap, |ranked|)];
    assert ranked == people + ranked[|people|..];
  }

  /** Ranking the union of a whole run gives the same top `limit` follower counts as ranking every bound author. */
  lemma TopOfUnionIsTopOfAll(rows: seq<Row>, limit: nat, pages: seq<Page>, union: seq<Row>, corpus: seq<Row>, i: nat)
    requires StorageOrder(rows) && FollowRun(rows, Clamp(limit), None, pages)
    requires Ranked(union, All(pages)) && i < Clamp(limit) && Descends(corpus)
    requires forall row :: multiset(corpus)[row] == if row in rows && row.bound then 1 else 0
    ensures i < |union| <==> i < |corpus|
    ensures i < |union| && i < |corpus| ==> union[i].followers == corpus[i].followers
  {
    hide AtLeast, Hits, StorageOrder, FollowRun;
    assert rows[After(rows, None)..] == rows;
    CorpusIsHits(rows, corpus);
    SameTop(rows, limit, pages, union, corpus, 0);
    RankedCounts(union, 0);
    RankedCounts(corpus, 0);
    assert union != [] ==> union[|union| - 1].followers >= 0;
    assert corpus != [] ==> corpus[|corpus| - 1].followers >= 0;
    if i < |union| && i < |corpus| {
      var x, y := union[i].followers, corpus[i].followers;
      SameTop(rows, limit, pages, union, corpus, x);
      SameTop(rows, limit, pages, union, corpus, y);
      RankedCounts(union, x);
      RankedCounts(corpus, x);
      RankedCounts(union, y);
      RankedCounts(corpus, y);
    }
  }

  lemma CorpusIsHits(rows: seq<Row>, corpus: seq<Row>)
    requires StorageOrder(rows)
    requires forall row :: multiset(corpus)[row] == if row in rows && row.bound then 1 else 0
    ensures multiset(corpus) == multiset(Hits(rows, None))
  {
    hide Hits, StorageOrder, Hit;
    forall row
      ensures multiset(corpus)[row] == multiset(Hits(rows, None))[row]
    {
      HitsOnce(rows, None, row);
      BoundIsHit(row);
    }
  }

  lemma SameTop(rows: seq<Row>, limit: nat, pages: seq<Page>, union: seq<Row>, corpus: seq<Row>, x: int)
    requires StorageOrder(rows) && FollowRun(rows, Clamp(limit), None, pages)
    requires Ranked(union, All(pages)) && Ranked(corpus, Hits(rows, None))
    ensures Min(Clamp(limit), AtLeast(union, x)) == Min(Clamp(limit), AtLeast(corpus, x))
  {
    hide AtLeast, Hits, StorageOrder, FollowRun;
    assert rows[After(rows, None)..] == rows;
    RunKeepsCounts(rows, Clamp(limit), None, pages, x);
    AtLeastPermuted(union, All(pages), x);
    AtLeastPermuted(corpus, Hits(rows, None), x);
  }
}
