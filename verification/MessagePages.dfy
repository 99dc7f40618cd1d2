/** Cursor paging over the message table, and the walk a client makes with it. */
module MessagePages {
  import opened Common

  /** A message row: its id, the conversation or room it belongs to, and when it was sent. */
  datatype Entry = Entry(id: nat, parent: nat, sentAt: int)

  type Table = seq<Entry>

  const PAGE_CAP := 200

  function FindById(t: Table, id: nat): (r: Option<Entry>)
    ensures r.Some? ==> r.value in t && r.value.id == id
    ensures r.None? ==> forall e | e in t :: e.id != id
  {
    if t == [] then None else if t[0].id == id then Some(t[0]) else FindById(t[1..], id)
  }

  /** The parent's rows strictly older than the pivot; a pivot that is not in the table cuts nothing off. */
  predicate IsCandidate(e: Entry, parent: nat, pivot: Option<Entry>) {
    e.parent == parent && (pivot.Some? ==> e.sentAt < pivot.value.sentAt)
  }

  function Candidates(t: Table, parent: nat, pivot: Option<Entry>): seq<Entry> {
    if t == [] then []
    else (if IsCandidate(t[0], parent, pivot) then [t[0]] else []) + Candidates(t[1..], parent, pivot)
  }

  /** `order_by(sent_at.desc())` */
  function Insert(e: Entry, sorted: seq<Entry>): seq<Entry> {
    if sorted == [] || e.sentAt >= sorted[0].sentAt then [e] + sorted else [sorted[0]] + Insert(e, sorted[1..])
  }

  function NewestFirst(es: seq<Entry>): seq<Entry> {
    if es == [] then [] else Insert(es[0], NewestFirst(es[1..]))
  }

  function Take(es: seq<Entry>, n: nat): seq<Entry> {
    if n < |es| then es[..n] else es
  }

  function Pivot(t: Table, before: Option<nat>): Option<Entry> {
    if before.Some? then FindById(t, before.value) else None
  }

  /** `_page` */
  function Page(t: Table, parent: nat, before: Option<nat>, limit: nat): seq<Entry> {
    Take(NewestFirst(Candidates(t, parent, Pivot(t, before))), if limit < PAGE_CAP then limit else PAGE_CAP)
  }

  // ---- One page --------------------------------------------------------------------------------------------

  ghost predicate Descending(es: seq<Entry>) {
    forall i, j | 0 <= i < j < |es| :: es[i].sentAt > es[j].sentAt
  }

  /** One row per id, and no two rows sent at the same instant. */
  ghost predicate Distinct(t: Table) {
    forall x, y | x in t && y in t && x != y :: x.id != y.id && x.sentAt != y.sentAt
  }

  lemma {:induction false} CandidatesAreExact(t: Table, parent: nat, pivot: Option<Entry>)
    ensures forall e :: e in Candidates(t, parent, pivot) <==> e in t && IsCandidate(e, parent, pivot)
  {
    if t != [] {
      CandidatesAreExact(t[1..], parent, pivot);
      assert t == [t[0]] + t[1..];
    }
  }

  /** A table without repeated rows. */
  ghost predicate Rows(t: Table) {
    Distinct(t) && NoDup(t)
  }

  lemma {:induction false} CandidatesNoDup(t: Table, parent: nat, pivot: Option<Entry>)
    requires NoDup(t)
    ensures NoDup(Candidates(t, parent, pivot))
  {
    if t != [] {
      CandidatesNoDup(t[1..], parent, pivot);
      CandidatesAreExact(t[1..], parent, pivot);
      assert forall i | 0 <= i < |t[1..]| :: t[1..][i] == t[i + 1];
    }
  }

  lemma {:induction false} InsertKeepsElements(e: Entry, sorted: seq<Entry>)
    ensures forall x :: x in Insert(e, sorted) <==> x == e || x in sorted
  {
    if sorted != [] && e.sentAt < sorted[0].sentAt {
      InsertKeepsElements(e, sorted[1..]);
      assert sorted == [sorted[0]] + sorted[1..];
    }
  }

  lemma {:induction false} InsertIsExact(e: Entry, sorted: seq<Entry>)
    requires Descending(sorted) && forall x | x in sorted :: x.sentAt != e.sentAt
    ensures Descending(Insert(e, sorted))
    ensures forall x :: x in Insert(e, sorted) <==> x == e || x in sorted
    ensures |Insert(e, sorted)| == |sorted| + 1
  {
    InsertKeepsElements(e, sorted);
    if sorted == [] || e.sentAt >= sorted[0].sentAt {
      HeadIsNewest(sorted);
    } else {
      InsertIsExact(e, sorted[1..]);
      InsertKeepsElements(e, sorted[1..]);
      HeadIsNewest(sorted);
    }
  }

  lemma HeadIsNewest(es: seq<Entry>)
    requires Descending(es)
    ensures es != [] ==> forall x | x in es[1..] :: x.sentAt < es[0].sentAt
    ensures es != [] ==> es[0] in es && forall x | x in es :: x.sentAt <= es[0].sentAt
    ensures es != [] ==> forall x | x in es[1..] :: x in es
  {
  }

  lemma {:induction false} NewestFirstIsExact(es: seq<Entry>)
    requires NoDup(es) && Distinct(es)
    ensures Descending(NewestFirst(es)) && |NewestFirst(es)| == |es|
    ensures forall x :: x in NewestFirst(es) <==> x in es
  {
    if es != [] {
      assert es == [es[0]] + es[1..];
      assert forall j | 0 <= j < |es[1..]| :: es[1..][j] == es[j + 1];
      NewestFirstIsExact(es[1..]);
      InsertIsExact(es[0], NewestFirst(es[1..]));
    }
  }

  lemma SortedCandidates(t: Table, parent: nat, pivot: Option<Entry>)
    requires Rows(t)
    ensures Descending(NewestFirst(Candidates(t, parent, pivot)))
    ensures forall e :: e in NewestFirst(Candidates(t, parent, pivot)) <==> e in t && IsCandidate(e, parent, pivot)
  {
    CandidatesAreExact(t, parent, pivot);
    CandidatesNoDup(t, parent, pivot);
    NewestFirstIsExact(Candidates(t, parent, pivot));
  }

  /** A page lists, newest first, only rows of the parent older than the pivot; whatever older row it leaves out is
      older than everything on it; and it comes out short of its size only when nothing is left out. */
  lemma PageIsExact(t: Table, parent: nat, before: Option<nat>, limit: nat)
    requires Rows(t)
    ensures var page, pivot := Page(t, parent, before, limit), Pivot(t, before);
            && Descending(page) && |page| <= limit && |page| <= 200
            && (forall e | e in page :: e in t && IsCandidate(e, parent, pivot))
            && (forall e, x | e in t && IsCandidate(e, parent, pivot) && e !in page && x in page :: e.sentAt < x.sentAt)
            && (|page| < limit && |page| < 200 ==> forall e | e in t && IsCandidate(e, parent, pivot) :: e in page)
  {
    SortedCandidates(t, parent, Pivot(t, before));
  }

  /** A pivot that has been deleted cuts nothing off: the walk starts over at the newest message. */
  lemma DeletedPivotStartsOver(t: Table, parent: nat, id: nat, limit: nat)
    requires forall e | e in t :: e.id != id
    ensures Page(t, parent, Some(id), limit) == Page(t, parent, None, limit)
  {
    assert FindById(t, id) == None;
  }

  /** Why the instants must differ: of two rows sent at the same instant, one that a page leaves out after listing the
      other is never on the page that follows. */
  lemma TwinIsSkipped(t: Table, parent: nat, limit: nat, listed: Entry, twin: Entry)
    requires listed in t && listed.sentAt == twin.sentAt && forall e | e in t && e.id == listed.id :: e == listed
    ensures twin !in Page(t, parent, Some(listed.id), limit)
  {
    var found := FindById(t, listed.id);
    assert found == Some(listed);
    CandidatesAreExact(t, parent, found);
    SortKeepsElements(Candidates(t, parent, found));
  }

  lemma {:induction false} SortKeepsElements(es: seq<Entry>)
    ensures forall x :: x in NewestFirst(es) <==> x in es
  {
    if es != [] {
      SortKeepsElements(es[1..]);
      InsertKeepsElements(es[0], NewestFirst(es[1..]));
      assert es == [es[0]] + es[1..];
    }
  }

  // ---- The walk --------------------------------------------------------------------------------------------

  /** The pages a client got, and the table as it was when it asked for each. */
  datatype Walk = Walk(parent: nat, limit: nat, tables: seq<Table>, pages: seq<seq<Entry>>)

  function Flatten(pages: seq<seq<Entry>>): seq<Entry> {
    if pages == [] then [] else Flatten(pages[..|pages| - 1]) + pages[|pages| - 1]
  }

  function Last(page: seq<Entry>): Entry
    requires page != []
  {
    page[|page| - 1]
  }

  /** The id passed as `before` with request number k. */
  function Cursor(pages: seq<seq<Entry>>, k: nat): Option<nat>
    requires k <= |pages| && (k > 0 ==> pages[k - 1] != [])
  {
    if k == 0 then None else Some(Last(pages[k - 1]).id)
  }

  /** Each request passes the last id of the page before, and only the last page is empty. */
  ghost predicate Asked(w: Walk) {
    && |w.tables| == |w.pages| && w.limit >= 1
    && (forall k | 0 <= k < |w.pages| - 1 :: w.pages[k] != [])
    && (forall k | 0 <= k < |w.pages| ::
          w.pages[k] == Page(w.tables[k], w.parent, Cursor(w.pages, k), w.limit))
  }

  /** What may happen to the table meanwhile: rows may come, all newer than those of the start, and rows may go, but
      not the one the client holds as its cursor. */
  ghost predicate Undisturbed(w: Walk)
    requires Asked(w)
  {
    && (forall k | 0 <= k < |w.tables| :: Rows(w.tables[k]))
    && (forall k, e, s | 0 <= k < |w.tables| && e in w.tables[k] && e !in w.tables[0] && s in w.tables[0] ::
          e.sentAt > s.sentAt)
    && (forall k | 1 <= k < |w.tables| :: Last(w.pages[k - 1]) in w.tables[k])
  }

  /** A row of the start that was there at every request. */
  ghost predicate Stayed(w: Walk, e: Entry) {
    w.tables != [] && e.parent == w.parent && forall k | 0 <= k < |w.tables| :: e in w.tables[k]
  }

  /** Newest first, only rows of the start, and no staying row left out that is as new as the last one listed. */
  ghost predicate Covers(w: Walk, seen: seq<Entry>)
    requires w.tables != []
  {
    && Descending(seen)
    && (forall e | e in seen :: e in w.tables[0] && e.parent == w.parent)
    && (forall e | Stayed(w, e) && (seen == [] || e.sentAt >= Last(seen).sentAt) :: e in seen)
  }

  ghost predicate GoodSoFar(w: Walk, k: nat)
    requires 1 <= k <= |w.pages| == |w.tables|
  {
    Covers(w, Flatten(w.pages[..k]))
  }

  lemma FlattenSnoc(pages: seq<seq<Entry>>, k: nat)
    requires k < |pages|
    ensures Flatten(pages[..k + 1]) == Flatten(pages[..k]) + pages[k]
  {
    assert pages[..k + 1][..k] == pages[..k];
  }

  lemma {:induction false} LastSeen(pages: seq<seq<Entry>>, k: nat)
    requires 0 < k <= |pages| && pages[k - 1] != []
    ensures Flatten(pages[..k]) != [] && Last(Flatten(pages[..k])) == Last(pages[k - 1])
  {
    FlattenSnoc(pages, k - 1);
  }

  /** The page goes on below the instant `from`: older rows of the start, and no staying one skipped. */
  ghost predicate Continues(w: Walk, from: int, page: seq<Entry>)
    requires w.tables != []
  {
    && Descending(page)
    && (forall e | e in page :: e in w.tables[0] && e.parent == w.parent && e.sentAt < from)
    && (forall e | Stayed(w, e) && e.sentAt < from && e !in page :: page != [] && e.sentAt < Last(page).sentAt)
  }

  /** One page behind a cursor, when the table holds nothing new that is older than the cursor. */
  lemma PageBehindCursor(start: Table, t: Table, parent: nat, limit: nat, pivot: Entry)
    requires Rows(t) && pivot in t && pivot in start && limit >= 1
    requires forall e, s | e in t && e !in start && s in start :: e.sentAt > s.sentAt
    ensures var page := Page(t, parent, Some(pivot.id), limit);
            && Descending(page)
            && (forall e | e in page :: e in start && e.parent == parent && e.sentAt < pivot.sentAt)
            && (forall e | e in t && e.parent == parent && e.sentAt < pivot.sentAt && e !in page ::
                  page != [] && e.sentAt < Last(page).sentAt)
  {
    var page := Page(t, parent, Some(pivot.id), limit);
    assert FindById(t, pivot.id) == Some(pivot);
    PageIsExact(t, parent, Some(pivot.id), limit);
    assert page != [] ==> Last(page) in page;
  }

  lemma NextPageIsOlder(w: Walk, k: nat)
    requires Asked(w) && Undisturbed(w) && k < |w.pages| && (k > 0 ==> GoodSoFar(w, k))
    ensures k > 0 ==> Continues(w, Last(w.pages[k - 1]).sentAt, w.pages[k])
  {
    if k > 0 {
      var pivot, t := Last(w.pages[k - 1]), w.tables[k];
      LastSeen(w.pages, k);
      assert pivot in w.tables[0] by {
        assert Last(Flatten(w.pages[..k])) in Flatten(w.pages[..k]);
      }
      assert Rows(t) && pivot in t;
      PageBehindCursor(w.tables[0], t, w.parent, w.limit, pivot);
    }
  }

  lemma FirstPageIsGood(w: Walk)
    requires Asked(w) && Undisturbed(w) && |w.pages| > 0
    ensures Covers(w, w.pages[0])
  {
    var page, table := w.pages[0], w.tables[0];
    assert page == Page(table, w.parent, None, w.limit) && Rows(table);
    PageIsExact(table, w.parent, None, w.limit);
    forall e | Stayed(w, e) && e !in page
      ensures page != [] && e.sentAt < Last(page).sentAt
    {
      assert e in table && IsCandidate(e, w.parent, None);
      assert page != [] ==> Last(page) in page;
    }
  }

  lemma AppendCovers(w: Walk, seen: seq<Entry>, page: seq<Entry>)
    requires w.tables != [] && seen != [] && Covers(w, seen) && Continues(w, Last(seen).sentAt, page)
    ensures Covers(w, seen + page)
  {
  }

  lemma OneMorePageIsGood(w: Walk, k: nat)
    requires Asked(w) && Undisturbed(w) && k < |w.pages| && (k > 0 ==> GoodSoFar(w, k))
    ensures GoodSoFar(w, k + 1)
  {
    FlattenSnoc(w.pages, k);
    if k == 0 {
      FirstPageIsGood(w);
      assert Flatten(w.pages[..1]) == w.pages[0];
    } else {
      LastSeen(w.pages, k);
      NextPageIsOlder(w, k);
      AppendCovers(w, Flatten(w.pages[..k]), w.pages[k]);
    }
  }

  lemma {:induction false} EveryPageIsGood(w: Walk, k: nat)
    requires Asked(w) && Undisturbed(w) && 1 <= k <= |w.pages|
    ensures GoodSoFar(w, k)
  {
    if k > 1 {
      EveryPageIsGood(w, k - 1);
    }
    OneMorePageIsGood(w, k - 1);
  }

  lemma EmptyPageAddsNothing(pages: seq<seq<Entry>>)
    requires pages != [] && pages[|pages| - 1] == []
    ensures Flatten(pages) == Flatten(pages[..|pages| - 1])
  {
  }

  lemma NothingBehindTheEnd(w: Walk)
    requires Asked(w) && Undisturbed(w) && w.pages != [] && w.pages[|w.pages| - 1] == []
    ensures Flatten(w.pages) != [] ==> Continues(w, Last(Flatten(w.pages)).sentAt, [])
  {
    var k := |w.pages| - 1;
    EmptyPageAddsNothing(w.pages);
    if k > 0 {
      EveryPageIsGood(w, k);
      NextPageIsOlder(w, k);
      LastSeen(w.pages, k);
    }
  }

  /** A walk that came to its empty page has listed, newest first and once each, every message that was there at the
      start and stayed, and nothing that was not there at the start, whatever came or went in between. */
  lemma WalkIsComplete(w: Walk)
    requires Asked(w) && Undisturbed(w) && w.pages != [] && w.pages[|w.pages| - 1] == []
    ensures Descending(Flatten(w.pages))
    ensures forall e | e in Flatten(w.pages) :: e in w.tables[0] && e.parent == w.parent
    ensures forall e | Stayed(w, e) :: e in Flatten(w.pages)
  {
    EveryPageIsGood(w, |w.pages|);
    assert w.pages[..|w.pages|] == w.pages;
    NothingBehindTheEnd(w);
  }

  lemma {:induction false} DistinctFit(small: seq<Entry>, big: seq<Entry>)
    requires Descending(small) && forall e | e in small :: e in big
    ensures |small| <= |big|
    decreases |small|
  {
    if small != [] {
      assert small[0] in small;
      var i :| 0 <= i < |big| && big[i] == small[0];
      var rest := big[..i] + big[i + 1..];
      forall e | e in small[1..]
        ensures e in rest
      {
        assert e in small && e != small[0];
        var j :| 0 <= j < |big| && big[j] == e;
        assert rest[if j < i then j else j - 1] == e;
      }
      DistinctFit(small[1..], rest);
    }
  }

  lemma {:induction false} FlattenGrows(pages: seq<seq<Entry>>, k: nat)
    requires k <= |pages| && forall j | 0 <= j < k :: pages[j] != []
    ensures |Flatten(pages[..k])| >= k
  {
    if k > 0 {
      FlattenGrows(pages, k - 1);
      FlattenSnoc(pages, k - 1);
    }
  }

  /** Every walk ends: it never asks more often than there were messages at the start, plus once. */
  lemma WalkEnds(w: Walk)
    requires Asked(w) && Undisturbed(w) && w.pages != []
    ensures |w.pages| <= |Candidates(w.tables[0], w.parent, None)| + 1
  {
    var k := |w.pages| - 1;
    if k > 0 {
      EveryPageIsGood(w, k);
      FlattenGrows(w.pages, k);
      CandidatesAreExact(w.tables[0], w.parent, None);
      DistinctFit(Flatten(w.pages[..k]), Candidates(w.tables[0], w.parent, None));
    }
  }

  lemma {:induction false} SortedIsUnique(a: seq<Entry>, b: seq<Entry>)
    requires Descending(a) && Descending(b) && forall e :: e in a <==> e in b
    ensures a == b
    decreases |a|
  {
    if a == [] {
      assert forall j | 0 <= j < |b| :: b[j] in b;
    } else {
      assert a[0] in a && a[0] in b;
      assert b[0] in b && b[0] in a;
      assert a[0] == b[0];
      forall e | e in a[1..]
        ensures e in b[1..]
      {
        assert e in a && e != a[0];
        assert b == [b[0]] + b[1..];
      }
      forall e | e in b[1..]
        ensures e in a[1..]
      {
        assert e in b && e != b[0];
        assert a == [a[0]] + a[1..];
      }
      SortedIsUnique(a[1..], b[1..]);
    }
  }

  lemma WalkSeesTheStart(w: Walk)
    requires Asked(w) && Undisturbed(w) && w.pages != [] && w.pages[|w.pages| - 1] == []
    requires forall k, e | 0 <= k < |w.tables| && e in w.tables[0] :: e in w.tables[k]
    ensures Descending(Flatten(w.pages))
    ensures forall e :: e in Flatten(w.pages) <==> e in w.tables[0] && e.parent == w.parent
  {
    WalkIsComplete(w);
    assert forall e | e in w.tables[0] && e.parent == w.parent :: Stayed(w, e);
  }

  /** When nothing is deleted meanwhile, the walk is exactly the parent's messages of the start, newest first. */
  lemma WalkIsTheStart(w: Walk)
    requires Asked(w) && Undisturbed(w) && w.pages != [] && w.pages[|w.pages| - 1] == []
    requires forall k, e | 0 <= k < |w.tables| && e in w.tables[0] :: e in w.tables[k]
    ensures Flatten(w.pages) == NewestFirst(Candidates(w.tables[0], w.parent, None))
  {
    WalkSeesTheStart(w);
    SortedStart(w.tables[0], w.parent, Flatten(w.pages));
  }

  lemma SortedStart(t: Table, parent: nat, seen: seq<Entry>)
    requires Rows(t) && Descending(seen) && forall e :: e in seen <==> e in t && e.parent == parent
    ensures seen == NewestFirst(Candidates(t, parent, None))
  {
    SortedCandidates(t, parent, None);
    SortedIsUnique(seen, NewestFirst(Candidates(t, parent, None)));
  }
}
