/** Retention: pruning old message rows and the attachment blobs that belong to them. */
module Retention {
  import opened Common

  /** Instants count microseconds. */
  const DAY := 86_400_000_000

  datatype Row = Row(id: nat, sentAt: int, urls: seq<Option<string>>)

  datatype Store = Store(rows: seq<Row>, blobs: set<string>)

  datatype RetentionError = NegativeKeepDays

  datatype Report = Report(deletedIds: seq<nat>, deletedCount: nat, skippedCount: int, errors: nat)

  // ---- From a public URL back to the storage path ----------------------------------------------------------

  const MARKER := "meinchat/"

  predicate HasAt(s: string, i: nat) {
    i + |MARKER| <= |s| && s[i..i + |MARKER|] == MARKER
  }

  /** `url.find(marker)` */
  function FindMarker(s: string): (r: Option<nat>)
    ensures r.Some? ==> HasAt(s, r.value) && forall i | 0 <= i < r.value :: !HasAt(s, i)
    ensures r.None? ==> forall i | 0 <= i < |s| :: !HasAt(s, i)
  {
    FindMarkerFrom(s, 0)
  }

  function FindMarkerFrom(s: string, from: nat): (r: Option<nat>)
    requires from <= |s|
    ensures r.Some? ==> from <= r.value && HasAt(s, r.value) && forall i | from <= i < r.value :: !HasAt(s, i)
    ensures r.None? ==> forall i | from <= i < |s| :: !HasAt(s, i)
    decreases |s| - from
  {
    if from == |s| then None else if HasAt(s, from) then Some(from) else FindMarkerFrom(s, from + 1)
  }

  /** `lstrip("/")` */
  function DropSlashes(s: string): string {
    if s != "" && s[0] == '/' then DropSlashes(s[1..]) else s
  }

  function UrlToStoragePath(url: Option<string>): Option<string> {
    match url
    case None => None
    case Some(text) =>
      if text == "" then None
      else match FindMarker(text) case Some(i) => Some(text[i..]) case None => Some(DropSlashes(text))
  }

  /** No occurrence of the marker can straddle the seam in front of a path that starts with it. */
  lemma NoMarkerAcrossTheSeam(base: string, path: string, i: nat)
    requires HasAt(path, 0) && i < |base| < i + |MARKER|
    ensures !HasAt(base + path, i)
  {
    var all := base + path;
    if i + |MARKER| <= |all| {
      assert all[i..i + |MARKER|][|base| - i] == path[0];
      assert path[0..|MARKER|][0] == path[0] == 'm';
    }
  }

  /** Cutting the public URL of a stored path gives the path back exactly when what the storage put in front of it
      does not itself contain the marker. */
  lemma CutUndoesPublish(base: string, path: string)
    requires HasAt(path, 0)
    ensures UrlToStoragePath(Some(base + path)) == Some(path) <==> FindMarker(base) == None
  {
    var all := base + path;
    assert all[|base|..] == path && all[|base|..|base| + |MARKER|] == path[0..|MARKER|];
    assert HasAt(all, |base|);
    var cut := FindMarker(all).value;
    if FindMarker(base) == None {
      forall i | 0 <= i < |base|
        ensures !HasAt(all, i)
      {
        if i + |MARKER| <= |base| {
          assert all[i..i + |MARKER|] == base[i..i + |MARKER|];
          assert !HasAt(base, i);
        } else {
          NoMarkerAcrossTheSeam(base, path, i);
        }
      }
    } else {
      var j := FindMarker(base).value;
      assert all[j..j + |MARKER|] == base[j..j + |MARKER|];
      assert HasAt(all, j) && cut <= j;
      assert |all[cut..]| > |path|;
    }
  }

  /** A URL without the marker gives itself without its leading slashes. */
  lemma {:induction false} SlashesGo(text: string)
    ensures |DropSlashes(text)| <= |text| && text[|text| - |DropSlashes(text)|..] == DropSlashes(text)
    ensures forall i | 0 <= i < |text| - |DropSlashes(text)| :: text[i] == '/'
    ensures DropSlashes(text) != "" ==> DropSlashes(text)[0] != '/'
  {
    if text != "" && text[0] == '/' {
      var rest := text[1..];
      SlashesGo(rest);
      assert forall i | 1 <= i < |text| :: text[i] == rest[i - 1];
    }
  }

  /** Nothing for no URL; from the first marker on, where there is one; and else the URL without leading slashes. */
  lemma StoragePathIsExact(url: Option<string>, path: string)
    ensures UrlToStoragePath(url) == None <==> url == None || url == Some("")
    ensures UrlToStoragePath(url) == Some(path) <==>
              && url.Some? && url.value != ""
              && if exists i :: 0 <= i < |url.value| && HasAt(url.value, i) then
                   exists i | 0 <= i < |url.value| ::
                     HasAt(url.value, i) && (forall j | 0 <= j < i :: !HasAt(url.value, j)) && path == url.value[i..]
                 else
                   exists i | 0 <= i <= |url.value| ::
                     (forall j | 0 <= j < i :: url.value[j] == '/') && path == url.value[i..] && (path != "" ==> path[0] != '/')
  {
    if url.Some? && url.value != "" {
      var text := url.value;
      SlashesGo(text);
      assert text[|text| - |DropSlashes(text)|..] == DropSlashes(text);
      if FindMarker(text).None? && exists i | 0 <= i <= |text| ::
           (forall j | 0 <= j < i :: text[j] == '/') && path == text[i..] && (path != "" ==> path[0] != '/') {
        var i :| 0 <= i <= |text| && (forall j | 0 <= j < i :: text[j] == '/') && path == text[i..] &&
                 (path != "" ==> path[0] != '/');
        OneWayToDrop(text, i, |text| - |DropSlashes(text)|);
      }
    }
  }

  lemma OneWayToDrop(text: string, i: nat, k: nat)
    requires i <= |text| && k <= |text|
    requires forall j | 0 <= j < i || 0 <= j < k :: text[j] == '/'
    requires (i < |text| ==> text[i] != '/') && (k < |text| ==> text[k] != '/')
    ensures i == k
  {
  }

  // ---- The two passes --------------------------------------------------------------------------------------

  function Threshold(keepDays: nat, now: int): int {
    now - keepDays * DAY
  }

  /** `find_older_than` */
  function OlderThan(rows: seq<Row>, threshold: int): seq<Row> {
    if rows == [] then []
    else OlderThan(rows[..|rows| - 1], threshold) + if rows[|rows| - 1].sentAt < threshold then [rows[|rows| - 1]] else []
  }

  predicate ShouldPrune(row: Row, keepDays: nat, now: int) {
    row.sentAt < Threshold(keepDays, now)
  }

  function Prunable(rows: seq<Row>, keepDays: nat, now: int): seq<Row> {
    if rows == [] then []
    else
      Prunable(rows[..|rows| - 1], keepDays, now) +
      if ShouldPrune(rows[|rows| - 1], keepDays, now) then [rows[|rows| - 1]] else []
  }

  /** `_eligible_rows`: the candidates of the query, filtered once more by the policy. */
  function Eligible(rows: seq<Row>, keepDays: nat, now: int): seq<Row> {
    Prunable(OlderThan(rows, Threshold(keepDays, now)), keepDays, now)
  }

  function Ids(rows: seq<Row>): seq<nat> {
    seq(|rows|, i requires 0 <= i < |rows| => rows[i].id)
  }

  /** `delete_by_ids`: the rows that stay, and the ids that were really there. */
  function WithoutIds(rows: seq<Row>, ids: seq<nat>): seq<Row> {
    if rows == [] then []
    else WithoutIds(rows[..|rows| - 1], ids) + if rows[|rows| - 1].id in ids then [] else [rows[|rows| - 1]]
  }

  function PresentIds(rows: seq<Row>, ids: seq<nat>): seq<nat> {
    if rows == [] then []
    else PresentIds(rows[..|rows| - 1], ids) + if rows[|rows| - 1].id in ids then [rows[|rows| - 1].id] else []
  }

  function PruneMessages(s: Store, keepDays: int, now: int): (Store, Result<Report, RetentionError>) {
    if keepDays < 0 then (s, Err(NegativeKeepDays))
    else
      var eligible := Eligible(s.rows, keepDays, now);
      var skipped := |OlderThan(s.rows, Threshold(keepDays, now))| - |eligible|;
      var gone := PresentIds(s.rows, Ids(eligible));
      (s.(rows := WithoutIds(s.rows, Ids(eligible))), Ok(Report(gone, |gone|, skipped, 0)))
  }

  /** The storage paths behind one row's attachments, in order. */
  function PathsOf(urls: seq<Option<string>>): seq<string> {
    if urls == [] then []
    else
      match UrlToStoragePath(urls[|urls| - 1])
      case None => PathsOf(urls[..|urls| - 1])
      case Some(path) => PathsOf(urls[..|urls| - 1]) + [path]
  }

  function AllPaths(rows: seq<Row>): seq<string> {
    if rows == [] then [] else AllPaths(rows[..|rows| - 1]) + PathsOf(rows[|rows| - 1].urls)
  }

  /** Delete the blobs one by one; `fails(k)` says that the k-th call to the storage raised. */
  function Sweep(blobs: set<string>, paths: seq<string>, fails: nat -> bool): (set<string>, nat) {
    if paths == [] then (blobs, 0)
    else
      var n := |paths| - 1;
      var (left, errors) := Sweep(blobs, paths[..n], fails);
      if fails(n) then (left, errors + 1) else (left - {paths[n]}, errors)
  }

  function PruneAttachments(s: Store, keepDays: int, now: int, fails: nat -> bool): (Store, Result<Report, RetentionError>) {
    if keepDays < 0 then (s, Err(NegativeKeepDays))
    else
      var (left, errors) := Sweep(s.blobs, AllPaths(Eligible(s.rows, keepDays, now)), fails);
      (s.(blobs := left), Ok(Report([], 0, 0, errors)))
  }

  // ---- What is kept ----------------------------------------------------------------------------------------

  ghost predicate DistinctIds(rows: seq<Row>) {
    forall i, j | 0 <= i < j < |rows| :: rows[i].id != rows[j].id
  }

  /** The rows sent at or after the threshold, in table order. */
  function Kept(rows: seq<Row>, threshold: int): seq<Row> {
    if rows == [] then []
    else Kept(rows[..|rows| - 1], threshold) + if rows[|rows| - 1].sentAt >= threshold then [rows[|rows| - 1]] else []
  }

  lemma PolicyIsExact(row: Row, keepDays: nat, now: int)
    ensures ShouldPrune(row, keepDays, now) <==> now - row.sentAt > keepDays * 86_400_000_000
  {
  }

  lemma {:induction false} PolicyAgreesWithQuery(rows: seq<Row>, keepDays: nat, now: int)
    ensures Prunable(OlderThan(rows, Threshold(keepDays, now)), keepDays, now) == OlderThan(rows, Threshold(keepDays, now))
  {
    if rows != [] {
      var init, last := rows[..|rows| - 1], rows[|rows| - 1];
      PolicyAgreesWithQuery(init, keepDays, now);
      var older := OlderThan(init, Threshold(keepDays, now));
      if last.sentAt < Threshold(keepDays, now) {
        assert (older + [last])[..|older + [last]| - 1] == older;
      } else {
        assert older + [] == older;
      }
    }
  }

  lemma {:induction false} OlderMembers(rows: seq<Row>, threshold: int)
    ensures forall row :: row in OlderThan(rows, threshold) <==> row in rows && row.sentAt < threshold
  {
    if rows != [] {
      OlderMembers(rows[..|rows| - 1], threshold);
      assert rows == rows[..|rows| - 1] + [rows[|rows| - 1]];
    }
  }

  lemma {:induction false} KeptMembers(rows: seq<Row>, threshold: int)
    ensures forall row :: row in Kept(rows, threshold) <==> row in rows && row.sentAt >= threshold
    ensures |OlderThan(rows, threshold)| + |Kept(rows, threshold)| == |rows|
  {
    if rows != [] {
      KeptMembers(rows[..|rows| - 1], threshold);
      assert rows == rows[..|rows| - 1] + [rows[|rows| - 1]];
    }
  }

  lemma OlderIsExact(rows: seq<Row>, threshold: int)
    ensures forall row :: row in OlderThan(rows, threshold) <==> row in rows && row.sentAt < threshold
    ensures forall row :: row in Kept(rows, threshold) <==> row in rows && row.sentAt >= threshold
    ensures |OlderThan(rows, threshold)| + |Kept(rows, threshold)| == |rows|
  {
    OlderMembers(rows, threshold);
    KeptMembers(rows, threshold);
  }

  lemma IdsAreExact(rows: seq<Row>, row: Row, part: seq<Row>)
    requires DistinctIds(rows) && row in rows && forall x | x in part :: x in rows
    ensures row.id in Ids(part) <==> row in part
  {
    if row in part {
      var i :| 0 <= i < |part| && part[i] == row;
      assert Ids(part)[i] == row.id;
    }
    if row.id in Ids(part) {
      var i :| 0 <= i < |part| && Ids(part)[i] == row.id;
      assert part[i] in rows;
    }
  }

  lemma {:induction false} DeletingKeepsTheRest(rows: seq<Row>, ids: seq<nat>, threshold: int)
    requires forall row | row in rows :: row.id in ids <==> row.sentAt < threshold
    ensures WithoutIds(rows, ids) == Kept(rows, threshold)
    ensures PresentIds(rows, ids) == Ids(OlderThan(rows, threshold))
  {
    if rows != [] {
      var init, last := rows[..|rows| - 1], rows[|rows| - 1];
      assert rows == init + [last];
      DeletingKeepsTheRest(init, ids, threshold);
    }
  }

  /** A prune keeps exactly the rows sent at or after `now - keepDays`, reports exactly the ids of the others, and
      the policy's second look never skips a candidate; only a negative setting makes it fail. */
  lemma PruneIsExact(s: Store, keepDays: int, now: int)
    requires DistinctIds(s.rows)
    ensures var (after, r) := PruneMessages(s, keepDays, now);
            && (r.Ok? <==> keepDays >= 0)
            && (keepDays < 0 ==> after == s)
            && (keepDays >= 0 ==>
                  var aged := OlderThan(s.rows, Threshold(keepDays, now));
                  after == s.(rows := Kept(s.rows, Threshold(keepDays, now))) && r.value == Report(Ids(aged), |aged|, 0, 0))
  {
    if keepDays >= 0 {
      var threshold := Threshold(keepDays, now);
      var aged := OlderThan(s.rows, threshold);
      PolicyAgreesWithQuery(s.rows, keepDays, now);
      OlderIsExact(s.rows, threshold);
      forall row | row in s.rows
        ensures row.id in Ids(aged) <==> row.sentAt < threshold
      {
        IdsAreExact(s.rows, row, aged);
      }
      DeletingKeepsTheRest(s.rows, Ids(aged), threshold);
    }
  }

  lemma {:induction false} KeptTwice(rows: seq<Row>, first: int, second: int)
    requires first <= second
    ensures Kept(Kept(rows, first), second) == Kept(rows, second)
  {
    if rows != [] {
      var init, last := rows[..|rows| - 1], rows[|rows| - 1];
      KeptTwice(init, first, second);
      var kept := Kept(init, first);
      if last.sentAt >= first {
        assert (kept + [last])[..|kept + [last]| - 1] == kept;
      } else {
        assert kept + [] == kept && Kept(init, second) + [] == Kept(init, second);
      }
    }
  }

  lemma {:induction false} KeptDistinct(rows: seq<Row>, threshold: int)
    requires DistinctIds(rows)
    ensures DistinctIds(Kept(rows, threshold))
  {
    if rows != [] {
      KeptDistinct(rows[..|rows| - 1], threshold);
      OlderIsExact(rows[..|rows| - 1], threshold);
      assert forall row | row in rows[..|rows| - 1] :: row.id != rows[|rows| - 1].id;
    }
  }

  /** Pruning at one instant and again later is pruning at the later one; in particular a second run at the same
      instant deletes nothing. */
  lemma PruneTwice(s: Store, keepDays: nat, first: int, second: int)
    requires DistinctIds(s.rows) && first <= second
    ensures PruneMessages(PruneMessages(s, keepDays, first).0, keepDays, second).0 == PruneMessages(s, keepDays, second).0
    ensures PruneMessages(PruneMessages(s, keepDays, first).0, keepDays, first).1.value.deletedIds == []
  {
    var a, b := Threshold(keepDays, first), Threshold(keepDays, second);
    var mid := Kept(s.rows, a);
    PruneIsExact(s, keepDays, first);
    PruneIsExact(s, keepDays, second);
    KeptDistinct(s.rows, a);
    PruneIsExact(PruneMessages(s, keepDays, first).0, keepDays, first);
    PruneIsExact(PruneMessages(s, keepDays, first).0, keepDays, second);
    KeptTwice(s.rows, a, b);
    OlderIsExact(s.rows, a);
    OlderIsExact(mid, a);
    KeptTwice(s.rows, a, a);
    assert |OlderThan(mid, a)| == 0;
  }

  // ---- Blobs -----------------------------------------------------------------------------------------------

  ghost function BlobsOf(rows: seq<Row>): set<string> {
    set p | p in AllPaths(rows)
  }

  lemma {:induction false} AllPathsIsExact(rows: seq<Row>)
    ensures forall p :: p in AllPaths(rows) <==> exists row :: row in rows && p in PathsOf(row.urls)
  {
    if rows != [] {
      var init, last := rows[..|rows| - 1], rows[|rows| - 1];
      AllPathsIsExact(init);
      assert rows == init + [last];
      assert last in rows;
    }
  }

  /** A sweep touches nothing but the listed paths; it removes all of them unless a call failed, and counts the
      calls that did. */
  lemma {:induction false} SweepIsExact(blobs: set<string>, paths: seq<string>, fails: nat -> bool)
    ensures forall p :: p in Sweep(blobs, paths, fails).0 <==>
                        p in blobs && forall k | 0 <= k < |paths| && paths[k] == p :: fails(k)
    ensures Sweep(blobs, paths, fails).1 == |set k | 0 <= k < |paths| && fails(k)|
  {
    if paths != [] {
      var n := |paths| - 1;
      SweepIsExact(blobs, paths[..n], fails);
      var before := set k | 0 <= k < n && fails(k);
      assert (set k | 0 <= k < |paths[..n]| && fails(k)) == before;
      assert (set k | 0 <= k < |paths| && fails(k)) == if fails(n) then before + {n} else before;
      assert forall k | 0 <= k < n :: paths[..n][k] == paths[k];
    }
  }

  /** The paths of a row are those of its URLs, and no others. */
  lemma {:induction false} PathsOfIsExact(urls: seq<Option<string>>)
    ensures forall p :: p in PathsOf(urls) <==> exists i :: 0 <= i < |urls| && UrlToStoragePath(urls[i]) == Some(p)
  {
    if urls != [] {
      var init, last := urls[..|urls| - 1], urls[|urls| - 1];
      PathsOfIsExact(init);
      assert forall i | 0 <= i < |init| :: urls[i] == init[i];
      assert urls[|urls| - 1] == last;
    }
  }

  /** In days: the rows that stay are those sent no longer ago than that, and the report names exactly the others. */
  lemma PruneKeepsTheYoung(s: Store, keepDays: nat, now: int)
    requires DistinctIds(s.rows)
    ensures var (after, r) := PruneMessages(s, keepDays, now);
            && after.blobs == s.blobs && r.Ok?
            && (forall row :: row in after.rows <==> row in s.rows && now - row.sentAt <= keepDays * 86_400_000_000)
            && (forall id :: id in r.value.deletedIds <==>
                             exists row :: row in s.rows && row.id == id && now - row.sentAt > keepDays * 86_400_000_000)
            && r.value.deletedCount == |r.value.deletedIds| == |s.rows| - |after.rows|
            && r.value.skippedCount == 0 && r.value.errors == 0
  {
    var aged := OlderThan(s.rows, Threshold(keepDays, now));
    PruneIsExact(s, keepDays, now);
    OlderIsExact(s.rows, Threshold(keepDays, now));
    forall id
      ensures id in Ids(aged) <==> exists row :: row in s.rows && row.id == id && now - row.sentAt > keepDays * 86_400_000_000
    {
      if id in Ids(aged) {
        var i :| 0 <= i < |aged| && Ids(aged)[i] == id;
        assert aged[i] in aged;
      }
      if row :| row in s.rows && row.id == id && now - row.sentAt > keepDays * 86_400_000_000 {
        assert row in aged;
        var i :| 0 <= i < |aged| && aged[i] == row;
        assert Ids(aged)[i] == id;
      }
    }
  }

  ghost predicate HasUrlFor(row: Row, p: string) {
    exists i :: 0 <= i < |row.urls| && UrlToStoragePath(row.urls[i]) == Some(p)
  }

  lemma AgedPathsAreExact(s: Store, keepDays: nat, now: int, p: string)
    ensures p in AllPaths(Eligible(s.rows, keepDays, now)) <==>
              exists row :: row in s.rows && now - row.sentAt > keepDays * 86_400_000_000 && HasUrlFor(row, p)
  {
    var aged := OlderThan(s.rows, Threshold(keepDays, now));
    PolicyAgreesWithQuery(s.rows, keepDays, now);
    OlderIsExact(s.rows, Threshold(keepDays, now));
    AllPathsIsExact(aged);
    forall row: Row
      ensures p in PathsOf(row.urls) <==> HasUrlFor(row, p)
    {
      PathsOfIsExact(row.urls);
    }
  }

  /** The attachment pass touches no row, and no blob but those behind the URLs of rows that are too old; where the
      storage does not fail it takes all of those. The report counts the calls that failed. */
  lemma AttachmentsAreExact(s: Store, keepDays: nat, now: int, fails: nat -> bool, p: string)
    ensures var (after, r) := PruneAttachments(s, keepDays, now, fails);
            var doomed := exists row :: row in s.rows && now - row.sentAt > keepDays * 86_400_000_000 && HasUrlFor(row, p);
            && after.rows == s.rows && r.Ok?
            && (p in after.blobs ==> p in s.blobs) && (p in s.blobs && !doomed ==> p in after.blobs)
            && ((forall k: nat :: !fails(k)) ==> (p in after.blobs <==> p in s.blobs && !doomed) && r.value.errors == 0)
            && r.value.errors == |set k | 0 <= k < |AllPaths(Eligible(s.rows, keepDays, now))| && fails(k)|
            && r.value.deletedIds == [] && r.value.deletedCount == 0 && r.value.skippedCount == 0
  {
    var paths := AllPaths(Eligible(s.rows, keepDays, now));
    AgedPathsAreExact(s, keepDays, now, p);
    SweepIsExact(s.blobs, paths, fails);
    assert forall k | 0 <= k < |paths| :: paths[k] in paths;
    if forall k: nat :: !fails(k) {
      assert (set k | 0 <= k < |paths| && fails(k)) == {};
    }
  }

  /** A negative setting makes both passes fail and change nothing. */
  lemma NegativeSettingFails(s: Store, keepDays: int, now: int, fails: nat -> bool)
    requires keepDays < 0
    ensures PruneMessages(s, keepDays, now) == (s, Err(NegativeKeepDays))
    ensures PruneAttachments(s, keepDays, now, fails) == (s, Err(NegativeKeepDays))
  {
  }

  /** The nightly job: attachments first, then rows. Both passes read the clock for themselves. */
  function NightlyJob(s: Store, keepDays: int, first: int, second: int, fails: nat -> bool): Store {
    PruneMessages(PruneAttachments(s, keepDays, first, fails).0, keepDays, second).0
  }

  /** No blob is used by two rows. */
  ghost predicate OwnBlobs(rows: seq<Row>) {
    forall i, j, p | 0 <= i < j < |rows| && p in PathsOf(rows[i].urls) :: p !in PathsOf(rows[j].urls)
  }

  lemma NightlyJobIsExact(s: Store, keepDays: nat, first: int, second: int, fails: nat -> bool)
    requires DistinctIds(s.rows)
    ensures var after := NightlyJob(s, keepDays, first, second, fails);
            var doomed := AllPaths(OlderThan(s.rows, Threshold(keepDays, first)));
            && after.rows == Kept(s.rows, Threshold(keepDays, second))
            && after.blobs == Sweep(s.blobs, doomed, fails).0
  {
    PolicyAgreesWithQuery(s.rows, keepDays, first);
    PruneIsExact(PruneAttachments(s, keepDays, first, fails).0, keepDays, second);
  }

  /** Every row that lost a blob is deleted in the same job, whatever fails, as long as the clock does not go back. */
  lemma RowsOutliveNoBlob(s: Store, keepDays: nat, first: int, second: int, fails: nat -> bool, row: Row)
    requires DistinctIds(s.rows) && OwnBlobs(s.rows) && first <= second
    requires row in NightlyJob(s, keepDays, first, second, fails).rows
    ensures forall p | p in PathsOf(row.urls) && p in s.blobs :: p in NightlyJob(s, keepDays, first, second, fails).blobs
  {
    var a, b := Threshold(keepDays, first), Threshold(keepDays, second);
    NightlyJobIsExact(s, keepDays, first, second, fails);
    var aged := OlderThan(s.rows, a);
    OlderIsExact(s.rows, a);
    OlderIsExact(s.rows, b);
    AllPathsIsExact(aged);
    SweepIsExact(s.blobs, AllPaths(aged), fails);
    forall p | p in PathsOf(row.urls)
      ensures p !in AllPaths(aged)
    {
      forall other | other in aged
        ensures p !in PathsOf(other.urls)
      {
        DifferentRowsDifferentBlobs(s.rows, row, other, p);
      }
    }
  }

  lemma DifferentRowsDifferentBlobs(rows: seq<Row>, x: Row, y: Row, p: string)
    requires OwnBlobs(rows) && x in rows && y in rows && x != y && p in PathsOf(x.urls)
    ensures p !in PathsOf(y.urls)
  {
    var i :| 0 <= i < |rows| && rows[i] == x;
    var j :| 0 <= j < |rows| && rows[j] == y;
    if i < j {
      assert p !in PathsOf(rows[j].urls);
    } else {
      assert j < i && p in PathsOf(rows[i].urls);
    }
  }

  lemma SweepWithoutFailure(blobs: set<string>, paths: seq<string>)
    ensures Sweep(blobs, paths, (k: nat) => false).0 == blobs - set p | p in paths
  {
    SweepIsExact(blobs, paths, (k: nat) => false);
    assert forall k | 0 <= k < |paths| :: paths[k] in paths;
  }

  lemma BlobsSplit(rows: seq<Row>, threshold: int)
    ensures BlobsOf(rows) == BlobsOf(Kept(rows, threshold)) + BlobsOf(OlderThan(rows, threshold))
  {
    OlderIsExact(rows, threshold);
    AllPathsIsExact(rows);
    AllPathsIsExact(Kept(rows, threshold));
    AllPathsIsExact(OlderThan(rows, threshold));
  }

  /** When the storage does not fail and nothing was orphaned before, what is left is exactly the blobs of the rows
      that were young enough for the first pass, unless one of them shared a blob with an older row. */
  lemma WhatTheJobLeaves(s: Store, keepDays: nat, first: int, second: int)
    requires DistinctIds(s.rows) && s.blobs == BlobsOf(s.rows)
    ensures var after := NightlyJob(s, keepDays, first, second, (k: nat) => false);
            var a := Threshold(keepDays, first);
            after.blobs == BlobsOf(Kept(s.rows, a)) <==> BlobsOf(Kept(s.rows, a)) !! BlobsOf(OlderThan(s.rows, a))
  {
    var a := Threshold(keepDays, first);
    NightlyJobIsExact(s, keepDays, first, second, (k: nat) => false);
    SweepWithoutFailure(s.blobs, AllPaths(OlderThan(s.rows, a)));
    BlobsSplit(s.rows, a);
  }

  /** If both passes read the same instant, the surviving blobs are those of the surviving rows exactly when no
      deleted row shared a blob with a surviving one. */
  lemma SameInstantLeavesNoOrphan(s: Store, keepDays: nat, now: int)
    requires DistinctIds(s.rows) && s.blobs == BlobsOf(s.rows)
    ensures var after := NightlyJob(s, keepDays, now, now, (k: nat) => false);
            after.blobs == BlobsOf(after.rows) <==>
              BlobsOf(after.rows) !! BlobsOf(OlderThan(s.rows, Threshold(keepDays, now)))
  {
    WhatTheJobLeaves(s, keepDays, now, now);
    NightlyJobIsExact(s, keepDays, now, now, (k: nat) => false);
  }

  // ---- What is left behind ---------------------------------------------------------------------------------

  /** Every row in the table has all its blobs, and none is anybody else's. */
  ghost predicate NoDanglingRow(s: Store) {
    DistinctIds(s.rows) && OwnBlobs(s.rows) && forall row, p | row in s.rows && p in PathsOf(row.urls) :: p in s.blobs
  }

  /** The blobs that belong to no row. */
  ghost function Orphans(s: Store): set<string> {
    s.blobs - BlobsOf(s.rows)
  }

  /** Some call to delete p did not fail. */
  ghost predicate Swept(paths: seq<string>, fails: nat -> bool, p: string) {
    exists k | 0 <= k < |paths| :: paths[k] == p && !fails(k)
  }

  /** The blobs of the rows a job deletes that its first pass did not get rid of: because it did not come by, or
      because the storage refused. */
  ghost function LeftBy(s: Store, keepDays: nat, first: int, second: int, fails: nat -> bool): set<string> {
    set p | p in BlobsOf(OlderThan(s.rows, Threshold(keepDays, second))) &&
            !Swept(AllPaths(OlderThan(s.rows, Threshold(keepDays, first))), fails, p)
  }

  lemma OlderAndKeptShareNothing(rows: seq<Row>, threshold: int)
    requires OwnBlobs(rows)
    ensures BlobsOf(OlderThan(rows, threshold)) !! BlobsOf(Kept(rows, threshold))
  {
    var aged, kept := OlderThan(rows, threshold), Kept(rows, threshold);
    OlderIsExact(rows, threshold);
    AllPathsIsExact(aged);
    AllPathsIsExact(kept);
    forall p | p in BlobsOf(aged)
      ensures p !in BlobsOf(kept)
    {
      var x :| x in aged && p in PathsOf(x.urls);
      forall y | y in kept
        ensures p !in PathsOf(y.urls)
      {
        DifferentRowsDifferentBlobs(rows, x, y, p);
      }
    }
  }

  lemma SweepLeaves(blobs: set<string>, paths: seq<string>, fails: nat -> bool, p: string)
    ensures p in Sweep(blobs, paths, fails).0 <==> p in blobs && !Swept(paths, fails, p)
    ensures Swept(paths, fails, p) ==> p in paths
  {
    SweepIsExact(blobs, paths, fails);
  }

  /** One job adds to the orphans exactly what it leaves, and frees none, whatever fails. */
  lemma JobOrphans(s: Store, keepDays: nat, first: int, second: int, fails: nat -> bool)
    requires NoDanglingRow(s) && first <= second
    ensures Orphans(NightlyJob(s, keepDays, first, second, fails)) == Orphans(s) + LeftBy(s, keepDays, first, second, fails)
  {
    var a, b := Threshold(keepDays, first), Threshold(keepDays, second);
    var after, doomed := NightlyJob(s, keepDays, first, second, fails), AllPaths(OlderThan(s.rows, a));
    NightlyJobIsExact(s, keepDays, first, second, fails);
    BlobsSplit(s.rows, a);
    BlobsSplit(s.rows, b);
    OlderAndKeptShareNothing(s.rows, b);
    AllPathsIsExact(s.rows);
    forall p
      ensures p in Orphans(after) <==> p in Orphans(s) || p in LeftBy(s, keepDays, first, second, fails)
    {
      SweepLeaves(s.blobs, doomed, fails, p);
    }
  }

  /** In a table without orphans, and with a storage that never fails, the job leaves none exactly when no row with an
      attachment was sent in the gap between the two readings' thresholds: such a row is deleted by the second pass
      after the first one spared its blobs. */
  lemma NoOrphanExactlyUnlessCrossing(s: Store, keepDays: nat, first: int, second: int)
    requires DistinctIds(s.rows) && OwnBlobs(s.rows) && s.blobs == BlobsOf(s.rows) && first <= second
    ensures var after := NightlyJob(s, keepDays, first, second, (k: nat) => false);
            after.blobs == BlobsOf(after.rows) <==>
              forall row | row in s.rows && Threshold(keepDays, first) <= row.sentAt < Threshold(keepDays, second) ::
                PathsOf(row.urls) == []
  {
    var never := (k: nat) => false;
    var after := NightlyJob(s, keepDays, first, second, never);
    AllPathsIsExact(s.rows);
    JobOrphans(s, keepDays, first, second, never);
    StepLeavesNoDanglingRow(s, Nightly(keepDays, first, second, never));
    assert Step(s, Nightly(keepDays, first, second, never)) == after;
    var left := LeftBy(s, keepDays, first, second, never);
    assert Orphans(s) == {} && Orphans(s) + left == left;
    NoOrphansMeansExact(after);
    LeftByWithoutFailure(s, keepDays, first, second);
  }

  lemma NoOrphansMeansExact(s: Store)
    requires NoDanglingRow(s)
    ensures s.blobs == BlobsOf(s.rows) <==> Orphans(s) == {}
  {
    AllPathsIsExact(s.rows);
    assert BlobsOf(s.rows) <= s.blobs;
    assert BlobsOf(s.rows) + Orphans(s) == s.blobs;
  }

  lemma OlderBlobIsSwept(rows: seq<Row>, threshold: int, row: Row, p: string)
    requires row in rows && row.sentAt < threshold && p in PathsOf(row.urls)
    ensures Swept(AllPaths(OlderThan(rows, threshold)), (k: nat) => false, p)
  {
    OlderIsExact(rows, threshold);
    AllPathsIsExact(OlderThan(rows, threshold));
    assert p in AllPaths(OlderThan(rows, threshold));
  }

  lemma LeftByWithoutFailure(s: Store, keepDays: nat, first: int, second: int)
    requires OwnBlobs(s.rows) && first <= second
    ensures LeftBy(s, keepDays, first, second, (k: nat) => false) == {} <==>
              forall row | row in s.rows && Threshold(keepDays, first) <= row.sentAt < Threshold(keepDays, second) ::
                PathsOf(row.urls) == []
  {
    var a, b, never := Threshold(keepDays, first), Threshold(keepDays, second), (k: nat) => false;
    var left, doomed := LeftBy(s, keepDays, first, second, never), AllPaths(OlderThan(s.rows, a));
    OlderIsExact(s.rows, a);
    OlderIsExact(s.rows, b);
    AllPathsIsExact(OlderThan(s.rows, a));
    AllPathsIsExact(OlderThan(s.rows, b));
    OlderAndKeptShareNothing(s.rows, a);
    AllPathsIsExact(Kept(s.rows, a));
    forall row | row in s.rows && a <= row.sentAt < b && PathsOf(row.urls) != []
      ensures PathsOf(row.urls)[0] in left
    {
      var p := PathsOf(row.urls)[0];
      assert p in PathsOf(row.urls) && row in Kept(s.rows, a) && row in OlderThan(s.rows, b);
      SweepLeaves({}, doomed, never, p);
      assert p in BlobsOf(Kept(s.rows, a)) && p in BlobsOf(OlderThan(s.rows, b));
    }
    forall p | p in left
      ensures exists row :: row in s.rows && a <= row.sentAt < b && PathsOf(row.urls) != []
    {
      var row :| row in OlderThan(s.rows, b) && p in PathsOf(row.urls);
      if row.sentAt < a {
        OlderBlobIsSwept(s.rows, a, row, p);
      }
    }
  }

  /** The row in the gap: sent at 0, kept by the reading at 0, deleted by the reading at 1; its blob stays. */
  lemma CrossingRowLeavesItsBlob()
    ensures var s := Store([Row(0, 0, [Some(MARKER + "a")])], {MARKER + "a"});
            s.blobs == BlobsOf(s.rows) &&
            NightlyJob(s, 0, 0, 1, (k: nat) => false) == Store([], {MARKER + "a"})
  {
    var path := MARKER + "a";
    var row := Row(0, 0, [Some(path)]);
    var s := Store([row], {path});
    assert path[0..|MARKER|] == MARKER;
    CutUndoesPublish("", path);
    assert "" + path == path && PathsOf([Some(path)][..0]) == [] && PathsOf(row.urls) == [path];
    assert AllPaths([row][..0]) == [] && AllPaths([row]) == [path];
    NightlyJobIsExact(s, 0, 0, 1, (k: nat) => false);
    assert [row][..0] == [];
  }

  // ---- Over whole runs -------------------------------------------------------------------------------------

  datatype Event = Arrive(row: Row) | Nightly(keepDays: int, first: int, second: int, fails: nat -> bool)

  /** A new message brings its blobs with it. */
  function Step(s: Store, e: Event): Store {
    match e
    case Arrive(row) => Store(s.rows + [row], s.blobs + set p | p in PathsOf(row.urls))
    case Nightly(keepDays, first, second, fails) => NightlyJob(s, keepDays, first, second, fails)
  }

  function Run(events: seq<Event>): Store {
    if events == [] then Store([], {}) else Step(Run(events[..|events| - 1]), events[|events| - 1])
  }

  /** New ids and new storage paths for new messages, and a clock that does not go back during a job. */
  ghost predicate Orderly(events: seq<Event>) {
    forall n | 0 <= n < |events| :: Allowed(Run(events[..n]), events[n])
  }

  ghost predicate Allowed(s: Store, e: Event) {
    match e
    case Arrive(row) => forall x | x in s.rows :: x.id != row.id && forall p | p in PathsOf(row.urls) :: p !in PathsOf(x.urls)
    case Nightly(_, first, second, _) => first <= second
  }

  lemma {:induction false} KeptOwnBlobs(rows: seq<Row>, threshold: int)
    requires OwnBlobs(rows)
    ensures OwnBlobs(Kept(rows, threshold))
  {
    if rows != [] {
      var init, last := rows[..|rows| - 1], rows[|rows| - 1];
      KeptOwnBlobs(init, threshold);
      OlderIsExact(init, threshold);
      forall row, p | row in init && p in PathsOf(row.urls)
        ensures p !in PathsOf(last.urls)
      {
        var i :| 0 <= i < |init| && init[i] == row;
        assert rows[i] == row;
      }
    }
  }

  lemma StepLeavesNoDanglingRow(s: Store, e: Event)
    requires NoDanglingRow(s) && Allowed(s, e)
    ensures NoDanglingRow(Step(s, e))
  {
    if e.Nightly? && e.keepDays >= 0 {
      var after := Step(s, e);
      NightlyJobIsExact(s, e.keepDays, e.first, e.second, e.fails);
      KeptDistinct(s.rows, Threshold(e.keepDays, e.second));
      KeptOwnBlobs(s.rows, Threshold(e.keepDays, e.second));
      OlderIsExact(s.rows, Threshold(e.keepDays, e.second));
      forall row | row in after.rows
        ensures forall p | p in PathsOf(row.urls) :: p in after.blobs
      {
        RowsOutliveNoBlob(s, e.keepDays, e.first, e.second, e.fails, row);
      }
    }
  }

  /** Over any run of arrivals and nightly jobs, with any storage failures and any settings: every row still in the
      table has all its blobs. */
  lemma {:induction false} NoRowEverDangles(events: seq<Event>)
    requires Orderly(events)
    ensures NoDanglingRow(Run(events))
  {
    if events != [] {
      var init := events[..|events| - 1];
      assert forall n | 0 <= n < |init| :: init[..n] == events[..n] && init[n] == events[n];
      assert Allowed(Run(events[..|init|]), events[|init|]);
      NoRowEverDangles(init);
      StepLeavesNoDanglingRow(Run(init), events[|init|]);
    }
  }

  /** What an event adds to the orphans. */
  ghost function LeftAt(s: Store, e: Event): set<string> {
    match e
    case Arrive(_) => {}
    case Nightly(keepDays, first, second, fails) =>
      if keepDays < 0 then {} else LeftBy(s, keepDays, first, second, fails)
  }

  /** What each event of a run gives, seen with everything that happened before it. */
  ghost function Trace<T>(events: seq<Event>, f: (seq<Event>, Event) -> T): (r: seq<T>)
    ensures |r| == |events|
  {
    if events == [] then []
    else Trace(events[..|events| - 1], f) + [f(events[..|events| - 1], events[|events| - 1])]
  }

  lemma {:induction false} TraceAt<T>(events: seq<Event>, f: (seq<Event>, Event) -> T, n: nat)
    requires n < |events|
    ensures Trace(events, f)[n] == f(events[..n], events[n])
  {
    var m := |events| - 1;
    if n < m {
      TraceAt(events[..m], f, n);
      assert events[..m][..n] == events[..n];
    }
  }

  /** What each event of a run left behind. */
  ghost function Left(events: seq<Event>): (r: seq<set<string>>)
    ensures |r| == |events|
  {
    Trace(events, (before: seq<Event>, e: Event) => LeftAt(Run(before), e))
  }

  ghost function Union(parts: seq<set<string>>): set<string> {
    set n: nat, p | n < |parts| && p in parts[n] :: p
  }

  lemma UnionSnoc(parts: seq<set<string>>, last: set<string>)
    ensures Union(parts + [last]) == Union(parts) + last
  {
    var all := parts + [last];
    assert forall n: nat | n < |parts| :: all[n] == parts[n];
    assert all[|parts|] == last;
  }

  /** Part number n is what event number n added in the state it met. */
  lemma LeftIsExact(events: seq<Event>, n: nat)
    requires n < |events|
    ensures Left(events)[n] == LeftAt(Run(events[..n]), events[n])
  {
    TraceAt(events, (before: seq<Event>, e: Event) => LeftAt(Run(before), e), n);
  }

  /** No message is ever stored under a path that is still in use. */
  ghost predicate FreshPaths(events: seq<Event>) {
    forall n | 0 <= n < |events| :: FreshAt(Run(events[..n]), events[n])
  }

  ghost predicate FreshAt(s: Store, e: Event) {
    e.Arrive? ==> forall p | p in PathsOf(e.row.urls) :: p !in s.blobs
  }

  lemma StepOrphans(s: Store, e: Event)
    requires NoDanglingRow(s) && Allowed(s, e) && FreshAt(s, e)
    ensures Orphans(Step(s, e)) == Orphans(s) + LeftAt(s, e)
  {
    match e
    case Arrive(row) => assert (s.rows + [row])[..|s.rows + [row]| - 1] == s.rows;
    case Nightly(keepDays, first, second, fails) => if keepDays >= 0 { JobOrphans(s, keepDays, first, second, fails); }
  }

  lemma PrefixIsOrderly(events: seq<Event>, m: nat)
    requires Orderly(events) && FreshPaths(events) && m < |events|
    ensures Orderly(events[..m]) && FreshPaths(events[..m])
    ensures Allowed(Run(events[..m]), events[m]) && FreshAt(Run(events[..m]), events[m])
  {
    assert forall n | 0 <= n < m :: events[..m][..n] == events[..n] && events[..m][n] == events[n];
  }

  /** Over any run, the blobs that belong to no row are exactly those the jobs left behind: blobs of rows that crossed
      the threshold between the two readings, and blobs the storage refused to delete. */
  lemma {:induction false} OrphansAreWhatJobsLeft(events: seq<Event>)
    requires Orderly(events) && FreshPaths(events)
    ensures Orphans(Run(events)) == Union(Left(events))
  {
    if events != [] {
      var m := |events| - 1;
      PrefixIsOrderly(events, m);
      OrphansAreWhatJobsLeft(events[..m]);
      NoRowEverDangles(events[..m]);
      StepOrphans(Run(events[..m]), events[m]);
      UnionSnoc(Left(events[..m]), LeftAt(Run(events[..m]), events[m]));
    }
  }

  /** So the blobs are exactly those of the rows after a run, if and only if no job of the run left anything. */
  lemma {:induction false} NoOrphanIffEveryJobIsClean(events: seq<Event>)
    requires Orderly(events) && FreshPaths(events)
    ensures Run(events).blobs == BlobsOf(Run(events).rows) <==> forall n: nat | n < |events| :: Left(events)[n] == {}
  {
    OrphansAreWhatJobsLeft(events);
    NoRowEverDangles(events);
    NoOrphansMeansExact(Run(events));
  }
}
