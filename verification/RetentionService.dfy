/** The retention service over the live message table and attachment storage. */
module RetentionServices {
  import opened Common
  import opened Retention

  class RetentionService {
    var rows: seq<Row>
    var blobs: set<string>

    constructor ()
      ensures State() == Store([], {})
    {
      rows, blobs := [], {};
    }

    ghost function State(): Store
      reads this
    {
      Store(rows, blobs)
    }

    method PruneMessages(keepDays: int, now: int) returns (r: Result<Report, RetentionError>)
      modifies this
      ensures (State(), r) == Retention.PruneMessages(old(State()), keepDays, now)
    {
      if keepDays < 0 {
        return Err(NegativeKeepDays);
      }
      var candidates := OlderThan(rows, Threshold(keepDays, now));
      var eligible := Prunable(candidates, keepDays, now);
      var deletedIds := PresentIds(rows, Ids(eligible));
      rows := WithoutIds(rows, Ids(eligible));
      r := Ok(Report(deletedIds, |deletedIds|, |candidates| - |eligible|, 0));
    }

    /** One row's blobs, one call to the storage after another; `calls` and `errors` count on from the rows before. */
    method DeleteBlobs(urls: seq<Option<string>>, fails: nat -> bool, calls: nat, errors: nat, ghost first: set<string>,
                       ghost done: seq<string>)
      returns (calls': nat, errors': nat)
      requires calls == |done| && Sweep(first, done, fails) == (blobs, errors)
      modifies this`blobs
      ensures calls' == |done + PathsOf(urls)| && Sweep(first, done + PathsOf(urls), fails) == (blobs, errors')
    {
      calls', errors' := calls, errors;
      assert done + [] == done;
      for j := 0 to |urls|
        invariant calls' == |done + PathsOf(urls[..j])|
        invariant Sweep(first, done + PathsOf(urls[..j]), fails) == (blobs, errors')
      {
        assert urls[..j + 1][..j] == urls[..j];
        var path := UrlToStoragePath(urls[j]);
        if path.Some? {
          assert done + PathsOf(urls[..j + 1]) == done + PathsOf(urls[..j]) + [path.value];
          if fails(calls') {
            errors' := errors' + 1;
          } else {
            blobs := blobs - {path.value};
          }
          calls' := calls' + 1;
        }
      }
      assert urls[..|urls|] == urls;
    }

    /** Blob by blob over all eligible rows; a failing call to the storage is counted and passed over. */
    method PruneAttachments(keepDays: int, now: int, fails: nat -> bool) returns (r: Result<Report, RetentionError>)
      modifies this
      ensures (State(), r) == Retention.PruneAttachments(old(State()), keepDays, now, fails)
    {
      if keepDays < 0 {
        return Err(NegativeKeepDays);
      }
      var eligible := Eligible(rows, keepDays, now);
      var errors, calls := 0, 0;
      for i := 0 to |eligible|
        invariant rows == old(rows) && calls == |AllPaths(eligible[..i])|
        invariant Sweep(old(blobs), AllPaths(eligible[..i]), fails) == (blobs, errors)
      {
        assert eligible[..i] + [eligible[i]] == eligible[..i + 1];
        calls, errors := DeleteBlobs(eligible[i].urls, fails, calls, errors, old(blobs), AllPaths(eligible[..i]));
      }
      assert eligible[..|eligible|] == eligible;
      r := Ok(Report([], 0, 0, errors));
    }

    /** `run_retention_prune`; the job's failure leaves everything as it was. */
    method RunPrune(keepDays: int, first: int, second: int, fails: nat -> bool)
      modifies this
      ensures State() == NightlyJob(old(State()), keepDays, first, second, fails)
      ensures State() == Step(old(State()), Nightly(keepDays, first, second, fails))
    {
      var attachments := PruneAttachments(keepDays, first, fails);
      if attachments.Ok? {
        var messages := PruneMessages(keepDays, second);
      }
    }
  }
}
