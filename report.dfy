/** Upload outcomes and the run report: what the server's reply to an upload
    means for the failure list, and the report formula. */
module Report {

  /** The server's reply to one upload request: a status that is not ok, a
      JSON body whose `result` is literally false, or any other body. */
  datatype Reply = BadStatus(status: int) | ResultFalse | ResultOther

  /** The files among `files` whose upload the server rejected with a false
      result, in order: the ones the upload step records as failed. */
  function Rejected(files: seq<string>, reply: string -> Reply): seq<string>
    decreases |files|
  {
    if files == [] then []
    else
      var init, last := files[..|files| - 1], files[|files| - 1];
      Rejected(init, reply) + (if reply(last) == ResultFalse then [last] else [])
  }

  /** The files among `files` whose upload was not rejected with a false
      result, in order: a bad status counts here too. */
  function NotRejected(files: seq<string>, reply: string -> Reply): seq<string>
    decreases |files|
  {
    if files == [] then []
    else
      var init, last := files[..|files| - 1], files[|files| - 1];
      NotRejected(init, reply) + (if reply(last) == ResultFalse then [] else [last])
  }

  /** Rejected picks exactly the files with a false result, NotRejected the
      others, and together they account for every file once. */
  lemma {:induction false} RejectedSplit(files: seq<string>, reply: string -> Reply)
    ensures forall p :: p in Rejected(files, reply) <==> p in files && reply(p) == ResultFalse
    ensures forall p :: p in NotRejected(files, reply) <==> p in files && reply(p) != ResultFalse
    ensures |Rejected(files, reply)| + |NotRejected(files, reply)| == |files|
    decreases |files|
  {
    if files != [] {
      var init, last := files[..|files| - 1], files[|files| - 1];
      assert files == init + [last];
      RejectedSplit(init, reply);
    }
  }

  /** When no reply is a false result, nothing is rejected. */
  lemma {:induction false} NothingRejected(files: seq<string>, reply: string -> Reply)
    requires forall p :: p in files ==> reply(p) != ResultFalse
    ensures Rejected(files, reply) == []
    ensures NotRejected(files, reply) == files
    decreases |files|
  {
    if files != [] {
      var init, last := files[..|files| - 1], files[|files| - 1];
      assert files == init + [last];
      NothingRejected(init, reply);
    }
  }

  /** The counts the run prints: uploaded, skipped, failed, total. */
  datatype RunReport = RunReport(uploaded: nat, skipped: nat, failed: nat, total: nat)

  /** The report of a run from its three counted quantities: uploaded is what
      remains of the total after the skipped and failed files, floored at zero. */
  function MakeReport(total: nat, skipped: nat, failed: nat): (r: RunReport)
    ensures r.total == total && r.skipped == skipped && r.failed == failed
    ensures r.uploaded <= total
    ensures skipped + failed <= total ==> r.uploaded + r.skipped + r.failed == total
    ensures total <= skipped + failed ==> r.uploaded == 0
  {
    var remaining := total - skipped - failed;
    RunReport(if remaining > 0 then remaining else 0, skipped, failed, total)
  }
}
