/**
 * The export-job poller of `exportPages`: a do-while loop that asks the
 * remote service for the job status until a response names the artifact.
 * The remote service is an oracle: the finite sequence of responses it would
 * give, in order. The one-second sleeps have no effect on control flow and
 * are not modelled.
 */
module Poll {
  import opened Wrappers

  /** One status response; `progress` is only ever logged. */
  datatype Status = Status(progress: int, filename: Option<string>)

  /** The arguments handed to `downloadFile` once polling stops. */
  datatype Download = Download(exportId: string, filename: string)

  /**
   * The loop's exit test `status.data.filename` is JavaScript truthiness:
   * both a missing field and the empty string mean "keep polling".
   */
  predicate Ready(s: Status) {
    s.filename.Some? && s.filename.value != ""
  }

  /** Some response of the oracle names the artifact. */
  predicate Terminates(rs: seq<Status>) {
    exists i :: 0 <= i < |rs| && Ready(rs[i])
  }

  /**
   * Reference semantics of the do-while loop over a finite oracle: the
   * artifact name and the number of status checks made, or `None` when the
   * oracle runs out before any response is ready (the real loop would keep
   * polling forever).
   */
  function Poll(rs: seq<Status>): (r: Option<(string, nat)>)
    ensures r.None? <==> !Terminates(rs)
    ensures r.Some? ==>
      var (name, checks) := r.value;
      && 1 <= checks <= |rs|
      && Ready(rs[checks - 1])
      && name == rs[checks - 1].filename.value
      && name != ""
      && (forall j :: 0 <= j < checks - 1 ==> !Ready(rs[j]))
  {
    if |rs| == 0 then None
    else if Ready(rs[0]) then Some((rs[0].filename.value, 1))
    else
      match Poll(rs[1..])
      case None =>
        assert forall j :: 1 <= j < |rs| ==> rs[j] == rs[1..][j - 1];
        None
      case Some((name, checks)) =>
        assert forall j :: 1 <= j < checks + 1 ==> rs[j] == rs[1..][j - 1];
        Some((name, checks + 1))
  }

  /** Responses after the first ready one are never consulted. */
  lemma {:induction false} PollIgnoresLaterResponses(rs: seq<Status>, later: seq<Status>)
    requires Terminates(rs)
    ensures Poll(rs + later) == Poll(rs)
  {
    if Ready(rs[0]) {
      assert (rs + later)[0] == rs[0];
    } else {
      assert (rs + later)[0] == rs[0];
      assert (rs + later)[1..] == rs[1..] + later;
      var i :| 0 <= i < |rs| && Ready(rs[i]);
      assert rs[1..][i - 1] == rs[i];
      PollIgnoresLaterResponses(rs[1..], later);
    }
  }

  /**
   * The poll loop itself. The source has no attempt bound, so termination
   * rests on the oracle holding a ready response.
   */
  method PollUntilReady(rs: seq<Status>) returns (filename: string, checks: nat)
    requires Terminates(rs)
    ensures 1 <= checks <= |rs|
    ensures Ready(rs[checks - 1]) && filename == rs[checks - 1].filename.value
    ensures filename != ""
    ensures forall j :: 0 <= j < checks - 1 ==> !Ready(rs[j])
    ensures Poll(rs) == Some((filename, checks))
  {
    // do { status = checkStatus(..) } while (!status.data.filename)
    var status := rs[0];
    checks := 1;
    while !Ready(status)
      invariant 1 <= checks <= |rs|
      invariant status == rs[checks - 1]
      invariant forall j :: 0 <= j < checks - 1 ==> !Ready(rs[j])
      decreases |rs| - checks
    {
      status := rs[checks];
      checks := checks + 1;
    }
    filename := status.filename.value;
    PollMatches(rs, checks);
  }

  /** A response ready at index `n - 1`, none ready before it, fixes `Poll`. */
  lemma {:induction false} PollMatches(rs: seq<Status>, n: nat)
    requires 1 <= n <= |rs| && Ready(rs[n - 1])
    requires forall j :: 0 <= j < n - 1 ==> !Ready(rs[j])
    ensures Poll(rs) == Some((rs[n - 1].filename.value, n))
  {
    if n > 1 {
      assert forall j :: 0 <= j < n - 2 ==> rs[1..][j] == rs[j + 1];
      PollMatches(rs[1..], n - 1);
    }
  }

  /**
   * `exportPages`: start the export (its job id is the oracle's `exportId`),
   * poll, and hand the job id and the first non-empty filename to the
   * download step.
   */
  method ExportPages(exportId: string, rs: seq<Status>) returns (req: Download, checks: nat)
    requires Terminates(rs)
    ensures req.exportId == exportId
    ensures req.filename != ""
    ensures 1 <= checks <= |rs| && Ready(rs[checks - 1])
    ensures Poll(rs) == Some((req.filename, checks))
  {
    var filename;
    filename, checks := PollUntilReady(rs);
    req := Download(exportId, filename);
  }
}
