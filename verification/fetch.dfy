/**
 * The fetch engine, run sequentially: for each compiled target, request the report
 * until the portal stops answering with its loading page (at most four times), then
 * save the final body when saving is on and the body is a real export.
 *
 * The portal is an oracle: `respond(k)` is the body it returns to the `k`-th report
 * request (counting from 0) of one target.
 */
module Fetch {
  import opened Wrappers
  import opened Text
  import opened Entities
  import Helpers

  /** Report requests made per target, at most. */
  const MaxTries := 4

  /** The portal's loading page: the report is not ready yet. */
  const LoadingMarker := "<html>"

  /** The portal's answer for a query without results. */
  const NoResultsMarker := "The query you have run did not contain any results."

  /**
   * What one `get_report` call did: how many report requests it made, the body of the
   * last one, and the content written to the target's file, if any.
   */
  datatype Report = Report(attempts: nat, body: string, written: Option<string>)

  /** A body that is still the loading page. */
  predicate Pending(body: string) {
    Contains(body, LoadingMarker)
  }

  /** A body worth saving: neither the loading page nor the no-results answer. */
  predicate Saveable(body: string) {
    !Contains(body, NoResultsMarker) && !Pending(body)
  }

  /**
   * The request loop, entered with `tries` requests made and `data` the latest body:
   * returns the number of requests made in all and the final body.
   */
  function Poll(respond: nat -> string, tries: nat, data: string): (r: (nat, string))
    requires tries <= MaxTries
    ensures tries <= r.0 <= MaxTries
    ensures !(tries < MaxTries && Pending(data)) ==> r == (tries, data)
    ensures tries < MaxTries && Pending(data) ==>
      && tries < r.0
      && r.1 == respond(r.0 - 1)
      && (forall i :: tries <= i < r.0 - 1 ==> Pending(respond(i)))
      && (r.0 < MaxTries ==> !Pending(r.1))
    decreases MaxTries - tries
  {
    if tries < MaxTries && Pending(data) then Poll(respond, tries + 1, respond(tries)) else (tries, data)
  }

  /**
   * One target: at least one and at most four requests, stopping at the first body that
   * is not the loading page; the final body is written, verbatim, exactly when `save`
   * is set and that body is neither the loading page nor the no-results answer.
   */
  function GetReport(respond: nat -> string, save: bool): (r: Report)
    ensures 1 <= r.attempts <= MaxTries
    ensures r.body == respond(r.attempts - 1)
    ensures forall i :: 0 <= i < r.attempts - 1 ==> Pending(respond(i))
    ensures r.attempts < MaxTries ==> !Pending(r.body)
    ensures r.written.Some? <==> save && Saveable(r.body)
    ensures r.written.Some? ==> r.written.value == r.body
  {
    assert Pending(LoadingMarker);
    var (n, body) := Poll(respond, 0, LoadingMarker);
    Report(n, body, if save && Saveable(body) then Some(body) else None)
  }

  /** Index of the first body from `from` on that is not the loading page, or `MaxTries` if none before it. */
  function FirstReady(respond: nat -> string, from: nat): (k: nat)
    requires from <= MaxTries
    decreases MaxTries - from
  {
    if from == MaxTries || !Pending(respond(from)) then from else FirstReady(respond, from + 1)
  }

  /** The loop stops right after the first ready body, or after four requests if none is ready. */
  lemma {:induction false} PollStopsAtFirstReady(respond: nat -> string, tries: nat)
    requires tries < MaxTries
    ensures var k := FirstReady(respond, tries);
      Poll(respond, tries + 1, respond(tries)).0 == (if k < MaxTries then k + 1 else MaxTries)
    decreases MaxTries - tries
  {
    if Pending(respond(tries)) && tries + 1 < MaxTries {
      PollStopsAtFirstReady(respond, tries + 1);
    }
  }

  /** The number of requests is one more than the index of the first ready body, capped at four. */
  lemma AttemptsFromFirstReady(respond: nat -> string, save: bool)
    ensures var k := FirstReady(respond, 0);
      GetReport(respond, save).attempts == (if k < MaxTries then k + 1 else MaxTries)
  {
    assert Pending(LoadingMarker);
    PollStopsAtFirstReady(respond, 0);
  }

  /** A portal that only ever sends the loading page gets four requests and nothing is written. */
  lemma AlwaysPendingGivesUp(respond: nat -> string, save: bool)
    requires forall i :: 0 <= i < MaxTries ==> Pending(respond(i))
    ensures GetReport(respond, save).attempts == MaxTries
    ensures GetReport(respond, save).written == None
  {
  }

  /** A first answer that is the no-results page (and not the loading page) ends after one request, unsaved. */
  lemma NoResultsFirstNotSaved(respond: nat -> string, save: bool)
    requires Contains(respond(0), NoResultsMarker) && !Pending(respond(0))
    ensures GetReport(respond, save).attempts == 1
    ensures GetReport(respond, save).written == None
  {
  }

  /** Bodies after the last request made are never looked at. */
  lemma {:induction false} PollIgnoresLaterBodies(respond: nat -> string, other: nat -> string, tries: nat, data: string)
    requires tries <= MaxTries
    requires forall i :: tries <= i < Poll(respond, tries, data).0 ==> other(i) == respond(i)
    ensures Poll(other, tries, data) == Poll(respond, tries, data)
    decreases MaxTries - tries
  {
    if tries < MaxTries && Pending(data) {
      var next := respond(tries);
      assert Poll(respond, tries, data) == Poll(respond, tries + 1, next);
      assert other(tries) == next;
      assert Poll(other, tries, data) == Poll(other, tries + 1, next);
      PollIgnoresLaterBodies(respond, other, tries + 1, next);
    }
  }

  /** Two portals that agree on every request actually made give the same report. */
  lemma LaterBodiesIgnored(respond: nat -> string, other: nat -> string, save: bool)
    requires forall i :: 0 <= i < GetReport(respond, save).attempts ==> other(i) == respond(i)
    ensures GetReport(other, save) == GetReport(respond, save)
  {
    assert Pending(LoadingMarker);
    PollIgnoresLaterBodies(respond, other, 0, LoadingMarker);
  }

  /** The oracle of the `i`-th target. */
  function TargetPortal(portal: (nat, nat) -> string, i: nat): nat -> string {
    (k: nat) => portal(i, k)
  }

  /** A target together with what fetching it did. */
  datatype Outcome = Outcome(target: Target, report: Report)

  /**
   * One `get_report` call per target, in target order; `portal(i, k)` is the body of the
   * `k`-th report request for the `i`-th target.
   */
  function FetchAll(targets: seq<Target>, portal: (nat, nat) -> string, save: bool): (r: seq<Outcome>)
    ensures |r| == |targets|
    ensures forall i :: 0 <= i < |r| ==> r[i].target == targets[i]
    ensures forall i: nat :: i < |r| ==> r[i].report == GetReport(TargetPortal(portal, i), save)
  {
    seq(|targets|, i requires 0 <= i < |targets| => Outcome(targets[i], GetReport(TargetPortal(portal, i), save)))
  }

  /** The files written by a run, in target order: path and content. */
  function SavedFiles(outcomes: seq<Outcome>): (r: seq<(string, string)>)
    ensures |r| <= |outcomes|
    ensures forall e :: e in r ==>
      (exists i :: 0 <= i < |outcomes| && outcomes[i].report.written == Some(e.1) && outcomes[i].target.filename == e.0)
    ensures forall i :: 0 <= i < |outcomes| && outcomes[i].report.written.Some? ==>
      (outcomes[i].target.filename, outcomes[i].report.written.value) in r
    ensures (forall i :: 0 <= i < |outcomes| ==> outcomes[i].report.written.None?) ==> r == []
    decreases |outcomes|
  {
    if |outcomes| == 0 then []
    else
      var rest := SavedFiles(outcomes[1..]);
      assert forall i :: 1 <= i < |outcomes| ==> outcomes[i] == outcomes[1..][i - 1];
      match outcomes[0].report.written
      case Some(content) => [(outcomes[0].target.filename, content)] + rest
      case None => rest
  }

  /**
   * Every file a run writes is a target's own file name holding that target's final
   * body, which is a real export; with saving off nothing is written.
   */
  lemma SavedFilesAreExports(targets: seq<Target>, portal: (nat, nat) -> string, save: bool)
    ensures var outcomes := FetchAll(targets, portal, save);
      forall e :: e in SavedFiles(outcomes) ==>
        (exists i :: 0 <= i < |targets| && e.0 == targets[i].filename && e.1 == outcomes[i].report.body && Saveable(e.1))
    ensures !save ==> SavedFiles(FetchAll(targets, portal, save)) == []
  {
  }

  /**
   * `fetch_async`: compile the targets, then fetch each one; a compile error stops the
   * run before any request.
   */
  function FetchAsync(catalog: seq<CatalogEntry>, dataset: string, absDir: string, geography: string,
                      slug: string -> string, portal: (nat, nat) -> string, save: bool): (r: Result<seq<Outcome>, Helpers.CompileError>)
    requires CatalogWellFormed(catalog)
    ensures var compiled := Helpers.SetupDownloadTargets(catalog, dataset, absDir, geography, slug);
      && (r.Err? <==> compiled.Err?)
      && (r.Err? ==> r.error == compiled.error)
      && (r.Ok? ==> |r.value| == |compiled.value|)
      && (r.Ok? ==> forall i :: 0 <= i < |r.value| ==> r.value[i].target == compiled.value[i])
  {
    match Helpers.SetupDownloadTargets(catalog, dataset, absDir, geography, slug)
    case Err(e) => Err(e)
    case Ok(targets) => Ok(FetchAll(targets, portal, save))
  }
}
