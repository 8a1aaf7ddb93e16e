/**
 * Container polling and image-reference parsing of `zutils/src/containers.rs`.
 * The docker CLI is replaced by oracles: `replies(i)` is what the status query
 * of the i-th poll yields (an `Err` when the command could not be run or its
 * output could not be sanitised, which the source propagates with `?`).
 * The sleeps between polls are not modelled; only the number of checks is.
 */
module Containers {
  import opened Wrappers
  import opened Text

  /** The part of a `docker container inspect -f {{.State.Status}}` run the rule reads. */
  datatype StatusReply = StatusReply(success: bool, stdout: string)

  /** The part of a `docker inspect -f {{.State.Running}}` run the rule reads. */
  datatype InspectReply = InspectReply(statusCode: int, stdout: string)

  const RunningStatus: string := "running"

  /**
   * `is_container_status_running`: running exactly when the query succeeded and
   * its sanitised output is `running`; a failed query is "not running", not an error.
   */
  function IsContainerStatusRunning(reply: Result<StatusReply, string>): (r: Result<bool, string>)
    ensures r.Err? <==> reply.Err?
    ensures reply.Err? ==> r.error == reply.error
    ensures r == Ok(true) <==> reply.Ok? && reply.value.success && reply.value.stdout == RunningStatus
    ensures reply.Ok? && !reply.value.success ==> r == Ok(false)
  {
    match reply
    case Err(e) => Err(e)
    case Ok(rep) => Ok(rep.success && rep.stdout == RunningStatus)
  }

  /** `is_container_running`: decided by the exit status of the inspect alone. */
  function IsContainerRunning(reply: Result<InspectReply, string>): (r: Result<bool, string>)
    ensures r.Err? <==> reply.Err?
    ensures r.Ok? ==> (r.value <==> reply.value.statusCode == 0)
  {
    match reply
    case Err(e) => Err(e)
    case Ok(rep) => Ok(rep.statusCode == 0)
  }

  /** The printed output never matters to `is_container_running`. */
  lemma {:induction false} IsContainerRunningIgnoresOutput(code: int, out1: string, out2: string)
    ensures IsContainerRunning(Ok(InspectReply(code, out1))) == IsContainerRunning(Ok(InspectReply(code, out2)))
  {
  }

  /** The i-th poll answered "in the target state" (`target`) or "not yet" (`!target`). */
  ghost predicate Answered(replies: nat -> Result<StatusReply, string>, i: nat, target: bool, inTarget: bool) {
    match IsContainerStatusRunning(replies(i))
    case Err(_) => false
    case Ok(running) => (running == target) == inTarget
  }

  /**
   * The outcome `r` after `checks` polls of a loop waiting for running-state
   * `target` with `budget` iterations: every poll before the last answered
   * "not yet"; the wait ends true right after the first "in target", with the
   * query's error at the first failed query, and false only after all budget
   * polls said "not yet".
   */
  ghost predicate PolledUntil(replies: nat -> Result<StatusReply, string>, budget: nat, target: bool,
                              r: Result<bool, string>, checks: nat) {
    && checks <= budget
    && (forall j :: 0 <= j < checks - 1 ==> Answered(replies, j, target, false))
    && (r == Ok(true) ==> checks >= 1 && Answered(replies, checks - 1, target, true))
    && (r == Ok(false) ==> checks == budget && (budget > 0 ==> Answered(replies, budget - 1, target, false)))
    && (r.Err? ==> checks >= 1 && IsContainerStatusRunning(replies(checks - 1)) == Err(r.error))
  }

  /** `wait_for_container_running`: at most `waitMs / pollIntervalMs` status checks. */
  method WaitForContainerRunning(waitMs: nat, pollIntervalMs: nat, replies: nat -> Result<StatusReply, string>)
    returns (r: Result<bool, string>, ghost checks: nat)
    requires pollIntervalMs > 0
    ensures PolledUntil(replies, waitMs / pollIntervalMs, true, r, checks)
    ensures waitMs < pollIntervalMs ==> r == Ok(false) && checks == 0
  {
    checks := 0;
    for i := 0 to waitMs / pollIntervalMs
      invariant checks == i
      invariant forall j :: 0 <= j < i ==> Answered(replies, j, true, false)
    {
      var running := IsContainerStatusRunning(replies(i));
      checks := checks + 1;
      if running.Err? {
        return Err(running.error), checks;
      }
      if running.value {
        return Ok(true), checks;
      }
    }
    return Ok(false), checks;
  }

  /** `wait_for_container_stopped`: the same loop, ending at the first "not running". */
  method WaitForContainerStopped(waitMs: nat, pollIntervalMs: nat, replies: nat -> Result<StatusReply, string>)
    returns (r: Result<bool, string>, ghost checks: nat)
    requires pollIntervalMs > 0
    ensures PolledUntil(replies, waitMs / pollIntervalMs, false, r, checks)
    ensures waitMs < pollIntervalMs ==> r == Ok(false) && checks == 0
  {
    checks := 0;
    for i := 0 to waitMs / pollIntervalMs
      invariant checks == i
      invariant forall j :: 0 <= j < i ==> Answered(replies, j, false, false)
    {
      var running := IsContainerStatusRunning(replies(i));
      checks := checks + 1;
      if running.Err? {
        return Err(running.error), checks;
      }
      if !running.value {
        return Ok(true), checks;
      }
    }
    return Ok(false), checks;
  }

  // ---------------------------------------------------------------------
  // ParsedImage::from_url
  // ---------------------------------------------------------------------

  datatype ParsedImage = ParsedImage(baseUrl: string, version: string)

  const InvalidUrl: string := "Invalid URL format"
  const MissingImageName: string := "Missing image name"
  const LatestVersion: string := "latest"

  /** The text after the last `/` of `url`. */
  function LastSegment(url: string): string {
    var parts := Split(url, '/');
    parts[|parts| - 1]
  }

  /** `ParsedImage::from_url`. It fails only on a reference without `/`, and never for a missing name. */
  function FromUrl(url: string): (r: Result<ParsedImage, string>)
    ensures r.Err? ==> r.error == InvalidUrl && '/' !in url
  {
    var pathParts := Split(url, '/');
    SplitSingle(url, '/');
    if |pathParts| < 2 then Err(InvalidUrl)
    else
      var imageNameWithVersion := pathParts[|pathParts| - 1];
      var imageParts := Split(imageNameWithVersion, ':');
      if |imageParts| == 0 then Err(MissingImageName)
      else
        var imageName := imageParts[0];
        var version := if |imageParts| >= 2 then imageParts[1] else LatestVersion;
        var baseParts := Join(pathParts[..|pathParts| - 1], "/");
        Ok(ParsedImage(baseParts + "/" + imageName, version))
  }

  /** Parsing fails exactly when the reference has no `/`, and only with "Invalid URL format". */
  lemma {:induction false} FromUrlFails(url: string)
    ensures FromUrl(url).Err? <==> '/' !in url
    ensures FromUrl(url).Err? ==> FromUrl(url).error == InvalidUrl
  {
    SplitSingle(url, '/');
  }

  /** Without a `:` in the last segment the base is the whole reference, at version `latest`. */
  lemma {:induction false} FromUrlUntagged(url: string)
    requires '/' in url && ':' !in LastSegment(url)
    ensures FromUrl(url) == Ok(ParsedImage(url, LatestVersion))
  {
    var parts := Split(url, '/');
    SplitSingle(url, '/');
    SplitSingle(LastSegment(url), ':');
    JoinSplit(url, '/');
    JoinSnoc(parts, "/");
  }

  /**
   * With a `:` in the last segment the version is the text up to the next `:`
   * (or the end), and the base followed by `:` and the version is a prefix of
   * the reference, which continues with `:` if anything remains.
   */
  lemma {:induction false} FromUrlTagged(url: string)
    requires '/' in url && ':' in LastSegment(url)
    ensures FromUrl(url).Ok?
    ensures var p := FromUrl(url).value;
            var n := |p.baseUrl| + 1 + |p.version|;
            && n <= |url| && url[..n] == p.baseUrl + ":" + p.version
            && ':' !in p.version && '/' !in p.version
            && (n < |url| ==> url[n] == ':')
  {
    var parts := Split(url, '/');
    var last := parts[|parts| - 1];
    var prefix := Join(parts[..|parts| - 1], "/");
    var ip := Split(last, ':');
    UrlShape(url);
    SplitSingle(last, ':');
    JoinSplit(last, ':');
    SplitPiecesFree(last, ':');
    var tail := JoinFirstTwo(ip, ':');
    assert FromUrl(url) == Ok(ParsedImage(prefix + "/" + ip[0], ip[1]));
    TaggedShape(url, prefix, last, ip[0], ip[1], tail);
  }

  /**
   * With exactly one `:` in the last segment, `name:version`, the version is
   * the text after it and the base URL, `:` and the version give back the
   * whole reference.
   */
  lemma {:induction false} FromUrlOneColon(url: string, name: string, version: string)
    requires '/' in url && LastSegment(url) == name + ":" + version
    requires ':' !in name && ':' !in version
    ensures FromUrl(url).Ok? && FromUrl(url).value.version == version
    ensures FromUrl(url).value.baseUrl + ":" + version == url
  {
    var parts := Split(url, '/');
    var prefix := Join(parts[..|parts| - 1], "/");
    var last := parts[|parts| - 1];
    UrlShape(url);
    SplitOneColon(last, name, version);
    assert FromUrl(url) == Ok(ParsedImage(prefix + "/" + name, version));
    Regroup(url, prefix, last, name, version);
  }

  /** `name:version` with both parts free of `:` splits into exactly those two parts. */
  lemma {:induction false} SplitOneColon(last: string, name: string, version: string)
    requires last == name + ":" + version && ':' !in name && ':' !in version
    ensures Split(last, ':') == [name, version]
  {
    assert [name, version][1..] == [version];
    assert Join([name, version], [':']) == name + ":" + version;
    SplitJoin([name, version], ':');
  }

  /** `pre/` followed by `name:version` regroups as `pre/name`, `:` and `version`. */
  lemma {:induction false} Regroup(url: string, pre: string, last: string, name: string, version: string)
    requires url == pre + "/" + last && last == name + ":" + version
    ensures pre + "/" + name + ":" + version == url
  {
  }

  /** The pieces of a reference `pre/name:version…` and where they sit. */
  lemma {:induction false} TaggedShape(url: string, pre: string, last: string, name: string, version: string, tail: string)
    requires url == pre + "/" + last && last == name + ":" + version + tail
    requires '/' !in last && (tail == [] || tail[0] == ':')
    ensures var n := |pre| + 1 + |name| + 1 + |version|;
            && n <= |url| && url[..n] == pre + "/" + name + ":" + version
            && '/' !in version && (n < |url| ==> url[n] == ':')
  {
    var head := pre + "/" + name + ":" + version;
    assert url == head + tail;
    assert url[..|head|] == head;
    assert forall k :: 0 <= k < |version| ==> version[k] == last[|name| + 1 + k];
  }

  /** A reference with a `/` is its leading segments, `/`, and its separator-free last segment. */
  lemma {:induction false} UrlShape(url: string)
    requires '/' in url
    ensures var parts := Split(url, '/');
            && |parts| >= 2
            && url == Join(parts[..|parts| - 1], "/") + "/" + parts[|parts| - 1]
            && '/' !in parts[|parts| - 1]
  {
    var parts := Split(url, '/');
    SplitSingle(url, '/');
    JoinSplit(url, '/');
    JoinSnoc(parts, "/");
    SplitPiecesFree(url, '/');
  }

  /** Joining two or more pieces: the first two, then the rest behind a separator. */
  lemma {:induction false} JoinFirstTwo(ps: seq<string>, c: char) returns (tail: string)
    requires |ps| >= 2
    ensures Join(ps, [c]) == ps[0] + [c] + ps[1] + tail
    ensures tail == [] || tail[0] == c
  {
    if |ps| == 2 {
      tail := [];
    } else {
      tail := [c] + Join(ps[2..], [c]);
      assert ps[1..][1..] == ps[2..];
    }
  }
}
