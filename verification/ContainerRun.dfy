/** The control flow of `execute_tool` in docker/plugin-runner/app.py: digest check, container
    start, polling, and the many exits. */
module ContainerRun {
  import opened Common
  import opened Text
  import NP = NetworkPolicy

  // ---- image digests -------------------------------------------------------------------

  const SHA256 := "sha256:"

  predicate HexDigit(c: char) {
    '0' <= c <= '9' || 'a' <= c <= 'f'
  }

  /** `sha256:` and 64 hexadecimal digits. */
  predicate Canonical(d: string) {
    |d| == 71 && d[..7] == SHA256 && forall i :: 7 <= i < 71 ==> HexDigit(d[i])
  }

  /** The text behind the last `@`, or all of it. */
  function AfterLastAt(s: string): string {
    if '@' !in s then s
    else if s[|s| - 1] == '@' then ""
    else AfterLastAt(s[..|s| - 1]) + [s[|s| - 1]]
  }

  /** `_normalize_image_digest`. */
  function NormalizeImageDigest(raw: Option<string>): Option<string> {
    if raw == None then None
    else
      var text := AfterLastAt(Lower(Trim(raw.value, PySpace)));
      if Canonical(text) then Some(text) else None
  }

  lemma {:induction false} AfterAt(p: string, d: string)
    requires '@' !in d
    ensures AfterLastAt(p + "@" + d) == d
  {
    var s := p + "@" + d;
    assert s[|p|] == '@';
    if d != [] {
      assert s[..|s| - 1] == p + "@" + d[..|d| - 1];
      assert s[|s| - 1] == d[|d| - 1];
      AfterAt(p, d[..|d| - 1]);
    }
  }

  lemma {:induction false} LowerConcat(a: string, b: string)
    ensures Lower(a + b) == Lower(a) + Lower(b)
  {
    if a == [] {
      assert a + b == b;
    } else {
      assert (a + b)[1..] == a[1..] + b;
      LowerConcat(a[1..], b);
    }
  }

  lemma CanonicalCharacters(d: string)
    requires Canonical(d)
    ensures forall i :: 0 <= i < |d| ==> !('A' <= d[i] <= 'Z') && d[i] != '@' && !PySpace(d[i])
  {
    assert forall i :: 0 <= i < 7 ==> d[i] == d[..7][i] == SHA256[i];
  }

  lemma DigestAlone(d: string)
    requires Canonical(d)
    ensures Trim(d, PySpace) == d && Lower(d) == d && '@' !in d && !PySpace(d[|d| - 1])
  {
    CanonicalCharacters(d);
    TrimOfTrimmed(d, PySpace);
    LowerOfLower(d);
  }

  lemma QualifiedTrimmed(repository: string, d: string)
    requires d != [] && !PySpace(d[|d| - 1])
    requires repository == "" || !PySpace(repository[0])
    ensures Trim(repository + "@" + d, PySpace) == repository + "@" + d
  {
    var s := repository + "@" + d;
    assert s[0] == if repository == "" then '@' else repository[0];
    assert s[|s| - 1] == d[|d| - 1];
    TrimOfTrimmed(s, PySpace);
  }

  lemma LowerQualified(repository: string, d: string)
    ensures Lower(repository + "@" + d) == Lower(repository) + "@" + Lower(d)
  {
    LowerConcat(repository + "@", d);
    LowerConcat(repository, "@");
    assert "@"[1..] == [];
    assert Lower("@") == ['@'] + Lower("@"[1..]) == "@";
  }

  /** A canonical digest is its own normal form, bare or behind a repository name, so that two
      references compare equal exactly when their digests are the same. */
  lemma QualifiedDigest(repository: string, d: string)
    requires Canonical(d) && (repository == "" || !PySpace(repository[0]))
    ensures NormalizeImageDigest(Some(d)) == Some(d)
    ensures NormalizeImageDigest(Some(repository + "@" + d)) == Some(d)
  {
    DigestAlone(d);
    QualifiedTrimmed(repository, d);
    LowerQualified(repository, d);
    AfterAt(Lower(repository), d);
  }

  /** `sha256:` in any case and 64 hexadecimal digits of any case, by their code points. */
  predicate AnyCaseDigest(d: string) {
    |d| == 71 &&
    (d[0] == 's' || d[0] == 'S') && (d[1] == 'h' || d[1] == 'H') && (d[2] == 'a' || d[2] == 'A') &&
    d[3] == '2' && d[4] == '5' && d[5] == '6' && d[6] == ':' &&
    forall i :: 7 <= i < 71 ==>
      48 <= d[i] as int <= 57 || 65 <= d[i] as int <= 70 || 97 <= d[i] as int <= 102
  }

  lemma CanonicalOfLower(d: string)
    ensures Canonical(Lower(d)) <==> AnyCaseDigest(d)
    ensures '@' in Lower(d) <==> '@' in d
  {
    LowerIs(d);
    var l := Lower(d);
    assert forall i :: 0 <= i < |d| ==> (l[i] == '@' <==> d[i] == '@');
    if |d| == 71 {
      assert l[..7] == SHA256 <==>
        l[0] == 's' && l[1] == 'h' && l[2] == 'a' && l[3] == '2' && l[4] == '5' && l[5] == '6' && l[6] == ':';
      forall i | 7 <= i < 71
        ensures HexDigit(l[i]) <==>
          48 <= d[i] as int <= 57 || 65 <= d[i] as int <= 70 || 97 <= d[i] as int <= 102
      {
      }
    }
  }

  /** What is made of any reference: blanks around it and everything up to its last `@` are
      dropped; what is left counts exactly if it is a digest, and in lower case. */
  lemma DigestOf(left: string, front: string, d: string, right: string)
    requires AllSpace(left, PySpace) && AllSpace(right, PySpace) && Trimmed(front + d, PySpace)
    requires '@' !in d && (front == "" || front[|front| - 1] == '@')
    ensures NormalizeImageDigest(Some(left + (front + d) + right)) ==
      if AnyCaseDigest(d) then Some(Lower(d)) else None
  {
    TrimPadded(left, front + d, right, PySpace);
    BehindAt(front, d);
    CanonicalOfLower(d);
  }

  lemma BehindAt(front: string, d: string)
    requires '@' !in d && (front == "" || front[|front| - 1] == '@')
    ensures AfterLastAt(Lower(front + d)) == Lower(d)
  {
    CanonicalOfLower(d);
    if front == "" {
      assert front + d == d;
    } else {
      var p := front[..|front| - 1];
      assert front + d == p + "@" + d;
      LowerQualified(p, d);
      AfterAt(Lower(p), Lower(d));
    }
  }

  /** The first well-formed entry of `RepoDigests`, else the image's id. */
  function ActualDigest(repoDigests: seq<string>, imageId: Option<string>): Option<string> {
    if repoDigests == [] then NormalizeImageDigest(imageId)
    else
      var candidate := NormalizeImageDigest(Some(repoDigests[0]));
      if candidate.Some? then candidate else ActualDigest(repoDigests[1..], imageId)
  }

  method ResolveDigest(repoDigests: seq<string>, imageId: Option<string>) returns (actual: Option<string>)
    ensures actual == ActualDigest(repoDigests, imageId)
    ensures actual.Some? ==> Canonical(actual.value)
    ensures actual == None <==>
      NormalizeImageDigest(imageId) == None &&
      forall i :: 0 <= i < |repoDigests| ==> NormalizeImageDigest(Some(repoDigests[i])) == None
  {
    for i := 0 to |repoDigests|
      invariant ActualDigest(repoDigests[i..], imageId) == ActualDigest(repoDigests, imageId)
      invariant forall j :: 0 <= j < i ==> NormalizeImageDigest(Some(repoDigests[j])) == None
    {
      var candidate := NormalizeImageDigest(Some(repoDigests[i]));
      if candidate.Some? {
        return candidate;
      }
      assert repoDigests[i..][1..] == repoDigests[i + 1..];
    }
    actual := NormalizeImageDigest(imageId);
  }

  // ---- one call ------------------------------------------------------------------------

  datatype Poll = StillRunning | Ended | InspectFailed

  /** The last line of the container's output. */
  datatype Output = NotContract | Contract(success: bool)

  /** What the world answers during one call.  `clock(k)` is the time, in milliseconds, of the
      deadline test of the `k`-th poll. */
  datatype World = World(
    requestDigest: Option<string>, imageFound: bool, repoDigests: seq<string>, imageId: Option<string>,
    networkCommands: Option<seq<NP.Command>>, starts: bool, startedAt: int, timeout: nat,
    poll: nat -> Poll, clock: nat -> int,
    exitCode: Option<int>, logsReadable: bool, output: Output)

  /** Time passes: every round of the loop sleeps for 200 milliseconds. */
  ghost predicate TimePasses(w: World) {
    forall k: nat :: w.clock(k) + 200 <= w.clock(k + 1)
  }

  datatype ErrorCode =
    | ContainerTimeout | ContainerWaitFailed | ContainerError | PluginExecutionError
    | ToolOutputUnparseable | ExecutionError

  datatype Answer = HttpError(status: nat) | Response(success: bool, error: Option<ErrorCode>)

  datatype DockerCall = RunContainer | Reload | Kill | Wait | ReadLogs | Remove

  predicate TimedOut(w: World, k: nat) {
    w.clock(k) >= w.startedAt + w.timeout
  }

  /** The loop leaves at poll `k`. */
  predicate LeavesAt(w: World, k: nat) {
    !w.poll(k).StillRunning? || TimedOut(w, k)
  }

  /** The first poll at which the loop leaves. */
  ghost predicate FirstExit(w: World, k: nat) {
    LeavesAt(w, k) && forall j: nat :: j < k ==> !LeavesAt(w, j)
  }

  /** The request is refused, or fails, before a container exists. */
  predicate Refused(w: World) {
    BadRequest(w) || !w.imageFound || !w.starts
  }

  /** The caller is told that the request was wrong: no digest, an image with another digest or
      none, or a target that cannot be compiled. */
  predicate BadRequest(w: World) {
    var expected := NormalizeImageDigest(w.requestDigest);
    expected == None ||
    (w.imageFound && (ActualDigest(w.repoDigests, w.imageId) != expected || w.networkCommands == None))
  }

  /** The container was seen to end, or could not be inspected any more, before the deadline. */
  ghost predicate Ends(w: World) {
    !Refused(w) && exists k: nat :: FirstExit(w, k) && !w.poll(k).StillRunning?
  }

  /** The polling loop; `done` tells that the container was seen to end, and not the deadline. */
  method AwaitContainer(w: World) returns (calls: seq<DockerCall>, k: nat, done: bool)
    requires TimePasses(w)
    ensures FirstExit(w, k) && done == !w.poll(k).StillRunning?
    ensures if done then EndSeenAt(w, k) else OverdueAt(w, k)
    ensures calls == seq(k + 1, _ => Reload)
    ensures k * 200 <= w.timeout + 200 || w.clock(0) < w.startedAt
  {
    calls, k := [], 0;
    while true
      invariant calls == seq(k, _ => Reload)
      invariant forall j: nat :: j < k ==> !LeavesAt(w, j)
      invariant w.clock(0) + k * 200 <= w.clock(k)
      invariant k > 0 ==> w.clock(k - 1) < w.startedAt + w.timeout && w.clock(0) + (k - 1) * 200 <= w.clock(k - 1)
      decreases w.startedAt + w.timeout - w.clock(k)
    {
      calls := calls + [Reload];
      if !w.poll(k).StillRunning? {
        ExitKinds(w, k);
        return calls, k, true;
      }
      if w.clock(k) >= w.startedAt + w.timeout {
        ExitKinds(w, k);
        return calls, k, false;
      }
      assert w.clock(k) + 200 <= w.clock(k + 1);
      k := k + 1;
    }
  }

  /** What the caller is told. */
  ghost function Verdict(w: World): Answer {
    if BadRequest(w) then HttpError(400)
    else if Refused(w) then Failure(ExecutionError)
    else if !Ends(w) then Failure(ContainerTimeout)
    else if w.exitCode == None then Failure(ContainerWaitFailed)
    else if !w.logsReadable then Failure(ExecutionError)
    else if w.exitCode != Some(0) then Failure(ContainerError)
    else match w.output
      case NotContract => Failure(ToolOutputUnparseable)
      case Contract(success) => if success then Response(true, None) else Failure(PluginExecutionError)
  }

  function Failure(code: ErrorCode): Answer {
    Response(false, Some(code))
  }

  /** No output is trusted before the container has been waited for. */
  ghost predicate LogsAfterWait(calls: seq<DockerCall>) {
    forall i :: 0 <= i < |calls| && calls[i] == ReadLogs ==> i > 0 && calls[i - 1] == Wait
  }

  /** What the calls of a run inherit from those behind its start and its polls. */
  lemma CallsOfRun(head: seq<DockerCall>, tail: seq<DockerCall>)
    requires head != [] && forall i :: 0 <= i < |head| ==> head[i] in {RunContainer, Reload}
    requires tail != [] && LogsAfterWait(tail)
    ensures LogsAfterWait(head + tail)
    ensures Kill in head + tail <==> Kill in tail
  {
    var calls := head + tail;
    forall i | 0 <= i < |calls| && calls[i] == ReadLogs ensures i > 0 && calls[i - 1] == Wait {
      assert i >= |head| && tail[i - |head|] == ReadLogs;
    }
  }

  /** The checks up to the container's start; a refusal says what the caller is told. */
  method AdmitRequest(w: World) returns (refusal: Option<Answer>)
    ensures refusal == if Refused(w) then Some(Verdict(w)) else None
  {
    var expected := NormalizeImageDigest(w.requestDigest);
    if expected == None {
      return Some(HttpError(400));
    }
    if !w.imageFound {
      return Some(Failure(ExecutionError));
    }
    var actual := ResolveDigest(w.repoDigests, w.imageId);
    if actual == None || actual != expected {
      return Some(HttpError(400));
    }
    if w.networkCommands == None {
      return Some(HttpError(400));
    }
    if !w.starts {
      return Some(Failure(ExecutionError));
    }
    return None;
  }

  /** What follows the polls of a container that was seen to end; the finally block removes it. */
  method FinishRun(w: World) returns (answer: Answer, tail: seq<DockerCall>)
    requires Ends(w)
    ensures answer == Verdict(w)
    ensures tail != [] && tail[|tail| - 1] == Remove && LogsAfterWait(tail)
    ensures Kill in tail <==> answer == Failure(ContainerWaitFailed)
  {
    if w.exitCode == None {
      return Failure(ContainerWaitFailed), [Wait, Kill, Remove];
    }
    tail := [Wait, ReadLogs, Remove];
    if !w.logsReadable {
      answer := Failure(ExecutionError);
    } else if w.exitCode != Some(0) {
      answer := Failure(ContainerError);
    } else if w.output.Contract? {
      answer := if w.output.success then Response(true, None) else Failure(PluginExecutionError);
    } else {
      answer := Failure(ToolOutputUnparseable);
    }
  }

  /** The image is there with the digest that was asked for, all targets can be compiled, and the
      container starts. */
  predicate Admitted(w: World) {
    NormalizeImageDigest(w.requestDigest).Some? && w.imageFound &&
    ActualDigest(w.repoDigests, w.imageId) == NormalizeImageDigest(w.requestDigest) &&
    w.networkCommands.Some? && w.starts
  }

  /** Some poll sees the end, or cannot inspect the container, and all polls before it have found
      it running before its deadline. */
  ghost predicate SeenToEnd(w: World) {
    Admitted(w) && exists k: nat :: EndSeenAt(w, k)
  }

  ghost predicate EndSeenAt(w: World, k: nat) {
    w.poll(k) != StillRunning &&
    forall j: nat :: j < k ==> w.poll(j) == StillRunning && w.clock(j) < w.startedAt + w.timeout
  }

  /** Poll `k` is the first past the deadline, and has found the container running like all polls
      before. */
  ghost predicate OverdueAt(w: World, k: nat) {
    w.clock(k) >= w.startedAt + w.timeout &&
    (forall j: nat :: j <= k ==> w.poll(j) == StillRunning) &&
    (forall j: nat :: j < k ==> w.clock(j) < w.startedAt + w.timeout)
  }

  lemma NotAdmitted(w: World)
    ensures Refused(w) <==> !Admitted(w)
  {
  }

  lemma ExitKinds(w: World, k: nat)
    ensures FirstExit(w, k) && w.poll(k) != StillRunning <==> EndSeenAt(w, k)
    ensures FirstExit(w, k) && w.poll(k) == StillRunning <==> OverdueAt(w, k)
  {
    if FirstExit(w, k) {
      forall j: nat | j < k ensures w.poll(j) == StillRunning && w.clock(j) < w.startedAt + w.timeout {
        assert !LeavesAt(w, j);
      }
    }
  }

  lemma ExitMeans(w: World, k: nat)
    requires FirstExit(w, k)
    ensures Ends(w) <==> SeenToEnd(w)
    ensures !Refused(w) && !Ends(w) <==> Admitted(w) && exists j: nat :: OverdueAt(w, j)
  {
    NotAdmitted(w);
    ExitUnique(w, k);
    forall j: nat
      ensures FirstExit(w, j) && w.poll(j) != StillRunning <==> EndSeenAt(w, j)
      ensures FirstExit(w, j) && w.poll(j) == StillRunning <==> OverdueAt(w, j)
    {
      ExitKinds(w, j);
    }
  }

  lemma Overdue(w: World)
    ensures (exists k: nat :: OverdueAt(w, k)) <==>
      exists k: nat ::
        w.clock(k) >= w.startedAt + w.timeout &&
        (forall j: nat :: j <= k ==> w.poll(j) == StillRunning) &&
        (forall j: nat :: j < k ==> w.clock(j) < w.startedAt + w.timeout)
  {
    if k: nat :|
      w.clock(k) >= w.startedAt + w.timeout &&
      (forall j: nat :: j <= k ==> w.poll(j) == StillRunning) &&
      (forall j: nat :: j < k ==> w.clock(j) < w.startedAt + w.timeout)
    {
      assert OverdueAt(w, k);
    }
  }

  /** Each answer, by what the world did. */
  lemma VerdictMeans(w: World, k: nat)
    requires Admitted(w) ==> FirstExit(w, k)
    ensures Verdict(w) == HttpError(400) <==>
      NormalizeImageDigest(w.requestDigest) == None ||
      (w.imageFound && ActualDigest(w.repoDigests, w.imageId) != NormalizeImageDigest(w.requestDigest)) ||
      (w.imageFound && w.networkCommands == None)
    ensures Verdict(w) == Failure(ContainerTimeout) <==> Admitted(w) && exists j: nat :: OverdueAt(w, j)
    ensures Verdict(w) == Failure(ContainerWaitFailed) <==> SeenToEnd(w) && w.exitCode == None
    ensures Verdict(w) == Failure(ContainerError) <==>
      SeenToEnd(w) && w.logsReadable && w.exitCode.Some? && w.exitCode.value != 0
    ensures Verdict(w) == Failure(ToolOutputUnparseable) <==>
      SeenToEnd(w) && w.logsReadable && w.exitCode == Some(0) && w.output == NotContract
    ensures Verdict(w) == Failure(PluginExecutionError) <==>
      SeenToEnd(w) && w.logsReadable && w.exitCode == Some(0) && w.output == Contract(false)
    ensures Verdict(w) == Response(true, None) <==>
      SeenToEnd(w) && w.logsReadable && w.exitCode == Some(0) && w.output == Contract(true)
    ensures Verdict(w) == Failure(ExecutionError) <==>
      Verdict(w) != HttpError(400) &&
      (!w.imageFound || !w.starts || (SeenToEnd(w) && w.exitCode.Some? && !w.logsReadable))
  {
    NotAdmitted(w);
    if Admitted(w) {
      ExitMeans(w, k);
    }
  }

  /** The handler up to its answer, with the poll at which the loop was left. */
  method RunTool(w: World) returns (answer: Answer, calls: seq<DockerCall>, k: nat)
    requires TimePasses(w)
    ensures answer == Verdict(w) && (Admitted(w) ==> FirstExit(w, k))
    ensures !Admitted(w) ==> calls == []
    ensures Admitted(w) ==> |calls| > 0 && calls[0] == RunContainer && calls[|calls| - 1] == Remove
    ensures Kill in calls <==> answer in {Failure(ContainerTimeout), Failure(ContainerWaitFailed)}
    ensures LogsAfterWait(calls)
  {
    NotAdmitted(w);
    var refusal := AdmitRequest(w);
    if refusal.Some? {
      return refusal.value, [], 0;
    }
    var polls, done;
    polls, k, done := AwaitContainer(w);
    ExitUnique(w, k);
    var tail: seq<DockerCall>;
    if done {
      answer, tail := FinishRun(w);
    } else {
      // the timeout branch removes the container, and the finally block does so once more
      answer, tail := Failure(ContainerTimeout), [Kill, Wait, Remove, Remove];
    }
    calls := [RunContainer] + polls + tail;
    CallsOfRun([RunContainer] + polls, tail);
  }

  method ExecuteTool(w: World) returns (answer: Answer, calls: seq<DockerCall>)
    requires TimePasses(w)
    // the request is wrong
    ensures answer == HttpError(400) <==>
      NormalizeImageDigest(w.requestDigest) == None ||
      (w.imageFound && ActualDigest(w.repoDigests, w.imageId) != NormalizeImageDigest(w.requestDigest)) ||
      (w.imageFound && w.networkCommands == None)
    // the container was still running at its deadline, at every poll up to then
    ensures answer == Failure(ContainerTimeout) <==>
      Admitted(w) &&
      exists k: nat ::
        w.clock(k) >= w.startedAt + w.timeout &&
        (forall j: nat :: j <= k ==> w.poll(j) == StillRunning) &&
        (forall j: nat :: j < k ==> w.clock(j) < w.startedAt + w.timeout)
    // or it was seen to end before, and then its exit code and its output decide
    ensures answer == Failure(ContainerWaitFailed) <==> SeenToEnd(w) && w.exitCode == None
    ensures answer == Failure(ContainerError) <==>
      SeenToEnd(w) && w.logsReadable && w.exitCode.Some? && w.exitCode.value != 0
    ensures answer == Failure(ToolOutputUnparseable) <==>
      SeenToEnd(w) && w.logsReadable && w.exitCode == Some(0) && w.output == NotContract
    ensures answer == Failure(PluginExecutionError) <==>
      SeenToEnd(w) && w.logsReadable && w.exitCode == Some(0) && w.output == Contract(false)
    // success is reported exactly when every stage went well
    ensures answer == Response(true, None) <==>
      SeenToEnd(w) && w.logsReadable && w.exitCode == Some(0) && w.output == Contract(true)
    ensures answer == Failure(ExecutionError) <==>
      answer != HttpError(400) &&
      (!w.imageFound || !w.starts || (SeenToEnd(w) && w.exitCode.Some? && !w.logsReadable))
    // nothing is started for a refused request, and whatever was started is removed at the end
    ensures !Admitted(w) ==> calls == []
    ensures Admitted(w) ==> |calls| > 0 && calls[0] == RunContainer && calls[|calls| - 1] == Remove
    // only a container that overran its deadline, or could not be waited for, is killed
    ensures Kill in calls <==> answer in {Failure(ContainerTimeout), Failure(ContainerWaitFailed)}
    ensures LogsAfterWait(calls)
  {
    var k;
    answer, calls, k := RunTool(w);
    VerdictMeans(w, k);
    Overdue(w);
  }

  lemma ExitUnique(w: World, k: nat)
    requires FirstExit(w, k)
    ensures forall j: nat :: FirstExit(w, j) <==> j == k
  {
  }
}
