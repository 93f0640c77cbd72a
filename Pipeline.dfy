/** The parent's side of the stage loop in exec_local_cmd_loop of
    6-RShell/starter/dshlib.c: one pipe between consecutive stages, fork per
    stage, the parent closing what the children inherited, then one
    waitpid per child it forked. The outcomes of pipe() and fork() are
    parameters; what the children do after fork is not part of this model. */
module Pipeline {
  import opened Limits

  /** A descriptor the parent holds: an end of the pipe made for stage `k`. */
  datatype End = ReadEnd(k: nat) | WriteEnd(k: nat)

  /** The loop stops at stage `j` when its pipe or its fork fails. Stage
      `j` needs a pipe only when a stage follows it. */
  predicate PipeFails(n: nat, pipeOk: seq<bool>, j: nat)
    requires j < n == |pipeOk|
  {
    j < n - 1 && !pipeOk[j]
  }

  predicate Stops(n: nat, pipeOk: seq<bool>, forkPid: seq<int>, j: nat)
    requires j < n == |pipeOk| == |forkPid|
  {
    PipeFails(n, pipeOk, j) || forkPid[j] == -1
  }

  /** The number of stages forked: the first stage that stops, or all. */
  function Forked(n: nat, pipeOk: seq<bool>, forkPid: seq<int>, from: nat): (f: nat)
    requires n == |pipeOk| == |forkPid| && from <= n
    ensures from <= f <= n
    ensures forall j :: from <= j < f ==> !Stops(n, pipeOk, forkPid, j)
    ensures f < n ==> Stops(n, pipeOk, forkPid, f)
    decreases n - from
  {
    if from == n then n
    else if Stops(n, pipeOk, forkPid, from) then from
    else Forked(n, pipeOk, forkPid, from + 1)
  }

  /** What stays open in the parent after the loop: both ends of a pipe
      whose stage then failed to fork. */
  function Leaked(n: nat, pipeOk: seq<bool>, forkPid: seq<int>): set<End>
    requires n == |pipeOk| == |forkPid|
  {
    var f := Forked(n, pipeOk, forkPid, 0);
    if f < n - 1 && !PipeFails(n, pipeOk, f) then {ReadEnd(f), WriteEnd(f)} else {}
  }

  /** The stages `0 .. m-1`. */
  function Below(m: nat): (r: set<nat>)
    ensures forall j: nat :: j in r <==> j < m
    decreases m
  {
    if m == 0 then {} else Below(m - 1) + {m - 1}
  }

  lemma {:induction false} BelowSize(m: nat)
    ensures |Below(m)| == m
    decreases m
  {
    if m > 0 {
      var b := Below(m - 1);
      assert m - 1 !in b;
      BelowSize(m - 1);
      assert |b + {m - 1}| == |b| + 1;
    }
  }

  /** The stages whose pipe() succeeded: every stage that forked and has a
      successor, and the stage whose fork then failed, if it made one. */
  function Made(n: nat, pipeOk: seq<bool>, forkPid: seq<int>): set<nat>
    requires n >= 1 && n == |pipeOk| == |forkPid|
  {
    var f := Forked(n, pipeOk, forkPid, 0);
    Below(if f < n - 1 then f else n - 1) + (if f < n - 1 && pipeOk[f] then {f} else {})
  }

  predicate ParentView(forkPid: seq<int>)
  {
    forall j :: 0 <= j < |forkPid| ==> forkPid[j] == -1 || forkPid[j] > 0
  }

  /** The first `f` stages fork and nothing stops before `f`: exactly the
      first `f` stages get a child, whatever follows. */
  lemma ForkedFirst(n: nat, pipeOk: seq<bool>, forkPid: seq<int>, f: nat)
    requires n == |pipeOk| == |forkPid| && f <= n
    requires forall j :: 0 <= j < f ==> !Stops(n, pipeOk, forkPid, j)
    requires f < n ==> Stops(n, pipeOk, forkPid, f)
    ensures Forked(n, pipeOk, forkPid, 0) == f
  {
  }

  /** A pipeline whose pipes and forks all succeed makes exactly one pipe
      between each pair of consecutive stages, leaves no descriptor open in
      the parent and waits for every stage. */
  lemma AllSucceedNoLeak(n: nat, pipeOk: seq<bool>, forkPid: seq<int>)
    requires n >= 1 && n == |pipeOk| == |forkPid|
    requires forall j :: 0 <= j < n - 1 ==> pipeOk[j]
    requires forall j :: 0 <= j < n ==> forkPid[j] > 0
    ensures Forked(n, pipeOk, forkPid, 0) == n
    ensures Leaked(n, pipeOk, forkPid) == {}
    ensures Made(n, pipeOk, forkPid) == Below(n - 1) && |Made(n, pipeOk, forkPid)| == n - 1
  {
    ForkedFirst(n, pipeOk, forkPid, n);
    assert Made(n, pipeOk, forkPid) == Below(n - 1) + {};
    BelowSize(n - 1);
  }

  /** A fork that fails after its pipe was made leaks both ends of that
      pipe. */
  lemma ForkFailureLeaks(n: nat, pipeOk: seq<bool>, forkPid: seq<int>, f: nat)
    requires n == |pipeOk| == |forkPid| && f < n - 1
    requires forall j :: 0 <= j <= f ==> pipeOk[j]
    requires forall j :: 0 <= j < f ==> forkPid[j] > 0
    requires forkPid[f] == -1
    ensures Leaked(n, pipeOk, forkPid) == {ReadEnd(f), WriteEnd(f)}
  {
    ForkedFirst(n, pipeOk, forkPid, f);
  }

  /** The loop as the code has it. `badCloses` counts close() calls on a
      descriptor the parent no longer holds: after a complete pipeline of
      two or more stages, the last pipe's read end is closed a second time
      by the clean-up after the loop, because `prev_pipe_read` is not reset
      when the last stage closes it. */
  method ExecStagesAsWritten(n: nat, pipeOk: seq<bool>, forkPid: seq<int>)
      returns (made: set<nat>, open: set<End>, waited: seq<int>, badCloses: nat)
    requires 1 <= n <= CMD_MAX && |pipeOk| == n && |forkPid| == n && ParentView(forkPid)
    ensures made == Made(n, pipeOk, forkPid)
    ensures waited == forkPid[..Forked(n, pipeOk, forkPid, 0)]
    ensures open == Leaked(n, pipeOk, forkPid)
    ensures badCloses == if Forked(n, pipeOk, forkPid, 0) == n && n >= 2 then 1 else 0
  {
    var prevPipeRead := -1;
    made := {};
    open := {};
    badCloses := 0;
    var pids := new int[CMD_MAX];
    var numPids := 0;
    var i := 0;
    while i < n
      invariant 0 <= i <= n && numPids == i
      invariant forall j :: 0 <= j < i ==> !Stops(n, pipeOk, forkPid, j)
      invariant pids[..i] == forkPid[..i]
      invariant made == Below(if i < n - 1 then i else n - 1)
      invariant open == if 0 < i < n then {ReadEnd(i - 1)} else {}
      invariant prevPipeRead == if i == 0 || n == 1 then -1 else if i < n then i - 1 else n - 2
      invariant badCloses == 0
    {
      if i < n - 1 {
        if !pipeOk[i] {
          break;
        }
        made := made + {i};
        open := open + {ReadEnd(i), WriteEnd(i)};
      }
      var pid := forkPid[i];
      if pid == -1 {
        break;
      }
      if i != 0 {
        badCloses := badCloses + (if ReadEnd(prevPipeRead) in open then 0 else 1);
        open := open - {ReadEnd(prevPipeRead)};
      }
      if i < n - 1 {
        prevPipeRead := i;
        badCloses := badCloses + (if WriteEnd(i) in open then 0 else 1);
        open := open - {WriteEnd(i)};
      }
      assert i < n - 1 ==> made == Below(i + 1);
      pids[numPids] := pid;
      numPids := numPids + 1;
      i := i + 1;
    }
    ForkedFirst(n, pipeOk, forkPid, i);
    if prevPipeRead != -1 {
      badCloses := badCloses + (if ReadEnd(prevPipeRead) in open then 0 else 1);
      open := open - {ReadEnd(prevPipeRead)};
    }
    waited := WaitAll(pids, numPids);
  }

  /** The same loop with `prev_pipe_read` reset once the parent has closed
      it: every close() then hits a descriptor the parent holds. */
  method ExecStages(n: nat, pipeOk: seq<bool>, forkPid: seq<int>)
      returns (made: set<nat>, open: set<End>, waited: seq<int>, badCloses: nat)
    requires 1 <= n <= CMD_MAX && |pipeOk| == n && |forkPid| == n && ParentView(forkPid)
    ensures made == Made(n, pipeOk, forkPid)
    ensures waited == forkPid[..Forked(n, pipeOk, forkPid, 0)]
    ensures open == Leaked(n, pipeOk, forkPid)
    ensures badCloses == 0
  {
    var prevPipeRead := -1;
    made := {};
    open := {};
    badCloses := 0;
    var pids := new int[CMD_MAX];
    var numPids := 0;
    var i := 0;
    while i < n
      invariant 0 <= i <= n && numPids == i
      invariant forall j :: 0 <= j < i ==> !Stops(n, pipeOk, forkPid, j)
      invariant pids[..i] == forkPid[..i]
      invariant made == Below(if i < n - 1 then i else n - 1)
      invariant open == if 0 < i < n then {ReadEnd(i - 1)} else {}
      invariant prevPipeRead == if 0 < i < n then i - 1 else -1
      invariant badCloses == 0
    {
      if i < n - 1 {
        if !pipeOk[i] {
          break;
        }
        made := made + {i};
        open := open + {ReadEnd(i), WriteEnd(i)};
      }
      var pid := forkPid[i];
      if pid == -1 {
        break;
      }
      if i != 0 {
        badCloses := badCloses + (if ReadEnd(prevPipeRead) in open then 0 else 1);
        open := open - {ReadEnd(prevPipeRead)};
        prevPipeRead := -1;
      }
      if i < n - 1 {
        prevPipeRead := i;
        badCloses := badCloses + (if WriteEnd(i) in open then 0 else 1);
        open := open - {WriteEnd(i)};
      }
      assert i < n - 1 ==> made == Below(i + 1);
      pids[numPids] := pid;
      numPids := numPids + 1;
      i := i + 1;
    }
    ForkedFirst(n, pipeOk, forkPid, i);
    if prevPipeRead != -1 {
      badCloses := badCloses + (if ReadEnd(prevPipeRead) in open then 0 else 1);
      open := open - {ReadEnd(prevPipeRead)};
    }
    waited := WaitAll(pids, numPids);
  }

  /** The waitpid loop: one wait per recorded child, in fork order. */
  method WaitAll(pids: array<int>, numPids: nat) returns (waited: seq<int>)
    requires numPids <= pids.Length
    ensures waited == pids[..numPids]
  {
    waited := [];
    var i := 0;
    while i < numPids
      invariant 0 <= i <= numPids && waited == pids[..i]
    {
      waited := waited + [pids[i]];
      i := i + 1;
    }
  }

  /** `a | b` with both pipes and forks succeeding: the as-written loop
      closes the read end of the only pipe twice. */
  lemma DoubleCloseInput()
    ensures Forked(2, [true, true], [100, 101], 0) == 2
  {
    ForkedFirst(2, [true, true], [100, 101], 2);
  }
}
