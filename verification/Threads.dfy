/** What the one-writer machines share: the actions of their threads, the stores of an
    uninterrupted writer, and schedules that interleave a writer with one reader.
 */
module Threads {
  import opened Payloads

  /** The writer begins a call with value `v`, or performs its next store; `j` chooses the
      word when it is copying. */
  datatype WriterAct = Begin(v: Payload) | Store(j: nat)

  /** A step of the writer, a step of reader `i` that chooses word `j`, or a clone of
      reader `i`. */
  datatype Act = W(wa: WriterAct) | R(i: nat, j: nat) | Clone(i: nat)

  /** An uninterrupted call of the writer up to its first `n` words: it begins, marks the
      value odd, and copies the words in ascending order. */
  function CopyStores(v: Payload, n: nat): seq<WriterAct> {
    if n == 0 then [Begin(v)] + [Store(0)] else CopyStores(v, n - 1) + [Store(n - 1)]
  }

  /** The same up to the store that marks the value even. */
  function SealStores(nw: nat, v: Payload): seq<WriterAct> {
    CopyStores(v, nw) + [Store(0)]
  }

  function Writes(acts: seq<WriterAct>): (t: seq<Act>)
    ensures |t| == |acts| && forall i :: 0 <= i < |t| ==> t[i].W?
  {
    seq(|acts|, i requires 0 <= i < |acts| => W(acts[i]))
  }

  /** The run `t` is the first `n` entries of the schedule: the reader's first step, which is
      local, and then before each of its further steps exactly the writer's stores of one
      entry. */
  ghost predicate Follows(env: seq<seq<WriterAct>>, n: nat, t: seq<Act>)
    requires n <= |env|
  {
    if n == 0 then t == [R(0, 0)]
    else
      var k := |env[n - 1]|;
      && |t| > k && t[|t| - 1].R? && t[|t| - 1].i == 0
      && t[|t| - 1 - k..|t| - 1] == Writes(env[n - 1])
      && Follows(env, n - 1, t[..|t| - 1 - k])
  }

  lemma {:induction false} FollowsSnoc(env: seq<seq<WriterAct>>, n: nat, t: seq<Act>, j: nat)
    requires n < |env| && Follows(env, n, t)
    ensures Follows(env, n + 1, t + Writes(env[n]) + [R(0, j)])
  {
    var t' := t + Writes(env[n]) + [R(0, j)];
    assert t'[..|t'| - 1 - |env[n]|] == t;
  }

  /** The steps of reader `i` in a run. */
  function OwnSteps(t: seq<Act>, i: nat): nat
    decreases |t|
  {
    if t == [] then 0
    else
      var a := t[|t| - 1];
      OwnSteps(t[..|t| - 1], i) + (if a.R? && a.i == i then 1 else 0)
  }

  lemma {:induction false} OwnStepsWrites(t: seq<Act>, acts: seq<WriterAct>, i: nat)
    ensures OwnSteps(t + Writes(acts), i) == OwnSteps(t, i)
    decreases |acts|
  {
    if acts == [] {
      assert t + Writes(acts) == t;
    } else {
      var t' := t + Writes(acts);
      assert t'[..|t'| - 1] == t + Writes(acts[..|acts| - 1]);
      OwnStepsWrites(t, acts[..|acts| - 1], i);
    }
  }

  /** After `n` entries of the schedule the reader has taken `n + 1` steps. */
  lemma {:induction false} FollowsSteps(env: seq<seq<WriterAct>>, n: nat, t: seq<Act>)
    requires n <= |env| && Follows(env, n, t)
    ensures OwnSteps(t, 0) == n + 1
  {
    if n > 0 {
      var u := t[..|t| - 1];
      var v := t[..|t| - 1 - |env[n - 1]|];
      FollowsSteps(env, n - 1, v);
      OwnStepsWrites(v, env[n - 1], 0);
      assert u == v + Writes(env[n - 1]);
    } else {
      assert t[..|t| - 1] == [];
    }
  }

  /** A schedule in which the writer does nothing. */
  predicate Quiet(env: seq<seq<WriterAct>>) {
    forall n :: 0 <= n < |env| ==> env[n] == []
  }

  lemma {:induction false} FollowsQuiet(env: seq<seq<WriterAct>>, n: nat, t: seq<Act>)
    requires n <= |env| && Follows(env, n, t) && Quiet(env)
    ensures forall k :: 0 <= k < |t| ==> t[k].R? && t[k].i == 0
  {
    if n > 0 {
      FollowsQuiet(env, n - 1, t[..|t| - 1]);
    }
  }
}
