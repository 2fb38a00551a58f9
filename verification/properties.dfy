/** Stream-level properties of the conflict resolver: what a run emits, which
    files it acknowledges, how the `all` flag behaves, and what a stop means
    for the files after it. */
module Properties {
  import opened Answers
  import opened Resolver
  import opened FileProperties

  /** The candidate files of a stream, in arrival order. */
  function Files(arrivals: seq<Arrival>): (files: seq<Candidate>)
    ensures |files| == |arrivals|
    ensures forall i :: 0 <= i < |arrivals| ==> files[i] == arrivals[i].file
  {
    seq(|arrivals|, i requires 0 <= i < |arrivals| => arrivals[i].file)
  }

  /** The positions, counted from `from`, of the outcomes in a trace whose
      file was pushed downstream, in ascending order. */
  function KeptPositions(trace: seq<Outcome>, from: nat): (idx: seq<nat>)
    ensures forall k :: 0 <= k < |idx| ==> from <= idx[k] < from + |trace| && trace[idx[k] - from].Kept?
    ensures forall k, l :: 0 <= k < l < |idx| ==> idx[k] < idx[l]
    decreases |trace|
  {
    if |trace| == 0 then []
    else
      var tail := KeptPositions(trace[1..], from + 1);
      if trace[0].Kept? then [from] + tail else tail
  }

  /** No kept outcome is missed: the position of every `Kept` outcome is
      among the kept positions. */
  lemma {:induction false} KeptPositionsComplete(trace: seq<Outcome>, from: nat, i: nat)
    requires i < |trace| && trace[i].Kept?
    ensures from + i in KeptPositions(trace, from)
    decreases |trace|
  {
    if i > 0 {
      assert trace[1..][i - 1].Kept?;
      KeptPositionsComplete(trace[1..], from + 1, i - 1);
    }
  }

  /** A trace keeps as many files as it has kept positions. */
  lemma {:induction false} KeptFilesLength(arrivals: seq<Arrival>, trace: seq<Outcome>, from: nat)
    requires |trace| <= |arrivals|
    ensures |KeptFiles(arrivals, trace)| == |KeptPositions(trace, from)|
    decreases |trace|
  {
    if |trace| > 0 {
      KeptFilesLength(arrivals[1..], trace[1..], from + 1);
    }
  }

  /** The `k`-th file a trace keeps is the input at its `k`-th kept
      position, unchanged. */
  lemma {:induction false} KeptFileAt(arrivals: seq<Arrival>, trace: seq<Outcome>, from: nat, k: nat)
    requires |trace| <= |arrivals|
    requires k < |KeptPositions(trace, from)|
    ensures |KeptFiles(arrivals, trace)| == |KeptPositions(trace, from)|
    ensures KeptFiles(arrivals, trace)[k] == arrivals[KeptPositions(trace, from)[k] - from].file
    decreases |trace|
  {
    KeptFilesLength(arrivals, trace, from);
    var tail := KeptPositions(trace[1..], from + 1);
    KeptFilesLength(arrivals[1..], trace[1..], from + 1);
    if trace[0].Kept? {
      if k > 0 {
        KeptFileAt(arrivals[1..], trace[1..], from + 1, k - 1);
      }
    } else {
      KeptFileAt(arrivals[1..], trace[1..], from + 1, k);
    }
  }

  /** A run emits exactly the files its trace marks `Kept`. */
  lemma {:induction false} RunEmitsKeptFiles(all: bool, arrivals: seq<Arrival>, answers: seq<Answer>)
    ensures RunFrom(all, arrivals, answers).emitted == KeptFiles(arrivals, RunFrom(all, arrivals, answers).trace)
    decreases |arrivals|
  {
    if |arrivals| > 0 {
      var s := ResolveFile(all, arrivals[0], answers);
      if s.outcome.Acknowledged() {
        RunEmitsKeptFiles(s.all, arrivals[1..], s.rest);
      }
    }
  }

  /** Emission order and uniqueness at stream level: the emitted files are
      the inputs at strictly ascending positions, each one `Kept`, and every
      `Kept` position is among them. */
  lemma {:induction false} EmittedIsOrderedSubsequence(all: bool, arrivals: seq<Arrival>, answers: seq<Answer>)
    ensures var r := RunFrom(all, arrivals, answers);
            var idx := KeptPositions(r.trace, 0);
            && |r.emitted| == |idx|
            && (forall k :: 0 <= k < |idx| ==> idx[k] < |arrivals| && r.trace[idx[k]].Kept? && r.emitted[k] == arrivals[idx[k]].file)
            && (forall k, l :: 0 <= k < l < |idx| ==> idx[k] < idx[l])
            && (forall i :: 0 <= i < |r.trace| && r.trace[i].Kept? ==> i in idx)
  {
    var r := RunFrom(all, arrivals, answers);
    var idx := KeptPositions(r.trace, 0);
    RunEmitsKeptFiles(all, arrivals, answers);
    KeptFilesLength(arrivals, r.trace, 0);
    forall k | 0 <= k < |idx|
      ensures r.emitted[k] == arrivals[idx[k]].file
    {
      KeptFileAt(arrivals, r.trace, 0, k);
    }
    forall i | 0 <= i < |r.trace| && r.trace[i].Kept?
      ensures i in idx
    {
      KeptPositionsComplete(r.trace, 0, i);
    }
  }

  /** Every outcome in `trace` lets the stream move on. */
  predicate AllAcknowledged(trace: seq<Outcome>)
  {
    forall i :: 0 <= i < |trace| ==> trace[i].Acknowledged()
  }

  /** Every outcome but the last lets the stream move on. */
  predicate AcknowledgedBeforeLast(trace: seq<Outcome>)
  {
    forall i :: 0 <= i < |trace| - 1 ==> trace[i].Acknowledged()
  }

  /** Every file examined before the last is acknowledged, once; a finished
      run examined and acknowledged every input; a run that did not finish
      stopped on its last examined file, whose outcome gives the end. */
  lemma {:induction false} RunAcknowledgesPrefix(all: bool, arrivals: seq<Arrival>, answers: seq<Answer>)
    ensures var r := RunFrom(all, arrivals, answers);
            && |r.trace| <= |arrivals|
            && AcknowledgedBeforeLast(r.trace)
            && (r.end.Finished? ==> |r.trace| == |arrivals| && AllAcknowledged(r.trace))
            && (!r.end.Finished? ==>
                  |r.trace| > 0 && !r.trace[|r.trace| - 1].Acknowledged() && r.end == EndOf(r.trace[|r.trace| - 1]))
    decreases |arrivals|
  {
    if |arrivals| > 0 {
      var s := ResolveFile(all, arrivals[0], answers);
      if s.outcome.Acknowledged() {
        RunAcknowledgesPrefix(s.all, arrivals[1..], s.rest);
        var r := RunFrom(s.all, arrivals[1..], s.rest);
        var t := RunFrom(all, arrivals, answers).trace;
        assert t == [s.outcome] + r.trace;
        assert forall i :: 1 <= i < |t| ==> t[i] == r.trace[i - 1];
      }
    }
  }

  /** A run finishes exactly when it examined and acknowledged every input. */
  lemma {:induction false} RunFinishesIffAllAcknowledged(all: bool, arrivals: seq<Arrival>, answers: seq<Answer>)
    ensures var r := RunFrom(all, arrivals, answers);
            r.end.Finished? <==> |r.trace| == |arrivals| && AllAcknowledged(r.trace)
  {
    RunAcknowledgesPrefix(all, arrivals, answers);
  }

  /** The `all` flag is never reset, and a run only ever consumes answers
      from the front of the queue. */
  lemma {:induction false} RunFlagAndQueue(all: bool, arrivals: seq<Arrival>, answers: seq<Answer>)
    ensures var r := RunFrom(all, arrivals, answers);
            && (all ==> r.all)
            && IsSuffix(r.rest, answers)
    decreases |arrivals|
  {
    if |arrivals| > 0 {
      var s := ResolveFile(all, arrivals[0], answers);
      ResolveFileSpec(all, arrivals[0], answers);
      if s.outcome.Acknowledged() {
        RunFlagAndQueue(s.all, arrivals[1..], s.rest);
        SuffixTransitive(RunFrom(s.all, arrivals[1..], s.rest).rest, s.rest, answers);
      }
    }
  }

  /** Once the flag is set, every later file is emitted unchanged, with no
      read, no prompt and no diff, and the run finishes. */
  lemma {:induction false} AllPassesEverything(arrivals: seq<Arrival>, answers: seq<Answer>)
    ensures RunFrom(true, arrivals, answers)
            == Run(Files(arrivals), seq(|arrivals|, _ => Kept), Finished, true, answers, 0)
    decreases |arrivals|
  {
    if |arrivals| > 0 {
      AllPassesEverything(arrivals[1..], answers);
      assert Files(arrivals) == [arrivals[0].file] + Files(arrivals[1..]);
      assert seq(|arrivals|, _ => Kept) == [Kept] + seq(|arrivals| - 1, _ => Kept);
    }
  }

  /** A run that stopped (abort, fatal error or missing answer) never looked
      past the file it stopped on: appending any files to the input changes
      nothing. */
  lemma {:induction false} StopIgnoresLaterFiles(all: bool, arrivals: seq<Arrival>, more: seq<Arrival>, answers: seq<Answer>)
    requires !RunFrom(all, arrivals, answers).end.Finished?
    ensures RunFrom(all, arrivals + more, answers) == RunFrom(all, arrivals, answers)
    decreases |arrivals|
  {
    assert (arrivals + more)[0] == arrivals[0];
    var s := ResolveFile(all, arrivals[0], answers);
    if s.outcome.Acknowledged() {
      assert (arrivals + more)[1..] == arrivals[1..] + more;
      StopIgnoresLaterFiles(s.all, arrivals[1..], more, s.rest);
    }
  }
}
