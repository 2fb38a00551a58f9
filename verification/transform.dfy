/** The resolver written the way a host would run it: an explicit loop over
    the stream and, inside it, an explicit loop that renders a diff and asks
    again until an answer other than `diff` arrives. Each method computes
    exactly what the recursive definitions in `Resolver` describe. */
module Transform {
  import opened Answers
  import opened Resolver

  /** The re-prompt loop for one conflicting file, `shown0` diffs into it. */
  method AskLoop(file: Candidate, failing: set<nat>, shown0: nat, answers: seq<Answer>) returns (p: Prompted)
    ensures p == Ask(file, failing, shown0, answers)
  {
    var rest := answers;
    var shown: nat := 0;
    while |rest| > 0 && rest[0].Diff? && !file.contents.Stream? && shown0 + shown !in failing
      invariant Ask(file, failing, shown0, answers)
                == Ask(file, failing, shown0 + shown, rest).(diffs := Ask(file, failing, shown0 + shown, rest).diffs + shown)
      decreases |rest|
    {
      rest := rest[1..];
      shown := shown + 1;
    }
    if |rest| == 0 {
      p := Prompted(Unanswered, false, [], shown);
    } else {
      var a := rest[0];
      if !a.Diff? {
        p := Prompted(Decision(a), a.All?, rest[1..], shown);
      } else if file.contents.Stream? {
        p := Prompted(Fail(DiffOnStream), false, rest[1..], shown);
      } else {
        p := Prompted(Fail(DiffReadFailed), false, rest[1..], shown);
      }
    }
  }

  /** The outcomes gathered so far followed by the run over what is left. */
  function Join(emitted: seq<Candidate>, trace: seq<Outcome>, diffs: nat, r: Run): Run
  {
    r.(emitted := emitted + r.emitted, trace := trace + r.trace, diffs := diffs + r.diffs)
  }

  /** Gathering in two steps is gathering once. */
  lemma {:induction false} JoinJoin(e1: seq<Candidate>, t1: seq<Outcome>, d1: nat, e2: seq<Candidate>, t2: seq<Outcome>, d2: nat, r: Run)
    ensures Join(e1, t1, d1, Join(e2, t2, d2, r)) == Join(e1 + e2, t1 + t2, d1 + d2, r)
  {
    assert e1 + (e2 + r.emitted) == (e1 + e2) + r.emitted;
    assert t1 + (t2 + r.trace) == (t1 + t2) + r.trace;
  }

  /** One step of the stream fold, taken at position `i`. */
  lemma {:induction false} RunFromAt(all: bool, arrivals: seq<Arrival>, i: nat, rest: seq<Answer>)
    requires i < |arrivals|
    ensures var s := ResolveFile(all, arrivals[i], rest);
            RunFrom(all, arrivals[i..], rest)
            == if !s.outcome.Acknowledged() then Run([], [s.outcome], EndOf(s.outcome), s.all, s.rest, s.diffs)
               else Join(if s.outcome.Kept? then [arrivals[i].file] else [], [s.outcome], s.diffs,
                         RunFrom(s.all, arrivals[i + 1..], s.rest))
  {
    assert arrivals[i..][0] == arrivals[i];
    assert arrivals[i..][1..] == arrivals[i + 1..];
  }

  /** The loop's invariant survives an acknowledged file. */
  lemma {:induction false} FoldStep(whole: Run, emitted: seq<Candidate>, trace: seq<Outcome>, diffs: nat,
                 all: bool, arrivals: seq<Arrival>, i: nat, rest: seq<Answer>, s: Step)
    requires i < |arrivals|
    requires whole == Join(emitted, trace, diffs, RunFrom(all, arrivals[i..], rest))
    requires s == ResolveFile(all, arrivals[i], rest) && s.outcome.Acknowledged()
    ensures whole == Join(emitted + (if s.outcome.Kept? then [arrivals[i].file] else []), trace + [s.outcome],
                          diffs + s.diffs, RunFrom(s.all, arrivals[i + 1..], s.rest))
  {
    RunFromAt(all, arrivals, i, rest);
    JoinJoin(emitted, trace, diffs, if s.outcome.Kept? then [arrivals[i].file] else [], [s.outcome], s.diffs,
             RunFrom(s.all, arrivals[i + 1..], s.rest));
  }

  /** The loop's invariant, at a file that is not acknowledged, gives the
      whole run. */
  lemma {:induction false} FoldStop(whole: Run, emitted: seq<Candidate>, trace: seq<Outcome>, diffs: nat,
                 all: bool, arrivals: seq<Arrival>, i: nat, rest: seq<Answer>, s: Step)
    requires i < |arrivals|
    requires whole == Join(emitted, trace, diffs, RunFrom(all, arrivals[i..], rest))
    requires s == ResolveFile(all, arrivals[i], rest) && !s.outcome.Acknowledged()
    ensures whole == Run(emitted, trace + [s.outcome], EndOf(s.outcome), s.all, s.rest, diffs + s.diffs)
  {
    RunFromAt(all, arrivals, i, rest);
    assert emitted + [] == emitted;
  }

  /** The loop's invariant holds on entry and, once every file has been
      acknowledged, gives the whole run. */
  lemma {:induction false} FoldEnds(all: bool, arrivals: seq<Arrival>, answers: seq<Answer>,
                 emitted: seq<Candidate>, trace: seq<Outcome>, diffs: nat, rest: seq<Answer>)
    ensures RunFrom(all, arrivals, answers) == Join([], [], 0, RunFrom(all, arrivals[0..], answers))
    ensures RunFrom(all, arrivals[|arrivals|..], rest) == Run([], [], Finished, all, rest, 0)
    ensures Join(emitted, trace, diffs, Run([], [], Finished, all, rest, 0)) == Run(emitted, trace, Finished, all, rest, diffs)
  {
    var r := RunFrom(all, arrivals, answers);
    assert arrivals[0..] == arrivals;
    assert [] + r.emitted == r.emitted && [] + r.trace == r.trace;
    assert emitted + [] == emitted && trace + [] == trace;
  }

  /** The loop over the stream, stopping at the first file that is not
      acknowledged. */
  method Fold(all0: bool, arrivals: seq<Arrival>, answers: seq<Answer>) returns (r: Run)
    ensures r == RunFrom(all0, arrivals, answers)
  {
    ghost var whole := RunFrom(all0, arrivals, answers);
    var emitted: seq<Candidate> := [];
    var trace: seq<Outcome> := [];
    var all := all0;
    var rest := answers;
    var diffs: nat := 0;
    var i := 0;
    FoldEnds(all0, arrivals, answers, emitted, trace, diffs, rest);
    while i < |arrivals|
      invariant 0 <= i <= |arrivals|
      invariant whole == Join(emitted, trace, diffs, RunFrom(all, arrivals[i..], rest))
      decreases |arrivals| - i
    {
      var a := arrivals[i];
      var s: Step;
      if all || !a.dest.File? {
        s := Step(Kept, all, rest, 0);
      } else if a.dest.read.ReadError? {
        s := Step(Fail(ReadFailed), all, rest, 0);
      } else if a.dest.read.text == AsText(a.file.contents) {
        s := Step(Identical, all, rest, 0);
      } else {
        var p := AskLoop(a.file, a.dest.failingRereads, 0, rest);
        s := Step(p.outcome, p.setsAll, p.rest, p.diffs);
      }
      if !s.outcome.Acknowledged() {
        FoldStop(whole, emitted, trace, diffs, all, arrivals, i, rest, s);
        return Run(emitted, trace + [s.outcome], EndOf(s.outcome), s.all, s.rest, diffs + s.diffs);
      }
      FoldStep(whole, emitted, trace, diffs, all, arrivals, i, rest, s);
      emitted := emitted + (if s.outcome.Kept? then [arrivals[i].file] else []);
      trace := trace + [s.outcome];
      all := s.all;
      rest := s.rest;
      diffs := diffs + s.diffs;
      i := i + 1;
    }
    FoldEnds(all0, arrivals, answers, emitted, trace, diffs, rest);
    r := Run(emitted, trace, Finished, all, rest, diffs);
  }
}
