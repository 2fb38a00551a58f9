/** Per-file properties of the conflict resolver: the prompt loop and the
    decision taken for one file. */
module FileProperties {
  import opened Answers
  import opened Resolver

  /** Consuming from the front twice is consuming from the front. */
  lemma {:induction false} SuffixTransitive(a: seq<Answer>, b: seq<Answer>, c: seq<Answer>)
    requires IsSuffix(a, b) && IsSuffix(b, c)
    ensures IsSuffix(a, c)
  {
    assert c[|c| - |b|..][|b| - |a|..] == c[|c| - |a|..];
  }

  /** The prompt loop consumes answers from the front, one per round; every
      rendered diff was asked for; running out of answers leaves the file
      undecided after a diff for each answer. */
  lemma {:induction false} AskConsumes(file: Candidate, failing: set<nat>, shown: nat, answers: seq<Answer>)
    ensures var p := Ask(file, failing, shown, answers);
            && IsSuffix(p.rest, answers)
            && (p.outcome.Unanswered? <==> p.rest == [] && p.diffs == |answers|)
            && (!p.outcome.Unanswered? ==> p.diffs == |answers| - |p.rest| - 1)
            && (forall i :: 0 <= i < p.diffs ==> answers[i].Diff?)
    decreases |answers|
  {
    if |answers| > 0 && answers[0].Diff? && !file.contents.Stream? && shown !in failing {
      AskConsumes(file, failing, shown + 1, answers[1..]);
    }
  }

  /** The first answer other than `diff` decides the file exactly as the
      switch says, and only `all` sets the flag; the prompt never finds the
      file identical. */
  lemma {:induction false} AskDecides(file: Candidate, failing: set<nat>, shown: nat, answers: seq<Answer>)
    ensures var p := Ask(file, failing, shown, answers);
            && !p.outcome.Identical?
            && (p.outcome.Acknowledged() || p.outcome.Abort? ==>
                  p.diffs < |answers| && !answers[p.diffs].Diff? && p.outcome == Decision(answers[p.diffs]))
            && (p.setsAll <==> p.outcome.Kept? && p.diffs < |answers| && answers[p.diffs].All?)
    decreases |answers|
  {
    if |answers| > 0 && answers[0].Diff? && !file.contents.Stream? && shown !in failing {
      AskDecides(file, failing, shown + 1, answers[1..]);
    }
  }

  /** Every rendered diff re-read the destination successfully. A fatal
      prompt error follows a `diff` answer: on stream-backed contents it
      comes before any diff is rendered, and otherwise it is the first
      re-read that fails. These are the only fatal errors of the prompt. */
  lemma {:induction false} AskFails(file: Candidate, failing: set<nat>, shown: nat, answers: seq<Answer>)
    ensures var p := Ask(file, failing, shown, answers);
            && (forall j :: shown <= j < shown + p.diffs ==> j !in failing)
            && (file.contents.Stream? ==> p.diffs == 0)
            && (p.outcome.Fail? ==> p.diffs < |answers| && answers[p.diffs].Diff?)
            && (p.outcome == Fail(DiffOnStream) <==> p.outcome.Fail? && file.contents.Stream?)
            && (p.outcome == Fail(DiffReadFailed) <==> p.outcome.Fail? && !file.contents.Stream?)
            && (p.outcome == Fail(DiffReadFailed) ==> shown + p.diffs in failing)
    decreases |answers|
  {
    if |answers| > 0 && answers[0].Diff? && !file.contents.Stream? && shown !in failing {
      AskFails(file, failing, shown + 1, answers[1..]);
    }
  }

  /** The converse of `AskFails` for re-reads: when the answers open with
      `n + 1` diffs, the first `n` re-reads succeed and the next one fails,
      the prompt renders `n` diffs and then fails, whatever follows. */
  lemma {:induction false} AskReadFailure(file: Candidate, failing: set<nat>, shown: nat, answers: seq<Answer>, n: nat)
    requires !file.contents.Stream?
    requires n < |answers| && forall j :: 0 <= j <= n ==> answers[j].Diff?
    requires shown + n in failing && forall m :: shown <= m < shown + n ==> m !in failing
    ensures Ask(file, failing, shown, answers) == Prompted(Fail(DiffReadFailed), false, answers[n + 1..], n)
    decreases n
  {
    if n > 0 {
      assert shown !in failing;
      assert forall j :: 0 <= j <= n - 1 ==> answers[1..][j] == answers[j + 1];
      AskReadFailure(file, failing, shown + 1, answers[1..], n - 1);
      assert answers[1..][n..] == answers[n + 1..];
    }
  }

  /** One file: with the flag set, or a destination that is absent or a
      directory, the file is emitted unchanged with no read and no prompt;
      a failed read is fatal and an identical destination drops the file,
      both without a prompt; answers are consumed only for a real conflict,
      at least one per prompt; and the flag, never reset, is set only by an
      `all` answer that also emits the file. */
  lemma {:induction false} ResolveFileSpec(all: bool, a: Arrival, answers: seq<Answer>)
    ensures var s := ResolveFile(all, a, answers);
            && (all ==> s.all)
            && (all || a.dest.Absent? || a.dest.Directory? ==> s == Step(Kept, all, answers, 0))
            && (!Conflicting(all, a) ==> s.rest == answers && s.diffs == 0 && s.all == all)
            && (Conflicting(all, a) && |answers| > 0 ==> |s.rest| < |answers|)
            && IsSuffix(s.rest, answers)
            && (s.outcome.Identical? <==> !all && a.dest.File? && a.dest.read == Text(AsText(a.file.contents)))
            && (s.outcome == Fail(ReadFailed) <==> !all && a.dest.File? && a.dest.read.ReadError?)
            && (s.all && !all ==> s.outcome.Kept? && |s.rest| < |answers| && answers[|answers| - |s.rest| - 1].All?)
  {
    if Conflicting(all, a) {
      AskConsumes(a.file, a.dest.failingRereads, 0, answers);
      AskDecides(a.file, a.dest.failingRereads, 0, answers);
      AskFails(a.file, a.dest.failingRereads, 0, answers);
    }
  }

  /** Asking for a diff is transparent: for a file whose contents can be
      read twice and whose destination can be read again, a `diff` answer
      renders one diff and then the file is decided by what follows. */
  lemma {:induction false} DiffIsTransparent(file: Candidate, failing: set<nat>, shown: nat, answers: seq<Answer>)
    requires !file.contents.Stream? && shown !in failing
    ensures var p := Ask(file, failing, shown, [Diff] + answers);
            var q := Ask(file, failing, shown + 1, answers);
            p.outcome == q.outcome && p.setsAll == q.setsAll && p.rest == q.rest && p.diffs == q.diffs + 1
  {
    assert ([Diff] + answers)[1..] == answers;
  }
}
