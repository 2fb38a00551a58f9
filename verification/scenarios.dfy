/** Whole-stream consequences of the resolver's rules for the situations its
    test suite exercises: replace-all on the first conflict, skipping every
    conflict, the raw values no switch case handles, aborting, showing a
    diff before replacing, a diff asked for on stream-backed contents or on
    a destination that becomes unreadable, and the printed forms of
    contents that are not a buffer. */
module Scenarios {
  import opened Wrappers
  import opened Answers
  import opened Resolver
  import opened FileProperties
  import opened Properties

  /** An answer that makes the switch drop the file and move on: `skip`, or
      any value it has no case for. */
  predicate DropsFile(a: Answer)
  {
    a.Skip? || a.Unrecognised?
  }

  /** `all` on the first conflict emits every file of the stream, the first
      and all later ones, unchanged and in order, and consumes no further
      answer: N files give N emissions. */
  lemma {:induction false} ReplaceAllOnFirstConflict(arrivals: seq<Arrival>, answers: seq<Answer>)
    requires |arrivals| > 0 && Conflicting(false, arrivals[0])
    requires |answers| > 0 && answers[0] == All
    ensures var r := RunFrom(false, arrivals, answers);
            && r.emitted == Files(arrivals)
            && |r.emitted| == |arrivals|
            && r.end == Finished
            && r.all
            && r.rest == answers[1..]
  {
    assert ResolveFile(false, arrivals[0], answers) == Step(Kept, true, answers[1..], 0);
    AllPassesEverything(arrivals[1..], answers[1..]);
    assert Files(arrivals) == [arrivals[0].file] + Files(arrivals[1..]);
  }

  /** Answering `skip` (or anything unknown) to every one of N conflicts
      emits nothing, acknowledges all N files and finishes, one answer
      consumed per file. */
  lemma {:induction false} SkipEveryConflict(arrivals: seq<Arrival>, answers: seq<Answer>)
    requires forall i :: 0 <= i < |arrivals| ==> Conflicting(false, arrivals[i])
    requires |answers| >= |arrivals|
    requires forall i :: 0 <= i < |arrivals| ==> DropsFile(answers[i])
    ensures var r := RunFrom(false, arrivals, answers);
            && r.emitted == []
            && |r.trace| == |arrivals|
            && (forall i :: 0 <= i < |r.trace| ==> r.trace[i] == Skipped)
            && r.end == Finished
            && !r.all
            && r.rest == answers[|arrivals|..]
    decreases |arrivals|
  {
    if |arrivals| > 0 {
      assert ResolveFile(false, arrivals[0], answers) == Step(Skipped, false, answers[1..], 0);
      assert forall i :: 0 <= i < |arrivals| - 1 ==> arrivals[1..][i] == arrivals[i + 1];
      assert forall i :: 0 <= i < |arrivals| - 1 ==> answers[1..][i] == answers[i + 1];
      SkipEveryConflict(arrivals[1..], answers[1..]);
      var r := RunFrom(false, arrivals[1..], answers[1..]);
      assert RunFrom(false, arrivals, answers) == Run(r.emitted, [Skipped] + r.trace, r.end, r.all, r.rest, r.diffs);
      assert answers[1..][|arrivals| - 1..] == answers[|arrivals|..];
    }
  }

  /** The raw value "skipAll", which the menu never offers and the switch
      has no case for, drops each conflicting file on its own: two
      conflicts answered "skipAll" emit nothing and the run finishes. */
  lemma {:induction false} SkipAllValueSkipsEachFile(dest: string, a: Arrival, b: Arrival)
    requires dest != ""
    requires Conflicting(false, a) && Conflicting(false, b)
    ensures var r := Conflict(Some(dest), [a, b], ["skipAll", "skipAll"]);
            r.Ok? && r.value.emitted == [] && r.value.end == Finished && r.value.trace == [Skipped, Skipped]
  {
    var answers := ClassifyAll(["skipAll", "skipAll"]);
    assert answers[0].Unrecognised? && answers[1].Unrecognised?;
    SkipEveryConflict([a, b], answers);
  }

  /** The raw value "replaceAll" has no case in the switch either: N
      conflicts each answered "replaceAll" emit nothing at all, although
      replacing every file is what that answer was meant to do (N emissions);
      the value that does it is "all" (see `ReplaceAllOnFirstConflict`). */
  lemma {:induction false} ReplaceAllValueSkipsEachFile(dest: string, arrivals: seq<Arrival>)
    requires dest != ""
    requires forall i :: 0 <= i < |arrivals| ==> Conflicting(false, arrivals[i])
    ensures var r := Conflict(Some(dest), arrivals, seq(|arrivals|, _ => "replaceAll"));
            && r.Ok? && r.value.emitted == [] && r.value.end == Finished
            && |r.value.trace| == |arrivals|
            && (forall i :: 0 <= i < |arrivals| ==> r.value.trace[i] == Skipped)
            && (|arrivals| > 0 ==> |r.value.emitted| != |arrivals|)
  {
    var values := seq(|arrivals|, _ => "replaceAll");
    var answers := ClassifyAll(values);
    assert forall i :: 0 <= i < |arrivals| ==> values[i] == "replaceAll";
    assert forall i :: 0 <= i < |arrivals| ==> DropsFile(answers[i]);
    SkipEveryConflict(arrivals, answers);
  }

  /** `end` on a conflict emits nothing and stops the run as aborted; the
      files after it are never examined, whatever they are. */
  lemma {:induction false} AbortOnConflict(a: Arrival, later: seq<Arrival>, answers: seq<Answer>)
    requires Conflicting(false, a)
    requires |answers| > 0 && answers[0] == End
    ensures RunFrom(false, [a] + later, answers) == Run([], [Abort], Aborted, false, answers[1..], 0)
  {
    assert ([a] + later)[0] == a;
  }

  /** `diff` then `replace` renders the diff once and emits the file
      exactly once. */
  lemma {:induction false} DiffThenReplace(a: Arrival, later: seq<Arrival>, answers: seq<Answer>)
    requires Conflicting(false, a) && !a.file.contents.Stream? && 0 !in a.dest.failingRereads
    requires |answers| > 1 && answers[0] == Diff && answers[1] == Replace
    ensures var r := RunFrom(false, [a] + later, answers);
            && |r.emitted| >= 1 && r.emitted[0] == a.file
            && |r.trace| >= 1 && r.trace[0] == Kept
            && r.diffs >= 1
    ensures RunFrom(false, [a], answers) == Run([a.file], [Kept], Finished, false, answers[2..], 1)
  {
    assert answers[1..][0] == Replace;
    assert Ask(a.file, a.dest.failingRereads, 1, answers[1..]) == Prompted(Kept, false, answers[2..], 0);
    assert ResolveFile(false, a, answers) == Step(Kept, false, answers[2..], 1);
    assert ([a] + later)[0] == a;
    assert ([a] + later)[1..] == later;
  }

  /** `diff` on stream-backed contents is fatal before any diff is rendered,
      and the files after it are never examined. */
  lemma {:induction false} DiffOnStreamIsFatal(a: Arrival, later: seq<Arrival>, answers: seq<Answer>)
    requires Conflicting(false, a) && a.file.contents.Stream?
    requires |answers| > 0 && answers[0] == Diff
    ensures ResolveFile(false, a, answers) == Step(Fail(DiffOnStream), false, answers[1..], 0)
    ensures RunFrom(false, [a] + later, answers)
            == Run([], [Fail(DiffOnStream)], Fatal(DiffOnStream), false, answers[1..], 0)
  {
    assert ([a] + later)[0] == a;
  }

  /** The destination may change between reads: a `diff` whose re-read
      succeeds renders one diff, and a second `diff` whose re-read fails is
      then fatal; the file is not emitted and no later file is examined. */
  lemma {:induction false} DiffThenUnreadable(a: Arrival, later: seq<Arrival>, answers: seq<Answer>)
    requires Conflicting(false, a) && !a.file.contents.Stream?
    requires 0 !in a.dest.failingRereads && 1 in a.dest.failingRereads
    requires |answers| > 1 && answers[0] == Diff && answers[1] == Diff
    ensures RunFrom(false, [a] + later, answers)
            == Run([], [Fail(DiffReadFailed)], Fatal(DiffReadFailed), false, answers[2..], 1)
  {
    AskReadFailure(a.file, a.dest.failingRereads, 0, answers, 1);
    assert ([a] + later)[0] == a;
  }

  /** `String(null)` is the text "null": a candidate with no contents whose
      destination holds exactly that text is dropped as identical, with no
      prompt; a stream-backed candidate likewise matches a destination
      holding "[object Object]". */
  lemma {:induction false} PrintedFormsCompareEqual(file: Candidate, failing: set<nat>, answers: seq<Answer>)
    ensures file.contents.Null? ==>
              ResolveFile(false, Arrival(file, File(Text("null"), failing)), answers) == Step(Identical, false, answers, 0)
    ensures file.contents.Stream? ==>
              ResolveFile(false, Arrival(file, File(Text("[object Object]"), failing)), answers) == Step(Identical, false, answers, 0)
  {
  }

  /** An entry whose destination is a directory (a folder in the stream has
      no contents) is emitted unchanged without a read or a prompt: it
      consumes no answer, and the rest of the run is the run over the files
      after it. */
  lemma {:induction false} DirectoryInStream(dir: Candidate, later: seq<Arrival>, answers: seq<Answer>)
    ensures var rest := RunFrom(false, later, answers);
            RunFrom(false, [Arrival(dir, Directory)] + later, answers)
            == Run([dir] + rest.emitted, [Kept] + rest.trace, rest.end, rest.all, rest.rest, rest.diffs)
  {
    var xs := [Arrival(dir, Directory)] + later;
    assert xs[0] == Arrival(dir, Directory);
    assert xs[1..] == later;
    assert ResolveFile(false, xs[0], answers) == Step(Kept, false, answers, 0);
  }

  /** A destination that differs only by a trailing newline is a conflict;
      answering `replace` emits the candidate with its own content. */
  lemma TrailingNewlineConflict()
    ensures var file := Candidate("a.txt", Buffer("hello"));
            var a := Arrival(file, File(Text("hello\n"), {}));
            && Conflicting(false, a)
            && RunFrom(false, [a], [Replace]) == Run([file], [Kept], Finished, false, [], 0)
  {
    var file := Candidate("a.txt", Buffer("hello"));
    var a := Arrival(file, File(Text("hello\n"), {}));
    assert "hello\n" != "hello" by { assert |"hello\n"| != |"hello"|; }
    assert ResolveFile(false, a, [Replace]) == Step(Kept, false, [], 0);
  }
}
