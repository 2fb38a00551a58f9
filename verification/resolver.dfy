/** The conflict resolver of index.js: a transform over a stream of candidate
    files that decides, file by file, whether a file is passed downstream,
    dropped, or ends the whole run. The filesystem and the prompter are
    abstracted as inputs: each arriving file comes with what the filesystem
    reports about its destination, and the prompter is a queue of raw answer
    values consumed in order. */
module Resolver {
  import opened Wrappers
  import opened Answers

  /** A candidate file's contents as the vinyl object holds them. */
  datatype Contents = Buffer(text: string) | Stream | Null

  /** A candidate file: its path relative to the destination and its contents. */
  datatype Candidate = Candidate(relative: string, contents: Contents)

  /** The text `String(file.contents)` yields: a buffer decodes to its text,
      `null` prints as "null", and a stream object falls back to the generic
      object tag. */
  function AsText(c: Contents): string
  {
    match c
    case Buffer(t) => t
    case Null => "null"
    case Stream => "[object Object]"
  }

  /** The outcome of reading the destination file as text. */
  datatype ReadResult = Text(text: string) | ReadError

  /** What the filesystem reports about one candidate's destination path.
      `Absent` stands for every failed stat call, not only a missing path.
      For an existing file, `read` is the comparison read. Every `diff`
      answer reads the file again to render the diff; `failingRereads`
      holds the numbers, counted from 0 in the order the diffs are asked,
      of those re-reads that fail (the file may change between reads). */
  datatype Destination = Absent | Directory | File(read: ReadResult, failingRereads: set<nat>)

  /** One candidate as it reaches the resolver, with its destination status. */
  datatype Arrival = Arrival(file: Candidate, dest: Destination)

  /** The fatal errors of the resolver. */
  datatype Error =
    | MissingDestination   // constructor called without a destination directory
    | ReadFailed           // the comparison read of an existing file failed
    | DiffOnStream         // a diff was asked for a stream-backed candidate
    | DiffReadFailed       // the read made to render a diff failed

  /** What happened to one file. The first three acknowledge the file and
      let the stream move on; the last three stop the run. */
  datatype Outcome =
    | Kept                 // pushed downstream
    | Identical            // dropped because the destination already holds its content
    | Skipped              // dropped on `skip` or on an answer the switch does not know
    | Abort                // the operator chose `end`
    | Fail(error: Error)   // a fatal error
    | Unanswered           // the prompter has not (yet) given a deciding answer
  {
    predicate Acknowledged()
    {
      Kept? || Identical? || Skipped?
    }
  }

  /** How a run over the stream ends. */
  datatype End = Finished | Aborted | Fatal(error: Error) | Suspended

  /** The end of a run stopped by a file outcome that is not acknowledged. */
  function EndOf(o: Outcome): End
    requires !o.Acknowledged()
  {
    match o
    case Abort => Aborted
    case Fail(e) => Fatal(e)
    case Unanswered => Suspended
  }

  /** A resolver instance: the destination directory and the sticky flag set
      by a `all` answer, which lives as long as the instance. */
  datatype Session = Session(dest: string, all: bool)

  /** The constructor: a missing or empty destination is a configuration
      error raised before any file is seen; otherwise the flag starts unset. */
  function NewSession(dest: Option<string>): (r: Result<Session, Error>)
    ensures r.Err? <==> dest.None? || dest.value == ""
    ensures r.Err? ==> r.error == MissingDestination
    ensures r.Ok? ==> r.value.dest == dest.value && !r.value.all
  {
    if dest.None? || dest.value == "" then Err(MissingDestination)
    else Ok(Session(dest.value, false))
  }

  /** A real conflict: the flag is unset and the destination is an existing
      file whose content was read and differs from the candidate's. Only
      such a file is ever put to the prompter. */
  predicate Conflicting(all: bool, a: Arrival)
  {
    && !all
    && a.dest.File?
    && a.dest.read.Text?
    && a.dest.read.text != AsText(a.file.contents)
  }

  /** What the switch does for every answer except `diff`: `replace` and
      `all` keep the file, `end` aborts, and `skip` or a value without a
      case drops the file and moves on. */
  function Decision(a: Answer): (o: Outcome)
    requires !a.Diff?
    ensures o.Kept? <==> a.Replace? || a.All?
    ensures o.Abort? <==> a.End?
    ensures o.Skipped? <==> a.Skip? || a.Unrecognised?
    ensures o.Acknowledged() <==> !a.End?
  {
    match a
    case All => Kept
    case Replace => Kept
    case Skip => Skipped
    case End => Abort
    case Unrecognised(_) => Skipped
  }

  /** `rest` is what is left of `answers` after consuming some from the front. */
  predicate IsSuffix(rest: seq<Answer>, answers: seq<Answer>)
  {
    |rest| <= |answers| && rest == answers[|answers| - |rest|..]
  }

  /** The result of prompting for one conflicting file: what happened to it,
      whether the `all` flag gets set, the answers left and how many diffs
      were rendered on the way. */
  datatype Prompted = Prompted(outcome: Outcome, setsAll: bool, rest: seq<Answer>, diffs: nat)

  /** The prompt loop for one conflicting file, `shown` diffs into it:
      `diff` refuses stream contents, re-reads the destination (re-read
      number `shown`), renders the diff and asks again for the same file;
      the first other answer decides it. Each round consumes one answer,
      which is why the loop terminates. */
  function Ask(file: Candidate, failingRereads: set<nat>, shown: nat, answers: seq<Answer>): Prompted
    decreases |answers|
  {
    if |answers| == 0 then Prompted(Unanswered, false, [], 0)
    else
      var a := answers[0];
      if !a.Diff? then Prompted(Decision(a), a.All?, answers[1..], 0)
      else if file.contents.Stream? then Prompted(Fail(DiffOnStream), false, answers[1..], 0)
      else if shown in failingRereads then Prompted(Fail(DiffReadFailed), false, answers[1..], 0)
      else
        var p := Ask(file, failingRereads, shown + 1, answers[1..]);
        p.(diffs := p.diffs + 1)
  }

  /** The state the resolver carries past one file. */
  datatype Step = Step(outcome: Outcome, all: bool, rest: seq<Answer>, diffs: nat)

  /** The transform body for one file (index.js lines 19-63). */
  function ResolveFile(all: bool, a: Arrival, answers: seq<Answer>): Step
  {
    if all || !a.dest.File? then Step(Kept, all, answers, 0)
    else
      match a.dest.read
      case ReadError => Step(Fail(ReadFailed), all, answers, 0)
      case Text(current) =>
        if current == AsText(a.file.contents) then Step(Identical, all, answers, 0)
        else
          var p := Ask(a.file, a.dest.failingRereads, 0, answers);
          Step(p.outcome, p.setsAll, p.rest, p.diffs)
  }

  /** A run over a stream: the files pushed downstream, in order; what
      happened to each file examined; how the run ended; the flag, the
      answers left and the number of diffs rendered. */
  datatype Run = Run(emitted: seq<Candidate>, trace: seq<Outcome>, end: End, all: bool, rest: seq<Answer>, diffs: nat)

  /** The files a trace pushes downstream: those whose outcome is `Kept`. */
  function KeptFiles(arrivals: seq<Arrival>, trace: seq<Outcome>): (files: seq<Candidate>)
    requires |trace| <= |arrivals|
    decreases |trace|
  {
    if |trace| == 0 then []
    else (if trace[0].Kept? then [arrivals[0].file] else []) + KeptFiles(arrivals[1..], trace[1..])
  }

  /** The stream-level fold: one file at a time, threading the flag and the
      answer queue, stopping at the first outcome that is not acknowledged. */
  function RunFrom(all: bool, arrivals: seq<Arrival>, answers: seq<Answer>): (r: Run)
    ensures |r.trace| <= |arrivals|
    decreases |arrivals|
  {
    if |arrivals| == 0 then Run([], [], Finished, all, answers, 0)
    else
      var s := ResolveFile(all, arrivals[0], answers);
      if !s.outcome.Acknowledged() then Run([], [s.outcome], EndOf(s.outcome), s.all, s.rest, s.diffs)
      else
        var r := RunFrom(s.all, arrivals[1..], s.rest);
        var pushed := if s.outcome.Kept? then [arrivals[0].file] else [];
        Run(pushed + r.emitted, [s.outcome] + r.trace, r.end, r.all, r.rest, s.diffs + r.diffs)
  }

  /** The exported constructor followed by the run over the stream, with
      the prompter's raw values read by the switch: with a missing
      destination nothing is processed. */
  function Conflict(dest: Option<string>, arrivals: seq<Arrival>, values: seq<string>): (r: Result<Run, Error>)
    ensures r.Err? <==> dest.None? || dest.value == ""
    ensures r.Err? ==> r == Err(MissingDestination)
    ensures r.Ok? ==> r.value == RunFrom(false, arrivals, ClassifyAll(values))
  {
    match NewSession(dest)
    case Err(e) => Err(e)
    case Ok(session) => Ok(RunFrom(session.all, arrivals, ClassifyAll(values)))
  }
}
