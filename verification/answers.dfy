/** The prompt menu the resolver shows for a conflicting file, and the way the
    resolver's switch reads the raw value the prompter hands back (index.js). */
module Answers {
  import opened Wrappers

  /** What the switch on the prompter's answer does with a raw value: the five
      values it has a case for, and every other string, which falls through
      the switch without a case. */
  datatype Answer = Replace | Skip | All | End | Diff | Unrecognised(value: string)

  /** The raw value that selects an answer. */
  function ValueOf(a: Answer): string
  {
    match a
    case Replace => "replace"
    case Skip => "skip"
    case All => "all"
    case End => "end"
    case Diff => "diff"
    case Unrecognised(v) => v
  }

  /** The raw values the switch has a case for. */
  predicate Known(v: string)
  {
    v == "replace" || v == "skip" || v == "all" || v == "end" || v == "diff"
  }

  /** An `Unrecognised` answer must carry a value the switch has no case for. */
  predicate WellFormed(a: Answer)
  {
    a.Unrecognised? ==> !Known(a.value)
  }

  /** Reads a raw answer value the way the switch does: by string equality
      against each case label. */
  function Classify(v: string): (a: Answer)
    ensures WellFormed(a)
    ensures ValueOf(a) == v
    ensures a.Unrecognised? <==> !Known(v)
  {
    if v == "replace" then Replace
    else if v == "skip" then Skip
    else if v == "all" then All
    else if v == "end" then End
    else if v == "diff" then Diff
    else Unrecognised(v)
  }

  /** Reads every value of a queue of raw answers; reading back gives the
      raw values again. */
  function ClassifyAll(values: seq<string>): (answers: seq<Answer>)
    ensures |answers| == |values|
    ensures forall i :: 0 <= i < |values| ==> WellFormed(answers[i]) && ValueOf(answers[i]) == values[i]
  {
    seq(|values|, i requires 0 <= i < |values| => Classify(values[i]))
  }

  /** Classification inverts `ValueOf` on every well-formed answer. */
  lemma ClassifyValueOf(a: Answer)
    requires WellFormed(a)
    ensures Classify(ValueOf(a)) == a
  {
  }

  /** One entry of the expand prompt: the shortcut key, the label shown, and
      the value handed back when the key is chosen. */
  datatype Choice = Choice(key: char, name: string, value: string)

  /** The fixed menu offered for every conflicting file. */
  const Menu: seq<Choice> := [
    Choice('y', "replace", "replace"),
    Choice('n', "do not replace", "skip"),
    Choice('a', "replace this and all others", "all"),
    Choice('x', "abort", "end"),
    Choice('d', "show the differences between the old and the new", "diff")
  ]

  /** The value of a choice bound to key `k`, if any (the first such choice:
      see `FindKeyFirst`). */
  function FindKey(choices: seq<Choice>, k: char): (r: Option<string>)
    ensures r.None? <==> forall i :: 0 <= i < |choices| ==> choices[i].key != k
    ensures r.Some? ==> exists i :: 0 <= i < |choices| && choices[i].key == k && choices[i].value == r.value
    decreases |choices|
  {
    if |choices| == 0 then None
    else if choices[0].key == k then Some(choices[0].value)
    else FindKey(choices[1..], k)
  }

  /** When several choices share a key, the lookup returns the value of the
      first of them. */
  lemma {:induction false} FindKeyFirst(choices: seq<Choice>, k: char)
    ensures FindKey(choices, k).Some? ==>
              exists i :: 0 <= i < |choices| && choices[i].key == k && choices[i].value == FindKey(choices, k).value
                          && forall j :: 0 <= j < i ==> choices[j].key != k
    decreases |choices|
  {
    if |choices| > 0 && choices[0].key != k {
      FindKeyFirst(choices[1..], k);
      if FindKey(choices, k).Some? {
        var i :| 0 <= i < |choices[1..]| && choices[1..][i].key == k && choices[1..][i].value == FindKey(choices, k).value
                 && forall j :: 0 <= j < i ==> choices[1..][j].key != k;
        assert forall j :: 1 <= j < i + 1 ==> choices[j] == choices[1..][j - 1];
        assert choices[i + 1] == choices[1..][i];
      }
    }
  }

  /** The answer the resolver receives when the operator presses key `k`;
      `None` when the menu has no such key (the prompt does not answer). */
  function PressKey(k: char): Option<Answer>
  {
    match FindKey(Menu, k)
    case None => None
    case Some(v) => Some(Classify(v))
  }

  /** The menu binds each of its five keys to one value, and no other key. */
  lemma MenuKeyValues(k: char)
    ensures FindKey(Menu, 'y') == Some("replace")
    ensures FindKey(Menu, 'n') == Some("skip")
    ensures FindKey(Menu, 'a') == Some("all")
    ensures FindKey(Menu, 'x') == Some("end")
    ensures FindKey(Menu, 'd') == Some("diff")
    ensures k != 'y' && k != 'n' && k != 'a' && k != 'x' && k != 'd' ==> FindKey(Menu, k) == None
  {
    var m1 := Menu[1..];
    var m2 := m1[1..];
    var m3 := m2[1..];
    var m4 := m3[1..];
    assert m4 == [Choice('d', "show the differences between the old and the new", "diff")];
    assert FindKey(m4, 'd') == Some("diff");
    assert FindKey(m3, 'd') == Some("diff");
    assert FindKey(m2, 'd') == Some("diff");
    assert FindKey(m1, 'd') == Some("diff");
    assert FindKey(m3, 'x') == Some("end");
    assert FindKey(m2, 'x') == Some("end");
    assert FindKey(m1, 'x') == Some("end");
    assert FindKey(m2, 'a') == Some("all");
    assert FindKey(m1, 'a') == Some("all");
    assert FindKey(m1, 'n') == Some("skip");
    if k != 'y' && k != 'n' && k != 'a' && k != 'x' && k != 'd' {
      assert FindKey(m4[1..], k) == None;
      assert FindKey(m4, k) == None;
      assert FindKey(m3, k) == None;
      assert FindKey(m2, k) == None;
      assert FindKey(m1, k) == None;
    }
  }

  /** The shortcut table: y replaces, n skips, a replaces all, x aborts,
      d shows the diff, and no other key answers. */
  lemma MenuShortcuts(k: char)
    ensures PressKey('y') == Some(Replace)
    ensures PressKey('n') == Some(Skip)
    ensures PressKey('a') == Some(All)
    ensures PressKey('x') == Some(End)
    ensures PressKey('d') == Some(Diff)
    ensures k != 'y' && k != 'n' && k != 'a' && k != 'x' && k != 'd' ==> PressKey(k) == None
  {
    MenuKeyValues(k);
    assert Classify("replace") == Replace;
    assert Classify("skip") == Skip;
    assert Classify("all") == All;
    assert Classify("end") == End;
    assert Classify("diff") == Diff;
  }

  /** Every answer the menu can produce is one the switch has a case for;
      in particular the menu offers no skip-all value. */
  lemma MenuOnlyKnownAnswers(k: char)
    ensures PressKey(k).Some? ==> !PressKey(k).value.Unrecognised?
    ensures PressKey(k) != Some(Unrecognised("skipAll"))
  {
    MenuShortcuts(k);
  }

  /** Every answer the switch has a case for is reachable from some key. */
  lemma MenuOffersEveryKnownAnswer(a: Answer)
    requires !a.Unrecognised?
    ensures exists k :: PressKey(k) == Some(a)
  {
    MenuShortcuts('y');
    match a
    case Replace => assert PressKey('y') == Some(a);
    case Skip => assert PressKey('n') == Some(a);
    case All => assert PressKey('a') == Some(a);
    case End => assert PressKey('x') == Some(a);
    case Diff => assert PressKey('d') == Some(a);
  }
}
