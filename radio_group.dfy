/**
  The settings page's radio group: a shared `name` derived from the
  legend, one input per option, checked when its value is the selected
  one, reporting its own value when chosen.
 */
module RadioGroup {
  import opened Builtins

  // ---------------------------------------------------------------
  // The group name: legend.replace(/\s+/g, '-').toLowerCase()
  // ---------------------------------------------------------------

  ghost predicate NoWhitespace(s: string) {
    forall i :: 0 <= i < |s| ==> !IsWhitespace(s[i])
  }

  ghost predicate AllWhitespace(s: string) {
    forall i :: 0 <= i < |s| ==> IsWhitespace(s[i])
  }

  lemma NoWhitespaceAfter(c: char, s: string)
    requires !IsWhitespace(c) && NoWhitespace(s)
    ensures NoWhitespace([c] + s)
  {
  }

  /** Drops the run of whitespace at the front of `s`. */
  function DropWhitespace(s: string): (r: string)
    ensures |r| <= |s| && r == s[|s| - |r|..]
    ensures r == [] || !IsWhitespace(r[0])
    ensures s != [] && IsWhitespace(s[0]) ==> |r| < |s|
  {
    if s != [] && IsWhitespace(s[0]) then DropWhitespace(s[1..]) else s
  }

  /** `s.replace(/\s+/g, '-')`: every maximal run of whitespace becomes one `-`. */
  function ReplaceWhitespaceRuns(s: string): (r: string)
    ensures NoWhitespace(r)
    decreases |s|
  {
    if s == [] then []
    else if IsWhitespace(s[0]) then
      var rest := ReplaceWhitespaceRuns(DropWhitespace(s));
      NoWhitespaceAfter('-', rest);
      "-" + rest
    else
      var rest := ReplaceWhitespaceRuns(s[1..]);
      NoWhitespaceAfter(s[0], rest);
      [s[0]] + rest
  }

  /** A stretch without whitespace is copied through unchanged. */
  lemma {:induction false} PlainTextIsKept(a: string, b: string)
    requires NoWhitespace(a)
    ensures ReplaceWhitespaceRuns(a + b) == a + ReplaceWhitespaceRuns(b)
  {
    if a != [] {
      assert (a + b)[1..] == a[1..] + b;
      PlainTextIsKept(a[1..], b);
    } else {
      assert a + b == b;
    }
  }

  /** Dropping whitespace from the front of a whitespace run followed by text leaves the text. */
  lemma {:induction false} DropWhitespaceOfRun(w: string, b: string)
    requires AllWhitespace(w)
    requires b == [] || !IsWhitespace(b[0])
    ensures DropWhitespace(w + b) == b
  {
    if w != [] {
      assert (w + b)[1..] == w[1..] + b;
      DropWhitespaceOfRun(w[1..], b);
    } else {
      assert w + b == b;
    }
  }

  /** A whole run of whitespace, however long, becomes exactly one `-`. */
  lemma RunBecomesOneDash(w: string, b: string)
    requires w != [] && AllWhitespace(w)
    requires b == [] || !IsWhitespace(b[0])
    ensures ReplaceWhitespaceRuns(w + b) == "-" + ReplaceWhitespaceRuns(b)
  {
    assert (w + b)[0] == w[0];
    DropWhitespaceOfRun(w, b);
  }

  /** A string without whitespace is its own replacement. */
  lemma NoWhitespaceIsFixed(s: string)
    requires NoWhitespace(s)
    ensures ReplaceWhitespaceRuns(s) == s
  {
    PlainTextIsKept(s, []);
    assert s + [] == s;
  }

  /** `groupName`. */
  function GroupName(legend: string): (r: string)
    ensures NoWhitespace(r)
    ensures forall i :: 0 <= i < |r| ==> !('A' <= r[i] <= 'Z')
  {
    ToLower(ReplaceWhitespaceRuns(legend))
  }

  /** Deriving a group name from a group name changes nothing. */
  lemma GroupNameIdempotent(legend: string)
    ensures GroupName(GroupName(legend)) == GroupName(legend)
  {
    var g := GroupName(legend);
    NoWhitespaceIsFixed(g);
    assert ToLower(g) == g;
  }

  /** Legends that differ only in how much whitespace separates their words share a name. */
  lemma WhitespaceAmountIsIrrelevant(a: string, w1: string, w2: string, b: string)
    requires NoWhitespace(a)
    requires w1 != [] && AllWhitespace(w1) && w2 != [] && AllWhitespace(w2)
    requires b == [] || !IsWhitespace(b[0])
    ensures GroupName(a + w1 + b) == GroupName(a + w2 + b)
  {
    assert a + w1 + b == a + (w1 + b);
    assert a + w2 + b == a + (w2 + b);
    PlainTextIsKept(a, w1 + b);
    PlainTextIsKept(a, w2 + b);
    RunBecomesOneDash(w1, b);
    RunBecomesOneDash(w2, b);
  }

  /** The text of `s` with every whitespace character and every `-` left out. */
  function Strip(s: string): string {
    if s == [] then []
    else (if IsWhitespace(s[0]) || s[0] == '-' then [] else [s[0]]) + Strip(s[1..])
  }

  lemma {:induction false} StripDropWhitespace(s: string)
    ensures Strip(DropWhitespace(s)) == Strip(s)
  {
    if s != [] && IsWhitespace(s[0]) {
      StripDropWhitespace(s[1..]);
    }
  }

  lemma {:induction false} StripReplaceWhitespaceRuns(s: string)
    ensures Strip(ReplaceWhitespaceRuns(s)) == Strip(s)
    decreases |s|
  {
    if s == [] {
    } else if IsWhitespace(s[0]) {
      var rest := ReplaceWhitespaceRuns(DropWhitespace(s));
      assert ("-" + rest)[1..] == rest;
      StripReplaceWhitespaceRuns(DropWhitespace(s));
      StripDropWhitespace(s);
    } else {
      var rest := ReplaceWhitespaceRuns(s[1..]);
      assert ([s[0]] + rest)[1..] == rest;
      StripReplaceWhitespaceRuns(s[1..]);
    }
  }

  lemma {:induction false} StripToLower(s: string)
    ensures Strip(ToLower(s)) == ToLower(Strip(s))
  {
    if s != [] {
      assert ToLower(s)[1..] == ToLower(s[1..]);
      StripToLower(s[1..]);
      var head := if IsWhitespace(s[0]) || s[0] == '-' then [] else [s[0]];
      assert ToLower(head + Strip(s[1..])) == ToLower(head) + ToLower(Strip(s[1..]));
    }
  }

  /**
    Apart from whitespace and dashes, the group name holds the legend's
    characters in their order, lowercased.
   */
  lemma GroupNameKeepsText(legend: string)
    ensures Strip(GroupName(legend)) == ToLower(Strip(legend))
  {
    StripToLower(ReplaceWhitespaceRuns(legend));
    StripReplaceWhitespaceRuns(legend);
  }

  /** Two words separated by one space name the group `word1-word2`, lowercased. */
  lemma TwoWordLegend(word1: string, word2: string)
    requires NoWhitespace(word1) && NoWhitespace(word2)
    ensures GroupName(word1 + " " + word2) == ToLower(word1) + "-" + ToLower(word2)
  {
    GapBecomesDash(word1, ' ', word2);
    ToLowerAppend(word1 + "-", word2);
    ToLowerAppend(word1, "-");
  }

  /** A single whitespace character between two words becomes a `-`. */
  lemma GapBecomesDash(word1: string, gap: char, word2: string)
    requires NoWhitespace(word1) && NoWhitespace(word2) && IsWhitespace(gap)
    ensures ReplaceWhitespaceRuns(word1 + [gap] + word2) == word1 + "-" + word2
  {
    var tail := [gap] + word2;
    assert word1 + [gap] + word2 == word1 + tail;
    PlainTextIsKept(word1, tail);
    assert word2 == [] || !IsWhitespace(word2[0]);
    RunBecomesOneDash([gap], word2);
    NoWhitespaceIsFixed(word2);
  }

  lemma ToLowerAppend(a: string, b: string)
    ensures ToLower(a + b) == ToLower(a) + ToLower(b)
  {
    var l, r := ToLower(a + b), ToLower(a) + ToLower(b);
    assert |l| == |r|;
    forall i | 0 <= i < |l| ensures l[i] == r[i] {
      if i < |a| {
        assert (a + b)[i] == a[i];
      } else {
        assert (a + b)[i] == b[i - |a|];
      }
    }
  }

  // ---------------------------------------------------------------
  // The inputs
  // ---------------------------------------------------------------

  datatype RadioOption = RadioOption(value: string, labelText: string)

  /** One rendered `<input type="radio">` and the label bound to it. */
  datatype RadioInput = RadioInput(id: string, name: string, value: string, checked: bool, labelText: string)

  /** `options.map(...)`: the inputs in option order. */
  function RadioInputs(options: seq<RadioOption>, selectedValue: string, legend: string): (r: seq<RadioInput>)
    ensures |r| == |options|
  {
    seq(|options|, i requires 0 <= i < |options| =>
      RadioInput(options[i].value, GroupName(legend), options[i].value,
                 selectedValue == options[i].value, options[i].labelText))
  }

  /** The value handed to `onChange` when the `i`th input is chosen. */
  function Chosen(options: seq<RadioOption>, i: int): string
    requires 0 <= i < |options|
  {
    options[i].value
  }

  ghost predicate DistinctValues(options: seq<RadioOption>) {
    forall i, j :: 0 <= i < |options| && 0 <= j < |options| && i != j ==> options[i].value != options[j].value
  }

  /** All inputs carry the one name derived from the legend, so the browser treats them as one group. */
  lemma OneGroupForAllInputs(options: seq<RadioOption>, selectedValue: string, legend: string)
    ensures var r := RadioInputs(options, selectedValue, legend);
      forall i, j :: 0 <= i < |r| && 0 <= j < |r| ==> r[i].name == r[j].name == GroupName(legend)
  {
  }

  /**
    With distinct option values, the label of option `i` (`htmlFor` its
    value) designates input `i` and no other.
   */
  lemma LabelsBindOwnInputs(options: seq<RadioOption>, selectedValue: string, legend: string)
    requires DistinctValues(options)
    ensures var r := RadioInputs(options, selectedValue, legend);
      forall i, j :: 0 <= i < |options| && 0 <= j < |r| ==> (r[j].id == options[i].value <==> i == j)
  {
    var r := RadioInputs(options, selectedValue, legend);
    forall i, j | 0 <= i < |options| && 0 <= j < |r|
      ensures r[j].id == options[i].value <==> i == j
    {
      assert r[j].id == options[j].value;
    }
  }

  /** With distinct option values, at most one input is checked. */
  lemma AtMostOneChecked(options: seq<RadioOption>, selectedValue: string, legend: string)
    requires DistinctValues(options)
    ensures var r := RadioInputs(options, selectedValue, legend);
      forall i, j :: 0 <= i < |r| && 0 <= j < |r| && r[i].checked && r[j].checked ==> i == j
  {
    var r := RadioInputs(options, selectedValue, legend);
    forall i, j | 0 <= i < |r| && 0 <= j < |r| && r[i].checked && r[j].checked
      ensures i == j
    {
      assert i != j ==> options[i].value != options[j].value;
    }
  }

  /** Some input is checked exactly when the selected value is one of the options' values. */
  lemma CheckedIffOffered(options: seq<RadioOption>, selectedValue: string, legend: string)
    ensures var r := RadioInputs(options, selectedValue, legend);
      (exists i :: 0 <= i < |r| && r[i].checked) <==>
      (exists k :: 0 <= k < |options| && options[k].value == selectedValue)
  {
    var r := RadioInputs(options, selectedValue, legend);
    if exists k :: 0 <= k < |options| && options[k].value == selectedValue {
      var k :| 0 <= k < |options| && options[k].value == selectedValue;
      assert r[k].checked;
    }
  }

  /**
    Choosing an input and storing the reported value as the selection
    checks that input and, with distinct values, only that one.
   */
  lemma ChoosingChecksIt(options: seq<RadioOption>, legend: string, i: int)
    requires 0 <= i < |options|
    requires DistinctValues(options)
    ensures var r := RadioInputs(options, Chosen(options, i), legend);
      forall j :: 0 <= j < |r| ==> (r[j].checked <==> j == i)
  {
    var r := RadioInputs(options, Chosen(options, i), legend);
    forall j | 0 <= j < |r|
      ensures r[j].checked <==> j == i
    {
      assert j != i ==> options[j].value != options[i].value;
    }
  }
}
