/**
 `extract_questions`: turns the generator's free text into a list of question
 strings. Lines of the form `<digits>.` or `<digits>)` followed by text are
 the primary source; when no line has that form, every non-blank line is
 taken instead. The function is total: malformed or empty text yields a
 (possibly empty) list, never an error.

 Matching is per line: the multi-line regex `^\d+[\.\)]\s*(.*)` is read with
 `\s*` confined to its own line and `\d` meaning an ASCII digit.
 */
module Extractor {
  import opened Text

  /** Number of ASCII digits at the start of a line. */
  function DigitRun(l: string): (n: nat)
    ensures n <= |l|
    ensures AllDigits(l[..n])
    ensures n == |l| || !IsDigit(l[n])
  {
    if l == [] || !IsDigit(l[0]) then 0
    else
      var n := DigitRun(l[1..]);
      assert l[..n + 1] == [l[0]] + l[1..][..n];
      n + 1
  }

  /** The line opens with a number followed by `.` or `)`. */
  predicate IsNumbered(l: string) {
    var n := DigitRun(l);
    0 < n < |l| && (l[n] == '.' || l[n] == ')')
  }

  /** The text after the number and its punctuation, stripped. */
  function QuestionText(l: string): string
    requires IsNumbered(l)
  {
    Strip(l[DigitRun(l) + 1..])
  }

  /** Python's `text.split('\n')`. */
  function Lines(text: string): seq<string> {
    Split(text, '\n')
  }

  /** What `re.findall` returns, after the `strip()` of each capture: the
      question text of every numbered line, in order, duplicates kept. */
  function Numbered(ls: seq<string>): (r: seq<string>)
    ensures |r| <= |ls|
    ensures forall k :: 0 <= k < |r| ==> IsStripped(r[k])
  {
    if ls == [] then []
    else
      var rest := Numbered(ls[1..]);
      if IsNumbered(ls[0]) then
        var q := QuestionText(ls[0]);
        StrippedCons(q, rest);
        [q] + rest
      else
        rest
  }

  lemma StrippedCons(q: string, rest: seq<string>)
    requires IsStripped(q) && forall k :: 0 <= k < |rest| ==> IsStripped(rest[k])
    ensures forall k :: 0 <= k < |[q] + rest| ==> IsStripped(([q] + rest)[k])
  {
  }

  /** Nothing is found exactly when no line is numbered. */
  lemma {:induction false} NumberedEmpty(ls: seq<string>)
    ensures Numbered(ls) == [] <==> forall k :: 0 <= k < |ls| ==> !IsNumbered(ls[k])
    decreases |ls|
  {
    if ls != [] {
      NumberedEmpty(ls[1..]);
      assert forall k :: 1 <= k < |ls| ==> ls[k] == ls[1..][k - 1];
    }
  }

  /** The numbered lines of a concatenation are those of each part, in order. */
  lemma {:induction false} NumberedAppend(a: seq<string>, b: seq<string>)
    ensures Numbered(a + b) == Numbered(a) + Numbered(b)
    decreases |a|
  {
    if a == [] {
      assert a + b == b;
    } else {
      assert (a + b)[1..] == a[1..] + b;
      NumberedAppend(a[1..], b);
    }
  }

  /** `extract_questions`. */
  function ExtractQuestions(text: string): (r: seq<string>)
    ensures |r| <= |Lines(text)|
    ensures forall k :: 0 <= k < |r| ==> IsStripped(r[k]) && '\n' !in r[k]
  {
    var ls := Lines(text);
    var found := Numbered(ls);
    var r := if found != [] then found else NonBlankStripped(ls);
    assert forall k :: 0 <= k < |r| ==> '\n' !in r[k] by {
      NonBlankStrippedAvoids(ls, '\n');
      NumberedAvoids(ls, '\n');
    }
    r
  }

  lemma {:induction false} NumberedAvoids(ls: seq<string>, c: char)
    requires forall k :: 0 <= k < |ls| ==> c !in ls[k]
    ensures forall k :: 0 <= k < |Numbered(ls)| ==> c !in Numbered(ls)[k]
    decreases |ls|
  {
    if ls != [] {
      var rest := Numbered(ls[1..]);
      NumberedAvoids(ls[1..], c);
      if IsNumbered(ls[0]) {
        var l := ls[0];
        var t := l[DigitRun(l) + 1..];
        forall i | 0 <= i < |t| ensures t[i] != c {
          assert t[i] == l[DigitRun(l) + 1 + i];
        }
        StripAvoids(t, c);
        var r := [QuestionText(l)] + rest;
        assert Numbered(ls) == r;
        forall k | 0 <= k < |r| ensures c !in r[k] {
          if k > 0 { assert r[k] == rest[k - 1]; }
        }
      }
    }
  }

  /** When some line is numbered, exactly the numbered lines contribute. */
  lemma ExtractPrefersNumbered(text: string, k: nat)
    requires k < |Lines(text)| && IsNumbered(Lines(text)[k])
    ensures ExtractQuestions(text) == Numbered(Lines(text))
  {
    NumberedEmpty(Lines(text));
  }

  /** When no line is numbered, every non-blank line is a question. */
  lemma ExtractFallsBack(text: string)
    requires forall k :: 0 <= k < |Lines(text)| ==> !IsNumbered(Lines(text)[k])
    ensures ExtractQuestions(text) == NonBlankStripped(Lines(text))
    ensures forall k :: 0 <= k < |ExtractQuestions(text)| ==> ExtractQuestions(text)[k] != []
  {
    NumberedEmpty(Lines(text));
  }

  lemma ExtractEmpty()
    ensures ExtractQuestions("") == []
  {
    SplitJoin([""], '\n');
    assert Lines("") == [""];
    assert !IsNumbered("");
    NumberedEmpty([""]);
    StripOfStripped("");
    assert NonBlankStripped([""]) == [] + NonBlankStripped([]);
  }

  /** Extraction of a text given as its lines. */
  lemma ExtractOfLines(text: string, ls: seq<string>)
    requires |ls| >= 1 && forall k :: 0 <= k < |ls| ==> '\n' !in ls[k]
    requires Join(ls, '\n') == text
    ensures ExtractQuestions(text) == if Numbered(ls) != [] then Numbered(ls) else NonBlankStripped(ls)
  {
    SplitJoin(ls, '\n');
  }

  /** Numbered lines with either punctuation, in order. */
  lemma ExtractNumberedExample()
    ensures ExtractQuestions("1. Why?\n2) How?\n3. What?")
            == ["Why?", "How?", "What?"]
  {
    var ls := ["1. Why?", "2) How?", "3. What?"];
    NumberedExampleLines();
    NumberedExampleQuestions();
    ExtractOfLines("1. Why?\n2) How?\n3. What?", ls);
  }

  lemma NumberedExampleLines()
    ensures Join(["1. Why?", "2) How?", "3. What?"], '\n')
            == "1. Why?\n2) How?\n3. What?"
    ensures forall k :: 0 <= k < 3 ==> '\n' !in ["1. Why?", "2) How?", "3. What?"][k]
  {
    Join3("1. Why?", "2) How?", "3. What?", '\n');
  }

  lemma Join3(a: string, b: string, c: string, sep: char)
    ensures Join([a, b, c], sep) == a + [sep] + b + [sep] + c
  {
    assert [a, b, c][1..] == [b, c];
    assert [b, c][1..] == [c];
    assert Join([b, c], sep) == b + [sep] + c;
    assert Join([a, b, c], sep) == a + [sep] + (b + [sep] + c);
  }

  lemma NumberedExampleQuestions()
    ensures Numbered(["1. Why?", "2) How?", "3. What?"])
            == ["Why?", "How?", "What?"]
  {
    ExampleLine1();
    ExampleLine2();
    ExampleLine3();
    NumberedThree("1. Why?", "2) How?", "3. What?");
  }

  /** The example's lines, one per lemma: each literal is unfolded in a
      context of its own. */
  lemma ExampleLine1()
    ensures IsNumbered("1. Why?") && QuestionText("1. Why?") == "Why?"
  {
    NumberedExampleLine("1. Why?", '1', '.', "Why?");
  }

  lemma ExampleLine2()
    ensures IsNumbered("2) How?") && QuestionText("2) How?") == "How?"
  {
    NumberedExampleLine("2) How?", '2', ')', "How?");
  }

  lemma ExampleLine3()
    ensures IsNumbered("3. What?") && QuestionText("3. What?") == "What?"
  {
    NumberedExampleLine("3. What?", '3', '.', "What?");
  }

  lemma NumberedThree(l1: string, l2: string, l3: string)
    requires IsNumbered(l1) && IsNumbered(l2) && IsNumbered(l3)
    ensures Numbered([l1, l2, l3]) == [QuestionText(l1), QuestionText(l2), QuestionText(l3)]
  {
    NumberedCons(l3, []);
    NumberedCons(l2, [l3]);
    NumberedCons(l1, [l2, l3]);
  }

  lemma NumberedExampleLine(l: string, d: char, punct: char, q: string)
    requires IsDigit(d) && (punct == '.' || punct == ')') && IsStripped(q)
    requires l == [d, punct, ' '] + q
    ensures IsNumbered(l) && QuestionText(l) == q
  {
    QuestionTextExample(d, punct, q);
  }

  lemma NumberedCons(l: string, rest: seq<string>)
    ensures Numbered([l] + rest)
            == (if IsNumbered(l) then [QuestionText(l)] else []) + Numbered(rest)
  {
    assert ([l] + rest)[1..] == rest;
  }

  lemma QuestionTextExample(d: char, punct: char, q: string)
    requires IsDigit(d) && (punct == '.' || punct == ')') && IsStripped(q)
    ensures IsNumbered([d, punct, ' '] + q) && QuestionText([d, punct, ' '] + q) == q
  {
    var l := [d, punct, ' '] + q;
    assert l[1..][0] == punct;
    assert DigitRun(l[1..]) == 0;
    assert DigitRun(l) == 1;
    assert l[2..] == " " + q + "";
    StripUnique(l[2..], " ", q, "");
  }

  /** Without numbered lines the non-blank lines are taken, stripped. */
  lemma ExtractFallbackExample()
    ensures ExtractQuestions("hello\nworld") == ["hello", "world"]
  {
    var ls := ["hello", "world"];
    FallbackExampleLines();
    assert IsStripped("hello") && IsStripped("world");
    NonBlankStrippedKeeps(ls);
    assert NonBlankStripped(ls) == ls;
    ExtractOfLines("hello\nworld", ls);
  }

  lemma FallbackExampleLines()
    ensures Join(["hello", "world"], '\n') == "hello\nworld"
    ensures forall k :: 0 <= k < 2 ==> '\n' !in ["hello", "world"][k]
    ensures Numbered(["hello", "world"]) == []
  {
    assert DigitRun("hello") == 0 && DigitRun("world") == 0;
    NumberedEmpty(["hello", "world"]);
  }
}
