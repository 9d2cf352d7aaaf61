/**
 `check_for_exit`: recognises the fixed exit words, trimmed and
 case-insensitively, as whole inputs only.
 */
module ExitMonitor {
  import opened Text

  const ExitWords: set<string> := {"exit", "quit", "bye", "stop", "end conversation"}

  /** `user_input_text and user_input_text.strip().lower() in {...}`. */
  predicate IsExitCommand(text: string) {
    text != [] && Lower(Strip(text)) in ExitWords
  }

  lemma ExitWordsAreStripped(w: string)
    requires w in ExitWords
    ensures w != [] && !IsSpace(w[0]) && !IsSpace(w[|w| - 1])
  {
  }

  /** An input is an exit command exactly when it is one of the exit words,
      in any ASCII case, with any whitespace around it. */
  lemma ExitCharacterization(text: string)
    ensures IsExitCommand(text) <==>
      exists p, m, q :: Padded(text, p, m, q) && Lower(m) in ExitWords
  {
    if IsExitCommand(text) {
      var m := Strip(text);
      StripPadded(text);
      assert Padded(text, text[..LeadingSpace(text)], m, text[LeadingSpace(text) + |m|..]);
    } else {
      forall p, m, q | Padded(text, p, m, q) && Lower(m) in ExitWords ensures false {
        ExitOfPadded(text, p, m, q);
      }
    }
  }

  /** A padded exit word, in any case, is an exit command. */
  lemma ExitOfPadded(text: string, p: string, m: string, q: string)
    requires Padded(text, p, m, q) && Lower(m) in ExitWords
    ensures IsExitCommand(text)
  {
    ExitWordsAreStripped(Lower(m));
    LowerKeepsSpace(m[0]);
    LowerKeepsSpace(m[|m| - 1]);
    StripUnique(text, p, m, q);
  }

  /** Surrounding whitespace never changes the verdict. */
  lemma ExitIgnoresPadding(p: string, m: string, q: string)
    requires AllSpace(p) && AllSpace(q)
    ensures IsExitCommand(p + m + q) == IsExitCommand(m)
  {
    var s := p + m + q;
    StripIgnoresPadding(p, m, q);
    if m == [] {
      StripOfStripped(m);
      BlankIsNotExit(s);
    } else {
      SameStripSameVerdict(s, m);
    }
  }

  /** Whitespace alone is never an exit command. */
  lemma BlankIsNotExit(text: string)
    requires Strip(text) == []
    ensures !IsExitCommand(text)
  {
    assert Lower(Strip(text)) == [];
    assert [] !in ExitWords;
  }

  /** The verdict depends only on the stripped text of a non-empty input. */
  lemma SameStripSameVerdict(a: string, b: string)
    requires a != [] && b != [] && Strip(a) == Strip(b)
    ensures IsExitCommand(a) == IsExitCommand(b)
  {
  }

  /** Case never changes the verdict. */
  lemma ExitIgnoresCase(text: string)
    ensures IsExitCommand(Lower(text)) == IsExitCommand(text)
  {
    StripLower(text);
    LowerIdempotent(Strip(text));
  }

  /** Padded and upper-case exit words end the conversation; a longer word
      containing one does not. */
  lemma ExitExamples()
    ensures IsExitCommand("  EXIT  ")
    ensures IsExitCommand("Bye")
    ensures IsExitCommand("STOP")
    ensures !IsExitCommand("exiting")
    ensures !IsExitCommand("")
  {
    ExitPaddedUpper();
    ExitBareWords();
    NotExitExiting();
  }

  lemma ExitPaddedUpper()
    ensures IsExitCommand("  EXIT  ")
  {
    assert "  EXIT  " == "  " + "EXIT" + "  ";
    assert AllSpace("  ");
    LowerIs("EXIT", "exit");
    ExitOfPadded("  EXIT  ", "  ", "EXIT", "  ");
  }

  /** Exit words typed without padding, in mixed and upper case. */
  lemma ExitBareWords()
    ensures IsExitCommand("Bye")
    ensures IsExitCommand("STOP")
  {
    StripOfStripped("Bye");
    LowerIs("Bye", "bye");
    StripOfStripped("STOP");
    LowerIs("STOP", "stop");
  }

  lemma NotExitExiting()
    ensures !IsExitCommand("exiting")
  {
    StripOfStripped("exiting");
    assert |Lower("exiting")| == 7;
  }
}
