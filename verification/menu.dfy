/** The interactive loop of `handleDeletion` (gopher-tidy.go:110-158) as a
    state machine driven by the lines the user types. */
module Menu {
  import opened Text
  import opened Selection

  /** How a finished session ended: the user quit, or confirmed deleting
      `paths`. */
  datatype Ending = QuitWithoutChanges | DeletionRun(paths: seq<string>)

  datatype State =
    | Prompting
    | Confirming(selection: seq<string>)
    | Done(ending: Ending)

  /** The confirmation test (gopher-tidy.go:149). */
  predicate IsYes(line: string) {
    TrimSpace(Lower(line)) == "y"
  }

  /** One line of input read in state `s`. */
  function Step(files: seq<string>, s: State, line: string): (t: State)
    ensures s.Done? ==> t == s
    ensures t.Confirming? ==> t.selection != [] && forall x :: x in t.selection ==> x in files
    ensures s.Prompting? && t.Confirming? ==>
      ParseCommand(line, files).Pick? && t.selection == ParseCommand(line, files).picked.chosen
    ensures !s.Done? && t.Done? && t.ending.DeletionRun? ==>
      s.Confirming? && t.ending.paths == s.selection && IsYes(line)
  {
    match s
    case Done(_) => s
    case Prompting =>
      (match ParseCommand(line, files)
       case Quit => Done(QuitWithoutChanges)
       case Pick(p) => if p.chosen == [] then Prompting else Confirming(p.chosen))
    case Confirming(selection) =>
      if IsYes(line) then Done(DeletionRun(selection)) else Prompting
  }

  /** The state after reading every line of `lines`. */
  function Run(files: seq<string>, s: State, lines: seq<string>): State
    decreases |lines|
  {
    if lines == [] then s else Run(files, Step(files, s, lines[0]), lines[1..])
  }

  /** The deletions started while reading `lines`, in order. */
  function Deletions(files: seq<string>, s: State, lines: seq<string>): seq<seq<string>>
    decreases |lines|
  {
    if lines == [] then []
    else
      var t := Step(files, s, lines[0]);
      var started := if !s.Done? && t.Done? && t.ending.DeletionRun? then [t.ending.paths] else [];
      started + Deletions(files, t, lines[1..])
  }

  // ------------------------------------------------------------------ lemmas

  /** A confirmation is "y" or "Y" with any white space around it. */
  lemma YesIff(line: string)
    ensures IsYes(line) <==> TrimSpace(line) == "y" || TrimSpace(line) == "Y"
  {
    LowerTrimSpace(line);
    LowerIsLetter(TrimSpace(line), 'y');
  }

  /** A finished session stays finished and starts nothing more. */
  lemma {:induction false} DoneIsFinal(files: seq<string>, e: Ending, lines: seq<string>)
    ensures Run(files, Done(e), lines) == Done(e)
    ensures Deletions(files, Done(e), lines) == []
    decreases |lines|
  {
    if lines != [] {
      DoneIsFinal(files, e, lines[1..]);
    }
  }

  /** Deletion happens at most once per session, and a session that deleted
      ends right there, having deleted a non-empty selection of the listed
      entries that the user confirmed. */
  lemma {:induction false} AtMostOneDeletion(files: seq<string>, s: State, lines: seq<string>)
    requires s.Confirming? ==> s.selection != [] && forall x :: x in s.selection ==> x in files
    ensures |Deletions(files, s, lines)| <= 1
    ensures s.Done? ==> Deletions(files, s, lines) == []
    ensures |Deletions(files, s, lines)| == 1 ==>
      var d := Deletions(files, s, lines)[0];
      && Run(files, s, lines) == Done(DeletionRun(d))
      && d != []
      && forall x :: x in d ==> x in files
    decreases |lines|
  {
    if s.Done? {
      DoneIsFinal(files, s.ending, lines);
    } else if lines != [] {
      var t := Step(files, s, lines[0]);
      if t.Done? {
        DoneIsFinal(files, t.ending, lines[1..]);
      } else {
        AtMostOneDeletion(files, t, lines[1..]);
      }
    }
  }

  lemma RunCons(files: seq<string>, s: State, line: string, rest: seq<string>)
    ensures Run(files, s, [line] + rest) == Run(files, Step(files, s, line), rest)
    ensures Deletions(files, s, [line] + rest) ==
      (if !s.Done? && Step(files, s, line).Done? && Step(files, s, line).ending.DeletionRun?
       then [Step(files, s, line).ending.paths] else []) + Deletions(files, Step(files, s, line), rest)
  {
    assert ([line] + rest)[0] == line;
    assert ([line] + rest)[1..] == rest;
  }

  /** Quitting: trimmed input that spells "quit" in any case ends the
      session at the prompt with nothing deleted, whatever follows. */
  lemma QuitEndsSession(files: seq<string>, line: string, rest: seq<string>)
    requires SpelledAnyCase(TrimSpace(line), "quit")
    ensures Run(files, Prompting, [line] + rest) == Done(QuitWithoutChanges)
    ensures Deletions(files, Prompting, [line] + rest) == []
  {
    QuitIff(line, files);
    assert Step(files, Prompting, line) == Done(QuitWithoutChanges);
    RunCons(files, Prompting, line, rest);
    DoneIsFinal(files, QuitWithoutChanges, rest);
  }

  /** A line that selects nothing (a blank line, or only invalid tokens)
      leads back to the prompt. */
  lemma EmptySelectionReprompts(files: seq<string>, line: string)
    requires ParseCommand(line, files).Pick? && ParseCommand(line, files).picked.chosen == []
    ensures Step(files, Prompting, line) == Prompting
  {
  }

  /** Selecting at the prompt and answering `y`: exactly the entries the
      line selected, in the order and with the repeats it gave, are
      deleted, and the session ends. */
  lemma SelectThenConfirm(files: seq<string>, line: string, answer: string)
    requires ParseCommand(line, files).Pick? && ParseCommand(line, files).picked.chosen != []
    requires IsYes(answer)
    ensures Run(files, Prompting, [line, answer]) == Done(DeletionRun(ParseCommand(line, files).picked.chosen))
    ensures Deletions(files, Prompting, [line, answer]) == [ParseCommand(line, files).picked.chosen]
  {
    var chosen := ParseCommand(line, files).picked.chosen;
    assert Step(files, Prompting, line) == Confirming(chosen);
    RunCons(files, Prompting, line, [answer]);
    RunCons(files, Confirming(chosen), answer, []);
  }

  /** The confirmation gate: any answer other than "y"/"Y" deletes nothing
      and returns to the prompt, dropping the selection. */
  lemma ConfirmationGate(files: seq<string>, selection: seq<string>, line: string)
    ensures TrimSpace(line) == "y" || TrimSpace(line) == "Y" ==>
      Step(files, Confirming(selection), line) == Done(DeletionRun(selection))
    ensures TrimSpace(line) != "y" && TrimSpace(line) != "Y" ==>
      Step(files, Confirming(selection), line) == Prompting
  {
    YesIff(line);
  }

  /** At the end of input every read yields the empty line, and the loop
      keeps showing the menu: it never finishes on its own. */
  lemma {:induction false} EndOfInputNeverFinishes(files: seq<string>, n: nat)
    ensures Run(files, Prompting, seq(n, _ => "")) == Prompting
  {
    BlankLineSelectsNothing("", files);
    if n > 0 {
      assert seq(n, _ => "")[1..] == seq(n - 1, _ => "");
      EndOfInputNeverFinishes(files, n - 1);
    }
  }
}
