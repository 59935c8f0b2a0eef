/** The selection command typed at the menu prompt (gopher-tidy.go:118-139):
    `quit`, `all`, or a list of 1-based indices. */
module Selection {
  import opened Common
  import opened Text
  import opened Decimal

  /** What an index list selects: the named entries in token order, repeats
      included, and the tokens that name no entry. */
  datatype Picked = Picked(chosen: seq<string>, rejected: seq<string>)

  datatype Command = Quit | Pick(picked: Picked)

  /** The 0-based position a token names in a list of `count` entries: it
      must parse as an integer between 1 and `count`. */
  function Position(token: string, count: nat): (r: Option<nat>)
    ensures r.Some? ==> r.value < count && Atoi(token) == Some(r.value + 1)
    ensures r.None? ==> Atoi(token).None? || !(1 <= Atoi(token).value <= count)
  {
    match Atoi(token)
    case Some(k) => if 1 <= k <= count then Some(k - 1) else None
    case None => None
  }

  /** `t` is the 1-based index of an entry in a list of `count`: it
      parses as an integer and lies between 1 and `count`. */
  predicate Names(t: string, count: nat)
    ensures Names(t, count) <==> Atoi(t).Some? && 1 <= Atoi(t).value <= count
  {
    Position(t, count).Some?
  }

  /** What one token contributes (gopher-tidy.go:132-137): the entry it
      names, or the token itself when it names none. */
  function PickToken(t: string, files: seq<string>): Picked {
    match Position(t, |files|)
    case Some(i) => Picked([files[i]], [])
    case None => Picked([], [t])
  }

  function Combine(p: Picked, q: Picked): Picked {
    Picked(p.chosen + q.chosen, p.rejected + q.rejected)
  }

  /** The loop over the tokens of an index list (gopher-tidy.go:130-138):
      every token either selects an entry or is rejected. */
  function PickTokens(tokens: seq<string>, files: seq<string>): (p: Picked)
    ensures |p.chosen| + |p.rejected| == |tokens|
  {
    if tokens == [] then Picked([], [])
    else Combine(PickToken(tokens[0], files), PickTokens(tokens[1..], files))
  }

  /** Classifying the trimmed input line (gopher-tidy.go:119-139). */
  function ParseCommand(line: string, files: seq<string>): (c: Command)
    ensures c.Pick? ==> forall x :: x in c.picked.chosen ==> x in files
    ensures c.Pick? ==> AllWords(c.picked.rejected)
    ensures c.Pick? ==> forall t :: t in c.picked.rejected ==> t in Fields(TrimSpace(line))
  {
    var input := TrimSpace(line);
    if EqualFold(input, "quit") then Quit
    else if EqualFold(input, "all") then Pick(Picked(files, []))
    else
      var tokens := Fields(input);
      FieldsAreWords(input);
      var p := PickTokens(tokens, files);
      PickTokensFromInputs(tokens, files);
      assert AllWords(p.rejected) by {
        forall k | 0 <= k < |p.rejected| ensures IsWord(p.rejected[k]) {
          assert p.rejected[k] in tokens;
        }
      }
      Pick(p)
  }

  /** The tokens that name an entry, in input order. */
  function NamingTokens(tokens: seq<string>, count: nat): (ts: seq<string>)
    ensures forall k :: 0 <= k < |ts| ==> Names(ts[k], count)
  {
    if tokens == [] then []
    else (if Names(tokens[0], count) then [tokens[0]] else []) + NamingTokens(tokens[1..], count)
  }

  /** The tokens that name no entry, in input order. */
  function InvalidTokens(tokens: seq<string>, count: nat): (ts: seq<string>)
    ensures forall k :: 0 <= k < |ts| ==> !Names(ts[k], count)
  {
    if tokens == [] then []
    else (if Names(tokens[0], count) then [] else [tokens[0]]) + InvalidTokens(tokens[1..], count)
  }

  /** The entry a token names; the token itself when it names none. */
  function Entry(t: string, files: seq<string>): string {
    match Position(t, |files|)
    case Some(i) => files[i]
    case None => t
  }

  /** The entries named by a sequence of tokens: the entry of the `k`-th
      token at position `k`. */
  function Resolve(ts: seq<string>, files: seq<string>): (r: seq<string>)
    ensures |r| == |ts|
    ensures forall k :: 0 <= k < |ts| ==> r[k] == Entry(ts[k], files)
  {
    if ts == [] then [] else [Entry(ts[0], files)] + Resolve(ts[1..], files)
  }

  // ------------------------------------------------------------------ lemmas

  /** A token selects the entry it names, and a token that names none is
      rejected. */
  lemma PickTokenRule(t: string, files: seq<string>)
    ensures Names(t, |files|) ==> PickToken(t, files) == Picked([Entry(t, files)], [])
    ensures !Names(t, |files|) ==> PickToken(t, files) == Picked([], [t])
  {
  }

  /** A valid token names the entry at its index minus one. */
  lemma EntryNamed(t: string, files: seq<string>)
    requires Names(t, |files|)
    ensures Entry(t, files) == files[Atoi(t).value - 1]
  {
  }

  /** What an index list selects, stated without the loop: the entries
      named by the valid tokens, in token order and with repeats, and the
      invalid tokens, in order. */
  lemma {:induction false} PickTokensSpec(tokens: seq<string>, files: seq<string>)
    ensures PickTokens(tokens, files) ==
      Picked(Resolve(NamingTokens(tokens, |files|), files), InvalidTokens(tokens, |files|))
    decreases |tokens|
  {
    if tokens != [] {
      var t := tokens[0];
      PickTokensSpec(tokens[1..], files);
      PickTokenRule(t, files);
      if Names(t, |files|) {
        assert ([t] + NamingTokens(tokens[1..], |files|))[1..] == NamingTokens(tokens[1..], |files|);
      } else {
        assert [] + NamingTokens(tokens[1..], |files|) == NamingTokens(tokens[1..], |files|);
      }
    }
  }

  /** Selected entries come from the list and rejected tokens from the
      input. */
  lemma {:induction false} PickTokensFromInputs(tokens: seq<string>, files: seq<string>)
    ensures forall x :: x in PickTokens(tokens, files).chosen ==> x in files
    ensures forall t :: t in PickTokens(tokens, files).rejected ==> t in tokens
    decreases |tokens|
  {
    if tokens != [] {
      PickTokensFromInputs(tokens[1..], files);
      assert forall t :: t in tokens[1..] ==> t in tokens;
    }
  }

  lemma CombineAssoc(p: Picked, q: Picked, r: Picked)
    ensures Combine(p, Combine(q, r)) == Combine(Combine(p, q), r)
  {
  }

  lemma PickTokensUnfold(a: seq<string>, b: seq<string>, files: seq<string>)
    requires a != []
    ensures PickTokens(a + b, files) == Combine(PickToken(a[0], files), PickTokens(a[1..] + b, files))
  {
    assert (a + b)[0] == a[0];
    assert (a + b)[1..] == a[1..] + b;
  }

  /** Tokens are handled one at a time and independently: the selection of
      a concatenated list is the concatenation of the selections. */
  lemma {:induction false} PickTokensAppend(a: seq<string>, b: seq<string>, files: seq<string>)
    ensures PickTokens(a + b, files) == Combine(PickTokens(a, files), PickTokens(b, files))
    decreases |a|
  {
    if a == [] {
      assert a + b == b;
    } else {
      var h := PickToken(a[0], files);
      PickTokensUnfold(a, b, files);
      PickTokensAppend(a[1..], b, files);
      CombineAssoc(h, PickTokens(a[1..], files), PickTokens(b, files));
    }
  }

  /** A single token selects the entry it names, or is rejected. */
  lemma PickOne(t: string, files: seq<string>)
    ensures PickTokens([t], files) == PickToken(t, files)
  {
    assert [t][1..] == [];
  }

  /** The indices the menu shows, "1" to `n`. */
  function IndexTokens(n: nat): (ts: seq<string>)
    ensures |ts| == n
  {
    if n == 0 then [] else IndexTokens(n - 1) + [ShowNat(n)]
  }

  /** The index shown for an entry selects that entry. */
  lemma PickShownIndex(n: nat, files: seq<string>)
    requires 1 <= n <= |files| <= MaxInt64
    ensures PickTokens([ShowNat(n)], files) == Picked([files[n - 1]], [])
  {
    AtoiShowNat(n);
    assert Names(ShowNat(n), |files|);
    PickOne(ShowNat(n), files);
  }

  /** Typing the first `n` shown indices selects the first `n` entries, in
      order, and rejects nothing. */
  lemma {:induction false} PickIndexTokens(n: nat, files: seq<string>)
    requires n <= |files| <= MaxInt64
    ensures PickTokens(IndexTokens(n), files) == Picked(files[..n], [])
  {
    if n > 0 {
      var prefix := IndexTokens(n - 1);
      assert IndexTokens(n) == prefix + [ShowNat(n)];
      PickIndexTokens(n - 1, files);
      PickTokensAppend(prefix, [ShowNat(n)], files);
      PickShownIndex(n, files);
      ExtendPrefix(files, n);
    }
  }

  lemma ExtendPrefix(files: seq<string>, n: nat)
    requires 1 <= n <= |files|
    ensures Combine(Picked(files[..n - 1], []), Picked([files[n - 1]], [])) == Picked(files[..n], [])
  {
    assert files[..n - 1] + [files[n - 1]] == files[..n];
  }

  /** Input equal to "quit" in any mix of case, surrounded by any white
      space, is the quit command; nothing else is. */
  lemma QuitIff(line: string, files: seq<string>)
    ensures ParseCommand(line, files) == Quit <==> SpelledAnyCase(TrimSpace(line), "quit")
  {
    EqualFoldWord(TrimSpace(line), "quit");
  }

  /** Input equal to "all" in any mix of case selects the whole list, in
      list order. */
  lemma AllSelectsEverything(line: string, files: seq<string>)
    requires SpelledAnyCase(TrimSpace(line), "all")
    ensures ParseCommand(line, files) == Pick(Picked(files, []))
  {
    var input := TrimSpace(line);
    EqualFoldWord(input, "all");
    assert |Lower(input)| == 3;
    assert !EqualFold(input, "quit");
  }

  /** A blank line selects nothing and rejects nothing. */
  lemma BlankLineSelectsNothing(line: string, files: seq<string>)
    requires AllSpace(line)
    ensures ParseCommand(line, files) == Pick(Picked([], []))
  {
    TrimSpaceSpec(line);
    assert Lower([]) == [];
  }

  /** An index list: a line that is not a keyword selects the entries its
      valid tokens name, in order and with repeats, and rejects exactly its
      invalid tokens, in order. */
  lemma IndexList(line: string, files: seq<string>)
    requires !EqualFold(TrimSpace(line), "quit") && !EqualFold(TrimSpace(line), "all")
    ensures ParseCommand(line, files) ==
      Pick(Picked(Resolve(NamingTokens(Fields(TrimSpace(line)), |files|), files),
                  InvalidTokens(Fields(TrimSpace(line)), |files|)))
  {
    PickTokensSpec(Fields(TrimSpace(line)), files);
  }

  /** The tokens of a line written as words separated by single spaces,
      with visible ends; such a line of any length but three or four is
      neither keyword. */
  lemma LineTokens(line: string, tokens: seq<string>)
    requires AllWords(tokens) && Unwords(tokens) == line
    requires line != [] && !IsSpace(line[0]) && !IsSpace(line[|line| - 1])
    requires |line| != 3 && |line| != 4
    ensures Fields(TrimSpace(line)) == tokens
    ensures !EqualFold(TrimSpace(line), "quit") && !EqualFold(TrimSpace(line), "all")
  {
    TrimSpaceNoop(line);
    FieldsUnwords(tokens);
    assert |Lower(line)| == |line|;
  }

  lemma ExampleAtoi()
    ensures Atoi("1") == Some(1) && Atoi("3") == Some(3) && Atoi("4") == Some(4)
    ensures Atoi("99") == Some(99) && Atoi("x") == None
  {
    assert DigitsValue("1") == 1;
    assert DigitsValue("3") == 3;
    assert DigitsValue("4") == 4;
    assert DigitsValue("99") == 99 by {
      assert "99"[..1] == "9";
      assert DigitsValue("9") == 9;
    }
  }

  lemma MixedLine()
    ensures Fields(TrimSpace("1 3 99 x")) == ["1", "3", "99", "x"]
    ensures !EqualFold(TrimSpace("1 3 99 x"), "quit") && !EqualFold(TrimSpace("1 3 99 x"), "all")
  {
    var tokens := ["1", "3", "99", "x"];
    assert Unwords(tokens) == "1 3 99 x" by {
      assert Unwords(["x"]) == "x";
      assert Unwords(["99", "x"]) == "99 x";
      assert Unwords(["3", "99", "x"]) == "3 99 x";
    }
    assert IsWord("1") && IsWord("3") && IsWord("99") && IsWord("x");
    LineTokens("1 3 99 x", tokens);
  }

  lemma MixedSplit()
    ensures NamingTokens(["1", "3", "99", "x"], 3) == ["1", "3"]
    ensures InvalidTokens(["1", "3", "99", "x"], 3) == ["99", "x"]
  {
    var tokens := ["1", "3", "99", "x"];
    ExampleAtoi();
    assert tokens[1..] == ["3", "99", "x"];
    assert tokens[2..] == ["99", "x"];
    assert tokens[3..] == ["x"];
  }

  /** `IndexList` for a line whose tokens and their split are known. */
  lemma SplitLine(line: string, files: seq<string>, tokens: seq<string>,
                  naming: seq<string>, invalid: seq<string>)
    requires Fields(TrimSpace(line)) == tokens
    requires !EqualFold(TrimSpace(line), "quit") && !EqualFold(TrimSpace(line), "all")
    requires NamingTokens(tokens, |files|) == naming && InvalidTokens(tokens, |files|) == invalid
    ensures ParseCommand(line, files) == Pick(Picked(Resolve(naming, files), invalid))
  {
    IndexList(line, files);
  }

  /** For three entries, "1" and "3" name the first and the third. */
  lemma FirstAndThird(files: seq<string>)
    requires |files| == 3
    ensures Resolve(["1", "3"], files) == [files[0], files[2]]
  {
    ExampleAtoi();
    assert Resolve(["1", "3"], files) == [Entry("1", files), Entry("3", files)];
  }

  /** An index list that mixes valid, out-of-range and non-numeric tokens:
      for three entries, "1 3 99 x" selects the first and third and rejects
      "99" and "x". */
  lemma SelectionExample(f0: string, f1: string, f2: string)
    ensures ParseCommand("1 3 99 x", [f0, f1, f2]) == Pick(Picked([f0, f2], ["99", "x"]))
  {
    var files := [f0, f1, f2];
    MixedLine();
    MixedSplit();
    SplitLine("1 3 99 x", files, ["1", "3", "99", "x"], ["1", "3"], ["99", "x"]);
    FirstAndThird(files);
  }

  lemma PromptLine()
    ensures Fields(TrimSpace("1 3 4")) == ["1", "3", "4"]
    ensures !EqualFold(TrimSpace("1 3 4"), "quit") && !EqualFold(TrimSpace("1 3 4"), "all")
  {
    var tokens := ["1", "3", "4"];
    assert Unwords(tokens) == "1 3 4" by {
      assert Unwords(["4"]) == "4";
      assert Unwords(["3", "4"]) == "3 4";
    }
    assert IsWord("1") && IsWord("3") && IsWord("4");
    LineTokens("1 3 4", tokens);
  }

  lemma PromptSplit()
    ensures NamingTokens(["1", "3", "4"], 3) == ["1", "3"]
    ensures InvalidTokens(["1", "3", "4"], 3) == ["4"]
  {
    var tokens := ["1", "3", "4"];
    ExampleAtoi();
    assert tokens[1..] == ["3", "4"];
    assert tokens[2..] == ["4"];
  }

  /** The example the prompt suggests: for three entries, "1 3 4" selects
      the first and third and rejects "4". */
  lemma PromptExample(f0: string, f1: string, f2: string)
    ensures ParseCommand("1 3 4", [f0, f1, f2]) == Pick(Picked([f0, f2], ["4"]))
  {
    var files := [f0, f1, f2];
    PromptLine();
    PromptSplit();
    SplitLine("1 3 4", files, ["1", "3", "4"], ["1", "3"], ["4"]);
    FirstAndThird(files);
  }
}
