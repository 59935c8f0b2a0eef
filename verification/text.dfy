/** The string operations of Go's `strings` package that the tool relies on:
    TrimSpace, Fields, ReplaceAll(_, " ", ""), ToLower, Contains and EqualFold.
    Case mapping is restricted to ASCII letters. */
module Text {

  /** Go's `unicode.IsSpace`: the ASCII white space characters, NEL, NBSP
      and the Unicode space, line and paragraph separators. */
  predicate IsSpace(c: char) {
    || c == ' ' || c == '\t' || c == '\n' || c == '\U{0B}' || c == '\U{0C}' || c == '\r'
    || c == '\U{85}' || c == '\U{A0}' || c == '\U{1680}'
    || ('\U{2000}' <= c <= '\U{200A}')
    || c == '\U{2028}' || c == '\U{2029}' || c == '\U{202F}' || c == '\U{205F}' || c == '\U{3000}'
  }

  predicate AllSpace(s: string) {
    forall i :: 0 <= i < |s| ==> IsSpace(s[i])
  }

  /** Every character of `s` from index `a` up to `b` is white space. */
  predicate Blank(s: string, a: int, b: int) {
    forall k :: a <= k < b && 0 <= k < |s| ==> IsSpace(s[k])
  }

  predicate NoSpace(s: string) {
    forall i :: 0 <= i < |s| ==> !IsSpace(s[i])
  }

  /** `needle` occurs in `hay` starting at index `i`. */
  predicate OccursAt(needle: string, hay: string, i: int) {
    0 <= i && i + |needle| <= |hay| && hay[i..i + |needle|] == needle
  }

  // ---------------------------------------------------------------- trimming

  /** `r` is `s` with the white space before index `i` and after `r`
      removed. */
  predicate TrimmedAt(r: string, s: string, i: int) {
    && OccursAt(r, s, i)
    && Blank(s, 0, i)
    && Blank(s, i + |r|, |s|)
  }

  /** The end of the run of white space that starts at index `k`. */
  function SkipSpaces(s: string, k: nat): (n: nat)
    requires k <= |s|
    ensures k <= n <= |s|
    ensures Blank(s, k, n)
    ensures n < |s| ==> !IsSpace(s[n])
    decreases |s| - k
  {
    if k == |s| || !IsSpace(s[k]) then k else SkipSpaces(s, k + 1)
  }

  /** The start of the run of white space that ends at index `k`, going no
      further back than `lo`. */
  function SkipSpacesBack(s: string, lo: nat, k: nat): (n: nat)
    requires lo <= k <= |s|
    ensures lo <= n <= k
    ensures Blank(s, n, k)
    ensures n > lo ==> !IsSpace(s[n - 1])
    decreases k
  {
    if k == lo || !IsSpace(s[k - 1]) then k else SkipSpacesBack(s, lo, k - 1)
  }

  /** `strings.TrimSpace`: the part of `s` between its leading and its
      trailing white space. */
  function TrimSpace(s: string): string {
    var i := SkipSpaces(s, 0);
    s[i..SkipSpacesBack(s, i, |s|)]
  }

  /** `strings.TrimSpace` cuts a blank string down to nothing and any other
      string down to the part between its leading and trailing white space. */
  lemma TrimSpaceSpec(s: string)
    ensures AllSpace(s) <==> TrimSpace(s) == []
    ensures TrimSpace(s) != [] ==> !IsSpace(TrimSpace(s)[0]) && !IsSpace(TrimSpace(s)[|TrimSpace(s)| - 1])
    ensures exists i :: TrimmedAt(TrimSpace(s), s, i)
  {
    var i := SkipSpaces(s, 0);
    var j := SkipSpacesBack(s, i, |s|);
    if i == |s| {
      assert TrimmedAt([], s, i);
    } else {
      SliceTrimmed(s, i, j);
    }
  }

  /** A slice with white space only before and after it, whose ends are
      visible. */
  lemma SliceTrimmed(s: string, i: nat, j: nat)
    requires i < j <= |s|
    requires Blank(s, 0, i) && Blank(s, j, |s|)
    requires !IsSpace(s[i]) && !IsSpace(s[j - 1])
    ensures TrimmedAt(s[i..j], s, i) && !AllSpace(s)
    ensures !IsSpace(s[i..j][0]) && !IsSpace(s[i..j][j - i - 1])
  {
  }

  // ------------------------------------------------------------------ fields

  /** The longest prefix of `s` that holds no white space. */
  function Word(s: string): (w: string)
    ensures |w| <= |s| && w == s[..|w|] && NoSpace(w)
    ensures |w| == |s| || IsSpace(s[|w|])
  {
    if s == [] || IsSpace(s[0]) then [] else [s[0]] + Word(s[1..])
  }

  /** A non-empty run of non-white-space characters. */
  predicate IsWord(w: string) {
    w != [] && NoSpace(w)
  }

  /** `strings.Fields`: the maximal runs of non-white-space characters. */
  function Fields(s: string): seq<string>
    decreases |s|
  {
    if s == [] then []
    else if IsSpace(s[0]) then Fields(s[1..])
    else
      var w := Word(s);
      [w] + Fields(s[|w|..])
  }

  predicate AllWords(ws: seq<string>) {
    forall k :: 0 <= k < |ws| ==> IsWord(ws[k])
  }

  /** Every field is a word, and there are none exactly when the line is
      blank. */
  lemma {:induction false} FieldsAreWords(s: string)
    ensures AllWords(Fields(s))
    ensures Fields(s) == [] <==> AllSpace(s)
    decreases |s|
  {
    if s == [] {
    } else if IsSpace(s[0]) {
      FieldsAreWords(s[1..]);
      if AllSpace(s[1..]) {
        forall k | 0 <= k < |s| ensures IsSpace(s[k]) {
          if k > 0 { assert s[k] == s[1..][k - 1]; }
        }
      }
    } else {
      var w := Word(s);
      FieldsAreWords(s[|w|..]);
    }
  }

  /** Words joined by single spaces: the inverse of `Fields`. */
  function Unwords(ws: seq<string>): string {
    if ws == [] then []
    else if |ws| == 1 then ws[0]
    else ws[0] + " " + Unwords(ws[1..])
  }

  lemma {:induction false} WordOfPrefix(w: string, x: string)
    requires NoSpace(w)
    requires x == [] || IsSpace(x[0])
    ensures Word(w + x) == w
    decreases |w|
  {
    if w != [] {
      assert (w + x)[1..] == w[1..] + x;
      WordOfPrefix(w[1..], x);
    } else {
      assert w + x == x;
    }
  }

  /** Splitting words that were joined by spaces gives the words back. */
  lemma {:induction false} FieldsUnwords(ws: seq<string>)
    requires AllWords(ws)
    ensures Fields(Unwords(ws)) == ws
    decreases |ws|
  {
    if ws == [] {
    } else if |ws| == 1 {
      var w := ws[0];
      WordOfPrefix(w, []);
      assert w + [] == w;
      assert w[|w|..] == [];
    } else {
      var w := ws[0];
      var rest := Unwords(ws[1..]);
      var s := w + " " + rest;
      assert s[0] == w[0];
      WordOfPrefix(w, " " + rest);
      assert w + (" " + rest) == s;
      assert s[|w|..] == " " + rest;
      assert (" " + rest)[1..] == rest;
      assert Fields(" " + rest) == Fields(rest);
      FieldsUnwords(ws[1..]);
    }
  }

  /** A word on its own is its only field. */
  lemma FieldsOfWord(w: string)
    requires IsWord(w)
    ensures Fields(w) == [w]
  {
    WordOfPrefix(w, []);
    assert w + [] == w;
    assert w[|w|..] == [];
  }

  /** A word is unaffected by what follows the first white space after
      it. */
  lemma WordBeforeSpace(a: string, c: char, b: string)
    requires IsSpace(c)
    ensures Word(a + [c] + b) == Word(a)
  {
    var w := Word(a);
    var rest := a[|w|..] + [c] + b;
    assert a + [c] + b == w + rest;
    assert rest[0] == if |w| == |a| then c else a[|w|];
    WordOfPrefix(w, rest);
  }

  /** Any white space character separates fields: the fields of the text
      on either side of it are kept apart, in order, and none is lost. */
  lemma {:induction false} FieldsSplitAtSpace(a: string, c: char, b: string)
    requires IsSpace(c)
    ensures Fields(a + [c] + b) == Fields(a) + Fields(b)
    decreases |a|
  {
    var s := a + [c] + b;
    if a == [] {
      assert s[0] == c;
      assert s[1..] == b;
    } else if IsSpace(a[0]) {
      assert s[0] == a[0];
      assert s[1..] == a[1..] + [c] + b;
      FieldsSplitAtSpace(a[1..], c, b);
    } else {
      var w := Word(a);
      WordBeforeSpace(a, c, b);
      assert s[0] == a[0];
      assert s[|w|..] == a[|w|..] + [c] + b;
      FieldsSplitAtSpace(a[|w|..], c, b);
    }
  }

  // ---------------------------------------------------- normalising a name

  /** `strings.ReplaceAll(s, " ", "")`: only the space character goes; every
      other character, other white space included, is kept in order. */
  function RemoveSpaces(s: string): (r: string)
    ensures ' ' !in r
    ensures forall c :: c != ' ' ==> multiset(r)[c] == multiset(s)[c]
  {
    if s == [] then []
    else
      assert s == [s[0]] + s[1..];
      (if s[0] == ' ' then [] else [s[0]]) + RemoveSpaces(s[1..])
  }

  /** Space removal works character by character, keeping order. */
  lemma {:induction false} RemoveSpacesAppend(a: string, b: string)
    ensures RemoveSpaces(a + b) == RemoveSpaces(a) + RemoveSpaces(b)
    decreases |a|
  {
    if a == [] {
      assert a + b == b;
    } else {
      var h := if a[0] == ' ' then [] else [a[0]];
      assert (a + b)[0] == a[0];
      assert (a + b)[1..] == a[1..] + b;
      assert RemoveSpaces(a + b) == h + RemoveSpaces(a[1..] + b);
      RemoveSpacesAppend(a[1..], b);
      assert RemoveSpaces(a) == h + RemoveSpaces(a[1..]);
    }
  }

  /** On one character, space removal drops exactly the space. */
  lemma RemoveSpacesChar(c: char)
    ensures RemoveSpaces([c]) == if c == ' ' then [] else [c]
  {
    assert [c][1..] == [];
  }

  function LowerChar(c: char): char {
    if 'A' <= c <= 'Z' then (c as int + 32) as char else c
  }

  /** `strings.ToLower` on ASCII letters; every other character is kept. */
  function Lower(s: string): string {
    seq(|s|, i requires 0 <= i < |s| => LowerChar(s[i]))
  }

  /** The normal form the tool compares names in (gopher-tidy.go:71, 87):
      spaces removed, then lower-cased. */
  function Normalize(s: string): string {
    Lower(RemoveSpaces(s))
  }

  /** `strings.Contains`. */
  function Contains(hay: string, needle: string): bool
    decreases |hay|
  {
    if |needle| > |hay| then false
    else hay[..|needle|] == needle || Contains(hay[1..], needle)
  }

  /** `strings.EqualFold`, with ASCII case folding. */
  predicate EqualFold(a: string, b: string) {
    Lower(a) == Lower(b)
  }

  // ------------------------------------------------------------------ lemmas

  /** `Contains` is the substring relation. */
  lemma {:induction false} ContainsIff(hay: string, needle: string)
    ensures Contains(hay, needle) <==> exists i :: OccursAt(needle, hay, i)
    decreases |hay|
  {
    if |needle| > |hay| {
    } else if hay[..|needle|] == needle {
      assert OccursAt(needle, hay, 0);
    } else {
      ContainsIff(hay[1..], needle);
      if i :| OccursAt(needle, hay[1..], i) {
        assert hay[1..][i..i + |needle|] == hay[i + 1..i + 1 + |needle|];
        assert OccursAt(needle, hay, i + 1);
      }
      if i :| OccursAt(needle, hay, i) {
        assert i != 0;
        assert hay[1..][i - 1..i - 1 + |needle|] == hay[i..i + |needle|];
        assert OccursAt(needle, hay[1..], i - 1);
      }
    }
  }

  /** A trimmed, non-empty name never normalises to the empty keyword: its
      first character is not white space, so it survives space removal. */
  lemma NonBlankKeyword(name: string)
    requires TrimSpace(name) != []
    ensures Normalize(TrimSpace(name)) != []
  {
    var t := TrimSpace(name);
    TrimSpaceSpec(name);
    assert t[0] != ' ';
    assert t[0] in multiset(t);
    assert t[0] in multiset(RemoveSpaces(t));
  }

  /** Lower-casing neither creates nor removes white space. */
  lemma LowerCharKeepsSpace(c: char)
    ensures IsSpace(LowerChar(c)) <==> IsSpace(c)
  {
  }

  lemma {:induction false} LowerSkipSpaces(s: string, k: nat)
    requires k <= |s|
    ensures SkipSpaces(Lower(s), k) == SkipSpaces(s, k)
    decreases |s| - k
  {
    if k < |s| {
      LowerCharKeepsSpace(s[k]);
      LowerSkipSpaces(s, k + 1);
    }
  }

  lemma {:induction false} LowerSkipSpacesBack(s: string, lo: nat, k: nat)
    requires lo <= k <= |s|
    ensures SkipSpacesBack(Lower(s), lo, k) == SkipSpacesBack(s, lo, k)
    decreases k
  {
    if k > lo {
      LowerCharKeepsSpace(s[k - 1]);
      LowerSkipSpacesBack(s, lo, k - 1);
    }
  }

  /** Trimming and lower-casing commute. */
  lemma LowerTrimSpace(s: string)
    ensures TrimSpace(Lower(s)) == Lower(TrimSpace(s))
  {
    var i := SkipSpaces(s, 0);
    LowerSkipSpaces(s, 0);
    LowerSkipSpacesBack(s, i, |s|);
    LowerSlice(s, i, SkipSpacesBack(s, i, |s|));
  }

  lemma LowerSlice(s: string, i: nat, j: nat)
    requires i <= j <= |s|
    ensures Lower(s[i..j]) == Lower(s)[i..j]
  {
  }

  function UpperChar(c: char): char {
    if 'a' <= c <= 'z' then (c as int - 32) as char else c
  }

  /** `s` spells the lower-case word `w`, each letter in either case. */
  predicate SpelledAnyCase(s: string, w: string) {
    |s| == |w| && forall i :: 0 <= i < |w| ==> s[i] == w[i] || s[i] == UpperChar(w[i])
  }

  /** `EqualFold` against a lower-case word accepts exactly its spellings in
      mixed case. */
  lemma EqualFoldWord(s: string, w: string)
    requires forall i :: 0 <= i < |w| ==> 'a' <= w[i] <= 'z'
    ensures EqualFold(s, w) <==> SpelledAnyCase(s, w)
  {
    assert Lower(w) == w;
    if SpelledAnyCase(s, w) {
      assert Lower(s) == w;
    }
  }

  /** The strings that lower-case to a single letter: that letter in either
      case. */
  lemma LowerIsLetter(t: string, c: char)
    requires 'a' <= c <= 'z'
    ensures Lower(t) == [c] <==> t == [c] || t == [UpperChar(c)]
  {
    if Lower(t) == [c] {
      assert |t| == |Lower(t)| == 1;
      assert Lower(t)[0] == LowerChar(t[0]) == c;
      assert t == [t[0]];
    }
    if t == [UpperChar(c)] {
      assert Lower(t)[0] == LowerChar(UpperChar(c));
    }
  }

  /** The trimmed form of a string that starts and ends with visible
      characters is the string itself. */
  lemma TrimSpaceNoop(s: string)
    requires s != [] && !IsSpace(s[0]) && !IsSpace(s[|s| - 1])
    ensures TrimSpace(s) == s
  {
    assert s[0..|s|] == s;
  }
}
