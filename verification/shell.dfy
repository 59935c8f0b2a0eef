/** The remedy command the tool prints for a path it may not delete
    (gopher-tidy.go:174), and how a POSIX shell reads the path back out of
    it.

    The tool pastes the path between double quotes as it is. Inside double
    quotes a shell still gives `"`, `\`, `$` and the backquote their special
    meaning, so a path holding one of them is not what the command removes.
    The command the rest of the model uses escapes those four characters;
    the command as written is kept beside it with the input that breaks it. */
module Shell {
  import opened Common

  /** The characters that keep a special meaning inside double quotes
      (section 2.2.3 of the POSIX Shell Command Language). */
  predicate Special(c: char) {
    c == '"' || c == '\\' || c == '$' || c == '`'
  }

  /** No character of `p` is special inside double quotes. */
  predicate Plain(p: string) {
    forall i :: 0 <= i < |p| ==> !Special(p[i])
  }

  function Prepend(c: char, r: Option<string>): Option<string> {
    match r
    case Some(s) => Some([c] + s)
    case None => None
  }

  /** The literal text of a double-quoted word, read from just after its
      opening quote; the closing quote must end the input. `None` when the
      quote is not closed there, or when an unescaped `$` or backquote may
      start an expansion, so that the text is not taken literally. A
      backslash escapes a special character, joins lines before a newline,
      and is kept before any other character. */
  function UnquoteBody(s: string): (r: Option<string>)
    decreases |s|
  {
    if s == [] then None
    else if s[0] == '"' then (if |s| == 1 then Some([]) else None)
    else if s[0] == '$' || s[0] == '`' then None
    else if s[0] == '\\' then
      if |s| == 1 then None
      else if Special(s[1]) then Prepend(s[1], UnquoteBody(s[2..]))
      else if s[1] == '\n' then UnquoteBody(s[2..])
      else Prepend('\\', UnquoteBody(s[1..]))
    else Prepend(s[0], UnquoteBody(s[1..]))
  }

  /** The words a shell reads from `sudo rm -rf "<arg>"`: the path it
      removes, when the argument is one literal double-quoted word. */
  function RemovedPath(cmd: string): Option<string> {
    var prefix := "sudo rm -rf \"";
    if |cmd| < |prefix| || cmd[..|prefix|] != prefix then None
    else UnquoteBody(cmd[|prefix|..])
  }

  /** Backslash before each special character, everything else as is. */
  function Escape(p: string): (r: string)
    ensures |r| >= |p|
  {
    if p == [] then []
    else (if Special(p[0]) then ['\\', p[0]] else [p[0]]) + Escape(p[1..])
  }

  /** The corrected command for a path the tool may not delete: the path
      escaped for double quotes. */
  function RemedyCommand(path: string): string {
    "sudo rm -rf \"" + Escape(path) + "\""
  }

  /** The command as the tool prints it: the path pasted in unescaped. */
  function AsWrittenRemedy(path: string): string {
    "sudo rm -rf \"" + path + "\""
  }

  // ------------------------------------------------------------------ lemmas

  lemma {:induction false} UnquoteEscape(p: string)
    ensures UnquoteBody(Escape(p) + "\"") == Some(p)
    decreases |p|
  {
    if p == [] {
      assert Escape(p) + "\"" == "\"";
    } else {
      var rest := Escape(p[1..]) + "\"";
      UnquoteEscape(p[1..]);
      if Special(p[0]) {
        assert Escape(p) + "\"" == ['\\', p[0]] + rest;
        assert (['\\', p[0]] + rest)[2..] == rest;
      } else {
        assert Escape(p) + "\"" == [p[0]] + rest;
        assert ([p[0]] + rest)[1..] == rest;
      }
      assert [p[0]] + p[1..] == p;
    }
  }

  /** Read by a POSIX shell, the escaped command removes exactly the path
      it was built for, whatever characters the path holds. */
  lemma RemedyRoundTrip(path: string)
    ensures RemovedPath(RemedyCommand(path)) == Some(path)
  {
    var cmd := RemedyCommand(path);
    assert cmd[..13] == "sudo rm -rf \"";
    assert cmd[13..] == Escape(path) + "\"";
    UnquoteEscape(path);
  }

  /** Distinct paths get distinct commands. */
  lemma RemedyInjective(p: string, q: string)
    requires RemedyCommand(p) == RemedyCommand(q)
    ensures p == q
  {
    RemedyRoundTrip(p);
    RemedyRoundTrip(q);
  }

  lemma {:induction false} EscapePlain(p: string)
    requires Plain(p)
    ensures Escape(p) == p
    decreases |p|
  {
    if p != [] {
      EscapePlain(p[1..]);
    }
  }

  /** For a path without special characters the escaped command is the one
      the tool prints. */
  lemma RemedyAsWrittenWhenPlain(path: string)
    requires Plain(path)
    ensures AsWrittenRemedy(path) == RemedyCommand(path)
  {
    EscapePlain(path);
  }

  lemma {:induction false} PlainPrefixUnquote(a: string, s: string)
    requires Plain(a)
    requires UnquoteBody(s) == None
    ensures UnquoteBody(a + s) == None
    decreases |a|
  {
    if a == [] {
      assert a + s == s;
    } else {
      PlainPrefixUnquote(a[1..], s);
      assert (a + s)[0] == a[0] && !Special(a[0]);
      assert (a + s)[1..] == a[1..] + s;
    }
  }

  /** A character after `$` that makes it start an expansion: a command
      substitution `$(`, a braced parameter `${`, or a parameter name. */
  predicate StartsExpansion(x: char) {
    x == '(' || x == '{' || x == '_' || 'a' <= x <= 'z' || 'A' <= x <= 'Z'
  }

  /** A path whose name holds, after ordinary characters, a double quote,
      a backquote, or a `$` that starts an expansion: the command as the
      tool prints it does not remove that path (for example
      `/Library/Caches/a"b`, or a name with `$(...)` in it, which the shell
      would run). */
  lemma AsWrittenRemedyBreaks(a: string, c: char, b: string)
    requires Plain(a)
    requires c == '"' || c == '`' || (c == '$' && b != [] && StartsExpansion(b[0]))
    ensures RemovedPath(AsWrittenRemedy(a + [c] + b)) == None
  {
    var cmd := AsWrittenRemedy(a + [c] + b);
    var rest := [c] + b + "\"";
    assert cmd[..13] == "sudo rm -rf \"";
    assert cmd[13..] == a + rest;
    assert rest[0] == c;
    PlainPrefixUnquote(a, rest);
  }
}
