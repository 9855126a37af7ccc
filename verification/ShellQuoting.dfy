/**
 Quoting for the POSIX shell. The tokenizer follows sections 2.2.2 (single quotes) and 2.2.3
 (double quotes) of the POSIX Shell Command Language, and refuses every character that could
 start an expansion, an operator or an escape.
 */
module ShellQuoting {
  import opened Base

  datatype Mode = Plain | Single | Double

  predicate Literal(c: char)
  {
    'a' <= c <= 'z' || 'A' <= c <= 'Z' || '0' <= c <= '9' || c in {'_', '-', '.', '/'}
  }

  function Extend(word: Option<string>, more: string): Option<string>
  {
    Some(UnwrapOr(word, "") + more)
  }

  function Finish(done: seq<string>, word: Option<string>): seq<string>
  {
    if word.Some? then done + [word.value] else done
  }

  /** The words of a command line, or `None` if it is not made of literal words. */
  function Tokenize(s: string, mode: Mode, word: Option<string>, done: seq<string>): Option<seq<string>>
  {
    if s == "" then (if mode.Plain? then Some(Finish(done, word)) else None)
    else
      var c, rest := s[0], s[1..];
      match mode
      case Plain =>
        if c == '\'' then Tokenize(rest, Single, Extend(word, ""), done)
        else if c == '"' then Tokenize(rest, Double, Extend(word, ""), done)
        else if c == ' ' then Tokenize(rest, Plain, None, Finish(done, word))
        else if Literal(c) then Tokenize(rest, Plain, Extend(word, [c]), done)
        else None
      case Single =>
        if c == '\'' then Tokenize(rest, Plain, word, done)
        else Tokenize(rest, Single, Extend(word, [c]), done)
      case Double =>
        if c == '"' then Tokenize(rest, Plain, word, done)
        else if c in {'$', '`', '\\'} then None
        else Tokenize(rest, Double, Extend(word, [c]), done)
  }

  const QUOTED_QUOTE: string := "'\"'\"'"

  function ReplaceQuotes(s: string): string
  {
    if s == "" then "" else (if s[0] == '\'' then QUOTED_QUOTE else [s[0]]) + ReplaceQuotes(s[1..])
  }

  /** `shell_escape`. */
  function ShellEscape(s: string): string
  {
    "'" + ReplaceQuotes(s) + "'"
  }

  /** Closing the quotes, a double-quoted quote, and opening them again adds one quote to the word. */
  lemma QuoteStep(word: string, rest: string, done: seq<string>)
    ensures Tokenize(QUOTED_QUOTE + rest, Single, Some(word), done) == Tokenize(rest, Single, Some(word + "'"), done)
  {
    var s := QUOTED_QUOTE + rest;
    var w := Some(word);
    assert Extend(w, "") == w by { assert word + "" == word; }
    assert s[1..] == "\"'\"'" + rest && s[1..][1..] == "'\"'" + rest;
    assert s[1..][1..][1..] == "\"'" + rest && s[1..][1..][1..][1..] == "'" + rest
        && s[1..][1..][1..][1..][1..] == rest;
    var w' := Some(word + "'");
    assert Extend(w', "") == w' by { assert word + "'" + "" == word + "'"; }
    calc {
      Tokenize(s, Single, w, done);
      Tokenize(s[1..], Plain, w, done);
      Tokenize(s[1..][1..], Double, w, done);
      Tokenize(s[1..][1..][1..], Double, w', done);
      Tokenize(s[1..][1..][1..][1..], Plain, w', done);
      Tokenize(rest, Single, w', done);
    }
  }

  lemma {:induction false} InsideQuotes(s: string, word: string, rest: string, done: seq<string>)
    ensures Tokenize(ReplaceQuotes(s) + ("'" + rest), Single, Some(word), done)
            == Tokenize(rest, Plain, Some(word + s), done)
  {
    var tail := "'" + rest;
    if s == "" {
      assert ReplaceQuotes(s) + tail == tail && tail[1..] == rest && word + s == word;
    } else {
      var more := ReplaceQuotes(s[1..]) + tail;
      assert word + [s[0]] + s[1..] == word + s;
      InsideQuotes(s[1..], word + [s[0]], rest, done);
      if s[0] == '\'' {
        assert ReplaceQuotes(s) + tail == QUOTED_QUOTE + more;
        QuoteStep(word, more, done);
      } else {
        assert ReplaceQuotes(s) + tail == [s[0]] + more;
        assert ([s[0]] + more)[1..] == more;
      }
    }
  }

  /** The escaped form of any string reads as one word, equal to the string. */
  lemma EscapedIsOneWord(s: string, rest: string, done: seq<string>)
    ensures Tokenize(ShellEscape(s) + rest, Plain, None, done) == Tokenize(rest, Plain, Some(s), done)
  {
    var line := ShellEscape(s) + rest;
    assert line == "'" + (ReplaceQuotes(s) + ("'" + rest));
    assert line[1..] == ReplaceQuotes(s) + ("'" + rest);
    InsideQuotes(s, "", rest, done);
    assert "" + s == s && "" + "" == "";
  }

  lemma {:induction false} LiteralWord(w: string, sofar: string, rest: string, done: seq<string>)
    requires forall i :: 0 <= i < |w| ==> Literal(w[i])
    ensures Tokenize(w + (" " + rest), Plain, Some(sofar), done) == Tokenize(rest, Plain, None, done + [sofar + w])
  {
    var tail := " " + rest;
    if w == "" {
      assert w + tail == tail && tail[1..] == rest && sofar + w == sofar;
    } else {
      assert (w + tail)[1..] == w[1..] + tail && sofar + [w[0]] + w[1..] == sofar + w;
      LiteralWord(w[1..], sofar + [w[0]], rest, done);
    }
  }

  lemma FirstLiteralWord(w: string, rest: string, done: seq<string>)
    requires w != "" && forall i :: 0 <= i < |w| ==> Literal(w[i])
    ensures Tokenize(w + (" " + rest), Plain, None, done) == Tokenize(rest, Plain, None, done + [w])
  {
    assert (w + (" " + rest))[1..] == w[1..] + (" " + rest);
    LiteralWord(w[1..], [w[0]], rest, done);
    assert "" + [w[0]] == [w[0]] && [w[0]] + w[1..] == w;
  }

  lemma EscapedThenSpace(s: string, rest: string, done: seq<string>)
    ensures Tokenize(ShellEscape(s) + (" " + rest), Plain, None, done) == Tokenize(rest, Plain, None, done + [s])
  {
    EscapedIsOneWord(s, " " + rest, done);
    assert (" " + rest)[1..] == rest;
  }

  /** The command line of `backup`. */
  function BackupCommand(archive: string, configDir: string, statePath: string): string
  {
    var paths := ShellEscape(archive) + (" " + (ShellEscape(configDir) + (" " + ShellEscape(statePath))));
    "tar" + (" " + ("-czf" + (" " + paths)))
  }

  /** Whatever the three paths contain, the shell sees five words: the command, its flags and the paths. */
  lemma BackupCommandSplits(archive: string, configDir: string, statePath: string)
    ensures Tokenize(BackupCommand(archive, configDir, statePath), Plain, None, [])
            == Some(["tar", "-czf", archive, configDir, statePath])
  {
    hide Tokenize, ShellEscape;
    var r3 := ShellEscape(statePath);
    var r2 := ShellEscape(configDir) + (" " + r3);
    var r1 := ShellEscape(archive) + (" " + r2);
    FirstLiteralWord("tar", "-czf" + (" " + r1), []);
    assert [] + ["tar"] == ["tar"];
    FirstLiteralWord("-czf", r1, ["tar"]);
    EscapedThenSpace(archive, r2, ["tar"] + ["-czf"]);
    EscapedThenSpace(configDir, r3, ["tar"] + ["-czf"] + [archive]);
    EscapedIsOneWord(statePath, "", ["tar"] + ["-czf"] + [archive] + [configDir]);
    assert r3 + "" == r3;
    EndOfLine(statePath, ["tar"] + ["-czf"] + [archive] + [configDir]);
    assert ["tar"] + ["-czf"] + [archive] + [configDir] + [statePath] == ["tar", "-czf", archive, configDir, statePath];
  }

  lemma EndOfLine(word: string, done: seq<string>)
    ensures Tokenize("", Plain, Some(word), done) == Some(done + [word])
  {
  }
}
