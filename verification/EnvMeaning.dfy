/** What an env file means, line by line and variable by variable, and what cleaning it changes. */
module EnvMeaning {
  import opened Base
  import opened EnvFile
  import opened Text

  // ----- values -----

  predicate Quote(c: char)
  {
    c == '"' || c == '\''
  }

  lemma QuoteIsNoSpace(c: char)
    requires Quote(c)
    ensures !JsSpace(c)
  {
  }

  /** A value in matching quotes is what stands between them, spaces and quotes included. */
  lemma QuotedValue(a: string, q: char, v: string, b: string)
    requires AllSpace(JsSpace, a) && AllSpace(JsSpace, b) && Quote(q)
    ensures ParseEnvValue(a + ([q] + v + [q]) + b) == v
  {
    var m := [q] + v + [q];
    QuoteIsNoSpace(q);
    hide JsSpace, Trim;
    TrimUnique(JsSpace, a, m, b);
    assert m[1..|m| - 1] == v;
  }

  /** Any other value is itself without the spaces around it; a lone quote and a blank text are empty. */
  lemma PlainValue(a: string, m: string, b: string)
    requires AllSpace(JsSpace, a) && AllSpace(JsSpace, b) && (m == "" || (!JsSpace(m[0]) && !JsSpace(m[|m| - 1])))
    requires |m| > 1 ==> !(Quote(m[0]) && m[0] == m[|m| - 1])
    ensures ParseEnvValue(a + m + b) == if |m| == 1 && Quote(m[0]) then "" else m
  {
    hide JsSpace, Trim;
    TrimUnique(JsSpace, a, m, b);
  }

  // ----- lines -----

  /** A comment, a line without an equals sign and one that begins with it load nothing. */
  lemma IgnoredLine(env: Env, a: string, m: string, b: string)
    requires AllSpace(JsSpace, a) && AllSpace(JsSpace, b) && (m == "" || (!JsSpace(m[0]) && !JsSpace(m[|m| - 1])))
    requires m == "" || m[0] == '#' || m[0] == '=' || '=' !in m
    ensures LoadLine(env, a + m + b) == env
  {
    hide JsSpace, Trim;
    TrimUnique(JsSpace, a, m, b);
    if m != "" && m[0] == '=' {
      FirstIndex(m, '=', 0);
    }
  }

  /** A line assigns the text before its first equals sign, without spaces, the text after it. */
  lemma AssignmentExact(a: string, key: string, s: string, value: string, b: string)
    requires AllSpace(JsSpace, a) && AllSpace(JsSpace, s) && AllSpace(JsSpace, b)
    requires key != "" && !JsSpace(key[0]) && !JsSpace(key[|key| - 1]) && '=' !in key && key[0] != '#'
    requires value == "" || !JsSpace(value[|value| - 1])
    ensures Assignment(a + (key + s + "=" + value) + b) == Some((key, value))
  {
    EqualsIsText(s);
    hide JsSpace, Trim, AllSpace, Parts;
    SpacedParts(key, s, value);
    var m := key + s + "=" + value;
    assert m[0] == key[0] && m[|m| - 1] == if value == "" then '=' else value[|value| - 1];
    TrimUnique(JsSpace, a, m, b);
  }

  lemma SpacedParts(key: string, s: string, value: string)
    requires AllSpace(JsSpace, s) && '=' !in key && '=' !in s
    requires key != "" && !JsSpace(key[0]) && !JsSpace(key[|key| - 1]) && key[0] != '#'
    ensures Parts(key + s + "=" + value) == Some((key, value))
  {
    hide JsSpace, Trim;
    var m, left := key + s + "=" + value, key + s;
    assert '=' !in left;
    forall j | 0 <= j < |left| ensures m[j] != '=' { assert m[j] == left[j] && left[j] in left; }
    FirstIndex(m, '=', |left|);
    assert m[..|left|] == left && m[|left| + 1..] == value;
    assert "" + key + s == left;
    TrimUnique(JsSpace, "", key, s);
  }

  lemma EqualsIsText(s: string)
    requires AllSpace(JsSpace, s)
    ensures !JsSpace('=') && '=' !in s
  {
  }

  /** Line `n` is the first that assigns `key`. */
  predicate FirstAssigns(lines: seq<string>, key: string, n: nat)
  {
    && n < |lines| && Assigns(lines[n], key)
    && forall i :: 0 <= i < n ==> !Assigns(lines[i], key)
  }

  predicate Assigns(line: string, key: string)
  {
    key != "" && Assignment(line).Some? && Assignment(line).value.0 == key
  }

  function ValueIn(line: string): string
  {
    if Assignment(line).Some? then ParseEnvValue(Assignment(line).value.1) else ""
  }

  lemma LoadLineAt(env: Env, line: string, key: string)
    ensures key in env ==> key in LoadLine(env, line) && LoadLine(env, line)[key] == env[key]
    ensures key !in env && Assigns(line, key) ==>
            key in LoadLine(env, line) && LoadLine(env, line)[key] == ValueIn(line)
    ensures key !in env && !Assigns(line, key) ==> key !in LoadLine(env, line)
  {
    hide Assignment, ParseEnvValue;
  }

  lemma {:induction false} SetStays(base: Env, lines: seq<string>, key: string)
    requires key in base
    ensures key in LoadLines(base, lines) && LoadLines(base, lines)[key] == base[key]
  {
    if lines != [] {
      hide LoadLine, Assigns, ValueIn;
      SetStays(base, lines[..|lines| - 1], key);
      LoadLineAt(LoadLines(base, lines[..|lines| - 1]), lines[|lines| - 1], key);
    }
  }

  lemma {:induction false} NeverAssigned(base: Env, lines: seq<string>, key: string)
    requires key !in base && forall i :: 0 <= i < |lines| ==> !Assigns(lines[i], key)
    ensures key !in LoadLines(base, lines)
  {
    if lines != [] {
      hide LoadLine, Assigns, ValueIn;
      NeverAssigned(base, lines[..|lines| - 1], key);
      LoadLineAt(LoadLines(base, lines[..|lines| - 1]), lines[|lines| - 1], key);
    }
  }

  lemma {:induction false} FirstAssigned(base: Env, lines: seq<string>, key: string, n: nat)
    requires key !in base && FirstAssigns(lines, key, n)
    ensures key in LoadLines(base, lines) && LoadLines(base, lines)[key] == ValueIn(lines[n])
  {
    hide LoadLine, Assigns, ValueIn;
    var init, last := lines[..|lines| - 1], lines[|lines| - 1];
    assert forall i :: 0 <= i < |init| ==> init[i] == lines[i];
    LoadLineAt(LoadLines(base, init), last, key);
    if n == |lines| - 1 {
      NeverAssigned(base, init, key);
    } else {
      assert FirstAssigns(init, key, n);
      FirstAssigned(base, init, key, n);
    }
  }

  /**
   Loading a file: a variable that is already set keeps its value, any other gets the value of the
   first line that assigns it, and is not set if there is none.
   */
  lemma FirstWins(base: Env, text: string, key: string)
    ensures var lines, env := Split(text), Load(base, text);
            && (key in base ==> key in env && env[key] == base[key])
            && (key !in base ==> (key in env <==> exists i: nat :: i < |lines| && Assigns(lines[i], key)))
            && (key !in base ==>
                  forall n: nat :: FirstAssigns(lines, key, n) ==> key in env && env[key] == ValueIn(lines[n]))
  {
    hide Split, Assigns, ValueIn, LoadLines;
    var lines := Split(text);
    if key in base {
      SetStays(base, lines, key);
    } else if i: nat :| i < |lines| && Assigns(lines[i], key) {
      var m := FindAssigns(lines, key, i);
      FirstAssigned(base, lines, key, m);
      assert key in Load(base, text) && Assigns(Split(text)[i], key);
      forall n: nat | FirstAssigns(lines, key, n)
          ensures key in Load(base, text) && Load(base, text)[key] == ValueIn(lines[n])
      {
        FirstAssigned(base, lines, key, n);
      }
    } else {
      NeverAssigned(base, lines, key);
      NoFirst(lines, key);
    }
  }

  lemma NoFirst(lines: seq<string>, key: string)
    requires forall i: nat :: i < |lines| ==> !Assigns(lines[i], key)
    ensures forall n: nat :: !FirstAssigns(lines, key, n)
  {
    hide Assigns;
  }

  lemma {:induction false} FindAssigns(lines: seq<string>, key: string, i: nat) returns (n: nat)
    requires i < |lines| && Assigns(lines[i], key)
    ensures n <= i && FirstAssigns(lines, key, n)
  {
    hide Assigns;
    if j: nat :| j < i && Assigns(lines[j], key) {
      n := FindAssigns(lines, key, j);
    } else {
      n := i;
    }
  }

  // ----- breaks -----

  /** A line feed ends a line, and so does a carriage return with it. */
  lemma {:induction false} SplitAtBreak(line: string, rest: string)
    requires '\n' !in line
    ensures Split(line + "\r\n" + rest) == [line] + Split(rest)
    ensures line == "" || line[|line| - 1] != '\r' ==> Split(line + "\n" + rest) == [line] + Split(rest)
  {
    if line == "" {
      assert ("" + "\r\n" + rest)[2..] == rest && ("" + "\n" + rest)[1..] == rest;
    } else {
      SplitAtBreak(line[1..], rest);
      var crlf, lf := line + "\r\n" + rest, line + "\n" + rest;
      assert crlf[1..] == line[1..] + "\r\n" + rest && lf[1..] == line[1..] + "\n" + rest;
      assert crlf[1] != '\n' && (|line| > 1 ==> lf[1] == line[1] != '\n') && (|line| == 1 ==> lf[1] == '\n');
      assert [line[0]] + line[1..] == line;
      assert ([line[1..]] + Split(rest))[1..] == Split(rest);
    }
  }

  // ----- what cleaning leaves alone -----

  predicate HasCrLf(text: string)
  {
    exists i :: 0 <= i < |text| - 1 && text[i] == '\r' && text[i + 1] == '\n'
  }

  lemma JoinFirst(first: string, rest: seq<string>)
    requires rest != []
    ensures Join([first] + rest) == first + "\n" + Join(rest)
  {
    assert ([first] + rest)[1..] == rest;
  }

  lemma JoinPrefix(c: char, lines: seq<string>)
    requires lines != []
    ensures Join([[c] + lines[0]] + lines[1..]) == [c] + Join(lines)
  {
    var longer := [[c] + lines[0]] + lines[1..];
    if |lines| > 1 {
      assert longer[1..] == lines[1..];
      assert ([c] + lines[0]) + "\n" + Join(lines[1..]) == [c] + (lines[0] + "\n" + Join(lines[1..]));
    }
  }

  lemma CrLfTail(text: string)
    requires text != ""
    ensures HasCrLf(text) <==> (|text| >= 2 && text[0] == '\r' && text[1] == '\n') || HasCrLf(text[1..])
  {
    var rest := text[1..];
    if i :| 0 <= i < |rest| - 1 && rest[i] == '\r' && rest[i + 1] == '\n' {
      assert text[i + 1] == '\r' && text[i + 2] == '\n';
    }
    if i :| 0 <= i < |text| - 1 && text[i] == '\r' && text[i + 1] == '\n' {
      assert i > 0 ==> rest[i - 1] == '\r' && rest[i] == '\n';
    }
  }

  /** Joining the lines of a text gives it back exactly if it has no carriage return before a line feed. */
  lemma {:induction false} JoinSplit(text: string)
    ensures |Join(Split(text))| <= |text|
    ensures Join(Split(text)) == text <==> !HasCrLf(text)
  {
    if text != "" {
      hide Join;
      CrLfTail(text);
      if |text| >= 2 && text[0] == '\r' && text[1] == '\n' {
        JoinSplit(text[2..]);
        JoinFirst("", Split(text[2..]));
      } else if text[0] == '\n' {
        JoinSplit(text[1..]);
        JoinFirst("", Split(text[1..]));
        assert text == "" + "\n" + text[1..];
        assert ("" + "\n" + Join(Split(text[1..])))[1..] == Join(Split(text[1..]));
      } else {
        JoinSplit(text[1..]);
        JoinPrefix(text[0], Split(text[1..]));
        assert text == [text[0]] + text[1..];
        assert ([text[0]] + Join(Split(text[1..])))[1..] == Join(Split(text[1..]));
      }
    } else {
      assert Split("") == [""] && Join([""]) == "";
    }
  }

  lemma JoinOne(x: string)
    ensures Join([x]) == x
  {
  }

  lemma {:induction false} JoinLast(lines: seq<string>, x: string)
    ensures Join(lines + [x]) == if lines == [] then x else Join(lines) + "\n" + x
  {
    hide Join;
    JoinOne(x);
    if lines == [] {
      assert lines + [x] == [x];
    } else {
      var first, rest := lines[0], lines[1..];
      assert lines == [first] + rest && lines + [x] == [first] + (rest + [x]);
      JoinFirst(first, rest + [x]);
      JoinLast(rest, x);
      if rest == [] {
        assert lines == [first];
        JoinOne(first);
      } else {
        JoinFirst(first, rest);
        assert first + "\n" + (Join(rest) + "\n" + x) == (first + "\n" + Join(rest)) + "\n" + x;
      }
    }
  }

  lemma SecretIsText(line: string)
    requires AssignsSecret(line)
    ensures line != ""
  {
    assert TrimStart(JsSpace, "") == "" && Trim(JsSpace, "") == "";
  }

  lemma {:induction false} KeptAll(lines: seq<string>)
    requires NoSecrets(lines)
    ensures Kept(lines) == lines
  {
    hide AssignsSecret;
    if lines != [] {
      KeptAll(lines[..|lines| - 1]);
      assert lines == lines[..|lines| - 1] + [lines[|lines| - 1]];
    }
  }

  lemma {:induction false} KeptShorter(lines: seq<string>)
    ensures |Join(Kept(lines))| + (if NoSecrets(lines) then 0 else 1) <= |Join(lines)|
  {
    hide AssignsSecret, Join;
    EmptyJoin();
    if lines != [] {
      var init, last := lines[..|lines| - 1], lines[|lines| - 1];
      KeptShorter(init);
      assert lines == init + [last];
      JoinLast(init, last);
      if AssignsSecret(last) {
        SecretIsText(last);
        assert Kept(lines) == Kept(init) + [] == Kept(init);
      } else {
        JoinLast(Kept(init), last);
        assert Kept(lines) == Kept(init) + [last];
        assert NoSecrets(init) ==> NoSecrets(lines);
      }
    }
  }

  lemma EmptyJoin()
    ensures Join([]) == ""
  {
  }

  /** Cleaning writes nothing exactly if no line assigns a secret and no line ends with a carriage return as well. */
  lemma CleanedUnchangedIff(text: string)
    ensures Cleaned(text) == text <==> NoSecrets(Split(text)) && !HasCrLf(text)
  {
    hide Split, Join, Kept, NoSecrets, HasCrLf;
    if NoSecrets(Split(text)) {
      KeptAll(Split(text));
    }
    KeptShorter(Split(text));
    JoinSplit(text);
  }
}
