/** The desktop's `.env` file: loading it into the process environment and removing the secrets from it. */
module EnvFile {
  import opened Base
  import opened Text

  type Env = map<string, string>

  const SECRET_ENV_KEYS: set<string> :=
    {"SSH_USERNAME", "SSH_PASSWORD", "SSH_PRIVATE_KEY", "SSH_PRIVATE_KEY_PATH", "SSH_PASSPHRASE"}

  // ----- text -----

  /** `split(/\r?\n/)`: a line feed ends a line, together with a carriage return before it. */
  function Split(text: string): (lines: seq<string>)
    ensures lines != [] && forall i :: 0 <= i < |lines| ==> '\n' !in lines[i]
  {
    if text == "" then [""]
    else if |text| >= 2 && text[0] == '\r' && text[1] == '\n' then [""] + Split(text[2..])
    else if text[0] == '\n' then [""] + Split(text[1..])
    else var rest := Split(text[1..]); [[text[0]] + rest[0]] + rest[1..]
  }

  /** `join("\n")`. */
  function Join(lines: seq<string>): string
  {
    if lines == [] then "" else if |lines| == 1 then lines[0] else lines[0] + "\n" + Join(lines[1..])
  }

  function IndexOf(s: string, c: char): (i: int)
    ensures i == -1 <==> c !in s
    ensures i != -1 ==> 0 <= i < |s| && s[i] == c && forall j :: 0 <= j < i ==> s[j] != c
  {
    if s == "" then -1
    else if s[0] == c then 0
    else var i := IndexOf(s[1..], c); if i == -1 then -1 else i + 1
  }

  // ----- one line -----

  function ParseEnvValue(raw: string): string
  {
    var value := Trim(JsSpace, raw);
    if value == "" then ""
    else
      var first, last := value[0], value[|value| - 1];
      if (first == '"' && last == '"') || (first == '\'' && last == '\'') then
        (if |value| == 1 then "" else value[1..|value| - 1])
      else value
  }

  /** The key and the value text a line assigns, if it assigns any. */
  function Assignment(raw: string): Option<(string, string)>
  {
    Parts(Trim(JsSpace, raw))
  }

  function Parts(line: string): Option<(string, string)>
  {
    if line == "" || line[0] == '#' then None
    else
      var sep := IndexOf(line, '=');
      if sep <= 0 then None else Some((Trim(JsSpace, line[..sep]), line[sep + 1..]))
  }

  // ----- loading -----

  /** The first assignment of a key wins, and never over what is already set. */
  function LoadLine(env: Env, raw: string): Env
  {
    var a := Assignment(raw);
    if a.None? || a.value.0 == "" || a.value.0 in env then env else env[a.value.0 := ParseEnvValue(a.value.1)]
  }

  function LoadLines(env: Env, lines: seq<string>): Env
  {
    if lines == [] then env else LoadLine(LoadLines(env, lines[..|lines| - 1]), lines[|lines| - 1])
  }

  function Load(env: Env, text: string): Env
  {
    LoadLines(env, Split(text))
  }

  /** The loop of `loadDesktopEnv`. */
  method LoadDesktopEnv(env: Env, text: string) returns (loaded: Env, applied: nat)
    ensures loaded == Load(env, text)
    ensures applied == |loaded| - |env|
  {
    hide Assignment, ParseEnvValue, Split;
    loaded, applied := env, 0;
    var lines := Split(text);
    for i := 0 to |lines|
      invariant loaded == LoadLines(env, lines[..i])
      invariant applied == |loaded| - |env|
    {
      assert lines[..i + 1][..i] == lines[..i];
      var a := Assignment(lines[i]);
      if a.None? || a.value.0 == "" || a.value.0 in loaded {
        continue;
      }
      OneMoreKey(loaded, a.value.0, ParseEnvValue(a.value.1));
      loaded := loaded[a.value.0 := ParseEnvValue(a.value.1)];
      applied := applied + 1;
    }
    assert lines[..|lines|] == lines;
  }

  lemma OneMoreKey(env: Env, key: string, value: string)
    requires key !in env
    ensures |env[key := value]| == |env| + 1
  {
    assert env[key := value].Keys == env.Keys + {key};
    assert |env| == |env.Keys| && |env[key := value]| == |env[key := value].Keys|;
  }

  // ----- cleaning -----

  predicate AssignsSecret(raw: string)
  {
    var a := Assignment(raw);
    a.Some? && a.value.0 in SECRET_ENV_KEYS
  }

  function Kept(lines: seq<string>): seq<string>
  {
    if lines == [] then []
    else Kept(lines[..|lines| - 1]) + (if AssignsSecret(lines[|lines| - 1]) then [] else [lines[|lines| - 1]])
  }

  /** The text `cleanupEnvFile` writes. */
  function Cleaned(text: string): string
  {
    Join(Kept(Split(text)))
  }

  // ----- joined lines split again -----

  /** Equal, up to one trailing carriage return that the line break swallows. */
  predicate SameLine(a: string, b: string)
  {
    a == b || a + "\r" == b
  }

  predicate SameLines(a: seq<string>, b: seq<string>)
  {
    |a| == |b| && forall i :: 0 <= i < |a| ==> SameLine(a[i], b[i])
  }

  lemma {:induction false} SplitLine(line: string, rest: string)
    requires '\n' !in line
    ensures var s := Split(line + "\n" + rest);
            && s[1..] == Split(rest)
            && SameLine(s[0], line)
  {
    var text := line + "\n" + rest;
    if line == "" {
      assert text[1..] == rest;
    } else if line == "\r" {
      assert text[2..] == rest;
      assert "" + "\r" == line;
    } else {
      assert text[1..] == line[1..] + "\n" + rest;
      SplitLine(line[1..], rest);
      assert !(text[0] == '\r' && text[1] == '\n');
      assert line == [line[0]] + line[1..];
      var t := Split(text[1..]);
      if t[0] != line[1..] {
        assert [line[0]] + t[0] + "\r" == line;
      }
    }
  }

  lemma {:induction false} SplitNoBreak(line: string)
    requires '\n' !in line
    ensures Split(line) == [line]
  {
    if line != "" {
      SplitNoBreak(line[1..]);
      assert [line[0]] + line[1..] == line;
    }
  }

  lemma {:induction false} SplitJoin(lines: seq<string>)
    requires lines != [] && forall i :: 0 <= i < |lines| ==> '\n' !in lines[i]
    ensures SameLines(Split(Join(lines)), lines)
  {
    if |lines| == 1 {
      SplitNoBreak(lines[0]);
    } else {
      hide SameLine;
      SplitJoin(lines[1..]);
      SplitLine(lines[0], Join(lines[1..]));
      var s := Split(Join(lines));
      forall i | 0 <= i < |s| ensures SameLine(s[i], lines[i])
      {
        if i > 0 { assert s[i] == s[1..][i - 1] && lines[i] == lines[1..][i - 1]; }
      }
    }
  }

  lemma {:induction false} TrimStartCr(s: string)
    ensures TrimStart(JsSpace, s + "\r") == if TrimStart(JsSpace, s) == "" then "" else TrimStart(JsSpace, s) + "\r"
  {
    if s == "" {
      assert s + "\r" == "\r" && "\r"[1..] == "";
    } else {
      assert (s + "\r")[1..] == s[1..] + "\r";
      TrimStartCr(s[1..]);
    }
  }

  lemma CrIsSpace()
    ensures JsSpace('\r')
  {
  }

  lemma TrimEndCr(t: string)
    ensures TrimEnd(JsSpace, t + "\r") == TrimEnd(JsSpace, t)
  {
    hide JsSpace;
    CrIsSpace();
    assert (t + "\r")[..|t|] == t;
  }

  lemma TrimCr(s: string)
    ensures Trim(JsSpace, s + "\r") == Trim(JsSpace, s)
  {
    hide JsSpace;
    TrimStartCr(s);
    TrimEndCr(TrimStart(JsSpace, s));
  }

  lemma SameLineSameAssignment(a: string, b: string)
    requires SameLine(a, b)
    ensures Assignment(a) == Assignment(b)
  {
    hide Trim;
    if a != b {
      TrimCr(a);
    }
  }

  lemma {:induction false} SameLinesSameLoad(env: Env, a: seq<string>, b: seq<string>)
    requires SameLines(a, b)
    ensures LoadLines(env, a) == LoadLines(env, b)
  {
    hide SameLine, Assignment;
    if a != [] {
      SameLinesSameLoad(env, a[..|a| - 1], b[..|b| - 1]);
      SameLineSameAssignment(a[|a| - 1], b[|b| - 1]);
    }
  }

  // ----- cleaning preserves the meaning -----

  /** `env` without the secrets that `base` does not already hold. */
  function WithoutSecrets(base: Env, env: Env): Env
  {
    map k | k in env && (k !in SECRET_ENV_KEYS || k in base) :: env[k]
  }

  lemma KeptStep(base: Env, env: Env, raw: string)
    requires base.Keys <= env.Keys
    ensures WithoutSecrets(base, LoadLine(env, raw))
            == if AssignsSecret(raw) then WithoutSecrets(base, env) else LoadLine(WithoutSecrets(base, env), raw)
    ensures base.Keys <= LoadLine(env, raw).Keys
  {
    hide Assignment, ParseEnvValue;
    var a := Assignment(raw);
    if a.Some? && a.value.0 in base {
      assert a.value.0 in env;
    }
  }

  lemma {:induction false} KeptLoad(base: Env, lines: seq<string>)
    ensures LoadLines(base, Kept(lines)) == WithoutSecrets(base, LoadLines(base, lines))
    ensures base.Keys <= LoadLines(base, lines).Keys
  {
    if lines == [] {
      assert WithoutSecrets(base, base) == base;
    } else {
      hide LoadLine, AssignsSecret, WithoutSecrets;
      var init, last := lines[..|lines| - 1], lines[|lines| - 1];
      KeptLoad(base, init);
      KeptStep(base, LoadLines(base, init), last);
      var kept := Kept(lines);
      if AssignsSecret(last) {
        assert kept == Kept(init);
      } else {
        assert kept == Kept(init) + [last] && kept[..|kept| - 1] == Kept(init);
        assert LoadLines(base, kept) == LoadLine(LoadLines(base, Kept(init)), last);
      }
    }
  }

  lemma KeptOneLine(lines: seq<string>)
    requires forall i :: 0 <= i < |lines| ==> '\n' !in lines[i]
    ensures forall i :: 0 <= i < |Kept(lines)| ==> '\n' !in Kept(lines)[i] && !AssignsSecret(Kept(lines)[i])
  {
    hide Assignment;
  }

  lemma LoadEmpty(base: Env)
    ensures Load(base, "") == base
  {
    assert Split("") == [""] && [""][..0] == [] && LoadLines(base, []) == base;
    assert TrimStart(JsSpace, "") == "" && Trim(JsSpace, "") == "";
  }

  /**
   Loading the cleaned file gives exactly what loading the original gives, minus the secrets,
   for every text and every inherited environment.
   */
  lemma CleanedLoads(base: Env, text: string)
    ensures Load(base, Cleaned(text)) == WithoutSecrets(base, Load(base, text))
  {
    var kept := Kept(Split(text));
    KeptLoad(base, Split(text));
    KeptOneLine(Split(text));
    if kept == [] {
      LoadEmpty(base);
      assert LoadLines(base, []) == base;
    } else {
      SplitJoin(kept);
      SameLinesSameLoad(base, Split(Join(kept)), kept);
    }
  }

  /** Into an empty environment: the original map minus the secret keys. */
  lemma CleanedLoadsIntoEmpty(text: string)
    ensures Load(map[], Cleaned(text)) == Load(map[], text) - SECRET_ENV_KEYS
  {
    CleanedLoads(map[], text);
  }

  /** A text that trimming and splitting leave alone. */
  predicate Bare(s: string)
  {
    s != "" && !JsSpace(s[0]) && !JsSpace(s[|s| - 1]) && '\n' !in s
  }

  lemma BareParts(key: string, value: string)
    requires Bare(key) && '=' !in key && key[0] != '#'
    ensures Parts(key + "=" + value) == Some((key, value))
  {
    hide JsSpace;
    var line := key + "=" + value;
    FirstIndex(line, '=', |key|);
    TrimIdle(JsSpace, key);
    assert line[..|key|] == key && line[|key| + 1..] == value;
  }

  /** A file of one plain assignment adds exactly that variable. */
  lemma LoadOne(base: Env, key: string, value: string)
    requires Bare(key) && '=' !in key && key[0] != '#' && key !in base
    requires Bare(value) && value[0] != '"' && value[0] != '\''
    ensures Load(base, key + "=" + value) == base[key := value]
  {
    hide JsSpace, Parts, Split, LoadLine, LoadLines;
    var line := key + "=" + value;
    assert '\n' !in line;
    SplitNoBreak(line);
    LoadSingle(base, line);
    LoadBareLine(base, key, value);
  }

  lemma LoadSingle(base: Env, line: string)
    ensures LoadLines(base, [line]) == LoadLine(base, line)
  {
    hide LoadLine;
    assert [line][..0] == [] && LoadLines(base, []) == base;
  }

  lemma LoadBareLine(base: Env, key: string, value: string)
    requires Bare(key) && '=' !in key && key[0] != '#' && key !in base
    requires Bare(value) && value[0] != '"' && value[0] != '\''
    ensures LoadLine(base, key + "=" + value) == base[key := value]
  {
    BareParts(key, value);
    hide JsSpace, Parts, Trim;
    TrimIdle(JsSpace, key + "=" + value);
    TrimIdle(JsSpace, value);
  }

  /** `cleanupEnvFile` on an existing file: the text it leaves and whether it wrote it. */
  method CleanupEnvFile(text: string) returns (next: string, wrote: bool)
    ensures next == Cleaned(text) && (wrote <==> next != text)
  {
    hide AssignsSecret, Split, Join;
    var lines := Split(text);
    var kept: seq<string> := [];
    for i := 0 to |lines|
      invariant kept == Kept(lines[..i])
    {
      assert lines[..i + 1][..i] == lines[..i];
      if !AssignsSecret(lines[i]) {
        kept := kept + [lines[i]];
      }
    }
    assert lines[..|lines|] == lines;
    next := Join(kept);
    wrote := next != text;
  }

  // ----- a cleanup write that is cut short -----

  /** The lines of a prefix: all but the last are whole, the last may be cut short. */
  predicate CutLines(a: seq<string>, b: seq<string>)
  {
    && 0 < |a| <= |b|
    && (forall i :: 0 <= i < |a| - 1 ==> a[i] == b[i])
    && a[|a| - 1] <= b[|a| - 1] + "\r"
  }

  lemma CutBreak(a: seq<string>, b: seq<string>)
    requires CutLines(a, b)
    ensures CutLines([""] + a, [""] + b)
  {
  }

  lemma CutChar(c: char, a: seq<string>, b: seq<string>)
    requires CutLines(a, b)
    ensures CutLines([[c] + a[0]] + a[1..], [[c] + b[0]] + b[1..])
  {
    if |a| == 1 {
      assert [c] + a[0] <= [c] + (b[0] + "\r") == [c] + b[0] + "\r";
    }
  }

  lemma {:induction false} PrefixLines(q: string, t: string)
    requires q <= t
    ensures CutLines(Split(q), Split(t))
  {
    if q == "" {
      assert Split(q)[0] == "";
    } else if |q| >= 2 && q[0] == '\r' && q[1] == '\n' {
      hide CutLines;
      PrefixLines(q[2..], t[2..]);
      CutBreak(Split(q[2..]), Split(t[2..]));
    } else if q[0] == '\n' {
      hide CutLines;
      PrefixLines(q[1..], t[1..]);
      CutBreak(Split(q[1..]), Split(t[1..]));
    } else if |t| >= 2 && t[0] == '\r' && t[1] == '\n' {
      assert q == "\r" && q[1..] == "" && ['\r'] + "" == "\r";
      assert Split(q) == ["\r"] && Split(t)[0] == "" && "" + "\r" == "\r";
    } else {
      hide CutLines;
      PrefixLines(q[1..], t[1..]);
      CutChar(q[0], Split(q[1..]), Split(t[1..]));
    }
  }

  lemma {:induction false} TrimStartPrefix(x: string, z: string)
    requires x <= z && TrimStart(JsSpace, x) != ""
    ensures TrimStart(JsSpace, x) <= TrimStart(JsSpace, z)
  {
    hide JsSpace;
    if JsSpace(x[0]) {
      TrimStartPrefix(x[1..], z[1..]);
    }
  }

  lemma {:induction false} TrimEndKeeps(s: string, i: nat)
    requires i < |s| && !JsSpace(s[i])
    ensures i < |TrimEnd(JsSpace, s)|
  {
    hide JsSpace;
    if JsSpace(s[|s| - 1]) {
      TrimEndKeeps(s[..|s| - 1], i);
    }
  }

  lemma TrimmedPrefix(x: string, z: string, i: nat)
    requires x <= z && i < |Trim(JsSpace, x)| && !JsSpace(Trim(JsSpace, x)[i])
    ensures i < |Trim(JsSpace, z)| && Trim(JsSpace, z)[..i + 1] == Trim(JsSpace, x)[..i + 1]
  {
    hide JsSpace, TrimStart, TrimEnd;
    var lx, lz := TrimStart(JsSpace, x), TrimStart(JsSpace, z);
    TrimStartPrefix(x, z);
    assert lz[i] == lx[i] == Trim(JsSpace, x)[i];
    TrimEndKeeps(lz, i);
  }

  lemma FirstIndex(s: string, c: char, i: nat)
    requires i < |s| && s[i] == c && forall j :: 0 <= j < i ==> s[j] != c
    ensures IndexOf(s, c) == i
  {
    assert c in s;
  }

  predicate NoSecrets(lines: seq<string>)
  {
    forall i :: 0 <= i < |lines| ==> !AssignsSecret(lines[i])
  }

  lemma CleanedHasNoSecrets(text: string)
    ensures NoSecrets(Split(Cleaned(text)))
  {
    hide Assignment;
    var kept := Kept(Split(text));
    KeptOneLine(Split(text));
    if kept == [] {
      EmptyAssignsNothing();
    } else {
      hide Join, Kept, Split;
      SplitJoin(kept);
      var lines := Split(Join(kept));
      forall i | 0 <= i < |lines| ensures !AssignsSecret(lines[i])
      {
        SameLineSameAssignment(lines[i], kept[i]);
      }
    }
  }

  lemma EmptyAssignsNothing()
    ensures Assignment("").None? && Split("") == [""]
  {
    assert TrimStart(JsSpace, "") == "" && Trim(JsSpace, "") == "";
  }

  lemma TornHasNoSecrets(text: string, torn: string)
    requires torn <= Cleaned(text)
    ensures NoSecrets(Split(torn))
  {
    hide Assignment, Split, Cleaned;
    CleanedHasNoSecrets(text);
    PrefixLines(torn, Cleaned(text));
    var a, b := Split(torn), Split(Cleaned(text));
    var last := |a| - 1;
    forall i | 0 <= i < |a| ensures !AssignsSecret(a[i])
    {
      if i == last && Assignment(a[i]).Some? {
        CutAssignment(a[i], b[i] + "\r");
        SameLineSameAssignment(b[i], b[i] + "\r");
      }
    }
  }

  lemma {:induction false} NoSecretsLoaded(base: Env, lines: seq<string>)
    requires NoSecrets(lines)
    ensures var env := LoadLines(base, lines);
            forall k :: k in SECRET_ENV_KEYS ==> (k in env <==> k in base) && (k in base ==> env[k] == base[k])
  {
    hide Assignment, ParseEnvValue;
    if lines != [] {
      assert NoSecrets(lines[..|lines| - 1]);
      NoSecretsLoaded(base, lines[..|lines| - 1]);
      assert !AssignsSecret(lines[|lines| - 1]);
    }
  }

  /** Whatever prefix of the cleaned text reaches the disk, loading it adds no secret. */
  lemma TornLoads(base: Env, text: string, torn: string)
    requires torn <= Cleaned(text)
    ensures var env := Load(base, torn);
            forall k :: k in SECRET_ENV_KEYS ==> (k in env <==> k in base) && (k in base ==> env[k] == base[k])
  {
    TornHasNoSecrets(text, torn);
    NoSecretsLoaded(base, Split(torn));
  }

  /** A prefix that still has text after trimming trims to a prefix. */
  lemma TrimPrefix(x: string, z: string)
    requires x <= z
    ensures Trim(JsSpace, x) <= Trim(JsSpace, z)
  {
    hide JsSpace, TrimStart, TrimEnd;
    var t := Trim(JsSpace, x);
    if t != "" {
      TrimmedPrefix(x, z, |t| - 1);
      assert t[..|t|] == t;
    }
  }

  lemma PartsPrefix(a: string, b: string)
    requires a <= b && Parts(a).Some?
    ensures Parts(b).Some? && Parts(b).value.0 == Parts(a).value.0 && Parts(a).value.1 <= Parts(b).value.1
  {
    hide Trim;
    var sep := IndexOf(a, '=');
    FirstIndex(b, '=', sep);
    assert b[..|a|] == a;
    assert b[..sep] == b[..|a|][..sep] && a[sep + 1..] == b[..|a|][sep + 1..] == b[sep + 1..|a|];
  }

  /** A line that was cut after its key assigns the same key, and a value text that is cut as well. */
  lemma CutAssignment(x: string, z: string)
    requires x <= z && Assignment(x).Some?
    ensures Assignment(z).Some? && Assignment(z).value.0 == Assignment(x).value.0
    ensures Assignment(x).value.1 <= Assignment(z).value.1
  {
    hide Trim, JsSpace, Parts;
    TrimPrefix(x, z);
    PartsPrefix(Trim(JsSpace, x), Trim(JsSpace, z));
  }

  /** Loading a line that may be cut short: nothing, or the line's own variable with a value that may be cut. */
  lemma LoadCut(env: Env, line: string, cut: string) returns (value: string)
    requires cut <= line + "\r"
    ensures || LoadLine(env, cut) == env
            || (&& Assignment(line).Some? && value <= Assignment(line).value.1
                && Assignment(line).value.0 !in env
                && LoadLine(env, cut) == env[Assignment(line).value.0 := ParseEnvValue(value)])
  {
    hide Assignment, ParseEnvValue;
    value := "";
    if Assignment(cut).Some? {
      CutAssignment(cut, line + "\r");
      SameLineSameAssignment(line, line + "\r");
      value := Assignment(cut).value.1;
    }
  }

  /**
   What a torn file loads: the first `n` lines load as ever, and of line `n` at most its own variable
   is set, to a value that may be cut short. Everything after it is lost.
   */
  lemma TornLoadsExactly(base: Env, text: string, torn: string) returns (n: nat, value: string)
    requires torn <= text
    ensures n < |Split(text)|
    ensures var lines := Split(text); var env := LoadLines(base, lines[..n]);
            || Load(base, torn) == env
            || (&& Assignment(lines[n]).Some? && value <= Assignment(lines[n]).value.1
                && Assignment(lines[n]).value.0 !in env
                && Load(base, torn) == env[Assignment(lines[n]).value.0 := ParseEnvValue(value)])
  {
    hide Split, Assignment, ParseEnvValue, LoadLine;
    PrefixLines(torn, text);
    var a, b := Split(torn), Split(text);
    n := |a| - 1;
    assert a[..n] == b[..n];
    value := LoadCut(LoadLines(base, b[..n]), b[n], a[n]);
  }

  /** In particular a cleanup cut off at once loses every variable that the cleaned file still has. */
  lemma TornCanLoseAll(base: Env, text: string)
    ensures "" <= Cleaned(text) && Load(base, "") == base
    ensures forall k :: k in Load(base, text) && k !in base && k !in SECRET_ENV_KEYS ==>
                          k in Load(base, Cleaned(text)) && k !in Load(base, "")
  {
    LoadEmpty(base);
    CleanedLoads(base, text);
    hide Load, Cleaned;
  }
}
