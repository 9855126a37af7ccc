/** Text primitives of the two runtimes: whitespace, trimming, decimal numbers. */
module Text {

  /** Unicode White_Space, the class Rust's `trim` removes. */
  predicate RustSpace(c: char)
  {
    || '\t' <= c <= '\r' || c == ' ' || c == '\U{0085}' || c == '\U{00A0}' || c == '\U{1680}'
    || '\U{2000}' <= c <= '\U{200A}' || c == '\U{2028}' || c == '\U{2029}' || c == '\U{202F}'
    || c == '\U{205F}' || c == '\U{3000}'
  }

  /** ECMAScript WhiteSpace and LineTerminator, the class JavaScript's `trim` removes. */
  predicate JsSpace(c: char)
  {
    (RustSpace(c) && c != '\U{0085}') || c == '\U{FEFF}'
  }

  /** On ASCII both classes are the six usual characters; elsewhere they differ in two. */
  lemma SpacesExact(c: char)
    ensures RustSpace(c) != JsSpace(c) <==> c == '\U{0085}' || c == '\U{FEFF}'
    ensures c < '\U{0080}' ==> (JsSpace(c) <==> c in {'\t', '\n', '\U{000B}', '\U{000C}', '\r', ' '})
  {
  }

  function TrimStart(space: char -> bool, s: string): (r: string)
    ensures |r| <= |s| && r == s[|s| - |r|..]
    ensures r == [] || !space(r[0])
  {
    if s != [] && space(s[0]) then TrimStart(space, s[1..]) else s
  }

  function TrimEnd(space: char -> bool, s: string): (r: string)
    ensures r <= s
    ensures r == [] || !space(r[|r| - 1])
  {
    if s != [] && space(s[|s| - 1]) then TrimEnd(space, s[..|s| - 1]) else s
  }

  function Trim(space: char -> bool, s: string): string
  {
    TrimEnd(space, TrimStart(space, s))
  }

  lemma TrimIdle(space: char -> bool, s: string)
    requires s != "" ==> !space(s[0]) && !space(s[|s| - 1])
    ensures Trim(space, s) == s
  {
  }

  predicate AllSpace(space: char -> bool, s: string)
  {
    forall i :: 0 <= i < |s| ==> space(s[i])
  }

  lemma {:induction false} TrimStartTakes(space: char -> bool, s: string)
    ensures AllSpace(space, s[..|s| - |TrimStart(space, s)|])
  {
    if s != [] && space(s[0]) {
      var n := |s| - |TrimStart(space, s)|;
      TrimStartTakes(space, s[1..]);
      forall i | 0 <= i < n ensures space(s[..n][i])
      {
        if i > 0 {
          assert s[i] == s[1..][..n - 1][i - 1];
        }
      }
    }
  }

  lemma {:induction false} TrimEndTakes(space: char -> bool, s: string)
    ensures AllSpace(space, s[|TrimEnd(space, s)|..])
  {
    if s != [] && space(s[|s| - 1]) {
      var n, init := |TrimEnd(space, s)|, s[..|s| - 1];
      TrimEndTakes(space, init);
      forall i | 0 <= i < |s| - n ensures space(s[n..][i])
      {
        if i < |init| - n {
          assert s[n..][i] == init[n..][i];
        }
      }
    }
  }

  /** Trimming takes away spaces at both ends, and leaves none there. */
  lemma TrimExact(space: char -> bool, s: string) returns (a: string, b: string)
    ensures AllSpace(space, a) && AllSpace(space, b) && s == a + Trim(space, s) + b
    ensures var t := Trim(space, s); t == "" || (!space(t[0]) && !space(t[|t| - 1]))
  {
    hide TrimStart, TrimEnd, AllSpace;
    TrimStartTakes(space, s);
    var m := TrimStart(space, s);
    a := s[..|s| - |m|];
    TrimEndTakes(space, m);
    var t := TrimEnd(space, m);
    b := m[|t|..];
    assert s == a + m && m == t + b;
  }

  lemma {:induction false} TrimStartSkips(space: char -> bool, a: string, s: string)
    requires AllSpace(space, a)
    ensures TrimStart(space, a + s) == TrimStart(space, s)
  {
    if a == [] {
      assert a + s == s;
    } else {
      assert (a + s)[1..] == a[1..] + s;
      TrimStartSkips(space, a[1..], s);
    }
  }

  lemma {:induction false} TrimEndSkips(space: char -> bool, s: string, b: string)
    requires AllSpace(space, b)
    ensures TrimEnd(space, s + b) == TrimEnd(space, s)
  {
    if b == [] {
      assert s + b == s;
    } else {
      assert (s + b)[..|s + b| - 1] == s + b[..|b| - 1];
      TrimEndSkips(space, s, b[..|b| - 1]);
    }
  }

  /** And only these: the trimmed text is the one that is left between spaces and has none at its ends. */
  lemma TrimUnique(space: char -> bool, a: string, m: string, b: string)
    requires AllSpace(space, a) && AllSpace(space, b)
    requires m == "" || (!space(m[0]) && !space(m[|m| - 1]))
    ensures Trim(space, a + m + b) == m
  {
    assert a + m + b == a + (m + b);
    TrimStartSkips(space, a, m + b);
    if m == "" {
      assert m + b == b;
      TrimStartSkips(space, b, "");
      assert b + "" == b;
    } else {
      TrimEndSkips(space, m, b);
    }
  }

  /** A text trims to nothing exactly when it is blank. */
  lemma BlankIff(space: char -> bool, s: string)
    ensures Trim(space, s) == "" <==> AllSpace(space, s)
  {
    if AllSpace(space, s) {
      assert s == s + "" + "";
      TrimUnique(space, s, "", "");
    } else {
      var a, b := TrimExact(space, s);
      assert Trim(space, s) == "" ==> s == a + b;
    }
  }

  /** Decimal notation without leading zeros. */
  function Decimal(n: nat): (s: string)
    ensures s != [] && forall i :: 0 <= i < |s| ==> '0' <= s[i] <= '9'
    ensures s[0] == '0' <==> n == 0
  {
    if n < 10 then [('0' as int + n) as char] else Decimal(n / 10) + [('0' as int + n % 10) as char]
  }

  predicate Digits(s: string)
  {
    forall i :: 0 <= i < |s| ==> '0' <= s[i] <= '9'
  }

  function DigitsValue(s: string): nat
    requires Digits(s)
  {
    if s == [] then 0 else 10 * DigitsValue(s[..|s| - 1]) + (s[|s| - 1] as int - '0' as int)
  }

  lemma {:induction false} DecimalRoundTrip(n: nat)
    ensures DigitsValue(Decimal(n)) == n
  {
    var s := Decimal(n);
    if n < 10 {
      assert s[..|s| - 1] == [];
      assert DigitsValue([]) == 0;
    } else {
      DecimalRoundTrip(n / 10);
      assert s[..|s| - 1] == Decimal(n / 10);
    }
  }

  /** One more digit at the end is ten times the number plus the digit. */
  lemma DecimalAppend(n: nat, d: nat)
    requires n > 0 && d < 10
    ensures Decimal(10 * n + d) == Decimal(n) + Decimal(d)
  {
    assert (10 * n + d) / 10 == n && (10 * n + d) % 10 == d;
  }

  predicate OccursAt(s: string, part: string, i: int)
  {
    0 <= i <= |s| - |part| && s[i..i + |part|] == part
  }

  predicate Contains(s: string, part: string)
  {
    exists i :: 0 <= i <= |s| && OccursAt(s, part, i)
  }

  /** A text contains another exactly if that stands somewhere between two other texts. */
  lemma ContainsIff(s: string, part: string)
    ensures Contains(s, part) <==> exists a, b :: s == a + part + b
  {
    if i :| 0 <= i <= |s| && OccursAt(s, part, i) {
      assert s == s[..i] + part + s[i + |part|..];
    }
    if a, b :| s == a + part + b {
      assert s[|a|..|a| + |part|] == part;
      assert OccursAt(s, part, |a|);
    }
  }

  function AsciiLower(s: string): (r: string)
    ensures |r| == |s|
  {
    seq(|s|, i requires 0 <= i < |s| => if 'A' <= s[i] <= 'Z' then (s[i] as int + 32) as char else s[i])
  }

  /** Lower case has no capital letters, and two texts share it exactly when they differ in case only. */
  lemma AsciiLowerExact(s: string)
    ensures forall i :: 0 <= i < |s| ==> !('A' <= AsciiLower(s)[i] <= 'Z')
    ensures AsciiLower(s) == s <==> forall i :: 0 <= i < |s| ==> !('A' <= s[i] <= 'Z')
    ensures AsciiLower("ABCDEFGHIJKLMNOPQRSTUVWXYZ") == "abcdefghijklmnopqrstuvwxyz"
  {
    if AsciiLower(s) == s {
      forall i | 0 <= i < |s| ensures !('A' <= s[i] <= 'Z') { assert AsciiLower(s)[i] == s[i]; }
    }
  }
}
