/**
 * The record pipeline of Logger.log (Logger.java:126-135): positional
 * placeholders are substituted in index order, five control characters are
 * escaped, and the body is framed by the "[timestamp|thread] <LEVEL> " prefix
 * and a single trailing newline. The timestamp and the thread name are
 * opaque strings supplied by the caller.
 */
module Format {
  import opened Levels

  // ---------------------------------------------------------------------
  // String.replace
  // ---------------------------------------------------------------------

  /** `pat` occurs in `s` starting at index i. */
  predicate OccursAt(pat: string, s: string, i: nat)
  {
    i + |pat| <= |s| && s[i..i + |pat|] == pat
  }

  /** `pat` occurs somewhere in `s`. */
  ghost predicate Occurs(pat: string, s: string)
  {
    exists i: nat :: OccursAt(pat, s, i)
  }

  /**
   * Java's String.replace(target, replacement) for a non-empty target: the
   * string is scanned left to right and every non-overlapping occurrence of
   * `pat` is replaced by `rep`; text produced by a replacement is not
   * scanned again.
   */
  function Replace(s: string, pat: string, rep: string): (r: string)
    requires |pat| > 0
    ensures rep == pat ==> r == s
    ensures |rep| == |pat| ==> |r| == |s|
    ensures |rep| >= |pat| ==> |r| >= |s|
    decreases |s|
  {
    if |s| < |pat| then s
    else if s[..|pat|] == pat then
      var t := Replace(s[|pat|..], pat, rep);
      assert rep == pat ==> s == pat + s[|pat|..];
      rep + t
    else
      var t := Replace(s[1..], pat, rep);
      assert s == [s[0]] + s[1..];
      [s[0]] + t
  }

  /** Replacing a target that does not occur leaves the string as it is. */
  lemma {:induction false} ReplaceAbsent(s: string, pat: string, rep: string)
    requires |pat| > 0
    requires !Occurs(pat, s)
    ensures Replace(s, pat, rep) == s
    decreases |s|
  {
    if |s| >= |pat| {
      assert !OccursAt(pat, s, 0);
      assert s[0..0 + |pat|] == s[..|pat|];
      assert !Occurs(pat, s[1..]) by {
        forall i: nat | OccursAt(pat, s[1..], i) ensures OccursAt(pat, s, i + 1) {
          assert s[1..][i..i + |pat|] == s[i + 1..i + 1 + |pat|];
        }
      }
      ReplaceAbsent(s[1..], pat, rep);
      assert s == [s[0]] + s[1..];
    }
  }

  /** With a one-character target, Replace handles the first character on its own. */
  lemma ReplaceCharCons(x: char, s: string, c: char, rep: string)
    ensures Replace([x] + s, [c], rep) == (if x == c then rep else [x]) + Replace(s, [c], rep)
  {
    var t := [x] + s;
    assert t[..1] == [x];
    assert t[1..] == s;
  }

  /** With a one-character target, Replace distributes over concatenation. */
  lemma {:induction false} ReplaceCharConcat(a: string, b: string, c: char, rep: string)
    ensures Replace(a + b, [c], rep) == Replace(a, [c], rep) + Replace(b, [c], rep)
    decreases |a|
  {
    if a == [] {
      assert a + b == b;
    } else {
      assert a == [a[0]] + a[1..];
      assert a + b == [a[0]] + (a[1..] + b);
      ReplaceCharCons(a[0], a[1..] + b, c, rep);
      ReplaceCharCons(a[0], a[1..], c, rep);
      ReplaceCharConcat(a[1..], b, c, rep);
    }
  }

  // ---------------------------------------------------------------------
  // Placeholders
  // ---------------------------------------------------------------------

  /** Integer.toString for a non-negative int: its decimal digits, no leading zero. */
  function Decimal(n: nat): (s: string)
    ensures |s| > 0
    ensures n >= 10 ==> |s| >= 2
    ensures forall k :: 0 <= k < |s| ==> '0' <= s[k] <= '9'
  {
    if n < 10 then [('0' as int + n) as char]
    else Decimal(n / 10) + [('0' as int + n % 10) as char]
  }

  /** The text "{" + i + "}" that parameter i replaces. */
  function Placeholder(i: nat): (s: string)
    ensures |s| > 2 && s[0] == '{' && s[|s| - 1] == '}'
    ensures forall k :: 0 < k < |s| - 1 ==> '0' <= s[k] <= '9'
  {
    "{" + Decimal(i) + "}"
  }

  /**
   * The message after the first k rounds of the substitution loop: round i
   * replaces every "{i}" in the text produced so far by params[i].
   */
  function Substituted(msg: string, params: seq<string>, k: nat): string
    requires k <= |params|
  {
    if k == 0 then msg
    else Replace(Substituted(msg, params, k - 1), Placeholder(k - 1), params[k - 1])
  }

  /**
   * The substitution loop of Logger.log: for each index from 0 up, every
   * occurrence of that index's placeholder is replaced by the parameter.
   */
  method SubstituteParams(msg: string, params: seq<string>) returns (r: string)
    ensures r == Substituted(msg, params, |params|)
  {
    r := msg;
    var i := 0;
    while i < |params|
      invariant 0 <= i <= |params|
      invariant r == Substituted(msg, params, i)
    {
      r := Replace(r, Placeholder(i), params[i]);
      i := i + 1;
    }
  }

  /** A template that names none of the parameters' placeholders comes out verbatim. */
  lemma {:induction false} SubstitutedWithoutPlaceholders(msg: string, params: seq<string>, k: nat)
    requires k <= |params|
    requires forall i :: 0 <= i < k ==> !Occurs(Placeholder(i), msg)
    ensures Substituted(msg, params, k) == msg
  {
    if k > 0 {
      SubstitutedWithoutPlaceholders(msg, params, k - 1);
      ReplaceAbsent(msg, Placeholder(k - 1), params[k - 1]);
    }
  }

  /** A target at the front is replaced, and the scan resumes right after it. */
  lemma ReplaceFront(pat: string, s: string, rep: string)
    requires |pat| > 0
    ensures Replace(pat + s, pat, rep) == rep + Replace(s, pat, rep)
  {
    var t := pat + s;
    assert t[..|pat|] == pat;
    assert t[|pat|..] == s;
  }

  /** A string without the character c contains no placeholder-shaped text whose second character is c. */
  lemma NoOccurrenceBySecondChar(pat: string, s: string)
    requires |pat| > 1
    requires forall j :: 0 <= j < |s| ==> s[j] != pat[1]
    ensures !Occurs(pat, s)
  {
    forall i: nat ensures !OccursAt(pat, s, i) {
      if i + |pat| <= |s| {
        assert s[i..i + |pat|][1] == s[i + 1];
      }
    }
  }

  /** A target at the front of text that lacks its second character is the only one replaced. */
  lemma ReplaceOnlyFront(pat: string, rest: string, rep: string)
    requires |pat| > 1
    requires forall j :: 0 <= j < |rest| ==> rest[j] != pat[1]
    ensures Replace(pat + rest, pat, rep) == rep + rest
  {
    ReplaceFront(pat, rest, rep);
    NoOccurrenceBySecondChar(pat, rest);
    ReplaceAbsent(rest, pat, rep);
  }

  /**
   * The first round on "{0} and {1}" with "x" gives "x and {1}". The
   * template and its tail are parameters so that the solver does not
   * evaluate Replace on the literal character by character.
   */
  lemma FirstRoundExample(t: string, rest: string)
    requires t == "{0} and {1}" && rest == " and {1}"
    ensures Replace(t, "{0}", "x") == "x and {1}"
  {
    assert t == "{0}" + rest;
    ReplaceOnlyFront("{0}", rest, "x");
  }

  /** With two parameters the loop makes exactly two rounds, "{0}" first. */
  lemma SubstitutedTwo(msg: string, params: seq<string>)
    requires |params| == 2
    ensures Substituted(msg, params, 2) == Replace(Replace(msg, "{0}", params[0]), "{1}", params[1])
  {
    assert Placeholder(0) == "{0}" && Placeholder(1) == "{1}";
    assert Substituted(msg, params, 1) == Replace(msg, Placeholder(0), params[0]);
    assert Substituted(msg, params, 2) == Replace(Substituted(msg, params, 1), Placeholder(1), params[1]);
  }

  /** The second round on "x and {1}" with "7" gives "x and 7". */
  lemma SecondRoundExample()
    ensures Replace("x and {1}", "{1}", "7") == "x and 7"
  {
    var lead := "x and ";
    assert "x and {1}" == lead + "{1}";
    ReplaceCharFree(lead, "{1}", "7");
  }

  /** "{0} and {1}" with parameters "x" and "7" becomes "x and 7". */
  lemma SubstitutionExample(msg: string, params: seq<string>)
    requires msg == "{0} and {1}" && params == ["x", "7"]
    ensures Substituted(msg, params, |params|) == "x and 7"
  {
    SubstitutedTwo(msg, params);
    FirstRoundExample(msg, " and {1}");
    SecondRoundExample();
  }

  /** Distinct indices have distinct decimal texts. */
  lemma {:induction false} DecimalInjective(i: nat, j: nat)
    requires Decimal(i) == Decimal(j)
    ensures i == j
    decreases i
  {
    if i >= 10 && j >= 10 {
      var di, dj := Decimal(i), Decimal(j);
      assert di[..|di| - 1] == Decimal(i / 10);
      assert dj[..|dj| - 1] == Decimal(j / 10);
      DecimalInjective(i / 10, j / 10);
      assert di[|di| - 1] == dj[|dj| - 1];
    }
  }

  /** No occurrence of `pat` in x + y starts inside x and ends beyond it. */
  ghost predicate NoStraddle(x: string, y: string, pat: string)
  {
    forall k :: 0 <= k < |x| < k + |pat| ==> !OccursAt(pat, x + y, k)
  }

  /** Dropping the first d characters of x keeps the boundary free of straddling occurrences. */
  lemma NoStraddleShift(x: string, y: string, pat: string, d: nat)
    requires d <= |x| && NoStraddle(x, y, pat)
    ensures NoStraddle(x[d..], y, pat)
  {
    var s := x + y;
    assert s[d..] == x[d..] + y;
    forall k | 0 <= k < |x[d..]| < k + |pat| ensures !OccursAt(pat, x[d..] + y, k) {
      assert !OccursAt(pat, s, k + d);
      if k + |pat| <= |x[d..] + y| {
        assert (x[d..] + y)[k..k + |pat|] == s[k + d..k + d + |pat|];
      }
    }
  }

  /** The split step when x starts with the target: the target is replaced and x's rest follows. */
  lemma ReplaceSplitMatch(x: string, y: string, pat: string, rep: string)
    requires 0 < |pat| <= |x| && x[..|pat|] == pat
    requires Replace(x[|pat|..] + y, pat, rep) == Replace(x[|pat|..], pat, rep) + Replace(y, pat, rep)
    ensures Replace(x + y, pat, rep) == Replace(x, pat, rep) + Replace(y, pat, rep)
  {
    var s, x' := x + y, x[|pat|..];
    assert s[..|pat|] == pat;
    assert s[|pat|..] == x' + y;
    assert Replace(s, pat, rep) == rep + (Replace(x', pat, rep) + Replace(y, pat, rep));
  }

  /** Replace on a string that does not start with the target copies its first character. */
  lemma ReplaceSkip(s: string, pat: string, rep: string)
    requires 0 < |pat| && 0 < |s| && !OccursAt(pat, s, 0)
    ensures Replace(s, pat, rep) == [s[0]] + Replace(s[1..], pat, rep)
  {
    if |s| < |pat| {
      assert Replace(s[1..], pat, rep) == s[1..];
      assert s == [s[0]] + s[1..];
    } else {
      assert s[..|pat|] == s[0..0 + |pat|];
    }
  }

  /** An occurrence at the front of x is one at the front of x + y. */
  lemma OccursAtFront(pat: string, x: string, y: string)
    requires OccursAt(pat, x, 0)
    ensures OccursAt(pat, x + y, 0)
  {
    assert (x + y)[0..|pat|] == x[0..|pat|];
  }

  /** The split step when x + y does not start with the target: x's first character is copied. */
  lemma ReplaceSplitSkip(x: string, y: string, pat: string, rep: string)
    requires 0 < |pat| && 0 < |x| && !OccursAt(pat, x + y, 0)
    requires Replace(x[1..] + y, pat, rep) == Replace(x[1..], pat, rep) + Replace(y, pat, rep)
    ensures Replace(x + y, pat, rep) == Replace(x, pat, rep) + Replace(y, pat, rep)
  {
    var s, x' := x + y, x[1..];
    assert s[1..] == x' + y;
    ReplaceSkip(s, pat, rep);
    assert Replace(s, pat, rep) == [x[0]] + (Replace(x', pat, rep) + Replace(y, pat, rep));
    if OccursAt(pat, x, 0) {
      OccursAtFront(pat, x, y);
    }
    ReplaceSkip(x, pat, rep);
  }

  /**
   * Replace works on the two halves of a string separately when no
   * occurrence of the target straddles the boundary between them.
   */
  lemma {:induction false} ReplaceSplit(x: string, y: string, pat: string, rep: string)
    requires |pat| > 0 && NoStraddle(x, y, pat)
    ensures Replace(x + y, pat, rep) == Replace(x, pat, rep) + Replace(y, pat, rep)
    decreases |x|
  {
    var s := x + y;
    if x == [] {
      assert s == y;
    } else if |s| < |pat| {
      assert Replace(s, pat, rep) == s;
    } else if s[..|pat|] == pat {
      assert OccursAt(pat, s, 0);
      NoStraddleShift(x, y, pat, |pat|);
      ReplaceSplit(x[|pat|..], y, pat, rep);
      ReplaceSplitMatch(x, y, pat, rep);
    } else {
      assert !OccursAt(pat, s, 0) by {
        assert s[0..0 + |pat|] == s[..|pat|];
      }
      NoStraddleShift(x, y, pat, 1);
      ReplaceSplit(x[1..], y, pat, rep);
      ReplaceSplitSkip(x, y, pat, rep);
    }
  }

  /** A piece p free of the target, and not straddled by it on either side, is carried over verbatim. */
  lemma ReplaceAroundAlone(a: string, p: string, b: string, pat: string, rep: string)
    requires |pat| > 0 && !Occurs(pat, p)
    requires NoStraddle(a, p + b, pat) && NoStraddle(p, b, pat)
    ensures Replace(a + p + b, pat, rep) == Replace(a, pat, rep) + p + Replace(b, pat, rep)
  {
    assert a + p + b == a + (p + b);
    ReplaceSplit(a, p + b, pat, rep);
    ReplaceSplit(p, b, pat, rep);
    ReplaceAbsent(p, pat, rep);
  }

  /** No placeholder occurs inside the placeholder of another index. */
  lemma PlaceholderNotInside(i: nat, j: nat)
    requires i != j
    ensures !Occurs(Placeholder(i), Placeholder(j))
  {
    var pat, p := Placeholder(i), Placeholder(j);
    forall k: nat ensures !OccursAt(pat, p, k) {
      if k + |pat| <= |p| {
        var w := p[k..k + |pat|];
        assert w[0] == p[k];
        if k == 0 && |pat| == |p| {
          if pat == p {
            assert Decimal(i) == pat[1..|pat| - 1] == p[1..|p| - 1] == Decimal(j);
            DecimalInjective(i, j);
          }
        } else if k == 0 {
          assert w[|pat| - 1] == p[|pat| - 1];
        }
      }
    }
  }

  /** No placeholder overlaps the opening brace of a placeholder from the left. */
  lemma PlaceholderNotStraddledBefore(i: nat, j: nat, a: string, b: string)
    ensures NoStraddle(a, Placeholder(j) + b, Placeholder(i))
  {
    var pat, p := Placeholder(i), Placeholder(j);
    forall k | 0 <= k < |a| < k + |pat| ensures !OccursAt(pat, a + (p + b), k) {
      var s := a + (p + b);
      if k + |pat| <= |s| {
        assert s[k..k + |pat|][|a| - k] == s[|a|] == p[0];
      }
    }
  }

  /** No placeholder overlaps the closing brace of a placeholder from the left. */
  lemma PlaceholderNotStraddledAfter(i: nat, j: nat, b: string)
    ensures NoStraddle(Placeholder(j), b, Placeholder(i))
  {
    var pat, p := Placeholder(i), Placeholder(j);
    forall k | 0 <= k < |p| < k + |pat| ensures !OccursAt(pat, p + b, k) {
      if k + |pat| <= |p + b| {
        var w := (p + b)[k..k + |pat|];
        assert w[0] == p[k];
        assert w[|p| - 1 - k] == p[|p| - 1];
      }
    }
  }

  /** One round leaves another index's placeholder in place and works on the text around it. */
  lemma ReplaceAroundPlaceholder(a: string, b: string, i: nat, j: nat, rep: string)
    requires i != j
    ensures Replace(a + Placeholder(j) + b, Placeholder(i), rep) ==
      Replace(a, Placeholder(i), rep) + Placeholder(j) + Replace(b, Placeholder(i), rep)
  {
    PlaceholderNotInside(i, j);
    PlaceholderNotStraddledBefore(i, j, a, b);
    PlaceholderNotStraddledAfter(i, j, b);
    ReplaceAroundAlone(a, Placeholder(j), b, Placeholder(i), rep);
  }

  /**
   * A placeholder whose index is not below the number of rounds survives
   * verbatim, and the text on either side of it is substituted as if it
   * stood alone.
   */
  lemma {:induction false} OutOfRangeSurvives(a: string, b: string, params: seq<string>, j: nat, k: nat)
    requires k <= |params| && k <= j
    ensures Substituted(a + Placeholder(j) + b, params, k) ==
      Substituted(a, params, k) + Placeholder(j) + Substituted(b, params, k)
  {
    if k > 0 {
      OutOfRangeSurvives(a, b, params, j, k - 1);
      ReplaceAroundPlaceholder(Substituted(a, params, k - 1), Substituted(b, params, k - 1),
                               k - 1, j, params[k - 1]);
    }
  }

  /**
   * Text inserted for one parameter is scanned by the later rounds: with
   * parameters "{1}" and "y", the template "{0}" becomes "y".
   */
  lemma ChainedSubstitutionExample()
    ensures Substituted("{0}", ["{1}", "y"], 2) == "y"
  {
    assert Placeholder(0) == "{0}";
    assert Placeholder(1) == "{1}";
    ReplaceFront("{0}", [], "{1}");
    assert "{0}" + [] == "{0}";
    ReplaceFront("{1}", [], "y");
    assert "{1}" + [] == "{1}";
  }

  /** A prefix free of the target's first character is copied unchanged, and the target after it replaced. */
  lemma {:induction false} ReplaceCharFree(a: string, pat: string, rep: string)
    requires |pat| > 0
    requires forall k :: 0 <= k < |a| ==> a[k] != pat[0]
    ensures Replace(a + pat, pat, rep) == a + rep
    decreases |a|
  {
    if a == [] {
      assert a + pat == pat + [];
      ReplaceFront(pat, [], rep);
      assert rep + [] == a + rep;
    } else {
      var t := a + pat;
      assert t[..|pat|] != pat by {
        assert t[..|pat|][0] == a[0];
      }
      assert t[1..] == a[1..] + pat;
      assert Replace(t, pat, rep) == [a[0]] + Replace(a[1..] + pat, pat, rep);
      ReplaceCharFree(a[1..], pat, rep);
      assert a == [a[0]] + a[1..];
    }
  }

  // ---------------------------------------------------------------------
  // Escaping
  // ---------------------------------------------------------------------

  /** The backspace character '\b'. */
  const Backspace: char := 8 as char
  /** The escape character '\033'. */
  const Escape: char := 27 as char

  /** The five characters Logger.log rewrites so that a record stays on one line. */
  predicate IsControl(c: char)
  {
    c == '\n' || c == '\r' || c == '\t' || c == Backspace || c == Escape
  }

  /**
   * The chain of five replacements applied to the substituted message: a
   * newline, a carriage return and a backspace become a backslash and a
   * letter, a tab becomes four spaces, the escape character becomes "\e".
   */
  function EscapeChain(s: string): (r: string)
    ensures |r| >= |s|
  {
    var s1 := Replace(s, "\n", "\\n");
    var s2 := Replace(s1, "\r", "\\r");
    var s3 := Replace(s2, "\t", "    ");
    var s4 := Replace(s3, [Backspace], "\\b");
    Replace(s4, [Escape], "\\e")
  }

  /** What one character becomes under escaping, stated independently of the chain. */
  function EscapeChar(c: char): (r: string)
    ensures |r| > 0
  {
    if c == '\n' then "\\n"
    else if c == '\r' then "\\r"
    else if c == '\t' then "    "
    else if c == Backspace then "\\b"
    else if c == Escape then "\\e"
    else [c]
  }

  /** Escaping as a character-by-character map. */
  function Escaped(s: string): string
  {
    if s == [] then [] else EscapeChar(s[0]) + Escaped(s[1..])
  }

  lemma EscapeChainConcat(a: string, b: string)
    ensures EscapeChain(a + b) == EscapeChain(a) + EscapeChain(b)
  {
    ReplaceCharConcat(a, b, '\n', "\\n");
    var a1, b1 := Replace(a, "\n", "\\n"), Replace(b, "\n", "\\n");
    ReplaceCharConcat(a1, b1, '\r', "\\r");
    var a2, b2 := Replace(a1, "\r", "\\r"), Replace(b1, "\r", "\\r");
    ReplaceCharConcat(a2, b2, '\t', "    ");
    var a3, b3 := Replace(a2, "\t", "    "), Replace(b2, "\t", "    ");
    ReplaceCharConcat(a3, b3, Backspace, "\\b");
    var a4, b4 := Replace(a3, [Backspace], "\\b"), Replace(b3, [Backspace], "\\b");
    ReplaceCharConcat(a4, b4, Escape, "\\e");
  }

  /** A string without the character c is left as it is by replacing c. */
  lemma ReplaceCharMissing(s: string, c: char, rep: string)
    requires forall k :: 0 <= k < |s| ==> s[k] != c
    ensures Replace(s, [c], rep) == s
  {
    assert !Occurs([c], s) by {
      forall i: nat ensures !OccursAt([c], s, i) {
        if i + 1 <= |s| {
          assert s[i..i + 1][0] == s[i];
        }
      }
    }
    ReplaceAbsent(s, [c], rep);
  }

  /** The remaining steps of the chain leave a replacement text that none of them targets. */
  lemma ChainTail(s: string)
    requires forall k :: 0 <= k < |s| ==> !IsControl(s[k])
    ensures Replace(s, "\r", "\\r") == s
    ensures Replace(s, "\t", "    ") == s
    ensures Replace(s, [Backspace], "\\b") == s
    ensures Replace(s, [Escape], "\\e") == s
  {
    ReplaceCharMissing(s, '\r', "\\r");
    ReplaceCharMissing(s, '\t', "    ");
    ReplaceCharMissing(s, Backspace, "\\b");
    ReplaceCharMissing(s, Escape, "\\e");
  }

  /** Replacing a character in a one-character string. */
  lemma ReplaceSingle(x: char, c: char, rep: string)
    ensures Replace([x], [c], rep) == if x == c then rep else [x]
  {
    ReplaceCharCons(x, [], c, rep);
    assert [x] + [] == [x];
  }

  lemma EscapeChainChar(x: char)
    ensures EscapeChain([x]) == EscapeChar(x)
  {
    var e := EscapeChar(x);
    if !IsControl(x) {
      ReplaceSingle(x, '\n', "\\n");
      ReplaceSingle(x, '\r', "\\r");
      ReplaceSingle(x, '\t', "    ");
      ReplaceSingle(x, Backspace, "\\b");
      ReplaceSingle(x, Escape, "\\e");
    } else {
      assert forall k :: 0 <= k < |e| ==> !IsControl(e[k]);
      ChainTail(e);
      ReplaceSingle(x, '\n', "\\n");
      if x != '\n' {
        ReplaceSingle(x, '\r', "\\r");
        if x != '\r' {
          ReplaceSingle(x, '\t', "    ");
          if x != '\t' {
            ReplaceSingle(x, Backspace, "\\b");
            if x != Backspace {
              ReplaceSingle(x, Escape, "\\e");
            }
          }
        }
      }
    }
  }

  /**
   * The five chained replacements amount to rewriting each character on its
   * own: no replacement text contains a character a later replacement targets.
   */
  lemma {:induction false} EscapeChainIsEscaped(s: string)
    ensures EscapeChain(s) == Escaped(s)
    decreases |s|
  {
    if s == [] {
      assert Replace([], "\n", "\\n") == [];
    } else {
      assert s == [s[0]] + s[1..];
      EscapeChainConcat([s[0]], s[1..]);
      EscapeChainChar(s[0]);
      EscapeChainIsEscaped(s[1..]);
    }
  }

  /** After escaping, none of the five control characters remains. */
  lemma {:induction false} EscapedHasNoControl(s: string)
    ensures forall k :: 0 <= k < |Escaped(s)| ==> !IsControl(Escaped(s)[k])
    decreases |s|
  {
    if s != [] {
      EscapedHasNoControl(s[1..]);
      var head, tail := EscapeChar(s[0]), Escaped(s[1..]);
      assert forall k :: 0 <= k < |head| ==> !IsControl(head[k]);
      assert Escaped(s) == head + tail;
      forall k | 0 <= k < |head + tail| ensures !IsControl((head + tail)[k]) {
        if k >= |head| {
          assert (head + tail)[k] == tail[k - |head|];
        }
      }
    }
  }

  /** A message free of control characters is not changed by escaping. */
  lemma {:induction false} EscapedIdentity(s: string)
    requires forall k :: 0 <= k < |s| ==> !IsControl(s[k])
    ensures Escaped(s) == s
    decreases |s|
  {
    if s != [] {
      EscapedIdentity(s[1..]);
      assert s == [s[0]] + s[1..];
    }
  }

  // ---------------------------------------------------------------------
  // The record
  // ---------------------------------------------------------------------

  /** "[" + timestamp + "|" + thread + "] <" + level + "> ". */
  function Prefix(timestamp: string, thread: string, level: Level): (r: string)
    ensures |r| == |timestamp| + |thread| + |Name(level)| + 7
    ensures r[0] == '[' && r[|r| - 1] == ' '
  {
    var r := "[" + timestamp + "|" + thread + "] <" + Name(level) + "> ";
    assert r == "[" + (timestamp + ("|" + (thread + ("] <" + (Name(level) + "> ")))));
    r
  }

  /** The record written for an already substituted message: prefix, escaped body, newline. */
  function Line(timestamp: string, thread: string, level: Level, body: string): (r: string)
    ensures |r| >= |Prefix(timestamp, thread, level)| + |body| + 1
    ensures r[|r| - 1] == '\n'
  {
    Prefix(timestamp, thread, level) + EscapeChain(body) + "\n"
  }

  /** The record log(level, msg, params) writes to every receiving channel. */
  function Record(timestamp: string, thread: string, level: Level, msg: string, params: seq<string>): (r: string)
    ensures params == [] ==> r == Line(timestamp, thread, level, msg)
    ensures |r| > 0 && r[|r| - 1] == '\n'
  {
    Line(timestamp, thread, level, Substituted(msg, params, |params|))
  }

  /** The prefix is newline-free when the timestamp and the thread name are. */
  lemma PrefixHasNoNewline(timestamp: string, thread: string, level: Level)
    requires forall k :: 0 <= k < |timestamp| ==> timestamp[k] != '\n'
    requires forall k :: 0 <= k < |thread| ==> thread[k] != '\n'
    ensures forall k :: 0 <= k < |Prefix(timestamp, thread, level)| ==> Prefix(timestamp, thread, level)[k] != '\n'
  {
    var p := Prefix(timestamp, thread, level);
    var n := Name(level);
    assert p == "[" + timestamp + "|" + thread + "] <" + n + "> ";
    forall k | 0 <= k < |p| ensures p[k] != '\n' {
      if k == 0 {
      } else if k < 1 + |timestamp| {
        assert p[k] == timestamp[k - 1];
      } else if k == 1 + |timestamp| {
      } else if k < 2 + |timestamp| + |thread| {
        assert p[k] == thread[k - 2 - |timestamp|];
      } else if k < 5 + |timestamp| + |thread| {
      } else if k < 5 + |timestamp| + |thread| + |n| {
        assert p[k] == n[k - 5 - |timestamp| - |thread|];
      }
    }
  }

  /**
   * A record is exactly one physical line: given a timestamp and a thread
   * name without newlines, its only newline is its last character, and its
   * body is the escaped message.
   */
  lemma RecordIsOneLine(timestamp: string, thread: string, level: Level, body: string)
    requires forall k :: 0 <= k < |timestamp| ==> timestamp[k] != '\n'
    requires forall k :: 0 <= k < |thread| ==> thread[k] != '\n'
    ensures var r := Line(timestamp, thread, level, body);
      r == Prefix(timestamp, thread, level) + Escaped(body) + "\n" &&
      r[|r| - 1] == '\n' &&
      forall k :: 0 <= k < |r| - 1 ==> r[k] != '\n'
  {
    var p := Prefix(timestamp, thread, level);
    var e := Escaped(body);
    EscapeChainIsEscaped(body);
    EscapedHasNoControl(body);
    PrefixHasNoNewline(timestamp, thread, level);
    var r := p + e + "\n";
    forall k | 0 <= k < |r| - 1 ensures r[k] != '\n' {
      if k < |p| {
        assert r[k] == p[k];
      } else {
        assert r[k] == e[k - |p|];
      }
    }
  }
}
