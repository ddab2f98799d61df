/**
 * The line accumulator of Logger.LogStream (Logger.java:235-257), one byte
 * at a time: a newline byte emits the pending line (if there is one) and
 * resets it; any other byte is appended as a char, and a line that reaches
 * 1023 chars is emitted at once. Each emitted line becomes one call of
 * log(level, line).
 */
module Lines {
  import opened Options

  /** A Java byte, as PrintStream hands it to OutputStream.write(int). */
  newtype JByte = b: int | -128 <= b < 128

  /** The length at which a pending line is emitted without waiting for a newline. */
  const MaxLine: nat := 1023

  /** The cast (char) b: a negative byte is sign-extended to 0xFF80 .. 0xFFFF. */
  function ToChar(b: JByte): (c: char)
    ensures c == '\n' <==> b == 10
  {
    if b < 0 then (b as int + 0x1_0000) as char else (b as int) as char
  }

  /** The invariant of the pending line: absent, or non-empty, shorter than the cap and newline-free. */
  predicate PendingOk(line: Option<string>)
  {
    line.None? || (0 < |line.value| < MaxLine && forall k :: 0 <= k < |line.value| ==> line.value[k] != '\n')
  }

  /** A line that may be handed to log: non-empty, at most the cap, newline-free. */
  predicate EmittableLine(s: string)
  {
    0 < |s| <= MaxLine && forall k :: 0 <= k < |s| ==> s[k] != '\n'
  }

  /** The text an optional line stands for: nothing when it is absent. */
  function Text(line: Option<string>): string
  {
    if line.None? then [] else line.value
  }

  /** What one write does: the line it emits (if any) and the new pending line. */
  datatype Step = Step(emitted: Option<string>, line: Option<string>)

  /**
   * LogStream.write(int) with flushLine inlined: a newline emits and resets
   * the pending line; another byte is appended, and the line is emitted and
   * reset when it reaches the cap.
   */
  function Feed(line: Option<string>, b: JByte): (r: Step)
    requires PendingOk(line)
    ensures PendingOk(r.line)
    ensures r.emitted.Some? ==> EmittableLine(r.emitted.value)
    ensures b == 10 ==> r.line.None? && r.emitted == line
    ensures b != 10 && |Text(line)| + 1 < MaxLine ==> r == Step(None, Some(Text(line) + [ToChar(b)]))
    ensures b != 10 && |Text(line)| + 1 == MaxLine ==> r == Step(Some(Text(line) + [ToChar(b)]), None)
  {
    if b == 10 then Step(line, None)
    else
      var l := if line.None? then [ToChar(b)] else line.value + [ToChar(b)];
      assert l == Text(line) + [ToChar(b)];
      if |l| == MaxLine then Step(Some(l), None) else Step(None, Some(l))
  }

  /** The lines an optional emission contributes. */
  function Emits(e: Option<string>): seq<string>
  {
    if e.None? then [] else [e.value]
  }

  /** The concatenation of a sequence of lines. */
  function Concat(lines: seq<string>): string
  {
    if lines == [] then [] else lines[0] + Concat(lines[1..])
  }

  /** The characters of the non-newline bytes, in order. */
  function Visible(bs: seq<JByte>): string
  {
    if bs == [] then []
    else (if bs[0] == 10 then [] else [ToChar(bs[0])]) + Visible(bs[1..])
  }

  /** A run of writes: the lines it emits, in order, and the pending line it leaves. */
  function Run(line: Option<string>, bs: seq<JByte>): (r: (seq<string>, Option<string>))
    requires PendingOk(line)
    ensures PendingOk(r.1)
    ensures forall k :: 0 <= k < |r.0| ==> EmittableLine(r.0[k])
    decreases |bs|
  {
    if bs == [] then ([], line)
    else
      var st := Feed(line, bs[0]);
      var rest := Run(st.line, bs[1..]);
      (Emits(st.emitted) + rest.0, rest.1)
  }

  /** A newline with no pending line emits nothing. */
  lemma BareNewlineEmitsNothing()
    ensures Feed(None, 10) == Step(None, None)
  {
  }

  /** A line is emitted as soon as it reaches the cap, without waiting for a newline. */
  lemma CapEmitsAtOnce(l: string, b: JByte)
    requires PendingOk(Some(l)) && |l| == MaxLine - 1 && b != 10
    ensures Feed(Some(l), b) == Step(Some(l + [ToChar(b)]), None)
  {
  }

  lemma {:induction false} ConcatAppend(a: seq<string>, b: seq<string>)
    ensures Concat(a + b) == Concat(a) + Concat(b)
    decreases |a|
  {
    if a == [] {
      assert a + b == b;
    } else {
      assert (a + b)[1..] == a[1..] + b;
      ConcatAppend(a[1..], b);
    }
  }

  /**
   * Concatenation regroups. Stated once so the text-conservation proof
   * below can call it; without it the solver searches for each regrouping.
   */
  lemma Associative(a: string, b: string, c: string)
    ensures (a + b) + c == a + (b + c)
  {
  }

  /** A single write loses and duplicates nothing: emitted text plus pending text grows by the byte's char. */
  lemma FeedPreservesText(line: Option<string>, b: JByte)
    requires PendingOk(line)
    ensures var st := Feed(line, b);
      Concat(Emits(st.emitted)) + Text(st.line) == Text(line) + (if b == 10 then [] else [ToChar(b)])
  {
    var st := Feed(line, b);
    assert Concat(Emits(st.emitted)) == Text(st.emitted) by {
      if st.emitted.Some? {
        assert Concat([st.emitted.value]) == st.emitted.value + Concat([]);
      }
    }
  }

  /**
   * The emitted lines, concatenated, followed by the pending line, are the
   * old pending line followed by the input with its newlines removed.
   */
  lemma {:induction false} RunPreservesText(line: Option<string>, bs: seq<JByte>)
    requires PendingOk(line)
    ensures Concat(Run(line, bs).0) + Text(Run(line, bs).1) == Text(line) + Visible(bs)
    decreases |bs|
  {
    if bs != [] {
      var st := Feed(line, bs[0]);
      var rest := Run(st.line, bs[1..]);
      RunPreservesText(st.line, bs[1..]);
      FeedPreservesText(line, bs[0]);
      ConcatAppend(Emits(st.emitted), rest.0);
      var c: string := if bs[0] == 10 then [] else [ToChar(bs[0])];
      assert Run(line, bs) == (Emits(st.emitted) + rest.0, rest.1);
      assert Visible(bs) == c + Visible(bs[1..]);
      var e, p := Concat(Emits(st.emitted)), Concat(rest.0);
      Associative(e, p, Text(rest.1));
      Associative(e, Text(st.line), Visible(bs[1..]));
      Associative(Text(line), c, Visible(bs[1..]));
      calc {
        Concat(Run(line, bs).0) + Text(Run(line, bs).1);
        (e + p) + Text(rest.1);
        e + (p + Text(rest.1));
        e + (Text(st.line) + Visible(bs[1..]));
        (e + Text(st.line)) + Visible(bs[1..]);
        (Text(line) + c) + Visible(bs[1..]);
        Text(line) + (c + Visible(bs[1..]));
        Text(line) + Visible(bs);
      }
    }
  }

  /**
   * Bytes without a newline that keep the pending line under the cap emit
   * nothing: their characters are appended to the pending line.
   */
  lemma {:induction false} RunBelowCapEmitsNothing(line: Option<string>, bs: seq<JByte>)
    requires PendingOk(line)
    requires forall k :: 0 <= k < |bs| ==> bs[k] != 10
    requires |Text(line)| + |bs| < MaxLine
    ensures Run(line, bs).0 == []
    ensures Text(Run(line, bs).1) == Text(line) + Visible(bs)
    decreases |bs|
  {
    if bs == [] {
      assert Text(line) + [] == Text(line);
    } else {
      var c := ToChar(bs[0]);
      var st := Feed(line, bs[0]);
      assert st == Step(None, Some(Text(line) + [c]));
      RunBelowCapEmitsNothing(st.line, bs[1..]);
      var rest := Run(st.line, bs[1..]);
      assert Run(line, bs) == (Emits(st.emitted) + rest.0, rest.1);
      assert Emits(st.emitted) + rest.0 == [];
      assert Visible(bs) == [c] + Visible(bs[1..]);
      Associative(Text(line), [c], Visible(bs[1..]));
    }
  }

  /** A run over a + b is the run over a, continued from the pending line it leaves. */
  lemma {:induction false} RunAppend(line: Option<string>, a: seq<JByte>, b: seq<JByte>)
    requires PendingOk(line)
    ensures var ra := Run(line, a);
      var rb := Run(ra.1, b);
      Run(line, a + b) == (ra.0 + rb.0, rb.1)
    decreases |a|
  {
    if a == [] {
      assert a + b == b;
      assert [] + Run(line, b).0 == Run(line, b).0;
    } else {
      var st := Feed(line, a[0]);
      assert (a + b)[0] == a[0] && (a + b)[1..] == a[1..] + b;
      RunAppend(st.line, a[1..], b);
      var ra := Run(st.line, a[1..]);
      var rb := Run(ra.1, b);
      assert Emits(st.emitted) + (ra.0 + rb.0) == (Emits(st.emitted) + ra.0) + rb.0;
    }
  }

  /**
   * A line shorter than the cap, followed by a newline, is emitted as exactly
   * that line, and nothing stays pending.
   */
  lemma ShortLineEmittedWhole(cs: seq<JByte>)
    requires 0 < |cs| < MaxLine
    requires forall k :: 0 <= k < |cs| ==> cs[k] != 10
    ensures Run(None, cs + [10]) == ([Visible(cs)], None)
  {
    RunAppend(None, cs, [10]);
    RunBelowCapEmitsNothing(None, cs);
    var ra := Run(None, cs);
    assert ra.1.Some? by {
      assert Visible(cs) == [ToChar(cs[0])] + Visible(cs[1..]);
    }
    var v := ra.1.value;
    assert v == Visible(cs);
    assert Feed(ra.1, 10) == Step(ra.1, None);
    assert [10][1..] == [];
    assert Run(ra.1, [10]) == (Emits(Some(v)) + [], None);
    assert Emits(Some(v)) + [] == [v];
    assert ra.0 + [v] == [Visible(cs)];
    assert Run(None, cs + [10]) == (ra.0 + [v], None);
  }
}
