/**
 * The `Checker` class of testhello.py: a named, ordered list of compiled line
 * patterns, checked against the output text of one gdb command.
 */
module TestHello {
  import opened Wrappers
  import opened Lines
  import opened CheckerSpec

  /** The `regexps` constructor argument: one pattern, or a list of patterns. */
  datatype PatternArg = Single(pattern: string) | List(patterns: seq<string>)

  /** `regexps` as a list: a single pattern becomes a one-element list. */
  function Normalise(regexps: PatternArg): (ps: seq<string>)
    ensures regexps.List? ==> ps == regexps.patterns
    ensures regexps.Single? ==> ps == [regexps.pattern]
  {
    match regexps
    case Single(p) => [p]
    case List(ps) => ps
  }

  /** The lines of `str(checker)`: a header, one indented line per pattern, a closing brace. */
  function RenderLines(name: string, rexps: seq<string>, e: RegexEngine): seq<string> {
    ["Checker " + name + " {"] + seq(|rexps|, t requires 0 <= t < |rexps| => "  " + e.display(rexps[t])) + ["}"]
  }

  function Render(name: string, rexps: seq<string>, e: RegexEngine): string {
    JoinLines(RenderLines(name, rexps, e))
  }

  class Checker {
    /** Identifies the check in a failure report. */
    const name: string
    /** The patterns successive matching lines must satisfy, in order. */
    const rexps: seq<string>
    /** The regular-expression engine the patterns are compiled with. */
    const engine: RegexEngine

    constructor (name: string, regexps: PatternArg, engine: RegexEngine)
      ensures this.name == name && this.engine == engine
      ensures rexps == Normalise(regexps)
    {
      this.name := name;
      this.engine := engine;
      this.rexps := Normalise(regexps);
    }

    /**
     * Checks the lines of `text` against the patterns in order: each pattern
     * takes the first later line it matches at the start; with `skipFails`
     * false the first line that does not match fails the check. By default
     * lines that do not match are skipped.
     */
    method Check(text: string, skipFails: bool := true) returns (result: Outcome)
      ensures result == Verdict(engine, rexps, SplitLines(text), skipFails)
      ensures result.Success? ==> FaithfulFrom(engine, rexps, 0, SplitLines(text), 0, result.matches)
      ensures result.Failure? ==> result.patternIdx < |rexps|
    {
      var lines := SplitLines(text);
      var numLines := |lines|;
      var numRexps := |rexps|;
      var lineIdx := 0;
      var matches: seq<Match> := [];
      ghost var target := Verdict(engine, rexps, lines, skipFails);
      for i := 0 to numRexps
        invariant lineIdx <= numLines
        invariant |matches| <= i
        invariant |matches| == i ==> target == Extend(matches, VerdictFrom(engine, rexps, lines, skipFails, i, lineIdx))
        invariant |matches| < i ==> lineIdx == numLines && target == Failure(Insufficient, |matches|, numLines)
      {
        var rexp := rexps[i];
        var found: Option<seq<string>> := None;
        ghost var start := lineIdx;
        ghost var before := matches;
        while lineIdx < numLines && found.None?
          invariant start <= lineIdx <= numLines
          invariant found.None? ==> matches == before
          invariant found.None? ==> Seek(engine, rexp, lines, start, skipFails) == Seek(engine, rexp, lines, lineIdx, skipFails)
          invariant found.Some? ==> start < lineIdx && Seek(engine, rexp, lines, start, skipFails) == Hit(lineIdx - 1)
          invariant found.Some? ==> found == engine.matchAt(rexp, lines[lineIdx - 1])
          invariant found.Some? ==> matches == before + [Match(lineIdx - 1, lines[lineIdx - 1], found.value)]
        {
          var line := lines[lineIdx];
          found := engine.matchAt(rexp, line);
          if found.None? {
            if !skipFails {
              result := Failure(Mismatch, i, lineIdx);
              FailureInRange(engine, rexps, lines, skipFails);
              return;
            }
          } else {
            matches := matches + [Match(lineIdx, line, found.value)];
          }
          lineIdx := lineIdx + 1;
        }
        if found.Some? {
          ExtendOnHit(engine, rexps, lines, skipFails, i, start, before);
        }
      }
      if |matches| < numRexps {
        result := Failure(Insufficient, |matches|, numLines);
        FailureInRange(engine, rexps, lines, skipFails);
        return;
      }
      result := Success(matches);
      SuccessIsFaithful(engine, rexps, lines, skipFails);
    }

    /** `str(checker)`: the name and the patterns, one per line. */
    method ToString() returns (result: string)
      ensures result == Render(name, rexps, engine)
    {
      var header := "Checker " + name + " {";
      result := "Checker " + name + " ";
      result := result + "{\n";
      ghost var shown: seq<string> := [header];
      assert result == JoinLines(shown);
      for i := 0 to |rexps|
        invariant shown == [header] + seq(i, t requires 0 <= t < i => "  " + engine.display(rexps[t]))
        invariant result == JoinLines(shown)
      {
        var line := "  " + engine.display(rexps[i]);
        JoinLinesSnoc(shown, line);
        result := result + line + "\n";
        shown := shown + [line];
      }
      JoinLinesSnoc(shown, "}");
      result := result + "}\n";
      assert shown + ["}"] == RenderLines(name, rexps, engine);
    }
  }

  /**
   * `str(checker)` reads back, line by line, as the header naming the checker,
   * one line per pattern showing it, and a closing brace, provided the name and
   * the shown patterns hold no line break.
   */
  lemma RenderedLines(name: string, rexps: seq<string>, e: RegexEngine)
    requires NoBreak(name)
    requires forall t :: 0 <= t < |rexps| ==> NoBreak(e.display(rexps[t]))
    ensures var lines := SplitLines(Render(name, rexps, e));
      |lines| == |rexps| + 2 &&
      lines[0] == "Checker " + name + " {" &&
      (forall t :: 0 <= t < |rexps| ==> lines[t + 1] == "  " + e.display(rexps[t])) &&
      lines[|rexps| + 1] == "}"
  {
    var ls := RenderLines(name, rexps, e);
    forall k | 0 <= k < |ls|
      ensures NoBreak(ls[k])
    {
      if k == 0 {
        assert ls[0] == "Checker " + name + " {";
        assert forall c :: 0 <= c < |ls[0]| ==> ls[0][c] == ' ' || ls[0][c] == '{' || ls[0][c] in "Checker" || ls[0][c] in name;
      } else if k <= |rexps| {
        var d := e.display(rexps[k - 1]);
        assert ls[k] == "  " + d;
        assert forall c :: 0 <= c < |ls[k]| ==> ls[k][c] == ' ' || ls[k][c] in d;
      }
    }
    SplitJoin(ls);
  }

  /**
   * A checker built from one pattern, not wrapped in a list, behaves exactly like
   * one built from the one-element list holding it.
   */
  method SingleShorthand(name: string, p: string, engine: RegexEngine, text: string, skipFails: bool)
    returns (bare: Outcome, listed: Outcome)
    ensures bare == listed
    ensures bare == Verdict(engine, [p], SplitLines(text), skipFails)
  {
    var c1 := new Checker(name, Single(p), engine);
    var c2 := new Checker(name, List([p]), engine);
    bare := c1.Check(text, skipFails);
    listed := c2.Check(text, skipFails);
  }

  /** Called without a mode, `check` is the non-strict check. */
  method CheckByDefault(c: Checker, text: string) returns (result: Outcome)
    ensures result == Verdict(c.engine, c.rexps, SplitLines(text), true)
  {
    result := c.Check(text);
  }

  /** A stand-in engine for literal patterns: a match is a prefix of the line, with no groups. */
  function LiteralPrefix(): RegexEngine {
    RegexEngine((p: string, line: string) => if p <= line then Some([]) else None, (p: string) => p)
  }

  lemma LiteralMiss(p: string, line: string)
    requires 0 < |p| && 0 < |line| && p[0] != line[0]
    ensures LiteralPrefix().matchAt(p, line) == None
  {
  }

  /** Patterns A then B against lines X, A, Y, B: the unrelated lines are skipped. */
  lemma OrderedWithNoise()
    ensures Verdict(LiteralPrefix(), ["A", "B"], ["X", "A", "Y", "B"], true)
         == Success([Match(1, "A", []), Match(3, "B", [])])
  {
    var e := LiteralPrefix();
    var lines := ["X", "A", "Y", "B"];
    LiteralMiss("A", "X");
    LiteralMiss("B", "Y");
    assert e.matchAt("A", "A") == Some([]);
    assert e.matchAt("B", "B") == Some([]);
    assert Seek(e, "A", lines, 0, true) == Hit(1);
    assert Seek(e, "B", lines, 2, true) == Hit(3);
  }

  /** The same in strict mode fails at once on the first line. */
  lemma StrictRejectsNoise()
    ensures Verdict(LiteralPrefix(), ["A", "B"], ["X", "A", "Y", "B"], false) == Failure(Mismatch, 0, 0)
  {
    LiteralMiss("A", "X");
  }

  /** Lines B, A against patterns A then B: A is found last, so B has no line left. */
  lemma OutOfOrderIsInsufficient()
    ensures Verdict(LiteralPrefix(), ["A", "B"], ["B", "A"], true) == Failure(Insufficient, 1, 2)
  {
    var e := LiteralPrefix();
    var lines := ["B", "A"];
    LiteralMiss("A", "B");
    assert e.matchAt("A", "A") == Some([]);
    assert Seek(e, "A", lines, 0, true) == Hit(1);
    assert Seek(e, "B", lines, 2, true) == Exhausted;
  }

  /** Matching is anchored at the start of a line, and the rest of the line may be anything. */
  lemma AnchoredAtStart()
    ensures Verdict(LiteralPrefix(), ["Break"], ["at Break", "Break 1"], false) == Failure(Mismatch, 0, 0)
    ensures Verdict(LiteralPrefix(), ["Break"], ["at Break", "Break 1"], true) == Success([Match(1, "Break 1", [])])
  {
    var e := LiteralPrefix();
    var lines := ["at Break", "Break 1"];
    LiteralMiss("Break", "at Break");
    assert "Break 1"[..5] == "Break";
    assert e.matchAt("Break", "Break 1") == Some([]);
    assert Seek(e, "Break", lines, 0, true) == Hit(1);
  }
}
