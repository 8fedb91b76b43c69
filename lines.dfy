/**
 * Python 3's `str.splitlines()` (without `keepends`), used by the checker to cut a
 * command's output into lines, and its inverse on break-free lines: terminating
 * every line with a newline and concatenating.
 */
module Lines {

  /** The characters `str.splitlines` treats as line boundaries (`\r\n` counts as one). */
  predicate IsLineBreak(c: char) {
    c == '\n' || c == '\r' || c == '\U{000B}' || c == '\U{000C}' ||
    c == '\U{001C}' || c == '\U{001D}' || c == '\U{001E}' ||
    c == '\U{0085}' || c == '\U{2028}' || c == '\U{2029}'
  }

  predicate NoBreak(s: string) {
    forall t :: 0 <= t < |s| ==> !IsLineBreak(s[t])
  }

  /** The index of the first line boundary at or after `i`, or `|s|` if there is none. */
  function LineEnd(s: string, i: nat): (r: nat)
    requires i <= |s|
    ensures i <= r <= |s|
    ensures forall t :: i <= t < r ==> !IsLineBreak(s[t])
    ensures r < |s| ==> IsLineBreak(s[r])
    decreases |s| - i
  {
    if i == |s| || IsLineBreak(s[i]) then i else LineEnd(s, i + 1)
  }

  /** The lines of `s`: no trailing empty line, and the empty string has no lines. */
  function SplitLines(s: string): (lines: seq<string>)
    ensures forall k :: 0 <= k < |lines| ==> NoBreak(lines[k])
    ensures |lines| <= |s|
    decreases |s|
  {
    if s == [] then []
    else
      var k := LineEnd(s, 0);
      if k == |s| then [s]
      else
        var next := if s[k] == '\r' && k + 1 < |s| && s[k + 1] == '\n' then k + 2 else k + 1;
        [s[..k]] + SplitLines(s[next..])
  }

  /** Every line followed by a newline, concatenated. */
  function JoinLines(lines: seq<string>): string {
    if lines == [] then "" else lines[0] + "\n" + JoinLines(lines[1..])
  }

  /** Appending one more line to the joined text. */
  lemma {:induction false} JoinLinesSnoc(lines: seq<string>, last: string)
    ensures JoinLines(lines + [last]) == JoinLines(lines) + last + "\n"
    decreases |lines|
  {
    if lines == [] {
      assert lines + [last] == [last];
    } else {
      assert (lines + [last])[1..] == lines[1..] + [last];
      JoinLinesSnoc(lines[1..], last);
    }
  }

  /**
   * Splitting a break-free line off the front of a text at a separator: `\r\n`,
   * or any single line boundary (a lone `\r` only when no `\n` follows it).
   */
  lemma SplitLinesAt(line: string, sep: string, rest: string)
    requires NoBreak(line)
    requires sep == "\r\n" || (|sep| == 1 && IsLineBreak(sep[0]) && !(sep[0] == '\r' && rest != [] && rest[0] == '\n'))
    ensures SplitLines(line + sep + rest) == [line] + SplitLines(rest)
  {
    var s := line + sep + rest;
    assert s[|line|] == sep[0];
    assert forall t :: 0 <= t < |line| ==> s[t] == line[t];
    var k := LineEnd(s, 0);
    assert k == |line|;
    assert s[..k] == line;
    if sep == "\r\n" {
      assert s[k + 1] == '\n';
      assert s[k + 2..] == rest;
    } else {
      assert s[k + 1..] == rest;
    }
  }

  /** Splitting a newline-terminated break-free line off the front of a text. */
  lemma SplitLinesCons(line: string, rest: string)
    requires NoBreak(line)
    ensures SplitLines(line + "\n" + rest) == [line] + SplitLines(rest)
  {
    SplitLinesAt(line, "\n", rest);
  }

  /** Splitting undoes joining, for lines that hold no line boundary. */
  lemma {:induction false} SplitJoin(lines: seq<string>)
    requires forall k :: 0 <= k < |lines| ==> NoBreak(lines[k])
    ensures SplitLines(JoinLines(lines)) == lines
    decreases |lines|
  {
    if lines != [] {
      SplitLinesCons(lines[0], JoinLines(lines[1..]));
      SplitJoin(lines[1..]);
    }
  }

  /** A last line without a terminating newline is still a line of its own. */
  lemma {:induction false} SplitUnterminated(lines: seq<string>, last: string)
    requires forall k :: 0 <= k < |lines| ==> NoBreak(lines[k])
    requires NoBreak(last) && last != []
    ensures SplitLines(JoinLines(lines) + last) == lines + [last]
    decreases |lines|
  {
    if lines == [] {
      assert JoinLines(lines) + last == last;
      assert LineEnd(last, 0) == |last|;
    } else {
      assert JoinLines(lines) + last == lines[0] + "\n" + (JoinLines(lines[1..]) + last);
      SplitLinesCons(lines[0], JoinLines(lines[1..]) + last);
      SplitUnterminated(lines[1..], last);
      assert lines == [lines[0]] + lines[1..];
    }
  }
}
