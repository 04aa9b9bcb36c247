/** Text helpers shared by the player (a2s) and the encoder (m2a): decimal
    digit strings, the frame-rate header literal, and the line structure that
    `std::getline` imposes on a file. */
module Text {

  /** The literal that opens the frame-rate header of an ASCII video file. */
  const FpsPrefix: string := "# FPS: "

  predicate IsDigit(c: char) {
    '0' <= c <= '9'
  }

  /** The character class `[0-9]+`: one or more decimal digits, nothing else. */
  predicate IsNumeric(s: string) {
    |s| > 0 && forall i :: 0 <= i < |s| ==> IsDigit(s[i])
  }

  function DigitValue(c: char): nat
    requires IsDigit(c)
  {
    c as int - '0' as int
  }

  /** The number a string of decimal digits denotes (most significant first). */
  function DigitsValue(s: string): nat
    requires forall i :: 0 <= i < |s| ==> IsDigit(s[i])
    decreases |s|
  {
    if |s| == 0 then 0 else 10 * DigitsValue(s[..|s| - 1]) + DigitValue(s[|s| - 1])
  }

  /** A numeral as `std::to_string` writes a non-negative number: digits
      only, and no leading zero unless the number is 0 itself. */
  predicate Canonical(s: string) {
    IsNumeric(s) && (|s| == 1 || s[0] != '0')
  }

  /** A numeral whose first digit is not 0 denotes a positive number. */
  lemma {:induction false} LeadingDigitPositive(s: string)
    requires IsNumeric(s) && s[0] != '0'
    ensures DigitsValue(s) > 0
    decreases |s|
  {
    if |s| == 1 {
      assert s[..0] == [];
      assert DigitsValue(s) == 10 * DigitsValue(s[..0]) + DigitValue(s[0]);
    } else {
      var p := s[..|s| - 1];
      assert p[0] == s[0];
      assert IsNumeric(p);
      LeadingDigitPositive(p);
    }
  }

  predicate NoNewline(s: string) {
    forall i :: 0 <= i < |s| ==> s[i] != '\n'
  }

  /** Every line is terminated by one newline, as a writer that emits
      `line + "\n"` for each line produces. */
  function JoinLines(ls: seq<string>): string
    decreases |ls|
  {
    if |ls| == 0 then "" else ls[0] + "\n" + JoinLines(ls[1..])
  }

  /** Index of the first newline of `s`, or `|s|` when there is none. */
  function LineEnd(s: string): (k: nat)
    ensures k <= |s|
    ensures forall i :: 0 <= i < k ==> s[i] != '\n'
    ensures k < |s| ==> s[k] == '\n'
    decreases |s|
  {
    if |s| == 0 || s[0] == '\n' then 0 else 1 + LineEnd(s[1..])
  }

  /** The lines successive `std::getline` calls return for a stream holding
      `s`: each newline ends a line and is dropped; a last line without a
      newline is still returned; a trailing newline does not start an extra
      empty line, and an empty stream has no lines at all. */
  function Lines(s: string): (ls: seq<string>)
    ensures forall i :: 0 <= i < |ls| ==> NoNewline(ls[i])
    decreases |s|
  {
    if |s| == 0 then []
    else
      var k := LineEnd(s);
      if k == |s| then [s] else [s[..k]] + Lines(s[k + 1..])
  }

  lemma JoinLinesAppend(a: seq<string>, b: seq<string>)
    ensures JoinLines(a + b) == JoinLines(a) + JoinLines(b)
    decreases |a|
  {
    if |a| > 0 {
      assert (a + b)[1..] == a[1..] + b;
      JoinLinesAppend(a[1..], b);
    } else {
      assert a + b == b;
    }
  }

  /** A joined text is empty exactly when there were no lines. */
  lemma JoinLinesEmpty(ls: seq<string>)
    ensures |JoinLines(ls)| == 0 <==> |ls| == 0
  {
  }

  lemma {:induction false} LineEndAt(a: string, rest: string)
    requires NoNewline(a)
    ensures LineEnd(a + "\n" + rest) == |a|
    decreases |a|
  {
    var s := a + "\n" + rest;
    if |a| > 0 {
      assert s[0] == a[0];
      assert s[1..] == a[1..] + "\n" + rest;
      LineEndAt(a[1..], rest);
    } else {
      assert s[0] == '\n';
    }
  }

  /** One `getline` step: a text that starts with a whole line splits
      into that line and the lines of the remainder. */
  lemma LinesStep(s: string, head: string, t: string)
    requires NoNewline(head) && s == head + "\n" + t
    ensures Lines(s) == [head] + Lines(t)
  {
    LineEndAt(head, t);
    assert s[..|head|] == head;
    assert s[|head| + 1..] == t;
  }

  /** Splitting a joined text gives back the lines it was joined from. */
  lemma {:induction false} LinesOfJoin(ls: seq<string>)
    requires forall i :: 0 <= i < |ls| ==> NoNewline(ls[i])
    ensures Lines(JoinLines(ls)) == ls
    decreases |ls|
  {
    if |ls| > 0 {
      var head := ls[0];
      var rest := JoinLines(ls[1..]);
      var s := head + "\n" + rest;
      assert JoinLines(ls) == s;
      LinesStep(s, head, rest);
      LinesOfJoin(ls[1..]);
      assert ls == [head] + ls[1..];
    }
  }

  /** Joining the lines of a text restores it, except that a missing final
      newline is supplied. */
  lemma {:induction false} JoinOfLines(s: string)
    ensures JoinLines(Lines(s)) == if |s| == 0 || s[|s| - 1] == '\n' then s else s + "\n"
    decreases |s|
  {
    if |s| > 0 {
      var k := LineEnd(s);
      if k == |s| {
        assert Lines(s) == [s];
        assert JoinLines([s]) == s + "\n" + JoinLines([]);
      } else {
        var head, t := s[..k], s[k + 1..];
        assert s == head + "\n" + t;
        LinesStep(s, head, t);
        assert JoinLines([head] + Lines(t)) == head + "\n" + JoinLines(Lines(t));
        JoinOfLines(t);
        if |t| > 0 {
          assert s[|s| - 1] == t[|t| - 1];
        }
      }
    }
  }
}
