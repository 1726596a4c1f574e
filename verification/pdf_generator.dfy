/** The parts of `utils/pdfGenerator.js` that are logic rather than rendering:
    where the artifact is written and how the decimal result is broken into
    70-character lines before it is laid out. */
module PdfGenerator {

  /** Width of one line of the formatted result. */
  const LINE_WIDTH: nat := 70

  /** `path.join(resultsDir, `${jobId}.pdf`)`, relative to the project root. */
  function OutputPath(jobId: string): (p: string)
    ensures |p| == |jobId| + 12
    ensures p[..8] == "results/" && p[|p| - 4..] == ".pdf"
    ensures p[8..|p| - 4] == jobId
  {
    "results/" + jobId + ".pdf"
  }

  /** Each job gets its own artifact: distinct ids never share a file. */
  lemma OutputPathInjective(a: string, b: string)
    ensures OutputPath(a) == OutputPath(b) ==> a == b
  {
    if OutputPath(a) == OutputPath(b) {
      var p := OutputPath(a);
      assert a == p[8..|p| - 4];
    }
  }

  predicate NoNewline(s: string) {
    forall i :: 0 <= i < |s| ==> s[i] != '\n'
  }

  /** The reference reading of the formatting loop: full 70-character chunks,
      each followed by a newline, then whatever is left. */
  function Wrap(s: string): string
    decreases |s|
  {
    if |s| < LINE_WIDTH then s else s[..LINE_WIDTH] + "\n" + Wrap(s[LINE_WIDTH..])
  }

  /** Removes every newline: the inverse of the formatting. */
  function Strip(s: string): string
    decreases |s|
  {
    if |s| == 0 then ""
    else (if s[0] == '\n' then "" else [s[0]]) + Strip(s[1..])
  }

  lemma {:induction false} StripAppend(a: string, b: string)
    ensures Strip(a + b) == Strip(a) + Strip(b)
    decreases |a|
  {
    if |a| == 0 {
      assert a + b == b;
    } else {
      assert (a + b)[1..] == a[1..] + b;
      StripAppend(a[1..], b);
    }
  }

  lemma {:induction false} StripNoNewline(s: string)
    requires NoNewline(s)
    ensures Strip(s) == s
    decreases |s|
  {
    if |s| > 0 {
      StripNoNewline(s[1..]);
      assert [s[0]] + s[1..] == s;
    }
  }

  /** Stripping one formatted line: the line's characters survive and its
      newline goes. */
  lemma StripNewlineFirst(tail: string)
    ensures Strip("\n" + tail) == Strip(tail)
  {
    var nt := "\n" + tail;
    assert nt[0] == '\n' && nt[1..] == tail;
  }

  lemma StripLine(head: string, tail: string)
    requires NoNewline(head)
    ensures Strip(head + "\n" + tail) == head + Strip(tail)
  {
    var nt := "\n" + tail;
    assert head + "\n" + tail == head + nt;
    StripAppend(head, nt);
    assert Strip(head + nt) == Strip(head) + Strip(nt);
    StripNoNewline(head);
    StripNewlineFirst(tail);
    assert Strip(nt) == Strip(tail);
  }

  /** Removing the inserted newlines gives back the original digits. */
  lemma {:induction false} StripWrap(s: string)
    requires NoNewline(s)
    ensures Strip(Wrap(s)) == s
    decreases |s|
  {
    if |s| < LINE_WIDTH {
      StripNoNewline(s);
    } else {
      var head := s[..LINE_WIDTH];
      var rest := s[LINE_WIDTH..];
      StripLine(head, Wrap(rest));
      StripWrap(rest);
      assert head + rest == s;
    }
  }

  /** One newline per complete line: `len + ⌊len / 70⌋` characters in all. */
  lemma {:induction false} WrapLength(s: string)
    ensures |Wrap(s)| == |s| + |s| / LINE_WIDTH
    decreases |s|
  {
    if |s| >= LINE_WIDTH {
      WrapLength(s[LINE_WIDTH..]);
      assert (|s| - LINE_WIDTH) / LINE_WIDTH == |s| / LINE_WIDTH - 1;
    }
  }

  /** Moving one full line (71 output positions) along keeps the column
      and adds one to the line number. */
  lemma NextLine(i: int, j: nat)
    requires i == j + (LINE_WIDTH + 1)
    ensures i % (LINE_WIDTH + 1) == j % (LINE_WIDTH + 1)
    ensures i / (LINE_WIDTH + 1) == j / (LINE_WIDTH + 1) + 1
  {
  }

  /** Positions on the first line are their own column. */
  lemma FirstLine(i: nat)
    requires i < LINE_WIDTH + 1
    ensures i % (LINE_WIDTH + 1) == i && i / (LINE_WIDTH + 1) == 0
  {
  }

  /** One position of the output: a newline exactly at every 71st place,
      otherwise the input character shifted right by the breaks before it. */
  lemma {:induction false} WrapAt(s: string, i: nat)
    requires NoNewline(s)
    requires i < |Wrap(s)|
    ensures Wrap(s)[i] == '\n' <==> i % (LINE_WIDTH + 1) == LINE_WIDTH
    ensures i % (LINE_WIDTH + 1) != LINE_WIDTH ==>
      i - i / (LINE_WIDTH + 1) < |s| && Wrap(s)[i] == s[i - i / (LINE_WIDTH + 1)]
    decreases |s|
  {
    if |s| < LINE_WIDTH {
      assert Wrap(s) == s;
      FirstLine(i);
    } else {
      var rest := s[LINE_WIDTH..];
      var w := Wrap(s);
      assert w == s[..LINE_WIDTH] + "\n" + Wrap(rest);
      if i <= LINE_WIDTH {
        FirstLine(i);
      } else {
        var j: nat := i - (LINE_WIDTH + 1);
        assert w[i] == Wrap(rest)[j];
        WrapAt(rest, j);
        NextLine(i, j);
      }
    }
  }

  /** Where the newlines are: exactly at every 71st position of the output,
      so every break follows exactly 70 characters of the input and the last
      line holds at most 70; every other position holds the input character
      it was shifted to. */
  lemma {:induction false} WrapPositions(s: string)
    requires NoNewline(s)
    ensures forall i :: 0 <= i < |Wrap(s)| ==>
      && (Wrap(s)[i] == '\n' <==> i % (LINE_WIDTH + 1) == LINE_WIDTH)
      && (i % (LINE_WIDTH + 1) != LINE_WIDTH ==>
           i - i / (LINE_WIDTH + 1) < |s| && Wrap(s)[i] == s[i - i / (LINE_WIDTH + 1)])
  {
    forall i | 0 <= i < |Wrap(s)|
      ensures Wrap(s)[i] == '\n' <==> i % (LINE_WIDTH + 1) == LINE_WIDTH
      ensures i % (LINE_WIDTH + 1) != LINE_WIDTH ==>
        i - i / (LINE_WIDTH + 1) < |s| && Wrap(s)[i] == s[i - i / (LINE_WIDTH + 1)]
    {
      WrapAt(s, i);
    }
  }

  /** Dropping one full line does not change where a position falls in its line. */
  lemma SameColumn(k: int)
    requires k >= LINE_WIDTH
    ensures (k - LINE_WIDTH) % LINE_WIDTH == k % LINE_WIDTH
  {
  }

  /** Appending one character to the input appends it to the output, then a
      newline when it completes a line. This is one turn of the loop. */
  lemma {:induction false} WrapSnoc(p: string, c: char)
    ensures Wrap(p + [c]) == Wrap(p) + [c] + (if (|p| + 1) % LINE_WIDTH == 0 then "\n" else "")
    decreases |p|
  {
    if |p| + 1 < LINE_WIDTH {
    } else if |p| + 1 == LINE_WIDTH {
      assert (p + [c])[..LINE_WIDTH] == p + [c];
      assert (p + [c])[LINE_WIDTH..] == [];
    } else {
      assert (p + [c])[..LINE_WIDTH] == p[..LINE_WIDTH];
      assert (p + [c])[LINE_WIDTH..] == p[LINE_WIDTH..] + [c];
      WrapSnoc(p[LINE_WIDTH..], c);
      SameColumn(|p| + 1);
    }
  }

  /** The formatting loop: each character is copied, and a newline follows
      every character whose 1-based position is a multiple of 70. It builds
      exactly the reference wrapping, so `WrapLength`, `StripWrap` and
      `WrapPositions` describe its output. */
  method FormatResult(resultStr: string) returns (formatted: string)
    ensures formatted == Wrap(resultStr)
  {
    formatted := "";
    var i := 0;
    while i < |resultStr|
      invariant 0 <= i <= |resultStr|
      invariant formatted == Wrap(resultStr[..i])
    {
      WrapSnoc(resultStr[..i], resultStr[i]);
      assert resultStr[..i + 1] == resultStr[..i] + [resultStr[i]];
      formatted := formatted + [resultStr[i]];
      if (i + 1) % LINE_WIDTH == 0 {
        formatted := formatted + "\n";
      }
      i := i + 1;
    }
    assert resultStr[..i] == resultStr;
  }
}
