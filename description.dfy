/**
 * The paragraphs of a record's description in the detail dialog of
 * pages/index.tsx (lines 199-201): runs of newlines collapse into one, and
 * the text is split at each newline.
 */
module Description {
  import opened Basics
  import opened JsString

  const Newline: string := "\n"

  /** No two newlines next to each other. */
  predicate NoNewlineRun(t: string)
  {
    forall i :: 0 <= i < |t| - 1 ==> !(t[i] == '\n' && t[i + 1] == '\n')
  }

  /** `n` newlines. */
  function NewlineRun(n: nat): string
  {
    if n == 0 then "" else Newline + NewlineRun(n - 1)
  }

  /** The text after a run of leading newlines. */
  function SkipNewlines(s: string): (t: string)
    ensures |t| <= |s|
    ensures |t| > 0 ==> t[0] != '\n'
  {
    if |s| > 0 && s[0] == '\n' then SkipNewlines(s[1..]) else s
  }

  /** A text is its run of leading newlines followed by what `SkipNewlines` leaves. */
  lemma {:induction false} SkipNewlinesSplits(s: string)
    ensures s == NewlineRun(|s| - |SkipNewlines(s)|) + SkipNewlines(s)
  {
    if |s| > 0 && s[0] == '\n' {
      SkipNewlinesSplits(s[1..]);
      assert s == Newline + s[1..];
    } else {
      assert NewlineRun(0) + s == s;
    }
  }

  /**
   * `replaceAll(/\n+/g, "\n")`, read left to right: a newline and the
   * newlines right after it become one newline; every other character is kept.
   */
  function CollapseNewlines(s: string): (t: string)
    ensures |t| <= |s|
    decreases |s|
  {
    if |s| == 0 then ""
    else if s[0] == '\n' then Newline + CollapseNewlines(SkipNewlines(s[1..]))
    else [s[0]] + CollapseNewlines(s[1..])
  }

  lemma NoRunCons(c: char, u: string)
    requires NoNewlineRun(u) && (c != '\n' || |u| == 0 || u[0] != '\n')
    ensures NoNewlineRun([c] + u)
  {
    var t := [c] + u;
    forall i | 0 <= i < |t| - 1
      ensures !(t[i] == '\n' && t[i + 1] == '\n')
    {
      if i > 0 {
        assert t[i] == u[i - 1] && t[i + 1] == u[i];
      }
    }
  }

  /** The collapsed text has no two newlines in a row, and starts as the text does. */
  lemma {:induction false} CollapseHasNoRun(s: string)
    ensures NoNewlineRun(CollapseNewlines(s))
    ensures |s| > 0 ==> |CollapseNewlines(s)| > 0 && CollapseNewlines(s)[0] == s[0]
    decreases |s|
  {
    if |s| > 0 {
      if s[0] == '\n' {
        var rest := SkipNewlines(s[1..]);
        CollapseHasNoRun(rest);
        NoRunCons('\n', CollapseNewlines(rest));
        assert CollapseNewlines(s) == ['\n'] + CollapseNewlines(rest);
      } else {
        CollapseHasNoRun(s[1..]);
        NoRunCons(s[0], CollapseNewlines(s[1..]));
      }
    }
  }

  /** `.split("\n")`. */
  function Lines(s: string): (lines: seq<string>)
    ensures |lines| >= 1
    ensures forall k :: 0 <= k < |lines| ==> Free(lines[k], Newline)
  {
    Split(s, Newline)
  }

  /** The paragraphs the dialog shows for a description. */
  function DescriptionLines(description: string): (lines: seq<string>)
    ensures |lines| >= 1
    ensures forall k :: 0 <= k < |lines| ==> Free(lines[k], Newline)
  {
    Lines(CollapseNewlines(description))
  }

  /** The lines after the first: the blank ones dropped, but the last line always kept. */
  function KeepTail(lines: seq<string>): (kept: seq<string>)
    ensures |lines| > 0 ==> |kept| > 0 && kept[|kept| - 1] == lines[|lines| - 1]
    ensures forall k :: 0 <= k < |kept| - 1 ==> kept[k] != ""
  {
    if |lines| <= 1 then lines
    else (if lines[0] == "" then [] else [lines[0]]) + KeepTail(lines[1..])
  }

  /** The lines with every blank line between the first and the last dropped. */
  function DropInteriorBlanks(lines: seq<string>): seq<string>
    requires |lines| >= 1
  {
    [lines[0]] + KeepTail(lines[1..])
  }

  /** `n` empty lines. */
  function Blanks(n: nat): (b: seq<string>)
    ensures |b| == n
  {
    if n == 0 then [] else [""] + Blanks(n - 1)
  }

  /** A list that starts with a non-empty line, or has a single line, keeps its first line. */
  lemma KeepTailKeepsFirst(rest: seq<string>)
    requires |rest| >= 1 && (|rest| == 1 || rest[0] != "")
    ensures KeepTail(rest) == DropInteriorBlanks(rest)
  {
    if |rest| == 1 {
      assert rest[1..] == [];
    }
  }

  /** A leading blank line is dropped. */
  lemma KeepTailDropsBlank(n: nat, rest: seq<string>)
    requires n > 0 && |rest| >= 1
    ensures KeepTail(Blanks(n) + rest) == KeepTail(Blanks(n - 1) + rest)
  {
    var tail := Blanks(n) + rest;
    assert tail[0] == "" && tail[1..] == Blanks(n - 1) + rest;
  }

  /** Blank lines in front of a list that starts with a non-empty line vanish. */
  lemma {:induction false} KeepTailAfterBlanks(n: nat, rest: seq<string>)
    requires |rest| >= 1 && (|rest| == 1 || rest[0] != "")
    ensures KeepTail(Blanks(n) + rest) == DropInteriorBlanks(rest)
  {
    if n == 0 {
      assert Blanks(n) + rest == rest;
      KeepTailKeepsFirst(rest);
    } else {
      KeepTailDropsBlank(n, rest);
      KeepTailAfterBlanks(n - 1, rest);
    }
  }

  /** Blank lines between a first line and a list starting with a non-empty line vanish. */
  lemma DropBlanksBefore(a: string, n: nat, rest: seq<string>)
    requires |rest| >= 1 && (|rest| == 1 || rest[0] != "")
    ensures DropInteriorBlanks([a] + Blanks(n) + rest) == [a] + DropInteriorBlanks(rest)
  {
    var all := [a] + Blanks(n) + rest;
    assert all[0] == a && all[1..] == Blanks(n) + rest;
    KeepTailAfterBlanks(n, rest);
  }

  /** A text free of the newline separator holds no newline character. */
  lemma FreeHasNoNewline(a: string)
    requires Free(a, Newline)
    ensures forall k :: 0 <= k < |a| ==> a[k] != '\n'
  {
    forall k | 0 <= k < |a|
      ensures a[k] != '\n'
    {
      assert !OccursAt(a, Newline, k);
      assert a[k..k + 1] == [a[k]];
    }
  }

  /** Characters other than newlines pass through unchanged. */
  lemma {:induction false} CollapseAfterText(a: string, x: string)
    requires forall k :: 0 <= k < |a| ==> a[k] != '\n'
    ensures CollapseNewlines(a + x) == a + CollapseNewlines(x)
    decreases |a|
  {
    if |a| > 0 {
      var tail := a[1..];
      CollapseAfterText(tail, x);
      var ax := a + x;
      assert ax[0] == a[0] && ax[1..] == tail + x;
      assert a == [a[0]] + tail;
    } else {
      assert a + x == x;
    }
  }

  /** The collapse of a text at its first newline. */
  lemma CollapseAtFirstNewline(s: string, i: nat)
    requires IndexOf(s, Newline) == Some(i)
    ensures CollapseNewlines(s) == s[..i] + Newline + CollapseNewlines(SkipNewlines(s[i + 1..]))
  {
    var a, b := s[..i], s[i + 1..];
    assert s[i..i + 1] == Newline;
    assert s == a + (Newline + b);
    FreeHasNoNewline(a);
    CollapseAfterText(a, Newline + b);
    var nb := Newline + b;
    assert nb[0] == '\n' && nb[1..] == b;
  }

  lemma NewlineRunStep(n: nat, rest: string)
    requires n > 0
    ensures NewlineRun(n) + rest == "" + Newline + (NewlineRun(n - 1) + rest)
  {
  }

  lemma BlanksStep(n: nat, lines: seq<string>)
    requires n > 0
    ensures Blanks(n) + lines == [""] + (Blanks(n - 1) + lines)
  {
  }

  /** Each leading newline starts with an empty line. */
  lemma {:induction false} LinesAfterBlanks(n: nat, rest: string)
    ensures Lines(NewlineRun(n) + rest) == Blanks(n) + Lines(rest)
  {
    if n > 0 {
      var after := NewlineRun(n - 1) + rest;
      LinesAfterBlanks(n - 1, rest);
      NewlineRunStep(n, rest);
      assert Free("", Newline);
      SplitAfterFirst("", Newline, after);
      BlanksStep(n, Lines(rest));
    } else {
      assert NewlineRun(n) + rest == rest;
    }
  }

  /** The lines of a text at its first newline. */
  lemma LinesAtFirstNewline(s: string, i: nat)
    requires IndexOf(s, Newline) == Some(i)
    ensures var rest := SkipNewlines(s[i + 1..]);
            Lines(s) == [s[..i]] + Blanks(|s[i + 1..]| - |rest|) + Lines(rest)
  {
    var a, b := s[..i], s[i + 1..];
    assert s[i..i + 1] == Newline;
    assert s == a + Newline + b;
    SplitAfterFirst(a, Newline, b);
    var rest := SkipNewlines(b);
    SkipNewlinesSplits(b);
    LinesAfterBlanks(|b| - |rest|, rest);
  }

  /** A text that does not start with a newline has a non-empty first line. */
  lemma FirstLineNotBlank(s: string)
    requires |s| > 0 && s[0] != '\n'
    ensures Lines(s)[0] != ""
  {
    match IndexOf(s, Newline)
    case None =>
      SplitFree(s, Newline);
    case Some(i) =>
      SplitFound(s, Newline, i);
      assert s[0..1] == [s[0]];
      assert i != 0;
  }

  /**
   * Collapsing newline runs drops exactly the blank lines between the first
   * and the last line: the dialog's paragraphs are the description's lines,
   * without the empty ones in the middle.
   */
  lemma {:induction false} CollapseDropsBlankLines(s: string)
    ensures Lines(CollapseNewlines(s)) == DropInteriorBlanks(Lines(s))
    decreases |s|
  {
    match IndexOf(s, Newline)
    case None =>
      FreeHasNoNewline(s);
      CollapseAfterText(s, "");
      assert s + "" == s;
      SplitFree(s, Newline);
    case Some(i) =>
      var a, rest := s[..i], SkipNewlines(s[i + 1..]);
      var n := |s[i + 1..]| - |rest|;
      CollapseAtFirstNewline(s, i);
      SplitAfterFirst(a, Newline, CollapseNewlines(rest));
      CollapseDropsBlankLines(rest);
      LinesAtFirstNewline(s, i);
      if |rest| > 0 {
        FirstLineNotBlank(rest);
      } else {
        SplitFree(rest, Newline);
      }
      DropBlanksBefore(a, n, Lines(rest));
  }

  /** Every paragraph but the first and the last has some text. */
  lemma InteriorParagraphsNotEmpty(description: string, k: nat)
    requires 0 < k < |DescriptionLines(description)| - 1
    ensures DescriptionLines(description)[k] != ""
  {
    CollapseDropsBlankLines(description);
    var lines := Lines(description);
    assert DescriptionLines(description)[k] == KeepTail(lines[1..])[k - 1];
  }

  /** Joining the paragraphs with newlines gives back the collapsed description. */
  lemma ParagraphsRejoin(description: string)
    ensures Join(DescriptionLines(description), Newline) == CollapseNewlines(description)
  {
    JoinSplit(CollapseNewlines(description), Newline);
  }

  /** A description without newline runs is left as it is. */
  lemma {:induction false} CollapseKeepsRunFree(s: string)
    requires NoNewlineRun(s)
    ensures CollapseNewlines(s) == s
    decreases |s|
  {
    if |s| > 0 {
      var tail := s[1..];
      assert NoNewlineRun(tail) by {
        forall i | 0 <= i < |tail| - 1
          ensures !(tail[i] == '\n' && tail[i + 1] == '\n')
        {
          assert tail[i] == s[i + 1] && tail[i + 1] == s[i + 2];
        }
      }
      CollapseKeepsRunFree(tail);
      if s[0] == '\n' {
        assert |tail| > 0 ==> tail[0] != '\n';
        assert SkipNewlines(tail) == tail;
        assert s == Newline + tail;
      } else {
        assert s == [s[0]] + tail;
      }
    }
  }

  /** Collapsing twice is collapsing once. */
  lemma CollapseIdempotent(s: string)
    ensures CollapseNewlines(CollapseNewlines(s)) == CollapseNewlines(s)
  {
    CollapseHasNoRun(s);
    CollapseKeepsRunFree(CollapseNewlines(s));
  }
}
