/** The captures of a command's output, which keep its last lines. */
module Capture {
  import opened Domain
  import opened Text

  function NonEmpty(parts: seq<string>): seq<string> {
    if parts == [] then []
    else if parts[0] == "" then NonEmpty(parts[1..])
    else [parts[0]] + NonEmpty(parts[1..])
  }

  /** The lines of one write: what is between its newlines, empty lines left out. */
  function Segments(p: string): seq<string> {
    NonEmpty(Split(p, '\n'))
  }

  function AllSegments(writes: seq<string>): seq<string> {
    if writes == [] then [] else AllSegments(writes[..|writes| - 1]) + Segments(writes[|writes| - 1])
  }

  function Last(n: nat, lines: seq<string>): seq<string> {
    if |lines| <= n then lines else lines[|lines| - n..]
  }

  ghost predicate IsLine(line: string) {
    line != "" && '\n' !in line
  }

  ghost predicate Lines(lines: seq<string>) {
    forall i :: 0 <= i < |lines| ==> IsLine(lines[i])
  }

  class OutputCapture {
    const maxLogLines: nat
    var log: seq<string>

    ghost predicate Valid()
      reads this
    {
      |log| <= maxLogLines && Lines(log)
    }

    constructor (maximum: nat)
      ensures Valid() && maxLogLines == maximum && log == []
    {
      maxLogLines := maximum;
      log := [];
    }

    /** One call takes the lines of p into the log; only the last maxLogLines of old and new stay. */
    method Write(p: string) returns (n: nat)
      requires Valid()
      modifies this`log
      ensures Valid() && n == |p|
      ensures log == Last(maxLogLines, old(log) + Segments(p))
    {
      n := |p|;
      if maxLogLines == 0 {
        return;
      }
      var parts := Split(p, '\n');
      ghost var all := log;
      for i := 0 to |parts|
        invariant log == Last(maxLogLines, all) && Lines(all)
        invariant all == old(log) + NonEmpty(parts[..i])
      {
        NonEmptyGrows(parts, i);
        SplitParts(p, '\n', i);
        if parts[i] == "" {
          continue;
        }
        LastGrows(maxLogLines, all, parts[i]);
        LinesGrow(all, parts[i]);
        all := all + [parts[i]];
        if |log| >= maxLogLines {
          log := log[1..];
        }
        log := log + [parts[i]];
      }
      assert parts[..|parts|] == parts;
      LastAreLines(maxLogLines, all);
    }

    /** The log as one string; cut into lines again, it gives the log back. */
    method GetOutput() returns (output: string)
      requires Valid()
      ensures output == Join(log, '\n') && Segments(output) == log
    {
      output := Join(log, '\n');
      LinesComeBack(log);
    }
  }

  lemma LinesGrow(lines: seq<string>, line: string)
    requires Lines(lines) && IsLine(line)
    ensures Lines(lines + [line])
  {
  }

  lemma LastAreLines(n: nat, lines: seq<string>)
    requires Lines(lines)
    ensures Lines(Last(n, lines)) && |Last(n, lines)| <= n
  {
  }

  lemma NonEmptyGrows(parts: seq<string>, i: nat)
    requires i < |parts|
    ensures NonEmpty(parts[..i + 1]) == NonEmpty(parts[..i]) + if parts[i] == "" then [] else [parts[i]]
  {
    NonEmptyCat(parts[..i], [parts[i]]);
    assert parts[..i + 1] == parts[..i] + [parts[i]];
  }

  lemma {:induction false} NonEmptyCat(a: seq<string>, b: seq<string>)
    ensures NonEmpty(a + b) == NonEmpty(a) + NonEmpty(b)
  {
    if a == [] {
      assert a + b == b;
    } else {
      assert (a + b)[1..] == a[1..] + b;
      NonEmptyCat(a[1..], b);
    }
  }

  lemma {:induction false} NonEmptyKeeps(lines: seq<string>)
    requires Lines(lines)
    ensures NonEmpty(lines) == lines
  {
    if lines != [] {
      assert IsLine(lines[0]);
      assert forall i :: 0 <= i < |lines| - 1 ==> lines[1..][i] == lines[i + 1];
      NonEmptyKeeps(lines[1..]);
      assert lines == [lines[0]] + lines[1..];
    }
  }

  lemma LinesComeBack(lines: seq<string>)
    requires Lines(lines)
    ensures Segments(Join(lines, '\n')) == lines
  {
    if lines != [] {
      assert forall i :: 0 <= i < |lines| ==> IsLine(lines[i]);
      SplitJoin(lines, '\n');
      NonEmptyKeeps(lines);
    }
  }

  // ----- the last lines of all writes -----

  lemma LastGrows(n: nat, lines: seq<string>, line: string)
    requires n > 0
    ensures Last(n, lines + [line]) == (if |Last(n, lines)| >= n then Last(n, lines)[1..] else Last(n, lines)) + [line]
  {
  }

  /** Dropping old lines before more lines come loses nothing that would have stayed. */
  lemma LastOfLast(n: nat, a: seq<string>, b: seq<string>)
    ensures Last(n, Last(n, a) + b) == Last(n, a + b)
  {
  }

  /** The smaller of two captures holds the end of what the larger holds. */
  lemma SmallerIsSuffix(m: nat, n: nat, lines: seq<string>)
    requires m <= n
    ensures |Last(m, lines)| <= |Last(n, lines)|
    ensures Last(m, lines) == Last(n, lines)[|Last(n, lines)| - |Last(m, lines)|..]
  {
  }

  /** Every write of a run goes to both captures: the one for notifications, and the one for the web log unless its
      limit is off. Both end with the last lines of the same output. */
  method CaptureRun(notifyMax: nat, execMax: int, writes: seq<string>) returns (notified: string, web: Option<string>)
    ensures notified == Join(Last(notifyMax, AllSegments(writes)), '\n')
    ensures web == if execMax <= 0 then None else Some(Join(Last(execMax, AllSegments(writes)), '\n'))
  {
    var notify := new OutputCapture(notifyMax);
    var webCapture: OutputCapture? := null;
    if execMax > 0 {
      webCapture := new OutputCapture(execMax);
    }
    for i := 0 to |writes|
      invariant notify.Valid() && notify.log == Last(notifyMax, AllSegments(writes[..i]))
      invariant webCapture != null <==> execMax > 0
      invariant webCapture != null ==> webCapture != notify && webCapture.Valid() && webCapture.maxLogLines == execMax
      invariant webCapture != null ==> webCapture.log == Last(execMax, AllSegments(writes[..i]))
    {
      assert writes[..i + 1][..i] == writes[..i];
      var n := notify.Write(writes[i]);
      LastOfLast(notifyMax, AllSegments(writes[..i]), Segments(writes[i]));
      if webCapture != null {
        n := webCapture.Write(writes[i]);
        LastOfLast(execMax, AllSegments(writes[..i]), Segments(writes[i]));
      }
    }
    assert writes[..|writes|] == writes;
    notified := notify.GetOutput();
    web := None;
    if webCapture != null {
      var output := webCapture.GetOutput();
      web := Some(output);
    }
  }

  // ----- where the output is cut into writes -----

  /** The parts of a and then those of b, the last of a and the first of b made one. */
  function Glue(a: seq<string>, b: seq<string>): seq<string>
    requires a != [] && b != []
  {
    if |a| == 1 then [a[0] + b[0]] + b[1..] else [a[0]] + Glue(a[1..], b)
  }

  lemma {:induction false} SplitCat(p: string, q: string)
    ensures Split(p + q, '\n') == Glue(Split(p, '\n'), Split(q, '\n'))
  {
    var b := Split(q, '\n');
    if p == "" {
      assert p + q == q && "" + b[0] == b[0];
    } else {
      var rest := Split(p[1..], '\n');
      SplitCat(p[1..], q);
      assert (p + q)[1..] == p[1..] + q;
      if p[0] != '\n' {
        GlueChar(p[0], rest, b);
      }
    }
  }

  lemma GlueChar(c: char, a: seq<string>, b: seq<string>)
    requires a != [] && b != []
    ensures Glue([[c] + a[0]] + a[1..], b) == [[c] + Glue(a, b)[0]] + Glue(a, b)[1..]
  {
    var first := [c] + a[0];
    assert ([first] + a[1..])[1..] == a[1..];
    assert first + b[0] == [c] + (a[0] + b[0]);
  }

  lemma {:induction false} LastPart(p: string)
    ensures var a := Split(p, '\n'); a[|a| - 1] == "" <==> p == "" || p[|p| - 1] == '\n'
  {
    if p != "" {
      LastPart(p[1..]);
    }
  }

  /** How many lines gluing costs. */
  lemma {:induction false} GlueCount(a: seq<string>, b: seq<string>)
    requires a != [] && b != []
    ensures |NonEmpty(Glue(a, b))| ==
            |NonEmpty(a)| + |NonEmpty(b)| - if a[|a| - 1] == "" || b[0] == "" then 0 else 1
  {
    if |a| > 1 {
      GlueCount(a[1..], b);
    }
  }

  lemma {:induction false} GlueKeeps(a: seq<string>, b: seq<string>)
    requires a != [] && b != [] && (a[|a| - 1] == "" || b[0] == "")
    ensures NonEmpty(Glue(a, b)) == NonEmpty(a) + NonEmpty(b)
  {
    if |a| > 1 {
      GlueKeeps(a[1..], b);
    } else if a[0] == "" {
      assert a[0] + b[0] == b[0];
      assert [b[0]] + b[1..] == b;
    } else {
      assert a[0] + b[0] == a[0];
    }
  }

  /** Two writes give the lines of one exactly when the cut between them falls on a newline. */
  lemma CutAtLineEndIff(p: string, q: string)
    ensures Segments(p) + Segments(q) == Segments(p + q) <==>
            p == "" || q == "" || p[|p| - 1] == '\n' || q[0] == '\n'
  {
    var a, b := Split(p, '\n'), Split(q, '\n');
    SplitCat(p, q);
    LastPart(p);
    GlueCount(a, b);
    assert b[0] == "" <==> q == "" || q[0] == '\n';
    if b[0] == "" || a[|a| - 1] == "" {
      GlueKeeps(a, b);
    }
  }

  function Concat(writes: seq<string>): string {
    if writes == [] then "" else Concat(writes[..|writes| - 1]) + writes[|writes| - 1]
  }

  /** Writes that end with a newline are captured as the whole output would be. */
  lemma {:induction false} WholeLinesAreCaptured(writes: seq<string>)
    requires forall i :: 0 <= i < |writes| ==> writes[i] != "" && writes[i][|writes[i]| - 1] == '\n'
    ensures AllSegments(writes) == Segments(Concat(writes))
    ensures writes != [] ==> Concat(writes) != "" && Concat(writes)[|Concat(writes)| - 1] == '\n'
  {
    if writes != [] {
      var rest, w := writes[..|writes| - 1], writes[|writes| - 1];
      WholeLinesAreCaptured(rest);
      CutAtLineEndIff(Concat(rest), w);
    }
  }
}
