/** One line of a crontab: five time fields, or an @-descriptor, and a command. */
module CrontabLine {
  import opened Domain
  import opened Text

  /** White space as the squeezing pattern sees it; a vertical tab, for one, is not in it. */
  predicate IsGap(c: char) {
    var u := c as int;
    u == 9 || u == 10 || u == 12 || u == 13 || u == 32 || u == 0xA0 || u == 0x1680 || 0x2000 <= u <= 0x200A
    || u == 0x202F || u == 0x205F || u == 0x3000
  }

  lemma GapsAreSpace(c: char)
    ensures IsGap(c) ==> IsSpace(c)
  {
  }

  /** The four white space characters that are trimmed but not squeezed: vertical tab, next line, line and paragraph
      separator. */
  lemma SpacesThatAreNoGaps(c: char)
    ensures IsSpace(c) && !IsGap(c) <==> c == '\U{B}' || c == '\U{85}' || c == '\U{2028}' || c == '\U{2029}'
    ensures c == ' ' || c == '\t' || c == '\n' || c == '\r' || c == '\U{A0}' || c == '\U{3000}' ==> IsGap(c)
    ensures '!' <= c <= '~' ==> !IsSpace(c)
  {
  }

  /** The line up to the first " #". */
  function CutComment(line: string): string {
    if |line| < 2 then line
    else if line[0] == ' ' && line[1] == '#' then ""
    else [line[0]] + CutComment(line[1..])
  }

  function TabsToSpaces(s: string): string {
    seq(|s|, i requires 0 <= i < |s| => if s[i] == '\t' then ' ' else s[i])
  }

  /** Every longest run of two or more gap characters becomes one space; afterGap says whether the character before
      is a gap. */
  function Squeeze(afterGap: bool, s: string): string
    decreases s
  {
    if s == "" then ""
    else if !IsGap(s[0]) then [s[0]] + Squeeze(false, s[1..])
    else if afterGap then Squeeze(true, s[1..])
    else if |s| > 1 && IsGap(s[1]) then " " + Squeeze(true, s[1..])
    else [s[0]] + Squeeze(true, s[1..])
  }

  function Normal(line: string): string {
    Squeeze(false, TabsToSpaces(Trim(CutComment(line))))
  }

  datatype Job = Job(spec: string, command: string)

  /** The line's elements as a job: None for too few of them. */
  function JobOf(elems: seq<string>): Option<Job> {
    if |elems| < 2 then None
    else if elems[0] == "@every" && |elems| >= 3 then Some(Job(Join(elems[..2], ' '), Join(elems[2..], ' ')))
    else if HasPrefix(elems[0], "@") then Some(Job(elems[0], Join(elems[1..], ' ')))
    else if |elems| < 6 then None
    else Some(Job(Join(elems[..5], ' '), Join(elems[5..], ' ')))
  }

  function Parse(line: string): Option<Job> {
    if HasPrefix(Trim(line), "#") then None else JobOf(Split(Normal(line), ' '))
  }

  // ----- what normalising does -----

  ghost predicate HasComment(s: string) {
    exists i :: 0 <= i < |s| - 1 && s[i] == ' ' && s[i + 1] == '#'
  }

  lemma HasCommentCons(c: char, s: string)
    ensures HasComment([c] + s) <==> (c == ' ' && s != "" && s[0] == '#') || HasComment(s)
  {
    var t := [c] + s;
    if i :| 0 <= i < |s| - 1 && s[i] == ' ' && s[i + 1] == '#' {
      assert t[i + 1] == ' ' && t[i + 2] == '#';
    }
    if i :| 0 <= i < |t| - 1 && t[i] == ' ' && t[i + 1] == '#' {
      if i > 0 {
        assert s[i - 1] == ' ' && s[i] == '#';
      }
    }
    if c == ' ' && s != "" && s[0] == '#' {
      assert t[0] == ' ' && t[1] == '#';
    }
  }

  /** The cut leaves a prefix without a comment; it takes something away exactly when there is one, and then from its
      space on. */
  lemma {:induction false} CutCommentCuts(s: string)
    ensures CutComment(s) <= s && !HasComment(CutComment(s))
    ensures CutComment(s) == s <==> !HasComment(s)
    ensures CutComment(s) != s ==> CutComment(s) + " #" <= s
  {
    if |s| >= 2 {
      assert s == [s[0]] + s[1..];
      HasCommentCons(s[0], s[1..]);
      if !(s[0] == ' ' && s[1] == '#') {
        CutCommentCuts(s[1..]);
        HasCommentCons(s[0], CutComment(s[1..]));
      }
    }
  }

  predicate NoTabs(s: string) {
    '\t' !in s
  }

  lemma TabsToSpacesIs(s: string)
    ensures |TabsToSpaces(s)| == |s| && NoTabs(TabsToSpaces(s))
    ensures forall i :: 0 <= i < |s| ==> TabsToSpaces(s)[i] == s[i] || (s[i] == '\t' && TabsToSpaces(s)[i] == ' ')
    ensures NoTabs(s) ==> TabsToSpaces(s) == s
  {
  }

  /** No two gap characters side by side. */
  ghost predicate SingleGaps(s: string) {
    forall i :: 0 < i < |s| ==> !(IsGap(s[i - 1]) && IsGap(s[i]))
  }

  lemma SingleGapsCons(c: char, s: string)
    requires SingleGaps(s) && (IsGap(c) && s != "" ==> !IsGap(s[0]))
    ensures SingleGaps([c] + s)
  {
  }

  /** What Squeeze puts out starts with a gap only if it was not called after one. */
  lemma {:induction false} SqueezeSingles(afterGap: bool, s: string)
    ensures SingleGaps(Squeeze(afterGap, s)) && |Squeeze(afterGap, s)| <= |s|
    ensures afterGap && Squeeze(afterGap, s) != "" ==> !IsGap(Squeeze(afterGap, s)[0])
    ensures NoTabs(s) ==> NoTabs(Squeeze(afterGap, s))
    decreases s
  {
    if s != "" {
      assert s == [s[0]] + s[1..];
      SqueezeSingles(IsGap(s[0]), s[1..]);
      var rest := Squeeze(IsGap(s[0]), s[1..]);
      if !IsGap(s[0]) || !afterGap {
        SingleGapsCons(Squeeze(afterGap, s)[0], rest);
      }
    }
  }

  /** A string with single gaps is left as it is. */
  lemma {:induction false} SqueezeKeepsSingles(afterGap: bool, s: string)
    requires SingleGaps(s) && (afterGap && s != "" ==> !IsGap(s[0]))
    ensures Squeeze(afterGap, s) == s
    decreases s
  {
    if s != "" {
      assert s == [s[0]] + s[1..];
      SqueezeKeepsSingles(IsGap(s[0]), s[1..]);
    }
  }

  /** The ends of a string that starts and ends with no gap stay in place. */
  lemma {:induction false} SqueezeKeepsEnds(afterGap: bool, s: string)
    requires s != "" && !IsGap(s[|s| - 1])
    ensures Squeeze(afterGap, s) != "" && Squeeze(afterGap, s)[|Squeeze(afterGap, s)| - 1] == s[|s| - 1]
    ensures !IsGap(s[0]) ==> Squeeze(afterGap, s)[0] == s[0]
    decreases s
  {
    if |s| > 1 {
      SqueezeKeepsEnds(IsGap(s[0]), s[1..]);
    }
  }

  /** How many gap characters a string starts with. */
  function GapRun(s: string): (k: nat)
    ensures k <= |s| && (forall i :: 0 <= i < k ==> IsGap(s[i])) && (k < |s| ==> !IsGap(s[k]))
  {
    if s != "" && IsGap(s[0]) then 1 + GapRun(s[1..]) else 0
  }

  lemma {:induction false} SqueezeSkipsRun(s: string)
    ensures Squeeze(true, s) == Squeeze(false, s[GapRun(s)..])
  {
    if s != "" && IsGap(s[0]) {
      SqueezeSkipsRun(s[1..]);
      assert s[1..][GapRun(s[1..])..] == s[GapRun(s)..];
    } else {
      assert s[0..] == s;
    }
  }

  /** A run of gaps at the start: one stays as it is, more become a space. */
  lemma SqueezeRun(s: string)
    requires s != "" && IsGap(s[0])
    ensures Squeeze(false, s) == [if GapRun(s) == 1 then s[0] else ' '] + Squeeze(false, s[GapRun(s)..])
  {
    SqueezeSkipsRun(s[1..]);
    assert s[1..][GapRun(s[1..])..] == s[GapRun(s)..];
  }

  /** A '#' that squeezing puts behind a space: one after a space, or after two gap characters. */
  predicate HashAfterGap(s: string, i: nat) {
    0 < i < |s| && s[i] == '#' && IsGap(s[i - 1]) && (s[i - 1] == ' ' || (i >= 2 && IsGap(s[i - 2])))
  }

  ghost predicate HidesComment(s: string) {
    exists i: nat :: HashAfterGap(s, i)
  }

  lemma HashAfterGapShifts(s: string, d: nat, i: nat)
    requires 0 < d <= |s| && i != d
    requires if IsGap(s[0]) then d == GapRun(s) else d == 1
    ensures HashAfterGap(s, i) <==> i > d && HashAfterGap(s[d..], i - d)
  {
    if d < i < |s| {
      var t := s[d..];
      assert t[i - d] == s[i] && t[i - d - 1] == s[i - 1];
      assert i - d >= 2 ==> t[i - d - 2] == s[i - 2];
    }
  }

  lemma HidesCommentFrom(s: string, d: nat)
    requires 0 < d <= |s|
    requires if IsGap(s[0]) then d == GapRun(s) else d == 1
    ensures HidesComment(s) <==> HashAfterGap(s, d) || HidesComment(s[d..])
  {
    if i: nat :| HashAfterGap(s, i) {
      if i != d {
        HashAfterGapShifts(s, d, i);
      }
    }
    if j: nat :| HashAfterGap(s[d..], j) {
      HashAfterGapShifts(s, d, j + d);
    }
  }

  lemma {:induction false} SqueezeHides(s: string)
    ensures HasComment(Squeeze(false, s)) <==> HidesComment(s)
  {
    if s != "" {
      var d := if IsGap(s[0]) then GapRun(s) else 1;
      var rest := s[d..];
      HidesCommentFrom(s, d);
      SqueezeHides(rest);
      if IsGap(s[0]) {
        SqueezeRun(s);
        HasCommentCons(if d == 1 then s[0] else ' ', Squeeze(false, rest));
      } else {
        HasCommentCons(s[0], Squeeze(false, rest));
      }
    }
  }
}
