/** Parsing what parsing gave, re-spacing a line, and printing a structured schedule. */
module CrontabRoundTrips {
  import opened Domain
  import opened Text
  import opened CrontabLine
  import opened FieldValidator

  function Line(j: Job): string {
    j.spec + " " + j.command
  }

  // ----- Parse normalises -----

  lemma JobOfJoins(elems: seq<string>)
    requires JobOf(elems).Some?
    ensures Line(JobOf(elems).value) == Join(elems, ' ')
  {
    var k := if elems[0] == "@every" && |elems| >= 3 then 2 else if HasPrefix(elems[0], "@") then 1 else 5;
    JoinCut(elems, k, ' ');
    assert elems[..1] == [elems[0]];
  }

  /** Spec, space and command of a parsed line are its normal form. */
  lemma ParseGivesNormal(line: string)
    requires Parse(line).Some?
    ensures Line(Parse(line).value) == Normal(line) && Normal(line) != ""
  {
    var elems := Split(Normal(line), ' ');
    JobOfJoins(elems);
    JoinSplit(Normal(line), ' ');
  }

  ghost predicate IsNormal(s: string) {
    IsTrimmed(s) && SingleGaps(s) && NoTabs(s)
  }

  lemma BodyIsTrimmed(line: string)
    ensures IsTrimmed(Trim(CutComment(line))) && !HasComment(Trim(CutComment(line)))
  {
    CutCommentCuts(line);
    var lead, trail := TrimSplits(CutComment(line));
    var body := Trim(CutComment(line));
    forall i | 0 <= i < |body| - 1 ensures !(body[i] == ' ' && body[i + 1] == '#') {
      assert CutComment(line)[|lead| + i] == body[i] && CutComment(line)[|lead| + i + 1] == body[i + 1];
    }
  }

  lemma NormalIsNormal(line: string)
    ensures IsNormal(Normal(line))
    ensures Normal(line) != "" ==> Trim(CutComment(line)) != "" && Normal(line)[0] == Trim(CutComment(line))[0]
  {
    BodyIsTrimmed(line);
    var body := Trim(CutComment(line));
    var t := TabsToSpaces(body);
    TabsToSpacesIs(body);
    SqueezeSingles(false, t);
    if body != "" {
      GapsAreSpace(body[0]);
      GapsAreSpace(body[|body| - 1]);
      SqueezeKeepsEnds(false, t);
    }
  }

  lemma NormalIsNoLonger(line: string)
    ensures |Normal(line)| <= |CutComment(line)|
  {
    TrimIsNoLonger(CutComment(line));
    TabsToSpacesIs(Trim(CutComment(line)));
    SqueezeSingles(false, TabsToSpaces(Trim(CutComment(line))));
  }

  /** Exactly the normal strings without a comment are their own normal form. */
  lemma OwnNormalIff(s: string)
    ensures Normal(s) == s <==> IsNormal(s) && !HasComment(s)
  {
    CutCommentCuts(s);
    NormalIsNormal(s);
    NormalIsNoLonger(s);
    if IsNormal(s) && !HasComment(s) {
      TrimmedStays(s);
      TabsToSpacesIs(s);
      SqueezeKeepsSingles(false, s);
    }
  }

  /** The first character left after trimming does not depend on what is cut off behind it. */
  lemma FirstOfTrim(line: string)
    requires Trim(CutComment(line)) != ""
    ensures Trim(line) != "" && Trim(line)[0] == Trim(CutComment(line))[0]
  {
    CutCommentCuts(line);
    var lead, trail := TrimSplits(CutComment(line));
    var first := |lead|;
    assert CutComment(line)[first] == Trim(CutComment(line))[0];
    assert forall i :: 0 <= i <= first ==> line[i] == CutComment(line)[i];
    assert forall i :: 0 <= i < first ==> CutComment(line)[i] == lead[i];
    TrimFirst(line, first);
  }

  /** A '#' that is cut as a comment only after normalising: one behind a tab, or behind two gap characters. */
  ghost predicate HiddenComment(line: string) {
    HidesComment(TabsToSpaces(Trim(CutComment(line))))
  }

  lemma HiddenCommentShows(line: string)
    ensures HasComment(Normal(line)) <==> HiddenComment(line)
  {
    SqueezeHides(TabsToSpaces(Trim(CutComment(line))));
  }

  /** Parsing again what a line parsed to gives the same job exactly when the line hides no comment. */
  lemma ParseAgainIff(line: string)
    requires Parse(line).Some?
    ensures Parse(Line(Parse(line).value)) == Parse(line) <==> !HiddenComment(line)
  {
    var n := Normal(line);
    ParseGivesNormal(line);
    NormalIsNormal(line);
    HiddenCommentShows(line);
    OwnNormalIff(n);
    FirstOfTrim(line);
    if !HasComment(n) {
      TrimmedStays(n);
    } else if Parse(n).Some? {
      ParseGivesNormal(n);
    }
  }

  /** Every '#' of the line is at its start or follows a space or no white space at all. */
  ghost predicate HashesAreApart(line: string) {
    forall i :: 0 < i < |line| && line[i] == '#' ==> line[i - 1] == ' ' || !IsSpace(line[i - 1])
  }

  lemma BodyInLine(line: string) returns (k: nat)
    ensures k + |Trim(CutComment(line))| <= |line|
    ensures Trim(CutComment(line)) == line[k..k + |Trim(CutComment(line))|]
  {
    CutCommentCuts(line);
    var lead, trail := TrimSplits(CutComment(line));
    k := |lead|;
  }

  lemma NoHashAfterGap(line: string, body: string, k: nat, i: nat)
    requires HashesAreApart(line) && k + |body| <= |line| && body == line[k..k + |body|] && !HasComment(body)
    ensures !HashAfterGap(TabsToSpaces(body), i)
  {
    if 0 < i < |body| {
      var before := i - 1;
      assert body[i] == line[k + i] && body[before] == line[k + before];
      GapsAreSpace(body[before]);
      assert !(body[before] == ' ' && body[before + 1] == '#');
    }
  }

  /** In particular when no '#' of the line directly follows white space other than a space. */
  lemma ParseIsNormaliser(line: string)
    requires Parse(line).Some? && HashesAreApart(line)
    ensures Parse(Line(Parse(line).value)) == Parse(line)
  {
    var body := Trim(CutComment(line));
    var k := BodyInLine(line);
    BodyIsTrimmed(line);
    forall i: nat ensures !HashAfterGap(TabsToSpaces(body), i) {
      NoHashAfterGap(line, body, k, i);
    }
    ParseAgainIff(line);
  }

  // ----- re-spacing -----

  /** An element without white space and without '#'. */
  predicate Word(w: string) {
    w != "" && forall i :: 0 <= i < |w| ==> !IsSpace(w[i]) && w[i] != '#'
  }

  /** A space, a tab, or two or more gap characters of any kind. */
  predicate Separator(g: string) {
    g != "" && (forall i :: 0 <= i < |g| ==> IsGap(g[i])) && (|g| == 1 ==> g[0] == ' ' || g[0] == '\t')
  }

  ghost predicate Words(words: seq<string>) {
    words != [] && forall i :: 0 <= i < |words| ==> Word(words[i])
  }

  ghost predicate Separators(gaps: seq<string>) {
    forall i :: 0 <= i < |gaps| ==> Separator(gaps[i])
  }

  function Spaced(words: seq<string>, gaps: seq<string>): string
    requires |words| == |gaps| + 1
  {
    if |words| == 1 then words[0] else words[0] + gaps[0] + Spaced(words[1..], gaps[1..])
  }

  lemma {:induction false} SpacedShape(words: seq<string>, gaps: seq<string>)
    requires |words| == |gaps| + 1 && Words(words) && Separators(gaps)
    ensures var s := Spaced(words, gaps); s != "" && s[0] == words[0][0] && !IsSpace(s[|s| - 1]) && '#' !in s
  {
    if |words| > 1 {
      SpacedShape(words[1..], gaps[1..]);
      var rest := Spaced(words[1..], gaps[1..]);
      forall c | c in Spaced(words, gaps) ensures c != '#' {
        assert c in words[0] || c in gaps[0] || c in rest;
      }
    }
  }

  lemma TabsConcat(a: string, b: string)
    ensures TabsToSpaces(a + b) == TabsToSpaces(a) + TabsToSpaces(b)
  {
  }

  lemma {:induction false} SqueezeWord(w: string, rest: string)
    requires Word(w)
    ensures Squeeze(false, w + rest) == w + Squeeze(false, rest)
  {
    assert (w + rest)[1..] == w[1..] + rest;
    GapsAreSpace(w[0]);
    if |w| > 1 {
      SqueezeWord(w[1..], rest);
      assert w == [w[0]] + w[1..];
    } else {
      assert w[1..] + rest == rest;
    }
  }

  lemma {:induction false} GapRunIs(g: string, rest: string)
    requires (forall i :: 0 <= i < |g| ==> IsGap(g[i])) && rest != "" && !IsGap(rest[0])
    ensures GapRun(g + rest) == |g| && (g + rest)[|g|..] == rest
  {
    if g == "" {
      assert g + rest == rest;
    } else {
      GapRunIs(g[1..], rest);
      assert (g + rest)[1..] == g[1..] + rest;
    }
  }

  lemma SqueezeSeparator(g: string, rest: string)
    requires Separator(g) && rest != "" && !IsGap(rest[0])
    ensures Squeeze(false, TabsToSpaces(g) + rest) == " " + Squeeze(false, rest)
  {
    var t := TabsToSpaces(g);
    TabsToSpacesIs(g);
    GapRunIs(t, rest);
    SqueezeRun(t + rest);
  }

  lemma WordHasNoTabs(w: string)
    requires Word(w)
    ensures TabsToSpaces(w) == w && ' ' !in w && !IsGap(w[0])
  {
    assert forall i :: 0 <= i < |w| ==> w[i] != '\t' && w[i] != ' ';
    TabsToSpacesIs(w);
    GapsAreSpace(w[0]);
  }

  lemma TabsThrough(w: string, g: string, rest: string)
    requires Word(w)
    ensures TabsToSpaces(w + g + rest) == w + (TabsToSpaces(g) + TabsToSpaces(rest))
  {
    TabsConcat(w + g, rest);
    TabsConcat(w, g);
    WordHasNoTabs(w);
  }

  lemma TabsKeepStart(rest: string)
    requires rest != "" && !IsGap(rest[0])
    ensures TabsToSpaces(rest) != "" && !IsGap(TabsToSpaces(rest)[0])
  {
  }

  lemma SpacedStep(w: string, g: string, rest: string)
    requires Word(w) && Separator(g) && rest != "" && !IsGap(rest[0])
    ensures Squeeze(false, TabsToSpaces(w + g + rest)) == w + " " + Squeeze(false, TabsToSpaces(rest))
  {
    var g', t := TabsToSpaces(g), TabsToSpaces(rest);
    TabsThrough(w, g, rest);
    TabsKeepStart(rest);
    SqueezeWord(w, g' + t);
    SqueezeSeparator(g, t);
    var squeezed := Squeeze(false, t);
    assert w + (" " + squeezed) == w + " " + squeezed;
  }

  lemma {:induction false} SpacedNormalises(words: seq<string>, gaps: seq<string>)
    requires |words| == |gaps| + 1 && Words(words) && Separators(gaps)
    ensures Squeeze(false, TabsToSpaces(Spaced(words, gaps))) == Join(words, ' ')
  {
    if |words| == 1 {
      WordHasNoTabs(words[0]);
      assert words[0] + "" == words[0];
      SqueezeWord(words[0], "");
    } else {
      SpacedNormalises(words[1..], gaps[1..]);
      SpacedShape(words[1..], gaps[1..]);
      WordHasNoTabs(words[1]);
      SpacedStep(words[0], gaps[0], Spaced(words[1..], gaps[1..]));
    }
  }

  /** Any spacing of the same '#'-free words, with any white space around the line, parses the same: the words alone
      decide. */
  lemma SpacingIsIrrelevant(words: seq<string>, gaps: seq<string>, lead: string, trail: string)
    requires |words| == |gaps| + 1 && Words(words) && Separators(gaps)
    requires AllSpace(lead) && AllSpace(trail)
    ensures Parse(lead + Spaced(words, gaps) + trail) == JobOf(words)
  {
    var body := Spaced(words, gaps);
    var line := lead + body + trail;
    SpacedShape(words, gaps);
    TrimIsUnique(lead, body, trail);
    CutCommentCuts(line);
    forall i | 0 <= i < |line| ensures line[i] != '#' {
      assert line[i] in lead || line[i] in body || line[i] in trail;
    }
    SpacedNormalises(words, gaps);
    forall i | 0 <= i < |words| ensures ' ' !in words[i] {
      assert Word(words[i]);
    }
    SplitJoin(words, ' ');
  }

  lemma JoinTwo(a: string, b: string)
    ensures Join([a, b], ' ') == a + " " + b
  {
    assert [a, b][1..] == [b];
  }

  lemma EveryIsCut(words: seq<string>)
    requires |words| >= 2 && words[0] == "@every"
    ensures |words| >= 3 ==> JobOf(words) == Some(Job("@every " + words[1], Join(words[2..], ' ')))
    ensures |words| == 2 ==> JobOf(words) == Some(Job("@every", words[1]))
  {
    assert "@" <= words[0];
    if |words| >= 3 {
      assert words[..2] == [words[0], words[1]];
      JoinTwo(words[0], words[1]);
      assert "@every" + " " == "@every ";
    } else {
      assert words[1..] == [words[1]];
    }
  }

  lemma FieldsAreCut(words: seq<string>)
    requires |words| >= 6 && words[0] != "" && words[0][0] != '@'
    ensures JobOf(words) ==
            Some(Job(words[0] + " " + words[1] + " " + words[2] + " " + words[3] + " " + words[4],
                     Join(words[5..], ' ')))
  {
    assert !HasPrefix(words[0], "@");
    assert words[..5] == [words[0], words[1], words[2], words[3], words[4]];
    JoinFive(words[0], words[1], words[2], words[3], words[4]);
  }

  /** Where the parser cuts a line of '#'-free words: behind the interval of @every, behind any other descriptor, or
      behind five fields; and which lines have too few words. */
  lemma ParseCuts(words: seq<string>, gaps: seq<string>, lead: string, trail: string)
    requires |words| == |gaps| + 1 && Words(words) && Separators(gaps)
    requires AllSpace(lead) && AllSpace(trail)
    ensures var parsed := Parse(lead + Spaced(words, gaps) + trail);
            && (words[0] == "@every" && |words| >= 3 ==>
                  parsed == Some(Job("@every " + words[1], Join(words[2..], ' '))))
            && (words[0] == "@every" && |words| == 2 ==> parsed == Some(Job("@every", words[1])))
            && (words[0][0] == '@' && words[0] != "@every" && |words| >= 2 ==>
                  parsed == Some(Job(words[0], Join(words[1..], ' '))))
            && (words[0][0] != '@' && |words| >= 6 ==>
                  parsed == Some(Job(words[0] + " " + words[1] + " " + words[2] + " " + words[3] + " " + words[4],
                                     Join(words[5..], ' '))))
            && (|words| == 1 || (words[0][0] != '@' && |words| < 6) ==> parsed == None)
  {
    SpacingIsIrrelevant(words, gaps, lead, trail);
    assert Word(words[0]);
    if |words| >= 2 && words[0] == "@every" {
      EveryIsCut(words);
    } else if |words| >= 6 && words[0][0] != '@' {
      FieldsAreCut(words);
    } else {
      assert words[0][0] == '@' <==> HasPrefix(words[0], "@");
    }
  }

  lemma JoinFive(a: string, b: string, c: string, d: string, e: string)
    ensures Join([a, b, c, d, e], ' ') == a + " " + b + " " + c + " " + d + " " + e
  {
    JoinCons(d, [e], ' ');
    JoinCons(c, [d] + [e], ' ');
    JoinCons(b, [c] + ([d] + [e]), ' ');
    JoinCons(a, [b] + ([c] + ([d] + [e])), ' ');
    assert [a, b, c, d, e] == [a] + ([b] + ([c] + ([d] + [e])));
    assert a + " " + b + " " + c + " " + d + " " + e == a + " " + (b + " " + (c + " " + (d + " " + e)));
  }

  /** A line that starts with '#', white space in front or not, is no job. */
  lemma CommentLineIsNoJob(lead: string, rest: string)
    requires AllSpace(lead)
    ensures Parse(lead + "#" + rest) == None
  {
    TrimFirst(lead + "#" + rest, |lead|);
  }

  // ----- a comment behind a tab -----

  ghost predicate NoSpace(field: string) {
    forall i :: 0 <= i < |field| ==> !IsSpace(field[i])
  }

  /** A descriptor, a word, and a '#' behind a tab or a space. */
  function Marked(descriptor: string, cmd: string, gap: char, comment: string): string {
    descriptor + " " + cmd + [gap] + "#" + comment
  }

  ghost predicate MarkedParts(descriptor: string, cmd: string, comment: string) {
    Word(descriptor) && HasPrefix(descriptor, "@") && descriptor != "@every" && Word(cmd) && NoSpace(comment)
  }

  /** The shape of such a line: white space only at d and h, and the first '#' behind the second. */
  ghost predicate MarkedAt(s: string, d: nat, h: nat, gap: char) {
    && 0 < d && d + 1 < h && h + 1 < |s| && s[d] == ' ' && s[h] == gap && s[h + 1] == '#'
    && (forall i :: 0 <= i < |s| && i != d && i != h ==> !IsSpace(s[i]))
    && (forall i :: 0 <= i <= h ==> s[i] != '#')
  }

  lemma MarkedIsMarkedAt(descriptor: string, cmd: string, gap: char, comment: string)
    requires MarkedParts(descriptor, cmd, comment) && (gap == ' ' || gap == '\t')
    ensures MarkedAt(Marked(descriptor, cmd, gap, comment), |descriptor|, |descriptor| + 1 + |cmd|, gap)
  {
    var s, d, h := Marked(descriptor, cmd, gap, comment), |descriptor|, |descriptor| + 1 + |cmd|;
    assert forall i :: 0 <= i < d ==> s[i] == descriptor[i];
    assert forall i :: 0 <= i < |comment| ==> s[h + 2 + i] == comment[i];
    forall i | 0 <= i < |s| && i != d && i != h ensures !IsSpace(s[i]) {
      assert d < i < h ==> s[i] == cmd[i - d - 1];
      assert i > h + 1 ==> s[i] == comment[i - h - 2];
    }
    forall i | 0 <= i <= h ensures s[i] != '#' {
      assert d < i < h ==> s[i] == cmd[i - d - 1];
    }
  }

  lemma TabIsNoComment(line: string, d: nat, h: nat)
    requires MarkedAt(line, d, h, '\t')
    ensures !HasComment(line)
  {
    forall i | 0 <= i < |line| - 1 ensures !(line[i] == ' ' && line[i + 1] == '#') {
      assert line[i] == ' ' ==> i == d;
    }
  }

  /** The tab keeps the comment from being cut. */
  lemma TabKeepsComment(line: string, d: nat, h: nat)
    requires MarkedAt(line, d, h, '\t')
    ensures CutComment(line) == line && Trim(line) == line
  {
    TabIsNoComment(line, d, h);
    CutCommentCuts(line);
    TrimmedStays(line);
  }

  /** In the normal form it is a space. */
  lemma TabIsSpaceInNormal(line: string, d: nat, h: nat)
    requires MarkedAt(line, d, h, '\t')
    ensures TabsToSpaces(Trim(CutComment(line))) == line[h := ' '] && Normal(line) == line[h := ' ']
  {
    TabKeepsComment(line, d, h);
    var normal := line[h := ' '];
    assert forall i :: 0 <= i < |line| && i != h ==> line[i] != '\t';
    assert TabsToSpaces(line) == normal;
    forall i | 0 < i < |normal| ensures !(IsGap(normal[i - 1]) && IsGap(normal[i])) {
      GapsAreSpace(normal[i - 1]);
      GapsAreSpace(normal[i]);
    }
    SqueezeKeepsSingles(false, normal);
  }

  lemma MarkedWords(descriptor: string, cmd: string, comment: string)
    requires MarkedParts(descriptor, cmd, comment)
    ensures Split(Marked(descriptor, cmd, ' ', comment), ' ') == [descriptor, cmd, "#" + comment]
    ensures JobOf([descriptor, cmd, "#" + comment]) == Some(Job(descriptor, cmd + " #" + comment))
  {
    var mark := "#" + comment;
    var tail := cmd + " " + mark;
    assert ' ' !in descriptor && ' ' !in cmd && ' ' !in mark;
    SplitFirst(descriptor, tail, ' ');
    SplitFirst(cmd, mark, ' ');
    SplitWord(mark, ' ');
    assert Marked(descriptor, cmd, ' ', comment) == descriptor + " " + tail;
    JoinCons(cmd, [mark], ' ');
    assert [descriptor, cmd, mark][1..] == [cmd] + [mark];
    assert cmd + " #" + comment == tail;
  }

  lemma TabHidesComment(line: string, d: nat, h: nat)
    requires MarkedAt(line, d, h, '\t')
    ensures HiddenComment(line)
  {
    TabIsSpaceInNormal(line, d, h);
    assert HashAfterGap(line[h := ' '], h + 1);
  }

  lemma ParseIsJobOf(line: string, normal: string, elems: seq<string>)
    requires Trim(line) != "" && Trim(line)[0] != '#' && Normal(line) == normal && Split(normal, ' ') == elems
    ensures Parse(line) == JobOf(elems)
  {
  }

  lemma TabbedHashParses(descriptor: string, cmd: string, comment: string)
    requires MarkedParts(descriptor, cmd, comment)
    ensures Parse(Marked(descriptor, cmd, '\t', comment)) == Some(Job(descriptor, cmd + " #" + comment))
  {
    var line, d, h := Marked(descriptor, cmd, '\t', comment), |descriptor|, |descriptor| + 1 + |cmd|;
    MarkedIsMarkedAt(descriptor, cmd, '\t', comment);
    TabKeepsComment(line, d, h);
    TabIsSpaceInNormal(line, d, h);
    assert line[h := ' '] == Marked(descriptor, cmd, ' ', comment);
    MarkedWords(descriptor, cmd, comment);
    ParseIsJobOf(line, line[h := ' '], [descriptor, cmd, "#" + comment]);
  }

  /** A '#' behind a tab: parsed once it is part of the command, parsed again it is cut as a comment. */
  lemma TabbedHashIsNotKept(descriptor: string, cmd: string, comment: string)
    requires MarkedParts(descriptor, cmd, comment)
    ensures var line := Marked(descriptor, cmd, '\t', comment);
            && Parse(line) == Some(Job(descriptor, cmd + " #" + comment))
            && Parse(Line(Parse(line).value)) != Parse(line)
  {
    var line := Marked(descriptor, cmd, '\t', comment);
    TabbedHashParses(descriptor, cmd, comment);
    MarkedIsMarkedAt(descriptor, cmd, '\t', comment);
    TabHidesComment(line, |descriptor|, |descriptor| + 1 + |cmd|);
    ParseAgainIff(line);
  }

  /** There are such lines. */
  lemma TabbedHashExample() returns (line: string)
    ensures Parse(line).Some? && Parse(Line(Parse(line).value)) != Parse(line)
  {
    line := Marked("@daily", "x", '\t', "y");
    TabbedHashIsNotKept("@daily", "x", "y");
  }

  // ----- printing a structured schedule -----

  predicate HasSchedule(s: Schedule) {
    s.minute != "" || s.hour != "" || s.day != "" || s.month != "" || s.weekday != ""
  }

  function OrStar(field: string): string {
    if field == "" then "*" else field
  }

  function SchedToSpec(s: Schedule): string {
    OrStar(s.minute) + " " + OrStar(s.hour) + " " + OrStar(s.day) + " " + OrStar(s.month) + " " + OrStar(s.weekday)
  }

  function FieldsOf(s: Schedule): seq<string> {
    [OrStar(s.minute), OrStar(s.hour), OrStar(s.day), OrStar(s.month), OrStar(s.weekday)]
  }

  lemma SpecJoinsFields(s: Schedule)
    ensures SchedToSpec(s) == Join(FieldsOf(s), ' ')
  {
    JoinFive(OrStar(s.minute), OrStar(s.hour), OrStar(s.day), OrStar(s.month), OrStar(s.weekday));
  }

  lemma NoMarksInSpec(s: Schedule)
    requires ValidateSchedFields(s)
    ensures forall c :: c in SchedToSpec(s) ==> !IsMark(c)
  {
    AcceptedHasNoMarks(s.minute, 0, 59, false);
    AcceptedHasNoMarks(s.hour, 0, 23, false);
    AcceptedHasNoMarks(s.day, 1, 31, false);
    AcceptedHasNoMarks(s.month, 1, 12, false);
    AcceptedHasNoMarks(s.weekday, 0, 7, true);
    forall c | c in SchedToSpec(s) ensures !IsMark(c) {
      assert c == ' ' || c == '*' || c in s.minute || c in s.hour || c in s.day || c in s.month || c in s.weekday;
    }
  }

  /** A command that the parser leaves as it is behind a spec. */
  ghost predicate KeptCommand(cmd: string) {
    && cmd != "" && !IsGap(cmd[0]) && cmd[0] != '#' && !IsSpace(cmd[|cmd| - 1])
    && SingleGaps(cmd) && NoTabs(cmd) && !HasComment(cmd)
  }

  /** Fields that stay apart and unchanged in the printed spec. White space can only be in them around list items,
      which the validator trims and the printer does not. */
  ghost predicate KeptFields(s: Schedule) {
    && (forall i :: 0 <= i < 5 ==> ' ' !in FieldsOf(s)[i])
    && !IsSpace(SchedToSpec(s)[0]) && NoTabs(SchedToSpec(s)) && SingleGaps(SchedToSpec(s) + " ")
  }

  lemma SingleGapsCat(a: string, b: string)
    ensures SingleGaps(a + " " + b) <==> SingleGaps(a + " ") && SingleGaps(b) && (b != "" ==> !IsGap(b[0]))
  {
    var x, n := a + " " + b, |a| + 1;
    assert forall i :: 0 <= i < n ==> x[i] == (a + " ")[i];
    assert forall i :: 0 <= i < |b| ==> b[i] == x[n + i];
    if SingleGaps(x) {
      assert b != "" ==> x[n - 1] == ' ' && x[n] == b[0];
    }
  }

  lemma HasCommentCat(a: string, b: string)
    requires '#' !in a
    ensures HasComment(a + " " + b) <==> HasComment(b) || (b != "" && b[0] == '#')
  {
    var x, n := a + " " + b, |a| + 1;
    assert forall i :: 0 <= i < |b| ==> b[i] == x[n + i];
    if i :| 0 <= i < |x| - 1 && x[i] == ' ' && x[i + 1] == '#' {
      assert i + 1 >= n;
      if i >= n {
        assert b[i - n] == ' ' && b[i - n + 1] == '#';
      }
    }
    if i :| 0 <= i < |b| - 1 && b[i] == ' ' && b[i + 1] == '#' {
      assert x[n + i] == ' ' && x[n + i + 1] == '#';
    }
    if b != "" && b[0] == '#' {
      assert x[n - 1] == ' ' && x[n] == '#';
    }
  }

  /** When spec and command together are their own normal form. */
  lemma OwnNormalCat(spec: string, cmd: string)
    requires spec != "" && '#' !in spec
    ensures Normal(spec + " " + cmd) == spec + " " + cmd <==>
            !IsSpace(spec[0]) && NoTabs(spec) && SingleGaps(spec + " ") && KeptCommand(cmd)
  {
    var x := spec + " " + cmd;
    OwnNormalIff(x);
    SingleGapsCat(spec, cmd);
    HasCommentCat(spec, cmd);
    assert x[0] == spec[0] && x[|x| - 1] == if cmd == "" then ' ' else cmd[|cmd| - 1];
    assert '\t' in x <==> '\t' in spec || '\t' in cmd;
  }

  lemma SplitSpec(s: Schedule, cmd: string)
    requires forall i :: 0 <= i < 5 ==> ' ' !in FieldsOf(s)[i]
    ensures Split(SchedToSpec(s) + " " + cmd, ' ') == FieldsOf(s) + Split(cmd, ' ')
  {
    SpecJoinsFields(s);
    SplitJoined(FieldsOf(s), cmd, ' ');
  }

  /** Read back at its spaces, a printed spec has the five fields in the order of a crontab line, '*' for an unset one,
      and nothing else in front of the command. */
  lemma SpecFields(s: Schedule, cmd: string)
    requires ' ' !in s.minute && ' ' !in s.hour && ' ' !in s.day && ' ' !in s.month && ' ' !in s.weekday
    ensures var parts := Split(SchedToSpec(s) + " " + cmd, ' ');
            && |parts| == 5 + |Split(cmd, ' ')| && parts[5..] == Split(cmd, ' ')
            && (s.minute != "" ==> parts[0] == s.minute) && (s.minute == "" ==> parts[0] == "*")
            && (s.hour != "" ==> parts[1] == s.hour) && (s.hour == "" ==> parts[1] == "*")
            && (s.day != "" ==> parts[2] == s.day) && (s.day == "" ==> parts[2] == "*")
            && (s.month != "" ==> parts[3] == s.month) && (s.month == "" ==> parts[3] == "*")
            && (s.weekday != "" ==> parts[4] == s.weekday) && (s.weekday == "" ==> parts[4] == "*")
  {
    SplitSpec(s, cmd);
  }

  /** Words without spaces join to a string with one space fewer than there are words. */
  lemma {:induction false} JoinHasSpaces(words: seq<string>, n: nat)
    requires |words| == n && n > 0 && forall i :: 0 <= i < n ==> ' ' !in words[i]
    ensures multiset(Join(words, ' '))[' '] == n - 1
  {
    if n > 1 {
      JoinHasSpaces(words[1..], n - 1);
      assert Join(words, ' ') == words[0] + " " + Join(words[1..], ' ');
      assert multiset(words[0])[' '] == 0;
    } else {
      assert multiset(words[0])[' '] == 0;
    }
  }

  lemma SpecSpaces(s: Schedule)
    requires multiset(SchedToSpec(s))[' '] == 4
    ensures forall i :: 0 <= i < 5 ==> ' ' !in FieldsOf(s)[i]
  {
    var f := FieldsOf(s);
    forall i | 0 <= i < 5 ensures multiset(f[i])[' '] == 0 {
      assert SchedToSpec(s) == f[0] + " " + f[1] + " " + f[2] + " " + f[3] + " " + f[4];
    }
  }

  lemma FirstPart(x: string)
    requires x != "" && !IsMark(x[0])
    ensures !HasPrefix(Split(x, ' ')[0], "@")
  {
    var first := Split(x, ' ')[0];
    assert first == "" || first[0] == x[0];
  }

  lemma JobOfSpec(fields: seq<string>, words: seq<string>)
    requires |fields| == 5 && words != [] && !HasPrefix(fields[0], "@")
    ensures JobOf(fields + words) == Some(Job(Join(fields, ' '), Join(words, ' ')))
  {
    var elems := fields + words;
    var first := elems[0];
    assert first == fields[0] && elems[..5] == fields && elems[5..] == words;
    assert "@" <= "@every" && first != "@every";
  }

  lemma OwnNormalParses(x: string)
    requires Normal(x) == x && x != "" && x[0] != '#'
    ensures Parse(x) == JobOf(Split(x, ' '))
  {
    OwnNormalIff(x);
    TrimmedStays(x);
  }

  lemma SplitHasNoSpaces(x: string)
    ensures forall i :: 0 <= i < |Split(x, ' ')| ==> ' ' !in Split(x, ' ')[i]
  {
    forall i | 0 <= i < |Split(x, ' ')| ensures ' ' !in Split(x, ' ')[i] {
      SplitParts(x, ' ', i);
    }
  }

  lemma ParsedBackIsKept(s: Schedule, cmd: string)
    requires ValidateSchedFields(s) && Parse(SchedToSpec(s) + " " + cmd) == Some(Job(SchedToSpec(s), cmd))
    ensures KeptFields(s) && KeptCommand(cmd)
  {
    var spec := SchedToSpec(s);
    var x := spec + " " + cmd;
    NoMarksInSpec(s);
    assert spec[0] in spec && x[0] == spec[0];
    FirstPart(x);
    ParseGivesNormal(x);
    OwnNormalCat(spec, cmd);
    SplitHasNoSpaces(x);
    JoinHasSpaces(Split(x, ' ')[..5], 5);
    SpecSpaces(s);
  }

  lemma KeptIsParsedBack(s: Schedule, cmd: string)
    requires ValidateSchedFields(s) && KeptFields(s) && KeptCommand(cmd)
    ensures Parse(SchedToSpec(s) + " " + cmd) == Some(Job(SchedToSpec(s), cmd))
  {
    var spec := SchedToSpec(s);
    var x := spec + " " + cmd;
    NoMarksInSpec(s);
    assert spec[0] in spec && x[0] == spec[0];
    FirstPart(x);
    OwnNormalCat(spec, cmd);
    OwnNormalParses(x);
    SplitSpec(s, cmd);
    SpecJoinsFields(s);
    JoinSplit(cmd, ' ');
    JobOfSpec(FieldsOf(s), Split(cmd, ' '));
  }

  /** Printing a schedule and parsing the printed spec with a command gives both back exactly when the fields and the
      command are kept. */
  lemma PrintThenParseIff(s: Schedule, cmd: string)
    requires ValidateSchedFields(s)
    ensures Parse(SchedToSpec(s) + " " + cmd) == Some(Job(SchedToSpec(s), cmd)) <==> KeptFields(s) && KeptCommand(cmd)
  {
    if Parse(SchedToSpec(s) + " " + cmd) == Some(Job(SchedToSpec(s), cmd)) {
      ParsedBackIsKept(s, cmd);
    }
    if KeptFields(s) && KeptCommand(cmd) {
      KeptIsParsedBack(s, cmd);
    }
  }

  lemma PlainCat(a: string, field: string)
    requires SingleGaps(a + " ") && NoTabs(a) && field != "" && NoSpace(field)
    ensures SingleGaps(a + " " + field + " ") && NoTabs(a + " " + field)
  {
    forall i | 0 <= i < |field| ensures !IsGap(field[i]) && field[i] != '\t' {
      GapsAreSpace(field[i]);
    }
    assert a + " " + field + " " == a + " " + (field + " ");
    SingleGapsCat(a, field + " ");
  }

  /** Fields without white space are kept. */
  lemma PlainFieldsAreKept(s: Schedule)
    requires NoSpace(s.minute) && NoSpace(s.hour) && NoSpace(s.day) && NoSpace(s.month) && NoSpace(s.weekday)
    ensures KeptFields(s)
  {
    var f := FieldsOf(s);
    PlainCat("", f[0]);
    var a := f[0];
    forall i | 0 <= i < |a| ensures !IsGap(a[i]) && a[i] != '\t' {
      GapsAreSpace(a[i]);
    }
    PlainCat(a, f[1]);
    PlainCat(a + " " + f[1], f[2]);
    PlainCat(a + " " + f[1] + " " + f[2], f[3]);
    PlainCat(a + " " + f[1] + " " + f[2] + " " + f[3], f[4]);
  }

  lemma SpacedItems()
    ensures Item(Trim("1"), 0, 59) && Item(Trim(" 2"), 0, 59)
  {
    assert Numeral("1", 1) by {
      assert AllDigits("1") && ValueOf("1") == 1;
    }
    assert Numeral("2", 2) by {
      assert AllDigits("2") && ValueOf("2") == 2;
    }
    assert IsOne("1", 0, 59, 1) && IsOne("2", 0, 59, 2);
    TrimmedStays("1");
    TrimIsUnique(" ", "2", "");
    assert " " + "2" + "" == " 2";
  }

  lemma SpacedListIsAccepted(minute: string)
    requires minute == "1, 2"
    ensures ValidateCronField(minute, 0, 59)
  {
    SpacedItems();
    assert Join(["1", " 2"], ',') == minute;
    assert IsList(minute, 0, 59, ["1", " 2"]);
    FieldExact(minute, 0, 59);
  }

  /** The validator accepts a list with a space in it, which is not kept. */
  lemma SpacedListIsNotKept(s: Schedule)
    requires s == Schedule("1, 2", "", "", "", "")
    ensures ValidateSchedFields(s) && !KeptFields(s)
  {
    SpacedListIsAccepted(s.minute);
    assert FieldsOf(s)[0] == s.minute && s.minute[2] == ' ';
  }

  // ----- jobs of a YAML file -----

  datatype YamlJob = YamlJob(spec: string, sched: Schedule, command: string)

  function Resolved(job: YamlJob): YamlJob {
    if HasSchedule(job.sched) then job.(spec := SchedToSpec(job.sched)) else job
  }

  /** The loop that gives every job with a structured schedule its spec, in place. */
  method ResolveSpecs(jobs: array<YamlJob>)
    modifies jobs
    ensures forall i :: 0 <= i < jobs.Length ==> jobs[i] == Resolved(old(jobs[i]))
    ensures forall i :: 0 <= i < jobs.Length && old(jobs[i]).sched == Schedule("", "", "", "", "") ==>
              jobs[i] == old(jobs[i])
    ensures forall i :: 0 <= i < jobs.Length && old(jobs[i]).sched != Schedule("", "", "", "", "") ==>
              jobs[i] == YamlJob(SchedToSpec(old(jobs[i]).sched), old(jobs[i]).sched, old(jobs[i]).command)
  {
    for n := 0 to jobs.Length
      invariant forall i :: 0 <= i < n ==> jobs[i] == Resolved(old(jobs[i]))
      invariant forall i :: n <= i < jobs.Length ==> jobs[i] == old(jobs[i])
    {
      if HasSchedule(jobs[n].sched) {
        jobs[n] := jobs[n].(spec := SchedToSpec(jobs[n].sched));
      }
    }
  }
}
