/** The reader's reflowing of the lines of an extracted page into paragraphs. */
module Reflow {
  import opened Prelude
  import opened Strings
  import Decimal

  /** White space as String.trim and \s see it in the browser; Python's set differs. */
  predicate IsBrowserSpace(c: char) {
    var n := c as int;
    || 0x09 <= n <= 0x0D || n == 0x20 || n == 0xA0 || n == 0x1680
    || 0x2000 <= n <= 0x200A || n == 0x2028 || n == 0x2029 || n == 0x202F || n == 0x205F || n == 0x3000
    || n == 0xFEFF
  }

  predicate IsClosing(c: char) {
    c in ".!?:;\"')]" || c == '\U{BB}'
  }

  predicate IsOpening(c: char) {
    || 'A' <= c <= 'Z' || '\U{C0}' <= c <= '\U{D6}' || '\U{D8}' <= c <= '\U{DE}' || '0' <= c <= '9'
    || c in "-*" || c in ['\U{2022}', '\U{2013}', '\U{2014}', '\U{B7}']
  }

  /** Closing punctuation, possibly followed by white space, at the very end. */
  predicate EndsSentence(s: string) {
    var hi := KeptTo(s, IsBrowserSpace, 0, |s|);
    hi > 0 && IsClosing(s[hi - 1])
  }

  /** A capital, a digit or a bullet after the leading white space. */
  predicate StartsNewBlock(s: string) {
    var lo := KeptFrom(s, IsBrowserSpace, 0);
    lo < |s| && IsOpening(s[lo])
  }

  predicate Continues(current: string, line: string) {
    !EndsSentence(current) && !StartsNewBlock(line)
  }

  function NonEmptyTrimmed(parts: seq<string>): seq<string> {
    if parts == [] then []
    else
      var line := Trim(parts[0], IsBrowserSpace);
      (if line == "" then [] else [line]) + NonEmptyTrimmed(parts[1..])
  }

  function Lines(text: string): seq<string> {
    NonEmptyTrimmed(Split(text, '\n'))
  }

  function WithoutPageNumber(lines: seq<string>, pageNumber: Option<nat>): seq<string> {
    if pageNumber.Some? && lines != [] && lines[|lines| - 1] == Decimal.ToText(pageNumber.value)
    then lines[..|lines| - 1] else lines
  }

  /** What is still to be emitted with `current` open and `lines` to come. */
  function Rest(current: string, lines: seq<string>): seq<string>
    decreases |lines|
  {
    if lines == [] then (if current == "" then [] else [current])
    else if current == "" then Rest(lines[0], lines[1..])
    else if Continues(current, lines[0]) then Rest(current + " " + lines[0], lines[1..])
    else [current] + Rest(lines[0], lines[1..])
  }

  function Reflowed(text: string, pageNumber: Option<nat>): seq<string> {
    Rest("", WithoutPageNumber(Lines(text), pageNumber))
  }

  method ReflowExtractedText(text: string, pageNumber: Option<nat>) returns (paragraphs: seq<string>)
    ensures paragraphs == Reflowed(text, pageNumber)
  {
    var lines := Lines(text);
    if pageNumber.Some? && lines != [] && lines[|lines| - 1] == Decimal.ToText(pageNumber.value) {
      lines := lines[..|lines| - 1];
    }
    paragraphs := [];
    var current := "";
    for i := 0 to |lines|
      invariant paragraphs + Rest(current, lines[i..]) == Rest("", lines)
    {
      var line := lines[i];
      Turn(paragraphs, current, lines, i);
      if current == "" {
        current := line;
        continue;
      }
      if Continues(current, line) {
        current := current + " " + line;
      } else {
        paragraphs := paragraphs + [current];
        current := line;
      }
    }
    if current != "" {
      paragraphs := paragraphs + [current];
    }
  }

  lemma NextLine(lines: seq<string>, i: nat)
    requires i < |lines|
    ensures lines[i..][0] == lines[i] && lines[i..][1..] == lines[i + 1..]
  {
  }

  /** One turn of the loop, in each of its three branches. */
  lemma Turn(paragraphs: seq<string>, current: string, lines: seq<string>, i: nat)
    requires i < |lines|
    ensures var whole, line, next := paragraphs + Rest(current, lines[i..]), lines[i], lines[i + 1..];
            && (current == "" ==> whole == paragraphs + Rest(line, next))
            && (current != "" && Continues(current, line) ==> whole == paragraphs + Rest(current + " " + line, next))
            && (current != "" && !Continues(current, line) ==> whole == paragraphs + [current] + Rest(line, next))
  {
    NextLine(lines, i);
    RegroupLists(paragraphs, [current], Rest(lines[i], lines[i + 1..]));
  }

  lemma RegroupLists(a: seq<string>, b: seq<string>, c: seq<string>)
    ensures (a + b) + c == a + (b + c)
  {
  }

  // ----- lines -----

  /** A non-empty line with no white space at either end. */
  ghost predicate Tidy(s: string) {
    s != "" && Trimmed(s, IsBrowserSpace) && Without(s, '\n')
  }

  ghost predicate AllTidy(lines: seq<string>) {
    forall i | 0 <= i < |lines| :: Tidy(lines[i])
  }

  lemma {:induction false} LinesAreTidy(parts: seq<string>)
    requires forall i | 0 <= i < |parts| :: Without(parts[i], '\n')
    ensures AllTidy(NonEmptyTrimmed(parts))
  {
    if parts != [] {
      var lo, hi := TrimIsSlice(parts[0], IsBrowserSpace);
      assert Without(parts[0][lo..hi], '\n');
      LinesAreTidy(parts[1..]);
    }
  }

  lemma {:induction false} TidyLinesStay(lines: seq<string>)
    requires AllTidy(lines)
    ensures NonEmptyTrimmed(lines) == lines
  {
    if lines != [] {
      TrimmedIsFixed(lines[0], IsBrowserSpace);
      TidyLinesStay(lines[1..]);
    }
  }

  lemma LinesOfJoin(lines: seq<string>)
    requires AllTidy(lines)
    ensures Lines(Join(lines, "\n")) == lines
  {
    if lines == [] {
      assert Split("", '\n') == [""];
      assert NonEmptyTrimmed([""]) == [];
    } else {
      SplitJoin(lines, '\n');
      TidyLinesStay(lines);
    }
  }

  lemma TidyContinues(current: string, line: string)
    requires Tidy(current) && Tidy(line)
    ensures Continues(current, line) <==> !IsClosing(current[|current| - 1]) && !IsOpening(line[0])
  {
  }

  // ----- the paragraphs are groups of neighbouring lines -----

  /** The lines grouped by looking at each pair of neighbours alone. */
  function Groups(lines: seq<string>): (groups: seq<seq<string>>)
    ensures lines == [] <==> groups == []
    ensures groups != [] ==> groups[0] != []
  {
    if |lines| <= 1 then (if lines == [] then [] else [lines])
    else
      var groups := Groups(lines[1..]);
      if Continues(lines[0], lines[1]) then Extend([lines[0]], groups) else [[lines[0]]] + groups
  }

  /** More lines at the front of the first group. */
  function Extend(done: seq<string>, groups: seq<seq<string>>): seq<seq<string>>
    requires groups != []
  {
    [done + groups[0]] + groups[1..]
  }

  function JoinEach(groups: seq<seq<string>>): (joined: seq<string>)
    ensures |joined| == |groups| && forall i | 0 <= i < |groups| :: joined[i] == Join(groups[i], " ")
  {
    if groups == [] then [] else [Join(groups[0], " ")] + JoinEach(groups[1..])
  }

  function Flatten(groups: seq<seq<string>>): seq<string> {
    if groups == [] then [] else groups[0] + Flatten(groups[1..])
  }

  /** Joining tidy lines by spaces gives a tidy line with the first one's start and the last one's end. */
  lemma {:induction false} JoinTidy(group: seq<string>)
    requires group != [] && AllTidy(group)
    ensures var s := Join(group, " ");
            && Tidy(s) && s[0] == group[0][0]
            && s[|s| - 1] == group[|group| - 1][|group[|group| - 1]| - 1]
  {
    if |group| > 1 {
      var first, rest := group[0], Join(group[1..], " ");
      JoinTidy(group[1..]);
      TidyJoinsTidy(first, rest);
      assert Join(group, " ") == first + " " + rest;
    }
  }

  lemma TidyJoinsTidy(a: string, b: string)
    requires Tidy(a) && Tidy(b)
    ensures var s := a + " " + b; Tidy(s) && s[0] == a[0] && s[|s| - 1] == b[|b| - 1]
  {
    var s := a + " " + b;
    forall i | 0 <= i < |s| ensures s[i] != '\n' {
      if i > |a| {
        assert s[i] == b[i - |a| - 1];
      }
    }
  }

  lemma GroupsOfCons(last: string, lines: seq<string>)
    requires lines != []
    ensures Groups([last] + lines)
         == if Continues(last, lines[0]) then Extend([last], Groups(lines)) else [[last]] + Groups(lines)
  {
    assert ([last] + lines)[1..] == lines;
  }

  lemma ExtendTwice(a: seq<string>, b: seq<string>, groups: seq<seq<string>>)
    requires groups != []
    ensures Extend(a, Extend(b, groups)) == Extend(a + b, groups)
    ensures Extend([], groups) == groups
  {
    RegroupLists(a, b, groups[0]);
    assert [] + groups[0] == groups[0];
  }

  lemma JoinLast(done: seq<string>, line: string)
    requires done != []
    ensures Join(done + [line], " ") == Join(done, " ") + " " + line
  {
    JoinConcat(done, [line], " ");
  }

  lemma OpenContinues(done: seq<string>, last: string, line: string)
    requires AllTidy(done) && Tidy(last) && Tidy(line)
    ensures Join(done + [last], " ") != "" && AllTidy(done + [last])
    ensures Continues(Join(done + [last], " "), line) == Continues(last, line)
  {
    JoinTidy(done + [last]);
    TidyContinues(Join(done + [last], " "), line);
    TidyContinues(last, line);
  }

  lemma RestStep(current: string, line: string, rest: seq<string>)
    requires current != ""
    ensures Rest(current, [line] + rest)
         == if Continues(current, line) then Rest(current + " " + line, rest) else [current] + Rest(line, rest)
  {
  }

  lemma GroupsGoOn(done: seq<string>, last: string, lines: seq<string>)
    requires lines != [] && Continues(last, lines[0])
    ensures Extend(done, Groups([last] + lines)) == Extend(done + [last], Groups(lines))
  {
    GroupsOfCons(last, lines);
    ExtendTwice(done, [last], Groups(lines));
  }

  lemma GroupsBreakOff(done: seq<string>, last: string, lines: seq<string>)
    requires lines != [] && !Continues(last, lines[0])
    ensures JoinEach(Extend(done, Groups([last] + lines))) == [Join(done + [last], " ")] + JoinEach(Groups(lines))
  {
    GroupsOfCons(last, lines);
    assert Extend(done, [[last]] + Groups(lines)) == [done + [last]] + Groups(lines);
    assert ([done + [last]] + Groups(lines))[1..] == Groups(lines);
  }

  lemma OneGroup(done: seq<string>, last: string)
    ensures JoinEach(Extend(done, Groups([last]))) == [Join(done + [last], " ")]
  {
    assert Extend(done, [[last]]) == [done + [last]];
    assert [done + [last]][1..] == [];
  }

  /** With the lines of one group open, the loop goes on as if only the last of them had been read. */
  lemma {:induction false} RestIsGroups(done: seq<string>, last: string, lines: seq<string>)
    requires AllTidy(done) && Tidy(last) && AllTidy(lines)
    ensures Rest(Join(done + [last], " "), lines) == JoinEach(Extend(done, Groups([last] + lines)))
    decreases |lines|
  {
    OpenContinues(done, last, if lines == [] then last else lines[0]);
    if lines == [] {
      assert [last] + lines == [last];
      OneGroup(done, last);
    } else {
      var line, rest := lines[0], lines[1..];
      RestStep(Join(done + [last], " "), line, rest);
      assert [line] + rest == lines;
      if Continues(last, line) {
        JoinLast(done + [last], line);
        RestIsGroups(done + [last], line, rest);
        GroupsGoOn(done, last, lines);
      } else {
        assert [] + [line] == [line];
        RestIsGroups([], line, rest);
        ExtendTwice([], [], Groups(lines));
        GroupsBreakOff(done, last, lines);
      }
    }
  }

  /** The one-pass loop computes the groups of neighbours, each joined by spaces. */
  lemma ReflowIsGroups(lines: seq<string>)
    requires AllTidy(lines)
    ensures Rest("", lines) == JoinEach(Groups(lines))
  {
    if lines != [] {
      assert [] + [lines[0]] == [lines[0]];
      RestIsGroups([], lines[0], lines[1..]);
      assert [lines[0]] + lines[1..] == lines;
      ExtendTwice([], [], Groups(lines));
    }
  }

  /** No line is lost, repeated or moved. */
  lemma {:induction false} GroupsKeepLines(lines: seq<string>)
    ensures Flatten(Groups(lines)) == lines
  {
    if |lines| > 1 {
      var groups := Groups(lines[1..]);
      GroupsKeepLines(lines[1..]);
      assert lines == [lines[0]] + lines[1..];
      assert Extend([lines[0]], groups)[1..] == groups[1..];
      RegroupLists([lines[0]], groups[0], Flatten(groups[1..]));
      assert ([[lines[0]]] + groups)[1..] == groups;
    }
  }

  ghost predicate GroupTidy(group: seq<string>) {
    group != [] && AllTidy(group)
  }

  /** Group k ends where its last line does not continue into the first line of the next. */
  ghost predicate EndsThere(groups: seq<seq<string>>, k: nat)
    requires k < |groups| - 1
  {
    groups[k] != [] && groups[k + 1] != [] && !Continues(groups[k][|groups[k]| - 1], groups[k + 1][0])
  }

  lemma ExtendEnds(line: string, groups: seq<seq<string>>)
    requires groups != [] && forall k | 0 <= k < |groups| - 1 :: EndsThere(groups, k)
    ensures var r := Extend([line], groups); forall k | 0 <= k < |r| - 1 :: EndsThere(r, k)
  {
    var r := Extend([line], groups);
    forall k | 0 <= k < |r| - 1 ensures EndsThere(r, k) {
      assert EndsThere(groups, k);
      assert k == 0 ==> r[0][|r[0]| - 1] == groups[0][|groups[0]| - 1];
    }
  }

  lemma PrependEnds(line: string, groups: seq<seq<string>>)
    requires groups != [] && groups[0] != [] && !Continues(line, groups[0][0])
    requires forall k | 0 <= k < |groups| - 1 :: EndsThere(groups, k)
    ensures var r := [[line]] + groups; forall k | 0 <= k < |r| - 1 :: EndsThere(r, k)
  {
    var r := [[line]] + groups;
    forall k | 0 <= k < |r| - 1 ensures EndsThere(r, k) {
      if k > 0 {
        assert EndsThere(groups, k - 1);
      }
    }
  }

  /** Each group ends where a line does not continue into the next. */
  lemma {:induction false} GroupsSeparate(lines: seq<string>)
    requires AllTidy(lines)
    ensures var gs := Groups(lines);
            && (forall k | 0 <= k < |gs| :: GroupTidy(gs[k]))
            && (forall k | 0 <= k < |gs| - 1 :: EndsThere(gs, k))
            && (lines != [] ==> gs[0][0] == lines[0])
  {
    if |lines| > 1 {
      GroupsSeparate(lines[1..]);
      var groups := Groups(lines[1..]);
      if Continues(lines[0], lines[1]) {
        ExtendEnds(lines[0], groups);
        assert GroupTidy([lines[0]] + groups[0]);
      } else {
        PrependEnds(lines[0], groups);
        assert GroupTidy([lines[0]]);
      }
    }
  }

  ghost predicate Separated(paragraphs: seq<string>) {
    AllTidy(paragraphs) && forall k | 0 <= k < |paragraphs| - 1 :: Apart(paragraphs, k)
  }

  ghost predicate Apart(paragraphs: seq<string>, k: nat)
    requires k < |paragraphs| - 1
  {
    !Continues(paragraphs[k], paragraphs[k + 1])
  }

  lemma SliceSeparated(paragraphs: seq<string>, lo: nat, hi: nat)
    requires lo <= hi <= |paragraphs| && Separated(paragraphs)
    ensures Separated(paragraphs[lo..hi])
  {
    var r := paragraphs[lo..hi];
    forall k | 0 <= k < |r| - 1 ensures Apart(r, k) {
      assert Apart(paragraphs, k + lo);
    }
  }

  lemma JoinsApart(groups: seq<seq<string>>, k: nat)
    requires k < |groups| - 1 && GroupTidy(groups[k]) && GroupTidy(groups[k + 1]) && EndsThere(groups, k)
    ensures !Continues(Join(groups[k], " "), Join(groups[k + 1], " "))
  {
    var a, b := groups[k], groups[k + 1];
    JoinTidy(a);
    JoinTidy(b);
    TidyContinues(a[|a| - 1], b[0]);
    TidyContinues(Join(a, " "), Join(b, " "));
  }

  lemma ParagraphsSeparated(lines: seq<string>)
    requires AllTidy(lines)
    ensures Separated(JoinEach(Groups(lines)))
  {
    GroupsSeparate(lines);
    var gs := Groups(lines);
    var ps := JoinEach(gs);
    forall k | 0 <= k < |ps| ensures Tidy(ps[k]) {
      assert GroupTidy(gs[k]);
      JoinTidy(gs[k]);
    }
    forall k | 0 <= k < |ps| - 1 ensures Apart(ps, k) {
      JoinsApart(gs, k);
    }
  }

  lemma {:induction false} SeparatedStay(paragraphs: seq<string>)
    requires Separated(paragraphs)
    ensures Rest("", paragraphs) == paragraphs
    ensures paragraphs != [] ==> Rest(paragraphs[0], paragraphs[1..]) == paragraphs
    decreases |paragraphs|
  {
    if |paragraphs| > 1 {
      SliceSeparated(paragraphs, 1, |paragraphs|);
      assert paragraphs[1..|paragraphs|] == paragraphs[1..];
      SeparatedStay(paragraphs[1..]);
      assert Apart(paragraphs, 0);
    }
  }

  /** Whatever text and page number it is given, the reader shows the groups of neighbouring lines. */
  lemma ReflowShowsGroups(text: string, pageNumber: Option<nat>)
    ensures var lines := WithoutPageNumber(Lines(text), pageNumber);
            && Reflowed(text, pageNumber) == JoinEach(Groups(lines))
            && Flatten(Groups(lines)) == lines
            && Separated(Reflowed(text, pageNumber))
  {
    LinesAreTidy(Split(text, '\n'));
    var lines := WithoutPageNumber(Lines(text), pageNumber);
    ReflowIsGroups(lines);
    GroupsKeepLines(lines);
    ParagraphsSeparated(lines);
  }

  lemma ReflowOfJoin(paragraphs: seq<string>)
    requires Separated(paragraphs)
    ensures Reflowed(Join(paragraphs, "\n"), None) == paragraphs
  {
    LinesOfJoin(paragraphs);
    SeparatedStay(paragraphs);
  }

  /** Reflowing the paragraphs again, one to a line, changes nothing. */
  lemma ReflowIdempotent(text: string, pageNumber: Option<nat>)
    ensures var paragraphs := Reflowed(text, pageNumber);
            Reflowed(Join(paragraphs, "\n"), None) == paragraphs
  {
    ReflowShowsGroups(text, pageNumber);
    ReflowOfJoin(Reflowed(text, pageNumber));
  }

  // ----- a second pass that is given the page number too -----

  /** The last line is this number alone. */
  predicate EndsInNumber(lines: seq<string>, number: nat) {
    lines != [] && lines[|lines| - 1] == Decimal.ToText(number)
  }

  lemma NumberIsTidy(number: nat)
    ensures Tidy(Decimal.ToText(number)) && IsOpening(Decimal.ToText(number)[0])
    ensures Without(Decimal.ToText(number), ' ')
  {
    var s := Decimal.ToText(number);
    assert forall i | 0 <= i < |s| :: Decimal.IsDigit(s[i]);
  }

  lemma JoinHasSpace(group: seq<string>)
    requires |group| > 1
    ensures !Without(Join(group, " "), ' ')
  {
    var s := Join(group, " ");
    assert s[|group[0]|] == ' ';
  }

  /** A number stands alone in its group. */
  lemma JoinIsNumber(group: seq<string>, number: nat)
    requires group != []
    ensures Join(group, " ") == Decimal.ToText(number) <==> group == [Decimal.ToText(number)]
  {
    NumberIsTidy(number);
    if |group| > 1 {
      JoinHasSpace(group);
    }
  }

  ghost predicate EndsWithLine(groups: seq<seq<string>>, line: string) {
    groups != [] && groups[|groups| - 1] != [] && groups[|groups| - 1][|groups[|groups| - 1]| - 1] == line
  }

  lemma ExtendEndsWith(first: string, groups: seq<seq<string>>, line: string)
    requires EndsWithLine(groups, line)
    ensures EndsWithLine(Extend([first], groups), line) && EndsWithLine([[first]] + groups, line)
    ensures |groups| > 1 ==> Extend([first], groups)[|groups| - 1] == groups[|groups| - 1]
  {
  }

  /** The last group ends with the last line, and is that line alone when the line opens a new block. */
  lemma {:induction false} LastGroup(lines: seq<string>)
    requires lines != [] && AllTidy(lines)
    ensures var gs, last := Groups(lines), lines[|lines| - 1];
            EndsWithLine(gs, last) && (IsOpening(last[0]) ==> gs[|gs| - 1] == [last])
  {
    if |lines| > 1 {
      var rest, last := lines[1..], lines[|lines| - 1];
      LastGroup(rest);
      GroupsSeparate(rest);
      ExtendEndsWith(lines[0], Groups(rest), last);
      TidyContinues(lines[0], lines[1]);
      assert |Groups(rest)| == 1 && IsOpening(last[0]) ==> lines[1] == last;
    }
  }

  /** The last paragraph is a page number exactly when the last line is. */
  lemma LastParagraphIsNumber(lines: seq<string>, number: nat)
    requires AllTidy(lines)
    ensures EndsInNumber(JoinEach(Groups(lines)), number) <==> EndsInNumber(lines, number)
  {
    if lines != [] {
      LastGroup(lines);
      NumberIsTidy(number);
      var gs := Groups(lines);
      assert JoinEach(gs)[|gs| - 1] == Join(gs[|gs| - 1], " ");
      JoinIsNumber(gs[|gs| - 1], number);
    }
  }

  lemma PassAgain(paragraphs: seq<string>, number: nat)
    requires Separated(paragraphs)
    ensures Reflowed(Join(paragraphs, "\n"), Some(number)) == paragraphs <==> !EndsInNumber(paragraphs, number)
  {
    LinesOfJoin(paragraphs);
    if EndsInNumber(paragraphs, number) {
      PrefixStays(paragraphs);
    } else {
      SeparatedStay(paragraphs);
    }
  }

  lemma PrefixStays(paragraphs: seq<string>)
    requires Separated(paragraphs) && paragraphs != []
    ensures Rest("", paragraphs[..|paragraphs| - 1]) == paragraphs[..|paragraphs| - 1] != paragraphs
  {
    var before := paragraphs[..|paragraphs| - 1];
    assert paragraphs[0..|paragraphs| - 1] == before;
    SliceSeparated(paragraphs, 0, |paragraphs| - 1);
    SeparatedStay(before);
    assert |before| != |paragraphs|;
  }

  lemma PassAgainOnLines(lines: seq<string>, number: nat)
    requires AllTidy(lines)
    ensures var paragraphs := JoinEach(Groups(WithoutPageNumber(lines, Some(number))));
            Reflowed(Join(paragraphs, "\n"), Some(number)) != paragraphs <==>
              |lines| >= 2 && EndsInNumber(lines, number) && EndsInNumber(lines[..|lines| - 1], number)
  {
    var kept := WithoutPageNumber(lines, Some(number));
    EndsTwice(lines, number);
    ParagraphsSeparated(kept);
    LastParagraphIsNumber(kept, number);
    PassAgain(JoinEach(Groups(kept)), number);
  }

  /**
   Given the page number again, the second pass changes the result exactly when the text ends in that
   number twice.
   */
  lemma ReflowAgainWithNumber(text: string, number: nat)
    ensures var lines, paragraphs := Lines(text), Reflowed(text, Some(number));
            Reflowed(Join(paragraphs, "\n"), Some(number)) != paragraphs <==>
              |lines| >= 2 && EndsInNumber(lines, number) && EndsInNumber(lines[..|lines| - 1], number)
  {
    var kept := WithoutPageNumber(Lines(text), Some(number));
    assert AllTidy(Lines(text)) by {
      LinesAreTidy(Split(text, '\n'));
    }
    assert Reflowed(text, Some(number)) == JoinEach(Groups(kept)) by {
      EndsTwice(Lines(text), number);
      ReflowIsGroups(kept);
    }
    PassAgainOnLines(Lines(text), number);
  }

  lemma EndsTwice(lines: seq<string>, number: nat)
    requires AllTidy(lines)
    ensures AllTidy(WithoutPageNumber(lines, Some(number)))
    ensures EndsInNumber(WithoutPageNumber(lines, Some(number)), number) <==>
              |lines| >= 2 && EndsInNumber(lines, number) && EndsInNumber(lines[..|lines| - 1], number)
  {
  }

  /** A text that is the page's number on two lines shows it once, and shows nothing when reflowed again. */
  lemma TwiceTheNumber(number: nat)
    ensures var n := Decimal.ToText(number);
            && Reflowed(Join([n, n], "\n"), Some(number)) == [n]
            && Reflowed(Join([n], "\n"), Some(number)) == []
  {
    var n := Decimal.ToText(number);
    NumberIsTidy(number);
    LinesOfJoin([n, n]);
    LinesOfJoin([n]);
    assert [n, n][..1] == [n];
    var none: seq<string> := [];
    assert WithoutPageNumber(Lines(Join([n], "\n")), Some(number)) == none;
    assert Rest("", none) == none;
    assert WithoutPageNumber(Lines(Join([n, n], "\n")), Some(number)) == [n];
    assert [n][1..] == none;
    assert Rest("", [n]) == Rest(n, none) == [n];
  }

  /** Read across, the paragraphs are the lines: reflowing only turns line breaks into spaces. */
  lemma {:induction false} JoinOfGroups(groups: seq<seq<string>>)
    requires forall k | 0 <= k < |groups| :: groups[k] != []
    ensures Join(JoinEach(groups), " ") == Join(Flatten(groups), " ")
    ensures groups != [] ==> Flatten(groups) != []
  {
    if groups != [] {
      JoinOfGroups(groups[1..]);
      if |groups| == 1 {
        assert Flatten(groups) == groups[0];
      } else {
        JoinConcat(groups[0], Flatten(groups[1..]), " ");
        assert JoinEach(groups)[1..] == JoinEach(groups[1..]);
      }
    }
  }

  lemma ReflowKeepsText(text: string, pageNumber: Option<nat>)
    ensures Join(Reflowed(text, pageNumber), " ") == Join(WithoutPageNumber(Lines(text), pageNumber), " ")
  {
    LinesAreTidy(Split(text, '\n'));
    ReflowShowsGroups(text, pageNumber);
    GroupsSeparate(WithoutPageNumber(Lines(text), pageNumber));
    var gs := Groups(WithoutPageNumber(Lines(text), pageNumber));
    assert forall k | 0 <= k < |gs| :: GroupTidy(gs[k]);
    JoinOfGroups(gs);
  }

  // ----- which line breaks are kept -----

  /** The text is broken after the first line: its last character closes, or the next one's first opens a block. */
  ghost predicate IsBreak(line: string, next: string)
    requires line != "" && next != ""
  {
    var last, first := line[|line| - 1], next[0];
    || last in {'.', '!', '?', ':', ';', '\U{BB}', '"', '\'', ')', ']'}
    || 'A' <= first <= 'Z' || '0' <= first <= '9'
    || ('\U{C0}' <= first <= '\U{DE}' && first != '\U{D7}')
    || first in {'-', '*', '\U{2022}', '\U{2013}', '\U{2014}', '\U{B7}'}
  }

  lemma BreaksIff(line: string, next: string)
    requires Tidy(line) && Tidy(next)
    ensures IsBreak(line, next) <==> !Continues(line, next)
  {
    TidyContinues(line, next);
    var closing := ".!?:;\"')]";
    assert closing[0] == '.' && closing[1] == '!' && closing[2] == '?' && closing[3] == ':' && closing[4] == ';';
    assert closing[5] == '"' && closing[6] == '\'' && closing[7] == ')' && closing[8] == ']' && |closing| == 9;
    var dashes := "-*";
    assert dashes[0] == '-' && dashes[1] == '*' && |dashes| == 2;
  }

  ghost predicate IsHeld(group: seq<string>, i: nat)
    requires i < |group| - 1
  {
    group[i] != "" && group[i + 1] != "" && !IsBreak(group[i], group[i + 1])
  }

  /** Neighbouring lines in one group are not broken apart. */
  ghost predicate HoldsTogether(group: seq<string>) {
    forall i | 0 <= i < |group| - 1 :: IsHeld(group, i)
  }

  /** The last line of a group is broken from the first of the next. */
  ghost predicate IsBroken(groups: seq<seq<string>>, k: nat)
    requires k < |groups| - 1
  {
    && groups[k] != [] && groups[k + 1] != []
    && groups[k][|groups[k]| - 1] != "" && groups[k + 1][0] != ""
    && IsBreak(groups[k][|groups[k]| - 1], groups[k + 1][0])
  }

  lemma ConsHoldsTogether(line: string, group: seq<string>)
    requires group != [] && HoldsTogether(group) && line != "" && group[0] != "" && !IsBreak(line, group[0])
    ensures HoldsTogether([line] + group)
  {
    var r := [line] + group;
    forall i | 0 <= i < |r| - 1 ensures IsHeld(r, i) {
      assert i > 0 ==> IsHeld(group, i - 1);
    }
  }

  lemma {:induction false} GroupsHoldTogether(lines: seq<string>)
    requires AllTidy(lines)
    ensures forall k | 0 <= k < |Groups(lines)| :: HoldsTogether(Groups(lines)[k])
  {
    if |lines| > 1 {
      var groups := Groups(lines[1..]);
      GroupsHoldTogether(lines[1..]);
      GroupsSeparate(lines[1..]);
      if Continues(lines[0], lines[1]) {
        BreaksIff(lines[0], lines[1]);
        assert Tidy(lines[1]);
        ConsHoldsTogether(lines[0], groups[0]);
      }
    }
  }

  /** The lines shown of all there are: the page number is gone if it stands alone on the last one. */
  ghost predicate AreShown(lines: seq<string>, all: seq<string>, pageNumber: Option<nat>) {
    if pageNumber.Some? && EndsInNumber(all, pageNumber.value) then lines + [Decimal.ToText(pageNumber.value)] == all
    else lines == all
  }

  ghost predicate AllHold(groups: seq<seq<string>>) {
    forall k | 0 <= k < |groups| :: groups[k] != [] && HoldsTogether(groups[k])
  }

  ghost predicate AllBroken(groups: seq<seq<string>>) {
    forall k | 0 <= k < |groups| - 1 :: IsBroken(groups, k)
  }

  lemma GroupsAreBroken(lines: seq<string>)
    requires AllTidy(lines)
    ensures AllHold(Groups(lines)) && AllBroken(Groups(lines))
  {
    var groups := Groups(lines);
    GroupsSeparate(lines);
    GroupsHoldTogether(lines);
    forall k | 0 <= k < |groups| ensures groups[k] != [] {
      assert GroupTidy(groups[k]);
    }
    forall k | 0 <= k < |groups| - 1 ensures IsBroken(groups, k) {
      assert GroupTidy(groups[k]) && GroupTidy(groups[k + 1]) && EndsThere(groups, k);
      BreaksIff(groups[k][|groups[k]| - 1], groups[k + 1][0]);
    }
  }

  /**
   The reader shows all lines, in order; two neighbouring lines are in one paragraph, a space between
   them, exactly when the first ends no sentence and the second opens no block.
   */
  lemma ReflowBreaksWhere(text: string, pageNumber: Option<nat>) returns (lines: seq<string>, groups: seq<seq<string>>)
    ensures AreShown(lines, Lines(text), pageNumber) && Flatten(groups) == lines
    ensures AreBehind(groups, Reflowed(text, pageNumber))
  {
    lines := WithoutPageNumber(Lines(text), pageNumber);
    groups := Groups(lines);
    LinesAreTidy(Split(text, '\n'));
    ShownLines(Lines(text), pageNumber);
    ReflowIsGroups(lines);
    GroupsKeepLines(lines);
    GroupsAreBehind(lines);
  }

  lemma ShownLines(all: seq<string>, pageNumber: Option<nat>)
    requires AllTidy(all)
    ensures AreShown(WithoutPageNumber(all, pageNumber), all, pageNumber)
    ensures AllTidy(WithoutPageNumber(all, pageNumber))
  {
    if pageNumber.Some? && EndsInNumber(all, pageNumber.value) {
      assert all[..|all| - 1] + [all[|all| - 1]] == all;
    }
  }

  lemma GroupsAreBehind(lines: seq<string>)
    requires AllTidy(lines)
    ensures AreBehind(Groups(lines), JoinEach(Groups(lines)))
  {
    GroupsAreBroken(lines);
  }

  /** Each paragraph shows one group of lines, a space between them. */
  ghost predicate AreBehind(groups: seq<seq<string>>, paragraphs: seq<string>) {
    && AllHold(groups) && AllBroken(groups) && |paragraphs| == |groups|
    && forall k | 0 <= k < |groups| :: paragraphs[k] == Join(groups[k], " ")
  }

  // ----- nothing readable is lost -----

  /** The text without its white space. */
  function Dense(s: string): string {
    if s == "" then "" else (if IsBrowserSpace(s[0]) then "" else [s[0]]) + Dense(s[1..])
  }

  lemma {:induction false} DenseConcat(a: string, b: string)
    ensures Dense(a + b) == Dense(a) + Dense(b)
  {
    if a == "" {
      assert a + b == b;
    } else {
      assert (a + b)[1..] == a[1..] + b;
      DenseConcat(a[1..], b);
    }
  }

  lemma {:induction false} DenseSpaces(s: string)
    requires forall i | 0 <= i < |s| :: IsBrowserSpace(s[i])
    ensures Dense(s) == ""
  {
    if s != "" {
      DenseSpaces(s[1..]);
    }
  }

  lemma DenseTrim(s: string)
    ensures Dense(Trim(s, IsBrowserSpace)) == Dense(s)
  {
    var lo, hi := TrimIsSlice(s, IsBrowserSpace);
    Halves(s, hi);
    Halves(s[..hi], lo);
    DenseConcat(s[..hi], s[hi..]);
    DenseConcat(s[..hi][..lo], s[..hi][lo..]);
    DenseSpaces(s[hi..]);
    DenseSpaces(s[..hi][..lo]);
    assert s[..hi][lo..] == s[lo..hi];
  }

  lemma {:induction false} DenseJoin(parts: seq<string>, sep: string)
    requires forall i | 0 <= i < |sep| :: IsBrowserSpace(sep[i])
    ensures parts != [] ==> Dense(Join(parts, sep)) == Dense(parts[0]) + Dense(Join(parts[1..], sep))
  {
    if |parts| > 1 {
      DenseConcat(parts[0] + sep, Join(parts[1..], sep));
      DenseConcat(parts[0], sep);
      DenseSpaces(sep);
    }
  }

  lemma {:induction false} TrimmedLinesDense(parts: seq<string>)
    ensures Dense(Join(NonEmptyTrimmed(parts), " ")) == Dense(Join(parts, "\n"))
  {
    if parts != [] {
      TrimmedLinesDense(parts[1..]);
      DenseJoin(parts, "\n");
      DenseTrim(parts[0]);
      var line, kept := Trim(parts[0], IsBrowserSpace), NonEmptyTrimmed(parts);
      if line != "" {
        DenseJoin(kept, " ");
        assert kept[1..] == NonEmptyTrimmed(parts[1..]);
      } else {
        assert Dense(line) == "";
        assert kept == NonEmptyTrimmed(parts[1..]);
      }
    }
  }

  /** Whatever is not white space is shown, in order, up to a page number alone on the last line. */
  lemma ReflowKeepsCharacters(text: string, pageNumber: Option<nat>)
    ensures var shown := Dense(Join(Reflowed(text, pageNumber), " "));
            if pageNumber.Some? && EndsInNumber(Lines(text), pageNumber.value)
            then shown + Decimal.ToText(pageNumber.value) == Dense(text)
            else shown == Dense(text)
  {
    ReflowKeepsText(text, pageNumber);
    TrimmedLinesDense(Split(text, '\n'));
    JoinSplit(text, '\n');
    var lines := Lines(text);
    if pageNumber.Some? && lines != [] && lines[|lines| - 1] == Decimal.ToText(pageNumber.value) {
      DenseLast(lines);
      NumberIsDense(pageNumber.value);
    }
  }

  lemma DenseLast(lines: seq<string>)
    requires lines != []
    ensures Dense(Join(lines, " ")) == Dense(Join(lines[..|lines| - 1], " ")) + Dense(lines[|lines| - 1])
  {
    var front, last := lines[..|lines| - 1], lines[|lines| - 1];
    assert lines == front + [last];
    if front != [] {
      JoinLast(front, last);
      DenseBoth(Join(front, " "), last);
    }
  }

  lemma DenseBoth(a: string, b: string)
    ensures Dense(a + " " + b) == Dense(a) + Dense(b)
  {
    DenseConcat(a + " ", b);
    DenseConcat(a, " ");
    DenseSpaces(" ");
    assert Dense(a) + "" == Dense(a);
  }

  lemma {:induction false} DigitsAreDense(s: string)
    requires Decimal.AllDigits(s)
    ensures Dense(s) == s
  {
    if s != "" {
      DigitsAreDense(s[1..]);
      assert s == [s[0]] + s[1..];
    }
  }

  lemma NumberIsDense(n: nat)
    ensures Dense(Decimal.ToText(n)) == Decimal.ToText(n)
  {
    DigitsAreDense(Decimal.ToText(n));
  }
}
