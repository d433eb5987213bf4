/** What normalisation does to the gaps between visible characters: words, lines and paragraphs stay apart. */
module TextLayout {
  import opened Strings
  import opened TextNormal

  /** What lies before a visible character: nothing, blanks, one line break, or more. */
  datatype Gap = AtStart | NoGap | Blanks | LineBreak | ParagraphBreak

  function Widen(gap: Gap, c: char): Gap {
    match gap
    case AtStart => AtStart
    case NoGap => if c == '\n' then LineBreak else Blanks
    case Blanks => if c == '\n' then LineBreak else Blanks
    case LineBreak => if c == '\n' then ParagraphBreak else LineBreak
    case ParagraphBreak => ParagraphBreak
  }

  /** The characters that are no white space, each with the gap before it. */
  function Layout(s: string, gap: Gap): seq<(Gap, char)>
    decreases |s|
  {
    if s == "" then []
    else if IsSpace(s[0]) then Layout(s[1..], Widen(gap, s[0]))
    else [(gap, s[0])] + Layout(s[1..], NoGap)
  }

  function WidenAll(gap: Gap, spaces: string): Gap
    decreases |spaces|
  {
    if spaces == "" then gap else WidenAll(Widen(gap, spaces[0]), spaces[1..])
  }

  lemma {:induction false} LayoutSkips(s: string, k: nat, gap: Gap)
    requires k <= |s| && forall i | 0 <= i < k :: IsSpace(s[i])
    ensures Layout(s, gap) == Layout(s[k..], WidenAll(gap, s[..k]))
  {
    if k > 0 {
      LayoutSkips(s[1..], k - 1, Widen(gap, s[0]));
      assert s[1..][k - 1..] == s[k..] && s[1..][..k - 1] == s[..k][1..];
    }
  }

  lemma LayoutOfFront(front: string, rest: string, gap: Gap)
    requires forall i | 0 <= i < |front| :: IsSpace(front[i])
    ensures Layout(front + rest, gap) == Layout(rest, WidenAll(gap, front))
  {
    LayoutSkips(front + rest, |front|, gap);
    assert (front + rest)[..|front|] == front && (front + rest)[|front|..] == rest;
  }

  /** White space at the end comes before nothing. */
  lemma {:induction false} LayoutCutsEnd(s: string, hi: nat, gap: Gap)
    requires hi <= |s| && forall i | hi <= i < |s| :: IsSpace(s[i])
    ensures Layout(s[..hi], gap) == Layout(s, gap)
    decreases |s|
  {
    if s != "" {
      if hi == 0 {
        LayoutSkips(s, |s|, gap);
      } else {
        LayoutCutsEnd(s[1..], hi - 1, if IsSpace(s[0]) then Widen(gap, s[0]) else NoGap);
        assert s[..hi][1..] == s[1..][..hi - 1];
      }
    }
  }

  lemma {:induction false} StartStays(spaces: string)
    ensures WidenAll(AtStart, spaces) == AtStart
  {
    if spaces != "" {
      StartStays(spaces[1..]);
    }
  }

  /** Blanks alone make a gap where there was none, and change no other. */
  lemma {:induction false} BlanksWiden(gap: Gap, blanks: string)
    requires forall i | 0 <= i < |blanks| :: blanks[i] != '\n'
    ensures WidenAll(gap, blanks) == if blanks != "" && gap == NoGap then Blanks else gap
    decreases |blanks|
  {
    if blanks != "" {
      BlanksWiden(Widen(gap, blanks[0]), blanks[1..]);
    }
  }

  lemma {:induction false} ParagraphBreakStays(spaces: string)
    ensures WidenAll(ParagraphBreak, spaces) == ParagraphBreak
  {
    if spaces != "" {
      ParagraphBreakStays(spaces[1..]);
    }
  }

  /** Two or more newlines are a paragraph break. */
  lemma NewlinesWiden(gap: Gap, newlines: string)
    requires |newlines| >= 2 && forall i | 0 <= i < |newlines| :: newlines[i] == '\n'
    ensures WidenAll(gap, newlines) == if gap == AtStart then AtStart else ParagraphBreak
  {
    StartStays(newlines);
    var rest := newlines[1..];
    assert rest[0] == '\n';
    assert WidenAll(gap, newlines) == WidenAll(Widen(Widen(gap, '\n'), '\n'), rest[1..]);
    ParagraphBreakStays(rest[1..]);
  }

  /** Every long enough run of the class widens a gap as its replacement does. */
  ghost predicate IsFaithful(inClass: char -> bool, least: nat, replacement: string) {
    && (forall c :: inClass(c) ==> IsSpace(c))
    && (forall i | 0 <= i < |replacement| :: IsSpace(replacement[i]))
    && forall gap, run: string | |run| >= least && run != "" && (forall i | 0 <= i < |run| :: inClass(run[i])) ::
         WidenAll(gap, run) == WidenAll(gap, replacement)
  }

  lemma {:induction false} ReplaceRunsKeepsLayout(s: string, inClass: char -> bool, least: nat, replacement: string,
      gap: Gap)
    requires IsFaithful(inClass, least, replacement)
    ensures Layout(ReplaceRuns(s, inClass, least, replacement), gap) == Layout(s, gap)
    decreases |s|
  {
    if s != "" {
      var n := RunLength(s, inClass);
      RunIsLongest(s, inClass);
      if n == 0 {
        ReplaceRunsKeepsLayout(s[1..], inClass, least, replacement,
                               if IsSpace(s[0]) then Widen(gap, s[0]) else NoGap);
        assert ([s[0]] + ReplaceRuns(s[1..], inClass, least, replacement))[1..]
            == ReplaceRuns(s[1..], inClass, least, replacement);
      } else {
        var front := if n >= least then replacement else s[..n];
        assert WidenAll(gap, front) == WidenAll(gap, s[..n]);
        LayoutOfFront(front, ReplaceRuns(s[n..], inClass, least, replacement), gap);
        ReplaceRunsKeepsLayout(s[n..], inClass, least, replacement, WidenAll(gap, front));
        LayoutSkips(s, n, gap);
      }
    }
  }

  lemma SpacesAreFaithful()
    ensures IsFaithful(IsHorizontal, 1, " ")
  {
    forall gap, run: string | |run| >= 1 && (forall i | 0 <= i < |run| :: IsHorizontal(run[i]))
      ensures WidenAll(gap, run) == WidenAll(gap, " ")
    {
      BlanksWiden(gap, run);
      BlanksWiden(gap, " ");
    }
  }

  lemma NewlinesAreFaithful()
    ensures IsFaithful(IsNewline, 3, "\n\n")
  {
    forall gap, run: string | |run| >= 3 && (forall i | 0 <= i < |run| :: IsNewline(run[i]))
      ensures WidenAll(gap, run) == WidenAll(gap, "\n\n")
    {
      NewlinesWiden(gap, run);
      NewlinesWiden(gap, "\n\n");
    }
  }

  lemma {:induction false} DropTrailingKeepsLayout(s: string, gap: Gap)
    ensures Layout(DropTrailing(s), gap) == Layout(s, gap)
    decreases |s|
  {
    if s != "" {
      var n := RunLength(s, IsBlankChar);
      RunIsLongest(s, IsBlankChar);
      if n == 0 {
        DropTrailingKeepsLayout(s[1..], if IsSpace(s[0]) then Widen(gap, s[0]) else NoGap);
        assert ([s[0]] + DropTrailing(s[1..]))[1..] == DropTrailing(s[1..]);
      } else {
        LayoutSkips(s, n, gap);
        BlanksWiden(gap, s[..n]);
        if n < |s| && s[n] == '\n' {
          DropTrailingKeepsLayout(s[n..], gap);
          assert IsSpace(s[n..][0]);
        } else {
          LayoutOfFront(s[..n], DropTrailing(s[n..]), gap);
          DropTrailingKeepsLayout(s[n..], WidenAll(gap, s[..n]));
        }
      }
    }
  }

  lemma StripKeepsLayout(s: string)
    ensures Layout(Strip(s), AtStart) == Layout(s, AtStart)
  {
    var lo, hi := TrimIsSlice(s, IsSpace);
    LayoutCutsEnd(s, hi, AtStart);
    LayoutSkips(s[..hi], lo, AtStart);
    StartStays(s[..hi][..lo]);
    assert s[..hi][lo..] == s[lo..hi];
  }

  /**
   Normalising moves nothing together nor apart: between two visible characters there is no gap, a
   blank, a line break or a paragraph break exactly as there was in the printable text.
   */
  lemma NormalizeKeepsLayout(text: string)
    ensures Layout(Normalize(text), AtStart) == Layout(Filter(Map(text), IsKept), AtStart)
  {
    var printable := Filter(Map(text), IsKept);
    var collapsed := CollapseSpaces(printable);
    var dropped := DropTrailing(collapsed);
    SpacesAreFaithful();
    ReplaceRunsKeepsLayout(printable, IsHorizontal, 1, " ", AtStart);
    DropTrailingKeepsLayout(collapsed, AtStart);
    NewlinesAreFaithful();
    ReplaceRunsKeepsLayout(dropped, IsNewline, 3, "\n\n", AtStart);
    StripKeepsLayout(CapNewlines(dropped));
  }
}
