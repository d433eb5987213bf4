/**
 The one normalisation every extracted text passes through. The regular-expression substitutions
 are scans from the left that always take the longest run.
 */
module TextNormal {
  import opened Strings

  const LAQUO := '\U{AB}'
  const RAQUO := '\U{BB}'

  /** Extractors emit these control codes for the French quotation marks. */
  function Substitute(c: char): char {
    if c == '\U{13}' then LAQUO else if c == '\U{14}' then RAQUO else c
  }

  /** Unicode category Cc. */
  predicate IsControl(c: char) {
    c as int <= 0x1F || 0x7F <= c as int <= 0x9F
  }

  predicate IsLayout(c: char) {
    c == '\t' || c == '\n'
  }

  predicate IsKept(c: char) {
    IsLayout(c) || !IsControl(c)
  }

  /** White space within a line, tabulations excepted. */
  predicate IsHorizontal(c: char) {
    IsSpace(c) && !IsLayout(c)
  }

  predicate IsBlankChar(c: char) {
    IsSpace(c) && c != '\n'
  }

  predicate IsNewline(c: char) {
    c == '\n'
  }

  function Map(s: string): (r: string) {
    if s == "" then "" else [Substitute(s[0])] + Map(s[1..])
  }

  lemma {:induction false} MapSubstitutes(s: string)
    ensures |Map(s)| == |s| && forall i | 0 <= i < |s| ::
              Map(s)[i] == if s[i] == '\U{13}' then '\U{AB}' else if s[i] == '\U{14}' then '\U{BB}' else s[i]
  {
    if s != "" {
      MapSubstitutes(s[1..]);
    }
  }

  function Filter(s: string, keep: char -> bool): string {
    if s == "" then "" else (if keep(s[0]) then [s[0]] else "") + Filter(s[1..], keep)
  }

  /** Length of the longest run of the class at the front. */
  function RunLength(s: string, inClass: char -> bool): (n: nat)
    ensures n <= |s|
  {
    if s == "" || !inClass(s[0]) then 0 else 1 + RunLength(s[1..], inClass)
  }

  lemma {:induction false} RunIsLongest(s: string, inClass: char -> bool)
    ensures var n := RunLength(s, inClass); (forall i | 0 <= i < n :: inClass(s[i])) && (n < |s| ==> !inClass(s[n]))
  {
    if s != "" && inClass(s[0]) {
      RunIsLongest(s[1..], inClass);
      assert forall i | 1 <= i < RunLength(s, inClass) :: s[i] == s[1..][i - 1];
    }
  }

  /** Substitution of every run of at least `least` characters. */
  function ReplaceRuns(s: string, inClass: char -> bool, least: nat, replacement: string): string {
    if s == "" then ""
    else
      var n := RunLength(s, inClass);
      if n == 0 then [s[0]] + ReplaceRuns(s[1..], inClass, least, replacement)
      else (if n >= least then replacement else s[..n]) + ReplaceRuns(s[n..], inClass, least, replacement)
  }

  function CollapseSpaces(s: string): string {
    ReplaceRuns(s, IsHorizontal, 1, " ")
  }

  /** Blanks that run up to a newline are dropped. */
  function DropTrailing(s: string): string {
    if s == "" then ""
    else
      var n := RunLength(s, IsBlankChar);
      if n == 0 then [s[0]] + DropTrailing(s[1..])
      else if n < |s| && s[n] == '\n' then DropTrailing(s[n..])
      else s[..n] + DropTrailing(s[n..])
  }

  function CapNewlines(s: string): string {
    ReplaceRuns(s, IsNewline, 3, "\n\n")
  }

  function Normalize(text: string): string {
    var printable := Filter(Map(text), IsKept);
    Strip(CapNewlines(DropTrailing(CollapseSpaces(printable))))
  }

  // ----- the normal form -----

  /** No control characters but tabulations and newlines. */
  ghost predicate Printable(s: string) {
    forall i | 0 <= i < |s| ::
      s[i] == '\t' || s[i] == '\n' || !(s[i] as int <= 0x1F || 0x7F <= s[i] as int <= 0x9F)
  }

  /** Horizontal white space is single ordinary spaces. */
  ghost predicate SingleSpaces(s: string) {
    && (forall i | 0 <= i < |s| :: IsSpace(s[i]) ==> s[i] in {' ', '\t', '\n'})
    && (forall i | 0 <= i < |s| - 1 :: !(s[i] == ' ' && s[i + 1] == ' '))
  }

  ghost predicate NoTrailing(s: string) {
    forall i | 0 <= i < |s| - 1 :: s[i + 1] == '\n' ==> !IsSpace(s[i]) || s[i] == '\n'
  }

  ghost predicate NoGaps(s: string) {
    forall i | 0 <= i < |s| - 2 :: !(s[i] == '\n' && s[i + 1] == '\n' && s[i + 2] == '\n')
  }

  ghost predicate NormalForm(s: string) {
    Printable(s) && SingleSpaces(s) && NoTrailing(s) && NoGaps(s) && Trimmed(s, IsSpace)
  }

  lemma {:induction false} FilterKeeps(s: string)
    ensures Printable(Filter(s, IsKept))
  {
    if s != "" {
      FilterKeeps(s[1..]);
    }
  }

  lemma {:induction false} Collapsed(s: string)
    requires Printable(s)
    ensures var r := CollapseSpaces(s);
            && Printable(r) && SingleSpaces(r)
            && (s == "" <==> r == "") && (s != "" && !IsHorizontal(s[0]) ==> r[0] == s[0])
    decreases |s|
  {
    if s != "" {
      var n := RunLength(s, IsHorizontal);
      RunIsLongest(s, IsHorizontal);
      Collapsed(s[if n == 0 then 1 else n..]);
      assert IsHorizontal(' ') && IsKept(' ');
    }
  }

  /** Two neighbours that neither rule about neighbours forbids. */
  ghost predicate MayMeet(c: char, d: char) {
    !(IsHorizontal(c) && IsHorizontal(d)) && !(IsBlankChar(c) && d == '\n')
  }

  lemma ConcatTidy(a: string, b: string)
    requires Printable(a) && SingleSpaces(a) && NoTrailing(a)
    requires Printable(b) && SingleSpaces(b) && NoTrailing(b)
    requires a != "" && b != "" ==> MayMeet(a[|a| - 1], b[0])
    ensures Printable(a + b) && SingleSpaces(a + b) && NoTrailing(a + b)
  {
    var r := a + b;
    forall i | 0 <= i < |r| - 1 ensures MayMeet(r[i], r[i + 1]) {
      if i + 1 < |a| {
        assert r[i] == a[i] && r[i + 1] == a[i + 1];
      } else if i >= |a| {
        assert r[i] == b[i - |a|] && r[i + 1] == b[i - |a| + 1];
      }
    }
  }

  lemma ConcatGaps(a: string, b: string)
    requires NoGaps(a) && NoGaps(b)
    requires a != "" && b != "" ==> !(a[|a| - 1] == '\n' && b[0] == '\n')
    ensures NoGaps(a + b)
  {
    var r := a + b;
    forall i | 0 <= i < |r| - 2 ensures !(r[i] == '\n' && r[i + 1] == '\n' && r[i + 2] == '\n') {
      if i >= |a| {
        var k := i - |a|;
        assert r[i] == b[k] && r[i + 1] == b[k + 1] && r[i + 2] == b[k + 2];
      }
    }
  }

  lemma SliceTidy(s: string, lo: nat, hi: nat)
    requires lo <= hi <= |s| && Printable(s) && SingleSpaces(s) && NoTrailing(s)
    ensures Printable(s[lo..hi]) && SingleSpaces(s[lo..hi]) && NoTrailing(s[lo..hi])
  {
    var r := s[lo..hi];
    assert forall i | 0 <= i < |r| :: r[i] == s[i + lo];
  }

  lemma {:induction false} Dropped(s: string)
    requires Printable(s) && SingleSpaces(s)
    ensures var r := DropTrailing(s); Printable(r) && SingleSpaces(r) && NoTrailing(r)
    ensures s != "" ==> DropTrailing(s) != ""
    ensures s != "" ==> DropTrailing(s)[0] == s[0] || (IsBlankChar(s[0]) && DropTrailing(s)[0] == '\n')
    decreases |s|
  {
    if s != "" {
      var n := RunLength(s, IsBlankChar);
      RunIsLongest(s, IsBlankChar);
      var k := if n == 0 then 1 else n;
      SliceSingle(s, k);
      Dropped(s[k..]);
      if !(0 < n < |s| && s[n] == '\n') {
        BlankRunTidy(s, k);
        ConcatTidy(s[..k], DropTrailing(s[k..]));
        assert [s[0]] == s[..1];
      }
    }
  }

  lemma SliceSingle(s: string, k: nat)
    requires k <= |s| && Printable(s) && SingleSpaces(s)
    ensures Printable(s[k..]) && SingleSpaces(s[k..]) && Printable(s[..k]) && SingleSpaces(s[..k])
    ensures 0 < k < |s| ==> !(IsHorizontal(s[k - 1]) && IsHorizontal(s[k]))
  {
    assert forall i | 0 <= i < |s[k..]| :: s[k..][i] == s[i + k];
  }

  lemma BlankRunTidy(s: string, k: nat)
    requires k <= |s| && (k == 1 || forall i | 0 <= i < k :: IsBlankChar(s[i]))
    ensures NoTrailing(s[..k])
  {
  }

  /** What the first run of newlines, or the first other character, becomes. */
  function CapHead(s: string): (head: string)
    requires s != ""
  {
    var n := RunLength(s, IsNewline);
    if n == 0 then s[..1] else if n >= 3 then "\n\n" else s[..n]
  }

  function CapSize(s: string): (k: nat)
    requires s != ""
    ensures 0 < k <= |s|
  {
    if RunLength(s, IsNewline) == 0 then 1 else RunLength(s, IsNewline)
  }

  lemma CapUnfolds(s: string)
    requires s != ""
    ensures CapNewlines(s) == CapHead(s) + CapNewlines(s[CapSize(s)..])
  {
    assert s[..1] == [s[0]];
  }

  lemma NewlinesTidy(s: string)
    requires |s| <= 2 && forall i | 0 <= i < |s| :: s[i] == '\n'
    ensures Printable(s) && SingleSpaces(s) && NoTrailing(s) && NoGaps(s)
  {
  }

  lemma CapEndMeets(s: string)
    requires s != "" && SingleSpaces(s) && NoTrailing(s)
    ensures var k := CapSize(s); k < |s| ==> MayMeet(s[k - 1], s[k]) && !(s[k - 1] == '\n' && s[k] == '\n')
  {
    RunIsLongest(s, IsNewline);
    var k := CapSize(s);
    assert k < |s| ==> MayMeet(s[k - 1], s[k - 1 + 1]);
  }

  lemma CapHeadTidy(s: string)
    requires s != "" && Printable(s) && SingleSpaces(s) && NoTrailing(s)
    ensures var head, k := CapHead(s), CapSize(s);
            && Printable(head) && SingleSpaces(head) && NoTrailing(head) && NoGaps(head)
            && head != "" && head[0] == s[0] && head[|head| - 1] == s[k - 1]
            && (k < |s| ==> MayMeet(s[k - 1], s[k]) && !(s[k - 1] == '\n' && s[k] == '\n'))
  {
    RunIsLongest(s, IsNewline);
    CapEndMeets(s);
    if RunLength(s, IsNewline) == 0 {
      SliceTidy(s, 0, 1);
      assert s[0..1] == s[..1];
    } else {
      NewlinesTidy(CapHead(s));
    }
  }

  lemma {:induction false} Capped(s: string)
    requires Printable(s) && SingleSpaces(s) && NoTrailing(s)
    ensures var r := CapNewlines(s); Printable(r) && SingleSpaces(r) && NoTrailing(r) && NoGaps(r)
    ensures s != "" ==> CapNewlines(s) != "" && CapNewlines(s)[0] == s[0]
    decreases |s|
  {
    if s != "" {
      var k := CapSize(s);
      CapHeadTidy(s);
      SliceTidy(s, k, |s|);
      assert s[k..|s|] == s[k..];
      Capped(s[k..]);
      CapUnfolds(s);
      ConcatTidy(CapHead(s), CapNewlines(s[k..]));
      ConcatGaps(CapHead(s), CapNewlines(s[k..]));
    }
  }

  lemma SliceNormal(s: string, lo: nat, hi: nat)
    requires lo <= hi <= |s| && Printable(s) && SingleSpaces(s) && NoTrailing(s) && NoGaps(s)
    ensures var r := s[lo..hi]; Printable(r) && SingleSpaces(r) && NoTrailing(r) && NoGaps(r)
  {
    var r := s[lo..hi];
    assert forall i | 0 <= i < |r| :: r[i] == s[i + lo];
  }

  lemma NormalizeReachesNormalForm(text: string)
    ensures NormalForm(Normalize(text))
  {
    FilterKeeps(Map(text));
    var printable := Filter(Map(text), IsKept);
    Collapsed(printable);
    Dropped(CollapseSpaces(printable));
    var s := CapNewlines(DropTrailing(CollapseSpaces(printable)));
    Capped(DropTrailing(CollapseSpaces(printable)));
    var lo, hi := TrimIsSlice(s, IsSpace);
    SliceNormal(s, lo, hi);
  }

  // ----- texts in normal form, and only those, are left as they are -----

  lemma {:induction false} PrintableIsFixed(s: string)
    requires Printable(s)
    ensures Filter(Map(s), IsKept) == s
  {
    if s != "" {
      assert Substitute(s[0]) == s[0];
      assert Map(s)[1..] == Map(s[1..]);
      PrintableIsFixed(s[1..]);
    }
  }

  lemma NoLongBlank(s: string, n: nat)
    requires SingleSpaces(s) && n <= |s| && forall i | 0 <= i < n :: IsHorizontal(s[i])
    ensures n <= 1 && (n == 1 ==> s[..1] == " ")
  {
    assert |s| >= 2 ==> !(IsHorizontal(s[0]) && IsHorizontal(s[0 + 1]));
  }

  lemma {:induction false} CollapsedIsFixed(s: string)
    requires SingleSpaces(s)
    ensures CollapseSpaces(s) == s
    decreases |s|
  {
    if s != "" {
      var n := RunLength(s, IsHorizontal);
      RunIsLongest(s, IsHorizontal);
      NoLongBlank(s, n);
      assert forall i | 0 <= i < |s[1..]| :: s[1..][i] == s[i + 1];
      CollapsedIsFixed(s[1..]);
      assert s == [s[0]] + s[1..];
    }
  }

  lemma {:induction false} DroppedIsFixed(s: string)
    requires NoTrailing(s)
    ensures DropTrailing(s) == s
    decreases |s|
  {
    if s != "" {
      var n := RunLength(s, IsBlankChar);
      RunIsLongest(s, IsBlankChar);
      var k := if n == 0 then 1 else n;
      assert forall i | 0 <= i < |s[k..]| :: s[k..][i] == s[i + k];
      assert 0 < n < |s| ==> IsBlankChar(s[n - 1]);
      DroppedIsFixed(s[k..]);
      Halves(s, k);
    }
  }

  lemma NoLongRun(s: string, n: nat)
    requires NoGaps(s) && n <= |s| && forall i | 0 <= i < n :: s[i] == '\n'
    ensures n <= 2
  {
    assert |s| >= 3 ==> !(s[0] == '\n' && s[0 + 1] == '\n' && s[0 + 2] == '\n');
  }

  lemma {:induction false} CappedIsFixed(s: string)
    requires NoGaps(s)
    ensures CapNewlines(s) == s
    decreases |s|
  {
    if s != "" {
      var k := CapSize(s);
      RunIsLongest(s, IsNewline);
      NoLongRun(s, RunLength(s, IsNewline));
      SliceGaps(s, k);
      CappedIsFixed(s[k..]);
      CapUnfolds(s);
      Halves(s, k);
    }
  }

  lemma SliceGaps(s: string, k: nat)
    requires NoGaps(s) && k <= |s|
    ensures NoGaps(s[k..])
  {
    var r := s[k..];
    forall i | 0 <= i < |r| - 2 ensures !(r[i] == '\n' && r[i + 1] == '\n' && r[i + 2] == '\n') {
      assert !(s[i + k] == '\n' && s[i + k + 1] == '\n' && s[i + k + 2] == '\n');
    }
  }

  /** The normal forms are exactly the fixed points. */
  lemma FixedIffNormalForm(s: string)
    ensures Normalize(s) == s <==> NormalForm(s)
  {
    NormalizeReachesNormalForm(s);
    if NormalForm(s) {
      PrintableIsFixed(s);
      CollapsedIsFixed(s);
      DroppedIsFixed(s);
      CappedIsFixed(s);
      TrimmedIsFixed(s, IsSpace);
    }
  }

  lemma NormalizeIdempotent(text: string)
    ensures Normalize(Normalize(text)) == Normalize(text)
  {
    NormalizeReachesNormalForm(text);
    FixedIffNormalForm(Normalize(text));
  }

  // ----- what is visible stays, in order -----

  predicate IsVisible(c: char) {
    !IsSpace(c) && !IsControl(c)
  }

  function Visible(s: string): string {
    Filter(s, IsVisible)
  }

  lemma {:induction false} FilterConcat(a: string, b: string, keep: char -> bool)
    ensures Filter(a + b, keep) == Filter(a, keep) + Filter(b, keep)
  {
    if a == "" {
      assert a + b == b;
    } else {
      assert (a + b)[1..] == a[1..] + b;
      FilterConcat(a[1..], b, keep);
      Regroup(if keep(a[0]) then [a[0]] else "", Filter(a[1..], keep), Filter(b, keep));
    }
  }

  lemma FilterHalves(s: string, k: nat, keep: char -> bool)
    requires k <= |s|
    ensures Filter(s, keep) == Filter(s[..k], keep) + Filter(s[k..], keep)
  {
    Halves(s, k);
    FilterConcat(s[..k], s[k..], keep);
  }

  lemma {:induction false} NothingVisible(s: string)
    requires forall i | 0 <= i < |s| :: !IsVisible(s[i])
    ensures Visible(s) == ""
  {
    if s != "" {
      NothingVisible(s[1..]);
    }
  }

  lemma {:induction false} FilterVisible(s: string)
    ensures Visible(Filter(s, IsKept)) == Visible(s)
  {
    if s != "" {
      FilterVisible(s[1..]);
      FilterConcat(if IsKept(s[0]) then [s[0]] else "", Filter(s[1..], IsKept), IsVisible);
    }
  }

  lemma {:induction false} ReplaceRunsVisible(s: string, inClass: char -> bool, least: nat, replacement: string)
    requires forall c :: inClass(c) ==> !IsVisible(c)
    requires forall i | 0 <= i < |replacement| :: !IsVisible(replacement[i])
    ensures Visible(ReplaceRuns(s, inClass, least, replacement)) == Visible(s)
    decreases |s|
  {
    if s != "" {
      var n := RunLength(s, inClass);
      RunIsLongest(s, inClass);
      var k := if n == 0 then 1 else n;
      var front := if n == 0 then [s[0]] else if n >= least then replacement else s[..n];
      ReplaceRunsVisible(s[k..], inClass, least, replacement);
      FilterConcat(front, ReplaceRuns(s[k..], inClass, least, replacement), IsVisible);
      FilterHalves(s, k, IsVisible);
      if n > 0 {
        NothingVisible(front);
        NothingVisible(s[..k]);
      }
    }
  }

  lemma {:induction false} DropTrailingVisible(s: string)
    ensures Visible(DropTrailing(s)) == Visible(s)
    decreases |s|
  {
    if s != "" {
      var n := RunLength(s, IsBlankChar);
      RunIsLongest(s, IsBlankChar);
      var k := if n == 0 then 1 else n;
      var front := if n == 0 then [s[0]] else if n < |s| && s[n] == '\n' then "" else s[..n];
      DropTrailingVisible(s[k..]);
      FilterConcat(front, DropTrailing(s[k..]), IsVisible);
      assert DropTrailing(s) == front + DropTrailing(s[k..]);
      FilterHalves(s, k, IsVisible);
      if n > 0 {
        NothingVisible(front);
        NothingVisible(s[..k]);
      }
    }
  }

  lemma CutBackVisible(s: string, hi: nat)
    requires hi <= |s| && forall i | hi <= i < |s| :: !IsVisible(s[i])
    ensures Visible(s[..hi]) == Visible(s)
  {
    FilterHalves(s, hi, IsVisible);
    NothingVisible(s[hi..]);
  }

  lemma CutFrontVisible(s: string, lo: nat)
    requires lo <= |s| && forall i | 0 <= i < lo :: !IsVisible(s[i])
    ensures Visible(s[lo..]) == Visible(s)
  {
    FilterHalves(s, lo, IsVisible);
    NothingVisible(s[..lo]);
  }

  lemma StripVisible(s: string)
    ensures Visible(Strip(s)) == Visible(s)
  {
    var lo, hi := TrimIsSlice(s, IsSpace);
    CutBackVisible(s, hi);
    CutFrontVisible(s[..hi], lo);
    assert s[..hi][lo..] == s[lo..hi];
  }

  /** Normalising keeps every visible character, in order; the two control codes become their quotation marks. */
  lemma NormalizeKeepsVisible(text: string)
    ensures Visible(Normalize(text)) == Visible(Map(text))
  {
    var printable := Filter(Map(text), IsKept);
    FilterVisible(Map(text));
    ReplaceRunsVisible(printable, IsHorizontal, 1, " ");
    DropTrailingVisible(CollapseSpaces(printable));
    ReplaceRunsVisible(DropTrailing(CollapseSpaces(printable)), IsNewline, 3, "\n\n");
    StripVisible(CapNewlines(DropTrailing(CollapseSpaces(printable))));
  }

  /** A text normalises to nothing exactly when it shows nothing. */
  lemma EmptyIffNothingVisible(text: string)
    ensures Normalize(text) == "" <==> Visible(Map(text)) == ""
  {
    NormalizeKeepsVisible(text);
    NormalizeReachesNormalForm(text);
    var r := Normalize(text);
    if r != "" {
      assert IsVisible(r[0]);
    }
  }
}
