/** The search index rows and the scored search over them. */
module Search {
  import opened Prelude
  import opened Strings
  import Sorting
  import Catalog

  /** Lower-casing is a map on characters that neither makes nor destroys newlines. */
  ghost predicate FoldKeepsLines(fold: char -> char) {
    forall c :: fold(c) == '\n' <==> c == '\n'
  }

  function Lower(s: string, fold: char -> char): (r: string)
    ensures |r| == |s| && forall i | 0 <= i < |s| :: r[i] == fold(s[i])
  {
    if s == "" then "" else [fold(s[0])] + Lower(s[1..], fold)
  }

  predicate At(text: string, query: string, i: nat)
    requires i + |query| <= |text|
  {
    text[i..i + |query|] == query
  }

  predicate IsIn(query: string, text: string) {
    exists i | 0 <= i <= |text| - |query| :: At(text, query, i)
  }

  /** The text contains the query, case aside; the query is lower case already. */
  predicate Contains(text: string, query: string, fold: char -> char) {
    IsIn(query, Lower(text, fold))
  }

  // ----- the query -----

  function WordEnd(s: string, lo: nat): (hi: nat)
    requires lo <= |s|
    ensures lo <= hi <= |s| && forall i | lo <= i < hi :: !IsSpace(s[i])
    decreases |s| - lo
  {
    if lo < |s| && !IsSpace(s[lo]) then WordEnd(s, lo + 1) else lo
  }

  /** str.split() without a separator. */
  function Words(s: string, lo: nat): (words: seq<string>)
    requires lo <= |s|
    ensures forall w | w in words :: w != "" && forall i | 0 <= i < |w| :: !IsSpace(w[i])
    decreases |s| - lo
  {
    if lo == |s| then []
    else if IsSpace(s[lo]) then Words(s, lo + 1)
    else
      var hi := WordEnd(s, lo + 1);
      [s[lo..hi]] + Words(s, hi)
  }

  function NormalizeQuery(query: string, fold: char -> char): string {
    Lower(Join(Words(query, 0), " "), fold)
  }

  lemma {:induction false} JoinedWordsHaveNoNewline(words: seq<string>)
    requires forall w | w in words :: w != "" && forall i | 0 <= i < |w| :: !IsSpace(w[i])
    ensures Without(Join(words, " "), '\n')
    ensures words != [] ==> Join(words, " ") != ""
  {
    if words != [] {
      assert words[0] in words;
      if |words| > 1 {
        JoinedWordsHaveNoNewline(words[1..]);
      }
    }
  }

  lemma QueryHasNoNewline(query: string, fold: char -> char)
    requires FoldKeepsLines(fold)
    ensures Without(NormalizeQuery(query, fold), '\n')
  {
    JoinedWordsHaveNoNewline(Words(query, 0));
  }

  /** From `lo` on the text is these words, each without white space, with white space around them. */
  ghost predicate ReadsAs(s: string, lo: nat, words: seq<string>)
    requires lo <= |s|
    decreases |words|
  {
    if words == [] then forall i | lo <= i < |s| :: IsSpace(s[i])
    else exists a, b :: lo <= a < b <= |s| && IsWordAt(s, lo, a, b, words[0]) && ReadsAs(s, b, words[1..])
  }

  ghost predicate IsWordAt(s: string, lo: nat, a: nat, b: nat, word: string)
    requires lo <= a < b <= |s|
  {
    && word == s[a..b]
    && (forall i | lo <= i < a :: IsSpace(s[i]))
    && (forall i | a <= i < b :: !IsSpace(s[i]))
    && (b < |s| ==> IsSpace(s[b]))
  }

  lemma {:induction false} WordEndStops(s: string, lo: nat)
    requires lo <= |s|
    ensures WordEnd(s, lo) < |s| ==> IsSpace(s[WordEnd(s, lo)])
    decreases |s| - lo
  {
    if lo < |s| && !IsSpace(s[lo]) {
      WordEndStops(s, lo + 1);
    }
  }

  lemma {:induction false} WordsRead(s: string, lo: nat)
    requires lo <= |s|
    ensures ReadsAs(s, lo, Words(s, lo))
    decreases |s| - lo
  {
    if lo < |s| {
      if IsSpace(s[lo]) {
        WordsRead(s, lo + 1);
        var words := Words(s, lo + 1);
        if words != [] {
          var a, b :| lo + 1 <= a < b <= |s| && IsWordAt(s, lo + 1, a, b, words[0]) && ReadsAs(s, b, words[1..]);
          assert IsWordAt(s, lo, a, b, words[0]);
          assert ReadsAs(s, lo, words);
        }
      } else {
        var hi := WordEnd(s, lo + 1);
        WordEndStops(s, lo + 1);
        WordsRead(s, hi);
        assert IsWordAt(s, lo, lo, hi, s[lo..hi]);
        var words := Words(s, lo);
        assert words[1..] == Words(s, hi) && words[0] == s[lo..hi];
        assert IsWordAt(s, lo, lo, hi, words[0]) && ReadsAs(s, hi, words[1..]);
      }
    }
  }

  /** The query is the words of what was typed, in lower case, one space between them. */
  lemma QueryReads(text: string, fold: char -> char)
    ensures exists words :: ReadsAs(text, 0, words) && NormalizeQuery(text, fold) == Lower(Join(words, " "), fold)
  {
    WordsRead(text, 0);
  }

  // ----- the index row -----

  datatype Named = Named(name: string, slug: string)

  /** What the rebuild reads of a document besides its pages. */
  datatype Described = Described(
    title: string,
    abstract_: string,
    docType: Option<Named>,
    domain: Option<Named>,
    authors: seq<string>,
    language: string,
    year: Option<nat>)

  datatype IndexRow = IndexRow(
    title: string,
    abstract_: string,
    typeName: string,
    typeSlug: string,
    domainName: string,
    domainSlug: string,
    authorNames: string,
    metadataText: string,
    language: string,
    year: Option<nat>,
    pageText: string,
    indexedPageCount: nat)

  function KeptParts(parts: seq<string>): seq<string> {
    if parts == [] then []
    else
      var part := Strip(parts[0]);
      (if part == "" then [] else [part]) + KeptParts(parts[1..])
  }

  function MetadataText(title: string, abstract_: string, typeName: string, domainName: string,
      authors: seq<string>): string {
    Join(KeptParts([title, abstract_, typeName, domainName] + authors), "\n")
  }

  function BuildRow(d: Described, pageText: string, pages: nat): (row: IndexRow)
    ensures IsBuilt(row)
  {
    var typeName := if d.docType.Some? then d.docType.value.name else "";
    var domainName := if d.domain.Some? then d.domain.value.name else "";
    var row := IndexRow(
      d.title, d.abstract_,
      typeName, if d.docType.Some? then d.docType.value.slug else "",
      domainName, if d.domain.Some? then d.domain.value.slug else "",
      Join(d.authors, "\n"),
      MetadataText(d.title, d.abstract_, typeName, domainName, d.authors),
      d.language, d.year, pageText, pages);
    assert HasAuthors(row, d.authors);
    row
  }

  ghost predicate HasAuthors(row: IndexRow, authors: seq<string>) {
    && row.authorNames == Join(authors, "\n")
    && row.metadataText == MetadataText(row.title, row.abstract_, row.typeName, row.domainName, authors)
  }

  /** A row whose metadata text repeats its own fields, as every rebuilt row does. */
  ghost predicate IsBuilt(row: IndexRow) {
    exists authors :: HasAuthors(row, authors)
  }

  lemma {:induction false} KeptPartsAre(parts: seq<string>, kept: string)
    ensures kept in KeptParts(parts) <==> kept != "" && exists i | 0 <= i < |parts| :: Strip(parts[i]) == kept
  {
    if parts != [] {
      KeptPartsAre(parts[1..], kept);
      if i :| 0 <= i < |parts| && Strip(parts[i]) == kept {
        assert i > 0 ==> parts[1..][i - 1] == parts[i];
      }
      if i :| 0 <= i < |parts[1..]| && Strip(parts[1..][i]) == kept {
        assert parts[i + 1] == parts[1..][i];
      }
    }
  }

  /** Each column of the row comes from its own part of the document. */
  lemma RowReads(d: Described, pageText: string, pages: nat)
    ensures var row := BuildRow(d, pageText, pages);
            && row.title == d.title && row.abstract_ == d.abstract_
            && row.language == d.language && row.year == d.year
            && row.pageText == pageText && row.indexedPageCount == pages
            && row.authorNames == Join(d.authors, "\n")
            && (if d.docType.None? then row.typeName == "" && row.typeSlug == ""
                else row.typeName == d.docType.value.name && row.typeSlug == d.docType.value.slug)
            && (if d.domain.None? then row.domainName == "" && row.domainSlug == ""
                else row.domainName == d.domain.value.name && row.domainSlug == d.domain.value.slug)
            && exists kept :: row.metadataText == Join(kept, "\n")
                              && forall s :: s in kept <==> s != "" && IsPartOf(row, d.authors, s)
  {
    var row := BuildRow(d, pageText, pages);
    var parts := [row.title, row.abstract_, row.typeName, row.domainName] + d.authors;
    forall s ensures s in KeptParts(parts) <==> s != "" && IsPartOf(row, d.authors, s) {
      KeptPartsAre(parts, s);
      PartsAre(row, d.authors, s);
    }
  }

  /** One of the texts that describe the document, trimmed. */
  ghost predicate IsPartOf(row: IndexRow, authors: seq<string>, s: string) {
    || s == Strip(row.title) || s == Strip(row.abstract_) || s == Strip(row.typeName) || s == Strip(row.domainName)
    || exists i | 0 <= i < |authors| :: s == Strip(authors[i])
  }

  lemma PartsAre(row: IndexRow, authors: seq<string>, s: string)
    ensures var parts := [row.title, row.abstract_, row.typeName, row.domainName] + authors;
            (exists i | 0 <= i < |parts| :: Strip(parts[i]) == s) <==> IsPartOf(row, authors, s)
  {
    var parts := [row.title, row.abstract_, row.typeName, row.domainName] + authors;
    assert parts[0] == row.title && parts[1] == row.abstract_;
    assert parts[2] == row.typeName && parts[3] == row.domainName;
    if i :| 0 <= i < |authors| && s == Strip(authors[i]) {
      assert parts[i + 4] == authors[i];
    }
    if i :| 0 <= i < |parts| && Strip(parts[i]) == s {
      assert i >= 4 ==> parts[i] == authors[i - 4];
    }
  }

  // ----- a query without newline is found inside one part -----

  lemma IsInWider(query: string, before: string, text: string, after: string)
    requires IsIn(query, text)
    ensures IsIn(query, before + text + after)
  {
    var i :| 0 <= i <= |text| - |query| && At(text, query, i);
    var wide := before + text + after;
    assert wide[|before| + i..|before| + i + |query|] == text[i..i + |query|];
    assert At(wide, query, |before| + i);
  }

  lemma SpansNoNewline(text: string, query: string, i: nat, p: nat)
    requires i <= p < i + |query| <= |text| && At(text, query, i) && Without(query, '\n')
    ensures text[p] != '\n'
  {
    assert text[p] == text[i..i + |query|][p - i];
  }

  lemma IsInOneSide(query: string, left: string, right: string)
    requires Without(query, '\n') && IsIn(query, left + "\n" + right)
    ensures IsIn(query, left) || IsIn(query, right)
  {
    var text, n := left + "\n" + right, |query|;
    var i :| 0 <= i <= |text| - n && At(text, query, i);
    if i + n <= |left| {
      assert text[i..i + n] == left[i..i + n];
      assert At(left, query, i);
    } else {
      if i <= |left| {
        SpansNoNewline(text, query, i, |left|);
      }
      assert text[i..i + n] == right[i - |left| - 1..i - |left| - 1 + n];
      assert At(right, query, i - |left| - 1);
    }
  }

  /** For a newline-free query, being in the joined text is being in one of the parts. */
  lemma {:induction false} InJoinIffInPart(query: string, parts: seq<string>)
    requires Without(query, '\n') && query != ""
    ensures IsIn(query, Join(parts, "\n")) <==> exists i | 0 <= i < |parts| :: IsIn(query, parts[i])
  {
    if |parts| > 1 {
      var rest := Join(parts[1..], "\n");
      InJoinIffInPart(query, parts[1..]);
      if IsIn(query, Join(parts, "\n")) {
        IsInOneSide(query, parts[0], rest);
        if IsIn(query, rest) {
          var i :| 0 <= i < |parts[1..]| && IsIn(query, parts[1..][i]);
          assert IsIn(query, parts[i + 1]);
        }
      }
      if i :| 0 <= i < |parts| && IsIn(query, parts[i]) {
        if i == 0 {
          IsInWider(query, "", parts[0], "\n" + rest);
          assert "" + parts[0] + ("\n" + rest) == Join(parts, "\n");
        } else {
          assert IsIn(query, parts[1..][i - 1]);
          IsInWider(query, parts[0] + "\n", rest, "");
          assert parts[0] + "\n" + rest + "" == Join(parts, "\n");
        }
      }
    }
  }

  function LowerAll(parts: seq<string>, fold: char -> char): (r: seq<string>)
    ensures |r| == |parts| && forall i | 0 <= i < |r| :: r[i] == Lower(parts[i], fold)
  {
    if parts == [] then [] else [Lower(parts[0], fold)] + LowerAll(parts[1..], fold)
  }

  lemma {:induction false} LowerJoin(parts: seq<string>, fold: char -> char)
    requires FoldKeepsLines(fold)
    ensures Lower(Join(parts, "\n"), fold) == Join(LowerAll(parts, fold), "\n")
  {
    if |parts| > 1 {
      LowerJoin(parts[1..], fold);
      assert LowerAll(parts, fold)[1..] == LowerAll(parts[1..], fold);
      LowerConcat(parts[0] + "\n", Join(parts[1..], "\n"), fold);
      LowerConcat(parts[0], "\n", fold);
      assert Lower("\n", fold) == "\n";
    }
  }

  lemma ContainsJoin(query: string, parts: seq<string>, fold: char -> char)
    requires FoldKeepsLines(fold) && Without(query, '\n') && query != ""
    ensures Contains(Join(parts, "\n"), query, fold) <==> exists i | 0 <= i < |parts| :: Contains(parts[i], query, fold)
  {
    LowerJoin(parts, fold);
    InJoinIffInPart(query, LowerAll(parts, fold));
    if i :| 0 <= i < |parts| && Contains(parts[i], query, fold) {
      assert IsIn(query, LowerAll(parts, fold)[i]);
    }
  }

  lemma {:induction false} LowerConcat(a: string, b: string, fold: char -> char)
    ensures Lower(a + b, fold) == Lower(a, fold) + Lower(b, fold)
  {
    if a == "" {
      assert a + b == b;
    } else {
      assert (a + b)[1..] == a[1..] + b;
      LowerConcat(a[1..], b, fold);
    }
  }

  lemma ThreeParts(text: string, lo: nat, hi: nat)
    requires lo <= hi <= |text|
    ensures text[..lo] + text[lo..hi] + text[hi..] == text
  {
  }

  lemma ContainsStripped(text: string, query: string, fold: char -> char)
    requires Contains(Strip(text), query, fold)
    ensures Contains(text, query, fold)
  {
    var lo, hi := TrimIsSlice(text, IsSpace);
    ThreeParts(text, lo, hi);
    LowerConcat(text[..lo] + text[lo..hi], text[hi..], fold);
    LowerConcat(text[..lo], text[lo..hi], fold);
    IsInWider(query, Lower(text[..lo], fold), Lower(text[lo..hi], fold), Lower(text[hi..], fold));
  }

  lemma {:induction false} KeptPartContains(parts: seq<string>, query: string, fold: char -> char)
    requires exists i | 0 <= i < |KeptParts(parts)| :: Contains(KeptParts(parts)[i], query, fold)
    ensures exists i | 0 <= i < |parts| :: Contains(parts[i], query, fold)
  {
    var i :| 0 <= i < |KeptParts(parts)| && Contains(KeptParts(parts)[i], query, fold);
    if Strip(parts[0]) != "" && i == 0 {
      ContainsStripped(parts[0], query, fold);
    } else {
      var k := if Strip(parts[0]) == "" then i else i - 1;
      assert Contains(KeptParts(parts[1..])[k], query, fold);
      KeptPartContains(parts[1..], query, fold);
      var j :| 0 <= j < |parts[1..]| && Contains(parts[1..][j], query, fold);
      assert Contains(parts[j + 1], query, fold);
    }
  }

  // ----- scoring -----

  datatype Field = TitleField | AuthorsField | DomainField | TypeField | AbstractField | TextField

  /** The fields in the order in which they matter. */
  function FieldAt(n: nat): Field
    requires n < 6
  {
    if n == 0 then TitleField else if n == 1 then AuthorsField else if n == 2 then DomainField
    else if n == 3 then TypeField else if n == 4 then AbstractField else TextField
  }

  function Weight(field: Field): nat {
    match field
    case TitleField => 1000
    case AuthorsField => 100
    case DomainField => 50
    case TypeField => 40
    case AbstractField => 20
    case TextField => 5
  }

  predicate Matches(row: IndexRow, query: string, fold: char -> char, field: Field) {
    match field
    case TitleField => Contains(row.title, query, fold)
    case AuthorsField => Contains(row.authorNames, query, fold)
    case DomainField => Contains(row.domainName, query, fold) || Contains(row.domainSlug, query, fold)
    case TypeField => Contains(row.typeName, query, fold) || Contains(row.typeSlug, query, fold)
    case AbstractField => Contains(row.abstract_, query, fold)
    case TextField => Contains(row.pageText, query, fold)
  }

  function Answers(row: IndexRow, query: string, fold: char -> char): Field -> bool {
    field => Matches(row, query, fold, field)
  }

  /** The chosen fields among the first n. */
  function Keep(chosen: Field -> bool, n: nat): seq<Field>
    requires n <= 6
  {
    if n == 0 then [] else Keep(chosen, n - 1) + (if chosen(FieldAt(n - 1)) then [FieldAt(n - 1)] else [])
  }

  function Total(fields: seq<Field>): nat {
    if fields == [] then 0 else Total(fields[..|fields| - 1]) + Weight(fields[|fields| - 1])
  }

  /** The fields that answer a query. */
  function MatchedIn(row: IndexRow, query: string, fold: char -> char): seq<Field> {
    if query == "" then [] else Keep(Answers(row, query, fold), 6)
  }

  /** The running score and list once the first n fields have been looked at. */
  ghost predicate Scored(chosen: Field -> bool, n: nat, score: nat, matched: seq<Field>) {
    n <= 6 && matched == Keep(chosen, n) && score == Total(matched)
  }

  lemma OneMoreField(chosen: Field -> bool, n: nat, field: Field, score: nat, matched: seq<Field>)
    requires n < 6 && FieldAt(n) == field && Scored(chosen, n, score, matched)
    ensures chosen(field) ==> Scored(chosen, n + 1, score + Weight(field), matched + [field])
    ensures !chosen(field) ==> Scored(chosen, n + 1, score, matched)
  {
    assert (matched + [field])[..|matched|] == matched;
  }

  /** One test of the scoring: the field adds its weight and its name when it answers. */
  method ScoreField(answers: Field -> bool, ghost n: nat, field: Field, score: nat, matched: seq<Field>)
    returns (score': nat, matched': seq<Field>)
    requires n < 6 && FieldAt(n) == field && Scored(answers, n, score, matched)
    ensures Scored(answers, n + 1, score', matched')
  {
    OneMoreField(answers, n, field, score, matched);
    score', matched' := score, matched;
    if answers(field) {
      score', matched' := score + Weight(field), matched + [field];
    }
  }

  method ScoreIndex(row: IndexRow, query: string, fold: char -> char)
    returns (score: nat, textMatch: bool, matched: seq<Field>)
    ensures matched == MatchedIn(row, query, fold)
    ensures score == Total(matched)
    ensures textMatch == (TextField in matched)
    ensures if query == "" then matched == [] else NamesColumns(matched, row, query, fold)
  {
    if query == "" {
      return 0, false, [];
    }
    var answers := Answers(row, query, fold);
    score, matched := 0, [];
    score, matched := ScoreField(answers, 0, TitleField, score, matched);
    score, matched := ScoreField(answers, 1, AuthorsField, score, matched);
    score, matched := ScoreField(answers, 2, DomainField, score, matched);
    score, matched := ScoreField(answers, 3, TypeField, score, matched);
    score, matched := ScoreField(answers, 4, AbstractField, score, matched);
    score, matched := ScoreField(answers, 5, TextField, score, matched);
    textMatch := answers(TextField);
    MatchedNamesColumns(row, query, fold);
  }

  /** What each field of the answer stands for: the column, or the columns, that contain the query. */
  ghost predicate NamesColumns(matched: seq<Field>, row: IndexRow, query: string, fold: char -> char) {
    && (TitleField in matched <==> Contains(row.title, query, fold))
    && (AuthorsField in matched <==> Contains(row.authorNames, query, fold))
    && (DomainField in matched <==> Contains(row.domainName, query, fold) || Contains(row.domainSlug, query, fold))
    && (TypeField in matched <==> Contains(row.typeName, query, fold) || Contains(row.typeSlug, query, fold))
    && (AbstractField in matched <==> Contains(row.abstract_, query, fold))
    && (TextField in matched <==> Contains(row.pageText, query, fold))
  }

  lemma MatchedNamesColumns(row: IndexRow, query: string, fold: char -> char)
    requires query != ""
    ensures NamesColumns(MatchedIn(row, query, fold), row, query, fold)
  {
    var answers := Answers(row, query, fold);
    KeptAre(answers, 6, TitleField);
    KeptAre(answers, 6, AuthorsField);
    KeptAre(answers, 6, DomainField);
    KeptAre(answers, 6, TypeField);
    KeptAre(answers, 6, AbstractField);
    KeptAre(answers, 6, TextField);
  }

  /** Where a field stands in the order. */
  function Place(field: Field): (n: nat)
    ensures n < 6 && FieldAt(n) == field
  {
    match field
    case TitleField => 0
    case AuthorsField => 1
    case DomainField => 2
    case TypeField => 3
    case AbstractField => 4
    case TextField => 5
  }

  lemma {:induction false} KeptAre(chosen: Field -> bool, n: nat, field: Field)
    requires n <= 6
    ensures field in Keep(chosen, n) <==> chosen(field) && Place(field) < n
  {
    if n > 0 {
      KeptAre(chosen, n - 1, field);
    }
  }

  function Parts(chosen: Field -> bool, n: nat): nat
    requires n <= 6
  {
    if n == 0 then 0 else Parts(chosen, n - 1) + (if chosen(FieldAt(n - 1)) then Weight(FieldAt(n - 1)) else 0)
  }

  lemma {:induction false} TotalIsParts(chosen: Field -> bool, n: nat)
    requires n <= 6
    ensures Total(Keep(chosen, n)) == Parts(chosen, n)
  {
    if n > 0 {
      TotalIsParts(chosen, n - 1);
      OneMoreField(chosen, n - 1, FieldAt(n - 1), Total(Keep(chosen, n - 1)), Keep(chosen, n - 1));
    }
  }

  lemma {:induction false} KeepAgrees(a: Field -> bool, b: Field -> bool, n: nat)
    requires n <= 6 && forall field :: a(field) <==> b(field)
    ensures Keep(a, n) == Keep(b, n)
  {
    if n > 0 {
      KeepAgrees(a, b, n - 1);
    }
  }

  function Bit(b: bool): nat {
    if b then 1 else 0
  }

  lemma PartsAreWeights(chosen: Field -> bool)
    ensures Parts(chosen, 6)
         == 1000 * Bit(chosen(TitleField)) + 100 * Bit(chosen(AuthorsField)) + 50 * Bit(chosen(DomainField))
          + 40 * Bit(chosen(TypeField)) + 20 * Bit(chosen(AbstractField)) + 5 * Bit(chosen(TextField))
  {
    assert Parts(chosen, 3) == Parts(chosen, 2) + 50 * Bit(chosen(DomainField));
    assert Parts(chosen, 4) == Parts(chosen, 3) + 40 * Bit(chosen(TypeField));
    assert Parts(chosen, 5) == Parts(chosen, 4) + 20 * Bit(chosen(AbstractField));
  }

  lemma WeightsDistinct(a: nat, b: nat, c: nat, d: nat, e: nat, f: nat, p: nat, q: nat, r: nat, s: nat, t: nat, u: nat)
    requires a <= 1 && b <= 1 && c <= 1 && d <= 1 && e <= 1 && f <= 1
    requires p <= 1 && q <= 1 && r <= 1 && s <= 1 && t <= 1 && u <= 1
    requires 1000 * a + 100 * b + 50 * c + 40 * d + 20 * e + 5 * f ==
        1000 * p + 100 * q + 50 * r + 40 * s + 20 * t + 5 * u
    ensures a == p && b == q && c == r && d == s && e == t && f == u
  {
    assert a == p;
    assert f == u;
    assert c == r;
  }

  lemma PartsTellFields(a: Field -> bool, b: Field -> bool)
    requires Parts(a, 6) == Parts(b, 6)
    ensures forall field :: a(field) <==> b(field)
  {
    forall field ensures a(field) <==> b(field) {
      SameBits(a, b, field);
    }
  }

  lemma SameBits(a: Field -> bool, b: Field -> bool, field: Field)
    requires Parts(a, 6) == Parts(b, 6)
    ensures a(field) <==> b(field)
  {
    PartsAreWeights(a);
    PartsAreWeights(b);
    WeightsDistinct(
      Bit(a(TitleField)), Bit(a(AuthorsField)), Bit(a(DomainField)), Bit(a(TypeField)), Bit(a(AbstractField)),
          Bit(a(TextField)),
      Bit(b(TitleField)), Bit(b(AuthorsField)), Bit(b(DomainField)), Bit(b(TypeField)), Bit(b(AbstractField)),
          Bit(b(TextField)));
  }

  /** The score alone tells which fields answered: no two selections of fields weigh the same. */
  lemma ScoreTellsFields(a: Field -> bool, b: Field -> bool)
    ensures Total(Keep(a, 6)) == Total(Keep(b, 6)) <==> Keep(a, 6) == Keep(b, 6)
  {
    TotalIsParts(a, 6);
    TotalIsParts(b, 6);
    if Total(Keep(a, 6)) == Total(Keep(b, 6)) {
      PartsTellFields(a, b);
      KeepAgrees(a, b, 6);
    }
  }

  /** The score adds up the weights of the columns that contain the query. */
  lemma ScoreReads(row: IndexRow, query: string, fold: char -> char)
    requires query != ""
    ensures Total(MatchedIn(row, query, fold))
         == (if Contains(row.title, query, fold) then 1000 else 0)
          + (if Contains(row.authorNames, query, fold) then 100 else 0)
          + (if Contains(row.domainName, query, fold) || Contains(row.domainSlug, query, fold) then 50 else 0)
          + (if Contains(row.typeName, query, fold) || Contains(row.typeSlug, query, fold) then 40 else 0)
          + (if Contains(row.abstract_, query, fold) then 20 else 0)
          + (if Contains(row.pageText, query, fold) then 5 else 0)
  {
    TotalIsParts(Answers(row, query, fold), 6);
    PartsAreWeights(Answers(row, query, fold));
  }

  lemma TitleOutweighs(chosen: Field -> bool)
    ensures Total(Keep(chosen, 6)) >= 1000 <==> TitleField in Keep(chosen, 6)
    ensures Total(Keep(chosen, 6)) > 0 <==> Keep(chosen, 6) != []
    ensures Keep(chosen, 6) != [] <==> exists field :: chosen(field)
  {
    TotalIsParts(chosen, 6);
    PartsAreWeights(chosen);
    KeptAre(chosen, 6, TitleField);
    forall field ensures field in Keep(chosen, 6) <==> chosen(field) {
      KeptAre(chosen, 6, field);
    }
    assert Keep(chosen, 6) != [] ==> Keep(chosen, 6)[0] in Keep(chosen, 6);
  }

  // ----- the hits -----

  datatype Criteria = Criteria(
    typeSlug: string, domainSlug: string, language: string,
    access: Option<Catalog.AccessValue>, year: Option<nat>)

  /** A row beside the publication status and access model its document has now. */
  datatype Candidate = Candidate(document: nat, row: IndexRow, status: Catalog.PublicationStatus,
      access: Catalog.AccessValue)

  predicate Passes(c: Candidate, criteria: Criteria) {
    && c.status == Catalog.Published && c.access != Catalog.Private
    && (criteria.typeSlug != "" ==> c.row.typeSlug == criteria.typeSlug)
    && (criteria.domainSlug != "" ==> c.row.domainSlug == criteria.domainSlug)
    && (criteria.language != "" ==> c.row.language == criteria.language)
    && (criteria.access.Some? ==> c.access == criteria.access.value)
    && (criteria.year.Some? ==> c.row.year == criteria.year)
  }

  /** The database's filter: any of nine columns contains the query. */
  predicate Selects(row: IndexRow, query: string, fold: char -> char) {
    || query == ""
    || Contains(row.title, query, fold)
    || Contains(row.abstract_, query, fold)
    || Contains(row.authorNames, query, fold)
    || Contains(row.typeName, query, fold)
    || Contains(row.typeSlug, query, fold)
    || Contains(row.domainName, query, fold)
    || Contains(row.domainSlug, query, fold)
    || Contains(row.metadataText, query, fold)
    || Contains(row.pageText, query, fold)
  }

  ghost predicate AnyMatch(row: IndexRow, query: string, fold: char -> char) {
    exists field :: Matches(row, query, fold, field)
  }

  /** What is found in the metadata text is found in one of the scored fields. */
  lemma MetadataAddsNothing(row: IndexRow, query: string, fold: char -> char)
    requires IsBuilt(row) && FoldKeepsLines(fold) && Without(query, '\n') && query != ""
    requires Contains(row.metadataText, query, fold)
    ensures AnyMatch(row, query, fold)
  {
    var authors :| HasAuthors(row, authors);
    var parts := [row.title, row.abstract_, row.typeName, row.domainName] + authors;
    ContainsJoin(query, KeptParts(parts), fold);
    KeptPartContains(parts, query, fold);
    var i :| 0 <= i < |parts| && Contains(parts[i], query, fold);
    PartAnswers(row, authors, query, fold, parts[i]);
  }

  lemma PartAnswers(row: IndexRow, authors: seq<string>, query: string, fold: char -> char, part: string)
    requires HasAuthors(row, authors) && FoldKeepsLines(fold) && Without(query, '\n') && query != ""
    requires part in [row.title, row.abstract_, row.typeName, row.domainName] + authors && Contains(part, query, fold)
    ensures AnyMatch(row, query, fold)
  {
    if part in authors {
      var i :| 0 <= i < |authors| && authors[i] == part;
      ContainsJoin(query, authors, fold);
      assert Matches(row, query, fold, AuthorsField);
    } else {
      assert || Matches(row, query, fold, TitleField) || Matches(row, query, fold, AbstractField)
             || Matches(row, query, fold, TypeField) || Matches(row, query, fold, DomainField);
    }
  }

  /** A row is selected by a query exactly when some field answers it. */
  lemma SelectedIffMatched(row: IndexRow, query: string, fold: char -> char)
    requires IsBuilt(row) && FoldKeepsLines(fold) && Without(query, '\n') && query != ""
    ensures Selects(row, query, fold) <==> MatchedIn(row, query, fold) != []
    ensures Selects(row, query, fold) <==> Total(MatchedIn(row, query, fold)) > 0
  {
    TitleOutweighs(Answers(row, query, fold));
    if Contains(row.metadataText, query, fold) {
      MetadataAddsNothing(row, query, fold);
    }
    assert AnyMatch(row, query, fold) <==> MatchedIn(row, query, fold) != [] by {
      assert forall field :: Answers(row, query, fold)(field) <==> Matches(row, query, fold, field);
    }
    if Selects(row, query, fold) && !Contains(row.metadataText, query, fold) {
      SelectedByField(row, query, fold);
    }
  }

  lemma SelectedByField(row: IndexRow, query: string, fold: char -> char)
    requires Selects(row, query, fold) && query != "" && !Contains(row.metadataText, query, fold)
    ensures AnyMatch(row, query, fold)
  {
    assert || Matches(row, query, fold, TitleField) || Matches(row, query, fold, AuthorsField)
           || Matches(row, query, fold, DomainField) || Matches(row, query, fold, TypeField)
           || Matches(row, query, fold, AbstractField) || Matches(row, query, fold, TextField);
  }

  datatype Hit = Hit(document: nat, title: string, score: nat, textMatch: bool, matchedIn: seq<Field>)

  function HitFor(c: Candidate, query: string, fold: char -> char): Hit {
    var matched := MatchedIn(c.row, query, fold);
    Hit(c.document, c.row.title, Total(matched), TextField in matched, matched)
  }

  predicate IsHit(c: Candidate, criteria: Criteria, query: string, fold: char -> char) {
    Passes(c, criteria) && Selects(c.row, query, fold)
  }

  function Hits(candidates: seq<Candidate>, criteria: Criteria, query: string, fold: char -> char): seq<Hit> {
    if candidates == [] then []
    else
      var before, last := Hits(candidates[..|candidates| - 1], criteria, query, fold), candidates[|candidates| - 1];
      if IsHit(last, criteria, query, fold) then before + [HitFor(last, query, fold)] else before
  }

  /** Best score first, then by lower-case title, then by document. */
  predicate Ranks(a: Hit, b: Hit, fold: char -> char) {
    || a.score > b.score
    || (a.score == b.score
        && (var s, t := Lower(a.title, fold), Lower(b.title, fold);
            (s != t && Sorting.TextLe(s, t)) || (s == t && a.document <= b.document)))
  }

  function Ranking(fold: char -> char): (Hit, Hit) -> bool {
    (a: Hit, b: Hit) => Ranks(a, b, fold)
  }

  lemma RanksTransitive(a: Hit, b: Hit, c: Hit, fold: char -> char)
    requires Ranks(a, b, fold) && Ranks(b, c, fold)
    ensures Ranks(a, c, fold)
  {
    var s, t, u := Lower(a.title, fold), Lower(b.title, fold), Lower(c.title, fold);
    if a.score == b.score == c.score && Sorting.TextLe(s, t) && Sorting.TextLe(t, u) {
      Sorting.TextLeTransitive(s, t, u);
      if s == u {
        Sorting.TextLeAntisymmetric(s, t);
      }
    }
  }

  lemma RankingIsPreorder(fold: char -> char)
    ensures Sorting.TotalPreorder(Ranking(fold))
  {
    var le := Ranking(fold);
    forall a, b ensures le(a, b) || le(b, a) {
      Sorting.TextLeTotal(Lower(a.title, fold), Lower(b.title, fold));
    }
    forall a, b, c | le(a, b) && le(b, c) ensures le(a, c) {
      RanksTransitive(a, b, c, fold);
    }
  }

  function BoundedLimit(limit: int): nat {
    if limit < 1 then 1 else Min(limit, 50)
  }

  function Limited(hits: seq<Hit>, limit: Option<int>): (r: seq<Hit>)
    ensures r <= hits
  {
    if limit.None? || |hits| <= BoundedLimit(limit.value) then hits else hits[..BoundedLimit(limit.value)]
  }

  method SearchDocuments(candidates: seq<Candidate>, criteria: Criteria, text: string, limit: Option<int>,
      fold: char -> char)
    returns (results: seq<Hit>)
    ensures results == Limited(Ranked(candidates, criteria, text, fold), limit)
  {
    var query := NormalizeQuery(text, fold);
    results := [];
    for i := 0 to |candidates|
      invariant results == Hits(candidates[..i], criteria, query, fold)
    {
      var c := candidates[i];
      assert candidates[..i + 1][..i] == candidates[..i];
      if IsHit(c, criteria, query, fold) {
        var score, textMatch, matched := ScoreIndex(c.row, query, fold);
        results := results + [Hit(c.document, c.row.title, score, textMatch, matched)];
      }
    }
    assert candidates[..|candidates|] == candidates;
    results := Limited(Sorting.Sort(results, Ranking(fold)), limit);
  }

  /** The hit stands for one of the candidates that pass the filters. */
  ghost predicate IsHitOf(candidates: seq<Candidate>, criteria: Criteria, query: string, fold: char -> char, hit: Hit) {
    exists c :: c in candidates && IsHit(c, criteria, query, fold) && hit == HitFor(c, query, fold)
  }

  lemma HitOfAppend(front: seq<Candidate>, last: Candidate, criteria: Criteria, query: string, fold: char -> char,
      hit: Hit)
    ensures IsHitOf(front + [last], criteria, query, fold, hit) <==>
              || IsHitOf(front, criteria, query, fold, hit)
              || (IsHit(last, criteria, query, fold) && hit == HitFor(last, query, fold))
  {
    assert forall c :: c in front + [last] <==> c in front || c == last;
  }

  lemma {:induction false} HitsMembers(candidates: seq<Candidate>, criteria: Criteria, query: string,
                                       fold: char -> char, hit: Hit)
    ensures hit in Hits(candidates, criteria, query, fold) <==> IsHitOf(candidates, criteria, query, fold, hit)
  {
    if candidates != [] {
      var last, front := candidates[|candidates| - 1], candidates[..|candidates| - 1];
      HitsMembers(front, criteria, query, fold, hit);
      assert candidates == front + [last];
      HitOfAppend(front, last, criteria, query, fold, hit);
      HitsOfLast(candidates, criteria, query, fold, hit);
    }
  }

  lemma HitsOfLast(candidates: seq<Candidate>, criteria: Criteria, query: string, fold: char -> char, hit: Hit)
    requires candidates != []
    ensures var last, front := candidates[|candidates| - 1], candidates[..|candidates| - 1];
            hit in Hits(candidates, criteria, query, fold) <==>
              || hit in Hits(front, criteria, query, fold)
              || (IsHit(last, criteria, query, fold) && hit == HitFor(last, query, fold))
  {
  }

  /**
   A non-blank query gives each hit a positive score and at least one field, and 1000 or more to title
   matches alone.
   */
  lemma HitIsExplained(candidates: seq<Candidate>, criteria: Criteria, text: string, fold: char -> char, hit: Hit)
    requires FoldKeepsLines(fold)
    requires forall c | c in candidates :: IsBuilt(c.row)
    requires hit in Hits(candidates, criteria, NormalizeQuery(text, fold), fold)
    ensures NormalizeQuery(text, fold) != "" ==> hit.score > 0 && hit.matchedIn != []
    ensures hit.score >= 1000 <==> TitleField in hit.matchedIn
  {
    var query := NormalizeQuery(text, fold);
    HitsMembers(candidates, criteria, query, fold, hit);
    QueryHasNoNewline(text, fold);
    var c :| c in candidates && IsHit(c, criteria, query, fold) && hit == HitFor(c, query, fold);
    if query != "" {
      SelectedIffMatched(c.row, query, fold);
      TitleOutweighs(Answers(c.row, query, fold));
    }
  }

  /** All hits, in the order of the ranking. */
  function Ranked(candidates: seq<Candidate>, criteria: Criteria, text: string, fold: char -> char): seq<Hit> {
    Sorting.Sort(Hits(candidates, criteria, NormalizeQuery(text, fold), fold), Ranking(fold))
  }

  lemma RankedMembers(candidates: seq<Candidate>, criteria: Criteria, text: string, fold: char -> char)
    ensures var query, all := NormalizeQuery(text, fold), Ranked(candidates, criteria, text, fold);
            && (forall hit :: hit in all <==> hit in Hits(candidates, criteria, query, fold))
            && (forall i, j | 0 <= i < j < |all| :: Ranks(all[i], all[j], fold))
  {
    var query, all := NormalizeQuery(text, fold), Ranked(candidates, criteria, text, fold);
    var hits := Hits(candidates, criteria, query, fold);
    RankingIsPreorder(fold);
    Sorting.SortSorts(hits, Ranking(fold));
    Sorting.SortKeepsMembers(hits, Ranking(fold));
    forall i, j | 0 <= i < j < |all| ensures Ranks(all[i], all[j], fold) {
      assert Ranking(fold)(all[i], all[j]);
    }
  }

  /**
   What a search returns: only candidates that pass the filters, and all of them when there is no
   limit, each once; for a query that is not blank each hit has a positive score and names the
   fields that answered.
   */
  lemma SearchFindsAll(candidates: seq<Candidate>, criteria: Criteria, text: string, limit: Option<int>,
      fold: char -> char, hit: Hit)
    requires FoldKeepsLines(fold)
    requires forall c | c in candidates :: IsBuilt(c.row)
    ensures var query, all := NormalizeQuery(text, fold), Ranked(candidates, criteria, text, fold);
            && (hit in all <==> IsHitOf(candidates, criteria, query, fold, hit))
            && (hit in Limited(all, limit) ==> hit in all)
            && (hit in all && query != "" ==> hit.score > 0 && hit.matchedIn != [])
            && multiset(all) == multiset(Hits(candidates, criteria, query, fold))
  {
    RankedMembers(candidates, criteria, text, fold);
    HitsMembers(candidates, criteria, NormalizeQuery(text, fold), fold, hit);
    if hit in Ranked(candidates, criteria, text, fold) {
      HitIsExplained(candidates, criteria, text, fold, hit);
    }
  }

  /** What readers may find at all, and each criterion: an empty one admits everything. */
  ghost predicate Admits(criteria: Criteria, c: Candidate) {
    && c.status == Catalog.Published && c.access != Catalog.Private
    && (criteria.typeSlug == "" || criteria.typeSlug == c.row.typeSlug)
    && (criteria.domainSlug == "" || criteria.domainSlug == c.row.domainSlug)
    && (criteria.language == "" || criteria.language == c.row.language)
    && (criteria.access == None || criteria.access == Some(c.access))
    && (criteria.year == None || criteria.year == c.row.year)
  }

  /** Some column of the row contains the query. */
  ghost predicate IsFound(row: IndexRow, query: string, fold: char -> char) {
    || Contains(row.title, query, fold) || Contains(row.abstract_, query, fold)
    || Contains(row.authorNames, query, fold) || Contains(row.pageText, query, fold)
    || Contains(row.typeName, query, fold) || Contains(row.typeSlug, query, fold)
    || Contains(row.domainName, query, fold) || Contains(row.domainSlug, query, fold)
  }

  /** The hit is the candidate's document, under its title, with the columns in which the query was found. */
  ghost predicate IsAnswer(c: Candidate, query: string, fold: char -> char, hit: Hit) {
    && hit.document == c.document && hit.title == c.row.title
    && (hit.textMatch <==> query != "" && Contains(c.row.pageText, query, fold))
    && if query == "" then hit.matchedIn == [] && hit.score == 0 else NamesColumns(hit.matchedIn, c.row, query, fold)
  }

  lemma HitIsAnswer(c: Candidate, query: string, fold: char -> char)
    ensures IsAnswer(c, query, fold, HitFor(c, query, fold))
  {
    if query != "" {
      MatchedNamesColumns(c.row, query, fold);
    }
  }

  lemma HitIff(c: Candidate, criteria: Criteria, query: string, fold: char -> char)
    requires IsBuilt(c.row) && FoldKeepsLines(fold) && Without(query, '\n')
    ensures IsHit(c, criteria, query, fold) <==> Admits(criteria, c) && (query == "" || IsFound(c.row, query, fold))
  {
    if query != "" {
      SelectedIffMatched(c.row, query, fold);
      MatchedNamesColumns(c.row, query, fold);
      FoundIffMatched(c.row, query, fold);
    }
  }

  lemma FoundIffMatched(row: IndexRow, query: string, fold: char -> char)
    requires query != ""
    ensures IsFound(row, query, fold) <==> MatchedIn(row, query, fold) != []
  {
    MatchedNamesColumns(row, query, fold);
    TitleOutweighs(Answers(row, query, fold));
    if MatchedIn(row, query, fold) != [] {
      assert MatchedIn(row, query, fold)[0] in MatchedIn(row, query, fold);
    }
  }

  /**
   The hits are answers, and exactly for the candidates that the criteria admit and of which, unless
   the query is blank, some column contains it.
   */
  lemma HitsAreAnswers(candidates: seq<Candidate>, criteria: Criteria, text: string, fold: char -> char)
    requires FoldKeepsLines(fold)
    requires forall c | c in candidates :: IsBuilt(c.row)
    ensures var query, all := NormalizeQuery(text, fold), Ranked(candidates, criteria, text, fold);
            && (forall hit | hit in all ::
                  exists c :: (c in candidates && IsAnswer(c, query, fold, hit)
                               && Admits(criteria, c) && (query == "" || IsFound(c.row, query, fold))))
            && (forall c | c in candidates && Admits(criteria, c) && (query == "" || IsFound(c.row, query, fold)) ::
                  exists hit :: hit in all && IsAnswer(c, query, fold, hit))
  {
    var query, all := NormalizeQuery(text, fold), Ranked(candidates, criteria, text, fold);
    QueryHasNoNewline(text, fold);
    RankedMembers(candidates, criteria, text, fold);
    forall hit | hit in all
      ensures exists c :: (c in candidates && IsAnswer(c, query, fold, hit)
                           && Admits(criteria, c) && (query == "" || IsFound(c.row, query, fold)))
    {
      HitsMembers(candidates, criteria, query, fold, hit);
      var c :| c in candidates && IsHit(c, criteria, query, fold) && hit == HitFor(c, query, fold);
      HitIsAnswer(c, query, fold);
      HitIff(c, criteria, query, fold);
    }
    forall c | c in candidates && Admits(criteria, c) && (query == "" || IsFound(c.row, query, fold))
      ensures exists hit :: hit in all && IsAnswer(c, query, fold, hit)
    {
      HitIff(c, criteria, query, fold);
      HitIsAnswer(c, query, fold);
      HitsMembers(candidates, criteria, query, fold, HitFor(c, query, fold));
    }
  }

  /** The order of two hits: score, then lower-case title, then document. */
  ghost predicate InOrder(a: Hit, b: Hit, fold: char -> char) {
    || a.score > b.score
    || (a.score == b.score && Lower(a.title, fold) != Lower(b.title, fold)
        && Sorting.TextLe(Lower(a.title, fold), Lower(b.title, fold)))
    || (a.score == b.score && Lower(a.title, fold) == Lower(b.title, fold) && a.document <= b.document)
  }

  /**
   The results are the first of all hits in that order, at most fifty and at least one when a limit is
   given; a title that contains the query never follows one that does not.
   */
  lemma ResultsInOrder(candidates: seq<Candidate>, criteria: Criteria, text: string, limit: Option<int>,
      fold: char -> char)
    requires FoldKeepsLines(fold)
    requires forall c | c in candidates :: IsBuilt(c.row)
    ensures var query, all := NormalizeQuery(text, fold), Ranked(candidates, criteria, text, fold);
            var results := Limited(all, limit);
            && results <= all
            && |results| == (if limit.None? then |all| else Min(|all|, Max(1, Min(limit.value, 50))))
            && (forall i, j | 0 <= i < j < |all| :: InOrder(all[i], all[j], fold))
            && (query != "" ==> forall i, j | 0 <= i < j < |all| && Contains(all[j].title, query, fold) ::
                  Contains(all[i].title, query, fold))
  {
    var query, all := NormalizeQuery(text, fold), Ranked(candidates, criteria, text, fold);
    RankedMembers(candidates, criteria, text, fold);
    forall i, j | 0 <= i < j < |all| ensures InOrder(all[i], all[j], fold) {
      assert Ranks(all[i], all[j], fold);
    }
    if query != "" {
      TitleHitsFirst(candidates, criteria, text, fold);
    }
  }

  lemma TitleHitsFirst(candidates: seq<Candidate>, criteria: Criteria, text: string, fold: char -> char)
    requires FoldKeepsLines(fold) && NormalizeQuery(text, fold) != ""
    requires forall c | c in candidates :: IsBuilt(c.row)
    ensures var query, all := NormalizeQuery(text, fold), Ranked(candidates, criteria, text, fold);
            forall i, j | 0 <= i < j < |all| && Contains(all[j].title, query, fold) ::
              Contains(all[i].title, query, fold)
  {
    var query, all := NormalizeQuery(text, fold), Ranked(candidates, criteria, text, fold);
    RankedMembers(candidates, criteria, text, fold);
    TitleFieldsFirst(candidates, criteria, text, fold);
    forall i, j | 0 <= i < j < |all| && Contains(all[j].title, query, fold)
      ensures Contains(all[i].title, query, fold)
    {
      assert all[i] in all && all[j] in all;
      HitHasItsTitle(candidates, criteria, query, fold, all[i]);
      HitHasItsTitle(candidates, criteria, query, fold, all[j]);
    }
  }

  lemma HitHasItsTitle(candidates: seq<Candidate>, criteria: Criteria, query: string, fold: char -> char, hit: Hit)
    requires query != "" && hit in Hits(candidates, criteria, query, fold)
    ensures TitleField in hit.matchedIn <==> Contains(hit.title, query, fold)
  {
    HitsMembers(candidates, criteria, query, fold, hit);
    var c :| c in candidates && IsHit(c, criteria, query, fold) && hit == HitFor(c, query, fold);
    HitIsAnswer(c, query, fold);
  }

  /** Title matches come before all others, and no hit left out by the limit ranks before one returned. */
  lemma TitlesFirst(candidates: seq<Candidate>, criteria: Criteria, text: string, limit: Option<int>,
      fold: char -> char)
    requires FoldKeepsLines(fold)
    requires forall c | c in candidates :: IsBuilt(c.row)
    ensures var all := Ranked(candidates, criteria, text, fold);
            var results := Limited(all, limit);
            && (forall i, j | 0 <= i < j < |results| && TitleField in results[j].matchedIn ::
                 TitleField in results[i].matchedIn)
            && (forall i, j | 0 <= i < |results| <= j < |all| :: Ranks(results[i], all[j], fold))
  {
    RankedMembers(candidates, criteria, text, fold);
    TitleFieldsFirst(candidates, criteria, text, fold);
  }

  lemma TitleFieldsFirst(candidates: seq<Candidate>, criteria: Criteria, text: string, fold: char -> char)
    requires FoldKeepsLines(fold)
    requires forall c | c in candidates :: IsBuilt(c.row)
    ensures var all := Ranked(candidates, criteria, text, fold);
            forall i, j | 0 <= i < j < |all| && TitleField in all[j].matchedIn :: TitleField in all[i].matchedIn
  {
    var all := Ranked(candidates, criteria, text, fold);
    RankedMembers(candidates, criteria, text, fold);
    forall i, j | 0 <= i < j < |all| && TitleField in all[j].matchedIn ensures TitleField in all[i].matchedIn {
      assert all[i] in all && all[j] in all;
      HitIsExplained(candidates, criteria, text, fold, all[i]);
      HitIsExplained(candidates, criteria, text, fold, all[j]);
      assert Ranks(all[i], all[j], fold);
    }
  }

  /** A query found in the text of the pages is found within one page. */
  lemma TextMatchLiesInOnePage(row: IndexRow, pages: seq<string>, text: string, fold: char -> char)
    requires FoldKeepsLines(fold) && NormalizeQuery(text, fold) != "" && row.pageText == Join(pages, "\n")
    ensures TextField in MatchedIn(row, NormalizeQuery(text, fold), fold)
       <==> exists i | 0 <= i < |pages| :: Contains(pages[i], NormalizeQuery(text, fold), fold)
  {
    var query := NormalizeQuery(text, fold);
    QueryHasNoNewline(text, fold);
    ContainsJoin(query, pages, fold);
    KeptAre(Answers(row, query, fold), 6, TextField);
  }
}
