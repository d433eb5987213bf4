/**
 The pages of one version, their texts and their index records. Page rows are held in page order,
 as every query lists them.
 */
module PageIndex {
  import opened Prelude
  import opened Strings
  import Decimal
  import opened TextNormal
  import opened TextLayout

  /** The digest column. Distinct texts are taken to have distinct digests. */
  datatype Digest = Sha256(text: string)

  datatype ExtractionMethod = TextLayer | Ocr

  datatype Extracted = Extracted(text: string, language: string, extraction: ExtractionMethod)

  datatype RecordStatus = Queued | Indexed | Failed

  datatype ErrorCode = NoError | NoExtractedText | NoExtractableText | NoSourceAsset | OcrEmpty

  datatype IndexRecord = IndexRecord(status: RecordStatus, digest: Digest, language: string, error: ErrorCode)

  datatype Page = Page(number: nat, processed: bool, text: Option<Extracted>, record: Option<IndexRecord>)

  datatype IngestError = NoPages | PageConflict | BlankText | NoText | Unreadable

  const OCR_MIN_CHARACTERS := 20

  // ----- one page -----

  /** Attaching goes through the one normalisation, and refuses what it leaves blank. */
  function Attached(page: Page, text: string, language: string, extraction: ExtractionMethod)
    : Result<Page, IngestError>
  {
    if Strip(text) == "" || Normalize(text) == "" then Err(BlankText)
    else Ok(page.(text := Some(Extracted(Normalize(text), language, extraction))))
  }

  function DigestOf(text: Extracted): Digest {
    Sha256(text.text)
  }

  /** A record already queued for this very text is left as it is, whatever became of it. */
  function Requeued(record: Option<IndexRecord>, text: Extracted): IndexRecord {
    if record.Some? && record.value.digest == DigestOf(text) && record.value.language == text.language then record.value
    else IndexRecord(Queued, DigestOf(text), text.language, NoError)
  }

  function QueuedPage(page: Page): Result<Page, IngestError> {
    if page.text.None? then Err(NoText) else Ok(page.(record := Some(Requeued(page.record, page.text.value))))
  }

  predicate StartsWith(text: string, prefix: string) {
    prefix <= text
  }

  /** Neither blank nor a placeholder. */
  predicate IsIndexable(text: string) {
    Strip(text) != "" && !StartsWith(Strip(text), "[Page ")
  }

  function FailedPage(page: Page, error: ErrorCode): Page {
    if page.record.None? then page else page.(record := Some(page.record.value.(status := Failed, error := error)))
  }

  /** The page after its record was consumed, and whether it is indexed now. */
  function Consumed(page: Page): (Page, bool) {
    if page.record.None? then (page, false)
    else if page.text.None? then (FailedPage(page, NoExtractedText), false)
    else if !IsIndexable(page.text.value.text) then (FailedPage(page, NoExtractableText), false)
    else if page.record.value.status == Indexed then (page, true)
    else (page.(record := Some(page.record.value.(status := Indexed, error := NoError))), true)
  }

  predicate NeedsOcr(page: Page) {
    || page.text.None?
    || (page.text.value.extraction != Ocr
        && (StartsWith(page.text.value.text, "[Page ") || |Strip(page.text.value.text)| < OCR_MIN_CHARACTERS))
  }

  /** What the recogniser can make of a page. */
  datatype Recognition = NoBinary | NoSource | Recognised(text: string)

  /** Recognising, attaching and queueing as one step; an exception leaves the page as it was. */
  function Recognise(page: Page, found: Recognition, language: string): Page {
    if !NeedsOcr(page) then page
    else
      match found
      case NoBinary => page
      case NoSource => FailedPage(page, NoSourceAsset)
      case Recognised(text) =>
        if Strip(text) == "" then FailedPage(page, OcrEmpty)
        else
          match Attached(page, text, language, Ocr)
          case Err(_) => page
          case Ok(p) => p.(record := Some(Requeued(p.record, p.text.value)))
  }

  // ----- the placeholder of a page without text -----

  function PlaceholderWords(n: nat): seq<string> {
    ["[Page", Decimal.ToText(n), ":", "aucun", "texte", "extractible", "\U{2014}", "OCR", "requis]"]
  }

  function Placeholder(n: nat): string {
    Join(PlaceholderWords(n), " ")
  }

  ghost predicate IsWord(w: string) {
    w != "" && forall i | 0 <= i < |w| :: IsVisible(w[i])
  }

  lemma WordTidy(w: string)
    requires IsWord(w)
    ensures Printable(w) && SingleSpaces(w) && NoTrailing(w) && NoGaps(w) && Trimmed(w, IsSpace)
  {
  }

  lemma {:induction false} JoinedWordsNormal(words: seq<string>)
    requires words != [] && forall i | 0 <= i < |words| :: IsWord(words[i])
    ensures NormalForm(Join(words, " ")) && Join(words, " ") != "" && IsVisible(Join(words, " ")[0])
  {
    WordTidy(words[0]);
    if |words| > 1 {
      var w, rest := words[0], Join(words[1..], " ");
      JoinedWordsNormal(words[1..]);
      assert " "[0] == ' ' && IsKept(' ');
      ConcatTidy(w, " ");
      ConcatGaps(w, " ");
      ConcatTidy(w + " ", rest);
      ConcatGaps(w + " ", rest);
    }
  }

  lemma PlaceholderWordsAreWords(n: nat)
    ensures forall i | 0 <= i < |PlaceholderWords(n)| :: IsWord(PlaceholderWords(n)[i])
  {
    var number := Decimal.ToText(n);
    assert forall i | 0 <= i < |number| :: IsVisible(number[i]);
  }

  lemma NormalStays(text: string)
    requires NormalForm(text)
    ensures Normalize(text) == text && Strip(text) == text
  {
    FixedIffNormalForm(text);
    TrimmedIsFixed(text, IsSpace);
  }

  lemma JoinStarts(words: seq<string>)
    requires |words| > 1
    ensures StartsWith(Join(words, " "), words[0] + " ")
  {
  }

  lemma PlaceholderStarts(n: nat)
    ensures StartsWith(Placeholder(n), "[Page ")
  {
    JoinStarts(PlaceholderWords(n));
    assert "[Page" + " " == "[Page ";
  }

  /** The placeholder passes normalisation unchanged, is recognised as one and is never indexed. */
  lemma PlaceholderIsStable(n: nat)
    ensures Normalize(Placeholder(n)) == Placeholder(n) != ""
    ensures StartsWith(Placeholder(n), "[Page ") && !IsIndexable(Placeholder(n))
  {
    PlaceholderWordsAreWords(n);
    JoinedWordsNormal(PlaceholderWords(n));
    NormalStays(Placeholder(n));
    PlaceholderStarts(n);
  }

  lemma BlankNormalizesToNothing(text: string)
    requires Normalize(text) != ""
    ensures Strip(text) != ""
  {
    TrimBlank(text);
    if IsBlank(text) {
      MapSubstitutes(text);
      NothingVisible(Map(text));
      EmptyIffNothingVisible(text);
    }
  }

  /** Consuming a record indexes it exactly when its page has a text that is neither blank nor a placeholder. */
  lemma ConsumptionIndexesIff(page: Page)
    requires page.record.Some?
    ensures var (after, indexed) := Consumed(page);
            && after.text == page.text && after.number == page.number && after.processed == page.processed
            && after.record.Some? && after.record.value.digest == page.record.value.digest
            && after.record.value.language == page.record.value.language
            && (indexed <==> page.text.Some? && Strip(page.text.value.text) != ""
                             && !("[Page " <= Strip(page.text.value.text)))
            && after.record.value.status == (if indexed then Indexed else Failed)
            && (indexed && page.record.value.status != Indexed ==> after.record.value.error == NoError)
            && (!indexed ==> after.record.value.error ==
                               if page.text.None? then NoExtractedText else NoExtractableText)
  {
  }

  /** The text layer of the page is missing, is a placeholder, or is shorter than a credible one. */
  ghost predicate LacksText(page: Page) {
    page.text.Some? ==>
      && page.text.value.extraction == TextLayer
      && ("[Page " <= page.text.value.text || |Strip(page.text.value.text)| < 20)
  }

  /**
   Recognition replaces the text of a page that lacks one, by all that is visible in the recognised
   text, and of no other page; a text that shows nothing, and a missing file, replace none.
   */
  lemma RecognitionHolds(page: Page, found: Recognition, language: string)
    ensures var after := Recognise(page, found, language);
            && after.number == page.number && after.processed == page.processed
            && (!LacksText(page) || found.NoBinary? ==> after == page)
            && (found.NoSource? || (found.Recognised? && Visible(Map(found.text)) == "") ==> after.text == page.text)
            && (LacksText(page) && page.record.Some? && found.NoSource? ==>
                  after.record == Some(page.record.value.(status := Failed, error := NoSourceAsset)))
            && (LacksText(page) && page.record.Some? && found.Recognised? && Strip(found.text) == "" ==>
                  after.record == Some(page.record.value.(status := Failed, error := OcrEmpty)))
            && (LacksText(page) && found.Recognised? && Visible(Map(found.text)) != "" ==>
                  && after.text.Some? && after.text.value.extraction == Ocr && after.text.value.language == language
                  && NormalForm(after.text.value.text)
                  && Visible(after.text.value.text) == Visible(Map(found.text))
                  && Layout(after.text.value.text, AtStart) == Layout(Filter(Map(found.text), IsKept), AtStart))
  {
    if found.Recognised? {
      NormalizedText(found.text);
    }
  }

  lemma NormalizedText(text: string)
    ensures NormalForm(Normalize(text)) && Visible(Normalize(text)) == Visible(Map(text))
    ensures Layout(Normalize(text), AtStart) == Layout(Filter(Map(text), IsKept), AtStart)
    ensures Normalize(text) != "" <==> Visible(Map(text)) != ""
    ensures Normalize(text) != "" ==> Strip(text) != ""
  {
    EmptyIffNothingVisible(text);
    NormalizeReachesNormalForm(text);
    NormalizeKeepsVisible(text);
    NormalizeKeepsLayout(text);
    if Normalize(text) != "" {
      BlankNormalizesToNothing(text);
    }
  }

  // ----- loading the pages of a version -----

  predicate NumbersAre(pages: seq<Page>, count: nat) {
    |pages| == count && forall i | 0 <= i < count :: pages[i].number == i + 1
  }

  function TextFor(number: nat, raw: string): string {
    if raw == "" then Placeholder(number) else raw
  }

  /** The extracted text survives normalisation; an empty one is replaced by a placeholder and always does. */
  predicate IsUsable(number: nat, raw: string) {
    Normalize(TextFor(number, raw)) != ""
  }

  lemma EmptyIsUsable(number: nat)
    ensures IsUsable(number, "")
  {
    PlaceholderIsStable(number);
  }

  function CleanText(number: nat, raw: string, language: string): Extracted {
    Extracted(Normalize(TextFor(number, raw)), language, TextLayer)
  }

  /** The page with its text attached, once it is marked processed and queued for indexing. */
  function Finished(page: Page): Page
    requires page.text.Some?
  {
    page.(processed := true, record := Some(Requeued(page.record, page.text.value)))
  }

  function Reloaded(page: Page, raw: string, language: string): Page {
    Finished(page.(text := Some(CleanText(page.number, raw, language))))
  }

  function Blank(number: nat): Page {
    Page(number, false, None, None)
  }

  /** The page rows after create_page_records: new ones when there were none. */
  function Created(pages: seq<Page>, count: nat): (r: seq<Page>)
    requires pages == [] || NumbersAre(pages, count)
    ensures NumbersAre(r, count)
  {
    if pages == [] then seq(count, i requires 0 <= i < count => Blank(i + 1)) else pages
  }

  function LoadError(pages: seq<Page>, raws: seq<string>): Option<IngestError> {
    if raws == [] then Some(NoPages)
    else if pages != [] && !NumbersAre(pages, |raws|) then Some(PageConflict)
    else if exists i | 0 <= i < |raws| :: !IsUsable(i + 1, raws[i]) then Some(BlankText)
    else None
  }

  function Loaded(pages: seq<Page>, raws: seq<string>, language: string): (r: seq<Page>)
    requires pages == [] || NumbersAre(pages, |raws|)
    ensures NumbersAre(r, |raws|)
  {
    var created := Created(pages, |raws|);
    seq(|raws|, i requires 0 <= i < |raws| => Reloaded(created[i], raws[i], language))
  }

  class VersionPages {
    var pages: seq<Page>

    constructor ()
      ensures pages == []
    {
      pages := [];
    }

    method CreatePageRecords(count: int) returns (error: Option<IngestError>)
      modifies this
      ensures error == if count < 1 then Some(NoPages)
                       else if old(pages) != [] && !NumbersAre(old(pages), count) then Some(PageConflict)
                       else None
      ensures error.None? ==> pages == Created(old(pages), count)
      ensures error.Some? ==> pages == old(pages)
    {
      if count < 1 {
        return Some(NoPages);
      }
      if pages != [] && !NumbersAre(pages, count) {
        return Some(PageConflict);
      }
      ghost var goal := Created(pages, count);
      for number := 1 to count + 1
        invariant if old(pages) == [] then pages == goal[..number - 1] else pages == goal
      {
        if number > |pages| {
          pages := pages + [Blank(number)];
        }
      }
      return None;
    }

    method AttachExtractedText(i: nat, text: string, language: string, extraction: ExtractionMethod)
        returns (error: Option<IngestError>)
      requires i < |pages|
      modifies this
      ensures match Attached(old(pages)[i], text, language, extraction)
              case Err(e) => error == Some(e) && pages == old(pages)
              case Ok(page) => error == None && pages == old(pages)[i := page]
    {
      if Strip(text) == "" {
        return Some(BlankText);
      }
      var normalized := Normalize(text);
      if normalized == "" {
        return Some(BlankText);
      }
      pages := pages[i := pages[i].(text := Some(Extracted(normalized, language, extraction)))];
      return None;
    }

    method QueuePageIndexRecord(i: nat) returns (error: Option<IngestError>)
      requires i < |pages|
      modifies this
      ensures error == (if old(pages)[i].text.None? then Some(NoText) else None)
      ensures match QueuedPage(old(pages)[i])
              case Err(e) => error == Some(e) && pages == old(pages)
              case Ok(page) => error == None && pages == old(pages)[i := page]
    {
      var page := pages[i];
      if page.text.None? {
        return Some(NoText);
      }
      var text := page.text.value;
      if page.record.None? {
        pages := pages[i := page.(record := Some(IndexRecord(Queued, DigestOf(text), text.language, NoError)))];
        return None;
      }
      var record := page.record.value;
      if record.digest == DigestOf(text) && record.language == text.language {
        assert pages[i := page] == pages;
        return None;
      }
      record := record.(status := Queued, digest := DigestOf(text), language := text.language, error := NoError);
      pages := pages[i := page.(record := Some(record))];
      return None;
    }

    method FailPageIndexRecord(i: nat, error: ErrorCode)
      requires i < |pages|
      modifies this
      ensures pages == old(pages)[i := FailedPage(old(pages)[i], error)]
    {
      if pages[i].record.None? {
        assert pages[i := pages[i]] == pages;
        return;
      }
      pages := pages[i := pages[i].(record := Some(pages[i].record.value.(status := Failed, error := error)))];
    }

    method ConsumePageIndexRecord(i: nat) returns (indexed: bool)
      requires i < |pages|
      modifies this
      ensures pages == old(pages)[i := Consumed(old(pages)[i]).0] && indexed == Consumed(old(pages)[i]).1
    {
      var page := pages[i];
      assert pages[i := page] == pages;
      if page.record.None? {
        return false;
      }
      if page.text.None? {
        FailPageIndexRecord(i, NoExtractedText);
        return false;
      }
      if !IsIndexable(page.text.value.text) {
        FailPageIndexRecord(i, NoExtractableText);
        return false;
      }
      if page.record.value.status == Indexed {
        return true;
      }
      pages := pages[i := page.(record := Some(page.record.value.(status := Indexed, error := NoError)))];
      return true;
    }

    method OcrPage(i: nat, found: Recognition, language: string) returns (recognised: bool)
      requires i < |pages|
      modifies this
      ensures pages == old(pages)[i := Recognise(old(pages)[i], found, language)]
    {
      var page := pages[i];
      assert pages[i := page] == pages;
      if !NeedsOcr(page) || found.NoBinary? {
        return false;
      }
      if found.NoSource? {
        FailPageIndexRecord(i, NoSourceAsset);
        return false;
      }
      if Strip(found.text) == "" {
        FailPageIndexRecord(i, OcrEmpty);
        return false;
      }
      var error := AttachExtractedText(i, found.text, language, Ocr);
      if error.Some? {
        return false;
      }
      error := QueuePageIndexRecord(i);
      return true;
    }

    /** One turn of the loop over the pages. */
    method LoadPage(i: nat, raw: string, language: string) returns (error: Option<IngestError>)
      requires i < |pages|
      modifies this
      ensures match LoadedPage(old(pages)[i], raw, language)
              case Err(e) => error == Some(e) && pages == old(pages)
              case Ok(page) => error == None && pages == old(pages)[i := page]
    {
      var text := TextFor(pages[i].number, raw);
      error := AttachExtractedText(i, text, language, TextLayer);
      if error.Some? {
        return;
      }
      FinishPage(i);
    }

    method FinishPage(i: nat)
      requires i < |pages| && pages[i].text.Some?
      modifies this
      ensures pages == old(pages)[i := Finished(old(pages)[i])]
    {
      pages := pages[i := pages[i].(processed := true)];
      var error := QueuePageIndexRecord(i);
    }

    /** The transaction of an ingestion: all pages loaded, or nothing changed. */
    method LoadPages(raws: seq<string>, language: string) returns (error: Option<IngestError>)
      modifies this
      ensures error == LoadError(old(pages), raws)
      ensures error.None? ==> pages == Loaded(old(pages), raws, language)
      ensures error.None? ==> HoldTexts(pages, raws, language)
      ensures error.Some? ==> pages == old(pages)
    {
      var saved := pages;
      error := CreatePageRecords(|raws|);
      if error.Some? {
        return;
      }
      ghost var created := pages;
      for i := 0 to |raws|
        invariant error.None? && HalfLoaded(created, raws, language, pages, i)
      {
        LoadTurn(created, raws, language, pages, i);
        error := LoadPage(i, raws[i], language);
        if error.Some? {
          LoadFails(saved, raws, i);
          pages := saved;
          return;
        }
      }
      LoadDone(saved, raws, language, pages);
      LoadIsLoadTexts(saved, raws, language);
      LoadedHoldTexts(saved, raws, language);
    }
  }

  /** The page after one turn of the loop. */
  function LoadedPage(page: Page, raw: string, language: string): Result<Page, IngestError> {
    match Attached(page, TextFor(page.number, raw), language, TextLayer)
    case Err(e) => Err(e)
    case Ok(p) => Ok(Finished(p))
  }

  lemma LoadedPageIsReloaded(page: Page, raw: string, language: string)
    ensures LoadedPage(page, raw, language)
         == if IsUsable(page.number, raw) then Ok(Reloaded(page, raw, language)) else Err(BlankText)
  {
    if IsUsable(page.number, raw) {
      BlankNormalizesToNothing(TextFor(page.number, raw));
    }
  }

  ghost predicate IsLoaded(before: Page, raw: string, language: string, after: Page) {
    LoadedPage(before, raw, language) == Ok(after)
  }

  ghost predicate HalfLoaded(created: seq<Page>, raws: seq<string>, language: string, pages: seq<Page>, done: nat) {
    && NumbersAre(created, |raws|) && |pages| == |raws| && done <= |raws|
    && (forall k | 0 <= k < done :: IsLoaded(created[k], raws[k], language, pages[k]))
    && (forall k | done <= k < |raws| :: pages[k] == created[k])
  }

  lemma LoadTurn(created: seq<Page>, raws: seq<string>, language: string, pages: seq<Page>, i: nat)
    requires HalfLoaded(created, raws, language, pages, i) && i < |raws|
    ensures match LoadedPage(pages[i], raws[i], language)
            case Err(e) => e == BlankText && !IsUsable(i + 1, raws[i])
            case Ok(page) => HalfLoaded(created, raws, language, pages[i := page], i + 1)
  {
    LoadedPageIsReloaded(pages[i], raws[i], language);
  }

  lemma LoadFails(pages: seq<Page>, raws: seq<string>, i: nat)
    requires i < |raws| && !IsUsable(i + 1, raws[i]) && (pages == [] || NumbersAre(pages, |raws|))
    ensures LoadError(pages, raws) == Some(BlankText)
  {
  }

  lemma LoadDone(before: seq<Page>, raws: seq<string>, language: string, pages: seq<Page>)
    requires raws != [] && (before == [] || NumbersAre(before, |raws|))
    requires HalfLoaded(Created(before, |raws|), raws, language, pages, |raws|)
    ensures LoadError(before, raws).None? && pages == Loaded(before, raws, language)
  {
    var created := Created(before, |raws|);
    forall k | 0 <= k < |raws| ensures IsUsable(k + 1, raws[k]) && pages[k] == Reloaded(created[k], raws[k], language) {
      OneLoaded(created[k], raws[k], language, pages[k]);
    }
    AllUsable(before, raws);
    LoadedIs(before, raws, language, pages);
  }

  lemma OneLoaded(before: Page, raw: string, language: string, after: Page)
    requires IsLoaded(before, raw, language, after)
    ensures IsUsable(before.number, raw) && after == Reloaded(before, raw, language)
  {
    LoadedPageIsReloaded(before, raw, language);
  }

  lemma LoadedIs(before: seq<Page>, raws: seq<string>, language: string, pages: seq<Page>)
    requires (before == [] || NumbersAre(before, |raws|)) && |pages| == |raws|
    requires forall k | 0 <= k < |raws| :: pages[k] == Reloaded(Created(before, |raws|)[k], raws[k], language)
    ensures pages == Loaded(before, raws, language)
  {
  }

  lemma AllUsable(pages: seq<Page>, raws: seq<string>)
    requires raws != [] && (pages == [] || NumbersAre(pages, |raws|))
    requires forall k | 0 <= k < |raws| :: IsUsable(k + 1, raws[k])
    ensures LoadError(pages, raws).None?
  {
  }

  // ----- what a loaded page holds -----

  /**
   The text of a page's text layer: in normal form, with every visible character and with words, lines
   and paragraphs apart as they were; a placeholder for none.
   */
  ghost predicate IsTextOf(text: Extracted, number: nat, raw: string, language: string) {
    && text.language == language && text.extraction == TextLayer
    && if raw == "" then text.text == Placeholder(number)
       else && NormalForm(text.text) && text.text != ""
            && Visible(text.text) == Visible(Map(raw))
            && Layout(text.text, AtStart) == Layout(Filter(Map(raw), IsKept), AtStart)
  }

  ghost predicate HoldTexts(pages: seq<Page>, raws: seq<string>, language: string) {
    && |pages| == |raws|
    && forall i | 0 <= i < |raws| ::
         && pages[i].number == i + 1 && pages[i].processed && pages[i].text.Some?
         && IsTextOf(pages[i].text.value, i + 1, raws[i], language)
  }

  lemma CleanTextIsTextOf(number: nat, raw: string, language: string)
    requires IsUsable(number, raw)
    ensures IsTextOf(CleanText(number, raw, language), number, raw, language)
  {
    if raw == "" {
      PlaceholderIsStable(number);
    } else {
      NormalizeReachesNormalForm(raw);
      NormalizeKeepsVisible(raw);
      NormalizeKeepsLayout(raw);
    }
  }

  /** Loaded pages hold the extraction, page by page. */
  lemma LoadedHoldTexts(pages: seq<Page>, raws: seq<string>, language: string)
    requires LoadTexts(pages, Cleaned(raws, language)).Some?
    ensures HoldTexts(LoadTexts(pages, Cleaned(raws, language)).value, raws, language)
  {
    CleanedIffUsable(raws, language);
    var texts := Cleaned(raws, language).value;
    LoadedAsGiven(pages, texts);
    forall i | 0 <= i < |raws| ensures IsTextOf(texts[i], i + 1, raws[i], language) {
      CleanTextIsTextOf(i + 1, raws[i], language);
    }
    HoldTextsAsGiven(LoadTexts(pages, Some(texts)).value, texts, raws, language);
  }

  lemma HoldTextsAsGiven(pages: seq<Page>, texts: seq<Extracted>, raws: seq<string>, language: string)
    requires |pages| == |texts| == |raws|
    requires forall i | 0 <= i < |texts| ::
               pages[i].number == i + 1 && pages[i].processed && pages[i].text == Some(texts[i])
    requires forall i | 0 <= i < |raws| :: IsTextOf(texts[i], i + 1, raws[i], language)
    ensures HoldTexts(pages, raws, language)
  {
  }

  lemma LoadedAsGiven(pages: seq<Page>, texts: seq<Extracted>)
    requires LoadTexts(pages, Some(texts)).Some?
    ensures var loaded := LoadTexts(pages, Some(texts)).value;
            && |loaded| == |texts|
            && forall i | 0 <= i < |texts| ::
                 loaded[i].number == i + 1 && loaded[i].processed && loaded[i].text == Some(texts[i])
  {
  }

  // ----- the same load, from texts already cleaned -----

  /** The texts an extraction gives, unless it has no page or one that cannot be used. */
  function Cleaned(raws: seq<string>, language: string): Option<seq<Extracted>> {
    if raws == [] || exists i | 0 <= i < |raws| :: !IsUsable(i + 1, raws[i]) then None
    else Some(seq(|raws|, i requires 0 <= i < |raws| => CleanText(i + 1, raws[i], language)))
  }

  function WithTexts(pages: seq<Page>, texts: seq<Extracted>): (r: seq<Page>)
    requires NumbersAre(pages, |texts|)
    ensures NumbersAre(r, |texts|)
  {
    seq(|texts|, i requires 0 <= i < |texts| => Finished(pages[i].(text := Some(texts[i]))))
  }

  /** What the transaction makes of the page rows; nothing when it raises. */
  function LoadTexts(pages: seq<Page>, texts: Option<seq<Extracted>>): Option<seq<Page>> {
    if texts.None? || (pages != [] && !NumbersAre(pages, |texts.value|)) then None
    else Some(WithTexts(Created(pages, |texts.value|), texts.value))
  }

  lemma CleanedIffUsable(raws: seq<string>, language: string)
    ensures Cleaned(raws, language).Some? <==> raws != [] && forall i | 0 <= i < |raws| :: IsUsable(i + 1, raws[i])
    ensures Cleaned(raws, language).Some? ==> var texts := Cleaned(raws, language).value;
              |texts| == |raws| && forall i | 0 <= i < |raws| :: texts[i] == CleanText(i + 1, raws[i], language)
  {
  }

  /** An extracted page is empty, and gets a placeholder, or it shows something once normalised. */
  predicate IsEmptyOrVisible(raw: string) {
    raw == "" || Visible(Map(raw)) != ""
  }

  lemma UsableIff(number: nat, raw: string)
    ensures IsUsable(number, raw) <==> IsEmptyOrVisible(raw)
  {
    if raw == "" {
      EmptyIsUsable(number);
    } else {
      EmptyIffNothingVisible(raw);
    }
  }

  lemma AllUsableIff(raws: seq<string>)
    ensures (forall i | 0 <= i < |raws| :: IsUsable(i + 1, raws[i])) <==>
            forall i | 0 <= i < |raws| :: IsEmptyOrVisible(raws[i])
  {
    forall i | 0 <= i < |raws| ensures IsUsable(i + 1, raws[i]) <==> IsEmptyOrVisible(raws[i]) {
      UsableIff(i + 1, raws[i]);
    }
  }

  /** An extraction gives texts to load exactly when it has a page and each of its texts is empty or shows something. */
  lemma ExtractionLoadsIff(raws: seq<string>, language: string)
    ensures Cleaned(raws, language).Some? <==> raws != [] && forall i | 0 <= i < |raws| :: IsEmptyOrVisible(raws[i])
  {
    CleanedIffUsable(raws, language);
    AllUsableIff(raws);
  }

  lemma WithTextsReloads(pages: seq<Page>, raws: seq<string>, texts: seq<Extracted>, language: string)
    requires NumbersAre(pages, |raws|) && |texts| == |raws|
    requires forall i | 0 <= i < |raws| :: texts[i] == CleanText(i + 1, raws[i], language)
    ensures forall i | 0 <= i < |raws| :: WithTexts(pages, texts)[i] == Reloaded(pages[i], raws[i], language)
  {
  }

  lemma LoadIsLoadTexts(pages: seq<Page>, raws: seq<string>, language: string)
    ensures LoadTexts(pages, Cleaned(raws, language)).Some? <==> LoadError(pages, raws).None?
    ensures LoadError(pages, raws).None? ==>
        LoadTexts(pages, Cleaned(raws, language)) == Some(Loaded(pages, raws, language))
  {
    CleanedIffUsable(raws, language);
    if Cleaned(raws, language).Some? && (pages == [] || NumbersAre(pages, |raws|)) {
      AllUsable(pages, raws);
      var texts := Cleaned(raws, language).value;
      WithTextsReloads(Created(pages, |raws|), raws, texts, language);
      LoadedIs(pages, raws, language, WithTexts(Created(pages, |raws|), texts));
    }
  }

  /** Each refusal of a load has its own cause: no page, other rows, or a text that shows nothing. */
  lemma LoadRefusedIff(pages: seq<Page>, raws: seq<string>)
    ensures var error, fits := LoadError(pages, raws), pages == [] || NumbersAre(pages, |raws|);
            && (error == Some(NoPages) <==> raws == [])
            && (error == Some(PageConflict) <==> raws != [] && !fits)
            && (error == Some(BlankText) <==>
                  raws != [] && fits && exists i | 0 <= i < |raws| :: raws[i] != "" && Visible(Map(raws[i])) == "")
            && (error.Some? ==> error.value in {NoPages, PageConflict, BlankText})
  {
    AllUsableIff(raws);
  }

  // ----- loading is repeatable -----

  /** Every page has a text and a record queued or settled for exactly that text. */
  ghost predicate IsReady(page: Page) {
    && page.processed && page.text.Some? && page.record.Some?
    && page.record.value.digest == Sha256(page.text.value.text)
    && page.record.value.language == page.text.value.language
  }

  ghost predicate AllReady(pages: seq<Page>) {
    forall i | 0 <= i < |pages| :: IsReady(pages[i])
  }

  lemma LoadedIsReady(pages: seq<Page>, texts: Option<seq<Extracted>>)
    requires LoadTexts(pages, texts).Some?
    ensures AllReady(LoadTexts(pages, texts).value)
  {
  }

  /**
   Pages that hold these very texts already stay as they are, records that were indexed or failed
   meanwhile included.
   */
  lemma LoadedStays(pages: seq<Page>, texts: seq<Extracted>)
    requires pages != [] && NumbersAre(pages, |texts|) && AllReady(pages)
    requires forall i | 0 <= i < |texts| :: pages[i].text == Some(texts[i])
    ensures LoadTexts(pages, Some(texts)) == Some(pages)
  {
    forall i | 0 <= i < |texts| ensures WithTexts(pages, texts)[i] == pages[i] {
      assert IsReady(pages[i]);
    }
    assert WithTexts(pages, texts) == pages;
  }

  /** Loading the same extraction a second time changes nothing. */
  lemma LoadIdempotent(pages: seq<Page>, texts: Option<seq<Extracted>>)
    requires LoadTexts(pages, texts).Some?
    ensures LoadTexts(LoadTexts(pages, texts).value, texts) == LoadTexts(pages, texts)
  {
    LoadedIsReady(pages, texts);
    var loaded := LoadTexts(pages, texts).value;
    if loaded != [] {
      LoadedStays(loaded, texts.value);
    }
  }

  // ----- the page workflows, interleaved -----

  datatype PageStep =
    | OcrStep(i: nat, found: Recognition)
    | TileStep(i: nat)
    | IndexStep(i: nat)

  /** Tiling writes images and leaves texts and records alone. */
  function StepPage(page: Page, step: PageStep, language: string): Page {
    match step
    case OcrStep(_, found) => Recognise(page, found, language)
    case TileStep(_) => page
    case IndexStep(_) => Consumed(page).0
  }

  function Step(pages: seq<Page>, step: PageStep, language: string): seq<Page> {
    if step.i < |pages| then pages[step.i := StepPage(pages[step.i], step, language)] else pages
  }

  function Run(pages: seq<Page>, steps: seq<PageStep>, language: string): (r: seq<Page>)
    ensures |r| == |pages|
  {
    if steps == [] then pages else Step(Run(pages, steps[..|steps| - 1], language), steps[|steps| - 1], language)
  }

  /** A credible text is never replaced, whatever the workflows do. */
  lemma {:induction false} CredibleTextStays(pages: seq<Page>, steps: seq<PageStep>, language: string, i: nat)
    requires i < |pages| && !LacksText(pages[i])
    ensures Run(pages, steps, language)[i].text == pages[i].text
    decreases |steps|
  {
    if steps != [] {
      CredibleTextStays(pages, steps[..|steps| - 1], language, i);
    }
  }

  /** The last step of a workflow on page i was its indexing. */
  ghost predicate EndsIndexed(steps: seq<PageStep>, i: nat) {
    exists k :: 0 <= k < |steps| && steps[k] == IndexStep(i) && forall m | k < m < |steps| :: steps[m].i != i
  }

  /** The record says whether the text may be found. */
  ghost predicate IsSettled(page: Page) {
    && IsReady(page)
    && page.record.value.status ==
         (if Strip(page.text.value.text) != "" && !("[Page " <= Strip(page.text.value.text)) then Indexed else Failed)
  }

  lemma StepKeepsReady(page: Page, step: PageStep, language: string)
    requires IsReady(page)
    ensures IsReady(StepPage(page, step, language)) && StepPage(page, step, language).number == page.number
    ensures step.IndexStep? ==> IsSettled(StepPage(page, step, language))
  {
    match step
    case OcrStep(_, found) => RecogniseKeepsReady(page, found, language);
    case TileStep(_) =>
    case IndexStep(_) => ConsumedSettles(page);
  }

  lemma RecogniseKeepsReady(page: Page, found: Recognition, language: string)
    requires IsReady(page)
    ensures IsReady(Recognise(page, found, language)) && Recognise(page, found, language).number == page.number
  {
  }

  lemma ConsumedSettles(page: Page)
    requires IsReady(page)
    ensures IsSettled(Consumed(page).0) && Consumed(page).0.number == page.number
  {
  }

  /** What a record's digest and language stand for. */
  ghost predicate IsSameText(a: Extracted, b: Extracted) {
    a.text == b.text && a.language == b.language
  }

  /** A page whose text changes is queued again, so an INDEXED record never outlives its text. */
  lemma NewTextIsQueued(page: Page, step: PageStep, language: string)
    requires IsReady(page)
    ensures var after := StepPage(page, step, language);
            && (!IsSameText(after.text.value, page.text.value) ==>
                  && step.OcrStep? && NeedsOcr(page) && after.text.value.extraction == Ocr
                  && after.record.value.status == Queued && after.record.value.error == NoError)
            && (after.record.value.status == Indexed ==> step.IndexStep? || after.record == page.record)
  {
  }

  lemma {:induction false} RunKeepsReady(pages: seq<Page>, steps: seq<PageStep>, language: string, i: nat)
    requires AllReady(pages) && i < |pages|
    ensures IsReady(Run(pages, steps, language)[i]) && Run(pages, steps, language)[i].number == pages[i].number
    decreases |steps|
  {
    if steps != [] {
      RunKeepsReady(pages, steps[..|steps| - 1], language, i);
      StepKeepsReady(Run(pages, steps[..|steps| - 1], language)[i], steps[|steps| - 1], language);
    }
  }

  lemma {:induction false} IndexedPageSettles(pages: seq<Page>, steps: seq<PageStep>, language: string, i: nat)
    requires AllReady(pages) && i < |pages| && EndsIndexed(steps, i)
    ensures IsSettled(Run(pages, steps, language)[i])
    decreases |steps|
  {
    var before, last := steps[..|steps| - 1], steps[|steps| - 1];
    RunKeepsReady(pages, before, language, i);
    LastOrEarlier(steps, i);
    if last.i != i {
      IndexedPageSettles(pages, before, language, i);
    } else {
      StepKeepsReady(Run(pages, before, language)[i], last, language);
    }
  }

  lemma LastOrEarlier(steps: seq<PageStep>, i: nat)
    requires EndsIndexed(steps, i)
    ensures steps != [] && (steps[|steps| - 1] == IndexStep(i) ||
        (steps[|steps| - 1].i != i && EndsIndexed(steps[..|steps| - 1], i)))
  {
    var k :| 0 <= k < |steps| && steps[k] == IndexStep(i) && forall m | k < m < |steps| :: steps[m].i != i;
    var before := steps[..|steps| - 1];
    if k < |before| {
      assert before[k] == IndexStep(i) && forall m | k < m < |before| :: before[m].i != i;
    }
  }

  ghost predicate AllSettled(pages: seq<Page>) {
    forall i | 0 <= i < |pages| :: IsSettled(pages[i])
  }

  /**
   The barrier: in every interleaving of the page workflows in which each page's last step is its
   indexing, each record is INDEXED for the page's current text exactly when that text may be
   found, and FAILED otherwise.
   */
  lemma BarrierSettlesAll(pages: seq<Page>, steps: seq<PageStep>, language: string)
    requires AllReady(pages) && forall i | 0 <= i < |pages| :: EndsIndexed(steps, i)
    ensures AllSettled(Run(pages, steps, language))
    ensures forall i | 0 <= i < |pages| :: Run(pages, steps, language)[i].number == pages[i].number
  {
    forall i | 0 <= i < |pages|
      ensures IsSettled(Run(pages, steps, language)[i]) && Run(pages, steps, language)[i].number == pages[i].number
    {
      IndexedPageSettles(pages, steps, language, i);
      RunKeepsReady(pages, steps, language, i);
    }
  }

  // ----- what the document index reads -----

  /** The texts put into the index, in page order. */
  function IndexTexts(pages: seq<Page>): seq<string> {
    if pages == [] then []
    else
      var before, page := IndexTexts(pages[..|pages| - 1]), pages[|pages| - 1];
      if page.processed && page.text.Some? && IsIndexable(page.text.value.text)
      then before + [Strip(page.text.value.text)] else before
  }

  predicate HasIndexedRecord(page: Page) {
    page.record.Some? && page.record.value.status == Indexed && page.text.Some?
  }

  /** The texts of the pages whose record is INDEXED, in page order. */
  function IndexedTexts(pages: seq<Page>): seq<string> {
    if pages == [] then []
    else
      var before, page := IndexedTexts(pages[..|pages| - 1]), pages[|pages| - 1];
      if HasIndexedRecord(page) then before + [Strip(page.text.value.text)] else before
  }

  /** Once the pages are settled, the index reads exactly the indexed pages, none of them a placeholder. */
  lemma {:induction false} IndexReadsIndexed(pages: seq<Page>)
    requires AllSettled(pages)
    ensures IndexTexts(pages) == IndexedTexts(pages)
    ensures forall k | 0 <= k < |IndexTexts(pages)| ::
        !StartsWith(IndexTexts(pages)[k], "[Page ") && IndexTexts(pages)[k] != ""
    decreases |pages|
  {
    if pages != [] {
      IndexReadsIndexed(pages[..|pages| - 1]);
      assert IsSettled(pages[|pages| - 1]);
    }
  }

  lemma {:induction false} IndexedTextIsThere(pages: seq<Page>, i: nat)
    requires i < |pages| && pages[i].record.Some? && pages[i].record.value.status == Indexed && pages[i].text.Some?
    ensures Strip(pages[i].text.value.text) in IndexedTexts(pages)
    decreases |pages|
  {
    if i < |pages| - 1 {
      IndexedTextIsThere(pages[..|pages| - 1], i);
    }
  }

  lemma {:induction false} FilterIsShorter(s: string)
    ensures |Visible(s)| <= |s|
  {
    if s != "" {
      FilterIsShorter(s[1..]);
    }
  }

  lemma FrontIsVisible(text: string, front: string)
    requires front <= text
    ensures Visible(front) <= Visible(text)
  {
    FilterHalves(text, |front|, IsVisible);
    assert text[..|front|] == front;
  }

  /** Twenty visible characters that do not begin like a placeholder are a credible text, and indexable. */
  lemma VisibleTextIsCredible(text: string, mark: string)
    requires NormalForm(text) && |Visible(text)| >= 20 && !(Visible(mark) <= Visible(text))
    ensures Strip(text) == text && |text| >= 20 && !(mark <= text)
  {
    NormalStays(text);
    FilterIsShorter(text);
    if mark <= text {
      FrontIsVisible(text, mark);
    }
  }
}
