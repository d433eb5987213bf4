/**
 The ingestion of a version: a task delivered at least once, with retries and crashes, then page
 workflows, then the step that makes the version current and rebuilds the document's index row.
 */
module Ingestion {
  import opened Prelude
  import opened TextNormal
  import opened PageIndex
  import Strings
  import Search
  import Catalog
  import Access

  const MAX_RETRIES := 3

  datatype JobStatus = Waiting | Running | Succeeded | Broken | Retrying

  datatype Failure = NoFailure | NoSourceFile | IngestFailed

  datatype Job = Job(status: JobStatus, retryCount: nat, failure: Failure)

  /** The stored file: the texts its extraction gives, every time it can be read, or none it can use. */
  datatype Source = Source(hasAsset: bool, texts: Option<seq<Extracted>>, language: string)

  /** What the ingestion transaction writes. */
  datatype Content = Content(pages: seq<Page>, processed: bool, pageCount: nat)

  /**
   `sent` holds the attempt number of every message ever sent. Any of them may be delivered again
   at any time, one delivery after the other.
   */
  datatype State = State(source: Source, job: Job, content: Content, sent: set<nat>)

  // ----- one delivery -----

  /** How far the failure path gets before the worker dies. */
  datatype Death = AfterMark | AfterRetrying | Never

  /**
   How a delivery ends: the worker may die between any two writes, and reading the file or recording
   the job as completed may fail.
   */
  datatype Ending =
    | DiesAtOnce
    | DiesCounted
    | DiesStarted
    | DiesLoaded
    | CannotRead(death: Death)
    | CannotComplete(death: Death)
    | Runs(death: Death)

  /** mark_failed, then a retry or the final failure. */
  function Fails(s: State, attempt: nat, failure: Failure, death: Death, inline: bool): State {
    var marked := s.job.(status := Broken, failure := failure);
    if death == AfterMark then s.(job := marked)
    else if inline || attempt >= MAX_RETRIES then s.(job := marked.(retryCount := attempt))
    else
      var retrying := marked.(status := Retrying, retryCount := attempt);
      s.(job := retrying, sent := if death == AfterRetrying then s.sent else s.sent + {attempt + 1})
  }

  function DeathOf(ending: Ending): Death {
    if ending.CannotRead? || ending.CannotComplete? || ending.Runs? then ending.death else AfterMark
  }

  /** The pages are committed, the completion of the job is not. */
  predicate StopsLoaded(ending: Ending) {
    ending.DiesLoaded? || ending.CannotComplete?
  }

  /** A delivery, given what the transaction makes of the page rows. */
  function DeliveredWith(s: State, load: Option<seq<Page>>, attempt: nat, ending: Ending, inline: bool): State {
    if attempt !in s.sent || s.job.status == Succeeded || ending == DiesAtOnce then s
    else
      var counted := s.(job := s.job.(retryCount := attempt));
      var death := DeathOf(ending);
      if ending == DiesCounted then counted
      else if !s.source.hasAsset then Fails(counted, attempt, NoSourceFile, death, inline)
      else
        var started := counted.(job := counted.job.(status := Running));
        if ending == DiesStarted then started
        else if ending.CannotRead? || load.None? then Fails(started, attempt, IngestFailed, death, inline)
        else
          var loaded := started.(content := Content(load.value, true, |load.value|));
          if ending == DiesLoaded then loaded
          else if ending.CannotComplete? then Fails(loaded, attempt, IngestFailed, death, inline)
          else loaded.(job := loaded.job.(status := Succeeded))
  }

  function Delivered(s: State, attempt: nat, ending: Ending, inline: bool): State {
    DeliveredWith(s, LoadTexts(s.content.pages, s.source.texts), attempt, ending, inline)
  }

  // ----- runs -----

  datatype Action =
    | Deliver(attempt: nat, ending: Ending, inline: bool)
    | Work(step: PageStep)
    | Replace(source: Source)

  /** Page work is sent once the job has succeeded; replacing the file clears the version and starts a new job. */
  function Step(s: State, action: Action): State {
    match action
    case Deliver(attempt, ending, inline) => Delivered(s, attempt, ending, inline)
    case Work(step) =>
      if s.job.status != Succeeded then s
      else s.(content := s.content.(pages := PageIndex.Step(s.content.pages, step, s.source.language)))
    case Replace(source) => Replaced(s, source)
  }

  function Replaced(s: State, source: Source): State {
    State(source, Job(Waiting, 0, NoFailure), s.content.(pages := []), {0})
  }

  function Initial(source: Source): State {
    State(source, Job(Waiting, 0, NoFailure), Content([], false, 0), {0})
  }

  function Run(s: State, actions: seq<Action>): State {
    if actions == [] then s else Step(Run(s, actions[..|actions| - 1]), actions[|actions| - 1])
  }

  /** The page steps carried out on the present file. */
  function WorkDone(s: State, actions: seq<Action>): seq<PageStep> {
    if actions == [] then []
    else
      var before, last := actions[..|actions| - 1], actions[|actions| - 1];
      if last.Replace? then []
      else if last.Work? && Run(s, before).job.status == Succeeded then WorkDone(s, before) + [last.step]
      else WorkDone(s, before)
  }

  /** The pages of a single uninterrupted run; none when the file cannot be ingested. */
  function Expected(source: Source): Option<seq<Page>> {
    if source.hasAsset then LoadTexts([], source.texts) else None
  }

  /** The pages that run and the page work done since would leave. */
  function Target(source: Source, work: seq<PageStep>): Option<seq<Page>> {
    var expected := Expected(source);
    if expected.None? then None else Some(PageIndex.Run(expected.value, work, source.language))
  }

  /**
   What every step keeps. A job that has succeeded has its pages; before that, the transaction has
   either not committed or committed all of them.
   */
  ghost predicate Holds(s: State, target: Option<seq<Page>>, idle: bool) {
    && (forall attempt | attempt in s.sent :: attempt <= MAX_RETRIES)
    && s.job.retryCount <= MAX_RETRIES
    && (s.job.status != Succeeded ==> idle)
    && (s.job.status == Succeeded || s.content.pages != [] ==>
          s.content.processed && target == Some(s.content.pages) && s.content.pageCount == |s.content.pages|)
  }

  ghost predicate Sound(s: State, work: seq<PageStep>) {
    Holds(s, Target(s.source, work), work == [])
  }

  lemma FailsHolds(s: State, target: Option<seq<Page>>, attempt: nat, failure: Failure, death: Death, inline: bool)
    requires s.job.status != Succeeded && Holds(s, target, true) && attempt <= MAX_RETRIES
    ensures Holds(Fails(s, attempt, failure, death, inline), target, true)
  {
  }

  lemma DeliverHolds(s: State, target: Option<seq<Page>>, idle: bool, load: Option<seq<Page>>, attempt: nat,
      ending: Ending, inline: bool)
    requires Holds(s, target, idle)
    requires s.job.status != Succeeded && s.source.hasAsset ==> load == target
    ensures Holds(DeliveredWith(s, load, attempt, ending, inline), target, idle)
  {
    if attempt in s.sent && s.job.status != Succeeded {
      var counted := s.(job := s.job.(retryCount := attempt));
      var started := counted.(job := counted.job.(status := Running));
      var death := DeathOf(ending);
      FailsHolds(counted, target, attempt, NoSourceFile, death, inline);
      FailsHolds(started, target, attempt, IngestFailed, death, inline);
      if s.source.hasAsset && load.Some? {
        var loaded := started.(content := Content(load.value, true, |load.value|));
        FailsHolds(loaded, target, attempt, IngestFailed, death, inline);
      }
    }
  }

  lemma DeliverKeeps(s: State, work: seq<PageStep>, attempt: nat, ending: Ending, inline: bool)
    requires Sound(s, work)
    ensures Sound(Delivered(s, attempt, ending, inline), work)
  {
    var target := Target(s.source, work);
    if s.job.status != Succeeded && s.source.hasAsset {
      assert target == Expected(s.source);
      if s.content.pages != [] {
        LoadIdempotent([], s.source.texts);
      }
    }
    DeliverHolds(s, target, work == [], LoadTexts(s.content.pages, s.source.texts), attempt, ending, inline);
  }

  lemma WorkKeeps(s: State, work: seq<PageStep>, step: PageStep)
    requires Sound(s, work) && s.job.status == Succeeded
    ensures Sound(Step(s, Work(step)), work + [step])
  {
    assert (work + [step])[..|work|] == work;
  }

  /** A delivery completes a job exactly when its message was sent, nothing goes wrong and the file can be used. */
  lemma DeliverySucceedsIff(s: State, attempt: nat, ending: Ending, inline: bool)
    requires s.job.status != Succeeded
    ensures Delivered(s, attempt, ending, inline).job.status == Succeeded <==>
              && attempt in s.sent && ending.Runs? && s.source.hasAsset && s.source.texts.Some?
              && (s.content.pages == [] || NumbersAre(s.content.pages, |s.source.texts.value|))
  {
  }

  /**
   A delivery sends the message of the next attempt exactly when it fails, in the background, before
   the last attempt, and the worker lives to send it; and it sends no other.
   */
  lemma RetryIsSentIff(s: State, attempt: nat, ending: Ending, inline: bool)
    requires s.job.status != Succeeded && attempt + 1 !in s.sent
    ensures var r := Delivered(s, attempt, ending, inline);
            && (r.sent == s.sent || r.sent == s.sent + {attempt + 1})
            && (attempt + 1 in r.sent <==>
                  && attempt in s.sent && r.job.status == Retrying && !inline && attempt < 3
                  && (ending.Runs? || ending.CannotRead? || ending.CannotComplete?) && ending.death == Never
                  && !(ending.Runs? && s.source.hasAsset && s.source.texts.Some?
                       && (s.content.pages == [] || NumbersAre(s.content.pages, |s.source.texts.value|))))
  {
  }

  /** Every delivery lives to its end. */
  ghost predicate AllLive(actions: seq<Action>) {
    forall a | a in actions && a.Deliver? ::
      (a.ending.Runs? || a.ending.CannotRead? || a.ending.CannotComplete?) && a.ending.death == Never
  }

  /** While no worker dies, a job that is not settled has its next message sent. */
  lemma {:induction false} UnsettledIsOnItsWay(source: Source, actions: seq<Action>)
    requires AllLive(actions)
    ensures var s := Run(Initial(source), actions);
            && s.job.status in {Waiting, Retrying, Succeeded, Broken}
            && (s.job.status == Waiting ==> 0 in s.sent)
            && (s.job.status == Retrying ==> s.job.retryCount + 1 in s.sent && s.job.retryCount < 3)
    decreases |actions|
  {
    if actions != [] {
      var front, last := actions[..|actions| - 1], actions[|actions| - 1];
      assert last in actions && forall a | a in front :: a in actions;
      UnsettledIsOnItsWay(source, front);
      UnsettledStep(Run(Initial(source), front), last);
    }
  }

  lemma UnsettledStep(s: State, action: Action)
    requires action.Deliver? ==>
               && (action.ending.Runs? || action.ending.CannotRead? || action.ending.CannotComplete?)
               && action.ending.death == Never
    ensures var r := Step(s, action);
            || (r.job == s.job && s.sent <= r.sent)
            || (r.job.status == Waiting && 0 in r.sent)
            || r.job.status == Succeeded || r.job.status == Broken
            || (r.job.status == Retrying && r.job.retryCount + 1 in r.sent && r.job.retryCount < 3)
  {
  }

  /** Over every sequence of deliveries, failures, retries, crashes, page steps and replacements. */
  lemma {:induction false} RunSound(source: Source, actions: seq<Action>)
    ensures Sound(Run(Initial(source), actions), WorkDone(Initial(source), actions))
    decreases |actions|
  {
    if actions != [] {
      var before, last := actions[..|actions| - 1], actions[|actions| - 1];
      RunSound(source, before);
      var s, work := Run(Initial(source), before), WorkDone(Initial(source), before);
      match last
      case Deliver(attempt, ending, inline) => DeliverKeeps(s, work, attempt, ending, inline);
      case Work(step) =>
        if s.job.status == Succeeded {
          WorkKeeps(s, work, step);
        }
      case Replace(_) =>
    }
  }

  /** The retry counter never passes its bound, nor does any message. */
  lemma RetriesAreBounded(source: Source, actions: seq<Action>)
    ensures Run(Initial(source), actions).job.retryCount <= MAX_RETRIES
    ensures forall attempt | attempt in Run(Initial(source), actions).sent :: attempt <= MAX_RETRIES
  {
    RunSound(source, actions);
  }

  /** Once a job has succeeded, no delivery of any message changes anything again. */
  lemma {:induction false} SuccessIsFinal(s: State, actions: seq<Action>)
    requires s.job.status == Succeeded && forall i | 0 <= i < |actions| :: !actions[i].Replace?
    ensures Run(s, actions).job == s.job && Run(s, actions).sent == s.sent && Run(s, actions).source == s.source
    ensures (forall i | 0 <= i < |actions| :: actions[i].Deliver?) ==> Run(s, actions) == s
    decreases |actions|
  {
    if actions != [] {
      SuccessIsFinal(s, actions[..|actions| - 1]);
    }
  }

  /**
   When the job has succeeded and no page work was done yet, the version's pages are numbered 1 to
   n, each with one text and one record for it, exactly as after a single uninterrupted run.
   */
  lemma SuccessLoadsAll(source: Source, actions: seq<Action>)
    requires Run(Initial(source), actions).job.status == Succeeded && WorkDone(Initial(source), actions) == []
    ensures var s := Run(Initial(source), actions);
            && Expected(s.source) == Some(s.content.pages)
            && s.content.pages == Delivered(Initial(s.source), 0, Runs(Never), false).content.pages
            && NumbersAre(s.content.pages, |s.source.texts.value|) && s.content.pageCount == |s.content.pages|
            && AllReady(s.content.pages)
  {
    RunSound(source, actions);
    var s := Run(Initial(source), actions);
    assert Target(s.source, []) == Expected(s.source);
    LoadedIsReady([], s.source.texts);
  }

  /**
   Deliveries, crashes and page steps in any order: once the job has succeeded and every page's last
   step was its indexing, all records are settled.
   */
  lemma IngestionSettles(source: Source, actions: seq<Action>)
    requires Run(Initial(source), actions).job.status == Succeeded
    requires forall i | 0 <= i < |Run(Initial(source), actions).content.pages| ::
        EndsIndexed(WorkDone(Initial(source), actions), i)
    ensures var content := Run(Initial(source), actions).content;
            AllSettled(content.pages) && NumbersAre(content.pages, content.pageCount) && content.processed
  {
    RunSound(source, actions);
    var s, work := Run(Initial(source), actions), WorkDone(Initial(source), actions);
    LoadedIsReady([], s.source.texts);
    BarrierSettlesAll(Expected(s.source).value, work, s.source.language);
  }

  /**
   What was extracted is what is stored: after success each page holds, under its number, the text of
   its own page of the file, with every visible character, or the placeholder of an empty one.
   */
  lemma SuccessHoldsTexts(source: Source, actions: seq<Action>, raws: seq<string>, language: string)
    requires Run(Initial(source), actions).job.status == Succeeded && WorkDone(Initial(source), actions) == []
    requires Run(Initial(source), actions).source.texts == Cleaned(raws, language)
    ensures HoldTexts(Run(Initial(source), actions).content.pages, raws, language)
  {
    RunSound(source, actions);
    LoadedHoldTexts([], raws, language);
  }

  /** A page of the file with a text layer to rely on: twenty visible characters, and none of a placeholder's. */
  ghost predicate IsCredible(raw: string) {
    |Visible(Map(raw))| >= 20 && !(Visible("[Page ") <= Visible(Map(raw)))
  }

  /** A credible text layer is never replaced by recognition, whatever the page workflows do. */
  lemma CredibleTextIsKept(source: Source, actions: seq<Action>, raws: seq<string>, language: string, i: nat)
    requires Run(Initial(source), actions).job.status == Succeeded
    requires Run(Initial(source), actions).source.texts == Cleaned(raws, language)
    requires i < |raws| && IsCredible(raws[i])
    ensures var pages := Run(Initial(source), actions).content.pages;
            && |pages| == |raws| && pages[i].text.Some?
            && IsTextOf(pages[i].text.value, i + 1, raws[i], language)
            && Strings.Strip(pages[i].text.value.text) == pages[i].text.value.text
            && pages[i].text.value.text != "" && !("[Page " <= pages[i].text.value.text)
  {
    RunSound(source, actions);
    var s, work := Run(Initial(source), actions), WorkDone(Initial(source), actions);
    var loaded := Expected(s.source).value;
    LoadedHoldTexts([], raws, language);
    assert Visible("") == "";
    VisibleTextIsCredible(loaded[i].text.value.text, "[Page ");
    CredibleTextStays(loaded, work, s.source.language, i);
  }

  // ----- pages without success -----

  /** Since the file last changed, a delivery stopped between the commit of its pages and the completion of its job. */
  ghost predicate StoppedLoaded(s: State, actions: seq<Action>) {
    actions != []
    && var before, last := actions[..|actions| - 1], actions[|actions| - 1];
       && !last.Replace?
       && (StoppedLoaded(s, before) || StopsWithPages(Run(s, before), last))
  }

  /**
   A message is delivered to a job that has not succeeded, its usable file is loaded, and the worker
   dies there or the completion cannot be written.
   */
  ghost predicate StopsWithPages(s: State, action: Action) {
    && action.Deliver? && StopsLoaded(action.ending) && action.attempt in s.sent
    && s.job.status != Succeeded && HasPages(s.source)
  }

  /** The file can be ingested, and into at least one page. */
  ghost predicate HasPages(source: Source) {
    Expected(source).Some? && Expected(source).value != []
  }

  lemma DeliveryWithoutSuccess(s: State, load: Option<seq<Page>>, attempt: nat, ending: Ending, inline: bool)
    requires s.job.status != Succeeded
    ensures var r := DeliveredWith(s, load, attempt, ending, inline);
            r.job.status != Succeeded ==>
              r.content.pages == if StopsLoaded(ending) && attempt in s.sent && s.source.hasAsset && load.Some?
                                 then load.value else s.content.pages
  {
  }

  /**
   A job that has not succeeded, failed or not, has pages exactly when some delivery for its present
   file stopped between its two commits.
   */
  lemma {:induction false} PagesWithoutSuccessIff(source: Source, actions: seq<Action>)
    requires Run(Initial(source), actions).job.status != Succeeded
    ensures Run(Initial(source), actions).content.pages != [] <==> StoppedLoaded(Initial(source), actions)
    decreases |actions|
  {
    if actions != [] {
      var before, last := actions[..|actions| - 1], actions[|actions| - 1];
      var s := Run(Initial(source), before);
      RunSound(source, before);
      if s.job.status != Succeeded {
        PagesWithoutSuccessIff(source, before);
        PagesAfterStep(s, last);
      } else {
        SucceededUntilReplaced(s, last);
      }
    }
  }

  lemma SucceededUntilReplaced(s: State, action: Action)
    requires s.job.status == Succeeded && Step(s, action).job.status != Succeeded
    ensures action.Replace? && Step(s, action).content.pages == []
  {
  }

  lemma PagesAfterStep(s: State, action: Action)
    requires Sound(s, []) && s.job.status != Succeeded && Step(s, action).job.status != Succeeded
    ensures Step(s, action).content.pages != [] <==>
              !action.Replace? && (s.content.pages != [] || StopsWithPages(s, action))
  {
    if action.Deliver? {
      assert Target(s.source, []) == Expected(s.source);
      var load := LoadTexts(s.content.pages, s.source.texts);
      if s.content.pages != [] {
        LoadIdempotent([], s.source.texts);
      }
      DeliveryWithoutSuccess(s, load, action.attempt, action.ending, action.inline);
    }
  }

  /** One more attempt while storage is down. */
  lemma DownAgain(s: State, load: Option<seq<Page>>, attempt: nat)
    requires attempt in s.sent && s.job.status != Succeeded && s.source.hasAsset
    ensures var r := DeliveredWith(s, load, attempt, CannotRead(Never), false);
            && r.content == s.content && r.source == s.source && r.job.retryCount == attempt
            && r.job.status == (if attempt < MAX_RETRIES then Retrying else Broken)
            && (attempt < MAX_RETRIES ==> attempt + 1 in r.sent)
  {
  }

  /** After the first attempts, each finding storage down. */
  function AfterOutage(s: State, attempts: nat): State {
    if attempts == 0 then s else Delivered(AfterOutage(s, attempts - 1), attempts - 1, CannotRead(Never), false)
  }

  lemma {:induction false} OutageEnds(s: State, attempts: nat)
    requires s.source.hasAsset && s.job.status != Succeeded && 0 in s.sent && attempts <= MAX_RETRIES + 1
    ensures var r := AfterOutage(s, attempts);
            && r.source == s.source && r.content == s.content && r.job.status != Succeeded
            && (attempts > 0 ==> r.job.retryCount == attempts - 1)
            && (attempts > 0 ==> r.job.status == if attempts <= MAX_RETRIES then Retrying else Broken)
            && (attempts <= MAX_RETRIES ==> attempts in r.sent)
  {
    if attempts > 0 {
      OutageEnds(s, attempts - 1);
      var before := AfterOutage(s, attempts - 1);
      DownAgain(before, LoadTexts(before.content.pages, before.source.texts), attempts - 1);
    }
  }

  /**
   A job can end as failed although its pages were loaded: the worker dies between the two commits
   and the remaining attempts find storage down.
   */
  lemma FailedJobMayHaveLoaded(source: Source)
    requires Expected(source).Some?
    ensures var s := AfterOutage(Delivered(Initial(source), 0, DiesLoaded, false), MAX_RETRIES + 1);
            s.job.status == Broken && s.job.retryCount == MAX_RETRIES && Expected(source) == Some(s.content.pages)
  {
    OutageEnds(Delivered(Initial(source), 0, DiesLoaded, false), MAX_RETRIES + 1);
  }

  // ----- the ingestion service itself -----

  function Counted(s: State, attempt: nat): State {
    s.(job := s.job.(retryCount := attempt))
  }

  /** process_ingest_job on its own, with storage up or down and the completion written or not. */
  function Processed(s: State, readable: bool, completes: bool): State {
    var load := LoadTexts(s.content.pages, s.source.texts);
    if !s.source.hasAsset then s.(job := s.job.(status := Broken, failure := NoSourceFile))
    else if !readable || load.None? then s.(job := s.job.(status := Broken, failure := IngestFailed))
    else
      s.(content := Content(load.value, true, |load.value|),
      job := if completes then s.job.(status := Succeeded) else s.job.(status := Broken, failure := IngestFailed))
  }

  /** The ending of a delivery during which the worker lives on. */
  function EndingOf(readable: bool, completes: bool): Ending {
    if !readable then CannotRead(Never) else if completes then Runs(Never) else CannotComplete(Never)
  }

  /** What follows: a job that did not succeed fails for good or is retried. */
  function Decided(s: State, attempt: nat, inline: bool): State {
    if s.job.status == Succeeded then s else Fails(s, attempt, s.job.failure, Never, inline)
  }

  lemma ProcessThenDecide(s: State, attempt: nat, inline: bool, readable: bool, completes: bool)
    requires attempt in s.sent && s.job.status != Succeeded
    ensures Delivered(s, attempt, EndingOf(readable, completes), inline)
         == Decided(Processed(Counted(s, attempt), readable, completes), attempt, inline)
  {
  }

  class IngestTask {
    var hasAsset: bool
    var raws: seq<string>
    var language: string
    var job: Job
    var version: VersionPages
    var processed: bool
    var pageCount: nat
    var sent: set<nat>

    function Texts(): Option<seq<Extracted>>
      reads this
    {
      Cleaned(raws, language)
    }

    function StoredContent(): Content
      reads this, version
    {
      Content(version.pages, processed, pageCount)
    }

    function Abstract(): State
      reads this, version
    {
      State(Source(hasAsset, Texts(), language), job, StoredContent(), sent)
    }

    constructor (hasAsset: bool, raws: seq<string>, language: string)
      ensures Abstract() == Initial(Source(hasAsset, Cleaned(raws, language), language)) && fresh(version)
      ensures job == Job(Waiting, 0, NoFailure) && sent == {0} && version.pages == [] && !processed
    {
      this.hasAsset, this.raws, this.language := hasAsset, raws, language;
      job, processed, pageCount, sent := Job(Waiting, 0, NoFailure), false, 0, {0};
      version := new VersionPages();
    }

    /** process_ingest_job: true when the file could be read, the pages were loaded and the job completed. */
    method ProcessIngestJob(readable: bool, completes: bool) returns (ok: bool)
      modifies this`job, this`processed, this`pageCount, version
      ensures version == old(version)
      ensures Abstract() == Processed(old(Abstract()), readable, completes) && ok == (job.status == Succeeded)
      ensures !hasAsset ==> job == old(job).(status := Broken, failure := NoSourceFile)
      ensures hasAsset && !ok ==> job == old(job).(status := Broken, failure := IngestFailed)
      ensures ok ==> hasAsset && readable && completes && job == old(job).(status := Succeeded)
      ensures ok || (processed, pageCount, version.pages) != old((processed, pageCount, version.pages)) ==>
                hasAsset && readable && processed && pageCount == |raws| && HoldTexts(version.pages, raws, language)
    {
      if !hasAsset {
        job := job.(status := Broken, failure := NoSourceFile);
        return false;
      }
      job := job.(status := Running);
      LoadIsLoadTexts(version.pages, raws, language);
      if !readable || raws == [] {
        job := job.(status := Broken, failure := IngestFailed);
        return false;
      }
      var error := version.LoadPages(raws, language);
      if error.Some? {
        job := job.(status := Broken, failure := IngestFailed);
        return false;
      }
      processed, pageCount := true, |raws|;
      if !completes {
        job := job.(status := Broken, failure := IngestFailed);
        return false;
      }
      job := job.(status := Succeeded);
      return true;
    }

    /** A delivery during which the worker does not die. */
    method IngestSourceDocument(attempt: nat, inline: bool, readable: bool, completes: bool)
      requires attempt in sent
      modifies this, version
      ensures version == old(version)
      ensures Abstract()
           == Delivered(old(Abstract()), attempt, EndingOf(readable, completes), inline)
      ensures old(job).status == Succeeded ==> job == old(job) && sent == old(sent)
      ensures old(job).status != Succeeded ==>
                && job.retryCount == attempt
                && job.status == (if job.status == Succeeded then Succeeded
                                  else if inline || attempt >= 3 then Broken else Retrying)
                && sent == (if job.status == Retrying then old(sent) + {attempt + 1} else old(sent))
    {
      if job.status == Succeeded {
        return;
      }
      ProcessThenDecide(Abstract(), attempt, inline, readable, completes);
      job := job.(retryCount := attempt);
      var ok := ProcessIngestJob(readable, completes);
      if ok {
        return;
      }
      if inline || attempt >= MAX_RETRIES {
        job := job.(status := Broken, retryCount := attempt);
        return;
      }
      job := job.(status := Retrying, retryCount := attempt);
      sent := sent + {attempt + 1};
    }

    /** Clearing the version before another file takes its place. */
    method ClearVersionContent(hasAsset: bool, raws: seq<string>, language: string)
      modifies this, version
      ensures version == old(version)
      ensures Abstract() == Replaced(old(Abstract()), Source(hasAsset, Cleaned(raws, language), language))
      ensures version.pages == [] && job == Job(Waiting, 0, NoFailure) && sent == {0}
      ensures this.hasAsset == hasAsset && this.raws == raws && this.language == language
    {
      version.pages := [];
      this.hasAsset, this.raws, this.language := hasAsset, raws, language;
      job, sent := Job(Waiting, 0, NoFailure), {0};
    }
  }

  // ----- idempotent enqueueing -----

  datatype JobTerms = JobTerms(version: nat, jobType: string, sourceAsset: Option<nat>, payload: string)

  class JobQueue {
    var jobs: map<string, JobTerms>

    constructor ()
      ensures jobs == map[]
    {
      jobs := map[];
    }

    /** One job per key: the first terms stand, the same terms are welcome again, others are refused. */
    method EnqueueProcessingJob(key: string, terms: JobTerms) returns (ok: bool)
      modifies this
      ensures ok <==> key !in old(jobs) || old(jobs)[key] == terms
      ensures jobs == if key in old(jobs) then old(jobs) else old(jobs)[key := terms]
      ensures ok ==> key in jobs && jobs[key] == terms
    {
      if key !in jobs {
        jobs := jobs[key := terms];
        return true;
      }
      return jobs[key] == terms;
    }
  }

  // ----- the version becomes current, the document index is rebuilt -----

  datatype Version = Version(pk: nat, processed: bool, isCurrent: bool, pages: seq<Page>)

  /** A document with its versions, the newest first. */
  datatype Entry = Entry(document: Catalog.Document, described: Search.Described)

  ghost predicate DistinctVersions(versions: seq<Version>) {
    forall i, j | 0 <= i < j < |versions| :: versions[i].pk != versions[j].pk
  }

  function Promoted(versions: seq<Version>, pk: nat): (r: seq<Version>) {
    seq(|versions|, i requires 0 <= i < |versions| => versions[i].(isCurrent := versions[i].pk == pk))
  }

  function CurrentProcessed(versions: seq<Version>): Option<Version> {
    if versions == [] then None
    else if versions[0].isCurrent && versions[0].processed then Some(versions[0])
    else CurrentProcessed(versions[1..])
  }

  function PageTexts(versions: seq<Version>): seq<string> {
    var current := CurrentProcessed(versions);
    if current.None? then [] else IndexTexts(current.value.pages)
  }

  function RebuiltIndex(entry: Entry, versions: seq<Version>): Option<Search.IndexRow> {
    if !Access.IsReaderAccessible(entry.document) then None
    else
      var texts := PageTexts(versions);
      Some(Search.BuildRow(entry.described, Strings.Join(texts, "\n"), |texts|))
  }

  class DocumentStore {
    var entry: Entry
    var versions: seq<Version>
    var index: Option<Search.IndexRow>

    constructor (entry: Entry, versions: seq<Version>)
      ensures this.entry == entry && this.versions == versions && index == None
    {
      this.entry, this.versions, index := entry, versions, None;
    }

    method RebuildDocumentSearchIndex()
      modifies this`index
      ensures index == RebuiltIndex(entry, versions)
    {
      if !Access.IsReaderAccessible(entry.document) {
        index := None;
        return;
      }
      var current := CurrentProcessed(versions);
      var texts := [];
      if current.Some? {
        texts := IndexTexts(current.value.pages);
      }
      index := Some(Search.BuildRow(entry.described, Strings.Join(texts, "\n"), |texts|));
    }

    method MarkVersionCurrentAndIndex(pk: nat)
      modifies this
      ensures entry == old(entry)
      ensures versions == Promoted(old(versions), pk)
      ensures index == RebuiltIndex(entry, versions)
    {
      versions := Promoted(versions, pk);
      RebuildDocumentSearchIndex();
    }
  }

  lemma {:induction false} PromotedIsCurrent(versions: seq<Version>, pk: nat, k: nat)
    requires DistinctVersions(versions) && k < |versions| && versions[k].pk == pk
    ensures var current := CurrentProcessed(Promoted(versions, pk));
            current == if versions[k].processed then Some(versions[k].(isCurrent := true)) else None
  {
    var rest := versions[1..];
    assert Promoted(versions, pk)[1..] == Promoted(rest, pk);
    if k == 0 {
      NoneCurrent(rest, pk);
    } else {
      assert versions[0].pk != pk;
      PromotedIsCurrent(rest, pk, k - 1);
    }
  }

  lemma {:induction false} NoneCurrent(versions: seq<Version>, pk: nat)
    requires forall i | 0 <= i < |versions| :: versions[i].pk != pk
    ensures CurrentProcessed(Promoted(versions, pk)) == None
  {
    if versions != [] {
      assert Promoted(versions, pk)[1..] == Promoted(versions[1..], pk);
      NoneCurrent(versions[1..], pk);
    }
  }

  /** The search index row speaks for exactly these pages. */
  ghost predicate IndexAgrees(row: Search.IndexRow, pages: seq<Page>) {
    && row.pageText == Strings.Join(IndexedTexts(pages), "\n")
    && row.indexedPageCount == |IndexedTexts(pages)|
    && (forall i | 0 <= i < |pages| && HasIndexedRecord(pages[i]) ::
         pages[i].record.value.digest == DigestOf(pages[i].text.value))
    && (forall k | 0 <= k < |IndexedTexts(pages)| :: !StartsWith(IndexedTexts(pages)[k], "[Page "))
  }

  /**
   Finalising a version whose pages are settled makes it the only current one; the document has an
   index row exactly when a reader may discover it, and that row holds the texts of exactly the
   INDEXED pages, in page order, their number, and no placeholder.
   */
  lemma FinalisedIndexAgrees(entry: Entry, versions: seq<Version>, pk: nat, k: nat)
    requires DistinctVersions(versions) && k < |versions| && versions[k].pk == pk
    requires versions[k].processed && AllSettled(versions[k].pages)
    ensures var after := Promoted(versions, pk);
            var index := RebuiltIndex(entry, after);
            && (forall i | 0 <= i < |after| :: after[i].isCurrent <==> i == k)
            && (index.Some? <==> entry.document.status == Catalog.Published
                                 && entry.document.file.accessModel != Catalog.Private)
            && (index.Some? ==> IndexAgrees(index.value, versions[k].pages) && Search.IsBuilt(index.value))
            && (index.Some? ==> index.value.title == entry.described.title
                                && index.value.abstract_ == entry.described.abstract_
                                && index.value.authorNames == Strings.Join(entry.described.authors, "\n")
                                && index.value.language == entry.described.language
                                && index.value.year == entry.described.year)
  {
    PromotedIsCurrent(versions, pk, k);
    IndexReadsIndexed(versions[k].pages);
    forall i | 0 <= i < |versions[k].pages| ensures IsSettled(versions[k].pages[i]) {
    }
  }

  /**
   From the first message to the index: whatever was delivered twice, failed or died on the way,
   once the job has succeeded and every page was indexed last, finalising gives an index row that
   agrees with the texts.
   */
  lemma IngestedDocumentIsIndexed(source: Source, actions: seq<Action>, entry: Entry, versions: seq<Version>, pk: nat,
      k: nat)
    requires Run(Initial(source), actions).job.status == Succeeded
    requires forall i | 0 <= i < |Run(Initial(source), actions).content.pages| ::
        EndsIndexed(WorkDone(Initial(source), actions), i)
    requires DistinctVersions(versions) && k < |versions| && versions[k].pk == pk
    requires var content := Run(Initial(source), actions).content;
             versions[k].pages == content.pages && versions[k].processed == content.processed
    ensures entry.document.status == Catalog.Published && entry.document.file.accessModel != Catalog.Private ==>
              var index := RebuiltIndex(entry, Promoted(versions, pk));
              index.Some? && IndexAgrees(index.value, versions[k].pages)
  {
    IngestionSettles(source, actions);
    FinalisedIndexAgrees(entry, versions, pk, k);
  }

  /**
   From the file to the search: whatever happened on the way, the index row of a finalised document
   that readers may discover holds all that is visible on each page with a credible text layer.
   */
  lemma ExtractedTextIsIndexed(source: Source, actions: seq<Action>, raws: seq<string>, language: string, entry: Entry,
      versions: seq<Version>, pk: nat, k: nat, i: nat)
    requires Run(Initial(source), actions).job.status == Succeeded
    requires Run(Initial(source), actions).source.texts == Cleaned(raws, language)
    requires forall i | 0 <= i < |Run(Initial(source), actions).content.pages| ::
        EndsIndexed(WorkDone(Initial(source), actions), i)
    requires DistinctVersions(versions) && k < |versions| && versions[k].pk == pk
    requires versions[k].pages == Run(Initial(source), actions).content.pages && versions[k].processed
    requires i < |raws| && IsCredible(raws[i])
    ensures entry.document.status == Catalog.Published && entry.document.file.accessModel != Catalog.Private ==>
              var index := RebuiltIndex(entry, Promoted(versions, pk));
              && index.Some?
              && exists texts, p :: 0 <= p < |texts| && index.value.pageText == Strings.Join(texts, "\n")
                                    && NormalForm(texts[p]) && Visible(texts[p]) == Visible(Map(raws[i]))
  {
    IngestionSettles(source, actions);
    FinalisedIndexAgrees(entry, versions, pk, k);
    CredibleTextIsKept(source, actions, raws, language, i);
    var pages := versions[k].pages;
    assert IsSettled(pages[i]);
    IndexedTextIsThere(pages, i);
    var texts := IndexedTexts(pages);
    var p :| 0 <= p < |texts| && texts[p] == pages[i].text.value.text;
  }
}
