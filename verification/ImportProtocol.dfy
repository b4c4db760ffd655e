/**
 The import as two threads run it: the owner (SaveSetsPage of oracle/src/pages.cpp and the importer's
 header) and the worker that runs startImport, one step at a time in any interleaving.
 */
module ImportProtocol {
  import opened Bytes
  import opened CardImport
  import opened CardImportTheorems
  import opened Importer

  /** Where the worker stands: queued, before poll i, past it and importing set i, past the last poll, done. */
  datatype Worker =
    | Idle
    | Scheduled
    | Polling(next: nat)
    | Importing(next: nat)
    | Closing
    | Finished(result: nat)

  predicate Running(w: Worker) { !w.Idle? && !w.Finished? }

  /** SaveSetsPage's flags; entered while it is initialized, waiting inside cancelWork's waitForFinished. */
  datatype Page = Page(entered: bool, plainXml: bool, importActive: bool, importReady: bool, totalSets: nat, waiting: bool)

  predicate IsComplete(p: Page) { !p.importActive && p.importReady }

  /** A database that was written, with the sets that were selected and the bytes they were selected from. */
  datatype Written = Written(sets: set<units>, cards: map<string, Card>, selected: seq<SetToDownload>, source: bytes)

  /**
   The world; selected and source are what the importer held at the last initializePage, doomed is set by
   a cancel before the worker's last poll, cancelled by any cancel since the last initializePage.
   */
  datatype World = World(
    imp: ImporterState, worker: Worker, page: Page, selected: seq<SetToDownload>, source: bytes,
    written: seq<Written>, doomed: bool, cancelled: bool)

  datatype Event =
    | LoadSource(allSets: seq<SetToDownload>, data: bytes)
    | InitializePlainXml
    | Initialize
    | StartWorker
    | SkipWorker
    | PollFlag
    | ImportOne
    | Close
    | CancelWork
    | WaitOver
    | ImportFinished
    | CleanUp
    | Save

  const EMPTY_IMPORTER := ImporterState(NOTHING, {}, [], [], false, false, NoMessage)

  predicate Enabled(w: World, e: Event) {
    match e
    case LoadSource(_, _) => !w.page.waiting && !w.page.entered
    case InitializePlainXml => !w.page.waiting && !w.page.entered
    case Initialize => !w.page.waiting && !w.page.entered
    case StartWorker => w.worker.Scheduled?
    // a future cancelled before its task starts never runs it
    case SkipWorker => w.worker.Scheduled? && w.page.waiting
    case PollFlag => w.worker.Polling?
    case ImportOne => w.worker.Importing? && w.worker.next < |w.imp.allSets|
    case Close => w.worker.Closing?
    case CancelWork => !w.page.waiting && w.page.importActive
    case WaitOver => w.page.waiting && !Running(w.worker)
    case ImportFinished => !w.page.waiting && w.page.importActive && w.worker.Finished?
    case CleanUp => !w.page.waiting && w.page.entered && !w.page.importActive
    case Save => !w.page.waiting && w.page.entered && !w.page.plainXml && IsComplete(w.page)
  }

  function Apply(w: World, e: Event, lib: Library, st: Settings): World
    requires Enabled(w, e)
  {
    match e
    case LoadSource(allSets, data) =>
      w.(imp := w.imp.(allSets := allSets, rawSetsData := data, successful := false, error := NoMessage))
    case InitializePlainXml =>
      w.(page := Page(true, true, false, true, w.page.totalSets, false), cancelled := false)
    case Initialize =>
      w.(page := Page(true, false, true, false, |w.imp.allSets|, false), imp := Prepared(w.imp), worker := Scheduled,
         selected := w.imp.allSets, source := w.imp.rawSetsData, doomed := false, cancelled := false)
    case StartWorker =>
      w.(imp := Begun(w.imp), worker := if w.imp.allSets == [] then Finished(0) else Polling(0))
    case SkipWorker =>
      w.(worker := Finished(0))
    case PollFlag =>
      if w.imp.cancelled then w.(imp := Failed(w.imp, ImportCancelled), worker := Finished(0))
      else w.(worker := if w.worker.next < |w.imp.allSets| then Importing(w.worker.next) else Closing)
    case ImportOne =>
      w.(imp := WithSet(w.imp, w.worker.next, lib, st),
         worker := if ParsedSlice(w.imp.allSets[w.worker.next], w.imp.rawSetsData, lib).CardList?
                   then Polling(w.worker.next + 1) else Finished(0))
    case Close =>
      w.(imp := Closed(w.imp, st), worker := Finished(if w.imp.db.cards == map[] then 0 else |w.imp.allSets|))
    case CancelWork =>
      w.(page := w.page.(importActive := false, waiting := true), imp := w.imp.(cancelled := true),
         doomed := w.worker.Scheduled? || w.worker.Polling? || w.worker.Importing?, cancelled := true)
    case WaitOver =>
      w.(page := w.page.(waiting := false))
    case ImportFinished =>
      w.(page := w.page.(importActive := false, importReady := w.imp.successful && w.worker.result == w.page.totalSets),
         imp := w.imp.(allSets := [], rawSetsData := []))
    case CleanUp =>
      w.(page := w.page.(entered := false), imp := EMPTY_IMPORTER)
    case Save =>
      if w.imp.successful
      then w.(written := w.written + [Written(w.imp.sets, w.imp.db.cards, w.selected, w.source)]) else w
  }

  ghost predicate Init(w: World) {
    w == World(EMPTY_IMPORTER, Idle, Page(false, false, false, false, 0, false), [], [], [], false, false)
  }

  // ----- what a complete import is -----

  function Base(selected: seq<SetToDownload>, source: bytes): ImporterState {
    ImporterState(NOTHING, {}, selected, source, false, false, NoMessage)
  }

  /** The first n selected sets have been taken in, each from a slice that parsed. */
  ghost predicate TakenIn(db: Database, sets: set<units>, w: World, n: nat, lib: Library, st: Settings) {
    && n <= |w.selected| && w.selected != [] && Importable(Base(w.selected, w.source), n, lib)
    && db == AfterSets(Base(w.selected, w.source), n, lib, st).db
    && sets == AfterSets(Base(w.selected, w.source), n, lib, st).sets
  }

  /** Every selected set parsed, and the cards are those of all of them, translated. */
  ghost predicate IsWhole(d: Written, lib: Library, st: Settings) {
    var base := Base(d.selected, d.source);
    && d.selected != [] && Importable(base, |d.selected|, lib)
    && d.sets == AfterSets(base, |d.selected|, lib, st).sets
    && d.cards == WithTranslations(ImportedAll(BatchesOf(base, |d.selected|, lib), st), st).cards
  }

  ghost predicate Nothing(imp: ImporterState) {
    imp.db == NOTHING && imp.sets == {} && !imp.successful
  }

  ghost predicate Whole(w: World, lib: Library, st: Settings) {
    w.imp.successful && IsWhole(Written(w.imp.sets, w.imp.db.cards, w.selected, w.source), lib, st)
  }

  // ----- the invariant -----

  ghost predicate PageInv(w: World) {
    && (w.page.importActive ==> w.page.entered && !w.page.waiting && !w.page.plainXml && !w.worker.Idle?
                                && !w.imp.cancelled && !w.cancelled && w.page.totalSets == |w.selected| && !w.page.importReady)
    && (w.page.waiting ==> w.page.entered && w.imp.cancelled && w.cancelled && !w.page.importReady && !w.page.plainXml)
    && (!w.page.importActive && !w.page.waiting ==> !Running(w.worker))
    && (w.cancelled ==> !w.page.importReady)
    && (!w.page.entered ==> Nothing(w.imp))
    && (w.page.entered && w.page.plainXml ==> Nothing(w.imp))
    && (w.page.entered && !w.page.plainXml && IsComplete(w.page) ==> w.imp.successful)
  }

  ghost predicate WorkerInv(w: World, lib: Library, st: Settings) {
    && (Running(w.worker) ==> w.imp.allSets == w.selected && w.imp.rawSetsData == w.source && !w.imp.successful)
    && (w.worker.Scheduled? ==> Nothing(w.imp))
    && (w.worker.Polling? ==> TakenIn(w.imp.db, w.imp.sets, w, w.worker.next, lib, st))
    && (w.worker.Importing? ==> w.worker.next < |w.selected| && TakenIn(w.imp.db, w.imp.sets, w, w.worker.next, lib, st))
    && (w.worker.Closing? ==> TakenIn(w.imp.db, w.imp.sets, w, |w.selected|, lib, st))
    && (w.imp.successful ==> Whole(w, lib, st))
    && (w.worker.Finished? && w.worker.result == 0 ==> Nothing(w.imp))
    && (!w.imp.successful && !Running(w.worker) ==> Nothing(w.imp))
  }

  ghost predicate CancelInv(w: World) {
    w.doomed ==> !w.page.importActive && !w.worker.Closing? && !w.worker.Idle?
                 && (Running(w.worker) ==> w.imp.cancelled)
                 && (w.worker.Finished? ==> w.worker.result == 0 && Nothing(w.imp))
  }

  ghost predicate Inv(w: World, lib: Library, st: Settings) {
    && PageInv(w) && WorkerInv(w, lib, st) && CancelInv(w)
    && (forall d <- w.written :: IsWhole(d, lib, st))
  }

  lemma {:induction false} AfterSetsFixed(s: ImporterState, n: nat, lib: Library, st: Settings)
    requires n <= |s.allSets| && s.allSets != []
    ensures var r := AfterSets(s, n, lib, st);
            && r.allSets == s.allSets && r.rawSetsData == s.rawSetsData
    decreases n
  {}

  lemma TakeOneMore(w: World, imp: ImporterState, n: nat, lib: Library, st: Settings)
    requires TakenIn(imp.db, imp.sets, w, n, lib, st) && n < |w.selected|
    requires imp.allSets == w.selected && imp.rawSetsData == w.source
    requires ParsedSlice(w.selected[n], w.source, lib).CardList?
    ensures var r := WithSet(imp, n, lib, st); TakenIn(r.db, r.sets, w, n + 1, lib, st)
  {
    hide ImportedSet, ParsedSlice, Failed, Refusal;
    var base := Base(w.selected, w.source);
    AfterSetsFixed(base, n, lib, st);
    assert Importable(base, n + 1, lib);
  }

  lemma TakenWhole(w: World, lib: Library, st: Settings)
    requires TakenIn(w.imp.db, w.imp.sets, w, |w.selected|, lib, st)
    ensures IsWhole(Written(w.imp.sets, WithTranslations(w.imp.db, st).cards, w.selected, w.source), lib, st)
  {
    AfterSetsImports(Base(w.selected, w.source), |w.selected|, lib, st);
  }

  // ----- every step keeps it -----

  lemma OwnerStep(w: World, e: Event, lib: Library, st: Settings)
    requires Inv(w, lib, st) && Enabled(w, e)
    requires !e.StartWorker? && !e.SkipWorker? && !e.PollFlag? && !e.ImportOne? && !e.Close?
    ensures Inv(Apply(w, e, lib, st), lib, st)
  {
    hide TakenIn, IsWhole;
    var w' := Apply(w, e, lib, st);
    forall n: nat, db, sets | w.selected == w'.selected && w.source == w'.source
      ensures TakenIn(db, sets, w, n, lib, st) == TakenIn(db, sets, w', n, lib, st)
    {
      SameTaken(w, w', db, sets, n, lib, st);
    }
  }

  lemma SameTaken(w: World, w': World, db: Database, sets: set<units>, n: nat, lib: Library, st: Settings)
    requires w.selected == w'.selected && w.source == w'.source
    ensures TakenIn(db, sets, w, n, lib, st) == TakenIn(db, sets, w', n, lib, st)
  {}

  lemma StartStep(w: World, lib: Library, st: Settings)
    requires Inv(w, lib, st) && Enabled(w, StartWorker)
    ensures Inv(Apply(w, StartWorker, lib, st), lib, st)
  {
    if w.selected != [] {
      assert Importable(Base(w.selected, w.source), 0, lib);
    }
  }

  lemma PollStep(w: World, lib: Library, st: Settings)
    requires Inv(w, lib, st) && Enabled(w, PollFlag)
    ensures Inv(Apply(w, PollFlag, lib, st), lib, st)
  {
    hide TakenIn, IsWhole;
    var w' := Apply(w, PollFlag, lib, st);
    SameTaken(w, w', w.imp.db, w.imp.sets, w.worker.next, lib, st);
    assert w.worker.next <= |w.selected| by { TakenBound(w, lib, st); }
  }

  lemma TakenBound(w: World, lib: Library, st: Settings)
    requires w.worker.Polling? && TakenIn(w.imp.db, w.imp.sets, w, w.worker.next, lib, st)
    ensures w.worker.next <= |w.selected|
  {}

  lemma ImportStep(w: World, lib: Library, st: Settings)
    requires Inv(w, lib, st) && Enabled(w, ImportOne)
    ensures Inv(Apply(w, ImportOne, lib, st), lib, st)
  {
    hide TakenIn, IsWhole, ImportedSet, ParsedSlice, Refusal;
    var n := w.worker.next;
    var w' := Apply(w, ImportOne, lib, st);
    if ParsedSlice(w.selected[n], w.source, lib).CardList? {
      TakeOneMore(w, w.imp, n, lib, st);
      SameTaken(w, w', w'.imp.db, w'.imp.sets, n + 1, lib, st);
    }
  }

  lemma CloseStep(w: World, lib: Library, st: Settings)
    requires Inv(w, lib, st) && Enabled(w, Close)
    ensures Inv(Apply(w, Close, lib, st), lib, st)
  {
    hide TakenIn, IsWhole, WithTranslations;
    TakenWhole(w, lib, st);
    assert w.selected != [] by { NotEmpty(w, lib, st); }
  }

  lemma NotEmpty(w: World, lib: Library, st: Settings)
    requires TakenIn(w.imp.db, w.imp.sets, w, |w.selected|, lib, st)
    ensures w.selected != []
  {}

  /** Every step of either thread keeps the invariant. */
  lemma StepKeepsInv(w: World, e: Event, lib: Library, st: Settings)
    requires Inv(w, lib, st) && Enabled(w, e)
    ensures Inv(Apply(w, e, lib, st), lib, st)
  {
    hide Inv;
    match e
    case StartWorker => StartStep(w, lib, st);
    case SkipWorker => SkipStep(w, lib, st);
    case PollFlag => PollStep(w, lib, st);
    case ImportOne => ImportStep(w, lib, st);
    case Close => CloseStep(w, lib, st);
    case _ => OwnerStep(w, e, lib, st);
  }

  lemma SkipStep(w: World, lib: Library, st: Settings)
    requires Inv(w, lib, st) && Enabled(w, SkipWorker)
    ensures Inv(Apply(w, SkipWorker, lib, st), lib, st)
  {
    hide TakenIn, IsWhole;
  }

  // ----- over whole runs -----

  /** A run: worlds linked by enabled events, from the initial one. */
  ghost predicate IsRun(ws: seq<World>, es: seq<Event>, lib: Library, st: Settings) {
    && |ws| == |es| + 1 && Init(ws[0])
    && forall i :: 0 <= i < |es| ==> Enabled(ws[i], es[i]) && ws[i + 1] == Apply(ws[i], es[i], lib, st)
  }

  lemma {:induction false} RunKeepsInv(ws: seq<World>, es: seq<Event>, i: nat, lib: Library, st: Settings)
    requires IsRun(ws, es, lib, st) && i < |ws|
    ensures Inv(ws[i], lib, st)
    decreases i
  {
    if i > 0 {
      RunKeepsInv(ws, es, i - 1, lib, st);
      hide Inv;
      assert Enabled(ws[i - 1], es[i - 1]);
      StepKeepsInv(ws[i - 1], es[i - 1], lib, st);
    }
  }

  /** A cancel that comes before the worker's last poll ends with nothing imported and result 0. */
  lemma CancelledImportIsEmpty(ws: seq<World>, es: seq<Event>, i: nat, j: nat, lib: Library, st: Settings)
    requires IsRun(ws, es, lib, st) && i < j < |ws| && es[i] == CancelWork
    requires ws[i].worker.Scheduled? || ws[i].worker.Polling? || ws[i].worker.Importing?
    requires forall k :: i < k < j ==> !es[k].Initialize?
    ensures ws[j].worker.Finished? ==> ws[j].worker.result == 0 && Nothing(ws[j].imp)
    ensures !ws[j].worker.Closing? && !ws[j].imp.successful
  {
    RunKeepsInv(ws, es, j, lib, st);
    DoomLasts(ws, es, i, j, lib, st);
  }

  lemma {:induction false} DoomLasts(ws: seq<World>, es: seq<Event>, i: nat, j: nat, lib: Library, st: Settings)
    requires IsRun(ws, es, lib, st) && i < j < |ws| && es[i] == CancelWork
    requires ws[i].worker.Scheduled? || ws[i].worker.Polling? || ws[i].worker.Importing?
    requires forall k :: i < k < j ==> !es[k].Initialize?
    ensures ws[j].doomed
    decreases j
  {
    hide Apply, Enabled, Inv;
    assert Enabled(ws[j - 1], es[j - 1]) && ws[j] == Apply(ws[j - 1], es[j - 1], lib, st);
    if j - 1 > i {
      DoomLasts(ws, es, i, j - 1, lib, st);
    }
    RunKeepsInv(ws, es, j - 1, lib, st);
    DoomStep(ws[j - 1], es[j - 1], lib, st);
  }

  lemma DoomStep(w: World, e: Event, lib: Library, st: Settings)
    requires Inv(w, lib, st) && Enabled(w, e) && !e.Initialize?
    requires if e.CancelWork? && !w.doomed then w.worker.Scheduled? || w.worker.Polling? || w.worker.Importing? else w.doomed
    ensures Apply(w, e, lib, st).doomed
  {
    hide TakenIn, IsWhole, Whole;
  }

  /** From a cancel on, cancelWork is still waiting or no worker runs, until the page is initialized again. */
  lemma {:induction false} NoWorkerAfterCancelWork(ws: seq<World>, es: seq<Event>, i: nat, j: nat, lib: Library, st: Settings)
    requires IsRun(ws, es, lib, st) && i < j < |ws| && es[i] == CancelWork
    requires forall k :: i < k < j ==> !es[k].Initialize?
    ensures ws[j].page.waiting || !Running(ws[j].worker)
    decreases j
  {
    hide Apply, Enabled;
    if j - 1 > i {
      NoWorkerAfterCancelWork(ws, es, i, j - 1, lib, st);
    }
    WaitStep(ws[j - 1], es[j - 1], lib, st);
  }

  lemma WaitStep(w: World, e: Event, lib: Library, st: Settings)
    requires Enabled(w, e) && !e.Initialize?
    requires e == CancelWork || w.page.waiting || !Running(w.worker)
    ensures var next := Apply(w, e, lib, st); next.page.waiting || !Running(next.worker)
  {
    hide Failed, Begun, WithSet, Closed, ParsedSlice;
  }

  /** A cancelled page does not become ready before it is initialized again. */
  lemma {:induction false} CancelledPageStaysUnready(ws: seq<World>, es: seq<Event>, i: nat, j: nat, lib: Library, st: Settings)
    requires IsRun(ws, es, lib, st) && i < j < |ws| && es[i] == CancelWork
    requires forall k :: i < k < j ==> !es[k].Initialize? && !es[k].InitializePlainXml?
    ensures ws[j].cancelled && !ws[j].page.importReady
    decreases j
  {
    assert Enabled(ws[j - 1], es[j - 1]) && ws[j] == Apply(ws[j - 1], es[j - 1], lib, st);
    RunKeepsInv(ws, es, j, lib, st);
    if j - 1 > i {
      CancelledPageStaysUnready(ws, es, i, j - 1, lib, st);
    }
  }

  /** Every database that is ever written holds every set that was selected. */
  lemma WrittenIsWhole(ws: seq<World>, es: seq<Event>, i: nat, lib: Library, st: Settings)
    requires IsRun(ws, es, lib, st) && i < |ws|
    ensures forall d <- ws[i].written :: IsWhole(d, lib, st)
  {
    RunKeepsInv(ws, es, i, lib, st);
  }
}
