/**
 The save page of oracle/src/pages.cpp as an object: each method takes the step of the import protocol
 that bears its name, on the page's flags and on the importer it drives.
 */
module SaveSetsPage {
  import opened Importer
  import opened ImportProtocol

  class WizardPage {
    const importer: OracleImporter
    var downloadedPlainXml: bool
    var importActive: bool
    var importReady: bool
    var totalSets: nat

    constructor (importer: OracleImporter)
      ensures this.importer == importer && !downloadedPlainXml && !importActive && !importReady && totalSets == 0
    {
      this.importer := importer;
      downloadedPlainXml, importActive, importReady, totalSets := false, false, false, 0;
    }

    /** The page and its importer look as they do in this world of the protocol. */
    ghost predicate Mirrors(w: World)
      reads this, importer
    {
      && w.imp == importer.State()
      && w.page.plainXml == downloadedPlainXml && w.page.importActive == importActive
      && w.page.importReady == importReady && w.page.totalSets == totalSets
    }

    predicate IsComplete()
      reads this
    {
      !importActive && importReady
    }

    method InitializePage(plainXml: bool, ghost w: World)
      requires Mirrors(w) && Enabled(w, Initialize) && !importActive
      modifies this, importer
      ensures Mirrors(Apply(w, if plainXml then InitializePlainXml else Initialize, importer.lib, importer.st))
    {
      importReady := false;
      downloadedPlainXml := plainXml;
      if plainXml {
        importReady := true;
        return;
      }
      totalSets := |importer.allSets|;
      importActive := true;
      importer.PrepareImport();
    }

    /** Up to the wait for the worker; nothing when no import is active. */
    method CancelWork(ghost w: World)
      requires Mirrors(w) && !w.page.waiting
      modifies this, importer
      ensures Mirrors(if Enabled(w, ImportProtocol.CancelWork)
                      then Apply(w, ImportProtocol.CancelWork, importer.lib, importer.st) else w)
    {
      if !importActive {
        return;
      }
      importActive := false;
      importer.CancelImport();
    }

    /** The slot of the worker's result; nothing when the import has been cancelled. */
    method ImportFinished(setsImported: nat, ghost w: World)
      requires Mirrors(w) && !w.page.waiting && w.worker == Finished(setsImported)
      modifies this, importer
      ensures Mirrors(if Enabled(w, ImportProtocol.ImportFinished)
                      then Apply(w, ImportProtocol.ImportFinished, importer.lib, importer.st) else w)
    {
      if !importActive {
        return;
      }
      importActive := false;
      importReady := importer.importSuccessful && setsImported == totalSets;
      importer.ReleaseSetData();
    }

    /** Past cancelWork and its wait. */
    method CleanupPage(ghost w: World)
      requires Mirrors(w) && Enabled(w, CleanUp)
      modifies this, importer
      ensures Mirrors(Apply(w, CleanUp, importer.lib, importer.st))
    {
      importer.Clear();
    }

    /** Saving a collected database: refused unless the page is complete. */
    method ValidatePage(ghost w: World) returns (written: Saved)
      requires Mirrors(w) && w.page.entered && !w.page.waiting && !downloadedPlainXml
      ensures Mirrors(w)
      ensures written.Saved? ==>
                && Enabled(w, Save) && w.imp.successful
                && Apply(w, Save, importer.lib, importer.st).written
                   == w.written + [Written(written.sets, written.cards, w.selected, w.source)]
    {
      if !IsComplete() {
        return NotSaved;
      }
      written := importer.SaveToFile();
    }
  }
}
