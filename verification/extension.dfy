/** `initializeExtension` (scripts/content.js:2-142): the lookup store, its
    one-time initialisation from the bundled spreadsheet, the annotation pass
    reading the store, and the observer callback that repeats the pass.

    The platform's storage is the field `stored`; the fetched and decoded
    spreadsheet is a parameter, None when the fetch or the decode fails. */
module Extension {
  import opened Wrappers
  import opened FactorTable
  import opened Annotator
  import opened Watcher

  /** Whether `checkAndInitializeImpactFactors` ran to its end or caught an
      error (lines 111-113). */
  datatype InitOutcome = Initialized | InitFailed(error: LoadError)

  class ImpactFactorExtension {
    /** The `impactFactors` key of the extension's local storage. */
    var stored: Option<FactorMap>
    /** The citation table, null when the page has none. */
    const table: CitationTable?
    /** The mutation observer is observing the table. */
    var watching: bool

    constructor (stored: Option<FactorMap>, table: CitationTable?)
      ensures this.stored == stored && this.table == table && !watching
    {
      this.stored := stored;
      this.table := table;
      watching := false;
    }

    /** `result.impactFactors || {}` (line 42). */
    function StoredFactors(): FactorMap
      reads this
    {
      match stored
      case Some(factors) => factors
      case None => map[]
    }

    /** `getStoredImpactFactors` (lines 39-45). */
    method GetStoredImpactFactors() returns (factors: FactorMap)
      ensures stored.Some? ==> factors == stored.value
      ensures stored.None? ==> factors == map[]
    {
      factors := StoredFactors();
    }

    /** `readImpactFactorFile` (lines 6-36): build the map from the decoded
      rows and store it; any failure is passed on and nothing is stored. */
    method ReadImpactFactorFile(sheet: Option<seq<SheetRow>>) returns (r: Result<FactorMap, LoadError>)
      modifies this
      ensures watching == old(watching)
      ensures sheet.None? ==> r == Failure(Unreadable)
      ensures sheet.Some? ==> (r.Success? <==> Loadable(sheet.value))
      ensures r.Success? ==> r.value == FactorMapOf(sheet.value) && stored == Some(r.value)
      ensures r.Failure? ==> stored == old(stored)
    {
      if sheet.None? {
        return Failure(Unreadable);
      }
      r := BuildFactorMap(sheet.value);
      if r.Success? {
        stored := Some(r.value);
      }
    }

    /** `updateTableWithImpactFactors` (lines 64-101): a pass with the map
      read from the store; nothing happens without a table. */
    method UpdateTableWithImpactFactors()
      requires table != null ==> Annotatable(table.rows)
      modifies table
      ensures table != null ==> table.rows == Pass(old(table.rows), StoredFactors())
    {
      var impactFactors := GetStoredImpactFactors();
      if table != null {
        table.UpdateWithFactors(impactFactors);
      }
    }

    /** `checkAndInitializeImpactFactors` (lines 104-114): the spreadsheet is
      read only when the store is empty, and the pass runs after that. A
      failure while reading skips the pass and is swallowed. */
    method CheckAndInitializeImpactFactors(sheet: Option<seq<SheetRow>>) returns (outcome: InitOutcome)
      requires table != null ==> Annotatable(table.rows)
      modifies this, table
      ensures watching == old(watching)
      ensures old(StoredFactors()) != map[] ==> stored == old(stored) && outcome == Initialized
      ensures old(StoredFactors()) == map[] ==>
                (outcome == Initialized <==> sheet.Some? && Loadable(sheet.value))
      ensures old(StoredFactors()) == map[] && outcome == Initialized ==>
                stored == Some(FactorMapOf(sheet.value))
      ensures outcome.InitFailed? ==>
                stored == old(stored) && (table != null ==> table.rows == old(table.rows))
      ensures outcome == Initialized && table != null ==>
                table.rows == Pass(old(table.rows), StoredFactors())
    {
      var storedData := GetStoredImpactFactors();
      if |storedData.Keys| == 0 {
        var r := ReadImpactFactorFile(sheet);
        if r.Failure? {
          return InitFailed(r.error);
        }
      }
      UpdateTableWithImpactFactors();
      return Initialized;
    }

    /** Lines 117-141: initialise, then observe the table. `observe` throws
      on a missing table, so the observer is live only when there is one. */
    method InitializeExtension(sheet: Option<seq<SheetRow>>) returns (outcome: InitOutcome)
      requires !watching
      requires table != null ==> Annotatable(table.rows)
      modifies this, table
      ensures watching <==> table != null
      ensures old(StoredFactors()) != map[] ==> stored == old(stored) && outcome == Initialized
      ensures old(StoredFactors()) == map[] ==>
                (outcome == Initialized <==> sheet.Some? && Loadable(sheet.value))
      ensures old(StoredFactors()) == map[] && outcome == Initialized ==>
                stored == Some(FactorMapOf(sheet.value))
      ensures outcome.InitFailed? ==>
                stored == old(stored) && (table != null ==> table.rows == old(table.rows))
      ensures outcome == Initialized && table != null ==>
                table.rows == Pass(old(table.rows), StoredFactors())
    {
      outcome := CheckAndInitializeImpactFactors(sheet);
      watching := table != null;
    }

    /** The observer callback (lines 120-135): one pass per triggering
      record. As a pass is idempotent, the table ends as after a single pass
      when any record triggered, and unchanged otherwise. */
    method OnMutations(batch: seq<MutationRecord>) returns (passes: nat)
      requires watching && table != null
      requires Annotatable(table.rows)
      modifies table
      ensures passes == TriggerCount(batch)
      ensures Annotatable(table.rows)
      ensures table.rows == if passes == 0 then old(table.rows) else Pass(old(table.rows), StoredFactors())
    {
      passes := 0;
      var k := 0;
      while k < |batch|
        invariant 0 <= k <= |batch|
        invariant passes == TriggerCount(batch[..k])
        invariant Annotatable(table.rows)
        invariant table.rows == if passes == 0 then old(table.rows) else Pass(old(table.rows), StoredFactors())
      {
        var mutation := batch[k];
        if mutation.kind == ChildList && |mutation.addedNodes| > 0 {
          var hasNewRows := HasNewRows(mutation.addedNodes);
          if hasNewRows {
            PassIdempotent(old(table.rows), StoredFactors(), StoredFactors());
            PassAnnotatable(table.rows, StoredFactors());
            UpdateTableWithImpactFactors();
            passes := passes + 1;
          }
        }
        assert batch[..k + 1] == batch[..k] + [batch[k]];
        TriggerCountAppend(batch[..k], [batch[k]]);
        k := k + 1;
      }
      assert batch[..k] == batch;
    }
  }
}
