/** The journal-to-impact-factor lookup table: how the rows of the bundled
    spreadsheet are folded into a map (scripts/content.js:20-27), and how a
    journal name is looked up in it (line 98). */
module FactorTable {
  import opened Wrappers
  import opened Text

  /** A spreadsheet cell as the decoder hands it over: a number or a text. */
  datatype CellValue = Num(x: real) | Str(s: string)

  /** JavaScript truthiness of a cell value: 0 and "" are falsy. */
  predicate Truthy(v: CellValue) {
    match v
    case Num(x) => x != 0.0
    case Str(s) => s != []
  }

  /** One decoded row, with its optional "Name" and "JIF" fields. */
  datatype SheetRow = SheetRow(name: Option<CellValue>, jif: Option<CellValue>)

  /** Why the table could not be read: the fetch or decode of the bundled
      asset failed, or the row at `index` has a truthy "Name" that is not a
      text, on which `toLowerCase` throws. */
  datatype LoadError = Unreadable | NameNotText(index: nat)

  type FactorMap = map<string, CellValue>

  predicate Present(field: Option<CellValue>) {
    field.Some? && Truthy(field.value)
  }

  /** `row['Name'] && row['JIF']` (line 24). */
  predicate Kept(row: SheetRow) {
    Present(row.name) && Present(row.jif)
  }

  /** The row is kept, and its name lower-cases to `key`. */
  predicate Contributes(row: SheetRow, key: string) {
    Kept(row) && row.name.value.Str? && Lower(row.name.value.s) == key
  }

  /** Every kept row has a text name, so the fold does not throw. */
  predicate Loadable(rows: seq<SheetRow>) {
    forall i :: 0 <= i < |rows| && Kept(rows[i]) ==> rows[i].name.value.Str?
  }

  /** The map the `forEach` of lines 22-27 leaves behind, row after row: a
      kept row writes its JIF under its lower-cased name. */
  function FactorMapOf(rows: seq<SheetRow>): FactorMap
    requires Loadable(rows)
    decreases |rows|
  {
    if rows == [] then map[]
    else
      var last := rows[|rows| - 1];
      var before := FactorMapOf(rows[..|rows| - 1]);
      if Kept(last) then before[Lower(last.name.value.s) := last.jif.value] else before
  }

  /** The fold of lines 21-27, run in place on a local map. It fails at the
      first kept row whose name is not a text, as `toLowerCase` throws there. */
  method BuildFactorMap(rows: seq<SheetRow>) returns (r: Result<FactorMap, LoadError>)
    ensures r.Success? <==> Loadable(rows)
    ensures r.Success? ==> r.value == FactorMapOf(rows)
    ensures r.Failure? ==> r.error.NameNotText? && r.error.index < |rows| &&
                           Kept(rows[r.error.index]) && rows[r.error.index].name.value.Num?
  {
    var factors: FactorMap := map[];
    var i := 0;
    while i < |rows|
      invariant 0 <= i <= |rows|
      invariant Loadable(rows[..i])
      invariant factors == FactorMapOf(rows[..i])
    {
      var row := rows[i];
      if Present(row.name) && Present(row.jif) {
        if !row.name.value.Str? {
          return Failure(NameNotText(i));
        }
        factors := factors[Lower(row.name.value.s) := row.jif.value];
      }
      assert rows[..i + 1][..i] == rows[..i];
      i := i + 1;
    }
    assert rows[..i] == rows;
    return Success(factors);
  }

  /** The keys of the map are exactly the lower-cased names of the kept rows. */
  lemma {:induction false} FactorMapKeys(rows: seq<SheetRow>, key: string)
    requires Loadable(rows)
    ensures key in FactorMapOf(rows) <==> exists i :: 0 <= i < |rows| && Contributes(rows[i], key)
    decreases |rows|
  {
    if rows != [] {
      var n := |rows| - 1;
      var before := rows[..n];
      assert Loadable(before) by {
        forall i | 0 <= i < n && Kept(before[i]) ensures before[i].name.value.Str? {
          assert before[i] == rows[i];
        }
      }
      FactorMapKeys(before, key);
      if key in FactorMapOf(rows) && !Contributes(rows[n], key) {
        var i :| 0 <= i < n && Contributes(before[i], key);
        assert rows[i] == before[i];
      }
      if (exists i :: 0 <= i < |rows| && Contributes(rows[i], key)) && !Contributes(rows[n], key) {
        var i :| 0 <= i < |rows| && Contributes(rows[i], key);
        assert before[i] == rows[i];
      }
    }
  }

  /** Row `i` is the last kept row whose name lower-cases to `key`. */
  predicate LastContributor(rows: seq<SheetRow>, i: int, key: string) {
    0 <= i < |rows| && Contributes(rows[i], key) &&
    forall j :: i < j < |rows| ==> !Contributes(rows[j], key)
  }

  /** For a duplicated name, the last kept row's JIF wins. */
  lemma {:induction false} FactorMapLastWins(rows: seq<SheetRow>, i: nat, key: string)
    requires Loadable(rows)
    requires LastContributor(rows, i, key)
    ensures key in FactorMapOf(rows) && FactorMapOf(rows)[key] == rows[i].jif.value
    decreases |rows|
  {
    var n := |rows| - 1;
    if i < n {
      var before := rows[..n];
      assert Loadable(before) by {
        forall j | 0 <= j < n && Kept(before[j]) ensures before[j].name.value.Str? {
          assert before[j] == rows[j];
        }
      }
      assert before[i] == rows[i];
      forall j | i < j < |before| ensures !Contributes(before[j], key) {
        assert before[j] == rows[j];
      }
      FactorMapLastWins(before, i, key);
    }
  }

  /** Every stored value is truthy, every key is a non-empty lower-case text. */
  lemma {:induction false} FactorMapEntries(rows: seq<SheetRow>)
    requires Loadable(rows)
    ensures forall key :: key in FactorMapOf(rows) ==>
              Truthy(FactorMapOf(rows)[key]) && key != [] && Lower(key) == key
    decreases |rows|
  {
    if rows != [] {
      var n := |rows| - 1;
      var before := rows[..n];
      assert Loadable(before) by {
        forall j | 0 <= j < n && Kept(before[j]) ensures before[j].name.value.Str? {
          assert before[j] == rows[j];
        }
      }
      FactorMapEntries(before);
      if Kept(rows[n]) {
        LowerIdempotent(rows[n].name.value.s);
      }
    }
  }

  /** The map is empty exactly when no row is kept, so initialising an empty
      store leaves it empty only when the spreadsheet holds no usable row. */
  lemma FactorMapEmpty(rows: seq<SheetRow>)
    requires Loadable(rows)
    ensures FactorMapOf(rows) == map[] <==> forall i :: 0 <= i < |rows| ==> !Kept(rows[i])
  {
    if exists i :: 0 <= i < |rows| && Kept(rows[i]) {
      var i :| 0 <= i < |rows| && Kept(rows[i]);
      FactorMapKeys(rows, Lower(rows[i].name.value.s));
    } else if FactorMapOf(rows) != map[] {
      var key :| key in FactorMapOf(rows);
      FactorMapKeys(rows, key);
    }
  }

  /** What the annotation cell shows: a JIF, or a literal text. */
  datatype CellText = Factor(v: CellValue) | Literal(s: string)

  const NotAvailable: string := "N/A"

  /** `impactFactors[journalName.toLowerCase()] || "N/A"` (line 98). */
  function Lookup(factors: FactorMap, journalName: string): CellText {
    var key := Lower(journalName);
    if key in factors && Truthy(factors[key]) then Factor(factors[key]) else Literal(NotAvailable)
  }

  /** Lookup in a map built from the spreadsheet is case-insensitive: the
      name finds the JIF of the last kept row whose name matches it up to
      case, and shows "N/A" when no kept row does. */
  lemma LookupBuilt(rows: seq<SheetRow>, journalName: string)
    requires Loadable(rows)
    ensures (exists i :: 0 <= i < |rows| && Contributes(rows[i], Lower(journalName))) ==
            Lookup(FactorMapOf(rows), journalName).Factor?
    ensures forall i :: LastContributor(rows, i, Lower(journalName)) ==>
              Lookup(FactorMapOf(rows), journalName) == Factor(rows[i].jif.value)
  {
    var key := Lower(journalName);
    FactorMapKeys(rows, key);
    FactorMapEntries(rows);
    forall i | LastContributor(rows, i, key)
      ensures Lookup(FactorMapOf(rows), journalName) == Factor(rows[i].jif.value)
    {
      FactorMapLastWins(rows, i, key);
    }
  }

  /** A missing journal cell looks up "", which no built map holds. */
  lemma LookupEmptyName(rows: seq<SheetRow>)
    requires Loadable(rows)
    ensures Lookup(FactorMapOf(rows), "") == Literal(NotAvailable)
  {
    FactorMapEntries(rows);
  }
}
