/** The outcome-status rule for term-outcome domains: each row's `<DOMAIN>OCCUR` /
    `<DOMAIN>PRESP` pair becomes a `status` cell by `np.select` over the ordered
    conditions [yes, no, unknown] with choices Y, N, U and default None. Comparisons follow
    pandas: `== 'Y'` is false on a missing cell and `!= 'Y'` is true on one. */
module Occurrence {
  import opened Wrappers
  import opened Frames

  const STATUS: string := "status"

  const Y: Cell := Some("Y")
  const N: Cell := Some("N")
  const U: Cell := Some("U")

  /** The domains whose rows are terms with an OCCUR/PRESP outcome; only these get a
      `status` column. */
  const TERM_OUTCOME_DOMAINS: set<string> := {"HO", "SA", "IN"}

  /** No condition before position `k` holds. */
  predicate NoneBefore(conds: seq<bool>, k: int)
    requires k <= |conds|
  {
    forall j :: 0 <= j < k ==> !conds[j]
  }

  /** `np.select(conds, choices, default)` for one row. First match wins: the result is the
      choice at the first true condition, and the default exactly when no condition holds. */
  function Select(conds: seq<bool>, choices: seq<Cell>, default: Cell): (r: Cell)
    requires |choices| == |conds|
    ensures forall k :: 0 <= k < |conds| && conds[k] && NoneBefore(conds, k) ==> r == choices[k]
    ensures NoneBefore(conds, |conds|) ==> r == default
  {
    if conds == [] then default
    else if conds[0] then choices[0]
    else
      var rest := Select(conds[1..], choices[1..], default);
      assert forall k :: 1 <= k <= |conds| && NoneBefore(conds, k) ==> NoneBefore(conds[1..], k - 1);
      rest
  }

  /** The rule as the code states it: three masks handed to `np.select`. It equals the
      decision table `StatusTable` on every (OCCUR, PRESP) pair. */
  function Status(occur: Cell, presp: Cell): (s: Cell)
    ensures s == StatusTable(occur, presp)
  {
    var yes := (occur.None? && presp.None?) || presp != Y || occur == Y;
    var no := occur == N;
    var unknown := (occur.None? && presp == Y) || occur == U;
    var conds, choices := [yes, no, unknown], [Y, N, U];
    var r := Select(conds, choices, None);
    assert yes ==> r == Y;
    assert !yes ==> NoneBefore(conds, 1);
    assert !yes && no ==> r == N;
    assert !yes && !no ==> NoneBefore(conds, 2);
    assert !yes && !no && unknown ==> r == U;
    assert !yes && !no && !unknown ==> NoneBefore(conds, 3) && r == None;
    r
  }

  /** The same rule written as a decision table: any PRESP other than 'Y' (missing
      included) gives Y; with PRESP = 'Y' the OCCUR value decides. */
  function StatusTable(occur: Cell, presp: Cell): Cell
  {
    if presp != Y then Y
    else match occur
      case None => U
      case Some(o) => if o == "Y" then Y else if o == "N" then N else if o == "U" then U else None
  }

  /** Status is 'Y' exactly when OCCUR is 'Y' or PRESP is anything but 'Y' (missing
      included) -- so the yes-condition shadows OCCUR = 'N' whenever PRESP is not 'Y'. */
  lemma StatusYes(occur: Cell, presp: Cell)
    ensures Status(occur, presp) == Y <==> occur == Y || presp != Y
  {
  }

  /** Status is 'N' exactly when OCCUR is 'N' and PRESP is 'Y'. */
  lemma StatusNo(occur: Cell, presp: Cell)
    ensures Status(occur, presp) == N <==> occur == N && presp == Y
  {
  }

  /** Status is 'U' exactly when PRESP is 'Y' and OCCUR is missing or 'U'. */
  lemma StatusUnknown(occur: Cell, presp: Cell)
    ensures Status(occur, presp) == U <==> presp == Y && (occur.None? || occur == U)
  {
  }

  /** Status is missing (the `np.select` default) exactly when PRESP is 'Y' and OCCUR is
      present but none of 'Y', 'N', 'U'; no other value is ever produced. */
  lemma StatusMissing(occur: Cell, presp: Cell)
    ensures Status(occur, presp) == None <==>
      presp == Y && occur.Some? && occur.value != "Y" && occur.value != "N" && occur.value != "U"
    ensures Status(occur, presp) in {Y, N, U, None}
  {
  }

  /** The six rows of the documented truth table, read as (OCCUR, PRESP) -> status. */
  lemma StatusDocumentedRows()
    ensures Status(None, None) == Y
    ensures Status(None, Y) == U
    ensures Status(N, Y) == N
    ensures Status(U, Y) == U
    ensures Status(Y, None) == Y
    ensures Status(Y, Y) == Y
  {
  }

  // ---------------------------------------------------------------------------
  // Frame-level derivation: `frame["status"] = np.select(conds, choices, None)`.

  function OccurColumn(code: string): string { code + "OCCUR" }
  function PrespColumn(code: string): string { code + "PRESP" }

  predicate HasOutcomeColumns(f: Frame, code: string)
  {
    OccurColumn(code) in f.columns && PrespColumn(code) in f.columns
  }

  /** Neither source column can be the derived one: their last letter is 'R', not 's'. */
  lemma SourceColumnsAreNotStatus(code: string)
    ensures OccurColumn(code) != STATUS && PrespColumn(code) != STATUS
  {
    assert OccurColumn(code)[|OccurColumn(code)| - 1] == 'R';
    assert PrespColumn(code)[|PrespColumn(code)| - 1] == 'P';
  }

  function StatusRow(row: Row, code: string): Row
    requires OccurColumn(code) in row && PrespColumn(code) in row
  {
    row[STATUS := Status(row[OccurColumn(code)], row[PrespColumn(code)])]
  }

  /** Assigning the `status` column appends it when absent and overwrites it in place
      otherwise; the row count, every other column and every other cell stay as they were. */
  function DeriveStatus(f: Frame, code: string): (r: Frame)
    requires WellFormed(f) && HasOutcomeColumns(f, code)
    ensures WellFormed(r) && HasOutcomeColumns(r, code)
    ensures STATUS in f.columns ==> r.columns == f.columns
    ensures STATUS !in f.columns ==> r.columns == f.columns + [STATUS]
    ensures |r.rows| == |f.rows|
    ensures forall i :: 0 <= i < |r.rows| ==>
      STATUS in r.rows[i] && r.rows[i][STATUS] == Status(f.rows[i][OccurColumn(code)], f.rows[i][PrespColumn(code)])
    ensures forall i, c :: 0 <= i < |r.rows| && c in f.rows[i] && c != STATUS ==> r.rows[i][c] == f.rows[i][c]
  {
    var columns := if STATUS in f.columns then f.columns else f.columns + [STATUS];
    assert (set c | c in columns) == (set c | c in f.columns) + {STATUS};
    Frame(columns, seq(|f.rows|, i requires 0 <= i < |f.rows| => StatusRow(f.rows[i], code)))
  }

  /** Re-deriving recomputes the same column: derivation reads only OCCUR and PRESP. */
  lemma DeriveStatusIdempotent(f: Frame, code: string)
    requires WellFormed(f) && HasOutcomeColumns(f, code)
    ensures DeriveStatus(DeriveStatus(f, code), code) == DeriveStatus(f, code)
  {
    SourceColumnsAreNotStatus(code);
    var once := DeriveStatus(f, code);
    var twice := DeriveStatus(once, code);
    assert twice.columns == once.columns;
    forall i | 0 <= i < |once.rows| ensures twice.rows[i] == once.rows[i] {
      assert twice.rows[i] == StatusRow(once.rows[i], code);
    }
  }
}
