/** The `Domain` class of the older pyBasics package: the same table object with a fixed
    cap of 100000 rows on load, the same status derivation, the same equality filter, and
    a free-text search without LB whose mask does not treat missing cells (the source passes
    no `na=False`). Reading the pickle file is replaced by the frame it holds. */
module BasicsDomain {
  import opened Wrappers
  import opened Frames
  import opened Occurrence

  /** At most this many leading rows are kept on load. */
  const ROW_CAP: nat := 100000

  const FREE_TEXT_COLUMNS: map<string, string> := map["HO" := "HOTERM", "IN" := "INTRT", "SA" := "SATERM"]

  /** `read_domain`: `df[:100000]`, the leading rows in their original order. */
  function ReadDomain(stored: Frame): (f: Frame)
    ensures f.columns == stored.columns && f.rows <= stored.rows
    ensures |f.rows| == if |stored.rows| < ROW_CAP then |stored.rows| else ROW_CAP
    ensures WellFormed(stored) ==> WellFormed(f)
  {
    Take(stored, ROW_CAP)
  }

  predicate HasMissing(rows: seq<Row>, column: string)
  {
    exists i :: 0 <= i < |rows| && column in rows[i] && rows[i][column].None?
  }

  /** `free_text_search`: `Unsupported` outside SA, IN and HO; `Raised` when the designated
      column is absent or holds a missing cell (without `na=False` the mask carries NaN and
      indexing with it raises); otherwise exactly the matching rows, in order. Every cell
      searched is then present, so the missing-cell clause of `TextMatches` never applies. */
  function SearchFreeText(f: Frame, code: string, terms: seq<string>): (r: SearchOutcome)
    requires WellFormed(f)
    ensures r.Unsupported? <==> code !in {"SA", "IN", "HO"}
    ensures r.Raised? <==>
      (code in FREE_TEXT_COLUMNS && (FREE_TEXT_COLUMNS[code] !in f.columns || HasMissing(f.rows, FREE_TEXT_COLUMNS[code])))
    ensures r.Found? ==> WellFormed(r.frame) && r.frame.columns == f.columns
    ensures r.Found? ==> forall row :: row in r.frame.rows <==>
      row in f.rows && TextMatches(row, FREE_TEXT_COLUMNS[code], terms)
    ensures r.Found? ==> r.frame.rows == Masked(f.rows, TextMask(f.rows, FREE_TEXT_COLUMNS[code], terms))
  {
    if code !in FREE_TEXT_COLUMNS then Unsupported
    else
      var column := FREE_TEXT_COLUMNS[code];
      if column !in f.columns || HasMissing(f.rows, column) then Raised
      else
        var mask := TextMask(f.rows, column, terms);
        forall row ensures row in Masked(f.rows, mask) <==> row in f.rows && TextMatches(row, column, terms) {
          MaskedMember(f.rows, mask, row);
        }
        MaskedRowsWellFormed(f, mask);
        Found(Frame(f.columns, Masked(f.rows, mask)))
  }

  class Domain {
    var frame: Frame
    const domain: string
    /** Set once at construction: whether `domain` is a term-outcome domain. */
    const isTermOutcome: bool

    ghost predicate Valid()
      reads this
    {
      WellFormed(frame) && isTermOutcome == (domain in TERM_OUTCOME_DOMAINS)
    }

    constructor Init(code: string, loaded: Frame)
      requires WellFormed(loaded)
      ensures Valid() && domain == code && frame == loaded
    {
      frame := loaded;
      domain := code;
      isTermOutcome := code in TERM_OUTCOME_DOMAINS;
    }

    /** `Domain(domain, data_directory)`: read at most `ROW_CAP` rows, then derive `status`
        for HO, SA and IN; `None` when that derivation raises for want of OCCUR or PRESP. */
    static method Open(code: string, stored: Frame) returns (r: Option<Domain>)
      requires WellFormed(stored)
      ensures r.None? <==> code in TERM_OUTCOME_DOMAINS && !HasOutcomeColumns(stored, code)
      ensures r.Some? ==> fresh(r.value) && r.value.Valid() && r.value.domain == code
      ensures r.Some? && code in TERM_OUTCOME_DOMAINS ==>
        r.value.frame == DeriveStatus(ReadDomain(stored), code)
      ensures r.Some? && code !in TERM_OUTCOME_DOMAINS ==> r.value.frame == ReadDomain(stored)
    {
      var d := new Domain.Init(code, ReadDomain(stored));
      var raised := d.ProcessOccur();
      if raised {
        r := None;
      } else {
        r := Some(d);
      }
    }

    /** `__process_occur`: the same first-match rule, written to `status` on HO, SA and IN
        only; `raised` when OCCUR or PRESP is absent, and the frame is then untouched. */
    method ProcessOccur() returns (raised: bool)
      requires Valid()
      modifies this
      ensures Valid()
      ensures raised <==> isTermOutcome && !HasOutcomeColumns(old(frame), domain)
      ensures frame == if isTermOutcome && !raised then DeriveStatus(old(frame), domain) else old(frame)
    {
      if !isTermOutcome {
        raised := false;
      } else if !HasOutcomeColumns(frame, domain) {
        raised := true;
      } else {
        frame := DeriveStatus(frame, domain);
        raised := false;
      }
    }

    /** `select_variable_from_column`: `None` for a column the frame lacks; otherwise the
        rows whose cell equals `variable`, in order. The frame is only read. */
    function SelectVariableFromColumn(column: string, variable: string): (r: Option<Frame>)
      reads this
      requires Valid()
      ensures r.None? <==> column !in frame.columns
      ensures r.Some? ==> r.value.columns == frame.columns
      ensures r.Some? ==> forall row :: row in r.value.rows <==> row in frame.rows && row[column] == Some(variable)
      ensures r.Some? ==> r.value.rows == Masked(frame.rows, EqualsMask(frame.rows, column, variable))
    {
      SelectWhere(frame, column, variable)
    }

    /** `free_text_search(*term)`: `Unsupported` unless the domain is SA, IN or HO (LB is
        not searchable here); a missing cell in the searched column raises. */
    function FreeTextSearch(terms: seq<string>): (r: SearchOutcome)
      reads this
      requires Valid()
      ensures r.Unsupported? <==> domain !in {"SA", "IN", "HO"}
      ensures r.Raised? <==>
        (domain in FREE_TEXT_COLUMNS &&
         (FREE_TEXT_COLUMNS[domain] !in frame.columns || HasMissing(frame.rows, FREE_TEXT_COLUMNS[domain])))
      ensures r.Found? ==> WellFormed(r.frame) && r.frame.columns == frame.columns
      ensures r.Found? ==> forall row :: row in r.frame.rows <==>
        row in frame.rows && TextMatches(row, FREE_TEXT_COLUMNS[domain], terms)
      ensures r.Found? ==> r.frame.rows == Masked(frame.rows, TextMask(frame.rows, FREE_TEXT_COLUMNS[domain], terms))
    {
      SearchFreeText(frame, domain, terms)
    }
  }
}
