/** The `Domain` class of the ISARIC package: a loaded domain table with in-place column
    dropping and subsetting, the derived `status` column for term-outcome domains, an
    equality row filter and a free-text search whose allow-list includes LB. Reading the
    pickle file is replaced by the frame it holds, passed in as `stored`. */
module IsaricDomain {
  import opened Wrappers
  import opened Frames
  import opened Occurrence

  /** The free-text search allow-list and each domain's designated text column. */
  const FREE_TEXT_COLUMNS: map<string, string> :=
    map["HO" := "HOTERM", "IN" := "INTRT", "SA" := "SATERM", "LB" := "LBTEST"]

  /** `read_domain` once the table is loaded: every row when `numRows` is `None`,
      otherwise `df[:num_rows]`, the leading rows in their original order. */
  function ReadDomain(stored: Frame, numRows: Option<int>): (f: Frame)
    ensures f.columns == stored.columns && f.rows <= stored.rows
    ensures numRows.None? ==> f == stored
    ensures numRows.Some? && numRows.value >= 0 ==>
      |f.rows| == if numRows.value < |stored.rows| then numRows.value else |stored.rows|
    ensures WellFormed(stored) ==> WellFormed(f)
  {
    match numRows
    case None => stored
    case Some(n) => Take(stored, n)
  }

  /** `free_text_search`: `Unsupported` outside SA, IN, HO and LB; `Raised` when the
      designated column is absent (the `KeyError` is not caught); otherwise exactly the
      matching rows, in order, under the same columns. */
  function SearchFreeText(f: Frame, code: string, terms: seq<string>): (r: SearchOutcome)
    requires WellFormed(f)
    ensures r.Unsupported? <==> code !in {"SA", "IN", "HO", "LB"}
    ensures r.Raised? <==> code in FREE_TEXT_COLUMNS && FREE_TEXT_COLUMNS[code] !in f.columns
    ensures r.Found? ==> WellFormed(r.frame) && r.frame.columns == f.columns
    ensures r.Found? ==> forall row :: row in r.frame.rows <==>
      row in f.rows && TextMatches(row, FREE_TEXT_COLUMNS[code], terms)
    ensures r.Found? ==> r.frame.rows == Masked(f.rows, TextMask(f.rows, FREE_TEXT_COLUMNS[code], terms))
  {
    if code !in FREE_TEXT_COLUMNS then Unsupported
    else
      var column := FREE_TEXT_COLUMNS[code];
      if column !in f.columns then Raised
      else
        var mask := TextMask(f.rows, column, terms);
        forall row ensures row in Masked(f.rows, mask) <==> row in f.rows && TextMatches(row, column, terms) {
          MaskedMember(f.rows, mask, row);
        }
        MaskedRowsWellFormed(f, mask);
        Found(Frame(f.columns, Masked(f.rows, mask)))
  }

  class Domain {
    /** The table, replaced or updated in place by the methods below. */
    var frame: Frame
    /** The two-letter domain code. */
    const domain: string
    /** Set once at construction: whether `domain` is a term-outcome domain. */
    const isTermOutcome: bool

    ghost predicate Valid()
      reads this
    {
      WellFormed(frame) && isTermOutcome == (domain in TERM_OUTCOME_DOMAINS)
    }

    /** Fields as `__init__` sets them, before the status column is derived. */
    constructor Init(code: string, loaded: Frame)
      requires WellFormed(loaded)
      ensures Valid() && domain == code && frame == loaded
    {
      frame := loaded;
      domain := code;
      isTermOutcome := code in TERM_OUTCOME_DOMAINS;
    }

    /** `Domain(domain, data_directory, num_rows)`: read the table, then derive `status` for
        HO, SA and IN. `None` when that derivation raises because the OCCUR or PRESP column
        is absent; every other domain is left as read. */
    static method Open(code: string, stored: Frame, numRows: Option<int>) returns (r: Option<Domain>)
      requires WellFormed(stored)
      ensures r.None? <==> code in TERM_OUTCOME_DOMAINS && !HasOutcomeColumns(stored, code)
      ensures r.Some? ==> fresh(r.value) && r.value.Valid() && r.value.domain == code
      ensures r.Some? && code in TERM_OUTCOME_DOMAINS ==>
        r.value.frame == DeriveStatus(ReadDomain(stored, numRows), code)
      ensures r.Some? && code !in TERM_OUTCOME_DOMAINS ==> r.value.frame == ReadDomain(stored, numRows)
    {
      var d := new Domain.Init(code, ReadDomain(stored, numRows));
      var raised := d.ProcessOccur();
      if raised {
        r := None;
      } else {
        r := Some(d);
      }
    }

    /** `process_occur`: on a term-outcome domain, (re)write the `status` column from
        OCCUR and PRESP; `raised` when one of them is absent (the frame is then untouched);
        on any other domain nothing happens. */
    method ProcessOccur() returns (raised: bool)
      requires Valid()
      modifies this
      ensures Valid()
      ensures raised <==> isTermOutcome && !HasOutcomeColumns(old(frame), domain)
      ensures frame == if isTermOutcome && !raised then DeriveStatus(old(frame), domain) else old(frame)
    {
      if !isTermOutcome {
        raised := false;
      } else if !HasOutcomeColumns(frame, domain) {
        raised := true;
      } else {
        frame := DeriveStatus(frame, domain);
        raised := false;
      }
    }

    /** `exclude_columns`: drop the named columns in place; when one of them is absent the
        `KeyError` is caught and the frame is left as it was (`dropped` is false). */
    method ExcludeColumns(names: seq<string>) returns (dropped: bool)
      requires Valid()
      modifies this
      ensures Valid()
      ensures dropped <==> AllPresent(names, old(frame).columns)
      ensures frame == if dropped then DropColumns(old(frame), names) else old(frame)
    {
      dropped := AllPresent(names, frame.columns);
      if dropped {
        frame := DropColumns(frame, names);
      }
    }

    /** `include_columns`: keep exactly the named columns, in the given order; when one of
        them is absent the frame is left as it was (`kept` is false). */
    method IncludeColumns(names: seq<string>) returns (kept: bool)
      requires Valid() && Distinct(names)
      modifies this
      ensures Valid()
      ensures kept <==> AllPresent(names, old(frame).columns)
      ensures frame == if kept then KeepColumns(old(frame), names) else old(frame)
    {
      kept := AllPresent(names, frame.columns);
      if kept {
        frame := KeepColumns(frame, names);
      }
    }

    /** `select_variable_from_column`: `None` for a column the frame lacks; otherwise the
        rows whose cell equals `variable`, in order. The frame is only read. */
    function SelectVariableFromColumn(column: string, variable: string): (r: Option<Frame>)
      reads this
      requires Valid()
      ensures r.None? <==> column !in frame.columns
      ensures r.Some? ==> r.value.columns == frame.columns
      ensures r.Some? ==> forall row :: row in r.value.rows <==> row in frame.rows && row[column] == Some(variable)
      ensures r.Some? ==> r.value.rows == Masked(frame.rows, EqualsMask(frame.rows, column, variable))
    {
      SelectWhere(frame, column, variable)
    }

    /** `free_text_search(*term)`: `Unsupported` unless the domain is SA, IN, HO or LB;
        otherwise the rows whose designated column holds one of `terms`, ignoring case. */
    function FreeTextSearch(terms: seq<string>): (r: SearchOutcome)
      reads this
      requires Valid()
      ensures r.Unsupported? <==> domain !in {"SA", "IN", "HO", "LB"}
      ensures r.Raised? <==> domain in FREE_TEXT_COLUMNS && FREE_TEXT_COLUMNS[domain] !in frame.columns
      ensures r.Found? ==> WellFormed(r.frame) && r.frame.columns == frame.columns
      ensures r.Found? ==> forall row :: row in r.frame.rows <==>
        row in frame.rows && TextMatches(row, FREE_TEXT_COLUMNS[domain], terms)
      ensures r.Found? ==> r.frame.rows == Masked(frame.rows, TextMask(frame.rows, FREE_TEXT_COLUMNS[domain], terms))
    {
      SearchFreeText(frame, domain, terms)
    }
  }
}
