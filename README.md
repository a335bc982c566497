# pyISARICBasics domain helpers in Dafny

This project models the deterministic core of pyISARICBasics, a set of pandas helpers for
exploratory analysis of ISARIC/CDISC clinical domains (Demographics, Adverse Events,
Interventions, ...). Three pieces of logic are modelled and proved:

- **Occurrence status** (`Occurrence`). For the term-outcome domains HO, SA and IN, each
  row's `<DOMAIN>OCCUR` / `<DOMAIN>PRESP` pair becomes a `status` cell. The code does this
  with `np.select` over the ordered conditions `[yes, no, unknown]` and the default `None`.
  The model keeps that form: `Occurrence.Select` is `np.select` for one row and
  `Occurrence.Status` holds the three conditions. It proves the rule equal to a plain
  decision table (`Occurrence.StatusTable`). Pandas comparison rules are modelled on missing
  cells: `== 'Y'` is false on a missing cell and `!= 'Y'` is true on one.
- **The `Domain` table object**, in both of its near-duplicate versions:
  `IsaricDomain.Domain` for src/pyISARICBasics/domain.py and `BasicsDomain.Domain` for
  src/pyBasics/domain.py. A frame (`Frames.Frame`) is a list of column labels plus a list of
  rows. Each row maps every label to a cell that is a string or missing. Row selection by a
  boolean mask (`frame[mask]`) is `Frames.Masked`. Proved lemmas say it keeps order and keeps
  exactly the rows whose mask entry is true. Both classes share this machinery. They differ
  only where the source files differ:

  | | `BasicsDomain` | `IsaricDomain` |
  |---|---|---|
  | Rows kept on load | at most `ROW_CAP` = 100000 | all rows, or `df[:num_rows]` |
  | LB in the search allow-list | no | yes |
  | Missing cells in the searched column | the search raises | never match (`na=False`) |
  | Column drop / subset | not present | `ExcludeColumns`, `IncludeColumns` |

- **Domain-name resolution** (`DomainNames`). `ParseDomainNames` splits a file name on
  `'_'` and keeps the fields that are among the 17 codes of `ALL_DOMAINS`. It returns the
  single match, or the name unchanged when several fields match. The table name used for
  the SQLite export is that result with every `'-'` replaced by `'_'` (`TableName`).

Python exceptions that the source does not catch are explicit outcomes here, not
preconditions:

- `parse_domain_names` calls `pop()` on an empty list when no field is a known code. The
  model returns `None`.
- A missing OCCUR or PRESP column makes `process_occur` raise `KeyError`. `ProcessOccur`
  then reports `raised` and leaves the frame unchanged. `Domain.Open`, which models the
  constructor, returns `None`.
- A missing search column raises `KeyError`, and in the pyBasics version a missing cell in
  the searched column raises as well. `SearchFreeText` returns `Raised` in both cases.

Reading a pickle file is replaced by the frame it holds, which is passed in as `stored`.

Three facts about the code that are easy to miss:

- The yes-condition is listed first, so `(OCCUR, PRESP) = ('N', 'N')` or `('N', missing)`
  gives `Y`, not `N` (`Occurrence.StatusYes`).
- A name with no known code makes `pop()` raise on an empty list
  (`DomainNames.ParseNoCode`).
- The truth table in the `process_occur` docstring has its two column headers swapped.
  Read as (OCCUR, PRESP), all six rows hold (`Occurrence.StatusDocumentedRows`).

## Model

| member | source | states |
|---|---|---|
| `Occurrence.Select` | src/pyISARICBasics/domain.py:248-251 | `np.select` is first-match: the result is the choice of the first true condition, and the default exactly when no condition holds |
| `Occurrence.Status` | src/pyISARICBasics/domain.py:242-251 | the three masks under `np.select` equal a decision table for every (OCCUR, PRESP): a PRESP other than 'Y', missing included, gives Y; with PRESP = 'Y', OCCUR Y/N/U gives Y/N/U, a missing OCCUR gives U and any other value gives missing |
| `Occurrence.StatusYes` | src/pyISARICBasics/domain.py:242-251 | status is Y exactly when OCCUR = 'Y' or PRESP is not 'Y' (missing included); so the yes-condition shadows OCCUR = 'N' whenever PRESP is not 'Y' |
| `Occurrence.StatusNo` | src/pyISARICBasics/domain.py:244-251 | status is N exactly when OCCUR = 'N' and PRESP = 'Y' |
| `Occurrence.StatusUnknown` | src/pyISARICBasics/domain.py:246-251 | status is U exactly when PRESP = 'Y' and OCCUR is missing or 'U' |
| `Occurrence.StatusMissing` | src/pyISARICBasics/domain.py:248-251 | status is missing (the default) exactly when PRESP = 'Y' and OCCUR is present and not Y, N or U; no value other than Y, N, U or missing occurs |
| `Occurrence.StatusDocumentedRows` | src/pyISARICBasics/domain.py:225-232 | the six documented rows, read as (OCCUR, PRESP): (NA,NA)→Y, (NA,Y)→U, (N,Y)→N, (U,Y)→U, (Y,NA)→Y, (Y,Y)→Y |
| `Occurrence.DeriveStatus` | src/pyISARICBasics/domain.py:240-251 | assigning `status` appends the column when absent and keeps its place when present; each row's status is the rule applied to its OCCUR and PRESP; row count, other columns and other cells are unchanged |
| `Occurrence.DeriveStatusIdempotent` | src/pyISARICBasics/domain.py:240-251 | deriving twice gives the same frame as deriving once |
| `IsaricDomain.Domain.Init` | src/pyISARICBasics/domain.py:23-40 | sets the frame and the code; the term-outcome flag is true exactly for HO, SA and IN |
| `IsaricDomain.Domain.Open` | src/pyISARICBasics/domain.py:20-40 | construction reads the table and derives `status` for HO, SA and IN only; it fails exactly when such a domain lacks OCCUR or PRESP; any other domain keeps the frame as read |
| `IsaricDomain.Domain.ProcessOccur` | src/pyISARICBasics/domain.py:237-251 | on a term-outcome domain the frame becomes `DeriveStatus` of the old frame, or is unchanged when it raises for want of OCCUR/PRESP; on any other domain nothing changes |
| `IsaricDomain.ReadDomain` | src/pyISARICBasics/domain.py:92-95 | no `num_rows` returns the stored frame; otherwise a prefix of the rows in order, of length `min(num_rows, len)` for a non-negative `num_rows`, with the same columns |
| `Frames.Take` | src/pyISARICBasics/domain.py:95 | `df[:stop]` is a prefix of the rows with Python's slice length, including a negative stop |
| `IsaricDomain.Domain.ExcludeColumns` | src/pyISARICBasics/domain.py:112-115 | when every named column exists they are dropped (`DropColumns`); otherwise the `KeyError` is caught and the frame is unchanged |
| `Frames.DropColumns` | src/pyISARICBasics/domain.py:113 | the remaining columns are exactly the old ones not named, in their old order; row count and every remaining cell are unchanged |
| `IsaricDomain.Domain.IncludeColumns` | src/pyISARICBasics/domain.py:124-127 | when every named column exists the frame keeps exactly those (`KeepColumns`); otherwise it is unchanged |
| `Frames.KeepColumns` | src/pyISARICBasics/domain.py:125 | the columns are exactly the named list, in list order; row count and the kept cells are unchanged |
| `Frames.Masked` | src/pyISARICBasics/domain.py:147 | boolean-mask row selection keeps one row per true mask entry: all of them for an all-true mask, none for an all-false one |
| `Frames.MaskedAppend` | src/pyISARICBasics/domain.py:147 | boolean-mask row selection keeps order: it distributes over concatenation |
| `Frames.MaskedMember` | src/pyISARICBasics/domain.py:147 | a row is selected exactly when it stands at a position whose mask entry is true |
| `Frames.SelectWhere` | src/pyISARICBasics/domain.py:146-152 | an unknown column gives `None`; otherwise the same columns and exactly the rows whose cell equals the value, in order (possibly none); missing cells never equal |
| `IsaricDomain.Domain.SelectVariableFromColumn` | src/pyISARICBasics/domain.py:135-152 | on the instance's frame, which is only read: `None` exactly for an unknown column, otherwise exactly the equal rows in order |
| `IsaricDomain.SearchFreeText` | src/pyISARICBasics/domain.py:263-280 | `Unsupported` exactly outside SA, IN, HO, LB; `Raised` exactly when the designated column (HOTERM, INTRT, SATERM, LBTEST) is absent; otherwise exactly the rows whose present cell contains some term ignoring case, in order |
| `IsaricDomain.Domain.FreeTextSearch` | src/pyISARICBasics/domain.py:253-280 | on the instance's domain and frame: `Unsupported` exactly outside SA, IN, HO, LB; `Raised` exactly when the designated column is absent; otherwise a well-formed frame with the same columns holding exactly the matching rows, in order, repeats kept |
| `Frames.ContainsAnyIgnoresCase` | src/pyISARICBasics/domain.py:271 | the match ignores case: lower-casing the text or the terms does not change it |
| `Frames.ContainsAny` | src/pyISARICBasics/domain.py:271 | case-insensitive any-of-terms substring match; with no terms, or with an empty term, the joined pattern matches every string |
| `Frames.TextMatches` | src/pyISARICBasics/domain.py:271 | the per-row search mask with `na=False`: a missing cell never matches; a present cell matches the empty pattern |
| `Frames.HospitalExample` | src/pyISARICBasics/domain.py:257-259 | the term "hospital" matches a cell "Hospitalization"; a missing cell does not match |
| `BasicsDomain.Domain.Init` | src/pyBasics/domain.py:26-37 | sets the frame and the code; the term-outcome flag is true exactly for HO, SA and IN |
| `BasicsDomain.Domain.Open` | src/pyBasics/domain.py:23-37 | construction reads at most 100000 rows and derives `status` for HO, SA and IN only; it fails exactly when such a domain lacks OCCUR or PRESP |
| `BasicsDomain.ReadDomain` | src/pyBasics/domain.py:81-83 | a prefix of the stored rows in order, of length `min(100000, len)`, with the same columns |
| `BasicsDomain.Domain.ProcessOccur` | src/pyBasics/domain.py:137-158 | the same first-match rule (`Occurrence.Status`) written to `status` on HO, SA and IN only; every other domain is unchanged |
| `BasicsDomain.Domain.SelectVariableFromColumn` | src/pyBasics/domain.py:92-106 | `None` exactly for an unknown column, otherwise exactly the rows whose cell equals the value, in order |
| `BasicsDomain.SearchFreeText` | src/pyBasics/domain.py:168-185 | `Unsupported` exactly outside SA, IN, HO (no LB); `Raised` exactly when the designated column is absent or holds a missing cell; otherwise exactly the rows containing some term ignoring case, in order |
| `BasicsDomain.Domain.FreeTextSearch` | src/pyBasics/domain.py:160-185 | on the instance's domain and frame: `Unsupported` exactly outside SA, IN, HO; `Raised` exactly when the designated column is absent or holds a missing cell; otherwise a well-formed frame with the same columns holding exactly the matching rows, in order, repeats kept |
| `DomainNames.AllDomainsCount` | src/pyISARICBasics/functions.py:7 | the vocabulary holds exactly 17 codes |
| `DomainNames.AllDomainsAreTwoLetterCodes` | src/pyISARICBasics/functions.py:7 | every code is two upper-case letters |
| `DomainNames.Split` | src/pyISARICBasics/functions.py:106 | `name.split("_")` yields at least one field and no field contains the separator |
| `DomainNames.SplitJoin` | src/pyISARICBasics/functions.py:106 | `split('_')` loses nothing: joining the fields with '_' gives the name back, and no field contains '_' |
| `DomainNames.KnownFields` | src/pyISARICBasics/functions.py:106 | a code is kept exactly when it is a field of the name and in `ALL_DOMAINS` |
| `DomainNames.KnownFieldsAppend` | src/pyISARICBasics/functions.py:106 | the list comprehension keeps order and repeats: it distributes over concatenation |
| `DomainNames.KnownField` | src/pyISARICBasics/functions.py:106 | a single field is kept exactly when it is in `ALL_DOMAINS`, so with `KnownFieldsAppend` each known occurrence counts once |
| `DomainNames.ParseDomainNames` | src/pyISARICBasics/functions.py:106-111 | fails exactly when no field is a code; several known fields (repeats counted) give the name unchanged; exactly one gives a code that is also a field of the name |
| `DomainNames.ResolvedCode` | src/pyISARICBasics/functions.py:106-111 | a result that differs from the name comes from exactly one known field and is that field |
| `DomainNames.ParseSingleCode` | src/pyISARICBasics/functions.py:102-104 | "Partner_DM_2021-09-20" resolves to "DM" |
| `DomainNames.ParseSeveralCodes` | src/pyISARICBasics/functions.py:107-109 | "DM_SA_2021-09-20" names two codes and gives the name back |
| `DomainNames.ParseNoCode` | src/pyISARICBasics/functions.py:111 | "Partner_2021-09-20" names no code, where the source raises |
| `DomainNames.ParseIsCaseSensitive` | src/pyISARICBasics/functions.py:106 | "Partner_Dm" names no code: "Dm" is not "DM", matching is case-sensitive |
| `DomainNames.ParseRepeatedCode` | src/pyISARICBasics/functions.py:106-109 | "DM_DM" holds one code twice; repeats are counted, so the name comes back |
| `DomainNames.ReplaceDashes` | src/pyISARICBasics/functions.py:40 | same length, no '-', every '-' becomes '_' and every other character is kept |
| `DomainNames.TableName` | src/pyISARICBasics/functions.py:37-40 | defined exactly when parsing succeeds; the table name is the parse result with every '-' replaced by '_' and every other character kept, so it has no '-' and the same length |
| `DomainNames.TableNameOfFallback` | src/pyISARICBasics/functions.py:37-40 | "DM_SA_2021-09-20" becomes the table "DM_SA_2021_09_20" |

## Left out

- Reading pickle files (`read_domain`'s `pd.read_pickle`) and the deprecated SQLite readers: the loaded frame is a parameter.
- SQLite export and pickle writing (`df_to_sqlite`, `save_to_sqlite`), the file-listing loop in `csv_to_sqlite` and CSV parsing: file and database I/O.
- src/pyBasics/functions.py is not part of this model. It only converts CSV to SQLite, and its one piece of logic, replacing '-' by '_', is the same as `DomainNames.ReplaceDashes`.
- Printing: `columns`, `column_events`, `table_missingness`, `column_summary`, the display options, and the notices printed on an empty selection or after a search.
- `gc.collect`, dtypes and numpy/pandas internals. Cells are strings or missing; numeric and date cells are not modelled.
- Regular-expression semantics of `str.contains`: terms are taken to contain no metacharacters, so the joined pattern is a substring test on any of the terms.
- Case folding: `case=False` uses Python's Unicode-aware matching; the model lower-cases ASCII letters only.
- The `TypeError` branch of `free_text_search` (non-string terms): terms are strings in the model, so it cannot occur.
- `IsaricDomain.Domain.IncludeColumns`: requires the named columns to be distinct, because pandas would create a frame with duplicate labels, which the frame model does not represent.
- Column labels in a frame are distinct (`Frames.WellFormed`); duplicate labels, and pandas' behaviour on them, are not modelled.
- The duplicated `print(print(...))` notices in `exclude_columns` and `include_columns` are modelled only as the returned `dropped` / `kept` flag.
