/** The part of a pandas DataFrame that the domain helpers rely on: an ordered list of
    column labels and a list of rows, where each row maps every label to a cell that is
    either a string or missing (NaN / None). Boolean-mask row selection (`frame[mask]`),
    column dropping and column subsetting are defined here once and shared by both
    `Domain` classes. */
module Frames {
  import opened Wrappers

  type Cell = Option<string>
  type Row = map<string, Cell>

  datatype Frame = Frame(columns: seq<string>, rows: seq<Row>)

  predicate Distinct(s: seq<string>)
  {
    forall i, j :: 0 <= i < j < |s| ==> s[i] != s[j]
  }

  /** Column labels are unique and every row carries exactly those labels. */
  predicate WellFormed(f: Frame)
  {
    && Distinct(f.columns)
    && forall i :: 0 <= i < |f.rows| ==> f.rows[i].Keys == (set c | c in f.columns)
  }

  // ---------------------------------------------------------------------------
  // Boolean-mask indexing: `xs[mask]` keeps the elements whose mask entry is true.

  /** The number of true entries of a mask. */
  function TrueCount(mask: seq<bool>): nat
  {
    if mask == [] then 0 else (if mask[0] then 1 else 0) + TrueCount(mask[1..])
  }

  /** One element is kept per true mask entry: an all-true mask keeps everything, an
      all-false mask nothing. */
  function Masked<T>(xs: seq<T>, mask: seq<bool>): (r: seq<T>)
    requires |mask| == |xs|
    ensures |r| == TrueCount(mask)
    ensures (forall i :: 0 <= i < |mask| ==> mask[i]) ==> r == xs
    ensures (forall i :: 0 <= i < |mask| ==> !mask[i]) ==> r == []
  {
    if xs == [] then [] else (if mask[0] then [xs[0]] else []) + Masked(xs[1..], mask[1..])
  }

  /** Masking keeps order: it distributes over concatenation. Together with the one-element
      case (`Masked([x], [b])` is `[x]` or `[]`) this determines `Masked` completely. */
  lemma {:induction false} MaskedAppend<T>(a: seq<T>, m: seq<bool>, b: seq<T>, n: seq<bool>)
    requires |m| == |a| && |n| == |b|
    ensures Masked(a + b, m + n) == Masked(a, m) + Masked(b, n)
  {
    if a == [] {
      assert a + b == b && m + n == n;
    } else {
      assert (a + b)[1..] == a[1..] + b && (m + n)[1..] == m[1..] + n;
      MaskedAppend(a[1..], m[1..], b, n);
    }
  }

  /** An element is kept exactly when it stands at a position whose mask entry is true. */
  lemma {:induction false} MaskedMember<T>(xs: seq<T>, mask: seq<bool>, x: T)
    requires |mask| == |xs|
    ensures x in Masked(xs, mask) <==> exists i :: 0 <= i < |xs| && mask[i] && xs[i] == x
  {
    if xs != [] {
      MaskedMember(xs[1..], mask[1..], x);
      if x in Masked(xs[1..], mask[1..]) {
        var i :| 0 <= i < |xs[1..]| && mask[1..][i] && xs[1..][i] == x;
        assert mask[i + 1] && xs[i + 1] == x;
      }
      if exists i :: 0 <= i < |xs| && mask[i] && xs[i] == x {
        var i :| 0 <= i < |xs| && mask[i] && xs[i] == x;
        if i > 0 {
          assert mask[1..][i - 1] && xs[1..][i - 1] == x;
        }
      }
    }
  }

  /** Masking a list without repeats gives a list without repeats. */
  lemma {:induction false} MaskedDistinct(xs: seq<string>, mask: seq<bool>)
    requires |mask| == |xs| && Distinct(xs)
    ensures Distinct(Masked(xs, mask))
  {
    if xs != [] {
      MaskedDistinct(xs[1..], mask[1..]);
      MaskedMember(xs[1..], mask[1..], xs[0]);
    }
  }

  /** Row selection keeps a frame well formed. */
  lemma MaskedRowsWellFormed(f: Frame, mask: seq<bool>)
    requires WellFormed(f) && |mask| == |f.rows|
    ensures WellFormed(Frame(f.columns, Masked(f.rows, mask)))
  {
    var kept := Masked(f.rows, mask);
    forall k | 0 <= k < |kept| ensures kept[k].Keys == (set c | c in f.columns) {
      MaskedMember(f.rows, mask, kept[k]);
    }
  }

  // ---------------------------------------------------------------------------
  // `df[:stop]`: the first rows, with Python's slice rule for a negative stop.

  function SliceStop(stop: int, len: nat): nat
  {
    if stop >= 0 then (if stop <= len then stop else len)
    else if len + stop >= 0 then len + stop else 0
  }

  function Take(f: Frame, stop: int): (r: Frame)
    ensures r.columns == f.columns && r.rows <= f.rows
    ensures 0 <= stop ==> |r.rows| == (if stop < |f.rows| then stop else |f.rows|)
    ensures stop < 0 ==> |r.rows| == (if -stop < |f.rows| then |f.rows| + stop else 0)
    ensures WellFormed(f) ==> WellFormed(r)
  {
    Frame(f.columns, f.rows[..SliceStop(stop, |f.rows|)])
  }

  // ---------------------------------------------------------------------------
  // Column drop (`frame.drop(labels=names, axis=1)`) and subset (`frame[names]`).

  function KeepMask(columns: seq<string>, names: seq<string>): (m: seq<bool>)
    ensures |m| == |columns|
  {
    seq(|columns|, i requires 0 <= i < |columns| => columns[i] !in names)
  }

  function Restrict(row: Row, keep: set<string>): Row
  {
    map c | c in row && c in keep :: row[c]
  }

  predicate AllPresent(names: seq<string>, columns: seq<string>)
  {
    forall n :: n in names ==> n in columns
  }

  /** Drop every column named in `names` (and nothing else) from every row; the remaining
      columns keep their order, the rows their number, order and cells. */
  function DropColumns(f: Frame, names: seq<string>): (r: Frame)
    requires WellFormed(f)
    ensures WellFormed(r)
    ensures forall c :: c in r.columns <==> c in f.columns && c !in names
    ensures r.columns == Masked(f.columns, KeepMask(f.columns, names))
    ensures |r.rows| == |f.rows|
    ensures forall i, c :: 0 <= i < |r.rows| && c in r.rows[i] ==> r.rows[i][c] == f.rows[i][c]
  {
    var kept := Masked(f.columns, KeepMask(f.columns, names));
    MaskedDistinct(f.columns, KeepMask(f.columns, names));
    forall c ensures c in kept <==> c in f.columns && c !in names {
      MaskedMember(f.columns, KeepMask(f.columns, names), c);
    }
    var keep := set c | c in kept;
    Frame(kept, seq(|f.rows|, i requires 0 <= i < |f.rows| => Restrict(f.rows[i], keep)))
  }

  /** Keep exactly the columns in `names`, in the order of `names`. */
  function KeepColumns(f: Frame, names: seq<string>): (r: Frame)
    requires WellFormed(f) && Distinct(names) && AllPresent(names, f.columns)
    ensures WellFormed(r)
    ensures r.columns == names
    ensures |r.rows| == |f.rows|
    ensures forall i, c :: 0 <= i < |r.rows| && c in names ==> r.rows[i][c] == f.rows[i][c]
  {
    var keep := set c | c in names;
    Frame(names, seq(|f.rows|, i requires 0 <= i < |f.rows| => Restrict(f.rows[i], keep)))
  }

  // ---------------------------------------------------------------------------
  // Equality filter `frame[frame[column] == value]`. A missing cell never equals a string.

  function EqualsMask(rows: seq<Row>, column: string, value: string): (m: seq<bool>)
    ensures |m| == |rows|
  {
    seq(|rows|, i requires 0 <= i < |rows| => column in rows[i] && rows[i][column] == Some(value))
  }

  /** `None` (the printed "not in the current domain" notice) for an unknown column;
      otherwise exactly the rows whose cell in `column` equals `value`, in their original
      order, under the same columns. No match gives an empty frame, not `None`. */
  function SelectWhere(f: Frame, column: string, value: string): (r: Option<Frame>)
    requires WellFormed(f)
    ensures r.None? <==> column !in f.columns
    ensures r.Some? ==> WellFormed(r.value) && r.value.columns == f.columns
    ensures r.Some? ==> forall row :: row in r.value.rows <==> row in f.rows && row[column] == Some(value)
    ensures r.Some? ==> r.value.rows == Masked(f.rows, EqualsMask(f.rows, column, value))
  {
    if column !in f.columns then None
    else
      var mask := EqualsMask(f.rows, column, value);
      forall row ensures row in Masked(f.rows, mask) <==> row in f.rows && row[column] == Some(value) {
        MaskedMember(f.rows, mask, row);
      }
      MaskedRowsWellFormed(f, mask);
      Some(Frame(f.columns, Masked(f.rows, mask)))
  }

  // ---------------------------------------------------------------------------
  // Case-insensitive substring search (`str.contains('|'.join(terms), case=False)`),
  // for terms that hold no regular-expression metacharacters.

  function LowerChar(c: char): char
  {
    if 'A' <= c <= 'Z' then (c as int + 32) as char else c
  }

  function Lower(s: string): (r: string)
    ensures |r| == |s|
  {
    seq(|s|, i requires 0 <= i < |s| => LowerChar(s[i]))
  }

  predicate OccursAt(needle: string, hay: string, i: int)
  {
    0 <= i && i + |needle| <= |hay| && hay[i..i + |needle|] == needle
  }

  predicate Occurs(needle: string, hay: string)
  {
    exists i :: 0 <= i <= |hay| && OccursAt(needle, hay, i)
  }

  /** Whether the alternation of `terms` matches somewhere in `text`, ignoring case. With no
      terms the joined pattern is empty, and the empty pattern matches every string. */
  predicate ContainsAny(text: string, terms: seq<string>)
    ensures terms == [] || "" in terms ==> ContainsAny(text, terms)
  {
    assert "" in terms ==> OccursAt(Lower(""), Lower(text), 0);
    |terms| == 0 || exists t :: t in terms && Occurs(Lower(t), Lower(text))
  }

  /** A row matches when its cell in `column` is present and contains one of `terms`,
      ignoring case; a missing cell never matches (`na=False`). */
  predicate TextMatches(row: Row, column: string, terms: seq<string>)
    ensures column in row && row[column].None? ==> !TextMatches(row, column, terms)
    ensures column in row && row[column].Some? && (terms == [] || "" in terms) ==> TextMatches(row, column, terms)
  {
    column in row && row[column].Some? && ContainsAny(row[column].value, terms)
  }

  function TextMask(rows: seq<Row>, column: string, terms: seq<string>): (m: seq<bool>)
    ensures |m| == |rows|
  {
    seq(|rows|, i requires 0 <= i < |rows| => TextMatches(rows[i], column, terms))
  }

  /** Lower-casing twice is lower-casing once. */
  lemma LowerIdempotent(s: string)
    ensures Lower(Lower(s)) == Lower(s)
  {
  }

  /** The match ignores case on both sides: lower-casing the text or any of the terms does
      not change the verdict. */
  lemma {:induction false} ContainsAnyIgnoresCase(text: string, terms: seq<string>, lowered: seq<string>)
    requires |lowered| == |terms| && forall k :: 0 <= k < |terms| ==> lowered[k] == Lower(terms[k])
    ensures ContainsAny(Lower(text), terms) == ContainsAny(text, terms)
    ensures ContainsAny(text, lowered) == ContainsAny(text, terms)
  {
    LowerIdempotent(text);
    if exists t :: t in terms && Occurs(Lower(t), Lower(text)) {
      var t :| t in terms && Occurs(Lower(t), Lower(text));
      var k :| 0 <= k < |terms| && terms[k] == t;
      LowerIdempotent(t);
      assert lowered[k] in lowered && Occurs(Lower(lowered[k]), Lower(text));
    }
    if exists t :: t in lowered && Occurs(Lower(t), Lower(text)) {
      var t :| t in lowered && Occurs(Lower(t), Lower(text));
      var k :| 0 <= k < |lowered| && lowered[k] == t;
      LowerIdempotent(terms[k]);
      assert terms[k] in terms && Occurs(Lower(terms[k]), Lower(text));
    }
  }

  /** A term matches a longer word that contains it in another case: "hospital" is found in
      "Hospitalization", in a row whose text column holds it; a missing cell never matches. */
  lemma HospitalExample(text: string, row: Row, missing: Row)
    requires text == "Hospital" + "ization"
    requires row == map["HOTERM" := Some(text)] && missing == map["HOTERM" := None]
    ensures TextMatches(row, "HOTERM", ["hospital"])
    ensures !TextMatches(missing, "HOTERM", ["hospital"])
  {
    assert Lower(text)[0..8] == Lower("hospital");
    assert OccursAt(Lower("hospital"), Lower(text), 0);
  }

  /** What a free-text search returns: `Unsupported` is the printed notice and `None` for
      a domain outside the allow-list; `Raised` is an exception the method does not catch. */
  datatype SearchOutcome = Unsupported | Raised | Found(frame: Frame)
}
