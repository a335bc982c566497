/** Domain-name resolution from a file name (`parse_domain_names`) and the table name
    derived from it when a CSV file is exported (`name.replace('-', '_')`). */
module DomainNames {
  import opened Wrappers

  /** The seventeen two-letter ISARIC domain codes. */
  const ALL_DOMAINS: set<string> :=
    {"DM", "DS", "ER", "HO", "IE", "IN", "LB", "MB", "RP", "RS", "SA", "SV", "VS", "CQ", "SC", "PO", "TI"}

  lemma AllDomainsAreTwoLetterCodes()
    ensures forall d :: d in ALL_DOMAINS ==> |d| == 2 && 'A' <= d[0] <= 'Z' && 'A' <= d[1] <= 'Z'
  {
  }

  /** A list without repeats has as many distinct elements as entries. */
  lemma {:induction false} DistinctCount(codes: seq<string>)
    requires forall i, j :: 0 <= i < j < |codes| ==> codes[i] != codes[j]
    ensures |set c | c in codes| == |codes|
  {
    if codes != [] {
      DistinctCount(codes[1..]);
      assert (set c | c in codes) == {codes[0]} + (set c | c in codes[1..]);
    }
  }

  lemma CodeListDistinct(codes: seq<string>)
    requires codes == ["DM", "DS", "ER", "HO", "IE", "IN", "LB", "MB", "RP", "RS", "SA", "SV", "VS", "CQ", "SC", "PO", "TI"]
    ensures forall i, j :: 0 <= i < j < |codes| ==> codes[i] != codes[j]
  {
  }

  lemma CodeListIsVocabulary(codes: seq<string>)
    requires codes == ["DM", "DS", "ER", "HO", "IE", "IN", "LB", "MB", "RP", "RS", "SA", "SV", "VS", "CQ", "SC", "PO", "TI"]
    ensures ALL_DOMAINS == set c | c in codes
  {
  }

  /** The vocabulary holds exactly seventeen codes. */
  lemma AllDomainsCount()
    ensures |ALL_DOMAINS| == 17
  {
    var codes := ["DM", "DS", "ER", "HO", "IE", "IN", "LB", "MB", "RP", "RS", "SA", "SV", "VS", "CQ", "SC", "PO", "TI"];
    CodeListDistinct(codes);
    CodeListIsVocabulary(codes);
    DistinctCount(codes);
  }

  // ---------------------------------------------------------------------------
  // `str.split(sep)` with an explicit separator: empty fields are kept, so there is
  // always one more field than there are separators.

  function Split(s: string, sep: char): (fields: seq<string>)
    ensures |fields| >= 1
    ensures forall f :: f in fields ==> sep !in f
  {
    if s == [] then [""]
    else
      var rest := Split(s[1..], sep);
      if s[0] == sep then [""] + rest else [[s[0]] + rest[0]] + rest[1..]
  }

  /** `sep.join(fields)`. */
  function Join(fields: seq<string>, sep: char): string
    requires |fields| >= 1
  {
    if |fields| == 1 then fields[0] else fields[0] + [sep] + Join(fields[1..], sep)
  }

  /** Splitting loses nothing (joining the fields back gives the name) and no field
      contains the separator; these two facts determine `Split` uniquely. */
  lemma {:induction false} SplitJoin(s: string, sep: char)
    ensures Join(Split(s, sep), sep) == s
    ensures forall f :: f in Split(s, sep) ==> sep !in f
  {
    if s != [] {
      SplitJoin(s[1..], sep);
      var rest := Split(s[1..], sep);
      if s[0] == sep {
        assert Split(s, sep)[1..] == rest;
      } else {
        var fields := Split(s, sep);
        assert fields[0] == [s[0]] + rest[0];
        if |rest| == 1 {
          assert [s[0]] + s[1..] == s;
        } else {
          assert fields[1..] == rest[1..];
          assert Join(fields, sep) == [s[0]] + (rest[0] + [sep] + Join(rest[1..], sep));
          assert [s[0]] + s[1..] == s;
        }
      }
    }
  }

  /** A field free of the separator is split off whole. */
  lemma {:induction false} SplitField(a: string, sep: char, b: string)
    requires sep !in a
    ensures Split(a, sep) == [a]
    ensures Split(a + [sep] + b, sep) == [a] + Split(b, sep)
  {
    if a == [] {
      assert [sep] + b == [] + [sep] + b;
      assert ([sep] + b)[1..] == b;
    } else {
      SplitField(a[1..], sep, b);
      assert (a + [sep] + b)[1..] == a[1..] + [sep] + b;
      assert [a[0]] + a[1..] == a;
    }
  }

  // ---------------------------------------------------------------------------
  // `[i for i in name.split("_") if i in ALL_DOMAINS]`, then one match, several, or none.

  function KnownFields(fields: seq<string>): (known: seq<string>)
    ensures forall d :: d in known <==> d in fields && d in ALL_DOMAINS
  {
    if fields == [] then []
    else (if fields[0] in ALL_DOMAINS then [fields[0]] else []) + KnownFields(fields[1..])
  }

  /** Filtering keeps order and repeats: it distributes over concatenation, and a single
      field is kept exactly when it is a known code (`KnownField`). */
  lemma {:induction false} KnownFieldsAppend(a: seq<string>, b: seq<string>)
    ensures KnownFields(a + b) == KnownFields(a) + KnownFields(b)
  {
    if a == [] {
      assert a + b == b;
    } else {
      assert (a + b)[1..] == a[1..] + b;
      KnownFieldsAppend(a[1..], b);
    }
  }

  lemma KnownField(f: string)
    ensures KnownFields([f]) == if f in ALL_DOMAINS then [f] else []
  {
    assert [f][1..] == [];
  }

  /** The single known field, or the name unchanged when several fields are known (repeats
      counted); `None` when no field is known, where the source's `pop()` raises. */
  function ParseDomainNames(name: string): (r: Option<string>)
    ensures r.None? <==> forall f :: f in Split(name, '_') ==> f !in ALL_DOMAINS
    ensures |KnownFields(Split(name, '_'))| > 1 ==> r == Some(name)
    ensures |KnownFields(Split(name, '_'))| == 1 ==>
      r.Some? && r.value in ALL_DOMAINS && r.value in Split(name, '_')
  {
    var known := KnownFields(Split(name, '_'));
    assert |known| > 0 ==> known[0] in known;
    if |known| > 1 then Some(name)
    else if |known| == 1 then Some(known[0])
    else None
  }

  /** A resolved code differs from the input only when exactly one field was known, and then
      it is that field: a known code and one of the '_'-separated fields of the name. */
  lemma ResolvedCode(name: string)
    requires ParseDomainNames(name).Some? && ParseDomainNames(name).value != name
    ensures |KnownFields(Split(name, '_'))| == 1
    ensures ParseDomainNames(name).value in ALL_DOMAINS
    ensures ParseDomainNames(name).value in Split(name, '_')
  {
  }

  lemma SplitTwo(a: string, b: string)
    requires '_' !in a && '_' !in b
    ensures Split(a + "_" + b, '_') == [a, b]
  {
    SplitField(a, '_', b);
    SplitField(b, '_', []);
  }

  lemma SplitThree(a: string, b: string, c: string)
    requires '_' !in a && '_' !in b && '_' !in c
    ensures Split(a + "_" + b + "_" + c, '_') == [a, b, c]
  {
    assert a + "_" + b + "_" + c == a + ['_'] + (b + "_" + c);
    SplitField(a, '_', b + "_" + c);
    SplitTwo(b, c);
  }

  // The examples below take the file name as a parameter so that the verifier does not
  // unfold `Split` character by character on a literal.

  /** "Partner_DM_2021-09-20" resolves to "DM". */
  lemma ParseSingleCode(name: string)
    requires name == "Partner" + "_" + "DM" + "_" + "2021-09-20"
    ensures ParseDomainNames(name) == Some("DM")
  {
    SplitThree("Partner", "DM", "2021-09-20");
    assert "Partner" !in ALL_DOMAINS && "DM" in ALL_DOMAINS && "2021-09-20" !in ALL_DOMAINS;
    assert KnownFields(["2021-09-20"]) == [];
    assert KnownFields(["DM", "2021-09-20"]) == ["DM"];
  }

  /** "DM_SA_2021-09-20" names two codes and falls back to the name itself. */
  lemma ParseSeveralCodes(name: string)
    requires name == "DM" + "_" + "SA" + "_" + "2021-09-20"
    ensures ParseDomainNames(name) == Some(name)
  {
    SplitThree("DM", "SA", "2021-09-20");
    assert "DM" in ALL_DOMAINS && "SA" in ALL_DOMAINS && "2021-09-20" !in ALL_DOMAINS;
    assert KnownFields(["2021-09-20"]) == [];
    assert KnownFields(["SA", "2021-09-20"]) == ["SA"];
  }

  /** "Partner_2021-09-20" names no code: the source raises there. */
  lemma ParseNoCode(name: string)
    requires name == "Partner" + "_" + "2021-09-20"
    ensures ParseDomainNames(name) == None
  {
    SplitTwo("Partner", "2021-09-20");
    assert KnownFields(["Partner", "2021-09-20"]) == [];
  }

  /** Matching is case-sensitive: in "Partner_Dm" the field "Dm" is not the code "DM". */
  lemma ParseIsCaseSensitive(name: string)
    requires name == "Partner" + "_" + "Dm"
    ensures ParseDomainNames(name) == None
  {
    SplitTwo("Partner", "Dm");
    assert "Partner" !in ALL_DOMAINS && "Dm" !in ALL_DOMAINS;
    assert KnownFields(["Dm"]) == [];
    assert KnownFields(["Partner", "Dm"]) == [];
  }

  /** Repeats are counted: "DM_DM" holds the same code twice, so the name comes back. */
  lemma ParseRepeatedCode(name: string)
    requires name == "DM" + "_" + "DM"
    ensures ParseDomainNames(name) == Some(name)
  {
    SplitTwo("DM", "DM");
    assert KnownFields(["DM"]) == ["DM"];
    assert KnownFields(["DM", "DM"]) == ["DM", "DM"];
  }

  // ---------------------------------------------------------------------------
  // The SQL table name: the parse result with every '-' replaced by '_'.

  function ReplaceDashes(s: string): (r: string)
    ensures |r| == |s| && '-' !in r
    ensures forall i :: 0 <= i < |s| ==> r[i] == (if s[i] == '-' then '_' else s[i])
  {
    seq(|s|, i requires 0 <= i < |s| => if s[i] == '-' then '_' else s[i])
  }

  function TableName(fileStem: string): (r: Option<string>)
    ensures r.Some? <==> ParseDomainNames(fileStem).Some?
    ensures r.Some? ==> '-' !in r.value && |r.value| == |ParseDomainNames(fileStem).value|
    ensures r.Some? ==> forall i :: 0 <= i < |r.value| ==>
      r.value[i] == (if ParseDomainNames(fileStem).value[i] == '-' then '_' else ParseDomainNames(fileStem).value[i])
  {
    match ParseDomainNames(fileStem)
    case None => None
    case Some(parsed) => Some(ReplaceDashes(parsed))
  }

  /** "DM_SA_2021-09-20" names two codes, so the whole name is kept and its dashes become
      underscores: "DM_SA_2021_09_20". */
  lemma TableNameOfFallback(name: string)
    requires name == "DM" + "_" + "SA" + "_" + "2021-09-20"
    ensures TableName(name) == Some("DM" + "_" + "SA" + "_" + "2021" + "_" + "09" + "_" + "20")
  {
    ParseSeveralCodes(name);
    assert ReplaceDashes(name) == "DM" + "_" + "SA" + "_" + "2021" + "_" + "09" + "_" + "20";
  }
}
