/**
 * The shape every scraped Addgene record is forced into before it is written:
 * `check_expected_keys` and `convert_values_to_strings` of
 * org-OpenPlasmid/get_addgene_data.py.
 */
module AddgeneSchema {
  import opened Wrappers
  import opened Text
  import opened Dicts

  /** A value of a scraped record: None, a string, or a nested dict. */
  datatype Value = Null | Str(s: string) | Map(entries: Dict<Value>)

  /** A lower-case hexadecimal digit. */
  function HexDigit(n: nat): char
    requires n < 16
  {
    if n < 10 then ('0' as int + n) as char else ('a' as int + n - 10) as char
  }

  /**
   * One character inside the quotes of a string's `repr`: the quote in use and
   * the backslash are escaped, tab, newline and carriage return get their
   * short escapes, and the other ASCII control characters a `\x` escape.
   */
  function EscapeChar(c: char, quote: char): string
  {
    if c == quote || c == '\\' then ['\\', c]
    else if c == '\t' then "\\t"
    else if c == '\n' then "\\n"
    else if c == '\r' then "\\r"
    else if c < ' ' || c == '\U{7f}' then ['\\', 'x', HexDigit(c as int / 16), HexDigit(c as int % 16)]
    else [c]
  }

  function Escape(s: string, quote: char): string
  {
    if s == [] then [] else EscapeChar(s[0], quote) + Escape(s[1..], quote)
  }

  /**
   * Python's `repr` of a string: single quotes, unless the string holds a single
   * quote and no double quote.
   */
  function Quote(s: string): string
  {
    var quote := if '\'' in s && '"' !in s then '"' else '\'';
    [quote] + Escape(s, quote) + [quote]
  }

  /**
   * The quote choice: a lone kind of quote inside picks the other kind, and when
   * both kinds occur the single quote is kept and escaped.
   */
  lemma QuoteExamples()
    ensures Quote("it's") == "\"it's\""
    ensures Quote("a'b\"c") == "'a\\'b\"c'"
    ensures Quote("a\\b") == "'a\\\\b'"
  {
    assert "it's"[2] == '\'';
    assert "a'b\"c"[1] == '\'' && "a'b\"c"[3] == '"';
  }

  /** Python's `repr`. */
  function Repr(v: Value): string
    decreases v
  {
    match v
    case Null => "None"
    case Str(s) => Quote(s)
    case Map(es) =>
      "{" + Join(", ", seq(|es|, i requires 0 <= i < |es| => Quote(es[i].0) + ": " + Repr(es[i].1))) + "}"
  }

  /** Python's `str`. */
  function StrOf(v: Value): string
  {
    match v
    case Null => "None"
    case Str(s) => s
    case Map(_) => Repr(v)
  }

  /** `str(value) if value is not None else ''`. */
  function StrOrEmpty(v: Value): (s: string)
    ensures v.Null? ==> s == ""
    ensures v.Str? ==> s == v.s
  {
    if v.Null? then "" else StrOf(v)
  }

  // ---------------------------------------------------------------------------
  // The expected structure

  const GeneInsertSubkeys: seq<string> :=
    ["Gene/Insert name", "Species", "Insert Size (bp)", "Mutation", "Entrez Gene", "Promoter", "Tag / Fusion Protein"]

  const CloningSubkeys: seq<string> :=
    ["Cloning method", "5\U{2032} cloning site", "3\U{2032} cloning site",
     "5\U{2032} sequencing primer", "3\U{2032} sequencing primer"]

  /** `expected_structure`: each nested key with its subkeys, in declared order. */
  const ExpectedStructure: seq<(string, seq<string>)> := [
    ("Backbone", ["Vector backbone", "Backbone size w/o insert (bp)", "Vector type", "Selectable markers"]),
    ("Growth in Bacteria", ["Bacterial Resistance(s)", "Growth Temperature", "Growth Strain(s)", "Copy number"]),
    ("Terms and Licenses", ["Academic/Nonprofit Terms", "Industry Terms"]),
    ("References", ["Title", "Publication", "DOI", "Authors", "PubMed Link", "PubMed ID"]),
    ("Gene/Insert 1", GeneInsertSubkeys),
    ("Cloning Information for Gene/Insert 1", CloningSubkeys),
    ("Gene/Insert 2", GeneInsertSubkeys),
    ("Cloning Information for Gene/Insert 2", CloningSubkeys),
    ("Gene/Insert 3", GeneInsertSubkeys),
    ("Cloning Information for Gene/Insert 3", CloningSubkeys)
  ]

  /** `expected_keys`: the keys that hold plain strings. */
  const ScalarKeys: seq<string> :=
    ["Name", "ID", "Flame", "Purpose", "Depositing Lab", "Publication", "GenBank File", "Sequence Type", "GenBank Raw"]

  /** The nested keys of `expected_structure`, in order. */
  const NestedKeys: seq<string> := ["Backbone", "Growth in Bacteria", "Terms and Licenses", "References", "Gene/Insert 1",
    "Cloning Information for Gene/Insert 1", "Gene/Insert 2", "Cloning Information for Gene/Insert 2",
    "Gene/Insert 3", "Cloning Information for Gene/Insert 3"]

  /** `full_expected_keys`: the keys of a checked record, in order. */
  const ExpectedKeys: seq<string> := ScalarKeys + NestedKeys

  lemma ScalarKeysDistinct()
    ensures |ScalarKeys| == 9 && Distinct(ScalarKeys)
  {
  }

  lemma NestedKeysDistinct()
    ensures |NestedKeys| == 10 && Distinct(NestedKeys)
    ensures |ExpectedStructure| == 10 && forall i :: 0 <= i < 10 ==> ExpectedStructure[i].0 == NestedKeys[i]
  {
  }

  lemma SubkeysDistinct()
    ensures |ExpectedStructure| == 10 && forall i :: 0 <= i < 10 ==> Distinct(ExpectedStructure[i].1)
  {
  }

  lemma ScalarNotNested()
    ensures forall i, j :: 0 <= i < |ScalarKeys| && 0 <= j < |NestedKeys| ==> ScalarKeys[i] != NestedKeys[j]
  {
  }

  /** The 19 expected keys are pairwise different, and so are the subkeys of each nested key. */
  lemma ExpectedKeysDistinct()
    ensures |ScalarKeys| == 9 && |NestedKeys| == 10
    ensures Distinct(ExpectedKeys)
    ensures |ExpectedStructure| == 10 && forall i :: 0 <= i < 10 ==> ExpectedStructure[i].0 == NestedKeys[i]
    ensures forall i :: 0 <= i < 10 ==> Distinct(ExpectedStructure[i].1)
  {
    ScalarKeysDistinct();
    NestedKeysDistinct();
    SubkeysDistinct();
    ScalarNotNested();
    forall i, j | 0 <= i < j < |ExpectedKeys| ensures ExpectedKeys[i] != ExpectedKeys[j] {
      if j < 9 {
        assert ExpectedKeys[i] == ScalarKeys[i] && ExpectedKeys[j] == ScalarKeys[j];
      } else if i < 9 {
        assert ExpectedKeys[i] == ScalarKeys[i] && ExpectedKeys[j] == NestedKeys[j - 9];
      } else {
        assert ExpectedKeys[i] == NestedKeys[i - 9] && ExpectedKeys[j] == NestedKeys[j - 9];
      }
    }
  }

  // ---------------------------------------------------------------------------
  // The normalised record

  /**
   * The string a key ends up holding, for a scalar key of the record and for a
   * subkey of a nested dict alike: an absent key or a None value reads as ''.
   */
  function StringAt(sub: Dict<Value>, subkey: string): (s: string)
    ensures Lookup(sub, subkey).None? ==> s == ""
    ensures Lookup(sub, subkey).Some? ==> s == StrOrEmpty(Lookup(sub, subkey).value)
  {
    match Lookup(sub, subkey)
    case None => ""
    case Some(v) => StrOrEmpty(v)
  }

  /** The dict a nested key ends up holding. */
  function NormalisedNested(d: Dict<Value>, key: string, subkeys: seq<string>): (r: Value)
    ensures r.Map? && Keys(r.entries) == subkeys
    ensures forall i :: 0 <= i < |subkeys| ==> r.entries[i].1.Str?
    ensures (Lookup(d, key).None? || !Lookup(d, key).value.Map?) ==>
              forall i :: 0 <= i < |subkeys| ==> r.entries[i].1 == Str("")
    ensures Lookup(d, key).Some? && Lookup(d, key).value.Map? ==>
              forall i :: 0 <= i < |subkeys| ==> r.entries[i].1 == Str(StringAt(Lookup(d, key).value.entries, subkeys[i]))
  {
    var found: Option<Value> := Lookup(d, key);
    match found
    case Some(Map(sub)) => Map(seq(|subkeys|, i requires 0 <= i < |subkeys| => (subkeys[i], Str(StringAt(sub, subkeys[i])))))
    case _ => Map(seq(|subkeys|, i requires 0 <= i < |subkeys| => (subkeys[i], Str(""))))
  }

  /** What `check_expected_keys` builds from `d` for the given scalar keys and nested structure. */
  function NormalisedBy(d: Dict<Value>, scalars: seq<string>, structure: seq<(string, seq<string>)>): Dict<Value>
  {
    seq(|scalars|, i requires 0 <= i < |scalars| => (scalars[i], Str(StringAt(d, scalars[i]))))
    + seq(|structure|, i requires 0 <= i < |structure| =>
            (structure[i].0, NormalisedNested(d, structure[i].0, structure[i].1)))
  }

  /** What `check_expected_keys` returns for the record `d`. */
  function Normalised(d: Dict<Value>): Dict<Value>
  {
    NormalisedBy(d, ScalarKeys, ExpectedStructure)
  }

  /** The facts about the expected structure that the proofs below rely on. */
  lemma ExpectedFacts()
    ensures Keys(ExpectedStructure) == NestedKeys
    ensures ExpectedKeys == ScalarKeys + Keys(ExpectedStructure)
    ensures Distinct(ScalarKeys) && Distinct(Keys(ExpectedStructure)) && Distinct(ExpectedKeys)
    ensures forall i :: 0 <= i < |ExpectedStructure| ==> Distinct(ExpectedStructure[i].1)
  {
    ExpectedKeysDistinct();
  }

  /** The built record has the scalar keys, then the nested keys, each once. */
  lemma NormalisedByKeys(d: Dict<Value>, scalars: seq<string>, structure: seq<(string, seq<string>)>)
    requires Distinct(scalars + Keys(structure))
    ensures Keys(NormalisedBy(d, scalars, structure)) == scalars + Keys(structure)
    ensures UniqueKeys(NormalisedBy(d, scalars, structure))
  {
    var r, keys := NormalisedBy(d, scalars, structure), scalars + Keys(structure);
    forall i | 0 <= i < |r| ensures r[i].0 == keys[i] {
      if i >= |scalars| {
        assert keys[i] == Keys(structure)[i - |scalars|];
      }
    }
    assert Keys(r) == keys;
  }

  /**
   * A checked record has exactly the 9 scalar keys followed by the 10 nested keys;
   * any other key of the input, 'Depositor Comments' among them, is gone.
   */
  lemma NormalisedKeys(d: Dict<Value>)
    ensures Keys(Normalised(d)) == ExpectedKeys
    ensures UniqueKeys(Normalised(d))
    ensures forall k :: k !in ExpectedKeys ==> Lookup(Normalised(d), k).None?
    ensures Lookup(Normalised(d), "Depositor Comments").None?
  {
    ExpectedFacts();
    NormalisedByKeys(d, ScalarKeys, ExpectedStructure);
    assert "Depositor Comments" !in ExpectedKeys;
  }

  /** A scalar key holds the string of its input value, or '' when that is absent or None. */
  lemma NormalisedScalarAt(d: Dict<Value>, i: nat)
    requires i < |ScalarKeys|
    ensures Lookup(Normalised(d), ScalarKeys[i]) == Some(Str(StringAt(d, ScalarKeys[i])))
  {
    NormalisedKeys(d);
    LookupAt(Normalised(d), i);
  }

  /** A nested key holds a dict with exactly its declared subkeys. */
  lemma NormalisedNestedAt(d: Dict<Value>, i: nat)
    requires i < |ExpectedStructure|
    ensures Lookup(Normalised(d), ExpectedStructure[i].0)
            == Some(NormalisedNested(d, ExpectedStructure[i].0, ExpectedStructure[i].1))
  {
    NormalisedKeys(d);
    LookupAt(Normalised(d), |ScalarKeys| + i);
  }

  /** A nested dict of string values with the given keys is rebuilt as it is. */
  lemma NestedFixed(d: Dict<Value>, key: string, subkeys: seq<string>)
    requires Distinct(subkeys)
    requires Lookup(d, key).Some? && Lookup(d, key).value.Map?
    requires Keys(Lookup(d, key).value.entries) == subkeys
    requires forall j :: 0 <= j < |subkeys| ==> Lookup(d, key).value.entries[j].1.Str?
    ensures NormalisedNested(d, key, subkeys) == Lookup(d, key).value
  {
    var sub := Lookup(d, key).value.entries;
    var r := NormalisedNested(d, key, subkeys);
    assert UniqueKeys(sub) by {
      forall i, j | 0 <= i < j < |sub| ensures sub[i].0 != sub[j].0 {
        assert Keys(sub)[i] == sub[i].0 && Keys(sub)[j] == sub[j].0;
      }
    }
    forall j | 0 <= j < |subkeys| ensures r.entries[j] == sub[j] {
      LookupAt(sub, j);
      assert Keys(sub)[j] == sub[j].0;
    }
  }

  /** `check_expected_keys` is idempotent. */
  lemma NormalisedIdempotent(d: Dict<Value>)
    ensures Normalised(Normalised(d)) == Normalised(d)
  {
    var n := Normalised(d);
    ExpectedKeysDistinct();
    forall i | 0 <= i < |ScalarKeys| ensures StringAt(n, ScalarKeys[i]) == StringAt(d, ScalarKeys[i]) {
      NormalisedScalarAt(d, i);
    }
    forall i | 0 <= i < |ExpectedStructure|
      ensures NormalisedNested(n, ExpectedStructure[i].0, ExpectedStructure[i].1)
              == NormalisedNested(d, ExpectedStructure[i].0, ExpectedStructure[i].1)
    {
      NormalisedNestedAt(d, i);
      NestedFixed(n, ExpectedStructure[i].0, ExpectedStructure[i].1);
    }
  }

  // ---------------------------------------------------------------------------
  // convert_values_to_strings

  /** Every leaf is a string. */
  predicate AllStrings(v: Value)
    decreases v
  {
    match v
    case Null => false
    case Str(_) => true
    case Map(es) => forall i :: 0 <= i < |es| ==> AllStrings(es[i].1)
  }

  /** `convert_values_to_strings`: keep the keys and nesting, turn every leaf into a string, None into ''. */
  function ConvertValuesToStrings(v: Value): (r: Value)
    ensures AllStrings(r)
    ensures v.Map? <==> r.Map?
    ensures v.Map? ==> Keys(r.entries) == Keys(v.entries)
    ensures v.Map? ==> forall i :: 0 <= i < |v.entries| ==> r.entries[i].1 == ConvertValuesToStrings(v.entries[i].1)
    ensures v.Null? ==> r == Str("")
    ensures v.Str? ==> r == v
    decreases v
  {
    match v
    case Map(es) =>
      Map(seq(|es|, i requires 0 <= i < |es| => (es[i].0, ConvertValuesToStrings(es[i].1))))
    case _ => Str(StrOrEmpty(v))
  }

  /** On a value whose leaves are all strings, conversion changes nothing. */
  lemma {:induction false} ConvertFixed(v: Value)
    requires AllStrings(v)
    ensures ConvertValuesToStrings(v) == v
    decreases v
  {
    if v.Map? {
      var es := v.entries;
      forall i | 0 <= i < |es| ensures ConvertValuesToStrings(es[i].1) == es[i].1 {
        ConvertFixed(es[i].1);
      }
      assert ConvertValuesToStrings(v).entries == es;
    }
  }

  /** A checked record holds strings only, so converting it afterwards changes nothing. */
  lemma ConvertAfterCheck(d: Dict<Value>)
    ensures AllStrings(Map(Normalised(d)))
    ensures ConvertValuesToStrings(Map(Normalised(d))) == Map(Normalised(d))
  {
    var n := Normalised(d);
    forall i | 0 <= i < |n| ensures AllStrings(n[i].1) {
      if i >= |ScalarKeys| {
        var e := n[i].1;
        assert forall j :: 0 <= j < |e.entries| ==> e.entries[j].1.Str?;
      }
    }
    ConvertFixed(Map(n));
  }

  // ---------------------------------------------------------------------------
  // check_expected_keys, in place

  /** The record dict that `check_expected_keys` updates in place. */
  class ScrapeDict {
    var entries: Dict<Value>

    constructor(entries: Dict<Value>)
      ensures this.entries == entries
    {
      this.entries := entries;
    }

    /** One nested key's new dict: its subkeys in order, read off the old nested dict when there is one. */
    static method NewSubdict(d: Dict<Value>, key: string, subkeys: seq<string>) returns (sub: Value)
      requires Distinct(subkeys)
      ensures sub == NormalisedNested(d, key, subkeys)
    {
      var entries: Dict<Value>;
      var existing := Lookup(d, key);
      if existing.Some? && existing.value.Map? {
        entries := SubkeyStrings(existing.value.entries, subkeys);
        ghost var n := NormalisedNested(d, key, subkeys).entries;
        forall i | 0 <= i < |subkeys| ensures entries[i] == n[i] {
          assert Keys(n)[i] == subkeys[i];
        }
      } else {
        entries := seq(|subkeys|, i requires 0 <= i < |subkeys| => (subkeys[i], Str("")));
      }
      sub := Map(entries);
    }

    /** The loop over the subkeys: each gets the string of its old value, or '' when absent or None. */
    static method SubkeyStrings(old_sub: Dict<Value>, subkeys: seq<string>) returns (entries: Dict<Value>)
      requires Distinct(subkeys)
      ensures |entries| == |subkeys|
      ensures forall i :: 0 <= i < |subkeys| ==> entries[i] == (subkeys[i], Str(StringAt(old_sub, subkeys[i])))
    {
      entries := [];
      for j := 0 to |subkeys|
        invariant |entries| == j
        invariant forall i :: 0 <= i < j ==> entries[i] == (subkeys[i], Str(StringAt(old_sub, subkeys[i])))
      {
        var value := match Lookup(old_sub, subkeys[j]) case None => Str("") case Some(v) => v;
        var s := Str(StrOrEmpty(value));
        SetNew(entries, subkeys[j], s);
        entries := Set(entries, subkeys[j], s);
      }
    }

    /** `{key: d[key] for key in keys}`, every key being present. */
    static method Select(d: Dict<Value>, keys: seq<string>) returns (r: Dict<Value>)
      requires forall i :: 0 <= i < |keys| ==> Lookup(d, keys[i]).Some?
      ensures |r| == |keys|
      ensures forall i :: 0 <= i < |keys| ==> r[i].0 == keys[i] && Lookup(d, keys[i]) == Some(r[i].1)
    {
      r := [];
      for i := 0 to |keys|
        invariant |r| == i
        invariant forall j :: 0 <= j < i ==> r[j].0 == keys[j] && Lookup(d, keys[j]) == Some(r[j].1)
      {
        r := r + [(keys[i], Lookup(d, keys[i]).value)];
      }
    }

    /** The first loop: each nested key gets its new dict, in place. */
    method OverwriteNested()
      modifies this
      ensures forall j :: 0 <= j < |ExpectedStructure| ==>
                Lookup(entries, ExpectedStructure[j].0)
                == Some(NormalisedNested(old(entries), ExpectedStructure[j].0, ExpectedStructure[j].1))
      ensures forall k :: k !in Keys(ExpectedStructure) ==> Lookup(entries, k) == Lookup(old(entries), k)
      ensures |old(entries)| <= |entries| && forall j :: 0 <= j < |old(entries)| ==> entries[j].0 == old(entries)[j].0
    {
      ExpectedFacts();
      ghost var d := entries;
      for i := 0 to |ExpectedStructure|
        invariant NestedDone(d, entries, ExpectedStructure, i)
        invariant |d| <= |entries| && forall j :: 0 <= j < |d| ==> entries[j].0 == d[j].0
      {
        var key := ExpectedStructure[i].0;
        var sub := NewSubdict(entries, key, ExpectedStructure[i].1);
        NestedStep(d, entries, ExpectedStructure, i, sub);
        entries := Set(entries, key, sub);
      }
      assert Keys(ExpectedStructure)[..|ExpectedStructure|] == Keys(ExpectedStructure);
    }

    /** The second loop: each scalar key gets its string, or '' when absent, in place. */
    method OverwriteScalars()
      modifies this
      ensures forall j :: 0 <= j < |ScalarKeys| ==>
                Lookup(entries, ScalarKeys[j]) == Some(Str(StringAt(old(entries), ScalarKeys[j])))
      ensures forall k :: k !in ScalarKeys ==> Lookup(entries, k) == Lookup(old(entries), k)
      ensures |old(entries)| <= |entries| && forall j :: 0 <= j < |old(entries)| ==> entries[j].0 == old(entries)[j].0
    {
      ExpectedFacts();
      ghost var d := entries;
      for i := 0 to |ScalarKeys|
        invariant ScalarsDone(d, entries, ScalarKeys, i)
        invariant |d| <= |entries| && forall j :: 0 <= j < |d| ==> entries[j].0 == d[j].0
      {
        var key := ScalarKeys[i];
        var value := Lookup(entries, key);
        var s := if value.Some? then Str(StrOrEmpty(value.value)) else Str("");
        ScalarStep(d, entries, ScalarKeys, i, s);
        entries := Set(entries, key, s);
      }
      assert ScalarKeys[..|ScalarKeys|] == ScalarKeys;
    }

    /**
     * `check_expected_keys(scrape_dict)`: overwrite each nested key with its new
     * dict and each scalar key with its string, in place, then return a new dict
     * of just the expected keys in order. The caller's dict keeps its other keys.
     */
    method CheckExpectedKeys() returns (r: Dict<Value>)
      modifies this
      ensures r == Normalised(old(entries))
      ensures forall k :: Lookup(entries, k) == if k in ExpectedKeys then Lookup(r, k) else Lookup(old(entries), k)
      ensures |old(entries)| <= |entries|
      ensures forall i :: 0 <= i < |old(entries)| ==> entries[i].0 == old(entries)[i].0
    {
      ghost var d := entries;
      OverwriteNested();
      ghost var d1 := entries;
      OverwriteScalars();
      var e := entries;
      ExpectedFacts();
      BothPasses(d, d1, e, ScalarKeys, ExpectedStructure);
      r := Select(e, ExpectedKeys);
      NormalisedResult(d, e, r, ScalarKeys, ExpectedStructure);
    }
  }

  /** The first `i` keys of `structure` hold their new dicts; every other key is as in `d`. */
  ghost predicate NestedDone(d: Dict<Value>, e: Dict<Value>, structure: seq<(string, seq<string>)>, i: nat)
  {
    && i <= |structure|
    && (forall j :: 0 <= j < i ==>
          Lookup(e, structure[j].0) == Some(NormalisedNested(d, structure[j].0, structure[j].1)))
    && (forall k :: k !in Keys(structure)[..i] ==> Lookup(e, k) == Lookup(d, k))
  }

  /** A nested key's new dict depends only on what the key holds. */
  lemma NestedOfLookup(d: Dict<Value>, e: Dict<Value>, key: string, subkeys: seq<string>)
    requires Lookup(d, key) == Lookup(e, key)
    ensures NormalisedNested(d, key, subkeys) == NormalisedNested(e, key, subkeys)
  {
  }

  lemma NestedStep(d: Dict<Value>, e: Dict<Value>, structure: seq<(string, seq<string>)>, i: nat, sub: Value)
    requires i < |structure| && Distinct(Keys(structure)) && NestedDone(d, e, structure, i)
    requires sub == NormalisedNested(e, structure[i].0, structure[i].1)
    ensures NestedDone(d, Set(e, structure[i].0, sub), structure, i + 1)
  {
    var e' := Set(e, structure[i].0, sub);
    SetNextKey(d, e, Keys(structure), i, sub);
    NestedOfLookup(d, e, structure[i].0, structure[i].1);
    forall j | 0 <= j < i + 1
      ensures Lookup(e', structure[j].0) == Some(NormalisedNested(d, structure[j].0, structure[j].1))
    {
      if j < i {
        assert Keys(structure)[j] == structure[j].0;
      }
    }
  }

  /** The first `i` scalar keys hold their strings; every other key is as in `d`. */
  ghost predicate ScalarsDone(d: Dict<Value>, e: Dict<Value>, keys: seq<string>, i: nat)
  {
    && i <= |keys|
    && (forall j :: 0 <= j < i ==> Lookup(e, keys[j]) == Some(Str(StringAt(d, keys[j]))))
    && (forall k :: k !in keys[..i] ==> Lookup(e, k) == Lookup(d, k))
  }

  lemma ScalarStep(d: Dict<Value>, e: Dict<Value>, keys: seq<string>, i: nat, s: Value)
    requires i < |keys| && Distinct(keys) && ScalarsDone(d, e, keys, i)
    requires Lookup(e, keys[i]).None? ==> s == Str("")
    requires Lookup(e, keys[i]).Some? ==> s == Str(StrOrEmpty(Lookup(e, keys[i]).value))
    ensures ScalarsDone(d, Set(e, keys[i], s), keys, i + 1)
  {
    var e' := Set(e, keys[i], s);
    SetNextKey(d, e, keys, i, s);
    ScalarOfLookup(d, e, keys[i], s);
    forall j | 0 <= j < i + 1 ensures Lookup(e', keys[j]) == Some(Str(StringAt(d, keys[j]))) {
      if j < i {
        assert Lookup(e', keys[j]) == Lookup(e, keys[j]);
      }
    }
    assert forall k :: k !in keys[..i + 1] ==> Lookup(e', k) == Lookup(d, k);
  }

  /** A scalar key's new string depends only on what the key holds. */
  lemma ScalarOfLookup(d: Dict<Value>, e: Dict<Value>, key: string, s: Value)
    requires Lookup(e, key) == Lookup(d, key)
    requires Lookup(e, key).None? ==> s == Str("")
    requires Lookup(e, key).Some? ==> s == Str(StrOrEmpty(Lookup(e, key).value))
    ensures s == Str(StringAt(d, key))
  {
  }

  /** The nested pass followed by the scalar pass leaves every expected key at its normalised value. */
  lemma BothPasses(d: Dict<Value>, d1: Dict<Value>, e: Dict<Value>,
                   scalars: seq<string>, structure: seq<(string, seq<string>)>)
    requires Distinct(scalars + Keys(structure))
    requires forall j :: 0 <= j < |structure| ==>
               Lookup(d1, structure[j].0) == Some(NormalisedNested(d, structure[j].0, structure[j].1))
    requires forall k :: k !in Keys(structure) ==> Lookup(d1, k) == Lookup(d, k)
    requires forall j :: 0 <= j < |scalars| ==> Lookup(e, scalars[j]) == Some(Str(StringAt(d1, scalars[j])))
    requires forall k :: k !in scalars ==> Lookup(e, k) == Lookup(d1, k)
    ensures forall j :: 0 <= j < |structure| ==>
              Lookup(e, structure[j].0) == Some(NormalisedNested(d, structure[j].0, structure[j].1))
    ensures forall j :: 0 <= j < |scalars| ==> Lookup(e, scalars[j]) == Some(Str(StringAt(d, scalars[j])))
    ensures forall k :: k !in scalars + Keys(structure) ==> Lookup(e, k) == Lookup(d, k)
    ensures forall i :: 0 <= i < |scalars + Keys(structure)| ==> Lookup(e, (scalars + Keys(structure))[i]).Some?
  {
    var keys := scalars + Keys(structure);
    forall j | 0 <= j < |structure|
      ensures Lookup(e, structure[j].0) == Some(NormalisedNested(d, structure[j].0, structure[j].1))
    {
      assert structure[j].0 == keys[|scalars| + j];
      forall a | 0 <= a < |scalars| ensures scalars[a] != structure[j].0 {
        assert scalars[a] == keys[a];
      }
    }
    forall j | 0 <= j < |scalars|
      ensures Lookup(e, scalars[j]) == Some(Str(StringAt(d, scalars[j])))
    {
      assert scalars[j] == keys[j];
      forall b | 0 <= b < |structure| ensures Keys(structure)[b] != scalars[j] {
        assert Keys(structure)[b] == keys[|scalars| + b];
      }
    }
    forall i | 0 <= i < |keys| ensures Lookup(e, keys[i]).Some? {
      if i >= |scalars| {
        assert keys[i] == Keys(structure)[i - |scalars|];
      }
    }
  }

  /** The returned dict read off the updated one is the normalised record. */
  lemma NormalisedResult(d: Dict<Value>, entries: Dict<Value>, r: Dict<Value>,
                         scalars: seq<string>, structure: seq<(string, seq<string>)>)
    requires Distinct(scalars + Keys(structure))
    requires forall j :: 0 <= j < |structure| ==>
               Lookup(entries, structure[j].0) == Some(NormalisedNested(d, structure[j].0, structure[j].1))
    requires forall j :: 0 <= j < |scalars| ==>
               Lookup(entries, scalars[j]) == Some(Str(StringAt(d, scalars[j])))
    requires forall k :: k !in scalars + Keys(structure) ==> Lookup(entries, k) == Lookup(d, k)
    requires |r| == |scalars + Keys(structure)|
    requires forall i :: 0 <= i < |r| ==>
               r[i].0 == (scalars + Keys(structure))[i] && Lookup(entries, (scalars + Keys(structure))[i]) == Some(r[i].1)
    ensures r == NormalisedBy(d, scalars, structure)
    ensures forall k :: Lookup(entries, k) == if k in scalars + Keys(structure) then Lookup(r, k) else Lookup(d, k)
  {
    var keys, n := scalars + Keys(structure), NormalisedBy(d, scalars, structure);
    forall i | 0 <= i < |r| ensures r[i] == n[i] {
      if i >= |scalars| {
        assert keys[i] == Keys(structure)[i - |scalars|];
      }
    }
    forall k | k in keys ensures Lookup(entries, k) == Lookup(r, k) {
      DistinctLookup(r, keys, k);
    }
  }
}
