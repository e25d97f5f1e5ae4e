/**
 * The OpenPlasmid dataset build: gene-name normalisation, GC content, the
 * keyword list and the two curated features of each row.
 */
module BuildPolaris {
  import opened Wrappers
  import opened Text
  import opened Dicts

  // ---------------------------------------------------------------------------
  // clean_gene_name, step 1: drop one leading species prefix (case-insensitive) and the whitespace after it

  /** `s` starts with the lower-case `pre`, ignoring ASCII case. */
  predicate StartsWithCi(s: string, pre: string)
  {
    |pre| <= |s| && Lower(s[..|pre|]) == pre
  }

  /** `s` ends with the lower-case `suf`, ignoring ASCII case. */
  predicate EndsWithCi(s: string, suf: string)
  {
    |suf| <= |s| && Lower(s[|s| - |suf|..]) == suf
  }

  /** The alternatives of the species prefix, in the order the regex tries them. */
  const SpeciesPrefixes: seq<string> := ["human", "mouse", "rat", "h", "m", "r"]

  /** The first alternative, from index `k` on, that `s` starts with. */
  function FirstPrefix(s: string, k: nat): (r: Option<nat>)
    requires k <= |SpeciesPrefixes|
    ensures r.Some? ==> k <= r.value < |SpeciesPrefixes| && StartsWithCi(s, SpeciesPrefixes[r.value])
    ensures forall j :: k <= j < |SpeciesPrefixes| && (r.None? || j < r.value) ==> !StartsWithCi(s, SpeciesPrefixes[j])
    decreases |SpeciesPrefixes| - k
  {
    if k == |SpeciesPrefixes| then None
    else if StartsWithCi(s, SpeciesPrefixes[k]) then Some(k)
    else FirstPrefix(s, k + 1)
  }

  /**
   * Drop one species prefix and the whitespace after it. Only the start of the
   * string is tried, and the first alternative that matches wins, so "Rattus"
   * loses "Rat" rather than "R".
   */
  function DropSpecies(s: string): (r: string)
    ensures |r| <= |s|
    ensures r == s <==> forall j :: 0 <= j < |SpeciesPrefixes| ==> !StartsWithCi(s, SpeciesPrefixes[j])
    ensures r != s ==> r == [] || !IsSpace(r[0])
  {
    match FirstPrefix(s, 0)
    case None => s
    case Some(j) =>
      assert |SpeciesPrefixes[j]| > 0;
      TrimStart(s[|SpeciesPrefixes[j]|..], IsSpace)
  }

  /** What the prefix step removes is the first matching alternative followed by whitespace only. */
  lemma DropSpeciesParts(s: string, j: nat)
    requires FirstPrefix(s, 0) == Some(j)
    ensures var r := DropSpecies(s);
            |SpeciesPrefixes[j]| <= |s| - |r| && r == s[|s| - |r|..]
            && forall i :: |SpeciesPrefixes[j]| <= i < |s| - |r| ==> IsSpace(s[i])
  {
    var p := SpeciesPrefixes[j];
    TrimStartSuffix(s[|p|..], IsSpace);
  }

  /** "Hsp70" loses its "H": the single-letter alternative `h` matches. */
  lemma DropSpeciesHsp70()
    ensures DropSpecies("Hsp70") == "sp70"
  {
    assert !StartsWithCi("Hsp70", "human") by { assert Lower("Hsp70"[..5])[1] == 's'; }
    assert !StartsWithCi("Hsp70", "mouse") by { assert Lower("Hsp70"[..5])[0] == 'h'; }
    assert !StartsWithCi("Hsp70", "rat") by { assert Lower("Hsp70"[..3])[0] == 'h'; }
    assert StartsWithCi("Hsp70", "h") by { assert Lower("Hsp70"[..1]) == [ToLower('H')]; }
    assert "Hsp70"[1..] == "sp70";
  }

  /** "mCherry" loses its "m". */
  lemma DropSpeciesCherry()
    ensures DropSpecies("mCherry") == "Cherry"
  {
    assert !StartsWithCi("mCherry", "human") by { assert Lower("mCherry"[..5])[0] == 'm'; }
    assert !StartsWithCi("mCherry", "mouse") by { assert Lower("mCherry"[..5])[1] == 'c'; }
    assert !StartsWithCi("mCherry", "rat") by { assert Lower("mCherry"[..3])[0] == 'm'; }
    assert !StartsWithCi("mCherry", "h") by { assert Lower("mCherry"[..1])[0] == 'm'; }
    assert StartsWithCi("mCherry", "m") by { assert Lower("mCherry"[..1]) == [ToLower('m')]; }
    assert FirstPrefix("mCherry", 0) == Some(4);
    assert "mCherry"[1..] == "Cherry";
    assert TrimStart("Cherry", IsSpace) == "Cherry" by { assert !IsSpace('C'); }
  }

  /** "Rattus" loses "Rat", not just "R": the earlier alternative wins. */
  lemma DropSpeciesRattus()
    ensures DropSpecies("Rattus") == "tus"
  {
    assert !StartsWithCi("Rattus", "human") by { assert Lower("Rattus"[..5])[0] == 'r'; }
    assert !StartsWithCi("Rattus", "mouse") by { assert Lower("Rattus"[..5])[0] == 'r'; }
    assert StartsWithCi("Rattus", "rat") by { assert Lower("Rattus"[..3]) == [ToLower('R'), ToLower('a'), ToLower('t')]; }
    assert "Rattus"[3..] == "tus";
  }

  /** The whitespace after the prefix goes with it. */
  lemma DropSpeciesHuman()
    ensures DropSpecies("Human  ACTB") == "ACTB"
  {
    assert StartsWithCi("Human  ACTB", "human") by {
      assert Lower("Human  ACTB"[..5]) == [ToLower('H'), ToLower('u'), ToLower('m'), ToLower('a'), ToLower('n')];
    }
    assert "Human  ACTB"[5..] == "  ACTB";
    assert "  ACTB"[1..] == " ACTB" && " ACTB"[1..] == "ACTB";
  }

  // ---------------------------------------------------------------------------
  // step 2: drop one trailing "gene" or "protein" (case-insensitive) and the whitespace before it

  /** The final newline before which `$` also matches, if `s` ends with one. */
  function NewlineTail(s: string): (t: string)
    ensures |t| <= |s| && s[|s| - |t|..] == t
    ensures t == [] || t == "\n"
    ensures t == "\n" <==> s != [] && s[|s| - 1] == '\n'
  {
    if s != [] && s[|s| - 1] == '\n' then "\n" else ""
  }

  /** The length of the `gene` or `protein` that ends `b`, ignoring case, or 0 when neither does. */
  function KindLen(b: string): (n: nat)
    ensures n == 0 <==> !EndsWithCi(b, "gene") && !EndsWithCi(b, "protein")
    ensures n > 0 ==> (n == 4 && EndsWithCi(b, "gene")) || (n == 7 && EndsWithCi(b, "protein"))
  {
    if EndsWithCi(b, "gene") then 4 else if EndsWithCi(b, "protein") then 7 else 0
  }

  /** The text `$` can end a match at: all of `s` but a final newline. */
  function KindBody(s: string): (b: string)
  {
    s[..|s| - |NewlineTail(s)|]
  }

  /**
   * Drop a trailing `gene` or `protein`, ignoring case, with the whitespace run
   * before it. A final newline stays, since `$` also matches just before it.
   */
  function DropKind(s: string): (r: string)
    ensures |r| <= |s|
    ensures r == s <==> KindLen(KindBody(s)) == 0
  {
    var t := NewlineTail(s);
    var b := KindBody(s);
    var n := KindLen(b);
    if n == 0 then s else TrimEnd(b[..|b| - n], IsSpace) + t
  }

  /** The text is the body followed by the final newline, if any. */
  lemma KindBodyTail(s: string)
    ensures s == KindBody(s) + NewlineTail(s)
  {
  }

  /**
   * When a kind word ends the body, the body is what is kept, then whitespace,
   * then the word; what is kept does not end in whitespace (the match starts at
   * the leftmost whitespace), and the final newline follows it in the result.
   */
  lemma DropKindParts(s: string)
    requires KindLen(KindBody(s)) > 0
    ensures var b := KindBody(s); var k := |DropKind(s)| - |NewlineTail(s)|;
            0 <= k && k + KindLen(b) <= |b| && DropKind(s) == b[..k] + NewlineTail(s)
            && (k == 0 || !IsSpace(b[k - 1]))
            && (forall i :: k <= i < |b| - KindLen(b) ==> IsSpace(b[i]))
  {
    var t := NewlineTail(s);
    var b := KindBody(s);
    var n := KindLen(b);
    var stem := b[..|b| - n];
    var h := TrimEnd(stem, IsSpace);
    assert DropKind(s) == h + t;
    KeptBeforeKind(b, n, h);
  }

  /** What `rstrip` keeps of the text before the kind word is a prefix of the body, followed there by whitespace only. */
  lemma KeptBeforeKind(b: string, n: nat, h: string)
    requires n <= |b| && h == TrimEnd(b[..|b| - n], IsSpace)
    ensures |h| + n <= |b| && h == b[..|h|]
    ensures h == [] || !IsSpace(b[|h| - 1])
    ensures forall i :: |h| <= i < |b| - n ==> IsSpace(b[i])
  {
    var stem := b[..|b| - n];
    TrimEndPrefix(stem, IsSpace);
    assert h == b[..|h|];
    forall i | |h| <= i < |b| - n ensures IsSpace(b[i]) {
      assert b[i] == stem[i];
    }
  }

  // ---------------------------------------------------------------------------
  // step 3: drop every parenthesised group with no ')' inside, and the whitespace before it

  /** The length of the leading whitespace run of `s`. */
  function LeadSpace(s: string): (j: nat)
    ensures j <= |s|
    ensures forall i :: 0 <= i < j ==> IsSpace(s[i])
    ensures j < |s| ==> !IsSpace(s[j])
  {
    TrimStartSuffix(s, IsSpace);
    |s| - |TrimStart(s, IsSpace)|
  }

  /**
   * Where a match at the start of `s` ends: leading whitespace, a '(' and
   * everything up to and including the first ')' after it. None when there is
   * no such ')'.
   */
  function GroupEnd(s: string): (e: Option<nat>)
    ensures e.Some? ==> 0 < e.value <= |s| && s[e.value - 1] == ')'
  {
    var j := LeadSpace(s);
    if j < |s| && s[j] == '(' then
      match IndexOf(s[j + 1..], ')')
      case None => None
      case Some(c) => Some(j + 1 + c + 1)
    else None
  }

  /**
   * A group starts the text exactly when the leading whitespace is followed by
   * '(' and a ')' comes later; it then ends at the first such ')'.
   */
  lemma GroupEndExact(s: string)
    ensures var j := LeadSpace(s);
            GroupEnd(s).None? <==> j == |s| || s[j] != '(' || ')' !in s[j + 1..]
    ensures var j, e := LeadSpace(s), GroupEnd(s);
            e.Some? ==> j < |s| && s[j] == '(' && j + 2 <= e.value <= |s| && s[e.value - 1] == ')'
                        && forall i :: j < i < e.value - 1 ==> s[i] != ')'
  {
    var j := LeadSpace(s);
    if j < |s| && s[j] == '(' {
      match IndexOf(s[j + 1..], ')')
      case None =>
      case Some(c) =>
        assert forall i :: j < i < j + 1 + c ==> s[i] == s[j + 1..][..c][i - j - 1];
    }
  }

  /** No '(' is followed, anywhere later, by a ')'. */
  predicate NoGroup(s: string)
  {
    forall i, k :: 0 <= i < k < |s| && s[i] == '(' ==> s[k] != ')'
  }

  /** Remove, left to right, every parenthesised group together with the whitespace before it. */
  function DropGroups(s: string): (r: string)
    ensures |r| <= |s|
    decreases |s|
  {
    if s == [] then []
    else match GroupEnd(s)
      case Some(e) => DropGroups(s[e..])
      case None => [s[0]] + DropGroups(s[1..])
  }

  /** No group starts at index `j` of `s`. */
  predicate NoGroupAt(s: string, j: nat)
    requires j <= |s|
  {
    GroupEnd(s[j..]).None?
  }

  /** Where no group starts, characters are copied one by one: the text before `p` stays as it is. */
  lemma DropGroupsCopies(s: string, p: nat)
    requires p <= |s|
    requires forall j :: 0 <= j < p ==> NoGroupAt(s, j)
    ensures DropGroups(s) == s[..p] + DropGroups(s[p..])
  {
    DropGroupsCopiesFrom(s, 0, p);
    assert s[0..] == s;
  }

  lemma {:induction false} DropGroupsCopiesFrom(s: string, i: nat, p: nat)
    requires i <= p <= |s|
    requires forall j :: i <= j < p ==> NoGroupAt(s, j)
    ensures DropGroups(s[i..]) == s[i..p] + DropGroups(s[p..])
    decreases p - i
  {
    if i < p {
      DropGroupsCopyAt(s, i);
      DropGroupsCopiesFrom(s, i + 1, p);
      ConsSlice(s, i, p, DropGroups(s[p..]));
    }
  }

  lemma ConsSlice(s: string, i: nat, p: nat, rest: string)
    requires i < p <= |s|
    ensures [s[i]] + (s[i + 1..p] + rest) == s[i..p] + rest
  {
    assert s[i..p] == [s[i]] + s[i + 1..p];
  }

  lemma DropGroupsCopyAt(s: string, i: nat)
    requires i < |s| && NoGroupAt(s, i)
    ensures DropGroups(s[i..]) == [s[i]] + DropGroups(s[i + 1..])
  {
    var t := s[i..];
    assert t[1..] == s[i + 1..];
  }

  /**
   * The first group, starting at `p`, is removed with the whitespace before it;
   * the text before it stays and the scan goes on after its ')'.
   */
  lemma DropGroupsAt(s: string, p: nat)
    requires p < |s| && GroupEnd(s[p..]).Some?
    requires forall j :: 0 <= j < p ==> NoGroupAt(s, j)
    ensures DropGroups(s) == s[..p] + DropGroups(s[p + GroupEnd(s[p..]).value..])
  {
    DropGroupsCopies(s, p);
    var t := s[p..];
    DropGroupsSkip(t);
    assert t[GroupEnd(t).value..] == s[p + GroupEnd(t).value..];
  }

  /** A group at the very start is dropped whole. */
  lemma DropGroupsSkip(t: string)
    requires GroupEnd(t).Some?
    ensures DropGroups(t) == DropGroups(t[GroupEnd(t).value..])
  {
  }

  /** Removing groups only keeps characters the text had. */
  lemma {:induction false} DropGroupsWithin(s: string)
    ensures CharsWithin(DropGroups(s), s)
    decreases |s|
  {
    if s != [] {
      var r := DropGroups(s);
      match GroupEnd(s)
      case Some(e) =>
        DropGroupsWithin(s[e..]);
        forall i | 0 <= i < |r| ensures r[i] in s {
          var j :| 0 <= j < |s[e..]| && s[e..][j] == r[i];
          assert s[e + j] == r[i];
        }
      case None =>
        var rest := DropGroups(s[1..]);
        DropGroupsWithin(s[1..]);
        forall i | 0 <= i < |r| ensures r[i] in s {
          if i > 0 {
            assert r[i] == rest[i - 1];
            var j :| 0 <= j < |s[1..]| && s[1..][j] == rest[i - 1];
            assert s[j + 1] == r[i];
          }
        }
    }
  }

  /** Nothing that looks like a group survives. */
  lemma {:induction false} DropGroupsNoGroup(s: string)
    ensures NoGroup(DropGroups(s))
    decreases |s|
  {
    if s != [] {
      match GroupEnd(s)
      case Some(e) => DropGroupsNoGroup(s[e..]);
      case None =>
        DropGroupsNoGroup(s[1..]);
        var rest := DropGroups(s[1..]);
        if s[0] == '(' {
          assert LeadSpace(s) == 0;
          assert ')' !in s[1..];
          DropGroupsWithin(s[1..]);
          assert ')' !in rest by {
            forall k | 0 <= k < |rest| ensures rest[k] != ')' {
              assert rest[k] in s[1..];
            }
          }
        }
        var r := [s[0]] + rest;
        forall i, k | 0 <= i < k < |r| && r[i] == '(' ensures r[k] != ')' {
          assert r[k] == rest[k - 1];
          if i > 0 {
            assert r[i] == rest[i - 1];
          }
        }
    }
  }

  /** A text with no '(' is left alone. */
  lemma {:induction false} DropGroupsNoParen(s: string)
    requires '(' !in s
    ensures DropGroups(s) == s
    decreases |s|
  {
    if s != [] {
      var j := LeadSpace(s);
      assert j < |s| ==> s[j] != '(';
      assert GroupEnd(s).None?;
      DropGroupsNoParen(s[1..]);
      assert s == [s[0]] + s[1..];
    }
  }

  /** A text without groups is left alone, so removing groups twice removes nothing more. */
  lemma {:induction false} DropGroupsFixed(s: string)
    requires NoGroup(s)
    ensures DropGroups(s) == s
    decreases |s|
  {
    if s != [] {
      NoGroupNoEnd(s);
      NoGroupTail(s);
      DropGroupsFixed(s[1..]);
      DropGroupsKeepsFirst(s);
    }
  }

  /** With no group at the start, the first character stays and the rest is processed on its own. */
  lemma DropGroupsKeepsFirst(s: string)
    requires s != [] && GroupEnd(s).None? && DropGroups(s[1..]) == s[1..]
    ensures DropGroups(s) == s
  {
    assert s == [s[0]] + s[1..];
  }

  /** Without groups there is no group to match at the start. */
  lemma NoGroupNoEnd(s: string)
    requires NoGroup(s)
    ensures GroupEnd(s).None?
  {
    var j := LeadSpace(s);
    if j < |s| && s[j] == '(' {
      var tail := s[j + 1..];
      assert ')' !in tail by {
        forall k | 0 <= k < |tail| ensures tail[k] != ')' {
          assert tail[k] == s[j + 1 + k];
        }
      }
    }
  }

  lemma NoGroupTail(s: string)
    requires s != [] && NoGroup(s)
    ensures NoGroup(s[1..])
  {
    forall i, k | 0 <= i < k < |s[1..]| && s[1..][i] == '(' ensures s[1..][k] != ')' {
      assert s[1..][i] == s[i + 1] && s[1..][k] == s[k + 1];
    }
  }

  lemma DropGroupsIdempotent(s: string)
    ensures DropGroups(DropGroups(s)) == DropGroups(s)
  {
    DropGroupsNoGroup(s);
    DropGroupsFixed(DropGroups(s));
  }

  /** The name after the three substitutions, before the gene map is consulted. */
  function Stem(gene: string): (r: string)
    ensures NoGroup(r)
    ensures |r| <= |gene|
  {
    DropGroupsNoGroup(DropKind(DropSpecies(gene)));
    DropGroups(DropKind(DropSpecies(gene)))
  }

  // ---------------------------------------------------------------------------
  // the gene map

  /** `gene_map`, in its insertion order. */
  const GeneMap: seq<(string, string)> := [
    ("neo", "neomycin resistance"),
    ("amp", "ampicillin resistance"),
    ("gfp", "GFP"),
    ("egfp", "GFP"),
    ("rfp", "RFP"),
    ("dsred", "RFP"),
    ("kan", "kanamycin resistance")
  ]

  /** A character `\w` matches. */
  predicate IsWordChar(c: char)
  {
    IsAsciiDigit(c) || IsAsciiUpper(c) || IsAsciiLower(c) || c == '_'
  }

  /** The lower-case `key` occurs at `i` in `s` as a whole word, ignoring case: `\bkey\b` with `re.I`. */
  predicate WordAt(s: string, key: string, i: nat)
  {
    i + |key| <= |s| && Lower(s[i..i + |key|]) == key
    && (i == 0 || !IsWordChar(s[i - 1]))
    && (i + |key| == |s| || !IsWordChar(s[i + |key|]))
  }

  /** A case-insensitive whole-word search for `key` in `s` finds a match. */
  predicate HasWord(s: string, key: string)
  {
    exists i: nat | i <= |s| :: WordAt(s, key, i)
  }

  /** The search itself, from index `i` on. */
  function FindWord(s: string, key: string, i: nat): (b: bool)
    requires i <= |s|
    ensures b <==> exists j: nat | i <= j <= |s| :: WordAt(s, key, j)
    decreases |s| - i
  {
    if WordAt(s, key, i) then true
    else if i == |s| then false
    else FindWord(s, key, i + 1)
  }

  /** Key `k` of the gene map is the first one that `stem` contains as a word. */
  predicate FirstMapped(stem: string, k: nat)
    requires k < |GeneMap|
  {
    HasWord(stem, GeneMap[k].0) && NoneMapped(stem, k)
  }

  /** None of the first `k` gene-map keys occurs in `stem` as a word. */
  predicate NoneMapped(stem: string, k: nat)
    requires k <= |GeneMap|
  {
    forall j :: 0 <= j < k ==> !HasWord(stem, GeneMap[j].0)
  }

  /**
   * `r` is what the gene map makes of `stem`: the value of the first key found
   * as a word, or, when no key is found, the stripped and lower-cased stem.
   */
  predicate MapsTo(stem: string, r: string)
  {
    (exists k :: 0 <= k < |GeneMap| && FirstMapped(stem, k) && r == GeneMap[k].1)
    || (NoneMapped(stem, |GeneMap|) && r == Lower(StripSpace(stem)))
  }

  /**
   * `clean_gene_name`: strip the species prefix, the kind suffix and the
   * parenthesised groups; then the value of the first gene-map key found as a
   * whole word, or else the stripped, lower-cased stem.
   */
  method CleanGeneName(gene: string) returns (r: string)
    ensures MapsTo(Stem(gene), r)
  {
    var stem := Stem(gene);
    for k := 0 to |GeneMap|
      invariant NoneMapped(stem, k)
    {
      var key := GeneMap[k].0;
      var found := FindWord(stem, key, 0);
      MapStep(stem, k, found);
      if found {
        return GeneMap[k].1;
      }
    }
    NoKeyMapped(stem);
    return Lower(StripSpace(stem));
  }

  /** Searching for key `k`, all earlier keys absent: a hit decides the result, a miss extends the absent keys. */
  lemma MapStep(stem: string, k: nat, found: bool)
    requires k < |GeneMap| && NoneMapped(stem, k)
    requires found == FindWord(stem, GeneMap[k].0, 0)
    ensures found ==> MapsTo(stem, GeneMap[k].1)
    ensures !found ==> NoneMapped(stem, k + 1)
  {
    assert found == HasWord(stem, GeneMap[k].0);
    if found {
      assert FirstMapped(stem, k);
    }
  }

  lemma NoKeyMapped(stem: string)
    requires NoneMapped(stem, |GeneMap|)
    ensures MapsTo(stem, Lower(StripSpace(stem)))
  {
  }

  /** Lower-casing commutes with slicing. */
  lemma LowerSlice(s: string, i: nat, j: nat)
    requires i <= j <= |s|
    ensures Lower(s[i..j]) == Lower(s)[i..j]
  {
  }

  /** None of the substitutions touches "EGFP". */
  lemma EgfpStem()
    ensures Stem("EGFP") == "EGFP"
  {
    var s := "EGFP";
    assert DropSpecies(s) == s by {
      assert Lower(s[..1])[0] == 'e';
      assert forall j :: 0 <= j < |SpeciesPrefixes| ==> SpeciesPrefixes[j][0] != 'e';
    }
    assert KindLen(KindBody(s)) == 0 by {
      assert NewlineTail(s) == [];
      LowerSlice(s, 0, 4);
      assert Lower(s)[3] == 'p';
    }
    DropGroupsNoParen(s);
  }

  /** "EGFP" maps through its own key: the "gfp" inside it is not a whole word. */
  lemma EgfpMapped()
    ensures FirstMapped(Stem("EGFP"), 3) && GeneMap[3].1 == "GFP"
  {
    EgfpStem();
    EgfpWords();
    EgfpEntry();
  }

  lemma EgfpEntry()
    ensures GeneMap[3] == ("egfp", "GFP")
  {
  }

  lemma EgfpWords()
    ensures FirstMapped("EGFP", 3)
  {
    var s := "EGFP";
    assert Lower(s) == "egfp" by {
      assert Lower(s) == [ToLower('E'), ToLower('G'), ToLower('F'), ToLower('P')];
    }
    assert WordAt(s, "egfp", 0) by { assert s[0..4] == s; }
    forall i: nat | i <= |s| ensures !WordAt(s, "neo", i) && !WordAt(s, "amp", i) && !WordAt(s, "gfp", i) {
      if i + 3 <= |s| {
        LowerSlice(s, i, i + 3);
      }
    }
  }

  /** A name the map does not rewrite comes out without upper-case ASCII letters or surrounding whitespace. */
  lemma UnmappedIsLower(stem: string)
    ensures var r := Lower(StripSpace(stem));
            (forall i :: 0 <= i < |r| ==> !IsAsciiUpper(r[i]))
            && (r != [] ==> !IsSpace(r[0]) && !IsSpace(r[|r| - 1]))
  {
    var s := StripSpace(stem);
    var r := Lower(s);
    forall i | 0 <= i < |r| ensures !IsAsciiUpper(r[i]) && (IsSpace(r[i]) <==> IsSpace(s[i])) {
      LowerChar(s[i]);
    }
  }

  /** Lower-casing one character leaves no ASCII capital and keeps whitespace as it was. */
  lemma LowerChar(c: char)
    ensures !IsAsciiUpper(ToLower(c)) && (IsSpace(ToLower(c)) <==> IsSpace(c))
  {
  }

  // ---------------------------------------------------------------------------
  // calculate_gc_content

  /** The number of 'G' and 'C' characters (lower case does not count). */
  function GcCount(s: string): (n: nat)
    ensures n == multiset(s)['G'] + multiset(s)['C']
    ensures n <= |s|
  {
    if s == [] then 0
    else
      assert s == s[..|s| - 1] + [s[|s| - 1]];
      GcCount(s[..|s| - 1]) + if s[|s| - 1] == 'G' || s[|s| - 1] == 'C' then 1 else 0
  }

  /** An exact fraction. */
  datatype Ratio = Ratio(num: nat, den: nat)

  /** `calculate_gc_content` as an exact fraction: 0 for the empty sequence, else count over length. */
  function GcContent(sequence: string): (r: Ratio)
    ensures r.den > 0 && r.num <= r.den
    ensures sequence == [] ==> r.num == 0
    ensures sequence != [] ==> r.den == |sequence| && r.num == multiset(sequence)['G'] + multiset(sequence)['C']
  {
    if sequence == [] then Ratio(0, 1) else Ratio(GcCount(sequence), |sequence|)
  }

  // ---------------------------------------------------------------------------
  // define_keywords

  const TopKeywords: nat := 15
  const ExcludedKeywords: seq<string> := ["bla", "op"]

  /** The first `n` elements, or all of them when there are fewer (`[:n]`). */
  function Take<T>(xs: seq<T>, n: nat): (r: seq<T>)
    ensures |r| <= n && |r| <= |xs|
    ensures r == xs[..|r|] && (|r| < n ==> r == xs)
  {
    if |xs| <= n then xs else xs[..n]
  }

  /** The names that are not excluded, in order. */
  function Kept(xs: seq<string>): (r: seq<string>)
    ensures |r| <= |xs|
    ensures forall x :: x in r <==> x in xs && x !in ExcludedKeywords
  {
    if xs == [] then []
    else
      assert xs == xs[..|xs| - 1] + [xs[|xs| - 1]];
      Kept(xs[..|xs| - 1]) + if xs[|xs| - 1] in ExcludedKeywords then [] else [xs[|xs| - 1]]
  }

  function Reverse<T>(xs: seq<T>): (r: seq<T>)
    ensures |r| == |xs| && forall i :: 0 <= i < |xs| ==> r[i] == xs[|xs| - 1 - i]
  {
    seq(|xs|, i requires 0 <= i < |xs| => xs[|xs| - 1 - i])
  }

  /**
   * `define_keywords`, given the names ranked as `Counter.most_common` ranks
   * them (most frequent first): the top 15, less 'bla' and 'op', reversed.
   */
  function DefineKeywords(ranked: seq<string>): (r: seq<string>)
    ensures |r| <= TopKeywords
    ensures forall x :: x in r <==> x in Take(ranked, TopKeywords) && x !in ExcludedKeywords
  {
    var k := Kept(Take(ranked, TopKeywords));
    var r := Reverse(k);
    assert forall x :: x in r <==> x in k by {
      forall x ensures x in r <==> x in k {
        if x in k {
          var i :| 0 <= i < |k| && k[i] == x;
          assert r[|k| - 1 - i] == x;
        }
      }
    }
    r
  }

  /** `xs` is ordered by non-increasing `count`. */
  predicate Descending(xs: seq<string>, count: string -> nat)
  {
    forall i, j :: 0 <= i < j < |xs| ==> count(xs[i]) >= count(xs[j])
  }

  lemma {:induction false} KeptDescending(xs: seq<string>, count: string -> nat)
    requires Descending(xs, count)
    ensures Descending(Kept(xs), count)
  {
    if xs != [] {
      var init := xs[..|xs| - 1];
      assert Descending(init, count) by {
        forall i, j | 0 <= i < j < |init| ensures count(init[i]) >= count(init[j]) {
          assert init[i] == xs[i] && init[j] == xs[j];
        }
      }
      KeptDescending(init, count);
      var k := Kept(init);
      var r := Kept(xs);
      if xs[|xs| - 1] !in ExcludedKeywords {
        forall i | 0 <= i < |k| ensures count(k[i]) >= count(xs[|xs| - 1]) {
          assert k[i] in init;
          var m :| 0 <= m < |init| && init[m] == k[i];
          assert init[m] == xs[m];
        }
        forall i, j | 0 <= i < j < |r| ensures count(r[i]) >= count(r[j]) {
          if j < |k| {
            assert r[i] == k[i] && r[j] == k[j];
          } else {
            assert r[i] == k[i] && r[j] == xs[|xs| - 1];
          }
        }
      }
    }
  }

  /** With the names ranked most frequent first, the keywords run from least to most frequent. */
  lemma KeywordsAscending(ranked: seq<string>, count: string -> nat)
    requires Descending(ranked, count)
    ensures var r := DefineKeywords(ranked);
            forall i, j :: 0 <= i < j < |r| ==> count(r[i]) <= count(r[j])
  {
    var top := Take(ranked, TopKeywords);
    assert Descending(top, count) by {
      forall i, j | 0 <= i < j < |top| ensures count(top[i]) >= count(top[j]) {
        assert top[i] == ranked[i] && top[j] == ranked[j];
      }
    }
    KeptDescending(top, count);
  }

  // ---------------------------------------------------------------------------
  // map_genes

  /** A case-insensitive search for `keyword` in `gene`, the keyword taken as literal text. */
  predicate Matches(keyword: string, gene: string)
  {
    Contains(Lower(gene), Lower(keyword))
  }

  predicate MatchesSome(keyword: string, genes: seq<string>)
  {
    exists i :: 0 <= i < |genes| && Matches(keyword, genes[i])
  }

  /** `map_genes`: the first keyword that matches one of the genes, or None for `pd.NA`. */
  function MapGenes(genes: seq<string>, keywords: seq<string>): (r: Option<string>)
    ensures r.None? <==> forall k :: 0 <= k < |keywords| ==> !MatchesSome(keywords[k], genes)
    ensures r.Some? ==> exists k :: 0 <= k < |keywords| && r.value == keywords[k] && MatchesSome(keywords[k], genes)
                                    && forall j :: 0 <= j < k ==> !MatchesSome(keywords[j], genes)
  {
    if keywords == [] then None
    else if MatchesSome(keywords[0], genes) then Some(keywords[0])
    else
      var r := MapGenes(genes, keywords[1..]);
      assert forall k :: 1 <= k < |keywords| ==> keywords[k] == keywords[1..][k - 1];
      r
  }

  // ---------------------------------------------------------------------------
  // process_entrez_genes, per row

  /** A 'Gene/Insert i' cell: a dict of strings, or anything else. */
  datatype Insert = Record(fields: Dict<string>) | NotRecord

  /** The upper-cased 'Entrez Gene' of a dict cell whose entry is present and non-empty. */
  function EntrezOf(insert: Insert): (r: Option<string>)
    ensures r.Some? ==> insert.Record? && Lookup(insert.fields, "Entrez Gene").Some?
                        && r.value == Upper(Lookup(insert.fields, "Entrez Gene").value) && r.value != []
    ensures r.None? <==> insert.NotRecord? || Lookup(insert.fields, "Entrez Gene") in {None, Some("")}
  {
    match insert
    case NotRecord => None
    case Record(fields) =>
      match Lookup(fields, "Entrez Gene")
      case None => None
      case Some(g) => if g == "" then None else Some(Upper(g))
  }

  /** The row's Entrez list, from the cells 'Gene/Insert 1' to 'Gene/Insert 3' in order. */
  function EntrezGenes(inserts: seq<Insert>): (r: seq<string>)
    ensures |r| <= |inserts|
    ensures forall x :: x in r <==> exists i :: 0 <= i < |inserts| && EntrezOf(inserts[i]) == Some(x)
  {
    if inserts == [] then []
    else
      var last := inserts[|inserts| - 1];
      var init := EntrezGenes(inserts[..|inserts| - 1]);
      assert forall i :: 0 <= i < |inserts| - 1 ==> inserts[..|inserts| - 1][i] == inserts[i];
      init + match EntrezOf(last) case None => [] case Some(g) => [g]
  }

  /** The Entrez list of cells side by side is the lists of each part, in order. */
  lemma {:induction false} EntrezGenesConcat(a: seq<Insert>, b: seq<Insert>)
    ensures EntrezGenes(a + b) == EntrezGenes(a) + EntrezGenes(b)
    decreases |b|
  {
    if b == [] {
      assert a + b == a;
    } else {
      var init := b[..|b| - 1];
      assert (a + b)[..|a + b| - 1] == a + init;
      assert (a + b)[|a + b| - 1] == b[|b| - 1];
      EntrezGenesConcat(a, init);
    }
  }

  /** One cell gives its upper-cased Entrez gene, or nothing when it has none. */
  lemma EntrezGenesOne(insert: Insert)
    ensures EntrezGenes([insert]) == match EntrezOf(insert) case None => [] case Some(g) => [g]
  {
    assert [insert][..0] == [];
  }

  /** A row's list holds the genes of 'Gene/Insert 1', 2 and 3, each when present, in that order. */
  lemma EntrezGenesRow(i1: Insert, i2: Insert, i3: Insert)
    ensures EntrezGenes([i1, i2, i3]) == EntrezGenes([i1]) + EntrezGenes([i2]) + EntrezGenes([i3])
  {
    EntrezGenesConcat([i1], [i2]);
    EntrezGenesConcat([i1, i2], [i3]);
    assert [i1] + [i2] == [i1, i2];
    assert [i1, i2] + [i3] == [i1, i2, i3];
  }

  /** The index of the first occurrence of `x` in `xs`. */
  function IndexIn(xs: seq<string>, x: string): (r: Option<nat>)
    ensures r.None? <==> x !in xs
    ensures r.Some? ==> r.value < |xs| && xs[r.value] == x && x !in xs[..r.value]
  {
    if xs == [] then None
    else if xs[0] == x then Some(0)
    else match IndexIn(xs[1..], x)
      case None => None
      case Some(i) => assert xs[..i + 1] == [xs[0]] + xs[1..][..i]; Some(i + 1)
  }

  const TopEntrez: nat := 20

  /**
   * `common_entrez_priority[g]` for a common gene: its index in the reversed
   * top list, the last assignment of the comprehension winning.
   */
  function Priority(common: seq<string>, g: string): (p: nat)
    requires g in common
    ensures p < |common|
  {
    |common| - 1 - IndexIn(common, g).value
  }

  /**
   * `max` over the row's genes that are common, keyed by priority, `default`
   * when there is none: scanning left to right, a later gene replaces the best
   * only when its priority is strictly higher.
   */
  function BestCommon(genes: seq<string>, common: seq<string>): (r: Option<string>)
    ensures r.None? <==> forall i :: 0 <= i < |genes| ==> genes[i] !in common
    ensures r.Some? ==> r.value in genes && r.value in common
                        && forall i :: 0 <= i < |genes| && genes[i] in common ==> Priority(common, genes[i]) <= Priority(common, r.value)
  {
    if genes == [] then None
    else
      var init := genes[..|genes| - 1];
      var g := genes[|genes| - 1];
      assert forall i :: 0 <= i < |init| ==> init[i] == genes[i];
      var best := BestCommon(init, common);
      if g !in common then best
      else if best.None? || Priority(common, best.value) < Priority(common, g) then Some(g)
      else best
  }

  /** 'Entrez-curated-features' of one row: the most common of its genes among the top 20, or None for `pd.NA`. */
  function CuratedEntrez(inserts: seq<Insert>, ranked: seq<string>): (r: Option<string>)
    ensures r.None? <==> forall i :: 0 <= i < |inserts| ==> EntrezOf(inserts[i]).None? || EntrezOf(inserts[i]).value !in Take(ranked, TopEntrez)
  {
    var genes := EntrezGenes(inserts);
    var r := BestCommon(genes, Take(ranked, TopEntrez));
    assert r.None? ==> forall i :: 0 <= i < |inserts| && EntrezOf(inserts[i]).Some? ==> EntrezOf(inserts[i]).value in genes;
    r
  }

  /** The curated gene is the one ranked highest: no gene of the row comes earlier in the top list. */
  lemma CuratedIsTopRanked(inserts: seq<Insert>, ranked: seq<string>)
    requires CuratedEntrez(inserts, ranked).Some?
    ensures var common := Take(ranked, TopEntrez); var g := CuratedEntrez(inserts, ranked).value;
            g in EntrezGenes(inserts) && g in common
            && forall x :: x in EntrezGenes(inserts) && x in common ==> IndexIn(common, g).value <= IndexIn(common, x).value
  {
    var common := Take(ranked, TopEntrez);
    var genes := EntrezGenes(inserts);
    forall x | x in genes && x in common ensures IndexIn(common, CuratedEntrez(inserts, ranked).value).value <= IndexIn(common, x).value {
      var i :| 0 <= i < |genes| && genes[i] == x;
    }
  }
}
