/**
 * The per-plasmid scraper of org-OpenPlasmid/get_addgene_data.py, with the
 * HTML pages replaced by the facts the scraper reads off them.
 */
module AddgeneData {
  import opened Wrappers
  import opened Text
  import opened Dicts
  import opened Collections
  import opened AddgeneSchema

  // ---------------------------------------------------------------------------
  // clean_text

  const HowToCite: string := "(How to cite)"

  /** Whitespace collapsed: the words of `text`, one space between them, stripped. */
  function Collapse(text: string): string
  {
    StripSpace(Join(" ", Words(text)))
  }

  /** `clean_text`: collapse the whitespace, then delete every "(How to cite)". */
  function CleanText(text: string): string
  {
    Delete(Collapse(text), HowToCite)
  }

  /** The strip is a no-op: joined words neither start nor end with whitespace. */
  lemma CollapseIsJoin(text: string)
    ensures Collapse(text) == Join(" ", Words(text))
    ensures Collapsed(Collapse(text))
  {
    JoinWordsCollapsed(Words(text));
    StripSpaceNoop(Join(" ", Words(text)));
  }

  /**
   * Without a "(How to cite)" to delete, `clean_text` returns the words of its
   * input separated by single spaces, keeps those words, and is idempotent.
   */
  lemma CleanTextNoCite(text: string)
    requires !Contains(Collapse(text), HowToCite)
    ensures CleanText(text) == Join(" ", Words(text))
    ensures Collapsed(CleanText(text))
    ensures Words(CleanText(text)) == Words(text)
    ensures CleanText(CleanText(text)) == CleanText(text)
  {
    CollapseIsJoin(text);
    ReplaceAbsent(Collapse(text), HowToCite, []);
    DeleteIsReplaceAll(Collapse(text), HowToCite);
    WordsOfJoin(Words(text));
    CollapseIsJoin(CleanText(text));
  }

  /** The deletion comes after the strip, so the space before the deleted text stays. */
  lemma CleanTextKeepsSpace()
    ensures CleanText("Foo (How to cite)") == "Foo "
  {
    var ws := ["Foo", "(How", "to", "cite)"];
    FooJoin();
    FooWords();
    WordsOfJoin(ws);
    CollapseIsJoin("Foo (How to cite)");
    DeleteCiteAfterFoo();
  }

  lemma FooJoin()
    ensures Join(" ", ["Foo", "(How", "to", "cite)"]) == "Foo (How to cite)"
  {
    JoinCons(" ", "Foo", ["(How", "to", "cite)"]);
    JoinCons(" ", "(How", ["to", "cite)"]);
    JoinCons(" ", "to", ["cite)"]);
  }

  lemma FooWords()
    ensures var ws := ["Foo", "(How", "to", "cite)"]; forall k :: 0 <= k < |ws| ==> IsWord(ws[k])
  {
  }

  lemma DeleteCiteAfterFoo()
    ensures Delete("Foo (How to cite)", HowToCite) == "Foo "
  {
    assert "Foo (How to cite)" == "Foo " + HowToCite;
    assert '(' !in "Foo ";
    DeleteAfterPrefix("Foo ", HowToCite);
  }

  /** Every character of `clean_text`'s result is a character of its input or a space. */
  lemma CleanTextAvoids(text: string, bad: char -> bool)
    requires Avoids(text, bad) && !bad(' ')
    ensures Avoids(CleanText(text), bad)
  {
    var ws := Words(text);
    forall k | 0 <= k < |ws| ensures Avoids(ws[k], bad) {
      WithinAvoids(ws[k], text, bad);
    }
    JoinAvoids(" ", ws, bad);
    WithinAvoids(Collapse(text), Join(" ", ws), bad);
    WithinAvoids(CleanText(text), Collapse(text), bad);
  }

  // ---------------------------------------------------------------------------
  // extract_sections

  /**
   * One `<li class="field">` of a section's list: the text of its field label
   * (None when it has none), the text after the label, the items of a nested
   * document list and the text of a gene-symbol span, when present.
   */
  datatype Field = Field(labelText: Option<string>, sibling: Option<string>,
                         nested: Option<seq<string>>, geneSymbol: Option<string>)

  /** An `<h2>` header with the fields of the list that follows it. */
  datatype Header = Header(title: string, fields: seq<Field>)

  /** Each item cleaned. */
  function Cleaned(items: seq<string>): (r: seq<string>)
    ensures |r| == |items| && forall i :: 0 <= i < |items| ==> r[i] == CleanText(items[i])
  {
    seq(|items|, i requires 0 <= i < |items| => CleanText(items[i]))
  }

  /**
   * The items of a nested list, cleaned and joined with " ; ": nothing for no
   * item, the one cleaned item, or the first cleaned item, " ; " and the rest.
   */
  function NestedValue(items: seq<string>): (r: string)
    ensures items == [] ==> r == []
    ensures |items| == 1 ==> r == CleanText(items[0])
    ensures |items| > 1 ==> r == CleanText(items[0]) + " ; " + NestedValue(items[1..])
  {
    assert |items| > 1 ==> Cleaned(items)[1..] == Cleaned(items[1..]);
    Join(" ; ", Cleaned(items))
  }

  /** The raw value of a labelled field: the gene symbol, else the nested list, else the stripped sibling text. */
  function FieldValue(f: Field): (v: string)
    ensures f.geneSymbol.Some? ==> v == f.geneSymbol.value
    ensures f.geneSymbol.None? && f.nested.Some? ==> v == NestedValue(f.nested.value)
    ensures f.geneSymbol.None? && f.nested.None? && f.sibling.Some? ==> v == StripSpace(f.sibling.value)
    ensures f.geneSymbol.None? && f.nested.None? && f.sibling.None? ==> v == ""
  {
    if f.geneSymbol.Some? then f.geneSymbol.value
    else if f.nested.Some? then NestedValue(f.nested.value)
    else if f.sibling.Some? then StripSpace(f.sibling.value)
    else ""
  }

  /** The (label, value) assignments a list makes, in order; unlabelled fields make none. */
  function FieldPairs(fields: seq<Field>): (ps: seq<(string, Value)>)
    ensures |ps| <= |fields|
    ensures forall k :: 0 <= k < |ps| ==> ps[k].1.Str?
  {
    if fields == [] then []
    else
      var f := fields[|fields| - 1];
      var init := FieldPairs(fields[..|fields| - 1]);
      if f.labelText.Some? then init + [(CleanText(f.labelText.value), Str(CleanText(FieldValue(f))))] else init
  }

  /** A section's data: its assignments applied in order, a later label overwriting an earlier one. */
  function SectionData(h: Header): Dict<Value>
  {
    Assign(FieldPairs(h.fields))
  }

  /** The cleaned title, with the two renamings that keep the first insert apart from the numbered ones. */
  function FinalTitle(title: string): (t: string)
    ensures title == "Gene/Insert" ==> t == "Gene/Insert 1"
    ensures title == "Cloning Information" ==> t == "Cloning Information for Gene/Insert 1"
    ensures title != "Gene/Insert" && title != "Cloning Information" ==> t == title
  {
    if title == "Gene/Insert" then title + " 1"
    else if title == "Cloning Information" then title + " for Gene/Insert 1"
    else title
  }

  /**
   * Two cleaned titles end up as "Gene/Insert 1": the bare "Gene/Insert" and
   * "Gene/Insert 1" itself; likewise for the first cloning information.
   */
  lemma FinalTitleCollisions(title: string)
    ensures FinalTitle(title) == "Gene/Insert 1" <==> title == "Gene/Insert" || title == "Gene/Insert 1"
    ensures FinalTitle(title) == "Cloning Information for Gene/Insert 1"
            <==> title == "Cloning Information" || title == "Cloning Information for Gene/Insert 1"
  {
    if title == "Cloning Information" {
      assert |FinalTitle(title)| != |"Gene/Insert 1"|;
    } else if title == "Gene/Insert" {
      assert |FinalTitle(title)| != |"Cloning Information for Gene/Insert 1"|;
    }
  }

  /** Whether a header contributes a section: its title is not skipped and its list yields some data. */
  predicate Kept(h: Header)
  {
    !StartsWith(CleanText(h.title), "Information for") && FieldPairs(h.fields) != []
  }

  /** The (title, section data) assignments the headers make, in order. */
  function SectionPairs(hs: seq<Header>): (ps: seq<(string, Value)>)
    ensures |ps| <= |hs|
  {
    if hs == [] then []
    else
      var h := hs[|hs| - 1];
      var init := SectionPairs(hs[..|hs| - 1]);
      if Kept(h) then init + [(FinalTitle(CleanText(h.title)), Map(SectionData(h)))] else init
  }

  /** `dict(pairs)` is empty exactly when there are no pairs. */
  lemma AssignEmpty(ps: seq<(string, Value)>)
    ensures Assign(ps) == [] <==> ps == []
  {
    if ps != [] {
      AssignLookup(ps, ps[|ps| - 1].0);
    }
  }

  /** Assigning the pairs of `ps` one by one, starting from `d`. */
  lemma AssignSnoc(ps: seq<(string, Value)>, k: string, v: Value)
    ensures Assign(ps + [(k, v)]) == Set(Assign(ps), k, v)
  {
    assert (ps + [(k, v)])[..|ps|] == ps;
  }

  lemma FieldPairsSnoc(fields: seq<Field>, j: nat)
    requires j < |fields|
    ensures FieldPairs(fields[..j + 1]) == if fields[j].labelText.Some?
              then FieldPairs(fields[..j]) + [(CleanText(fields[j].labelText.value), Str(CleanText(FieldValue(fields[j]))))]
              else FieldPairs(fields[..j])
  {
    assert fields[..j + 1][..j] == fields[..j];
  }

  lemma SectionPairsSnoc(hs: seq<Header>, i: nat)
    requires i < |hs|
    ensures SectionPairs(hs[..i + 1]) == if Kept(hs[i])
              then SectionPairs(hs[..i]) + [(FinalTitle(CleanText(hs[i].title)), Map(SectionData(hs[i])))]
              else SectionPairs(hs[..i])
  {
    assert hs[..i + 1][..i] == hs[..i];
  }

  /** `extract_sections`: walk the headers and their fields, filling each section's dict, then the result, in place. */
  method ExtractSections(hs: seq<Header>) returns (sections: Dict<Value>)
    ensures sections == Assign(SectionPairs(hs))
  {
    sections := [];
    for i := 0 to |hs|
      invariant sections == Assign(SectionPairs(hs[..i]))
    {
      var h := hs[i];
      SectionPairsSnoc(hs, i);
      var title := CleanText(h.title);
      if StartsWith(title, "Information for") {
        continue;
      }
      var data := ExtractFields(h.fields);
      AssignEmpty(FieldPairs(h.fields));
      if data != [] {
        title := FinalTitle(title);
        AssignSnoc(SectionPairs(hs[..i]), title, Map(data));
        sections := Set(sections, title, Map(data));
      }
    }
    assert hs[..|hs|] == hs;
  }

  /** The inner loop of `extract_sections`: each labelled field of one list assigns its cleaned value. */
  method ExtractFields(fields: seq<Field>) returns (data: Dict<Value>)
    ensures data == Assign(FieldPairs(fields))
  {
    data := [];
    for j := 0 to |fields|
      invariant data == Assign(FieldPairs(fields[..j]))
    {
      var f := fields[j];
      FieldPairsSnoc(fields, j);
      if f.labelText.Some? {
        var labelText := CleanText(f.labelText.value);
        var value := if f.sibling.Some? then StripSpace(f.sibling.value) else "";
        if f.nested.Some? {
          value := NestedValue(f.nested.value);
        }
        if f.geneSymbol.Some? {
          value := f.geneSymbol.value;
        }
        assert value == FieldValue(f);
        AssignSnoc(FieldPairs(fields[..j]), labelText, Str(CleanText(value)));
        data := Set(data, labelText, Str(CleanText(value)));
      }
    }
    assert fields[..|fields|] == fields;
  }

  /** A header that contributes overwrites whatever an earlier header with the same final title left. */
  lemma LaterSectionWins(hs: seq<Header>, h: Header)
    requires Kept(h)
    ensures Lookup(Assign(SectionPairs(hs + [h])), FinalTitle(CleanText(h.title))) == Some(Map(SectionData(h)))
  {
    assert (hs + [h])[..|hs|] == hs;
  }

  /** A skipped header, or one whose list yields no data, changes nothing. */
  lemma DroppedSectionNoop(hs: seq<Header>, h: Header)
    requires !Kept(h)
    ensures Assign(SectionPairs(hs + [h])) == Assign(SectionPairs(hs))
  {
    assert (hs + [h])[..|hs|] == hs;
  }

  /** Whether header `h` contributes a section under the final title `t`. */
  predicate KeptAs(h: Header, t: string)
  {
    Kept(h) && FinalTitle(CleanText(h.title)) == t
  }

  /** The last position holding `true`. */
  function LastTrue(bs: seq<bool>): (r: Option<nat>)
    ensures r.None? ==> forall i :: 0 <= i < |bs| ==> !bs[i]
    ensures r.Some? ==> r.value < |bs| && bs[r.value] && forall i :: r.value < i < |bs| ==> !bs[i]
  {
    if bs == [] then None
    else if bs[|bs| - 1] then Some(|bs| - 1)
    else
      var r := LastTrue(bs[..|bs| - 1]);
      assert forall i :: 0 <= i < |bs| - 1 ==> bs[..|bs| - 1][i] == bs[i];
      r
  }

  /** For each header, whether it contributes a section under the final title `t`. */
  function KeptFlags(hs: seq<Header>, t: string): (bs: seq<bool>)
    ensures |bs| == |hs| && forall i :: 0 <= i < |hs| ==> bs[i] == KeptAs(hs[i], t)
  {
    seq(|hs|, i requires 0 <= i < |hs| => KeptAs(hs[i], t))
  }

  /** The last header that contributes a section under the final title `t`. */
  function LastKeptAs(hs: seq<Header>, t: string): (r: Option<nat>)
    ensures r.None? ==> forall i :: 0 <= i < |hs| ==> !KeptAs(hs[i], t)
    ensures r.Some? ==> r.value < |hs| && KeptAs(hs[r.value], t)
                        && forall i :: r.value < i < |hs| ==> !KeptAs(hs[i], t)
  {
    LastTrue(KeptFlags(hs, t))
  }

  /** A header that contributes under `t`, with none after it that does, is the last one. */
  lemma LastKeptAsIs(hs: seq<Header>, t: string, i: nat)
    requires i < |hs| && KeptAs(hs[i], t)
    requires forall j :: i < j < |hs| ==> !KeptAs(hs[j], t)
    ensures LastKeptAs(hs, t) == Some(i)
  {
    var bs := KeptFlags(hs, t);
    assert bs[i];
    assert forall j :: i < j < |bs| ==> !bs[j];
    var r := LastTrue(bs);
    assert r.Some? && r.value == i;
  }

  /** A last header that does not contribute under `t` leaves the choice to the headers before it. */
  lemma LastKeptAsInit(hs: seq<Header>, t: string)
    requires hs != [] && !KeptAs(hs[|hs| - 1], t)
    ensures LastKeptAs(hs, t) == LastKeptAs(hs[..|hs| - 1], t)
  {
    var bs, init := KeptFlags(hs, t), KeptFlags(hs[..|hs| - 1], t);
    assert bs[..|bs| - 1] == init;
    assert !bs[|bs| - 1];
  }

  /** One more header: it wins under `t` when it contributes there, and leaves `t` alone otherwise. */
  lemma SectionLookupSnoc(hs: seq<Header>, t: string)
    requires hs != []
    ensures var init, h := hs[..|hs| - 1], hs[|hs| - 1];
            Lookup(Assign(SectionPairs(hs)), t) ==
              if KeptAs(h, t) then Some(Map(SectionData(h))) else Lookup(Assign(SectionPairs(init)), t)
  {
    var init, h := hs[..|hs| - 1], hs[|hs| - 1];
    var title := FinalTitle(CleanText(h.title));
    if Kept(h) {
      assert SectionPairs(hs) == SectionPairs(init) + [(title, Map(SectionData(h)))];
      AssignSnoc(SectionPairs(init), title, Map(SectionData(h)));
    } else {
      assert SectionPairs(hs) == SectionPairs(init);
    }
  }

  /** The section stored under `t` is the data of the last header that contributes one under that title. */
  lemma {:induction false} SectionLookup(hs: seq<Header>, t: string)
    ensures Lookup(Assign(SectionPairs(hs)), t) == match LastKeptAs(hs, t)
                                                   case None => None
                                                   case Some(i) => Some(Map(SectionData(hs[i])))
  {
    if hs != [] {
      var init, h := hs[..|hs| - 1], hs[|hs| - 1];
      SectionLookup(init, t);
      SectionLookupSnoc(hs, t);
      if KeptAs(h, t) {
        LastKeptAsIs(hs, t, |hs| - 1);
      } else {
        LastKeptAsInit(hs, t);
        match LastKeptAs(init, t)
        case None =>
        case Some(i) => assert init[i] == hs[i];
      }
    }
  }

  /**
   * The section under "Gene/Insert 1" is that of the last contributing header
   * whose cleaned title is "Gene/Insert" or "Gene/Insert 1": the renaming makes
   * the two titles overwrite each other.
   */
  lemma GeneInsertOneSection(hs: seq<Header>, i: nat)
    requires i < |hs| && Kept(hs[i])
    requires CleanText(hs[i].title) == "Gene/Insert" || CleanText(hs[i].title) == "Gene/Insert 1"
    requires forall j :: i < j < |hs| && Kept(hs[j]) ==>
               CleanText(hs[j].title) != "Gene/Insert" && CleanText(hs[j].title) != "Gene/Insert 1"
    ensures Lookup(Assign(SectionPairs(hs)), "Gene/Insert 1") == Some(Map(SectionData(hs[i])))
  {
    var t := "Gene/Insert 1";
    FinalTitleCollisions(CleanText(hs[i].title));
    assert KeptAs(hs[i], t);
    forall j | i < j < |hs| ensures !KeptAs(hs[j], t) {
      FinalTitleCollisions(CleanText(hs[j].title));
    }
    LastKeptAsIs(hs, t, i);
    SectionLookup(hs, t);
  }

  /** A stored section: not under a skipped title nor under either unrenamed title, and not empty. */
  predicate StoredSection(p: (string, Value))
  {
    && !StartsWith(p.0, "Information for")
    && p.0 != "Gene/Insert"
    && p.0 != "Cloning Information"
    && p.1.Map? && p.1.entries != []
  }

  lemma KeptSection(h: Header)
    requires Kept(h)
    ensures StoredSection((FinalTitle(CleanText(h.title)), Map(SectionData(h))))
  {
    var title := CleanText(h.title);
    var t := FinalTitle(title);
    if title == "Gene/Insert" {
      assert |t| < |"Information for"|;
    } else if title == "Cloning Information" {
      assert t[..15][0] != "Information for"[0];
    }
    AssignEmpty(FieldPairs(h.fields));
  }

  /** Every section `extract_sections` stores satisfies StoredSection. */
  lemma {:induction false} SectionTitles(hs: seq<Header>)
    ensures forall k :: 0 <= k < |SectionPairs(hs)| ==> StoredSection(SectionPairs(hs)[k])
  {
    if hs != [] {
      var h := hs[|hs| - 1];
      SectionTitles(hs[..|hs| - 1]);
      if Kept(h) {
        KeptSection(h);
      }
    }
  }

  // ---------------------------------------------------------------------------
  // get_sequence and extract_file_links

  /** The sequence sections in priority order. */
  const SectionIds: seq<string> := ["addgene-full", "depositor-full", "addgene-partial", "depositor-partial"]

  /**
   * The sequences page as `get_sequence` sees it: the HTTP status, and for each
   * section id present on the page the href of its GenBank download link, if any.
   */
  datatype SequencesPage = SequencesPage(status: int, sections: map<string, Option<string>>)

  /** What `get_sequence` returns: a (link, type) pair, or the 4-tuple of Nones on a failed request. */
  datatype SequenceResult = Pair(link: Option<string>, sequenceType: Option<string>) | Quad

  /** The first of `ids` present among `sections`. */
  function FirstPresent(sections: map<string, Option<string>>, ids: seq<string>): (r: Option<nat>)
    ensures r.None? ==> forall i :: 0 <= i < |ids| ==> ids[i] !in sections
    ensures r.Some? ==> r.value < |ids| && ids[r.value] in sections
                        && forall i :: 0 <= i < r.value ==> ids[i] !in sections
  {
    if ids == [] then None
    else if ids[0] in sections then Some(0)
    else match FirstPresent(sections, ids[1..])
      case None => None
      case Some(i) => Some(i + 1)
  }

  /** Only the first two section ids contain "full". */
  lemma SectionTypes()
    ensures forall i :: 0 <= i < |SectionIds| ==> (Contains(SectionIds[i], "full") <==> i < 2)
  {
    assert OccursAt(SectionIds[0], "full", 8);
    assert OccursAt(SectionIds[1], "full", 10);
    forall i, k: nat | 2 <= i < 4 && k <= |SectionIds[i]| ensures !OccursAt(SectionIds[i], "full", k) {
      var id := SectionIds[i];
      assert forall j :: 0 <= j < |id| ==> id[j] != 'f';
      if k + 4 <= |id| {
        assert id[k..k + 4][0] == id[k];
      }
    }
  }

  /** The type a section id stands for. */
  function TypeOf(i: nat): string
  {
    if i < 2 then "full" else "partial"
  }

  /**
   * `get_sequence`: on a successful request, the first present section in
   * priority order decides the type, and its link if it has one; later sections
   * are not tried. With no section present the type is that of the last id tried.
   */
  method GetSequence(page: SequencesPage) returns (r: SequenceResult)
    ensures r.Quad? <==> page.status != 200
    ensures page.status == 200 ==>
              r == match FirstPresent(page.sections, SectionIds)
                   case None => Pair(None, Some("partial"))
                   case Some(i) => Pair(page.sections[SectionIds[i]], Some(TypeOf(i)))
  {
    if page.status != 200 {
      return Quad;
    }
    SectionTypes();
    var sequenceType: Option<string> := None;
    var genbankLink: Option<string> := None;
    for i := 0 to |SectionIds|
      invariant forall j :: 0 <= j < i ==> SectionIds[j] !in page.sections
      invariant genbankLink.None?
      invariant sequenceType == if i == 0 then None else Some(TypeOf(i - 1))
    {
      var sectionId := SectionIds[i];
      sequenceType := if Contains(sectionId, "full") then Some("full") else Some("partial");
      if sectionId in page.sections {
        var genbankTag := page.sections[sectionId];
        if genbankTag.Some? {
          genbankLink := genbankTag;
        }
        return Pair(genbankLink, sequenceType);
      }
    }
    return Pair(genbankLink, sequenceType);
  }

  /** A present string, or None. */
  function OptStr(o: Option<string>): (v: Value)
    ensures o.None? ==> v == Null
    ensures o.Some? ==> v == Str(o.value)
  {
    match o
    case None => Null
    case Some(s) => Str(s)
  }

  /**
   * `extract_file_links`: the main page's GenBank link, typed "full", or else what
   * `get_sequence` finds; unpacking its 4-tuple into two names raises ValueError.
   */
  method ExtractFileLinks(genbankLink: Option<string>, sequences: SequencesPage) returns (r: Result<Dict<Value>, string>)
    ensures genbankLink.Some? ==> r == Ok([("GenBank File", Str(genbankLink.value)), ("Sequence Type", Str("full"))])
    ensures genbankLink.None? ==> (r.Err? <==> sequences.status != 200)
    ensures r.Ok? ==> Keys(r.value) == ["GenBank File", "Sequence Type"] && !r.value[0].1.Map?
    ensures genbankLink.None? && sequences.status == 200 ==>
              r == Ok([("GenBank File", OptStr(FirstLink(sequences.sections))), ("Sequence Type", Str(FirstType(sequences.sections)))])
  {
    var files: Dict<Value> := [("GenBank File", Null)];
    // Both branches assign the same two keys; only the values differ.
    var link, sequenceType;
    if genbankLink.Some? {
      link, sequenceType := Str(genbankLink.value), Str("full");
    } else {
      var found := GetSequence(sequences);
      if found.Quad? {
        return Err("ValueError: too many values to unpack (expected 2)");
      }
      link, sequenceType := OptStr(found.link), OptStr(found.sequenceType);
    }
    files := Set(files, "GenBank File", link);
    files := Set(files, "Sequence Type", sequenceType);
    FileLinksDict(link, sequenceType);
    return Ok(files);
  }

  /** The two assignments of `extract_file_links`, starting from `{'GenBank File': None}`. */
  lemma FileLinksDict(link: Value, sequenceType: Value)
    ensures Set(Set([("GenBank File", Null)], "GenBank File", link), "Sequence Type", sequenceType)
            == [("GenBank File", link), ("Sequence Type", sequenceType)]
    ensures Keys([("GenBank File", link), ("Sequence Type", sequenceType)]) == ["GenBank File", "Sequence Type"]
  {
    var d0: Dict<Value> := [("GenBank File", Null)];
    assert Position(d0, "GenBank File") == Some(0);
    var d1 := Set(d0, "GenBank File", link);
    assert d1 == [("GenBank File", link)];
    assert Position(d1, "Sequence Type") == None;
  }

  /** The link of the first present sequence section; None when there is none or it has no link. */
  function FirstLink(sections: map<string, Option<string>>): Option<string>
  {
    match FirstPresent(sections, SectionIds)
    case None => None
    case Some(i) => sections[SectionIds[i]]
  }

  /** The type of the first present sequence section; "partial" when there is none. */
  function FirstType(sections: map<string, Option<string>>): string
  {
    match FirstPresent(sections, SectionIds)
    case None => "partial"
    case Some(i) => TypeOf(i)
  }

  // ---------------------------------------------------------------------------
  // extract_references

  /** A character of the DOI suffix class `[-._;()/:A-Z0-9]`, matched ignoring case. */
  predicate DoiChar(c: char)
  {
    || c == '-' || c == '.' || c == '_' || c == ';' || c == '(' || c == ')' || c == '/' || c == ':'
    || IsAsciiUpper(c) || IsAsciiLower(c) || IsAsciiDigit(c)
  }

  /** The length of the run of ASCII digits that starts at `i`. */
  function DigitRun(s: string, i: nat): (n: nat)
    requires i <= |s|
    ensures i + n <= |s|
    ensures forall j :: i <= j < i + n ==> IsAsciiDigit(s[j])
    ensures i + n < |s| ==> !IsAsciiDigit(s[i + n])
    decreases |s| - i
  {
    if i < |s| && IsAsciiDigit(s[i]) then 1 + DigitRun(s, i + 1) else 0
  }

  /** The length of the run of suffix-class characters that starts at `i`. */
  function SuffixRun(s: string, i: nat): (n: nat)
    requires i <= |s|
    ensures i + n <= |s|
    ensures forall j :: i <= j < i + n ==> DoiChar(s[j])
    ensures i + n < |s| ==> !DoiChar(s[i + n])
    decreases |s| - i
  {
    if i < |s| && DoiChar(s[i]) then 1 + SuffixRun(s, i + 1) else 0
  }

  /** "10." occurs at `i`. */
  predicate TenDotAt(s: string, i: nat)
  {
    i + 3 <= |s| && s[i] == '1' && s[i + 1] == '0' && s[i + 2] == '.'
  }

  /**
   * The DOI pattern `10\.\d{4,9}/[-._;()/:A-Z0-9]+` (case-insensitive) matches
   * `s[i..i + len]` with `n` digits before the '/': "10.", the digits, '/' and
   * at least one character of the suffix class.
   */
  predicate DoiShape(s: string, i: nat, n: nat, len: nat)
  {
    && 4 <= n <= 9 && 4 + n < len && i + len <= |s| && TenDotAt(s, i)
    && (forall k :: i + 3 <= k < i + 3 + n ==> IsAsciiDigit(s[k]))
    && s[i + 3 + n] == '/'
    && (forall k :: i + 4 + n <= k < i + len ==> DoiChar(s[k]))
  }

  /** The pattern matches `s[i..i + len]`, with some digit count. */
  ghost predicate PatternAt(s: string, i: nat, len: nat)
  {
    exists n: nat :: DoiShape(s, i, n, len)
  }

  /**
   * The length of the match of the pattern starting at `i`, if any.
   * The digit run must be 4 to 9 long: after nine digits a tenth is not '/', and
   * giving digits back leaves a digit, not '/', next. The suffix run is greedy.
   */
  function DoiMatchAt(s: string, i: nat): (r: Option<nat>)
    requires i <= |s|
  {
    if !TenDotAt(s, i) then None
    else
      var n := DigitRun(s, i + 3);
      if n < 4 || 9 < n || i + 3 + n == |s| || s[i + 3 + n] != '/' then None
      else
        var m := SuffixRun(s, i + 4 + n);
        if m == 0 then None else Some(4 + n + m)
  }

  /**
   * `DoiMatchAt` reports a match exactly where the pattern matches at `i`, and
   * then the longest text it matches there, which is what the greedy regex takes.
   */
  lemma DoiMatchAtExact(s: string, i: nat)
    requires i <= |s|
    ensures DoiMatchAt(s, i).None? <==> forall len: nat :: !PatternAt(s, i, len)
    ensures DoiMatchAt(s, i).Some? ==> PatternAt(s, i, DoiMatchAt(s, i).value)
    ensures DoiMatchAt(s, i).Some? ==> forall len: nat :: PatternAt(s, i, len) ==> len <= DoiMatchAt(s, i).value
  {
    forall len: nat | PatternAt(s, i, len)
      ensures DoiMatchAt(s, i).Some? && len <= DoiMatchAt(s, i).value
    {
      var n :| DoiShape(s, i, n, len);
      assert DigitRun(s, i + 3) == n;
    }
    if DoiMatchAt(s, i).Some? {
      var n := DigitRun(s, i + 3);
      var m := SuffixRun(s, i + 4 + n);
      assert DoiShape(s, i, n, 4 + n + m);
      assert PatternAt(s, i, 4 + n + m);
    }
  }

  /** `re.search`: the leftmost match at or after `i`, as (start, length). */
  function FirstDoiFrom(s: string, i: nat): (r: Option<(nat, nat)>)
    requires i <= |s|
    ensures r.None? ==> forall j :: i <= j <= |s| ==> DoiMatchAt(s, j).None?
    ensures r.Some? ==> i <= r.value.0 <= |s| && DoiMatchAt(s, r.value.0) == Some(r.value.1)
                        && forall j :: i <= j < r.value.0 ==> DoiMatchAt(s, j).None?
    decreases |s| - i
  {
    var here := DoiMatchAt(s, i);
    if here.Some? then Some((i, here.value))
    else if i == |s| then None
    else
      var rest := FirstDoiFrom(s, i + 1);
      assert forall j :: i <= j <= i ==> DoiMatchAt(s, j).None?;
      rest
  }

  /** The pattern matches nowhere in `s`. */
  ghost predicate NoDoi(s: string)
  {
    forall k: nat, len: nat :: k <= |s| ==> !PatternAt(s, k, len)
  }

  /**
   * `doi` is what `re.search` finds at `k`: the pattern matches nowhere before
   * `k`, matches `doi` at `k`, and matches nothing longer there.
   */
  ghost predicate LeftmostDoi(s: string, doi: string, k: nat)
  {
    && OccursAt(s, doi, k) && PatternAt(s, k, |doi|)
    && (forall len: nat :: PatternAt(s, k, len) ==> len <= |doi|)
    && (forall j: nat, len: nat :: j < k ==> !PatternAt(s, j, len))
  }

  /**
   * `ref_data['DOI']`: the text of the first match, or '' exactly when the
   * pattern matches nowhere in the citation.
   */
  function DoiOf(fullText: string): (doi: string)
    ensures doi == [] <==> NoDoi(fullText)
    ensures doi != [] ==> StartsWith(doi, "10.") && exists k: nat :: LeftmostDoi(fullText, doi, k)
  {
    var first := FirstDoiFrom(fullText, 0);
    if first.None? then
      assert NoDoi(fullText) by {
        forall k: nat, len: nat | k <= |fullText| ensures !PatternAt(fullText, k, len) {
          DoiMatchAtExact(fullText, k);
        }
      }
      []
    else
      var (i, n) := first.value;
      DoiMatchAtExact(fullText, i);
      var doi := fullText[i..i + n];
      assert LeftmostDoi(fullText, doi, i) by {
        forall j: nat, len: nat | j < i ensures !PatternAt(fullText, j, len) {
          DoiMatchAtExact(fullText, j);
        }
      }
      TenDotPrefix(doi);
      doi
  }

  lemma TenDotPrefix(t: string)
    requires TenDotAt(t, 0)
    ensures StartsWith(t, "10.")
  {
  }

  const DoiSample: string := "10.12/x 10.1234/ab c"

  /**
   * The search skips "10.12/x", whose two digits are too few, and takes the
   * next DOI up to the first character outside the suffix class.
   */
  lemma DoiExample()
    ensures DoiOf(DoiSample) == "10.1234/ab"
  {
    DoiSampleFirst();
    DoiSampleText();
  }

  lemma DoiSampleFirst()
    ensures FirstDoiFrom(DoiSample, 0) == Some((8, 10))
  {
    DoiSampleSkip();
    DoiSampleMatch();
  }

  lemma DoiSampleText()
    ensures DoiSample[8..18] == "10.1234/ab"
  {
  }

  lemma DoiSampleSkip()
    ensures forall j :: 0 <= j < 8 ==> DoiMatchAt(DoiSample, j).None?
  {
    var s := DoiSample;
    assert DigitRun(s, 5) == 0;
    assert DigitRun(s, 3) == 2;
    forall j | 1 <= j < 8 ensures !TenDotAt(s, j) {
      assert s[1] == '0' && s[2] == '.' && s[3] == '1' && s[4] == '2';
    }
  }

  lemma DoiSampleMatch()
    ensures DoiMatchAt(DoiSample, 8) == Some(10)
  {
    var s := DoiSample;
    assert TenDotAt(s, 8);
    DoiSampleDigits();
    DoiSampleSuffix();
  }

  lemma DoiSampleDigits()
    ensures DigitRun(DoiSample, 11) == 4
  {
    var s := DoiSample;
    assert !IsAsciiDigit(s[15]);
    assert DigitRun(s, 15) == 0;
    assert DigitRun(s, 14) == 1;
    assert DigitRun(s, 13) == 2;
    assert DigitRun(s, 12) == 3;
  }

  lemma DoiSampleSuffix()
    ensures SuffixRun(DoiSample, 16) == 2
  {
    var s := DoiSample;
    assert !DoiChar(s[18]);
    assert SuffixRun(s, 18) == 0;
    assert SuffixRun(s, 17) == 1;
  }

  /** Every run of ASCII digits deleted: no digit remains. */
  function RemoveDigits(s: string): (r: string)
    ensures CharsWithin(r, s) && |r| <= |s|
    ensures forall i :: 0 <= i < |r| ==> !IsAsciiDigit(r[i])
    ensures (forall i :: 0 <= i < |s| ==> !IsAsciiDigit(s[i])) ==> r == s
  {
    if s == [] then []
    else if IsAsciiDigit(s[0]) then RemoveDigits(s[1..])
    else [s[0]] + RemoveDigits(s[1..])
  }

  /** Deleting digits piece by piece: the non-digits keep their order. */
  lemma {:induction false} RemoveDigitsConcat(a: string, b: string)
    ensures RemoveDigits(a + b) == RemoveDigits(a) + RemoveDigits(b)
  {
    if a == [] {
      assert a + b == b;
    } else {
      assert (a + b)[0] == a[0] && (a + b)[1..] == a[1..] + b;
      RemoveDigitsConcat(a[1..], b);
    }
  }

  /** No digit and no '.': what the author cleanup promises. */
  predicate AuthorsClean(a: string)
  {
    forall i :: 0 <= i < |a| ==> !IsAsciiDigit(a[i]) && a[i] != '.'
  }

  /** One step of the author cleanup. */
  datatype AuthorStep = DropText(pat: string) | DropDigits | StripEnds | CleanUp

  function ApplyStep(s: string, step: AuthorStep): string
  {
    match step
    case DropText(pat) => Delete(s, pat)
    case DropDigits => RemoveDigits(s)
    case StripEnds => StripSpace(s)
    case CleanUp => CleanText(s)
  }

  /** The steps applied in order. */
  function RunSteps(s: string, steps: seq<AuthorStep>): string
    decreases |steps|
  {
    if steps == [] then s else ApplyStep(RunSteps(s, steps[..|steps| - 1]), steps[|steps| - 1])
  }

  /**
   * The author cleanup: delete the title, the publication and the DOI from the
   * citation text, then the digits and "PubMed", strip, delete every '.', strip,
   * and clean the rest.
   */
  function AuthorSteps(title: string, publication: string, doi: string): seq<AuthorStep>
  {
    [DropText(title), DropText(publication), DropText(doi), DropDigits, DropText("PubMed"), StripEnds,
     DropText("."), StripEnds, CleanUp]
  }

  function CleanAuthors(fullText: string, title: string, publication: string, doi: string): string
  {
    RunSteps(fullText, AuthorSteps(title, publication, doi))
  }

  /** Running two lists of steps one after the other. */
  lemma {:induction false} RunStepsAppend(s: string, a: seq<AuthorStep>, b: seq<AuthorStep>)
    ensures RunSteps(s, a + b) == RunSteps(RunSteps(s, a), b)
    decreases |b|
  {
    if b == [] {
      assert a + b == a;
    } else {
      assert (a + b)[..|a + b| - 1] == a + b[..|b| - 1];
      RunStepsAppend(s, a, b[..|b| - 1]);
    }
  }

  /** No step brings in a character other than a space. */
  lemma {:induction false} RunStepsAvoid(s: string, steps: seq<AuthorStep>, bad: char -> bool)
    requires Avoids(s, bad) && !bad(' ')
    ensures Avoids(RunSteps(s, steps), bad)
    decreases |steps|
  {
    if steps != [] {
      var x := RunSteps(s, steps[..|steps| - 1]);
      RunStepsAvoid(s, steps[..|steps| - 1], bad);
      match steps[|steps| - 1]
      case DropText(pat) => WithinAvoids(Delete(x, pat), x, bad);
      case DropDigits => WithinAvoids(RemoveDigits(x), x, bad);
      case StripEnds => WithinAvoids(StripSpace(x), x, bad);
      case CleanUp => CleanTextAvoids(x, bad);
    }
  }

  predicate DigitOrDot(c: char)
  {
    IsAsciiDigit(c) || c == '.'
  }

  /** Digits dropped at the fourth step and '.' at the seventh: neither is left after seven steps. */
  lemma SevenSteps(s: string, steps: seq<AuthorStep>)
    requires |steps| >= 7 && steps[3] == DropDigits && steps[6] == DropText(".")
    ensures Avoids(RunSteps(s, steps[..7]), DigitOrDot)
  {
    var x6 := RunSteps(s, steps[..6]);
    SixSteps(s, steps);
    assert steps[..7][..6] == steps[..6];
    var x7 := RunSteps(s, steps[..7]);
    assert x7 == Delete(x6, ".");
    DeleteCharGone(x6, '.');
    WithinAvoids(x7, x6, IsAsciiDigit);
  }

  /** Digits dropped at the fourth step stay out through the sixth. */
  lemma SixSteps(s: string, steps: seq<AuthorStep>)
    requires |steps| >= 6 && steps[3] == DropDigits
    ensures Avoids(RunSteps(s, steps[..6]), IsAsciiDigit)
  {
    var x4 := RunSteps(s, steps[..4]);
    assert steps[..4][..3] == steps[..3];
    assert x4 == RemoveDigits(RunSteps(s, steps[..3]));
    assert steps[..6] == steps[..4] + steps[4..6];
    RunStepsAppend(s, steps[..4], steps[4..6]);
    RunStepsAvoid(x4, steps[4..6], IsAsciiDigit);
  }

  /** Steps that drop the digits fourth and the '.' seventh leave neither behind. */
  lemma StepsClean(s: string, steps: seq<AuthorStep>)
    requires |steps| >= 7 && steps[3] == DropDigits && steps[6] == DropText(".")
    ensures AuthorsClean(RunSteps(s, steps))
  {
    SevenSteps(s, steps);
    assert steps == steps[..7] + steps[7..];
    RunStepsAppend(s, steps[..7], steps[7..]);
    RunStepsAvoid(RunSteps(s, steps[..7]), steps[7..], DigitOrDot);
  }

  /** Every character of `a` is one of `s` or a space. */
  predicate DrawnFrom(a: string, s: string)
  {
    forall i :: 0 <= i < |a| ==> a[i] in s || a[i] == ' '
  }

  /** Every character the steps leave comes from the text or is a space. */
  lemma StepsFromText(s: string, steps: seq<AuthorStep>)
    ensures DrawnFrom(RunSteps(s, steps), s)
  {
    RunStepsAvoid(s, steps, c => c !in s && c != ' ');
  }

  /** The cleaned authors hold no digit and no '.', and only characters of the citation or spaces. */
  lemma CleanAuthorsClean(fullText: string, title: string, publication: string, doi: string)
    ensures AuthorsClean(CleanAuthors(fullText, title, publication, doi))
    ensures DrawnFrom(CleanAuthors(fullText, title, publication, doi), fullText)
  {
    var steps := AuthorSteps(title, publication, doi);
    StepsClean(fullText, steps);
    StepsFromText(fullText, steps);
  }

  /**
   * A `<cite>` element: the text of its `<strong>` and `<i>` children when
   * present, its whole text joined with spaces, and the href and text of its
   * first link.
   */
  datatype Cite = Cite(strong: Option<string>, italic: Option<string>, fullText: string,
                       pubmedLink: Option<(string, string)>)

  /** A `<p>`: its text, and the `<cite>` in the reference box that follows it, if both exist. */
  datatype Paragraph = Paragraph(text: string, cite: Option<Cite>)

  function TitleOf(c: Cite): string
  {
    if c.strong.Some? then CleanText(c.strong.value) else ""
  }

  /** The keys of a reference dict, in order. */
  function RefKeys(c: Cite): seq<string>
  {
    ["Title", "Publication", "DOI", "Authors"] + if c.pubmedLink.Some? then ["PubMed Link", "PubMed ID"] else []
  }

  /** What a reference dict built from `c` holds. */
  predicate RefFacts(d: Dict<Value>, c: Cite)
    requires c.italic.Some?
  {
    && Keys(d) == RefKeys(c)
    && d[0].1 == Str(TitleOf(c))
    && d[1].1 == Str(CleanText(c.italic.value))
    && d[2].1 == Str(DoiOf(c.fullText))
    && d[3].1 == Str(CleanAuthors(c.fullText, TitleOf(c), CleanText(c.italic.value), DoiOf(c.fullText)))
    && (c.pubmedLink.Some? ==> d[4].1 == Str(c.pubmedLink.value.0) && d[5].1 == Str(CleanText(c.pubmedLink.value.1)))
  }

  /**
   * The reference dict of one citation. Without an `<i>` the publication is never
   * set, and reading it for the author cleanup raises KeyError.
   */
  method RefData(c: Cite) returns (r: Result<Dict<Value>, string>)
    ensures r.Err? <==> c.italic.None?
    ensures r.Ok? ==> RefFacts(r.value, c) && r.value == RefDict(c)
  {
    // Every assignment below is to a key not yet present, so it appends (Dicts.SetNew).
    var refData: Dict<Value> := [];
    var title := TitleOf(c);
    refData := refData + [("Title", Str(title))];
    ghost var pub: Option<string> := None;
    if c.italic.Some? {
      refData := refData + [("Publication", Str(CleanText(c.italic.value)))];
      pub := Some(CleanText(c.italic.value));
    }
    var doi := DoiOf(c.fullText);
    refData := refData + [("DOI", Str(doi))];
    PublicationLookup(refData, title, pub, doi);
    var publication := Lookup(refData, "Publication");
    if publication.None? {
      return Err("KeyError: 'Publication'");
    }
    var d := AddAuthors(c, refData, title, publication.value.s, doi);
    return Ok(d);
  }

  /** Before the authors: the publication is there exactly when the citation has an `<i>`. */
  lemma PublicationLookup(d: Dict<Value>, title: string, pub: Option<string>, doi: string)
    requires d == [("Title", Str(title))] + (if pub.Some? then [("Publication", Str(pub.value))] else []) + [("DOI", Str(doi))]
    ensures Lookup(d, "Publication") == if pub.Some? then Some(Str(pub.value)) else None
    ensures pub.Some? ==> d == [("Title", Str(title)), ("Publication", Str(pub.value)), ("DOI", Str(doi))]
  {
    if pub.Some? {
      assert d == [("Title", Str(title)), ("Publication", Str(pub.value)), ("DOI", Str(doi))];
      assert UniqueKeys(d) by {
        assert d[0].0 != d[1].0 && d[0].0 != d[2].0 && d[1].0 != d[2].0;
      }
      LookupAt(d, 1);
    } else {
      assert d == [("Title", Str(title)), ("DOI", Str(doi))];
      assert d[0].0 != "Publication" && d[1].0 != "Publication";
    }
  }

  /** The rest of the reference dict: the authors cleaned of the other parts, then the PubMed link and ID. */
  method AddAuthors(c: Cite, refData: Dict<Value>, title: string, publication: string, doi: string)
    returns (d: Dict<Value>)
    requires c.italic.Some? && title == TitleOf(c) && publication == CleanText(c.italic.value)
    requires doi == DoiOf(c.fullText)
    requires refData == [("Title", Str(title)), ("Publication", Str(publication)), ("DOI", Str(doi))]
    ensures d == RefDict(c)
  {
    var authors := CleanAuthors(c.fullText, title, publication, doi);
    d := refData + [("Authors", Str(authors))];
    ghost var tail: Dict<Value> := [];
    if c.pubmedLink.Some? {
      var link := ("PubMed Link", Str(c.pubmedLink.value.0));
      var id := ("PubMed ID", Str(CleanText(c.pubmedLink.value.1)));
      ghost var before := d;
      d := d + [link];
      d := d + [id];
      tail := [link, id];
      assert d == before + tail;
    }
    RefDictOf(c, refData, authors, tail, d);
  }

  /** The PubMed link and ID of a linked citation. */
  function RefTail(c: Cite): Dict<Value>
  {
    if c.pubmedLink.Some? then [("PubMed Link", Str(c.pubmedLink.value.0)),
                                ("PubMed ID", Str(CleanText(c.pubmedLink.value.1)))] else []
  }

  /** The reference dict of a citation with an `<i>`, in the order its keys are assigned. */
  function RefDict(c: Cite): (d: Dict<Value>)
    requires c.italic.Some?
    ensures RefFacts(d, c)
    ensures AuthorsClean(d[3].1.s)
  {
    var d := [("Title", Str(TitleOf(c))), ("Publication", Str(CleanText(c.italic.value))),
              ("DOI", Str(DoiOf(c.fullText))),
              ("Authors", Str(CleanAuthors(c.fullText, TitleOf(c), CleanText(c.italic.value), DoiOf(c.fullText))))]
             + RefTail(c);
    RefKeysOf(d, c);
    CleanAuthorsClean(c.fullText, TitleOf(c), CleanText(c.italic.value), DoiOf(c.fullText));
    d
  }

  /** The dict `RefData` assembles, with the cleaned authors passed in. */
  lemma RefDictOf(c: Cite, head: Dict<Value>, authors: string, tail: Dict<Value>, d: Dict<Value>)
    requires c.italic.Some?
    requires head == [("Title", Str(TitleOf(c))), ("Publication", Str(CleanText(c.italic.value))),
                      ("DOI", Str(DoiOf(c.fullText)))]
    requires authors == CleanAuthors(c.fullText, TitleOf(c), CleanText(c.italic.value), DoiOf(c.fullText))
    requires tail == RefTail(c)
    requires d == head + [("Authors", Str(authors))] + tail
    ensures d == RefDict(c)
  {
  }

  lemma RefKeysOf(d: Dict<Value>, c: Cite)
    requires |d| == if c.pubmedLink.Some? then 6 else 4
    requires d[0].0 == "Title" && d[1].0 == "Publication" && d[2].0 == "DOI" && d[3].0 == "Authors"
    requires c.pubmedLink.Some? ==> d[4].0 == "PubMed Link" && d[5].0 == "PubMed ID"
    ensures Keys(d) == RefKeys(c)
  {
  }

  /**
   * What `extract_references` stores under "References" when it returns: None
   * when no paragraph qualifies, else the dict of the last qualifying citation.
   */
  function ReferencesOf(ps: seq<Paragraph>): (v: Value)
    requires !RefError(ps)
    ensures v.Null? <==> LastQualifying(ps).None?
    ensures v.Map? ==> RefFacts(v.entries, ps[LastQualifying(ps).value].cite.value)
  {
    match LastQualifying(ps)
    case None => Null
    case Some(i) => Map(RefDict(ps[i].cite.value))
  }

  /** A paragraph mentioning "For your References section" with a citation box after it. */
  predicate Qualifies(p: Paragraph)
  {
    Contains(p.text, "For your References section") && p.cite.Some?
  }

  /** The last qualifying paragraph. */
  function LastQualifying(ps: seq<Paragraph>): (r: Option<nat>)
    ensures r.None? ==> forall i :: 0 <= i < |ps| ==> !Qualifies(ps[i])
    ensures r.Some? ==> r.value < |ps| && Qualifies(ps[r.value])
                        && forall i :: r.value < i < |ps| ==> !Qualifies(ps[i])
  {
    if ps == [] then None
    else if Qualifies(ps[|ps| - 1]) then Some(|ps| - 1)
    else LastQualifying(ps[..|ps| - 1])
  }

  /** Some qualifying citation has no `<i>`, so building its dict raises. */
  predicate RefError(ps: seq<Paragraph>)
  {
    exists i :: 0 <= i < |ps| && Qualifies(ps[i]) && ps[i].cite.value.italic.None?
  }

  /** After the first `i` paragraphs: no error yet, and `refData` is the dict of the last qualifying one so far. */
  ghost predicate RefsDone(ps: seq<Paragraph>, i: nat, refData: Option<Dict<Value>>)
  {
    && i <= |ps|
    && !RefError(ps[..i])
    && (refData.None? <==> LastQualifying(ps[..i]).None?)
    && (refData.Some? ==> LastQualifying(ps[..i]).Some?
                          && ps[LastQualifying(ps[..i]).value].cite.value.italic.Some?
                          && refData.value == RefDict(ps[LastQualifying(ps[..i]).value].cite.value))
  }

  /** One more paragraph: it is the last qualifying one exactly when it qualifies. */
  lemma LastQualifyingSnoc(ps: seq<Paragraph>, i: nat)
    requires i < |ps|
    ensures LastQualifying(ps[..i + 1]) == if Qualifies(ps[i]) then Some(i) else LastQualifying(ps[..i])
  {
    assert ps[..i + 1][..i] == ps[..i];
  }

  /** One more paragraph: an error so far, or this one qualifies without `<i>`. */
  lemma RefErrorSnoc(ps: seq<Paragraph>, i: nat)
    requires i < |ps|
    ensures RefError(ps[..i + 1]) <==> RefError(ps[..i]) || (Qualifies(ps[i]) && ps[i].cite.value.italic.None?)
  {
    assert forall j :: 0 <= j < i ==> ps[..i + 1][j] == ps[..i][j];
    assert ps[..i + 1][i] == ps[i];
  }

  lemma RefsSkip(ps: seq<Paragraph>, i: nat, refData: Option<Dict<Value>>)
    requires i < |ps| && RefsDone(ps, i, refData) && !Qualifies(ps[i])
    ensures RefsDone(ps, i + 1, refData)
  {
    LastQualifyingSnoc(ps, i);
    RefErrorSnoc(ps, i);
  }

  lemma RefsTake(ps: seq<Paragraph>, i: nat, refData: Option<Dict<Value>>, d: Dict<Value>)
    requires i < |ps| && RefsDone(ps, i, refData) && Qualifies(ps[i])
    requires ps[i].cite.value.italic.Some? && d == RefDict(ps[i].cite.value)
    ensures RefsDone(ps, i + 1, Some(d))
  {
    LastQualifyingSnoc(ps, i);
    RefErrorSnoc(ps, i);
  }

  lemma RefsFail(ps: seq<Paragraph>, i: nat)
    requires i < |ps| && Qualifies(ps[i]) && ps[i].cite.value.italic.None?
    ensures RefError(ps)
  {
  }

  lemma RefsEnd(ps: seq<Paragraph>, refData: Option<Dict<Value>>)
    requires RefsDone(ps, |ps|, refData)
    ensures !RefError(ps)
    ensures refData.None? <==> LastQualifying(ps).None?
    ensures refData.Some? ==> LastQualifying(ps).Some? && ps[LastQualifying(ps).value].cite.value.italic.Some?
                              && refData.value == RefDict(ps[LastQualifying(ps).value].cite.value)
  {
    assert ps[..|ps|] == ps;
  }

  /**
   * `extract_references`: None when no paragraph qualifies; otherwise the dict
   * of the last qualifying paragraph's citation, each one replacing the previous.
   * A citation without `<i>` anywhere makes the whole call raise.
   */
  method ExtractReferences(ps: seq<Paragraph>) returns (r: Result<Option<Dict<Value>>, string>)
    ensures r.Err? <==> RefError(ps)
    ensures r.Ok? ==> (r.value.None? <==> LastQualifying(ps).None?)
    ensures r.Ok? && r.value.Some? ==> RefFacts(r.value.value, ps[LastQualifying(ps).value].cite.value)
    ensures r.Ok? ==> (if r.value.Some? then Map(r.value.value) else Null) == ReferencesOf(ps)
  {
    var refData: Option<Dict<Value>> := None;
    for i := 0 to |ps|
      invariant RefsDone(ps, i, refData)
    {
      if Contains(ps[i].text, "For your References section") && ps[i].cite.Some? {
        var d := RefData(ps[i].cite.value);
        if d.Err? {
          RefsFail(ps, i);
          return Err(d.error);
        }
        RefsTake(ps, i, refData, d.value);
        refData := Some(d.value);
      } else {
        RefsSkip(ps, i, refData);
      }
    }
    RefsEnd(ps, refData);
    return Ok(refData);
  }

  // ---------------------------------------------------------------------------
  // scrape_general_page and main

  /**
   * The general page of a plasmid as the scraper reads it: the six single
   * fields, the main page's GenBank link, the sequences page, the section
   * headers, the depositor comments and the paragraphs.
   */
  datatype GeneralPage = GeneralPage(
    name: Option<string>, id: Option<string>, flame: Option<string>, purpose: Option<string>,
    depositingLab: Option<string>, publication: Option<string>,
    genbankLink: Option<string>, sequences: SequencesPage, headers: seq<Header>,
    depositorComments: Option<string>, paragraphs: seq<Paragraph>)

  /** Python truthiness of a record value. */
  predicate Truthy(v: Value)
  {
    match v
    case Null => false
    case Str(s) => s != []
    case Map(es) => es != []
  }

  /**
   * `download_genbank`: fetch the file when the value is truthy; `download(url)`
   * is the text of a 200 reply, None otherwise. A dict is not a URL: the request
   * raises.
   */
  function DownloadGenbank(genbankFile: Value, download: string -> Option<string>): (r: Result<Value, string>)
    ensures !Truthy(genbankFile) ==> r == Ok(Null)
    ensures Truthy(genbankFile) && genbankFile.Str? ==> r == Ok(OptStr(download(genbankFile.s)))
    ensures r.Err? <==> Truthy(genbankFile) && genbankFile.Map?
  {
    if !Truthy(genbankFile) then Ok(Null)
    else match genbankFile
      case Str(url) => Ok(OptStr(download(url)))
      case _ => Err("InvalidSchema: No connection adapters were found")
  }

  /** The main page has no GenBank link and the sequences page request failed. */
  predicate FileLinksFail(page: GeneralPage)
  {
    page.genbankLink.None? && page.sequences.status != 200
  }

  /** The six single fields, in the order `scrape_general_page` assigns them to an empty dict. */
  function PageFields(page: GeneralPage): Dict<Value>
  {
    [("Name", OptStr(page.name)), ("ID", OptStr(page.id)), ("Flame", OptStr(page.flame)),
     ("Purpose", OptStr(page.purpose)), ("Depositing Lab", OptStr(page.depositingLab)),
     ("Publication", OptStr(page.publication))]
  }

  /** The text of the `i`-th single field, `i` indexing the first six scalar keys. */
  function FieldText(page: GeneralPage, i: nat): Option<string>
    requires i < 6
  {
    match i
    case 0 => page.name
    case 1 => page.id
    case 2 => page.flame
    case 3 => page.purpose
    case 4 => page.depositingLab
    case _ => page.publication
  }

  /** The single fields sit under the first six scalar keys. */
  lemma PageFieldAt(page: GeneralPage, i: nat)
    requires i < 6
    ensures Lookup(PageFields(page), ScalarKeys[i]) == Some(OptStr(FieldText(page, i)))
    ensures ScalarKeys[i] !in ["GenBank File", "Sequence Type", "GenBank Raw", "Depositor Comments", "References"]
  {
    var d := PageFields(page);
    assert Keys(d) == ScalarKeys[..6];
    assert UniqueKeys(d);
    LookupAt(d, i);
    ScalarKeyNotOther(i);
  }

  /** None of the first six scalar keys is one the file links, the download or the later fields write. */
  lemma ScalarKeyNotOther(i: nat)
    requires i < 6
    ensures ScalarKeys[i] !in ["GenBank File", "Sequence Type", "GenBank Raw", "Depositor Comments", "References"]
  {
  }

  /** What `extract_file_links` returns when it does not raise. */
  function FileLinks(page: GeneralPage): (d: Dict<Value>)
    requires !FileLinksFail(page)
    ensures UniqueKeys(d) && Keys(d) == ["GenBank File", "Sequence Type"]
  {
    var d := if page.genbankLink.Some? then [("GenBank File", Str(page.genbankLink.value)), ("Sequence Type", Str("full"))]
             else [("GenBank File", OptStr(FirstLink(page.sequences.sections))),
                   ("Sequence Type", Str(FirstType(page.sequences.sections)))];
    assert Keys(d) == ["GenBank File", "Sequence Type"];
    d
  }

  /**
   * The dict `scrape_general_page` has filled before the GenBank download: the
   * single fields, overwritten by the file links, overwritten by the sections,
   * then the depositor comments and the references.
   */
  function PageRecord(page: GeneralPage): Dict<Value>
    requires !FileLinksFail(page) && !RefError(page.paragraphs)
  {
    var merged := Update(Update(PageFields(page), FileLinks(page)), Assign(SectionPairs(page.headers)));
    Set(Set(merged, "Depositor Comments", OptStr(page.depositorComments)), "References", ReferencesOf(page.paragraphs))
  }

  /**
   * Apart from the comments and the references, a key of the gathered dict holds
   * the section stored under it, else the file link under it, else the single field.
   */
  lemma PageRecordLookup(page: GeneralPage, k: string)
    requires !FileLinksFail(page) && !RefError(page.paragraphs)
    requires k != "Depositor Comments" && k != "References"
    ensures var sections, files := Lookup(Assign(SectionPairs(page.headers)), k), Lookup(FileLinks(page), k);
            Lookup(PageRecord(page), k) == if sections.Some? then sections
                                           else if files.Some? then files
                                           else Lookup(PageFields(page), k)
  {
    UpdateLookup(PageFields(page), FileLinks(page), k);
    UpdateLookup(Update(PageFields(page), FileLinks(page)), Assign(SectionPairs(page.headers)), k);
  }

  /** Some section is stored under "GenBank File", replacing the link by a dict. */
  predicate GenBankSection(hs: seq<Header>)
  {
    Lookup(Assign(SectionPairs(hs)), "GenBank File").Some?
  }

  /**
   * The first part of `scrape_general_page`: the dict it fills before the
   * GenBank download, or the exception a file-link or reference step raises.
   */
  method GatherPageData(page: GeneralPage) returns (r: Result<Dict<Value>, string>)
    ensures r.Err? <==> FileLinksFail(page) || RefError(page.paragraphs)
    ensures r.Ok? ==> r.value == PageRecord(page)
    ensures r.Ok? ==> GenBankFileFacts(r.value, page.headers)
  {
    // Six assignments of new keys to an empty dict, each appending (Dicts.SetNew).
    var pageData: Dict<Value> := [("Name", OptStr(page.name)), ("ID", OptStr(page.id)), ("Flame", OptStr(page.flame)),
      ("Purpose", OptStr(page.purpose)), ("Depositing Lab", OptStr(page.depositingLab)),
      ("Publication", OptStr(page.publication))];
    assert pageData == PageFields(page);
    var files := ExtractFileLinks(page.genbankLink, page.sequences);
    if files.Err? {
      return Err(files.error);
    }
    assert files.value == FileLinks(page);
    ghost var fields := pageData;
    pageData := Update(pageData, files.value);
    var sections := ExtractSections(page.headers);
    pageData := Update(pageData, sections);
    GenBankFileValue(fields, files.value, page.headers);
    ghost var merged := pageData;
    pageData := Set(pageData, "Depositor Comments", OptStr(page.depositorComments));
    var refs := ExtractReferences(page.paragraphs);
    if refs.Err? {
      return Err(refs.error);
    }
    var references := if refs.value.Some? then Map(refs.value.value) else Null;
    assert references == ReferencesOf(page.paragraphs);
    pageData := Set(pageData, "References", references);
    GenBankFileKept(merged, page.headers, OptStr(page.depositorComments), references);
    return Ok(pageData);
  }

  /** Setting the comments and the references leaves "GenBank File" as it was. */
  lemma GenBankFileKept(d: Dict<Value>, hs: seq<Header>, comments: Value, references: Value)
    requires GenBankFileFacts(d, hs)
    ensures GenBankFileFacts(Set(Set(d, "Depositor Comments", comments), "References", references), hs)
  {
    var k := "GenBank File";
    assert k != "Depositor Comments" && k != "References";
    assert Lookup(Set(Set(d, "Depositor Comments", comments), "References", references), k) == Lookup(d, k);
  }

  /** A checked and converted record has exactly the expected keys, only strings, and no depositor comments. */
  lemma CheckedRecord(d: Dict<Value>)
    ensures Keys(ConvertValuesToStrings(Map(Normalised(d))).entries) == ExpectedKeys
    ensures AllStrings(Map(ConvertValuesToStrings(Map(Normalised(d))).entries))
    ensures Lookup(ConvertValuesToStrings(Map(Normalised(d))).entries, "Depositor Comments").None?
  {
    NormalisedKeys(d);
    ConvertAfterCheck(d);
  }

  /** A page whose scrape returns: its file links and references do not raise and no section replaces the GenBank link. */
  predicate Scrapable(page: GeneralPage)
  {
    !FileLinksFail(page) && !RefError(page.paragraphs) && !GenBankSection(page.headers)
  }

  /**
   * `scrape_general_page`: gather the fields, file links, sections, comments and
   * references of one page, download the GenBank file, then check and convert the
   * record. The result has exactly the expected keys, holds only strings and has
   * lost the depositor comments.
   */
  method ScrapeGeneralPage(page: GeneralPage, download: string -> Option<string>) returns (r: Result<Dict<Value>, string>)
    ensures r.Err? <==> !Scrapable(page)
    ensures r.Ok? ==> Keys(r.value) == ExpectedKeys && AllStrings(Map(r.value))
    ensures r.Ok? ==> Lookup(r.value, "Depositor Comments").None?
    ensures r.Ok? ==> r.value == ScrapedRecord(page, download)
  {
    var gathered := GatherPageData(page);
    if gathered.Err? {
      return Err(gathered.error);
    }
    var pageData := gathered.value;
    var raw := DownloadGenbank(Lookup(pageData, "GenBank File").value, download);
    if raw.Err? {
      return Err(raw.error);
    }
    pageData := Set(pageData, "GenBank Raw", raw.value);
    var record := new ScrapeDict(pageData);
    var checked := record.CheckExpectedKeys();
    CheckedRecord(pageData);
    var converted := ConvertValuesToStrings(Map(checked));
    return Ok(converted.entries);
  }

  /** The page's "GenBank File" before the download: a string or None, as no section replaced it. */
  function GenBankFile(page: GeneralPage): (v: Value)
    requires Scrapable(page)
    ensures Lookup(PageRecord(page), "GenBank File") == Some(v) && !v.Map?
  {
    PageRecordFacts(page);
    Lookup(PageRecord(page), "GenBank File").value
  }

  /** What `download_genbank` returns for that value. */
  function GenBankRaw(page: GeneralPage, download: string -> Option<string>): Value
    requires Scrapable(page)
  {
    DownloadGenbank(GenBankFile(page), download).value
  }

  lemma PageRecordFacts(page: GeneralPage)
    requires !FileLinksFail(page) && !RefError(page.paragraphs)
    ensures GenBankFileFacts(PageRecord(page), page.headers)
  {
    var merged := Update(Update(PageFields(page), FileLinks(page)), Assign(SectionPairs(page.headers)));
    GenBankFileValue(PageFields(page), FileLinks(page), page.headers);
    GenBankFileKept(merged, page.headers, OptStr(page.depositorComments), ReferencesOf(page.paragraphs));
  }

  /** The record a scrape returns: the gathered dict with the download added, checked, then stringified. */
  function ScrapedRecord(page: GeneralPage, download: string -> Option<string>): Dict<Value>
    requires Scrapable(page)
  {
    ConvertValuesToStrings(Map(Normalised(Set(PageRecord(page), "GenBank Raw", GenBankRaw(page, download))))).entries
  }

  /**
   * Each single field of a scraped record is the page's text for it, or '' when
   * the page has none, unless a section was stored under the field's name.
   */
  lemma ScrapedField(page: GeneralPage, download: string -> Option<string>, i: nat)
    requires Scrapable(page) && i < 6
    requires Lookup(Assign(SectionPairs(page.headers)), ScalarKeys[i]).None?
    ensures Lookup(ScrapedRecord(page, download), ScalarKeys[i])
            == Some(Str(if FieldText(page, i).Some? then FieldText(page, i).value else ""))
  {
    var d := Set(PageRecord(page), "GenBank Raw", GenBankRaw(page, download));
    RawField(page, download, i);
    CheckedScalar(d, i, FieldText(page, i));
  }

  /** Before the check, a single field not overridden by a section holds the page's text, or None. */
  lemma RawField(page: GeneralPage, download: string -> Option<string>, i: nat)
    requires Scrapable(page) && i < 6
    requires Lookup(Assign(SectionPairs(page.headers)), ScalarKeys[i]).None?
    ensures Lookup(Set(PageRecord(page), "GenBank Raw", GenBankRaw(page, download)), ScalarKeys[i])
            == Some(OptStr(FieldText(page, i)))
  {
    var k := ScalarKeys[i];
    PageFieldAt(page, i);
    PageRecordLookup(page, k);
    assert Lookup(FileLinks(page), k).None? by {
      assert Keys(FileLinks(page)) == ["GenBank File", "Sequence Type"];
    }
  }

  /** The check and the conversion turn a scalar's text into that string, and its None into ''. */
  lemma CheckedScalar(d: Dict<Value>, i: nat, text: Option<string>)
    requires i < |ScalarKeys| && Lookup(d, ScalarKeys[i]) == Some(OptStr(text))
    ensures Lookup(ConvertValuesToStrings(Map(Normalised(d))).entries, ScalarKeys[i])
            == Some(Str(if text.Some? then text.value else ""))
  {
    ConvertAfterCheck(d);
    NormalisedScalarAt(d, i);
  }

  /** "GenBank File" is present, and it holds a non-empty dict exactly when a section was stored under that title. */
  predicate GenBankFileFacts(d: Dict<Value>, hs: seq<Header>)
  {
    Lookup(d, "GenBank File").Some?
    && (Lookup(d, "GenBank File").value.Map? <==> GenBankSection(hs))
    && (Lookup(d, "GenBank File").value.Map? ==> Truthy(Lookup(d, "GenBank File").value))
  }

  /**
   * After the sections are merged, "GenBank File" is present; it holds a dict
   * exactly when a section was stored under that title, and that dict is not empty.
   */
  lemma GenBankFileValue(fields: Dict<Value>, files: Dict<Value>, hs: seq<Header>)
    requires Keys(files) == ["GenBank File", "Sequence Type"] && !files[0].1.Map?
    ensures GenBankFileFacts(Update(Update(fields, files), Assign(SectionPairs(hs))), hs)
  {
    var k := "GenBank File";
    assert files[0].0 == k && files[1].0 != k;
    assert UniqueKeys(files);
    assert Lookup(files, k) == Some(files[0].1);
    UpdateLookup(fields, files, k);
    UpdateLookup(Update(fields, files), Assign(SectionPairs(hs)), k);
    if GenBankSection(hs) {
      var ps := SectionPairs(hs);
      AssignLookup(ps, k);
      SectionTitles(hs);
      assert StoredSection(ps[LastIndex(ps, k).value]);
    }
  }

  /**
   * The resume filter of `main`: the distinct IDs of the ID file that are not
   * among the IDs already written, in no particular order.
   */
  method ResumeFilter(plasmidIds: seq<string>, existingResults: seq<string>) returns (todo: seq<string>)
    ensures NoDup(todo)
    ensures forall x :: x in todo <==> x in plasmidIds && x !in existingResults
  {
    todo := ListOfSet((set x | x in plasmidIds) - (set x | x in existingResults));
  }

  /** How many of the IDs `ids` have a page whose scrape returns. */
  function CountScrapable(ids: seq<string>, pages: string -> GeneralPage): (n: nat)
    ensures n <= |ids|
  {
    if ids == [] then 0
    else CountScrapable(ids[..|ids| - 1], pages) + if Scrapable(pages(ids[|ids| - 1])) then 1 else 0
  }

  /** The records `main` writes for the IDs `ids`, in submission order: one per page whose scrape returns. */
  function ScrapedRecords(ids: seq<string>, pages: string -> GeneralPage, download: string -> Option<string>)
    : (rs: seq<Dict<Value>>)
    ensures |rs| == CountScrapable(ids, pages)
  {
    if ids == [] then []
    else
      var init := ScrapedRecords(ids[..|ids| - 1], pages, download);
      var page := pages(ids[|ids| - 1]);
      if Scrapable(page) then init + [ScrapedRecord(page, download)] else init
  }

  /** A record as `main` writes it: exactly the expected keys, only strings, and no depositor comments. */
  predicate RecordChecked(r: Dict<Value>)
  {
    Keys(r) == ExpectedKeys && AllStrings(Map(r)) && Lookup(r, "Depositor Comments").None?
  }

  /** Every record of `rs` is checked. */
  predicate AllChecked(rs: seq<Dict<Value>>)
  {
    forall k :: 0 <= k < |rs| ==> RecordChecked(rs[k])
  }

  lemma AllCheckedSnoc(rs: seq<Dict<Value>>, r: Dict<Value>)
    requires AllChecked(rs) && RecordChecked(r)
    ensures AllChecked(rs + [r])
  {
    assert forall k :: 0 <= k < |rs| ==> (rs + [r])[k] == rs[k];
  }

  /** Every written record is checked. */
  lemma {:induction false} ScrapedRecordsChecked(ids: seq<string>, pages: string -> GeneralPage,
                                                 download: string -> Option<string>)
    ensures AllChecked(ScrapedRecords(ids, pages, download))
  {
    if ids != [] {
      var init := ScrapedRecords(ids[..|ids| - 1], pages, download);
      ScrapedRecordsChecked(ids[..|ids| - 1], pages, download);
      var page := pages(ids[|ids| - 1]);
      if Scrapable(page) {
        ScrapedRecordChecked(page, download);
        AllCheckedSnoc(init, ScrapedRecord(page, download));
      }
    }
  }

  lemma ScrapedRecordChecked(page: GeneralPage, download: string -> Option<string>)
    requires Scrapable(page)
    ensures RecordChecked(ScrapedRecord(page, download))
  {
    CheckedRecord(Set(PageRecord(page), "GenBank Raw", GenBankRaw(page, download)));
  }

  /**
   * `main`: submit every remaining ID once, the pages of ID `x` being `pages(x)`,
   * and write the record of each scrape that returns; a scrape that raises is
   * reported and its record dropped. Scrapes run one after the other.
   */
  method ScrapeRemaining(plasmidIds: seq<string>, existingResults: seq<string>,
              pages: string -> GeneralPage, download: string -> Option<string>)
    returns (submitted: seq<string>, written: seq<Dict<Value>>)
    ensures NoDup(submitted)
    ensures forall x :: x in submitted <==> x in plasmidIds && x !in existingResults
    ensures written == ScrapedRecords(submitted, pages, download)
    ensures |written| == CountScrapable(submitted, pages)
    ensures AllChecked(written)
  {
    submitted := ResumeFilter(plasmidIds, existingResults);
    written := [];
    for i := 0 to |submitted|
      invariant written == ScrapedRecords(submitted[..i], pages, download)
    {
      assert submitted[..i + 1][..i] == submitted[..i];
      var result := ScrapeGeneralPage(pages(submitted[i]), download);
      if result.Ok? {
        written := written + [result.value];
      }
    }
    assert submitted[..|submitted|] == submitted;
    ScrapedRecordsChecked(submitted, pages, download);
  }
}
