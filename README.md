# polaris-recipes: the OpenPlasmid scrapers, dataset build and helper utilities in Dafny

This project models the deterministic core of the polaris-recipes repository and
proves properties of it.

- **Addgene ID crawler** (`org-OpenPlasmid/get_addgene_ids.py`, module `AddgeneIds`).
  - It enumerates the 9000 four-digit search keys.
  - For each key it runs the pagination loop: page number, 429 retry counter with
    exponential back-off, de-duplicating ID list.
  - It takes the duplicate-free union over all keys.
  - The replies the catalogue gives to one key are a finite sequence of `Response`
    values: a status or a failed request, or a page with its article texts and its
    next-button class list.
  - The loop is a `method` proved equal to a specification fold over that sequence.
- **Per-plasmid scraper** (`org-OpenPlasmid/get_addgene_data.py`, modules
  `AddgeneSchema` and `AddgeneData`).
  - Text clean-up, section extraction with its renaming and skipping rules, and the
    sequence-section priority.
  - The GenBank and reference extraction, including the DOI search and the author
    clean-up.
  - The schema reconciliation (`check_expected_keys`, a class that overwrites its
    dict in place) and the string conversion.
  - The whole page pipeline and the resume filter of `main`.
  - HTML pages are records of the facts the scraper reads off them.
- **Dataset build** (`org-OpenPlasmid/build_polaris.py`, module `BuildPolaris`): gene-name
  normalisation (three regex substitutions and the gene map), GC content as an exact
  fraction, keyword selection, first-match keyword mapping and the per-row Entrez
  choice.
- **Helpers**:
  - `utils.py` (module `ChemspaceUtils`): the embedding-method check, train/test
    labelling, grid sizing and the bucket/blob split of `save_figure`.
  - `utils/auroris_utils.py` (module `AurorisUtils`): the gs-to-https rewriting of
    the HTML broadcaster and of `save_image`.
  - `utils/docs_utils.py` (module `DocsUtils`): the train/test label arrays.

Shared modules:

- `Wrappers`: `Option` and `Result`.
- `Collections`: `NoDup` and `list(set(...))`.
- `Text`: Python string semantics. This covers `isspace`, `split`, `join`, `strip`,
  `replace` and `split(sep)`.
- `Dicts`: insertion-ordered Python dicts as association lists, with `d[k] = v`,
  `dict(pairs)` and `update`.

Python behaviour is modelled where the results depend on it:

- **Regex `$`** also matches before a final newline.
- **`re.sub`** works left to right.
- **Regex alternation** takes the first alternative that matches.
- **numpy negative indices** wrap around.
- **Out-of-range indices and missing keys** raise before anything is written.
- **Ceiling division** is written out explicitly.

A Python exception is an `Err` value, or a `Raised` outcome for a query of the crawler.

## Model

| member | source | states |
|---|---|---|
| AddgeneIds.QueryKeyAt | org-OpenPlasmid/get_addgene_ids.py:92 | There are 9000 query keys. Each is four ASCII digits with a non-'0' first digit, and key i reads as the number 1000 + i. |
| AddgeneIds.QueryKeysAscending | org-OpenPlasmid/get_addgene_ids.py:92 | The keys are in strictly ascending lexicographic order. |
| AddgeneIds.ExtractId | org-OpenPlasmid/get_addgene_ids.py:58 | The ID is the whitespace-stripped text with only '#' characters removed from both ends: it sits inside the stripped text with nothing but '#' before and after it, and it neither starts nor ends with '#'. |
| AddgeneIds.ExtractCleanId | org-OpenPlasmid/get_addgene_ids.py:58 | A text without surrounding whitespace or '#' is its own ID. |
| AddgeneIds.DedupSnoc | org-OpenPlasmid/get_addgene_ids.py:60-62 | An ID already encountered is skipped; a new one is appended at the end. |
| AddgeneIds.DedupElems | org-OpenPlasmid/get_addgene_ids.py:60-62 | The de-duplicated list holds exactly the IDs seen. |
| AddgeneIds.DedupNoDup | org-OpenPlasmid/get_addgene_ids.py:60-62 | The de-duplicated list has no repeated ID. |
| AddgeneIds.DedupFirstSeenOrder | org-OpenPlasmid/get_addgene_ids.py:31-62 | The list keeps IDs in the order of their first occurrence across pages. |
| AddgeneIds.DedupDistinct | org-OpenPlasmid/get_addgene_ids.py:60-62 | IDs that are already distinct are kept as they are. |
| AddgeneIds.AddOneId | org-OpenPlasmid/get_addgene_ids.py:58-62 | One article adds its ID to the seen sequence, and the list grows by that ID exactly when it is new. |
| AddgeneIds.AddPageIds | org-OpenPlasmid/get_addgene_ids.py:56-62 | The page's articles are processed without error iff every article has an ID element. The list becomes the de-duplication of everything seen, and the encountered set has the same members as the list. |
| AddgeneIds.Step | org-OpenPlasmid/get_addgene_ids.py:39-86 | One response changes the gathered IDs, waits, retry counter and page number exactly as the loop body does. |
| AddgeneIds.FetchPlasmidDataForCombo | org-OpenPlasmid/get_addgene_ids.py:30-88 | The loop's outcome equals the specification fold `Outcome` over the responses. The waits and requested page numbers are those of the consumed prefix. A returned list has no duplicates. |
| AddgeneIds.RetriesBounded | org-OpenPlasmid/get_addgene_ids.py:25-83 | While the loop continues, the retry counter never exceeds MAX_RETRIES (5). |
| AddgeneIds.WaitsArePowersOfTwo | org-OpenPlasmid/get_addgene_ids.py:26-76 | Every back-off wait is one of 1, 2, 4, 8, 16. |
| AddgeneIds.ConsecutiveRateLimits | org-OpenPlasmid/get_addgene_ids.py:73-80 | A run of k 429 replies after a reset adds k retries. When k is at most 5, the waits added are 2^0 through 2^(k-1) in order. |
| AddgeneIds.SixthRateLimitEndsQuery | org-OpenPlasmid/get_addgene_ids.py:74-88 | Six 429 replies in a row on the first page end the query after exactly six requests, with waits 1, 2, 4, 8, 16, and it returns no IDs. |
| AddgeneIds.HarvestOfErrors | org-OpenPlasmid/get_addgene_ids.py:48-86 | Replies with an HTTP error status contribute no IDs. |
| AddgeneIds.RequestedAt | org-OpenPlasmid/get_addgene_ids.py:34-67 | The j-th request asks for page 1 plus the number of advances before it. |
| AddgeneIds.PageNumbers | org-OpenPlasmid/get_addgene_ids.py:34-70 | The first request is for page 1, and the page number grows by one exactly after a response with an enabled next button. |
| AddgeneIds.RetriesReset | org-OpenPlasmid/get_addgene_ids.py:68-79 | While the loop runs, the retry counter returns to 0 exactly when the page advances, and otherwise grows by one. |
| AddgeneIds.NoPageCap | org-OpenPlasmid/get_addgene_ids.py:39-68 | No page limit exists: as long as every page has an enabled next button, every response is consumed and page k+1 is requested k-th. |
| AddgeneIds.AdvancesAll | org-OpenPlasmid/get_addgene_ids.py:65-68 | Every page that advances counts once. |
| AddgeneIds.ConsumedAll | org-OpenPlasmid/get_addgene_ids.py:39 | If every response lets the loop continue, the loop consumes all of them. |
| AddgeneIds.ConsumedStop | org-OpenPlasmid/get_addgene_ids.py:69-86 | The loop stops right after the first response that ends it. |
| AddgeneIds.TwoPages | org-OpenPlasmid/get_addgene_ids.py:30-88 | For a page with a next button followed by a last page, with clean and distinct IDs, the query returns both pages' IDs in page order, requests pages 1 and 2, and waits nothing. |
| AddgeneIds.TwoPagesRun | org-OpenPlasmid/get_addgene_ids.py:30-88 | Over two pages the query returns the de-duplicated IDs of both pages and ends at the last page. |
| AddgeneIds.PresentCleanIds | org-OpenPlasmid/get_addgene_ids.py:56-58 | The IDs of articles whose texts are already clean are those texts. |
| AddgeneIds.ConcatElems | org-OpenPlasmid/get_addgene_ids.py:102-106 | An ID is in the extended list iff some key's list holds it. |
| AddgeneIds.ParallelScrape | org-OpenPlasmid/get_addgene_ids.py:90-111 | The result has no duplicates. It holds exactly the IDs some key's query returned; a query that raised contributes nothing. |
| Collections.ListOfSet | org-OpenPlasmid/get_addgene_ids.py:111 | `list(set(xs))` has no duplicates, the same members as `xs`, and as many elements as the set has. |
| AddgeneSchema.ExpectedKeysDistinct | org-OpenPlasmid/get_addgene_data.py:198-312 | There are 9 scalar keys and 10 nested keys, all distinct, and each nested key's subkeys are distinct. |
| AddgeneSchema.NormalisedNested | org-OpenPlasmid/get_addgene_data.py:274-287 | A nested entry becomes a dict with exactly its declared subkeys in order, all strings. A missing or non-dict entry gives all ''; otherwise each subkey gets the string of its value, with '' for absent or None. |
| AddgeneSchema.QuoteExamples | org-OpenPlasmid/get_addgene_data.py:307 | `str` of a dict quotes its strings as Python's `repr` does: double quotes for a string holding only single quotes, otherwise single quotes with the inner ones and backslashes escaped. |
| AddgeneSchema.NormalisedKeys | org-OpenPlasmid/get_addgene_data.py:290-318 | The reconciled record has exactly the 9 scalar keys followed by the 10 nested keys, with unique keys. Every other key, 'Depositor Comments' included, is dropped. |
| AddgeneSchema.NormalisedScalarAt | org-OpenPlasmid/get_addgene_data.py:303-318 | Each scalar key of the output holds the normalised string of the input's entry. |
| AddgeneSchema.NormalisedNestedAt | org-OpenPlasmid/get_addgene_data.py:274-318 | Each nested key of the output holds the normalised sub-dict of the input's entry. |
| AddgeneSchema.NestedFixed | org-OpenPlasmid/get_addgene_data.py:276-282 | A sub-dict that already has exactly its subkeys, all strings, is left unchanged. |
| AddgeneSchema.NormalisedIdempotent | org-OpenPlasmid/get_addgene_data.py:196-320 | `check_expected_keys` is idempotent. |
| AddgeneSchema.ConvertValuesToStrings | org-OpenPlasmid/get_addgene_data.py:323-327 | Every leaf becomes a string, None becomes '' and a string stays. A dict stays a dict with the same keys in order, and each of its values is converted in turn, at every depth. |
| AddgeneSchema.ConvertFixed | org-OpenPlasmid/get_addgene_data.py:323-327 | Conversion is the identity on a value that is already all strings. |
| AddgeneSchema.ConvertAfterCheck | org-OpenPlasmid/get_addgene_data.py:346-347 | Conversion is the identity on `check_expected_keys` output. |
| AddgeneSchema.ScrapeDict.NewSubdict | org-OpenPlasmid/get_addgene_data.py:275-285 | Builds the normalised sub-dict of one nested key. |
| AddgeneSchema.ScrapeDict.SubkeyStrings | org-OpenPlasmid/get_addgene_data.py:280-282 | Each subkey, in order, gets the string of its old value, or '' when the value is absent or None. |
| AddgeneSchema.ScrapeDict.Select | org-OpenPlasmid/get_addgene_data.py:315-318 | The rebuilt dict lists the given keys in order, each with its stored value. |
| AddgeneSchema.ScrapeDict.OverwriteNested | org-OpenPlasmid/get_addgene_data.py:274-287 | Each nested key of the caller's dict now holds its normalised sub-dict. Other keys are unchanged and existing keys keep their positions. |
| AddgeneSchema.ScrapeDict.OverwriteScalars | org-OpenPlasmid/get_addgene_data.py:303-309 | Each scalar key of the caller's dict now holds its normalised string. Other keys are unchanged and existing keys keep their positions. |
| AddgeneSchema.ScrapeDict.CheckExpectedKeys | org-OpenPlasmid/get_addgene_data.py:196-320 | Returns the reconciled record of the original dict. The caller's dict is left with the reconciled values under the expected keys and its other entries unchanged. |
| AddgeneData.CollapseIsJoin | org-OpenPlasmid/get_addgene_data.py:20 | Collapsing whitespace gives the words joined by single spaces, so the strip changes nothing. |
| AddgeneData.CleanTextNoCite | org-OpenPlasmid/get_addgene_data.py:19-20 | Without a "(How to cite)", `clean_text` yields the input's words joined by single spaces. It keeps those words and is idempotent. |
| AddgeneData.CleanTextKeepsSpace | org-OpenPlasmid/get_addgene_data.py:20 | The deletion comes after the strip: "Foo (How to cite)" gives "Foo ". |
| Text.DeleteAfterPrefix | org-OpenPlasmid/get_addgene_data.py:20 | Deleting a pattern that follows a prefix without its first character leaves exactly that prefix. |
| AddgeneData.CleanTextAvoids | org-OpenPlasmid/get_addgene_data.py:19-20 | `clean_text` introduces no character other than a space. |
| AddgeneData.NestedValue | org-OpenPlasmid/get_addgene_data.py:113-116 | No item gives ''. One item gives its cleaned text. Two or more give the first cleaned item, " ; ", and the join of the rest. |
| AddgeneData.FieldValue | org-OpenPlasmid/get_addgene_data.py:109-121 | A gene symbol wins over a nested list, which wins over the stripped sibling text; with none of the three the value is ''. |
| AddgeneData.FinalTitleCollisions | org-OpenPlasmid/get_addgene_data.py:129-132 | A section is stored under 'Gene/Insert 1' iff its cleaned title is 'Gene/Insert' or already 'Gene/Insert 1', and under 'Cloning Information for Gene/Insert 1' iff its title is 'Cloning Information' or already that text. |
| AddgeneData.LastKeptAs | org-OpenPlasmid/get_addgene_data.py:99-134 | Finds the last kept header whose final title is the given one; no kept header after it has that title. |
| AddgeneData.SectionLookup | org-OpenPlasmid/get_addgene_data.py:93-136 | The sections dict holds a title iff some kept header ends up with that title, and then it holds the data of the last such header. |
| AddgeneData.GeneInsertOneSection | org-OpenPlasmid/get_addgene_data.py:127-134 | The entry 'Gene/Insert 1' holds the data of the last kept header titled 'Gene/Insert' or 'Gene/Insert 1', whichever of the two colliding titles it had. |
| AddgeneData.ExtractSections | org-OpenPlasmid/get_addgene_data.py:93-136 | The nested loops build the dict that assigns, in header order, each kept header's final title to its section data. |
| AddgeneData.ExtractFields | org-OpenPlasmid/get_addgene_data.py:106-124 | The field loop of one section builds the dict of its labelled fields' cleaned values, a later label overwriting an earlier one. |
| AddgeneData.LaterSectionWins | org-OpenPlasmid/get_addgene_data.py:127-134 | A later kept section with the same final title overwrites the earlier one. |
| AddgeneData.DroppedSectionNoop | org-OpenPlasmid/get_addgene_data.py:99-127 | A header titled 'Information for…', or one with no labelled fields, leaves the sections unchanged. |
| AddgeneData.SectionTitles | org-OpenPlasmid/get_addgene_data.py:99-134 | No stored section is titled 'Information for…', 'Gene/Insert' or 'Cloning Information', and none is empty. |
| AddgeneData.SectionTypes | org-OpenPlasmid/get_addgene_data.py:65-66 | The first two section ids are 'full' and the last two are 'partial'. |
| AddgeneData.FirstPresent | org-OpenPlasmid/get_addgene_data.py:65-72 | Finds the first section id present on the page, or reports that none is present. |
| AddgeneData.GetSequence | org-OpenPlasmid/get_addgene_data.py:55-76 | A non-200 status gives the 4-tuple. Otherwise the first present section decides: its link or None, and its type. Later sections are not tried. With no section present the result is (None, 'partial'). |
| AddgeneData.ExtractFileLinks | org-OpenPlasmid/get_addgene_data.py:79-90 | A download link on the main page gives (link, 'full'). Otherwise it falls back to the sequences page. That raises exactly when the status is not 200, because the 4-tuple cannot be unpacked into two names. |
| AddgeneData.DoiMatchAtExact | org-OpenPlasmid/get_addgene_data.py:174 | At one position the DOI pattern ("10.", 4 to 9 digits, '/', a non-empty suffix of the allowed class) matches iff some length fits it, and the match found is the longest that fits. |
| AddgeneData.DoiOf | org-OpenPlasmid/get_addgene_data.py:173-175 | The DOI is '' exactly when the citation holds no match of the pattern. Otherwise it starts with "10." and is the match at the leftmost position where the pattern matches, taken as long as possible. |
| AddgeneData.DoiExample | org-OpenPlasmid/get_addgene_data.py:174-175 | In "10.12/x 10.1234/ab c" the first "10." has too few digits, so the DOI is the later "10.1234/ab", whose suffix stops at the space. |
| AddgeneData.RemoveDigits | org-OpenPlasmid/get_addgene_data.py:181 | No digit remains and no character is introduced; a text without digits is unchanged. |
| AddgeneData.RemoveDigitsConcat | org-OpenPlasmid/get_addgene_data.py:181 | Removing digits distributes over concatenation, so the non-digits are kept in their order. |
| AddgeneData.CleanAuthorsClean | org-OpenPlasmid/get_addgene_data.py:177-186 | The authors text has no digit and no '.'. Each of its characters comes from the citation text or is a space. |
| AddgeneData.RefData | org-OpenPlasmid/get_addgene_data.py:161-192 | Building the reference raises exactly when the citation has no `<i>`, because 'Publication' is read without being set. Otherwise the record is RefDict's: the title, publication, DOI, clean authors and, when linked, the PubMed link and ID, in order. |
| AddgeneData.RefDict | org-OpenPlasmid/get_addgene_data.py:161-192 | The reference record of a citation with an `<i>`: its entries, in order, are the ones listed for RefData, with authors that hold no digit and no '.'. |
| AddgeneData.LastQualifying | org-OpenPlasmid/get_addgene_data.py:154-160 | Finds the last paragraph whose reference block has a citation; later paragraphs do not. |
| AddgeneData.ReferencesOf | org-OpenPlasmid/get_addgene_data.py:150-194 | Without an error, the references value is None iff no paragraph qualifies, and otherwise the record of the last qualifying citation. |
| AddgeneData.ExtractReferences | org-OpenPlasmid/get_addgene_data.py:150-194 | It raises iff some qualifying citation lacks an `<i>`. Otherwise the result is None when no paragraph qualifies, and else the data of the last qualifying citation; this is the value ReferencesOf gives. |
| AddgeneData.DownloadGenbank | org-OpenPlasmid/get_addgene_data.py:11-16 | A falsy link gives None and a string link gives the download's result. A non-empty dict, such as a section stored under 'GenBank File', raises InvalidSchema. |
| AddgeneData.PageFieldAt | org-OpenPlasmid/get_addgene_data.py:334-339 | Name, ID, Flame, Purpose, Depositing Lab and Publication hold the texts read off the page, and none of them is a key that a later step sets. |
| AddgeneData.PageRecordLookup | org-OpenPlasmid/get_addgene_data.py:334-344 | In the page data, a key other than 'Depositor Comments' and 'References' holds the section of that title if there is one, else the file-link entry, else the field read off the page. |
| AddgeneData.GatherPageData | org-OpenPlasmid/get_addgene_data.py:330-345 | Assembling the page data raises iff the file links or the references raise. Otherwise the result is the page record: the fields, updated by the file links and then the sections, with the comments and references set last. 'GenBank File' is present, and it is a non-empty dict exactly when a section took that title. |
| AddgeneData.GenBankFileValue | org-OpenPlasmid/get_addgene_data.py:341-342 | After the two updates, 'GenBank File' holds the sections' value if a section of that title exists, else the file link. |
| AddgeneData.CheckedRecord | org-OpenPlasmid/get_addgene_data.py:346-347 | After check and conversion the record has exactly the expected keys, all strings, and no 'Depositor Comments'. |
| AddgeneData.ScrapeGeneralPage | org-OpenPlasmid/get_addgene_data.py:330-349 | Scraping a page raises iff its file links raise, its references raise, or a section named 'GenBank File' reaches the download. Otherwise the record is the page record with the GenBank download added, reconciled and converted to strings: exactly the expected keys in order, all strings, and no 'Depositor Comments'. |
| AddgeneData.ScrapedField | org-OpenPlasmid/get_addgene_data.py:334-349 | When no section overrides it, each of the six page fields reaches the final record as its text, or '' when the page lacks it. |
| AddgeneData.ResumeFilter | org-OpenPlasmid/get_addgene_data.py:372 | The IDs to scrape are exactly the input IDs not already in the results, each listed once. |
| AddgeneData.ScrapeRemaining | org-OpenPlasmid/get_addgene_data.py:366-386 | Each remaining ID is submitted exactly once, and none already in the results is. The records written are the scraped records of the submitted IDs whose pages scrape without raising, in order; each has the expected keys and is all strings. |
| AddgeneData.ScrapedRecordsChecked | org-OpenPlasmid/get_addgene_data.py:346-349 | Every record the scrape produces has exactly the expected keys, all strings. |
| BuildPolaris.FirstPrefix | org-OpenPlasmid/build_polaris.py:30 | Finds the first species alternative, in regex order, that the name starts with, ignoring case. |
| BuildPolaris.DropSpecies | org-OpenPlasmid/build_polaris.py:30 | The name is unchanged iff it starts with no alternative. Otherwise what remains is empty or does not start with whitespace. |
| BuildPolaris.DropSpeciesParts | org-OpenPlasmid/build_polaris.py:30 | What is removed is the first matching alternative followed only by whitespace, and the rest is kept. |
| BuildPolaris.DropSpeciesHsp70 | org-OpenPlasmid/build_polaris.py:30 | "Hsp70" loses its "H". |
| BuildPolaris.DropSpeciesCherry | org-OpenPlasmid/build_polaris.py:30 | "mCherry" loses its "m". |
| BuildPolaris.DropSpeciesRattus | org-OpenPlasmid/build_polaris.py:30 | "Rattus" loses "Rat": the earlier alternative wins. |
| BuildPolaris.DropSpeciesHuman | org-OpenPlasmid/build_polaris.py:30 | "Human  ACTB" becomes "ACTB": the following whitespace goes too. |
| BuildPolaris.NewlineTail | org-OpenPlasmid/build_polaris.py:31 | `$` may match before a final newline, which then stays: the kept tail is "\n" exactly when the name ends with a newline, and empty otherwise. |
| BuildPolaris.KindBodyTail | org-OpenPlasmid/build_polaris.py:31 | The name is its body followed by the optional final newline. |
| BuildPolaris.DropKind | org-OpenPlasmid/build_polaris.py:31 | The name changes iff its body ends with "gene" or "protein", ignoring case. |
| BuildPolaris.DropKindParts | org-OpenPlasmid/build_polaris.py:31 | Only the trailing word and the whitespace run before it are removed; the kept text does not end in whitespace, and a final newline stays. |
| BuildPolaris.LeadSpace | org-OpenPlasmid/build_polaris.py:32 | Gives the length of the maximal leading whitespace run. |
| BuildPolaris.DropGroups | org-OpenPlasmid/build_polaris.py:32 | Removing groups never lengthens the name. |
| BuildPolaris.GroupEndExact | org-OpenPlasmid/build_polaris.py:32 | A group starts at a position iff the whitespace run there is followed by '(' and a later ')'. The match then ends at the first ')' after the '('. |
| BuildPolaris.DropGroupsCopies | org-OpenPlasmid/build_polaris.py:32 | Text before the first group is copied unchanged and in order. |
| BuildPolaris.DropGroupsAt | org-OpenPlasmid/build_polaris.py:32 | At the first group, the substitution keeps the text before it, removes exactly that match, and goes on after it. |
| BuildPolaris.DropGroupsWithin | org-OpenPlasmid/build_polaris.py:32 | Removing groups only keeps characters the name had. |
| BuildPolaris.DropGroupsNoGroup | org-OpenPlasmid/build_polaris.py:32 | After the substitution no '(' is followed by a ')'. |
| BuildPolaris.DropGroupsNoParen | org-OpenPlasmid/build_polaris.py:32 | A name without '(' is unchanged. |
| BuildPolaris.DropGroupsFixed | org-OpenPlasmid/build_polaris.py:32 | A name without groups is unchanged. |
| BuildPolaris.DropGroupsIdempotent | org-OpenPlasmid/build_polaris.py:32 | The group substitution is idempotent. |
| BuildPolaris.Stem | org-OpenPlasmid/build_polaris.py:30-32 | The three substitutions leave no group and never lengthen the name. |
| BuildPolaris.FindWord | org-OpenPlasmid/build_polaris.py:45 | The search succeeds iff the key occurs as a whole word at or after the start, ignoring case. |
| BuildPolaris.CleanGeneName | org-OpenPlasmid/build_polaris.py:29-48 | The result is the value of the first gene-map key, in map order, that occurs as a whole word. Without one it is the stripped, lower-cased stem. |
| BuildPolaris.EgfpStem | org-OpenPlasmid/build_polaris.py:30-32 | None of the substitutions changes "EGFP". |
| BuildPolaris.EgfpWords | org-OpenPlasmid/build_polaris.py:44-46 | "egfp" is the first key found in "EGFP", because the earlier "gfp" is not a whole word there. |
| BuildPolaris.EgfpMapped | org-OpenPlasmid/build_polaris.py:34-46 | "EGFP" maps to "GFP" through the "egfp" key. |
| BuildPolaris.UnmappedIsLower | org-OpenPlasmid/build_polaris.py:48 | The fallback has no upper-case ASCII letter and no surrounding whitespace. |
| BuildPolaris.GcCount | org-OpenPlasmid/build_polaris.py:55 | Counts the upper-case 'G' and 'C' characters, at most the length. |
| BuildPolaris.GcContent | org-OpenPlasmid/build_polaris.py:54-56 | GC content is 0 for the empty sequence, else the G+C count over the length; it always lies in [0, 1]. |
| BuildPolaris.Take | org-OpenPlasmid/build_polaris.py:67-78 | Keeps the first n elements, or all of them when there are fewer. |
| BuildPolaris.Kept | org-OpenPlasmid/build_polaris.py:66-67 | Keeps exactly the names that are not 'bla' or 'op'. |
| BuildPolaris.DefineKeywords | org-OpenPlasmid/build_polaris.py:64-67 | At most 15 keywords. They are exactly the top-15 names other than 'bla' and 'op'. |
| BuildPolaris.KeptDescending | org-OpenPlasmid/build_polaris.py:67 | Filtering keeps a frequency-descending order. |
| BuildPolaris.KeywordsAscending | org-OpenPlasmid/build_polaris.py:67 | Given names ranked most frequent first, the keywords run from least to most frequent. |
| BuildPolaris.MapGenes | org-OpenPlasmid/build_polaris.py:69-70 | The result is NA iff no keyword matches any gene. Otherwise it is a keyword that matches some gene, the first in list order. |
| BuildPolaris.EntrezGenes | org-OpenPlasmid/build_polaris.py:73-76 | The row's list holds exactly the Entrez values of its Gene/Insert cells, at most one per cell. |
| BuildPolaris.EntrezGenesConcat | org-OpenPlasmid/build_polaris.py:73-76 | The list of a row is the lists of its parts, concatenated in order. |
| BuildPolaris.EntrezGenesOne | org-OpenPlasmid/build_polaris.py:73-76 | A cell contributes its upper-cased Entrez value if it has one, and nothing otherwise. |
| BuildPolaris.EntrezGenesRow | org-OpenPlasmid/build_polaris.py:73-76 | The list runs over Gene/Insert 1, 2 and 3 in that order, one entry per cell with a value. |
| BuildPolaris.IndexIn | org-OpenPlasmid/build_polaris.py:79 | Gives the first index of a name in the top list, or none when it is absent. |
| BuildPolaris.BestCommon | org-OpenPlasmid/build_polaris.py:81-85 | The result is NA iff no gene of the row is common; otherwise it is a common gene of the row. |
| BuildPolaris.CuratedEntrez | org-OpenPlasmid/build_polaris.py:78-85 | The curated value is NA iff none of the row's Entrez values is in the top 20. |
| BuildPolaris.CuratedIsTopRanked | org-OpenPlasmid/build_polaris.py:78-85 | The curated gene belongs to the row and the top 20. No other such gene is ranked more frequent. |
| ChemspaceUtils.EmbeddingColumns | utils.py:35-41 | Only "umap" and "tsne" are accepted. They give the columns `<method>_0` and `<method>_1`; anything else raises "Specify the embedding method". |
| ChemspaceUtils.LabelRows | utils.py:43-44 | The assignment succeeds iff every row label exists. Then the labelled rows hold the value and all other rows are unchanged; on failure nothing changes. |
| ChemspaceUtils.LabelSplit | utils.py:42-44 | Without a split or a split name nothing changes. Otherwise split[0] rows get "train" and then split[1] rows get "test", so "test" wins on overlap. A missing row in split[0] writes nothing; a missing row in split[1] leaves the "train" labels written. |
| ChemspaceUtils.FloorDiv | utils.py:54 | Python floor division: the quotient q with q·b ≤ a < q·b + b for positive b. |
| ChemspaceUtils.CeilDiv | utils.py:54 | Ceiling division for a positive divisor. |
| ChemspaceUtils.GridShape | utils.py:46-57 | Without data columns the grid is 1×1 whatever nrows is. With them, nrows 0 raises ZeroDivisionError, and otherwise the grid or error is the one GridOf gives, whose outcomes GridOfFails and GridOfCells state. |
| ChemspaceUtils.GridOfFails | utils.py:46-57 | With data columns, drawing raises exactly when nrows is 0 or negative, when there is no panel, or when the grid is a single cell, which has no `flatten`. |
| ChemspaceUtils.GridOfCells | utils.py:46-57 | A drawn grid has nrows rows and the least number of columns with ncols·nrows ≥ panels. The split panel takes the last cell, after every data cell. |
| ChemspaceUtils.CeilDivPanels | utils.py:54 | The column count is never negative, is 0 exactly when there is no panel, and equals the panel count for one row. |
| ChemspaceUtils.BucketBlob | utils.py:101-102 | A path of fewer than three '/'-parts raises. Otherwise the bucket is the third part and contains no '/'. |
| ChemspaceUtils.PathAroundBucket | utils.py:101-102 | The path is its first two parts, then the bucket and the remaining parts, joined by '/'. |
| ChemspaceUtils.BucketBlobRebuild | utils.py:101-102 | The first two parts, the bucket and the blob, joined by '/', give the path back; the blob is empty for a three-part path. |
| ChemspaceUtils.BlobParts | utils.py:102 | The blob's own '/'-parts are the path's parts after the bucket. |
| ChemspaceUtils.BucketBlobExample | utils.py:101-102 | "gs://b/k1/k2" gives bucket "b" and blob "k1/k2". |
| AurorisUtils.GcsToHttpsKeepsKey | utils/auroris_utils.py:43 | A gs path whose rest holds no further scheme becomes the https prefix followed by the same bucket and key. |
| AurorisUtils.GcsToHttpsNoScheme | utils/auroris_utils.py:43 | A path without "gs://" is unchanged. |
| AurorisUtils.Broadcaster.ImgToHtmlSrc | utils/auroris_utils.py:36-47 | A gs path gives its https rewrite. A file path gives its path relative to the broadcaster's destination. Any other protocol raises "We only support images hosted in GCP or locally". |
| AurorisUtils.SaveImage | utils/auroris_utils.py:55-58 | A path whose protocol is not gs is returned unchanged. |
| AurorisUtils.SaveImageAgrees | utils/auroris_utils.py:43-58 | On a gs path, `save_image` and `_img_to_html_src` return the same URL. |
| AurorisUtils.SaveImageGcs | utils/auroris_utils.py:56-57 | A gs path whose rest has no ':' becomes the https prefix followed by the same rest. |
| DocsUtils.Position | utils/docs_utils.py:23-24 | A valid numpy index, negative ones counted from the end, names one of the n elements. |
| DocsUtils.SplitLabel | utils/docs_utils.py:22-38 | Every entry is one of the hue_order values. It is "test" iff indexed by v[1], "train" iff indexed by v[0] and not v[1], and "nan" otherwise. |
| DocsUtils.Assign | utils/docs_utils.py:23-24 | The assignment succeeds iff every index is in range. Then the indexed elements hold the value and the others are unchanged; when an index is out of range nothing is written. |
| DocsUtils.MakeSplit | utils/docs_utils.py:22-24 | A fresh array of length len(X) is built, or IndexError is raised iff an index is out of range. Entry i of the array is the split label of i. |
| DocsUtils.SplitArrays | utils/docs_utils.py:19-26 | The call raises iff some entry has an out-of-range index. Otherwise `splits` and `labels` have one element per dict entry, in order: the labels are the keys and each split is that entry's label array. |

## Left out

- **HTTP and HTML.**
  - Requests, BeautifulSoup and page fetching are not modelled.
  - A page is the record of what the code reads from it: ID texts, next-button classes, headers and fields, the ids of the sequence sections and their links, and citation parts.
  - `fetch_page_content`, `extract_text`, `extract_flame_status`, `extract_field_label_content` and `extract_depositor_comments` are not part of this model; their results are fields of the page record.
- **Sleeping.**
  - The fixed 0.5-second delay and the back-off sleeps are not modelled.
  - The back-off durations are returned as a list of waits instead.
- **Concurrency.** The thread pools, `as_completed` ordering and the file lock are not modelled. Both pools are treated as a sequential map over their keys.
- **File and dataset I/O.**
  - The reading and writing of JSONL and CSV, `load_dataset`, `load_readme` and the GCS upload are not modelled.
  - `main`'s inputs, the plasmid IDs and the stored results, are parameters.
  - The records it would write are returned.
- **Chemistry, embeddings and plots.** Fingerprints, UMAP/TSNE, seaborn and matplotlib are not modelled, and neither is Bio.SeqIO parsing (`read_genbank`, `extract_cds_genes`). Nor is the writing of the embedding columns into the DataFrame, or the whole of `04_ADME_NCATS/utils.py`.
- **`get_protocol` and `os.path.relpath`** are function parameters.
- **`save_image`** is modelled from line 55 on; the PNG write before it is not modelled.
- **`Counter.most_common` and `value_counts`.** Their ranking, tie-breaks included, is an input sequence; the counting itself is not modelled.
- **Python `str()` of a dict.** A section can land in a scalar slot (for example a section titled 'Name' or 'Purpose'), and `check_expected_keys` then stores the dict's `repr`. `Repr` models the quote choice and the backslash, quote and ASCII control-character escapes. Python's escapes of non-ASCII non-printable characters, such as U+0085 or U+2028, are not modelled: those characters are kept as they are.
- AddgeneData.DoiOf: `\d` and IGNORECASE cover ASCII digits and letters only. Unicode digits and case folds such as 'ſ' or the Kelvin sign, which Python's `re` also accepts, are not modelled.
- BuildPolaris.CleanGeneName: `\w`, `\s` and IGNORECASE are modelled with ASCII letters, digits and `_` and the `isspace` whitespace set. Unicode word characters and case folds are not modelled. The final `.lower()` maps ASCII letters only; Python's Unicode lowering, which changes 'É' and can change lengths, is not modelled.
- BuildPolaris.EntrezOf: `.upper()` maps ASCII letters only. Python's Unicode upper-casing, under which 'ß' becomes 'SS', is not modelled.
- BuildPolaris.MapGenes: IGNORECASE compares ASCII letters only; Unicode case folds are not modelled.
- AddgeneData.CleanAuthors: `\d+` removes ASCII digits only.
- BuildPolaris.MapGenes: each keyword is matched as literal text rather than as a regex, because the keywords are cleaned gene names.
- BuildPolaris.GcContent: the result is an exact fraction, not a float.
- AddgeneIds.FetchPlasmidDataForCombo: a finite response sequence replaces the server, so running out of responses is an extra ending (`OutOfResponses`) that Python does not have.
- ChemspaceUtils.GridOf: the errors that matplotlib raises (a negative figure size, a grid of no column, `flatten` on a single Axes) are given by their exception type and a short message, not matplotlib's exact text.
- ChemspaceUtils.LabelSplit: the DataFrame's index is taken to be the positions 0..n-1, and a label outside it counts as a missing key.
