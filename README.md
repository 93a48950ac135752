# Card scanner: a verified model of its contact logic

The card scanner is a browser app that photographs business cards and
keeps the cards as a list of contacts in local storage. Two copies of the
app script exist:
- `docs/app.js` reads the photo with OCR.
- `docs/app-simple.js` only stores the photo and lets the user type the
  fields.

Both copies share the same logic, and this project models it in Dafny:

- **Contact store** (`store.dfy`). The class `Store.CardScanner` holds the page state: `contacts`, `currentFilter`, `editingId`, `capturedImage`, and what storage holds.
  - `SaveContact`: inserting prepends the card; editing replaces the card found under `editingId`.
  - `ViewContact`: opens the card in the editor, or deletes it.
  - `OpenEditModal` resets `editingId`.
  - `LoadContacts` and `SaveContacts` store and restore a snapshot of the list.
  - The methods are proved against the pure functions `Upsert` and `RemoveById`. Lemmas about those functions cover position, length, "nothing else changes", id preservation and order.
- **Filter and search** (`search.dfy`): the filtering part of `renderContacts`.
  - First a category filter, unless the "全部" ("all") chip is selected.
  - Then a substring search over name, company, phone and email. Name, company and email are lower-cased; the phone is not.
- **Category chips** (`search.dfy`): `renderFilterChips` lists "全部", then the distinct non-empty categories in first-seen order.
- **OCR field extractor** (`extract.dfy`, `docs/app.js` only): `parseOCRText`.
- **Editor filling** (`editor.dfy`): which form values `openEditModal` shows for a draft.
- **JavaScript string and array operations** (`text.dfy`, `seqs.dfy`), each specified by what makes it what it is:
  - strings: `trim`, `split`, `includes`, `toLowerCase`, `replace(/\s+/g, ' ')`;
  - arrays: `map`, `filter`, `find`, `findIndex`, `[...new Set(xs)]`.

The two scripts are identical in the modelled logic, with two exceptions:
- `openEditModal`'s notes line differs (`docs/app.js:259` against `docs/app-simple.js:187`).
- `takePicture` differs: OCR in one, a placeholder note in the other.

Each row below cites one of the two files.
- Up to line 144 (loading and saving, the search, the chips, the filter chip handler) the two files hold the same modelled code at the same lines.
- From `openEditModal` on, `docs/app-simple.js` holds the same modelled code further up: `docs/app.js:331` is `docs/app-simple.js:260`.
- `parseOCRText`, the OCR branch of `takePicture` and the notes line `docs/app.js:259` have no counterpart in `docs/app-simple.js`.
- Three other differences lie outside the model, because they only change messages:
  - the camera error text (`docs/app-simple.js:128` adds a hint about camera permission);
  - the save confirmation, which is an `alert` at `docs/app.js:315` and a toast at `docs/app-simple.js:244`;
  - the delete toast at `docs/app-simple.js:264`, which `docs/app.js` lacks.

Inputs that the page takes from outside are parameters:
- the clock (`Date.now()`, the ISO time stamp);
- the recognised OCR text, or its failure;
- the first match of each of the three regular expressions;
- the form's field values;
- the answers to the two `confirm` dialogs.

## Model

| member | source | states |
|---|---|---|
| `Seqs.Map` | docs/app.js:93 | definition of `map` (also used at docs/app.js:215); the result has the list's length |
| `Seqs.Filter` | docs/app.js:45 | definition of `filter`; the result is never longer than the list; membership in `Seqs.FilterMembers`, order in `Seqs.FilterKeepsOrder` |
| `Seqs.FilterMembers` | docs/app.js:45 | `filter` keeps an element exactly when it is in the list and passes the test |
| `Seqs.FilterKeepsOrder` | docs/app.js:51-56 | `filter` is stable: the result is the elements at the ascending indices where the test holds, and every such index is kept |
| `Seqs.FindIndex` | docs/app.js:303 | `findIndex` gives the first index whose element passes the test, or -1 (`None`) when none does |
| `Seqs.Find` | docs/app.js:320 | `find` gives the first element that passes the test, and is `undefined` (`None`) exactly when none does |
| `Seqs.FilterHeadIsFind` | docs/app.js:216-217 | the first element `filter` keeps is the one `find` returns with the same test |
| `Seqs.FilterFilter` | docs/app.js:44-56 | two filters in a row equal one filter by the conjunction of their tests |
| `Seqs.FilterIdempotent` | docs/app.js:45 | filtering again by the same test changes nothing |
| `Seqs.IndexOfFilter` | docs/app.js:93 | filtering keeps the first-occurrence order of the elements it keeps |
| `Seqs.Distinct` | docs/app.js:93 | definition of `[...new Set(xs)]`; properties in `Seqs.DistinctSpec` and `Seqs.DistinctUnique` |
| `Seqs.DistinctSpec` | docs/app.js:93 | `[...new Set(xs)]` has no duplicates, has exactly the members of `xs`, and lists them by first occurrence |
| `Seqs.DistinctUnique` | docs/app-simple.js:93 | any duplicate-free list of the same members in first-occurrence order equals `[...new Set(xs)]` |
| `Text.Contains` | docs/app.js:52-55 | definition of `includes`; meaning in `Text.ContainsSpec` |
| `Text.ContainsSpec` | docs/app.js:52-55 | `includes` holds exactly when the needle occurs at some index of the string |
| `Text.ContainsLower` | docs/app.js:50-52 | an occurrence survives lower-casing both strings |
| `Text.Lower` | docs/app.js:50-55 | definition of `toLowerCase` on ASCII letters, of the same length; properties in `Text.LowerIdempotent` and `Text.ContainsLower` |
| `Text.LowerIdempotent` | docs/app.js:50 | lower-casing twice is lower-casing once |
| `Text.IsSpace` | docs/app.js:205 | definition of JavaScript's white-space and line-terminator characters, which `trim` strips (docs/app.js:215) and `\s` matches: U+0009–U+000D, U+0020, U+00A0, U+1680, U+2000–U+200A, U+2028, U+2029, U+202F, U+205F, U+3000, U+FEFF |
| `Text.Trim` | docs/app.js:215 | `trim` leaves a string with no white space at either end, cut out of the original between two runs of white space |
| `Text.TrimUnique` | docs/app.js:215 | `trim` returns the only such string: white space, then a middle with no white space at its ends, then white space, trims to that middle |
| `Text.TrimIdempotent` | docs/app.js:205 | trimming twice is trimming once |
| `Text.Split` | docs/app.js:215 | `split('\n')` gives at least one piece, no piece holds a line feed, and joining the pieces with line feeds gives the text back |
| `Text.SplitUnique` | docs/app.js:215 | the pieces are the only separator-free list that joins back to the text |
| `Text.CollapseSpaces` | docs/app.js:205 | `replace(/\s+/g, ' ')` leaves only plain single spaces as white space, never two adjacent, and begins as the input begins |
| `Text.CollapseRun` | docs/app.js:205 | a run of white space between text that does not border it with white space becomes exactly one space, and each side collapses on its own |
| `Text.CollapseNoSpace` | docs/app.js:205 | text without white space is left as it is |
| `Text.CollapseLast` | docs/app.js:205 | the collapsed text ends in a space exactly when the text ends in white space, and otherwise in the text's last character |
| `Text.CollapseKeepsVisible` | docs/app.js:205 | the white-space collapse keeps every other character, in order |
| `Search.MatchesQuery` | docs/app.js:51-56 | definition of the search test; meaning in `Search.QueryFilter` |
| `Search.FilterContacts` | docs/app.js:41-56 | definition of the category step then the search step; properties in `Search.FilterContactsSpec`, `Search.CategoryOnly`, `Search.QueryFilter` |
| `Search.FilterContactsSpec` | docs/app.js:41-56 | category step then search step is one stable filter by "in the category and matching the query", and lists exactly those contacts |
| `Search.AllWithoutQuery` | docs/app-simple.js:41-49 | with "全部" selected and an empty query, the list is `contacts` unchanged |
| `Search.CategoryOnly` | docs/app-simple.js:44-46 | with a category chip and no query, the list is the order-preserving subsequence of contacts of exactly that category |
| `Search.QueryFilter` | docs/app-simple.js:49-56 | with a query, a contact of the category is listed iff its lower-cased name, company or email, or its raw phone, contains the lower-cased query |
| `Search.FilterContactsIdempotent` | docs/app.js:41-56 | filtering the filtered list again changes nothing |
| `Search.QueryCaseInsensitive` | docs/app.js:50 | a query typed in capitals lists the same contacts as its lower-case form |
| `Search.FoundInAnyCase` | docs/app.js:52-55 | a contact whose name, company or email contains the query in its own case passes the search |
| `Search.RenderContacts` | docs/app.js:59-71 | cards are shown iff some contact passes both steps, exactly those and in list order; otherwise the empty state says "no match" iff a query was typed |
| `Search.FilterChips` | docs/app.js:92 | the chip list starts with "全部" |
| `Search.FilterChipsSpec` | docs/app.js:93 | after "全部" come the non-empty categories of the contacts, each once, ordered by the first contact that carries them |
| `Search.FilterChipsUnique` | docs/app-simple.js:92-93 | the chip list is the only list with those properties |
| `Search.AllChipRepeats` | docs/app.js:93 | a contact filed under the literal category "全部" makes a second "全部" chip |
| `Extract.FindKeywordLine` | docs/app.js:220-236 | `lines.find` with a keyword test gives the first line holding a keyword, and nothing exactly when no line holds one |
| `Extract.Lines` | docs/app.js:215 | definition of the split, trim and blank filter; properties in `Extract.LinesSpec` |
| `Extract.LinesSpec` | docs/app.js:215 | every line is non-empty, trimmed, free of line feeds, and cut from one line of the text; the lines are exactly the non-blank trimmed pieces, at ascending piece indices, so in text order |
| `Extract.NormalizePhone` | docs/app.js:203-206 | the stored phone has no white space at its ends, only single plain spaces inside, and every other character of the match in order |
| `Extract.NormalizePhoneRun` | docs/app.js:205 | inside a phone number each run of white space between two parts becomes exactly one space, and each part is cleaned up on its own |
| `Extract.NormalizePhonePadded` | docs/app.js:205 | white space around a phone number is dropped whole |
| `Extract.NormalizePhoneNoSpace` | docs/app.js:205 | a phone number without white space is stored as it is |
| `Extract.ParseOCRText` | docs/app.js:191-239 | keeps the full text; the name is the first non-blank trimmed line; company and job title are the first line with one of their keywords, absent iff none; email and web site are the matches; the phone is present iff matched, and is then `Extract.NormalizePhone` of the match (so the lemmas on that function fix it); all other fields absent |
| `Extract.NameIsFirstLine` | docs/app.js:215-218 | whatever the regular expressions match, the name is absent iff no line is left, and otherwise it is the first line |
| `Editor.EditorForm` | docs/app.js:250-258 | definition of the form `openEditModal` fills as written; properties in `Editor.ScanNotesLost` and `Editor.EditorShowsContact` |
| `Editor.ScanNotesLost` | docs/app.js:259 | as written, the notes of a scanned card are always empty |
| `Editor.ScanNotesKept` | docs/app.js:259 | with the fallback working (`Editor.EditorFormFixed`), the notes of a scanned card are its recognised text, for every recognised text |
| `Editor.FixedAgrees` | docs/app-simple.js:179-187 | the corrected filling differs from the as-written one exactly when the draft has no notes of its own but has recognised text |
| `Editor.EditorShowsContact` | docs/app-simple.js:179-187 | opening a saved contact shows exactly its fields, and the corrected filling agrees |
| `Store.SavedContact` | docs/app.js:286-299 | definition of the contact `saveContact` builds; properties in `Store.UpsertInsert` and `Store.UpsertEdit` |
| `Store.Upsert` | docs/app.js:301-308 | definition of the list after a save; properties in `Store.UpsertInsert`, `Store.UpsertEdit`, `Store.UpsertZeroInserts`, `Store.UpsertKeepsIdsUnique` |
| `Store.UpsertInsert` | docs/app.js:286-308 | an insert puts the new card first, stamped with the clock value and the current time, and moves every old entry one place down unchanged |
| `Store.UpsertZeroInserts` | docs/app.js:287 | an `editingId` of 0 is falsy: the save stamps the clock value and inserts, as with none |
| `Store.UpsertEdit` | docs/app-simple.js:225-232 | an edit under a truthy id replaces the first entry with that id at its index, keeps its id and `createdAt`, keeps its image unless a photo was captured, and changes nothing else |
| `Store.SaveUnchangedIsIdentity` | docs/app.js:297-304 | saving an opened contact's own fields without a new photo leaves the list unchanged |
| `Store.UpsertKeepsIdsUnique` | docs/app.js:287 | an insert under a fresh clock value, and any edit, keeps the ids distinct |
| `Store.RemoveById` | docs/app.js:331 | definition of the delete; properties in `Store.RemoveByIdSpec`, `Store.RemoveAbsent`, `Store.RemoveUnique`, `Store.RemoveKeepsIdsUnique` |
| `Store.RemoveByIdSpec` | docs/app.js:331 | a delete keeps exactly the entries with another id, at ascending indices of the old list |
| `Store.RemoveAbsent` | docs/app-simple.js:260 | deleting an id that is not in the list changes nothing |
| `Store.RemoveUnique` | docs/app.js:331 | with distinct ids, deleting a present id removes exactly its slot, and the list shrinks by one |
| `Store.RemoveKeepsIdsUnique` | docs/app-simple.js:260 | a delete keeps the ids distinct |
| `Store.CardScanner.constructor` | docs/app.js:2-5 | the page starts with no contacts, the "全部" filter, nothing being edited and no photo |
| `Store.CardScanner.LoadContacts` | docs/app.js:25-30 | the list becomes the stored one when there is one, and is otherwise kept; `editingId` stays non-zero |
| `Store.CardScanner.SaveContacts` | docs/app.js:33-35 | storage holds a snapshot of the list |
| `Store.CardScanner.FilterByCategory` | docs/app.js:103-107 | the selected chip becomes the given category |
| `Store.CardScanner.OpenEditModal` | docs/app-simple.js:170-202 | the form shows the draft's truthy fields as written (`Editor.EditorForm`, so the notes only from the draft's own notes), and `editingId` is the draft's id when it is truthy, otherwise null |
| `Store.CardScanner.CloseEditModal` | docs/app.js:277-280 | the captured photo is dropped |
| `Store.CardScanner.SaveContact` | docs/app.js:283-316 | the list becomes the upsert of the form's card and is stored; with no truthy `editingId` the list grows by one at the front, under one it keeps its length; the photo is dropped; `editingId` is never 0 |
| `Store.CardScanner.ViewContact` | docs/app-simple.js:248-267 | an unknown id does nothing; "edit" opens the first contact with the id; a confirmed delete removes every entry with the id and stores the list |
| `Store.CardScanner.TakePicture` | docs/app.js:145-188 | the photo is kept; recognised text opens the editor on the parsed fields as a new card, with the notes field empty as written; a failure changes nothing else |
| `Store.CardScanner.TakePictureManual` | docs/app-simple.js:145-167 | the photo is kept and the editor opens as a new card with the "type it in" note; `editingId` is never 0 afterwards |
| `Store.ScanThenSave` | docs/app-simple.js:176-199 | taking a picture resets `editingId`, so whatever was being edited before, the next save inserts the new card at the front; afterwards nothing is being edited, the photo is dropped and the selected chip is unchanged |
| `Store.SaveThenLoad` | docs/app.js:25-35 | loading after saving gives back the same list, storage holds it, and the other fields are unchanged |

The keyword lists are exactly those in `parseOCRText`:
- company: 公司, 企業, 集團, `Co.`, `Ltd`, `Inc`;
- job title: 總經理, 經理, 董事, `CEO`, `CTO`, `Manager`.

"Corp" is not one of them, so a line "Acme Corp" does not become the company.

## Left out

- DOM, HTML templates, the camera, canvas capture, `alert`/`confirm`/toast, the service worker and the `Tesseract.recognize` call are not modelled. Their results are parameters.
- `Store.CardScanner.TakePicture` runs as one step. In the source, `await Tesseract.recognize` (`docs/app.js:168`) lets other handlers run between capturing the photo (`docs/app.js:158`) and opening the editor (`docs/app.js:182`). For example, another card can be edited and saved in that window, taking the new photo and clearing `capturedImage`. Such interleavings are not modelled.
- The email, phone and URL regular expressions are not modelled. Their first matches are inputs (`Extract.RegexMatches`); only the phone clean-up is modelled.
- JSON encoding and `localStorage` are a snapshot of the list. Malformed stored data, which `JSON.parse` would throw on, is not modelled.
- `Text.Lower` lower-cases the ASCII letters only, while `toLowerCase` (applied to the name, company, e-mail and query) maps every cased letter. So the model's search misses matches JavaScript finds: a query "é" finds "É" in JavaScript but not in the model, and likewise for full-width, Greek and Cyrillic letters.
- The form's reset values are taken to be empty strings. The HTML form, including any default option of the category selector, is not part of this model.
- `Store.CardScanner.SaveContact` and `Store.Upsert` cover editing under a truthy `editingId` only when an entry with that id exists. If none does, the source writes `contacts[-1]`, a property that is not an array element; that case is excluded by a precondition.
- `Store.CardScanner.ViewContact` takes the two `confirm` answers as inputs.
- `Store.CardScanner.TakePicture` models the OCR outcome as an input. On failure the photo stays captured, as in the source, so a later save may attach it.
- Rendering a card reads `contact.name[0]`, which fails for an empty name and no image. Card rendering is not modelled.

## Findings

| source | as written | input that shows it | evidently intended | confidence | as-written member | corrected member |
|---|---|---|---|---|---|---|
| docs/app.js:259 | the fallback to `data.fullText` sits inside the test `if (data.notes)`, so it never runs | any scanned card, e.g. recognised text "Jane Doe": `parseOCRText` sets `fullText` but no `notes`, and the notes field stays empty | the recognised text fills the notes when the draft has none | not executed | `Editor.ScanNotesLost` | `Editor.ScanNotesKept` |

The class `Store.CardScanner` fills the form as written (`Editor.EditorForm`),
which is exactly what `docs/app-simple.js:179-187` does and what
`docs/app.js:250-259` does. The corrected filling is `Editor.EditorFormFixed`;
`Editor.FixedAgrees` states exactly for which drafts the two differ, and
`Editor.ScanNotesKept` proves the intended behaviour for every scanned card.
