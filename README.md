# Notes app: the note-list logic, modelled and proved in Dafny

The notes app keeps a list of notes in the browser. Each note has an id, a title, a content text, up to six tags, a pinned flag, and creation and update times. The user can:

- add, edit, delete, clone and pin notes;
- narrow the list by a search text, a tag or "pinned only";
- order the list newest-first or oldest-first, with pinned notes always on top.

This project models the logic behind those actions in `script.js`, apart from the page that drives it:

| File | Module | What it models |
|---|---|---|
| `text.dfy` | `Text` | the string primitives used: `trim`, ASCII `toLowerCase`, `includes`, `split(",")` and `join` |
| `seqs.dfy` | `Seqs` | the array primitives used: `filter`, de-duplication through a `Set`, and `slice(0, n)` |
| `tags.dfy` | `Tags` | `cleanTags`: tag normalisation |
| `escape.dfy` | `Escape` | `escapeHTML`, with a decoder that inverts it |
| `notes.dfy` | `Notes` | the note record, the invariants of the list, and `notes.find` by id |
| `query.dfy` | `Query` | which notes are shown (`matchesSearch` and the filter in `render`) and the stable sort |
| `taglist.dfy` | `TagList` | the sorted, distinct tag list and the eight quick-filter tags of `renderTagUI` |
| `lifecycle.dfy` | `Lifecycle` | the changes each handler makes to the list, as functions from old list to new list, with lemmas relating them |
| `store.dfy` | `Store` | the module-level `notes` and `state` as the class `NoteStore`; its methods change the fields step by step, as the handlers do |

Each state-changing method of `NoteStore` is proved to leave `notes` equal to the matching `Lifecycle` function of the old list. Each also keeps the invariant `Valid()`:

- ids are unique;
- titles and contents are trimmed;
- every tag list is clean: no repeats, at most six tags, each non-empty, trimmed and without commas.

Each changing method also keeps "no note updated before it was created", as long as the clock has not gone back.

Where the model departs from what a reader might expect, it follows `script.js`:

- The list read back at start-up is not checked. `script.js:5` parses it with no guard, so a malformed value throws. The model takes the loaded list as a constructor argument that must already satisfy the invariant.
- Clone and pin (`script.js:276-287`) require that the id is present. With a missing id, `notes.find` yields `undefined`. Pin then throws. Clone spreads `undefined` into a record that has no title, content or tags. Neither case is a silent no-op.
- Saving the edit dialog accepts an empty title together with an empty content (`script.js:174-186`). Only adding refuses that (`script.js:84`).
- Clear all (`script.js:150-155`) empties the list only after confirmation.
- Deleting an id that is absent changes nothing: it is a filter.

## Model

| member | source | states |
|---|---|---|
| `Text.Trim` | script.js:80-81 | the trimmed text has no white space at either end and is no longer than the input |
| `Text.TrimSlice` | script.js:59 | trimming removes only white space, and only at the two ends: the result is a contiguous slice of the input with white space on both sides |
| `Text.TrimTrimmed` | script.js:179-180 | trimming text that is already trimmed changes nothing |
| `Text.Lower` | script.js:106 | lower-casing keeps the length and leaves no ASCII capital: each capital becomes its lower-case letter and every other character is kept |
| `Text.LowerIdempotent` | script.js:106 | lower-casing an already lower-cased text changes nothing |
| `Text.LowerFixed` | script.js:106 | lower-casing leaves a text unchanged exactly when it holds no ASCII capital |
| `Text.LowerContains` | script.js:210-212 | a substring match still holds after both sides are lower-cased |
| `Text.Split` | script.js:59 | `split(",")` yields at least one piece, and no piece contains a comma |
| `Text.JoinSplit` | script.js:59 | joining the pieces with "," gives back the input, so splitting loses nothing |
| `Text.SplitJoin` | script.js:59 | splitting a comma-join of comma-free pieces gives back the pieces |
| `Text.SplitNoComma` | script.js:59 | a text without commas is a single piece |
| `Text.SplitComma` | script.js:59 | a leading comma closes an empty first piece |
| `Text.SplitPrefix` | script.js:59 | a comma-free prefix joins the first piece of what follows it |
| `Seqs.Filter` | script.js:59 | `filter` never grows the list, and every element it keeps satisfies the predicate |
| `Seqs.FilterMembers` | script.js:59 | an element is kept by `filter` exactly when it occurs in the input and satisfies the predicate |
| `Seqs.FilterIsSubseq` | script.js:219-223 | what `filter` keeps is a subsequence of the input, in input order |
| `Seqs.FilterCount` | script.js:219-223 | each element satisfying the predicate keeps its full multiplicity; every other element has multiplicity zero |
| `Seqs.FilterIdempotent` | script.js:190 | filtering twice by the same predicate is filtering once |
| `Seqs.FilterKeepsAll` | script.js:271 | when every element satisfies the predicate, the filter returns its input |
| `Seqs.FilterAppend` | script.js:271 | filtering distributes over concatenation |
| `Seqs.FilterDropsOne` | script.js:271 | when exactly one position fails the predicate, the filter cuts that element out and closes the gap |
| `Seqs.FirstIndex` | script.js:58 | an element present in the list has a first position, and it does not occur before that position |
| `Seqs.Dedup` | script.js:58 | `Array.from(new Set(...))` has no repeats and holds exactly the elements of the input |
| `Seqs.DedupOrder` | script.js:58 | de-duplication keeps elements in the order of their first occurrence, which together with the above determines it |
| `Seqs.Take` | script.js:60 | `slice(0, n)` is a prefix of at most `n` elements, and it is the whole list when that list is shorter than `n` |
| `Tags.TrimAll` | script.js:59 | `map(t => t.trim())` trims every piece in place |
| `Tags.PiecesAre` | script.js:59 | a piece is exactly a non-empty trimmed comma-separated segment of the input; no piece is padded or contains a comma |
| `Tags.CleanTags` | script.js:56-61 | an empty input gives no tags. Otherwise the result has no repeats and at most six tags, each non-empty, trimmed and comma-free, and each a piece of the input |
| `Tags.CleanTagsOrder` | script.js:58-60 | the tags keep the order in which they first appear in the input |
| `Tags.CleanTagsDropsOnlyLater` | script.js:60 | a piece is left out only when six distinct pieces occurring before it were already kept |
| `Tags.TrimLeadingBlank` | script.js:162 | the blank after each ", " separator is removed again by trimming |
| `Tags.TrimSplitJoin` | script.js:162 | splitting and trimming tags joined with ", " gives back the tags |
| `Tags.TrimAllAfterSeparator` | script.js:162 | trimming the pieces after a ", " separator gives back the trimmed pieces of what follows it |
| `Tags.DedupDistinct` | script.js:58 | de-duplicating a list that has no repeats returns it unchanged |
| `Tags.CleanTagsOfJoined` | script.js:181 | cleaning a clean tag list joined with ", ", as the edit dialog shows it (script.js:162), gives back the same tags |
| `Tags.CleanTagsStable` | script.js:181 | cleaning is idempotent once its output has been joined back into text |
| `Escape.EscapeHTML` | script.js:72-76 | equals the one-pass encoder (`&<>"` to entities, a line feed to `<br>`, every other character unchanged); contains no `"` and no line feed; and decodes back to the input |
| `Escape.EscapeIsSinglePass` | script.js:73-75 | the entity pass followed by the line-break pass equals the one-pass encoder, so an inserted `<br>` is never escaped |
| `Escape.EncodeOmitsQuoteAndNewline` | script.js:72-76 | escaped text has no double quote and no line feed |
| `Escape.UnescapeEncode` | script.js:72-76 | decoding inverts the encoder, so two different texts never escape alike |
| `Escape.UnescapeStep` | script.js:73-75 | one encoded character decodes back to itself whatever text follows it |
| `Escape.UnescapeReplaced` | script.js:74-75 | each entity and `<br>` is read back as the character it replaced |
| `Escape.UnescapeKept` | script.js:73-75 | a character that is not replaced is read back as itself |
| `Escape.BreakLinesAppend` | script.js:75 | the line-break pass works piecewise on a concatenation |
| `Escape.BreakLinesWithoutNewline` | script.js:75 | the line-break pass leaves a text without line feeds unchanged |
| `Notes.FindIndex` | script.js:267 | `find` by id returns the first position carrying the id, and finds nothing exactly when no note carries it |
| `Notes.FindIndexUnique` | script.js:176 | with unique ids, `find` returns the only note carrying the id |
| `Notes.FindIndexByIds` | script.js:267 | what `find` returns depends only on the sequence of ids |
| `Query.FilterVisible` | script.js:219-223 | the filtered list is a subsequence of the stored list, and it holds exactly the notes that are pinned if "pinned only" is on, carry the chosen tag unless the tag is `*`, and match the search |
| `Query.FilterVisibleCount` | script.js:219-223 | each visible note appears as often as it is stored; a hidden note appears nowhere |
| `Query.PrecedesDistinguishesKeys` | script.js:225-231 | the comparator calls two notes equal exactly when they agree on pinned flag and update time |
| `Query.Insert` | script.js:225-231 | inserting one note adds exactly that note |
| `Query.InsertSorted` | script.js:225-231 | inserting into a sorted list keeps it sorted |
| `Query.InsertElements` | script.js:225-231 | every entry after inserting is the inserted note or an entry of the list |
| `Query.SortedCons` | script.js:225-231 | a note that no entry of a sorted list precedes can go in front of it, and the list stays sorted |
| `Query.SortNotes` | script.js:225-231 | the sort returns a permutation of its input that is sorted by the comparator |
| `Query.InsertWithKey` | script.js:225-231 | inserting a note puts it before every note with the same key |
| `Query.SortStable` | script.js:225-231 | the sort is stable: notes with the same key keep their relative order |
| `Query.SortedOrder` | script.js:226-230 | sorted means pinned notes first, then update times non-increasing when sorting by most recent and non-decreasing otherwise |
| `Query.VisibleNotesSpec` | script.js:216-231 | the displayed list holds the visible notes with their multiplicities, pinned first, update times monotonic within each group, and equal keys in storage order |
| `Query.SearchIgnoresCase` | script.js:207-213 | because the query is lower-cased when stored (script.js:106), a note matches whenever some part of its title equals the typed text apart from letter case |
| `Query.SearchIgnoresCaseExample` | script.js:207-213 | the typed text "HELLO" finds the title "Hello", which does not contain it verbatim |
| `TagList.InsertString` | script.js:197 | inserting one tag adds exactly that tag |
| `TagList.InsertStringAscending` | script.js:197 | inserting into an ascending list keeps it ascending |
| `TagList.SortStrings` | script.js:197 | `sort()` returns an ascending permutation of its input |
| `TagList.AllNoteTags` | script.js:197 | `flatMap(n => n.tags)` holds exactly the tags of some note |
| `TagList.AllTags` | script.js:197 | the tag choices are exactly the tags in use, strictly ascending, so none appears twice |
| `TagList.QuickTags` | script.js:200-201 | the quick tags are a prefix of the tag choices, at most eight long, and a tag is missing from them only when eight smaller tags are shown |
| `Lifecycle.Create` | script.js:79-95 | refused exactly when both trimmed fields are empty. Otherwise the list grows by one, the old list follows unchanged, and the new note in front has the given id, trimmed fields, cleaned tags, is unpinned, and has both times equal to now |
| `Lifecycle.Edit` | script.js:174-182 | with no note carrying the id, the list is unchanged. Otherwise that note gets trimmed title and content, cleaned tags and the new update time, keeps its id, pin and creation time, and every other note is untouched |
| `Lifecycle.RemoveId` | script.js:190 | exactly the notes not carrying the id remain, each as often as before and in their order, and none carries the id (also script.js:271) |
| `Lifecycle.Clone` | script.js:276-278 | the list grows by one with the old list unchanged behind a copy of the found note that has the new id, the same title, content, tags and pin, and the two clock readings as creation and update time |
| `Lifecycle.TogglePin` | script.js:283-285 | the found note's pin is flipped and its update time set; its other fields and every other note are unchanged |
| `Lifecycle.CreateKeepsInvariants` | script.js:84-95 | with a fresh id, creating keeps ids unique, fields trimmed and tags clean, and keeps the times in order |
| `Lifecycle.EditKeepsInvariants` | script.js:179-182 | editing keeps the invariants, and keeps the times in order when no note was created after now |
| `Lifecycle.BlankEditAccepted` | script.js:177-182 | an empty title with an empty content is refused by create yet written by edit |
| `Lifecycle.SaveUnchangedDialog` | script.js:158-162 | saving the edit dialog as it was opened changes nothing but that note's update time |
| `Lifecycle.CreateExamples` | script.js:80-84 | nothing written is refused, while a blank title with the content "x" is accepted |
| `Lifecycle.FilterUniqueIds` | script.js:190 | filtering a list with unique ids keeps them unique |
| `Lifecycle.RemoveIdKeepsInvariants` | script.js:190 | deleting keeps every invariant |
| `Lifecycle.CloneKeepsInvariants` | script.js:277-278 | with a fresh id, cloning keeps ids unique, fields trimmed and tags clean, and keeps the times in order when the second clock reading is not earlier than the first |
| `Lifecycle.TogglePinKeepsInvariants` | script.js:284-285 | pinning keeps the invariants, and keeps the times in order when no note was created after now |
| `Lifecycle.RemoveIdTwice` | script.js:271 | deleting the same id twice is deleting it once |
| `Lifecycle.RemoveIdAbsent` | script.js:271 | deleting an id that no note carries changes nothing |
| `Lifecycle.RemoveIdUnique` | script.js:271 | with unique ids, deleting cuts exactly the one note out and closes the gap |
| `Lifecycle.RemoveUndoesCreate` | script.js:87-95 | deleting a note just created restores the old list |
| `Lifecycle.RemoveUndoesClone` | script.js:277-278 | deleting a clone by its new id restores the old list |
| `Lifecycle.TogglePinTwice` | script.js:284-285 | pinning twice restores the pin; the list then differs from the original only in that note's update time |
| `Store.NoteStore.constructor` | script.js:5-13 | the store starts with the loaded list, an empty search, tag `*`, newest first, "pinned only" off and no note being edited |
| `Store.NoteStore.Render` | script.js:216-259 | changes nothing and returns the displayed list (the visible notes, pinned first), the tag choices, the quick tags and the note count |
| `Store.NoteStore.Add` | script.js:79-102 | reports refusal exactly as `Create` refuses and leaves the list unchanged then; otherwise the list becomes the one `Create` gives. Keeps the invariants and the order of times |
| `Store.NoteStore.SetSearch` | script.js:105-108 | stores the lower-cased query, which every note whose title contains the typed text apart from letter case matches |
| `Store.NoteStore.SetTagFilter` | script.js:110-113 | stores the chosen tag, as the drop-down and a click on a tag (script.js:289-293) both do |
| `Store.NoteStore.ToggleSortOrder` | script.js:115-119 | flips between newest first and oldest first |
| `Store.NoteStore.TogglePinnedOnly` | script.js:121-125 | flips "pinned only" |
| `Store.NoteStore.OpenEditor` | script.js:158-165 | records the note being edited and returns its title, content and tags joined with ", " |
| `Store.NoteStore.CloseEditor` | script.js:167-170 | no note is being edited any more |
| `Store.NoteStore.SaveEdit` | script.js:174-186 | writes the four fields of the edited note, leaving the list that `Edit` gives (unchanged when no note is being edited), then closes the dialog. Keeps the invariants |
| `Store.NoteStore.DeleteEditing` | script.js:188-193 | unconfirmed, changes nothing. Confirmed, removes the edited id as `RemoveId` does and closes the dialog |
| `Store.NoteStore.DeleteNote` | script.js:269-274 | once confirmed, the list becomes the one `RemoveId` gives; invariants kept |
| `Store.NoteStore.CloneNote` | script.js:276-280 | the list becomes the one `Clone` gives for the two clock readings; invariants kept |
| `Store.NoteStore.TogglePinNote` | script.js:283-287 | the list becomes the one `TogglePin` gives; invariants kept |
| `Store.NoteStore.ClearAll` | script.js:150-155 | once confirmed, the list is empty; otherwise it is unchanged |

## Left out

- Page handling is not modelled: the element lookups, event wiring, HTML templates (script.js:233-255), showing and hiding the dialog, keyboard shortcuts and the theme. The model's methods are the handlers' effects on `notes` and `state`.
- Tags are inserted into the page's HTML without `escapeHTML` (script.js:199, 202, 247). Rendering is not modelled, so this is not captured.
- Storage is not modelled: `localStorage`, `JSON.parse` and `JSON.stringify` (script.js:5, 52, 154). `save` is reduced to the change of `notes`. The start-up list is a constructor argument.
- The JSON and text exports (script.js:137-147) and `download` (script.js:63-70) are browser file output with a locale-dependent date format.
- `uid` (script.js:48) and `new Date()` are replaced by parameters: a fresh id (a precondition) and integer clock readings, one per `new Date()` call: create takes one, clone two. ISO timestamps are integers ordered like the instants they denote, so unparsable dates (NaN in the comparator) cannot arise.
- `alert` and `confirm` are replaced by the boolean `confirmed` or by the `Failure` result of `Create`.
- The rendered title uses `n.title || "(no title)"` (script.js:237). This is display text only and is not modelled.
- Text.Lower: lower-cases ASCII letters only. `toLowerCase` applies full Unicode case mapping, including mappings that change the length of the text.
- TagList.SortStrings: compares Unicode scalar values. `sort()` compares UTF-16 code units, which orders characters above U+FFFF differently.
- Store.NoteStore.SaveEdit: keeps the times in order only when no stored note was created after `now`, that is, when the clock has not gone back. `Date` gives no such guarantee.
- Store.NoteStore.TogglePinNote: the same condition on the clock applies.
- Store.NoteStore.CloneNote: keeps the times in order only when the second clock reading is not earlier than the first.
- Objects are shared by reference in the source: a clone shares its `tags` array with the original, and `find` returns the stored object. The model works on values instead. This is harmless here because no handler changes a tags array in place; edits assign a new array.
- Store.NoteStore.CloneNote: requires the id to be present. With a missing id the source inserts a record without title, content or tags, which the note datatype cannot represent.
