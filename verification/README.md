# Prompt Weaver, modelled in Dafny

Prompt Weaver is a small web application for building AI image prompts. A user
keeps **projects**. A project holds **categories**, and a category holds
**terms** (a text plus an optional image). Clicking terms builds an ordered
**selection**. The selection is joined with `", "` into the **prompt**, which
can be copied, saved as a **template** or recorded in the **prompt history**.
The editor also has a generic **undo/redo history** hook.

This project models that logic as immutable datatypes and pure functions:

| file | module | models |
|---|---|---|
| `undo_redo.dfy` | `UndoRedo` | the `useUndoRedo` hook as a `(past, current, future)` record with `SetState`, `Update`, `Undo`, `Redo`, `Reset` |
| `editor.dfy` | `Editor` | the page's `Term`/`Category`/`Project` records and every handler for projects, categories, terms and the selection, as `Workspace -> Workspace` functions |
| `prompt.dfy` | `Prompt` | the prompt string (`join(", ")`), the copy guard, and the round trip with the template parser |
| `templates_view.dfy` | `TemplateLibrary` | the template page: parsing comma-separated terms, saving under a name, deleting by id |
| `template_dialog.dfy` | `TemplateDialog` | the editor's template dialog: saving the current selection, deleting by id |
| `history.dfy` | `PromptHistory` | `addToHistory`: newest first, at most 50 entries |
| `text.dfy` | `Text` | the JavaScript string operations used: `trim`, `split` on one character, `join` |
| `seqs.dfy` | `Seqs` | `filter` and `map` on arrays, with subsequence and counting facts |
| `optional.dfy` | `Optional` | optional values (`image?`) |

The design choices below follow the source code.

- Ids from `Date.now()` or `crypto.randomUUID()` are a `freshId` parameter. The history timestamp is a `now` parameter.
- The hook tests "state changed" with `JSON.stringify` equality. The model uses structural equality on the value.
- `trim` removes exactly the ECMAScript WhiteSpace and LineTerminator characters, listed in `Text.IsSpace`.
- Every handler edits *all* projects whose id equals the active id, and *all* categories whose id equals the addressed id, exactly as the `map` calls in the source do. Ids are not assumed unique.

The model follows the code in these behaviours, which a reader might not expect:

- **Removing a term.** `handleRemoveTerm` does not stop at the first term with the text: it removes *every* such term, and it removes *every* occurrence of the text from the selection itself.
- **Deleting a project while every project carries its id.** The `find(...)!` in `handleDeleteProject` fails in that case. The list update has already been queued, so the model empties the list and keeps the active id.
- **Clearing all data** keeps the active project id, pointing at nothing.
- **`redo`** appends to `past` without cutting it to `maxHistory`. The bound still holds for `|past| + |future|` (`UndoRedo.RunBounded`).

## Model

| member | source | states |
|---|---|---|
| UndoRedo.Init | src/hooks/useUndoRedo.ts:13-16 | the hook starts on the initial value with nothing to undo or redo |
| UndoRedo.SetState | src/hooks/useUndoRedo.ts:18-42 | the new value becomes current; a value equal to the current one changes nothing at all (the redo stack survives); otherwise the redo stack is emptied and the undo stack has `min(old length + 1, maxHistory)` entries |
| UndoRedo.SetStateDropsOldest | src/hooks/useUndoRedo.ts:30-35 | after an accepted `setState` the undo stack is a tail of the old stack followed by the old current value, so only the oldest entries are evicted |
| UndoRedo.Update | src/hooks/useUndoRedo.ts:18-42 | the updater form is `setState` of the function applied to the current value: an unchanged result is a no-op; a changed one clears the redo stack, leaves `min(old length + 1, maxHistory)` undo entries forming a tail of the old stack plus the old current value, and the newest undo entry is the old current value whenever `maxHistory > 0` |
| UndoRedo.Undo | src/hooks/useUndoRedo.ts:51-63 | with an empty undo stack nothing changes; otherwise the newest undo entry becomes current, leaves the undo stack, and the old current value heads the redo stack |
| UndoRedo.Redo | src/hooks/useUndoRedo.ts:65-77 | with an empty redo stack nothing changes; otherwise the first redo entry becomes current and the old current value is appended to the undo stack |
| UndoRedo.Reset | src/hooks/useUndoRedo.ts:45-49 | `reset(v)` makes `v` current and leaves nothing to undo or redo |
| UndoRedo.CanUndo | src/hooks/useUndoRedo.ts:84 | `canUndo` holds exactly when `undo` would change the state |
| UndoRedo.CanRedo | src/hooks/useUndoRedo.ts:85 | `canRedo` holds exactly when `redo` would change the state |
| UndoRedo.SetStateTwice | src/hooks/useUndoRedo.ts:25-28 | setting the same value twice in a row gives the same state as setting it once: the second call is ignored and records no history |
| UndoRedo.UndoRedoRoundTrip | src/hooks/useUndoRedo.ts:51-77 | when undo is possible, `undo` then `redo` restores the exact `(past, current, future)` triple |
| UndoRedo.RedoUndoRoundTrip | src/hooks/useUndoRedo.ts:51-77 | when redo is possible, `redo` then `undo` restores the exact triple |
| UndoRedo.RunBounded | src/hooks/useUndoRedo.ts:30-77 | from a state with `|past| + |future| <= maxHistory`, every sequence of `setState`, `undo`, `redo` and `reset` keeps that bound |
| UndoRedo.NewestAppend | src/hooks/useUndoRedo.ts:31-34 | cutting to the newest `n` entries before appending more gives the same newest `n` as cutting once afterwards |
| UndoRedo.SetAllEvictsOldest | src/hooks/useUndoRedo.ts:30-37 | after any run of accepted `setState` calls the undo stack is exactly the newest `maxHistory` superseded values, oldest first (first in, first out), and the redo stack is empty |
| UndoRedo.EvictionScenario | src/hooks/useUndoRedo.ts:30-63 | with room for two entries, committing b, c, d after a leaves b, c to undo; two undos reach b and a third is impossible |
| Editor.InitialWorkspace | src/pages/Index.tsx:40-100 | the built-in projects open on an existing project with an empty selection |
| Editor.AddProject | src/pages/Index.tsx:128-141 | a blank name changes nothing; otherwise exactly one project is appended after the unchanged old ones: the fresh id, the trimmed name (so non-empty and without surrounding whitespace) and no categories; it is opened |
| Editor.FindOther | src/pages/Index.tsx:146 | `find` returns a project whose id differs, and finds none exactly when every project carries the id |
| Editor.FindOtherIsFirstSurvivor | src/pages/Index.tsx:144-146 | the project `find` returns is the first one that survives the deletion filter |
| Editor.DeleteProject | src/pages/Index.tsx:143-149 | the survivors are the projects with another id, in their old order and each as often as before, and no project with the id survives; an open deleted project is replaced by the first survivor when there were several projects; otherwise the open id stays; an unknown id leaves the list alone |
| Editor.DeleteProjectKeepsActive | src/pages/Index.tsx:143-147 | while a project with another id exists, deleting keeps the open id pointing at an existing project |
| Editor.AddThenDeleteProject | src/pages/Index.tsx:128-149 | adding a project under a fresh id and deleting that id restores the project list |
| Editor.AddCategory | src/pages/Index.tsx:151-170 | a blank name or a missing active project changes nothing; otherwise each active project gains exactly one empty category with the trimmed name at the end, and every other project is untouched |
| Editor.DeleteCategory | src/pages/Index.tsx:172-184 | in the active project(s) the surviving categories are those with another id, in their old order and each as often as before, and none with the id survives; other projects are untouched; an id the active project lacks changes nothing |
| Editor.RenameCategory | src/pages/Index.tsx:273-286 | only names of the addressed categories change, never an id or a term list; an unknown id changes nothing |
| Editor.AddThenDeleteCategory | src/pages/Index.tsx:151-184 | adding a category under an unused id and deleting that id restores the workspace |
| Editor.RenameCategoryTwice | src/pages/Index.tsx:273-286 | renaming twice equals renaming once to the second name |
| Editor.AddTerm | src/pages/Index.tsx:186-202 | each addressed term list grows by exactly one, with the new term last and the old terms unchanged before it; everything else, including the selection, is untouched; duplicates are accepted |
| Editor.RemoveTermFrom | src/pages/Index.tsx:214 | the remaining terms are those with another text, in their old order and each as often as before; no term with the text remains |
| Editor.RemoveTerm | src/pages/Index.tsx:204-223 | in the addressed lists every term with the text goes and every other term stays, in order and as often as before; every occurrence of the text leaves the selection, whose other texts keep their order and counts |
| Editor.RemoveTermTexts | src/pages/Index.tsx:214-222 | the texts of the remaining terms are the category's texts with the removed text filtered out, the same change the selection undergoes |
| Editor.EditTermIn | src/pages/Index.tsx:299-301 | length and positions are kept; every term with the old text becomes the new term, every other term is unchanged |
| Editor.EditTerm | src/pages/Index.tsx:289-313 | the addressed lists are edited in place and nothing else changes; every selected occurrence of the old text is renamed where it stands, every other entry kept |
| Editor.EditTermBackRestoresSelection | src/pages/Index.tsx:309-312 | renaming a text to one not yet selected and back restores the selection |
| Editor.AddThenRemoveTerm | src/pages/Index.tsx:186-223 | adding a term and removing its text equals only removing it |
| Editor.RemoveThenAddTermIsLast | src/pages/Index.tsx:186-214 | removing a term and adding it again puts it last, as the only term with its text |
| Editor.SelectTerm | src/pages/Index.tsx:413-419 | a selected text leaves the selection everywhere, the others keeping order and counts; an unselected text is appended at the end; projects are untouched |
| Editor.SelectTermTwice | src/pages/Index.tsx:413-419 | toggling an unselected text twice restores the workspace |
| Editor.SelectTermScenario | src/pages/Index.tsx:413-419 | with selection a, b, c, toggling b gives a, c and toggling it again gives a, c, b |
| Editor.ClearSelection | src/pages/Index.tsx:421-424 | the selection becomes empty and nothing else changes |
| Editor.ClearAllData | src/pages/Index.tsx:462-466 | projects and selection become empty; the open id is kept and then names no project |
| Prompt.SerializeLength | src/components/PromptPreview.tsx:15 | for one or more terms, the prompt length is the sum of the term lengths plus two per gap |
| Prompt.Serialize | src/components/PromptPreview.tsx:15 | the prompt is `""` for no terms, the term itself for one term, and otherwise the first term, `", "` and the prompt of the rest |
| Prompt.EmptyPromptIff | src/components/PromptPreview.tsx:15-18 | the prompt is empty exactly for the selections `[]` and `[""]` |
| Prompt.Copy | src/components/PromptPreview.tsx:17-24 | copying yields the prompt exactly when it is non-empty, and nothing for the selections `[]` and `[""]` |
| Prompt.ParseCons | src/components/PromptPreview.tsx:15 | a parseable term followed by `", "` contributes exactly that term before the terms of the rest |
| Prompt.ParseSerialize | src/components/PromptPreview.tsx:15 | when every selected term is non-empty, comma-free and trimmed, parsing the prompt as template terms gives the selection back |
| Prompt.CommaTermSplits | src/components/PromptPreview.tsx:15 | a term containing a comma comes back as two terms, so the round trip's condition is needed |
| TemplateLibrary.ParseTerms | src/components/TemplatesView.tsx:57 | parsed terms are never empty, have no surrounding whitespace and contain no comma |
| TemplateLibrary.ParseTermsKeepsOrder | src/components/TemplatesView.tsx:57 | the parsed terms are the trimmed pieces in input order, and every non-empty trimmed piece is kept as often as it occurs: only pieces that are empty after trimming are dropped |
| TemplateLibrary.ParseTermsAppend | src/components/TemplatesView.tsx:57 | the terms of `a,b` are the terms of `a` followed by the terms of `b` |
| TemplateLibrary.ParseTermsLeadingSpace | src/components/TemplatesView.tsx:57 | a space in front of the input changes no term |
| TemplateLibrary.ParseSingleTerm | src/components/TemplatesView.tsx:57 | a non-empty, trimmed, comma-free string parses to itself alone |
| TemplateLibrary.ParseBlankPiece | src/components/TemplatesView.tsx:57 | a comma-free string of only whitespace yields no term |
| TemplateLibrary.ParseTermsSkipsBlank | src/components/TemplatesView.tsx:57 | blank pieces between commas are dropped |
| TemplateLibrary.SaveNew | src/components/TemplatesView.tsx:50-72 | a name blank after trimming saves nothing; otherwise exactly one template is appended after the unchanged old ones: the fresh id, the untrimmed name, the parsed terms of the input and the image string |
| TemplateLibrary.Delete | src/components/TemplatesView.tsx:74-79 | the survivors are the templates with another id, in their old order and each as often as before, and none with the id survives; an unknown id changes nothing |
| TemplateLibrary.SaveNewThenDelete | src/components/TemplatesView.tsx:50-79 | deleting a template saved under a fresh id restores the list |
| TemplateDialog.Save | src/components/TemplateDialog.tsx:39-55 | an empty name or an empty selection saves nothing; otherwise one template with the fresh id, the name and a copy of the selection is appended after the unchanged old ones |
| TemplateDialog.Delete | src/components/TemplateDialog.tsx:57-59 | the survivors are the templates with another id, in their old order and each as often as before, and none with the id survives; an unknown id changes nothing |
| TemplateDialog.BlankNameAccepted | src/components/TemplateDialog.tsx:40 | a name of only a space is saved, since only the empty name is refused |
| TemplateDialog.SaveThenDelete | src/components/TemplateDialog.tsx:39-59 | deleting a template saved under a fresh id restores the list |
| PromptHistory.AddToHistory | src/components/HistoryDialog.tsx:103-112 | the new entry comes first with the prompt verbatim; the length is `min(old + 1, 50)`; the rest is a prefix of the old history, so the oldest entry is dropped |
| PromptHistory.NoDeduplication | src/components/HistoryDialog.tsx:107 | adding the same prompt twice gives two entries |
| PromptHistory.AddAllKeepsNewest | src/components/HistoryDialog.tsx:107 | after one or more additions the history is the newest fifty of all entries, newest first, then the old history |
| Text.Trim | src/pages/Index.tsx:129-132 | `trim` returns the infix of the input left between whitespace at both ends: it has no whitespace at either end, keeps a trimmed string, and is `""` exactly for all-whitespace input |
| Text.TrimLeadingSpace | src/components/TemplatesView.tsx:57 | a leading space does not change the trimmed string |
| Text.Split | src/components/TemplatesView.tsx:57 | `split` gives at least one piece, and no piece contains the separator |
| Text.JoinSplit | src/components/TemplatesView.tsx:57 | joining the pieces of `split` with the same separator gives back the string |
| Text.SplitAppend | src/components/TemplatesView.tsx:57 | a separator splits the string into the pieces of its two sides |
| Text.JoinLength | src/components/PromptPreview.tsx:15 | a join holds every piece plus one separator per gap |
| Text.Join | src/components/PromptPreview.tsx:15 | joining no pieces gives `""`, one piece gives that piece, and more pieces start with the first piece followed by the separator |
| Seqs.Filter | src/pages/Index.tsx:144 | `filter` keeps exactly the elements passing the test, and keeps everything when all pass |
| Seqs.FilterIsSubsequence | src/pages/Index.tsx:144 | `filter` keeps the survivors in their order |
| Seqs.FilterCounts | src/pages/Index.tsx:222 | `filter` keeps every passing value as often as it occurred and drops every other value |
| Seqs.FilterAppend | src/pages/Index.tsx:415 | filtering distributes over concatenation |
| Seqs.FilterMap | src/pages/Index.tsx:214-222 | filtering then mapping equals mapping then filtering with the matching test |
| Seqs.RemoveAll | src/pages/Index.tsx:222 | the value is gone, the other values keep their order and counts, and an absent value changes nothing |
| Seqs.ReplaceAllInverse | src/pages/Index.tsx:311 | renaming `x` to an absent `y` and back is the identity |

## Left out

- Persistence is not modelled: `localStorage`, the `/api/data` file store, and JSON export and import with files. The model keeps the in-memory lists only. A stored list that fails to parse is therefore not modelled either.
- The subcategory handlers in `src/pages/Index.tsx` are not modelled. They use a `subcategories` field that the `Category` type no longer has, and nothing calls them.
- Reordering by drag and drop is not modelled. It is done by an external library, not by the code shown.
- React behaviour is not modelled: batched updates, nested setter callbacks, and `undo`/`redo` reading the `state` captured in their closure. Every operation is one sequential transition.
- The clock and random ids are parameters, not sources.
- `trim` whitespace follows the ECMAScript character list. Strings are sequences of characters with no UTF-16 surrogate handling.
- The `confirm` dialog of the template page's delete is not modelled. `TemplateLibrary.Delete` is the confirmed case; a refused confirmation changes nothing.
- Toasts, dialog open/close state, input clearing after a save, and the clipboard write are not modelled. `Prompt.Copy` returns the text that would be written.
- Image upload and cropping (`FileReader`, canvas geometry) are not modelled. An image is an opaque string.
- The ComfyUI glue, the Vite server middleware and the presentational components are not modelled.
- Editor.AddTerm: the trimmed non-blank guard on the term text lives in the add-term dialog, not in the handler. The model, like the handler, accepts any text.
- Images in dialog templates: the editor's dialog and the template page read and write the same stored template list, so at runtime the dialog's filter and append also carry templates with an image. The dialog's record has no image field, because the dialog never reads or sets one; such templates are not represented in this module.
- UndoRedo.SetState: `maxHistory` is a parameter, with `DefaultMaxHistory` = 50 as the hook's default. The `JSON.stringify` equality is modelled as structural equality, so values that serialise alike but differ structurally are not covered.
