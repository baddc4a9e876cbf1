# Note/tag bookkeeping of a note-taking app, in Dafny

The application keeps two collections: raw notes and tags. A raw note refers
to its tags by id. For display, each raw note is joined with the tag
collection: its tag ids are resolved to the tags that have them, in
tag-collection order, and ids with no matching tag are dropped. The event
handlers change the collections copy-on-write. Each one passes the state
setter an updater that builds the next collection from the previous one with
`map`, `filter` and spread.

The handlers are:

- create, update and delete for notes;
- add, relabel and delete for tags.

The model has three modules:

- `Arrays` (`arrays.dfy`) defines `Map` and `Filter`, modelled on
  `Array.prototype.map` and `Array.prototype.filter`. It also describes what a
  filter returns without naming its predicate. `Selects(r, s)` means that `r` is a
  subsequence of `s` which keeps every occurrence of each value it keeps.
  `SelectsUnique` shows that such a selection is determined by the values it
  contains.
- `App` (`app.dfy`) holds the records `Tag`, `RawNote`, `NoteData` and `Note`,
  the join `NotesWithTags`, and the six updaters as pure functions. It also
  holds the reference characterisations of the join and of the two deletes.
- `Notebook` (`notebook.dfy`) holds the component state (both collections),
  one `Action` per handler call, and `Step`. It proves:
  - ids stay unique as long as created ids are fresh;
  - how each handler changes the collection lengths;
  - what the join shows after a tag is deleted or relabelled, and after a
    note is created.

Modelling choices:

- A tag's `label` field is called `name` here, because `label` is a reserved
  word in Dafny.
- The fresh note id that the create handler draws from `uuidV4()` is a
  parameter.
- Strings are `seq<char>`. `===` on ids becomes `==`.

Update and delete act on every note with the given id, not just the first:
the code maps and filters over the whole collection (src/App.tsx:63-70, 76).
`OnUpdateNote` and `OnDeleteNote` state this for all matching notes. When
ids are unique, this is the same as acting on the one note with that id:
`OnUpdateExistingNote` shows that an update then changes only the one
position with the id. `OnDeleteExistingNote` and the delete cases of
`StepLengths` show that a delete then removes exactly one note. Nothing in
the code enforces unique ids. `Notebook.RunPreservesValid` shows they stay
unique as long as every created id is fresh.

## Model

| member | source | states |
|---|---|---|
| `Arrays.Map` | src/App.tsx:44-46 | one result per element, in the same order, each the function applied to the element at that position |
| `Arrays.Filter` | src/App.tsx:45 | the result holds exactly the elements satisfying the predicate, as an order-preserving selection keeping all their occurrences; if every element passes, the input is returned unchanged |
| `Arrays.SelectsUnique` | src/App.tsx:45 | two order-preserving selections from the same sequence that contain the same values are equal, so a filter's result is fully described by the element set it keeps |
| `Arrays.FilterKeyLength` | src/App.tsx:76 | filtering out the elements whose key is `k` shortens the sequence by the number of occurrences of `k` among the keys |
| `App.TagIds` | src/App.tsx:51 | `tags.map(tag => tag.id)`: one id per tag, in the same order |
| `App.TagsOf` | src/App.tsx:45 | a tag is in a note's resolved tags iff it is in the tag collection and its id is among the note's tag ids; the result is an order-preserving selection of the tag collection, so unmatched ids are dropped and tag-collection order is kept |
| `App.TagsOfCharacterized` | src/App.tsx:45 | both directions: a sequence is the resolved tag list iff it is an order-preserving selection of the tag collection holding exactly the referenced tags |
| `App.TagsOfPicked` | src/App.tsx:45 | when tag ids are unique, resolving the ids of tags picked from the collection gives the same tags as the picked ones, as a set, in tag-collection order |
| `App.TagsOfPickedInOrder` | src/App.tsx:45 | when tag ids are unique and the tags were picked in tag-collection order, resolving their ids gives back exactly the picked sequence |
| `App.NotesWithTags` | src/App.tsx:43-47 | one display note per raw note, in order, with the raw note's id, title and markdown; each display note's tags are exactly the collection's tags whose ids the note lists, in collection order |
| `App.OnCreateNote` | src/App.tsx:49-53 | exactly one note is appended and the existing notes are kept as a prefix; the new note has the supplied id, title and markdown, and its tag ids are the submitted tags' ids, in order |
| `App.OnUpdateNote` | src/App.tsx:61-72 | length and every note's id are preserved; notes with another id are unchanged; every note with the id gets the submitted title, markdown and tag ids; an unknown id leaves the collection unchanged |
| `App.OnUpdateExistingNote` | src/App.tsx:63-70 | with unique note ids, updating the id of the note at one position leaves every other position unchanged and keeps that note's id |
| `App.OnDeleteNote` | src/App.tsx:74-78 | the result holds exactly the notes with another id, in original order; no note with the id remains; the length falls by the number of notes with that id; an unknown id is a no-op |
| `App.OnDeleteNoteCharacterized` | src/App.tsx:76 | both directions: a sequence is the delete's result iff it is an order-preserving selection of the notes holding exactly those with another id |
| `App.OnDeleteNoteIdempotent` | src/App.tsx:74-78 | deleting the same id twice equals deleting it once |
| `App.OnDeleteExistingNote` | src/App.tsx:74-78 | with unique note ids, deleting an existing id shortens the collection by exactly one |
| `App.AddTag` | src/App.tsx:55-59 | exactly one tag is appended, the given one, after the unchanged existing tags |
| `App.UpdateTag` | src/App.tsx:80-92 | ids and their order are preserved; every tag with the id gets the new label and every other tag keeps its own; an unknown id is a no-op |
| `App.UpdateTagMembers` | src/App.tsx:82-89 | after relabelling, every tag with the id carries the new label, and the relabelled tag is present iff some tag had the id |
| `App.DeleteTag` | src/App.tsx:94-98 | the result holds exactly the tags with another id, in original order; no tag with the id remains; the length falls by the number of tags with that id; an unknown id is a no-op |
| `App.DeleteTagCharacterized` | src/App.tsx:96 | both directions: a sequence is the delete's result iff it is an order-preserving selection of the tags holding exactly those with another id |
| `App.DeleteTagIdempotent` | src/App.tsx:94-98 | deleting the same tag id twice equals deleting it once |
| `App.DeleteExistingTag` | src/App.tsx:94-98 | with unique tag ids, deleting an existing id shortens the collection by exactly one |
| `Notebook.Step` | src/App.tsx:49-98 | note handlers never change the tags collection and tag handlers never change the notes collection |
| `Notebook.StepPreservesValid` | src/App.tsx:49-98 | if ids are unique in both collections and a create brings an unused id, ids stay unique after any handler |
| `Notebook.RunPreservesValid` | src/App.tsx:49-98 | ids stay unique over any sequence of handler calls whose created ids are fresh when they are created |
| `Notebook.StepLengths` | src/App.tsx:49-98 | with unique ids, a create adds one entry, an update keeps the length, and a delete removes one entry when the id exists and none otherwise |
| `Notebook.JoinAfterDeleteTag` | src/App.tsx:94-98 | deleting a tag leaves the raw notes, and so their tag ids, unchanged; afterwards no display note shows a tag with that id, and each display note shows its former tags minus the deleted one |
| `Notebook.JoinAfterUpdateTag` | src/App.tsx:80-92 | relabelling leaves the raw notes unchanged; afterwards every displayed tag with that id shows the new label, and a note shows the relabelled tag iff it refers to the id and the tag exists |
| `Notebook.JoinAfterCreateNote` | src/App.tsx:49-53 | a note created from tags picked out of a collection with unique ids is shown with the same tags as the picked ones, as a set, in tag-collection order, and with exactly the picked sequence when it was picked in that order; the earlier notes are shown as before |
| `Notebook.TagLifecycleScenario` | src/App.tsx:43-98 | add tag t1 "work", create note "A" with it, delete t1: the stored note's tag ids are ["t1"] throughout; it is shown with the tag, then with no tags |
| `Notebook.UpdateMissingNote` | src/App.tsx:61-72 | updating a note id that does not exist leaves the whole state unchanged |

## Left out

- Persistence through `useLocalStorage` (src/App.tsx:40-41): it is browser storage I/O and is not part of this model. The two collections are plain values in `Notebook.State`, and a run starts from any state.
- `uuidV4()` (src/App.tsx:51): it is a random foreign call. The fresh id is a parameter of `App.OnCreateNote` and of `Notebook.CreateNote`. The uniqueness invariant assumes the id is unused, as a hypothesis of `Notebook.StepPreservesValid`, not as a requirement of the updater.
- `useMemo` (src/App.tsx:43): it only caches results. The join is a function of the notes and the tags.
- Rendering, routing and layout (src/App.tsx:100-138): UI wiring with no logic.
- src/NoteForm.tsx: the form is not part of this model. Its submit handler ignores the selected tags and always sends `tags: []` (src/NoteForm.tsx:22-26), so every note it creates or updates gets empty tag ids. The model keeps `NoteData` general and takes any submitted tags.
- React's scheduling of state updates: `Notebook.Run` applies the updaters one after another, which is the order in which React applies queued updaters.
- The extra `tagIds` property that the object spread copies into each display note at run time (src/App.tsx:45): it is not part of the `Note` type, and `App.Note` omits it.
