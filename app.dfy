/** The records of the note-taking application and the pure updaters its
    event handlers hand to the state setters: each takes the previous
    collection and returns the next one. */
module App {
  import opened Arrays

  datatype Tag = Tag(id: string, name: string)

  /** A note as it is stored: it refers to its tags by id only. */
  datatype RawNote = RawNote(id: string, title: string, markdown: string, tagIds: seq<string>)

  /** What the note form submits. */
  datatype NoteData = NoteData(title: string, markdown: string, tags: seq<Tag>)

  /** A note as it is displayed: its tag ids resolved to tags. */
  datatype Note = Note(id: string, title: string, markdown: string, tags: seq<Tag>)

  function TagId(tag: Tag): string { tag.id }

  function NoteId(note: RawNote): string { note.id }

  /** `tags.map(tag => tag.id)` */
  function TagIds(tags: seq<Tag>): (ids: seq<string>)
    ensures |ids| == |tags|
    ensures forall i :: 0 <= i < |tags| ==> ids[i] == tags[i].id
  {
    Map(tags, TagId)
  }

  /** The ids of a note collection, in order. */
  function NoteIds(notes: seq<RawNote>): (ids: seq<string>)
    ensures |ids| == |notes|
    ensures forall i :: 0 <= i < |notes| ==> ids[i] == notes[i].id
  {
    Map(notes, NoteId)
  }

  // ---------------------------------------------------------------------
  // The join of notes with tags

  /** `tags.filter(tag => tagIds.includes(tag.id))`: the members of the tag
      collection that a note refers to, in tag-collection order; ids that no
      tag has are dropped. */
  function TagsOf(tags: seq<Tag>, tagIds: seq<string>): (r: seq<Tag>)
    ensures forall t :: t in r <==> t in tags && t.id in tagIds
    ensures Selects(r, tags)
  {
    Filter(tags, (tag: Tag) => tag.id in tagIds)
  }

  /** The display notes: one per raw note, in the same order, keeping its id,
      title and markdown and resolving its tag ids against `tags`. */
  function NotesWithTags(notes: seq<RawNote>, tags: seq<Tag>): (r: seq<Note>)
    ensures |r| == |notes|
    ensures forall i :: 0 <= i < |r| ==>
              r[i].id == notes[i].id && r[i].title == notes[i].title && r[i].markdown == notes[i].markdown
    ensures forall i :: 0 <= i < |r| ==> Selects(r[i].tags, tags)
    ensures forall i, t :: 0 <= i < |r| ==> (t in r[i].tags <==> t in tags && t.id in notes[i].tagIds)
  {
    Map(notes, (note: RawNote) => Note(note.id, note.title, note.markdown, TagsOf(tags, note.tagIds)))
  }

  // ---------------------------------------------------------------------
  // Note updaters

  /** Appends a note with the fresh id `id`, the submitted title and markdown,
      and the ids of the submitted tags. */
  function OnCreateNote(notes: seq<RawNote>, data: NoteData, id: string): (r: seq<RawNote>)
    ensures |r| == |notes| + 1
    ensures r[..|notes|] == notes
    ensures r[|notes|].id == id && r[|notes|].title == data.title && r[|notes|].markdown == data.markdown
    ensures |r[|notes|].tagIds| == |data.tags|
    ensures forall k :: 0 <= k < |data.tags| ==> r[|notes|].tagIds[k] == data.tags[k].id
  {
    notes + [RawNote(id, data.title, data.markdown, TagIds(data.tags))]
  }

  /** Gives every note whose id is `id` the submitted title, markdown and tag
      ids; every other note, and every position, is left as it was. */
  function OnUpdateNote(notes: seq<RawNote>, id: string, data: NoteData): (r: seq<RawNote>)
    ensures |r| == |notes|
    ensures NoteIds(r) == NoteIds(notes)
    ensures forall i :: 0 <= i < |notes| && notes[i].id != id ==> r[i] == notes[i]
    ensures forall i :: 0 <= i < |notes| && notes[i].id == id ==>
              r[i].title == data.title && r[i].markdown == data.markdown && r[i].tagIds == TagIds(data.tags)
    ensures id !in NoteIds(notes) ==> r == notes
  {
    Map(notes, (note: RawNote) =>
      if note.id == id then note.(title := data.title, markdown := data.markdown, tagIds := TagIds(data.tags))
      else note)
  }

  /** Keeps exactly the notes whose id is not `id`, in their original order. */
  function OnDeleteNote(notes: seq<RawNote>, id: string): (r: seq<RawNote>)
    ensures forall n :: n in r <==> n in notes && n.id != id
    ensures Selects(r, notes)
    ensures id !in NoteIds(r)
    ensures |r| == |notes| - multiset(NoteIds(notes))[id]
    ensures id !in NoteIds(notes) ==> r == notes
  {
    var keep := (note: RawNote) => note.id != id;
    FilterKeyLength(notes, keep, NoteId, id);
    Filter(notes, keep)
  }

  // ---------------------------------------------------------------------
  // Tag updaters

  /** Appends `tag`, whose id the caller has generated. */
  function AddTag(tags: seq<Tag>, tag: Tag): (r: seq<Tag>)
    ensures |r| == |tags| + 1
    ensures r[..|tags|] == tags && r[|tags|] == tag
  {
    tags + [tag]
  }

  /** Relabels every tag whose id is `id`; ids, order and all other tags are
      left as they were. */
  function UpdateTag(tags: seq<Tag>, id: string, name: string): (r: seq<Tag>)
    ensures TagIds(r) == TagIds(tags)
    ensures forall i :: 0 <= i < |tags| ==> r[i].name == if tags[i].id == id then name else tags[i].name
    ensures id !in TagIds(tags) ==> r == tags
  {
    Map(tags, (tag: Tag) => if tag.id == id then tag.(name := name) else tag)
  }

  /** Keeps exactly the tags whose id is not `id`, in their original order. */
  function DeleteTag(tags: seq<Tag>, id: string): (r: seq<Tag>)
    ensures forall t :: t in r <==> t in tags && t.id != id
    ensures Selects(r, tags)
    ensures id !in TagIds(r)
    ensures |r| == |tags| - multiset(TagIds(tags))[id]
    ensures id !in TagIds(tags) ==> r == tags
  {
    var keep := (tag: Tag) => tag.id != id;
    FilterKeyLength(tags, keep, TagId, id);
    Filter(tags, keep)
  }

  // ---------------------------------------------------------------------
  // Reference descriptions and properties of single updaters

  /** The resolved tags are the one order-preserving selection from the tag
      collection holding exactly the referenced tags. */
  lemma TagsOfCharacterized(tags: seq<Tag>, tagIds: seq<string>, r: seq<Tag>)
    ensures r == TagsOf(tags, tagIds) <==>
              Selects(r, tags) && forall t :: t in r <==> t in tags && t.id in tagIds
  {
    if Selects(r, tags) && forall t :: t in r <==> t in tags && t.id in tagIds {
      SelectsUnique(r, TagsOf(tags, tagIds), tags);
    }
  }

  /** Deleting a note returns the one order-preserving selection from the
      collection that holds exactly the notes with a different id. */
  lemma OnDeleteNoteCharacterized(notes: seq<RawNote>, id: string, r: seq<RawNote>)
    ensures r == OnDeleteNote(notes, id) <==>
              Selects(r, notes) && forall n :: n in r <==> n in notes && n.id != id
  {
    if Selects(r, notes) && forall n :: n in r <==> n in notes && n.id != id {
      SelectsUnique(r, OnDeleteNote(notes, id), notes);
    }
  }

  /** Deleting a tag returns the one order-preserving selection from the
      collection that holds exactly the tags with a different id. */
  lemma DeleteTagCharacterized(tags: seq<Tag>, id: string, r: seq<Tag>)
    ensures r == DeleteTag(tags, id) <==>
              Selects(r, tags) && forall t :: t in r <==> t in tags && t.id != id
  {
    if Selects(r, tags) && forall t :: t in r <==> t in tags && t.id != id {
      SelectsUnique(r, DeleteTag(tags, id), tags);
    }
  }

  /** Deleting the same note twice is the same as deleting it once. */
  lemma OnDeleteNoteIdempotent(notes: seq<RawNote>, id: string)
    ensures OnDeleteNote(OnDeleteNote(notes, id), id) == OnDeleteNote(notes, id)
  {
  }

  /** Deleting the same tag twice is the same as deleting it once. */
  lemma DeleteTagIdempotent(tags: seq<Tag>, id: string)
    ensures DeleteTag(DeleteTag(tags, id), id) == DeleteTag(tags, id)
  {
  }

  /** With unique note ids, deleting an existing note shortens the collection
      by exactly one. */
  lemma OnDeleteExistingNote(notes: seq<RawNote>, id: string)
    requires Distinct(NoteIds(notes)) && id in NoteIds(notes)
    ensures |OnDeleteNote(notes, id)| == |notes| - 1
  {
    DistinctOccursOnce(NoteIds(notes), id);
  }

  /** With unique tag ids, deleting an existing tag shortens the collection by
      exactly one. */
  lemma DeleteExistingTag(tags: seq<Tag>, id: string)
    requires Distinct(TagIds(tags)) && id in TagIds(tags)
    ensures |DeleteTag(tags, id)| == |tags| - 1
  {
    DistinctOccursOnce(TagIds(tags), id);
  }

  /** Resolving the ids of tags picked out of a collection with unique ids
      gives back the same tags as the picked ones, as a set; the result is in
      tag-collection order (see `TagsOfPickedInOrder`). */
  lemma TagsOfPicked(tags: seq<Tag>, picked: seq<Tag>)
    requires Distinct(TagIds(tags))
    requires forall t :: t in picked ==> t in tags
    ensures forall t :: t in TagsOf(tags, TagIds(picked)) <==> t in picked
  {
    var ids := TagIds(picked);
    var r := TagsOf(tags, ids);
    forall t | t in r ensures t in picked {
      assert t in tags && t.id in ids;
      var k :| 0 <= k < |picked| && ids[k] == t.id;
      SameIdSameTag(tags, t, picked[k]);
    }
    forall t | t in picked ensures t in r {
      var k :| 0 <= k < |picked| && picked[k] == t;
      assert ids[k] == t.id;
    }
  }

  /** In a collection with unique ids, a tag is determined by its id. */
  lemma SameIdSameTag(tags: seq<Tag>, a: Tag, b: Tag)
    requires Distinct(TagIds(tags))
    requires a in tags && b in tags && a.id == b.id
    ensures a == b
  {
    var i :| 0 <= i < |tags| && tags[i] == a;
    var j :| 0 <= j < |tags| && tags[j] == b;
    assert TagIds(tags)[i] == TagIds(tags)[j];
  }

  /** After relabelling, every tag with the id carries the new label, and the
      relabelled tag is present exactly when some tag had the id. */
  lemma UpdateTagMembers(tags: seq<Tag>, id: string, name: string)
    ensures forall t :: t in UpdateTag(tags, id, name) && t.id == id ==> t.name == name
    ensures Tag(id, name) in UpdateTag(tags, id, name) <==> id in TagIds(tags)
  {
    var u := UpdateTag(tags, id, name);
    if id in TagIds(tags) {
      var k :| 0 <= k < |tags| && TagIds(tags)[k] == id;
      assert u[k] == Tag(id, name);
    }
    forall t | t in u && t.id == id ensures t.name == name {
      var k :| 0 <= k < |u| && u[k] == t;
      assert TagIds(u)[k] == id;
    }
  }

  /** Tags picked as an order-preserving selection of a collection with
      unique ids resolve back to exactly the picked sequence. */
  lemma TagsOfPickedInOrder(tags: seq<Tag>, picked: seq<Tag>)
    requires Distinct(TagIds(tags))
    requires Selects(picked, tags)
    ensures TagsOf(tags, TagIds(picked)) == picked
  {
    SubsequenceMultiset(picked, tags);
    assert forall t :: t in picked ==> t in tags by {
      forall t | t in picked ensures t in tags {
        assert t in multiset(picked);
      }
    }
    TagsOfPicked(tags, picked);
    SelectsUnique(TagsOf(tags, TagIds(picked)), picked, tags);
  }

  /** With unique note ids, updating the note at position `k` changes no
      other position. */
  lemma OnUpdateExistingNote(notes: seq<RawNote>, id: string, data: NoteData, k: nat)
    requires Distinct(NoteIds(notes))
    requires k < |notes| && notes[k].id == id
    ensures forall i :: 0 <= i < |notes| && i != k ==> OnUpdateNote(notes, id, data)[i] == notes[i]
    ensures OnUpdateNote(notes, id, data)[k].id == id
  {
    forall i | 0 <= i < |notes| && i != k ensures notes[i].id != id {
      if i < k {
        assert NoteIds(notes)[i] != NoteIds(notes)[k];
      } else {
        assert NoteIds(notes)[k] != NoteIds(notes)[i];
      }
    }
  }
}
