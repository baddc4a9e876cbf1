/** The component's state, the two collections, and what each event handler
    does to it; the invariant that ids stay unique, and what the display join
    shows after each kind of tag change. */
module Notebook {
  import opened Arrays
  import App

  datatype State = State(notes: seq<App.RawNote>, tags: seq<App.Tag>)

  /** One call of an event handler. A new note's id, generated by the
      handler itself, is carried as `freshId`; a new tag comes with its id. */
  datatype Action =
    | CreateNote(data: App.NoteData, freshId: string)
    | UpdateNote(id: string, data: App.NoteData)
    | DeleteNote(id: string)
    | CreateTag(tag: App.Tag)
    | RenameTag(id: string, name: string)
    | RemoveTag(id: string)
  {
    predicate OnNotes() { CreateNote? || UpdateNote? || DeleteNote? }
  }

  /** Note handlers replace only the notes collection, tag handlers only the
      tags collection. */
  function Step(s: State, a: Action): (s': State)
    ensures a.OnNotes() ==> s'.tags == s.tags
    ensures !a.OnNotes() ==> s'.notes == s.notes
  {
    match a
    case CreateNote(data, freshId) => s.(notes := App.OnCreateNote(s.notes, data, freshId))
    case UpdateNote(id, data) => s.(notes := App.OnUpdateNote(s.notes, id, data))
    case DeleteNote(id) => s.(notes := App.OnDeleteNote(s.notes, id))
    case CreateTag(tag) => s.(tags := App.AddTag(s.tags, tag))
    case RenameTag(id, name) => s.(tags := App.UpdateTag(s.tags, id, name))
    case RemoveTag(id) => s.(tags := App.DeleteTag(s.tags, id))
  }

  /** Ids are unique within each collection. */
  ghost predicate Valid(s: State) {
    Distinct(App.NoteIds(s.notes)) && Distinct(App.TagIds(s.tags))
  }

  /** The id a create action brings is not in use yet. */
  predicate FreshIds(s: State, a: Action) {
    match a
    case CreateNote(_, freshId) => freshId !in App.NoteIds(s.notes)
    case CreateTag(tag) => tag.id !in App.TagIds(s.tags)
    case _ => true
  }

  /** The handlers applied one after another. */
  function Run(s: State, actions: seq<Action>): State
    decreases |actions|
  {
    if actions == [] then s else Run(Step(s, actions[0]), actions[1..])
  }

  /** Every create action in the run brings an id that is fresh when it runs. */
  predicate FreshRun(s: State, actions: seq<Action>)
    decreases |actions|
  {
    actions == [] || (FreshIds(s, actions[0]) && FreshRun(Step(s, actions[0]), actions[1..]))
  }

  lemma DistinctAppend(ids: seq<string>, id: string)
    requires Distinct(ids) && id !in ids
    ensures Distinct(ids + [id])
  {
  }

  /** A handler keeps ids unique as long as created ids are fresh. */
  lemma StepPreservesValid(s: State, a: Action)
    requires Valid(s) && FreshIds(s, a)
    ensures Valid(Step(s, a))
  {
    var s' := Step(s, a);
    match a
    case CreateNote(data, freshId) =>
      assert App.NoteIds(s'.notes) == App.NoteIds(s.notes) + [freshId];
      DistinctAppend(App.NoteIds(s.notes), freshId);
    case UpdateNote(_, _) =>
    case DeleteNote(id) =>
      MapSubsequence(s'.notes, s.notes, App.NoteId);
      DistinctSubsequence(App.NoteIds(s'.notes), App.NoteIds(s.notes));
    case CreateTag(tag) =>
      assert App.TagIds(s'.tags) == App.TagIds(s.tags) + [tag.id];
      DistinctAppend(App.TagIds(s.tags), tag.id);
    case RenameTag(_, _) =>
    case RemoveTag(id) =>
      MapSubsequence(s'.tags, s.tags, App.TagId);
      DistinctSubsequence(App.TagIds(s'.tags), App.TagIds(s.tags));
  }

  /** Ids stay unique over any run whose created ids are fresh. */
  lemma {:induction false} RunPreservesValid(s: State, actions: seq<Action>)
    requires Valid(s) && FreshRun(s, actions)
    ensures Valid(Run(s, actions))
    decreases |actions|
  {
    if actions != [] {
      StepPreservesValid(s, actions[0]);
      RunPreservesValid(Step(s, actions[0]), actions[1..]);
    }
  }

  /** In a valid state a note handler changes the number of notes by +1
      (create), 0 (update, or delete of an unknown id) or -1 (delete of an
      existing id); a tag handler does the same to the number of tags. */
  lemma StepLengths(s: State, a: Action)
    requires Valid(s)
    ensures var s' := Step(s, a);
      match a
      case CreateNote(_, _) => |s'.notes| == |s.notes| + 1
      case UpdateNote(_, _) => |s'.notes| == |s.notes|
      case DeleteNote(id) => |s'.notes| == |s.notes| - if id in App.NoteIds(s.notes) then 1 else 0
      case CreateTag(_) => |s'.tags| == |s.tags| + 1
      case RenameTag(_, _) => |s'.tags| == |s.tags|
      case RemoveTag(id) => |s'.tags| == |s.tags| - if id in App.TagIds(s.tags) then 1 else 0
  {
    match a
    case DeleteNote(id) =>
      if id in App.NoteIds(s.notes) { App.OnDeleteExistingNote(s.notes, id); }
    case RemoveTag(id) =>
      if id in App.TagIds(s.tags) { App.DeleteExistingTag(s.tags, id); }
    case _ =>
  }

  // ---------------------------------------------------------------------
  // What the join shows after tag changes

  /** After a tag is deleted no display note shows a tag with its id, and each
      display note shows what it showed before minus that tag; the raw notes,
      their tag ids included, are untouched. */
  lemma JoinAfterDeleteTag(s: State, id: string)
    ensures Step(s, RemoveTag(id)).notes == s.notes
    ensures var after := App.NotesWithTags(s.notes, App.DeleteTag(s.tags, id));
            var before := App.NotesWithTags(s.notes, s.tags);
            && |after| == |before|
            && (forall i, t :: 0 <= i < |after| && t in after[i].tags ==> t.id != id)
            && (forall i :: 0 <= i < |after| ==> after[i].tags == App.DeleteTag(before[i].tags, id))
  {
    var after := App.NotesWithTags(s.notes, App.DeleteTag(s.tags, id));
    var before := App.NotesWithTags(s.notes, s.tags);
    forall i | 0 <= i < |after| ensures after[i].tags == App.DeleteTag(before[i].tags, id) {
      var d := App.DeleteTag(s.tags, id);
      SelectsTransitive(after[i].tags, d, s.tags);
      SelectsTransitive(App.DeleteTag(before[i].tags, id), before[i].tags, s.tags);
      SelectsUnique(after[i].tags, App.DeleteTag(before[i].tags, id), s.tags);
    }
  }

  /** After a tag is relabelled, every display note that shows a tag with that
      id shows the new name, and it shows one exactly when the note refers to
      the id and the tag exists; the raw notes are untouched. */
  lemma JoinAfterUpdateTag(s: State, id: string, name: string)
    ensures Step(s, RenameTag(id, name)).notes == s.notes
    ensures var after := App.NotesWithTags(s.notes, App.UpdateTag(s.tags, id, name));
            && (forall i, t :: 0 <= i < |after| && t in after[i].tags && t.id == id ==> t.name == name)
            && (forall i :: 0 <= i < |after| ==>
                  (App.Tag(id, name) in after[i].tags <==> id in s.notes[i].tagIds && id in App.TagIds(s.tags)))
  {
    App.UpdateTagMembers(s.tags, id, name);
  }

  /** A note created from tags picked out of a collection with unique ids is
      displayed with the same tags as the picked ones, in tag-collection
      order, so with exactly the picked sequence when it was picked in that
      order; the notes before it are displayed as before. */
  lemma JoinAfterCreateNote(s: State, data: App.NoteData, freshId: string)
    requires Distinct(App.TagIds(s.tags))
    requires forall t :: t in data.tags ==> t in s.tags
    ensures var after := App.NotesWithTags(Step(s, CreateNote(data, freshId)).notes, s.tags);
            && |after| == |s.notes| + 1
            && after[..|s.notes|] == App.NotesWithTags(s.notes, s.tags)
            && after[|s.notes|].id == freshId
            && (forall t :: t in after[|s.notes|].tags <==> t in data.tags)
            && (Selects(data.tags, s.tags) ==> after[|s.notes|].tags == data.tags)
  {
    var notes' := Step(s, CreateNote(data, freshId)).notes;
    assert notes'[|s.notes|].tagIds == App.TagIds(data.tags);
    App.TagsOfPicked(s.tags, data.tags);
    if Selects(data.tags, s.tags) {
      App.TagsOfPickedInOrder(s.tags, data.tags);
    }
    assert notes'[..|s.notes|] == s.notes;
  }

  /** A tag is created, a note is created with it, and the tag is deleted:
      the note is displayed with the tag, then without it, and its stored tag
      ids are the same throughout. */
  lemma TagLifecycleScenario()
    ensures var work := App.Tag("t1", "work");
            var s1 := Step(State([], []), CreateTag(work));
            var s2 := Step(s1, CreateNote(App.NoteData("A", "x", [work]), "n1"));
            var s3 := Step(s2, RemoveTag("t1"));
            && s2.notes == [App.RawNote("n1", "A", "x", ["t1"])]
            && App.NotesWithTags(s2.notes, s2.tags) == [App.Note("n1", "A", "x", [work])]
            && s3.notes == s2.notes
            && App.NotesWithTags(s3.notes, s3.tags) == [App.Note("n1", "A", "x", [])]
  {
    var work := App.Tag("t1", "work");
    var s2 := State([App.RawNote("n1", "A", "x", ["t1"])], [work]);
    assert App.TagIds([work]) == ["t1"];
    assert App.TagsOf([work], ["t1"]) == [work] by {
      App.TagsOfCharacterized([work], ["t1"], [work]);
    }
    assert App.DeleteTag([work], "t1") == [] by {
      App.DeleteTagCharacterized([work], "t1", []);
    }
  }

  /** Updating a note that does not exist leaves the collection as it was. */
  lemma UpdateMissingNote(s: State, id: string, data: App.NoteData)
    requires id !in App.NoteIds(s.notes)
    ensures Step(s, UpdateNote(id, data)) == s
  {
  }
}
