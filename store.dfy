/**
 * The collection as the controller changes it: a store object holding the
 * records and the ObjectId generator, whose `PostDefinition` and
 * `DeleteDefinition` run the steps of `post_definition` and `delete_definition`
 * in place. Each is proved against the value-level model in module Dictionary.
 */
module Store {
  import opened Wrappers
  import opened Entries
  import opened Dictionary

  class EntryStore {
    /** The recognized-language enum of the schema. */
    const languages: set<string>
    /** The `Entry` collection, in insertion order. */
    var entries: seq<Entry>
    /** The next ObjectId `new mongoose.Types.ObjectId()` or `new Entry(...)` hands out. */
    var nextId: Id

    /** Every record valid, ids unique, and every id already handed out. */
    ghost predicate Valid()
      reads this
    {
      Stored(languages, entries) && IdsBelow(entries, nextId)
    }

    /** An empty collection. */
    constructor (languages: set<string>)
      ensures this.languages == languages && entries == [] && nextId == 0
      ensures Valid() && Paired(entries)
    {
      this.languages := languages;
      entries := [];
      nextId := 0;
    }

    /** A fresh ObjectId, never handed out before. */
    method NewObjectId() returns (id: Id)
      modifies this`nextId
      ensures id == old(nextId) && nextId == old(nextId) + 1
    {
      id := nextId;
      nextId := nextId + 1;
    }

    /**
     * `post_definition`: parse the submissions, link them, check the user, then
     * reuse a matching record's node or create a node with two records.
     */
    method PostDefinition(users: set<Id>, actor: Option<Id>,
                          entrySubmission: Option<string>, mirrorSubmission: Option<string>)
      returns (r: Result<Posted, PostError>)
      requires Valid()
      modifies this
      ensures Valid()
      ensures (r, entries) == Post(languages, users, actor, old(entries), old(nextId), entrySubmission, mirrorSubmission)
      ensures r.Success? && r.value.origin == New ==> nextId == old(nextId) + 3
      ensures old(nextId) <= nextId
      ensures old(Paired(entries)) ==> Paired(entries)
    {
      if !Truthy(entrySubmission) {
        return Failure(BlankDataSubmission);
      }
      if '@' !in entrySubmission.value {
        return Failure(BlankEntryLanguage);
      }
      if Truthy(mirrorSubmission) && '@' !in mirrorSubmission.value {
        return Failure(BlankMirrorLanguage);
      }

      var entryData := ParseSubmission(entrySubmission.value);
      var mirrorData: Option<Draft> := None;
      if Truthy(mirrorSubmission) {
        mirrorData := Some(ParseSubmission(mirrorSubmission.value));
      }
      if mirrorData.Some? {
        var m := mirrorData.value;
        entryData := entryData.(mirror := m.index);
        entryData := entryData.(mirrorLanguage := m.language);
        m := m.(mirror := entryData.index);
        m := m.(mirrorLanguage := entryData.language);
        mirrorData := Some(m);
      }
      assert Submissions(entrySubmission, mirrorSubmission) == Success((entryData, mirrorData));

      if actor.None? {
        return Failure(NoSignedInUser);
      }
      if actor.value !in users {
        return Failure(NoUserFound);
      }

      var found := FindOne(entries, entryData);
      if found.Some? {
        return Success(Posted(found.value, None, found.value.definitionNode, Tenured));
      }

      var es, firstId := entries, nextId;
      r := CreateNode(actor.value, entryData, mirrorData);
      PostKeepsStored(languages, users, actor, es, firstId, entrySubmission, mirrorSubmission);
      PostKeepsIdsBelow(languages, users, actor, es, firstId, entrySubmission, mirrorSubmission);
      if Paired(es) {
        PostKeepsPaired(languages, users, actor, es, firstId, entrySubmission, mirrorSubmission);
      }
    }

    /**
     * The creating branch: take a node id, stamp both objects with the user and
     * the node, and save them in one session whose writes are committed only when
     * both saves succeed.
     */
    method CreateNode(user: Id, entryData: Draft, mirrorData: Option<Draft>)
      returns (r: Result<Posted, PostError>)
      requires mirrorData.Some? ==>
        && entryData.mirror == mirrorData.value.index && entryData.mirrorLanguage == mirrorData.value.language
        && mirrorData.value.mirror == entryData.index && mirrorData.value.mirrorLanguage == entryData.language
      modifies this
      ensures (r, entries) == Create(languages, user, old(entries), old(nextId), entryData, mirrorData)
      ensures r.Success? ==> nextId == old(nextId) + 3
      ensures old(nextId) <= nextId
    {
      var es, firstId := entries, nextId;
      var definitionNode := NewObjectId();
      var entryDraft := entryData.(author := Some(user));
      entryDraft := entryDraft.(definitionNode := Some(definitionNode));
      if mirrorData.None? {
        return Failure(MirrorUndefined);
      }
      var mirrorDraft := mirrorData.value.(author := Some(user));
      mirrorDraft := mirrorDraft.(definitionNode := Some(definitionNode));
      var entryId := NewObjectId();
      var mirrorId := NewObjectId();
      assert entryDraft == Stamp(entryData, user, firstId) && mirrorDraft == Stamp(mirrorData.value, user, firstId);

      // The session: both saves go to a pending copy of the collection.
      var pending := es;
      var entry := Validate(languages, entryId, entryDraft);
      if entry.Failure? {
        return Failure(ValidationFailed(entry.error));
      }
      pending := pending + [entry.value];
      MirrorValidAfterEntry(languages, entryData, mirrorData.value, user, firstId);
      var mirror := Validate(languages, mirrorId, mirrorDraft);
      pending := pending + [mirror.value];
      AppendOneByOne(es, entry.value, mirror.value);
      entries := pending;
      r := Success(Posted(entry.value, Some(mirror.value), definitionNode, New));
    }

    /**
     * `delete_definition`: find the record by id and delete every record of its
     * node; an unknown id is an error and the collection is left as it was.
     */
    method DeleteDefinition(id: Id) returns (r: Result<Id, DeleteError>)
      requires Valid()
      modifies this`entries
      ensures Valid()
      ensures (r, entries) == Delete(old(entries), id)
      ensures old(Paired(entries)) ==> Paired(entries)
    {
      var found := FindById(entries, id);
      if found.None? {
        return Failure(NotFound);
      }
      var definitionNode := found.value.definitionNode;
      var remaining := WithoutNode(entries, definitionNode);
      DeleteKeepsStored(languages, entries, definitionNode, nextId);
      if Paired(entries) {
        WithoutNodeKeepsPaired(entries, definitionNode);
      }
      entries := remaining;
      assert Stored(languages, remaining) && IdsBelow(remaining, nextId);
      r := Success(definitionNode);
    }
  }
}
