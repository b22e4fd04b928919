/**
 * The definition controller: parsing of `text@language` submissions, the
 * find-or-create step that links an entry with its mirror under one definition
 * node, and the lookup of a node's records. `Post` states what one call of
 * `post_definition` returns and what the collection holds once its transaction
 * has ended; the store class in module Store runs the same steps in place.
 */
module Dictionary {
  import opened Wrappers
  import opened Text
  import opened Entries
  import opened Search

  /** Whether the node already existed (`'tenured'`) or was made by this call (`'new'`). */
  datatype Origin = Tenured | New

  /** The JSON body `{ entry, mirror, definitionNode }` and the origin behind the flash message. */
  datatype Posted = Posted(entry: Entry, mirror: Option<Entry>, definitionNode: Id, origin: Origin)

  /** Every way `post_definition` can end in its `catch` block. */
  datatype PostError =
    | BlankDataSubmission               // no entry submission
    | BlankEntryLanguage                // entry submission without `@`
    | BlankMirrorLanguage               // mirror submission given but without `@`
    | NoSignedInUser                    // `req.user` is undefined, so reading `_id` throws
    | NoUserFound                       // `User.findById` found nobody
    | MirrorUndefined                   // no mirror submission, so `mirrorData.author = ...` throws
    | ValidationFailed(paths: set<string>)  // a `save` failed schema validation

  /** The HTTP status of the error response: 400 for a Mongoose ValidationError, 500 otherwise. */
  function StatusCode(e: PostError): (code: nat)
    ensures code == 400 <==> e.ValidationFailed?
    ensures code == 400 || code == 500
  {
    if e.ValidationFailed? then 400 else 500
  }

  /**
   * `{ index: s.split("@")[0].trim(), language: s.split("@")[1].trim() }`: only
   * the index and the language are set, each free of `@` and of whitespace at
   * either end.
   */
  function ParseSubmission(s: string): (d: Draft)
    requires '@' in s
    ensures d.author.None? && d.mirror.None? && d.mirrorLanguage.None? && d.definitionNode.None?
    ensures d.index.Some? && '@' !in d.index.value
    ensures d.language.Some? && '@' !in d.language.value
    ensures d.index.value == [] || (!IsJsWhitespace(d.index.value[0]) && !IsJsWhitespace(d.index.value[|d.index.value| - 1]))
    ensures d.language.value == [] || (!IsJsWhitespace(d.language.value[0]) && !IsJsWhitespace(d.language.value[|d.language.value| - 1]))
  {
    var parts := Split(s, '@');
    SplitPartsFree(s, '@');
    assert '@' !in parts[0] && '@' !in parts[1];
    EmptyDraft.(index := Some(Trim(parts[0])), language := Some(Trim(parts[1])))
  }

  /**
   * With `k` the position of the first `@` and `j` that of the second (or the end
   * of the text), the parsed index is the trimmed text before `k` and the parsed
   * language the trimmed text between `k` and `j`; nothing else is set.
   */
  lemma ParsedFields(s: string, k: nat, j: nat)
    requires k < j <= |s|
    requires s[k] == '@' && '@' !in s[..k]
    requires '@' !in s[k + 1..j] && (j == |s| || s[j] == '@')
    ensures ParseSubmission(s) == EmptyDraft.(index := Some(Trim(s[..k])), language := Some(Trim(s[k + 1..j])))
  {
    var t := s[k + 1..];
    assert s == s[..k] + ['@'] + t;
    assert j < |s| ==> t[..j - k - 1] == s[k + 1..j] && t[j - k - 1] == s[j];
    SplitFirstTwo(s[..k], '@', t, s[k + 1..j]);
  }

  /** `"@spanish"` parses to an empty index. */
  lemma AtSpanishParsesBlank()
    ensures ParseSubmission("@spanish").index == Some("")
  {
    var s := "@spanish";
    assert s[0] == '@';
    assert '@' !in s[1..];
    ParsedFields(s, 0, |s|);
    assert s[..0] == "";
    TrimmedAlready("");
  }

  /** `entryData.mirror = ...; entryData.mirrorLanguage = ...` from the other parsed submission. */
  function CrossLink(d: Draft, other: Draft): (r: Draft)
    ensures r.author == d.author && r.definitionNode == d.definitionNode
    ensures r.index == d.index && r.language == d.language
    ensures r.mirror == other.index && r.mirrorLanguage == other.language
  {
    d.(mirror := other.index, mirrorLanguage := other.language)
  }

  /**
   * The checks and object building of `post_definition` before the user lookup:
   * the entry object, and the mirror object when a mirror submission was given.
   */
  function Submissions(entrySubmission: Option<string>, mirrorSubmission: Option<string>)
    : (r: Result<(Draft, Option<Draft>), PostError>)
    ensures r.Success? <==>
      Truthy(entrySubmission) && '@' in entrySubmission.value
      && (!Truthy(mirrorSubmission) || '@' in mirrorSubmission.value)
    ensures r.Success? ==> (r.value.1.Some? <==> Truthy(mirrorSubmission))
  {
    if !Truthy(entrySubmission) then Failure(BlankDataSubmission)
    else if '@' !in entrySubmission.value then Failure(BlankEntryLanguage)
    else if Truthy(mirrorSubmission) && '@' !in mirrorSubmission.value then Failure(BlankMirrorLanguage)
    else
      var entryData := ParseSubmission(entrySubmission.value);
      if !Truthy(mirrorSubmission) then Success((entryData, None))
      else
        var mirrorData := ParseSubmission(mirrorSubmission.value);
        Success((CrossLink(entryData, mirrorData), Some(CrossLink(mirrorData, entryData))))
  }

  /**
   * Both objects carry their own parse, and each names the other as its mirror;
   * without a mirror submission the entry object has no mirror fields.
   */
  lemma SubmissionsLinked(entrySubmission: Option<string>, mirrorSubmission: Option<string>)
    requires Submissions(entrySubmission, mirrorSubmission).Success?
    ensures var (ed, md) := Submissions(entrySubmission, mirrorSubmission).value;
      && ed.index == ParseSubmission(entrySubmission.value).index
      && ed.language == ParseSubmission(entrySubmission.value).language
      && ed.author.None? && ed.definitionNode.None?
      && (md.None? ==> ed.mirror.None? && ed.mirrorLanguage.None?)
      && (md.Some? ==>
            && md.value.index == ParseSubmission(mirrorSubmission.value).index
            && md.value.language == ParseSubmission(mirrorSubmission.value).language
            && md.value.author.None? && md.value.definitionNode.None?
            && ed.mirror == md.value.index && ed.mirrorLanguage == md.value.language
            && md.value.mirror == ed.index && md.value.mirrorLanguage == ed.language)
  {
  }

  /** `entryData.author = user._id; entryData.definitionNode = definitionNode`. */
  function Stamp(d: Draft, author: Id, node: Id): (r: Draft)
    ensures r.author == Some(author) && r.definitionNode == Some(node)
    ensures r.index == d.index && r.language == d.language
    ensures r.mirror == d.mirror && r.mirrorLanguage == d.mirrorLanguage
    ensures d.author.None? && d.definitionNode.None? ==> forall e: Entry | Matches(e, r) :: Matches(e, d)
  {
    d.(author := Some(author), definitionNode := Some(node))
  }

  /**
   * The cross-linked objects carry the same four strings, so once the entry record
   * passes validation the mirror record does too: of the two saves, only the
   * first can fail on the schema.
   */
  lemma MirrorValidAfterEntry(languages: set<string>, ed: Draft, md: Draft, author: Id, node: Id)
    requires ed.mirror == md.index && ed.mirrorLanguage == md.language
    requires md.mirror == ed.index && md.mirrorLanguage == ed.language
    requires ValidDraft(languages, Stamp(ed, author, node))
    ensures ValidDraft(languages, Stamp(md, author, node))
  {
  }

  /**
   * One call of `post_definition` against the collection `es`, with `users` the
   * ids of the user collection, `actor` the id of `req.user` (None when no one is
   * signed in) and `nextId` the next ObjectId: the new node takes `nextId`, the two
   * new records `nextId + 1` and `nextId + 2`. The second component is the
   * collection after the transaction is committed or aborted.
   */
  function Post(languages: set<string>, users: set<Id>, actor: Option<Id>, es: seq<Entry>, nextId: Id,
                entrySubmission: Option<string>, mirrorSubmission: Option<string>)
    : (out: (Result<Posted, PostError>, seq<Entry>))
    ensures out.1 == es || (out.0.Success? && out.0.value.origin == New)
    ensures out.0.Success? && out.0.value.origin == New ==>
      && out.0.value.mirror.Some?
      && out.1 == es + [out.0.value.entry, out.0.value.mirror.value]
      && out.0.value.entry.id == nextId + 1 && out.0.value.mirror.value.id == nextId + 2
      && out.0.value.definitionNode == out.0.value.entry.definitionNode
         == out.0.value.mirror.value.definitionNode == nextId
      && actor.Some? && actor.value in users
      && out.0.value.entry.author == actor.value == out.0.value.mirror.value.author
  {
    match Submissions(entrySubmission, mirrorSubmission)
    case Failure(e) => (Failure(e), es)
    case Success((entryData, mirrorData)) =>
      if actor.None? then (Failure(NoSignedInUser), es)
      else if actor.value !in users then (Failure(NoUserFound), es)
      else match FindOne(es, entryData)
        case Some(found) => (Success(Posted(found, None, found.definitionNode, Tenured)), es)
        case None => Create(languages, actor.value, es, nextId, entryData, mirrorData)
  }

  /**
   * The creating branch of `post_definition` for the linked objects of `user`:
   * the node takes `nextId` and the records `nextId + 1` and `nextId + 2`. Without
   * a mirror object it is an error; otherwise both records are saved, or the
   * entry record fails validation and nothing is kept.
   */
  function Create(languages: set<string>, user: Id, es: seq<Entry>, nextId: Id,
                  entryData: Draft, mirrorData: Option<Draft>)
    : (out: (Result<Posted, PostError>, seq<Entry>))
    requires mirrorData.Some? ==>
      && entryData.mirror == mirrorData.value.index && entryData.mirrorLanguage == mirrorData.value.language
      && mirrorData.value.mirror == entryData.index && mirrorData.value.mirrorLanguage == entryData.language
    ensures out.0.Success? <==> mirrorData.Some? && ValidDraft(languages, Stamp(entryData, user, nextId))
    ensures out.0.Failure? ==> out.1 == es
    ensures out.0.Success? ==>
      && out.0.value.origin == New && out.0.value.mirror.Some?
      && out.1 == es + [out.0.value.entry, out.0.value.mirror.value]
      && out.0.value.entry.id == nextId + 1 && out.0.value.mirror.value.id == nextId + 2
      && out.0.value.definitionNode == out.0.value.entry.definitionNode
         == out.0.value.mirror.value.definitionNode == nextId
      && out.0.value.entry.author == user == out.0.value.mirror.value.author
  {
    if mirrorData.None? then (Failure(MirrorUndefined), es)
    else
      var entry := Validate(languages, nextId + 1, Stamp(entryData, user, nextId));
      if entry.Failure? then (Failure(ValidationFailed(entry.error)), es)
      else
        MirrorValidAfterEntry(languages, entryData, mirrorData.value, user, nextId);
        var mirror := Validate(languages, nextId + 2, Stamp(mirrorData.value, user, nextId));
        (Success(Posted(entry.value, Some(mirror.value), nextId, New)), es + [entry.value, mirror.value])
  }

  /**
   * The creating path in full: well-formed submissions with a mirror, a known
   * user, no matching record and a valid entry record give a new node holding
   * the stamped entry and mirror records, appended in that order.
   */
  lemma PostCreatesNode(languages: set<string>, users: set<Id>, user: Id, es: seq<Entry>, nextId: Id,
                        entrySubmission: Option<string>, mirrorSubmission: Option<string>, ed: Draft, md: Draft)
    requires Submissions(entrySubmission, mirrorSubmission) == Success((ed, Some(md)))
    requires user in users && FindOne(es, ed).None?
    requires ValidDraft(languages, Stamp(ed, user, nextId))
    ensures ValidDraft(languages, Stamp(md, user, nextId))
    ensures var x := Validate(languages, nextId + 1, Stamp(ed, user, nextId)).value;
      var y := Validate(languages, nextId + 2, Stamp(md, user, nextId)).value;
      Post(languages, users, Some(user), es, nextId, entrySubmission, mirrorSubmission)
      == (Success(Posted(x, Some(y), nextId, New)), es + [x, y])
  {
    SubmissionsLinked(entrySubmission, mirrorSubmission);
    MirrorValidAfterEntry(languages, ed, md, user, nextId);
  }

  /**
   * A missing entry submission, an entry submission without `@`, and a mirror
   * submission without `@` are each rejected with their own error, and the
   * collection is left as it was.
   */
  lemma MalformedSubmissionRejected(languages: set<string>, users: set<Id>, actor: Option<Id>,
                                    es: seq<Entry>, nextId: Id,
                                    entrySubmission: Option<string>, mirrorSubmission: Option<string>)
    ensures var out := Post(languages, users, actor, es, nextId, entrySubmission, mirrorSubmission);
      && (!Truthy(entrySubmission) ==> out == (Failure(BlankDataSubmission), es))
      && (Truthy(entrySubmission) && '@' !in entrySubmission.value ==> out == (Failure(BlankEntryLanguage), es))
      && ((Truthy(entrySubmission) && '@' in entrySubmission.value
           && Truthy(mirrorSubmission) && '@' !in mirrorSubmission.value)
          ==> out == (Failure(BlankMirrorLanguage), es))
  {
  }

  /** Without a signed-in user, or with one the user collection does not hold, nothing is written. */
  lemma UnknownUserRejected(languages: set<string>, users: set<Id>, actor: Option<Id>,
                            es: seq<Entry>, nextId: Id,
                            entrySubmission: Option<string>, mirrorSubmission: Option<string>)
    requires Submissions(entrySubmission, mirrorSubmission).Success?
    requires actor.None? || actor.value !in users
    ensures Post(languages, users, actor, es, nextId, entrySubmission, mirrorSubmission)
      == (Failure(if actor.None? then NoSignedInUser else NoUserFound), es)
  {
  }

  /**
   * When a stored record matches every field of the parsed entry object, the
   * call reuses that record's node, reports it as tenured and writes nothing.
   */
  lemma MatchIsTenured(languages: set<string>, users: set<Id>, actor: Id, es: seq<Entry>, nextId: Id,
                       entrySubmission: Option<string>, mirrorSubmission: Option<string>)
    requires Submissions(entrySubmission, mirrorSubmission).Success?
    requires actor in users
    requires FindOne(es, Submissions(entrySubmission, mirrorSubmission).value.0).Some?
    ensures var found := FindOne(es, Submissions(entrySubmission, mirrorSubmission).value.0).value;
      && found in es
      && Matches(found, Submissions(entrySubmission, mirrorSubmission).value.0)
      && Post(languages, users, Some(actor), es, nextId, entrySubmission, mirrorSubmission)
         == (Success(Posted(found, None, found.definitionNode, Tenured)), es)
  {
  }

  /**
   * A call that creates a node adds exactly two records: both valid, both written
   * by the acting user, both on the nextId node, each the mirror of the other, the
   * first carrying the parsed entry submission and the second the parsed mirror.
   */
  lemma NewNodeIsMirroredPair(languages: set<string>, users: set<Id>, actor: Option<Id>,
                              es: seq<Entry>, nextId: Id,
                              entrySubmission: Option<string>, mirrorSubmission: Option<string>)
    requires var out := Post(languages, users, actor, es, nextId, entrySubmission, mirrorSubmission);
      out.0.Success? && out.0.value.origin == New
    ensures var out := Post(languages, users, actor, es, nextId, entrySubmission, mirrorSubmission);
      var x, y := out.0.value.entry, out.0.value.mirror.value;
      && out.1 == es + [x, y]
      && out.0.value.definitionNode == nextId == x.definitionNode == y.definitionNode
      && actor.Some? && x.author == actor.value && y.author == actor.value
      && x.id == nextId + 1 && y.id == nextId + 2
      && MirrorPair(x, y)
      && ValidEntry(languages, x) && ValidEntry(languages, y)
      && Some(x.index) == ParseSubmission(entrySubmission.value).index
      && Some(x.language) == ParseSubmission(entrySubmission.value).language
      && Some(y.index) == ParseSubmission(mirrorSubmission.value).index
      && Some(y.language) == ParseSubmission(mirrorSubmission.value).language
  {
    var sub := Submissions(entrySubmission, mirrorSubmission);
    assert sub.Success?;
    SubmissionsLinked(entrySubmission, mirrorSubmission);
    var (ed, md) := sub.value;
    assert actor.Some? && actor.value in users && FindOne(es, ed).None?;
    var out := Create(languages, actor.value, es, nextId, ed, md);
    assert Post(languages, users, actor, es, nextId, entrySubmission, mirrorSubmission) == out;
    var x, y := out.0.value.entry, out.0.value.mirror.value;
    assert DraftOf(x) == Stamp(ed, actor.value, nextId);
    assert DraftOf(y) == Stamp(md.value, actor.value, nextId);
  }

  /**
   * The two inserts are all or nothing: with no matching record, a missing mirror
   * submission or a record that fails validation ends the call in an error and
   * neither record is kept.
   */
  lemma FailedInsertKeepsNothing(languages: set<string>, users: set<Id>, actor: Id, es: seq<Entry>, nextId: Id,
                                 entrySubmission: Option<string>, mirrorSubmission: Option<string>)
    requires Submissions(entrySubmission, mirrorSubmission).Success?
    requires actor in users
    requires var (ed, md) := Submissions(entrySubmission, mirrorSubmission).value;
      && FindOne(es, ed).None?
      && (md.None?
          || !ValidDraft(languages, Stamp(ed, actor, nextId))
          || !ValidDraft(languages, Stamp(md.value, actor, nextId)))
    ensures var out := Post(languages, users, Some(actor), es, nextId, entrySubmission, mirrorSubmission);
      && out.0.Failure? && out.1 == es
      && (out.0.error == MirrorUndefined <==> !Truthy(mirrorSubmission))
  {
  }

  /**
   * A blank entry text, as in `"@spanish"`, never reaches the collection: no stored
   * record has an empty index, so no node is reused. For a known user, a
   * well-formed mirror submission leads to the `required` validator failing on
   * `index` (a 400); no mirror submission leads to the `MirrorUndefined` throw
   * (a 500).
   */
  lemma BlankIndexRejected(languages: set<string>, users: set<Id>, actor: Option<Id>,
                           es: seq<Entry>, nextId: Id, entrySubmission: string, mirrorSubmission: Option<string>)
    requires Stored(languages, es)
    requires '@' in entrySubmission && ParseSubmission(entrySubmission).index == Some("")
    ensures var out := Post(languages, users, actor, es, nextId, Some(entrySubmission), mirrorSubmission);
      && out.0.Failure? && out.1 == es
      && (actor.Some? && actor.value in users && Truthy(mirrorSubmission) && '@' in mirrorSubmission.value ==>
            out.0.error.ValidationFailed? && "index" in out.0.error.paths)
      && (actor.Some? && actor.value in users && !Truthy(mirrorSubmission) ==> out.0.error == MirrorUndefined)
  {
    var sub := Submissions(Some(entrySubmission), mirrorSubmission);
    if sub.Success? {
      SubmissionsLinked(Some(entrySubmission), mirrorSubmission);
      var ed := sub.value.0;
      assert ed.index == Some("");
      assert FindOne(es, ed).None? by {
        forall e | e in es ensures !Matches(e, ed) {
          assert ValidEntry(languages, e);
        }
      }
      if actor.Some? && actor.value in users {
        assert !RequiredString(Stamp(ed, actor.value, nextId).index);
        FailedInsertKeepsNothing(languages, users, actor.value, es, nextId, Some(entrySubmission), mirrorSubmission);
      }
    }
  }

  /** `"@spanish"` in particular is rejected whatever the mirror submission. */
  lemma AtSpanishRejected(languages: set<string>, users: set<Id>, actor: Option<Id>,
                          es: seq<Entry>, nextId: Id, mirrorSubmission: Option<string>)
    requires Stored(languages, es)
    ensures var out := Post(languages, users, actor, es, nextId, Some("@spanish"), mirrorSubmission);
      out.0.Failure? && out.1 == es
  {
    AtSpanishParsesBlank();
    assert "@spanish"[0] == '@';
    BlankIndexRejected(languages, users, actor, es, nextId, "@spanish", mirrorSubmission);
  }

  /**
   * Re-submission is idempotent: once a call has created a node, the same call
   * again finds the record it wrote, reports the same node as tenured and leaves
   * the collection as the first call left it.
   */
  lemma ResubmissionIsTenured(languages: set<string>, users: set<Id>, actor: Option<Id>,
                              es: seq<Entry>, nextId: Id, later: Id,
                              entrySubmission: Option<string>, mirrorSubmission: Option<string>)
    requires var out := Post(languages, users, actor, es, nextId, entrySubmission, mirrorSubmission);
      out.0.Success? && out.0.value.origin == New
    ensures var out := Post(languages, users, actor, es, nextId, entrySubmission, mirrorSubmission);
      Post(languages, users, actor, out.1, later, entrySubmission, mirrorSubmission)
      == (Success(Posted(out.0.value.entry, None, out.0.value.definitionNode, Tenured)), out.1)
  {
    var out := Post(languages, users, actor, es, nextId, entrySubmission, mirrorSubmission);
    var (ed, md) := Submissions(entrySubmission, mirrorSubmission).value;
    var x, y := out.0.value.entry, out.0.value.mirror.value;
    assert FindOne(es, ed).None?;
    assert DraftOf(x) == Stamp(ed, actor.value, nextId);
    assert Matches(x, ed);
    FindOneAppend(es, [x, y], ed);
  }

  /** A created node keeps the collection valid: every record valid, no id used twice. */
  lemma PostKeepsStored(languages: set<string>, users: set<Id>, actor: Option<Id>,
                        es: seq<Entry>, nextId: Id,
                        entrySubmission: Option<string>, mirrorSubmission: Option<string>)
    requires Stored(languages, es) && IdsBelow(es, nextId)
    ensures Stored(languages, Post(languages, users, actor, es, nextId, entrySubmission, mirrorSubmission).1)
  {
    var out := Post(languages, users, actor, es, nextId, entrySubmission, mirrorSubmission);
    if out.0.Success? && out.0.value.origin == New {
      NewNodeIsMirroredPair(languages, users, actor, es, nextId, entrySubmission, mirrorSubmission);
      AppendFreshKeepsStored(languages, es, nextId, out.0.value.entry, out.0.value.mirror.value);
    }
  }

  /** Every id in the collection, record or node, stays below the next fresh ObjectId. */
  lemma PostKeepsIdsBelow(languages: set<string>, users: set<Id>, actor: Option<Id>,
                          es: seq<Entry>, nextId: Id,
                          entrySubmission: Option<string>, mirrorSubmission: Option<string>)
    requires IdsBelow(es, nextId)
    ensures IdsBelow(Post(languages, users, actor, es, nextId, entrySubmission, mirrorSubmission).1, nextId + 3)
  {
    var out := Post(languages, users, actor, es, nextId, entrySubmission, mirrorSubmission);
    if out.0.Success? && out.0.value.origin == New {
      var x, y := out.0.value.entry, out.0.value.mirror.value;
      AppendIdsBelow(es, nextId, nextId + 3, [x, y]);
    } else {
      AppendIdsBelow(es, nextId, nextId + 3, []);
      assert es + [] == es;
    }
  }

  /** A created node keeps every node a mirrored pair of records. */
  lemma PostKeepsPaired(languages: set<string>, users: set<Id>, actor: Option<Id>,
                        es: seq<Entry>, nextId: Id,
                        entrySubmission: Option<string>, mirrorSubmission: Option<string>)
    requires Paired(es) && IdsBelow(es, nextId)
    ensures Paired(Post(languages, users, actor, es, nextId, entrySubmission, mirrorSubmission).1)
  {
    var out := Post(languages, users, actor, es, nextId, entrySubmission, mirrorSubmission);
    if out.0.Success? && out.0.value.origin == New {
      NewNodeIsMirroredPair(languages, users, actor, es, nextId, entrySubmission, mirrorSubmission);
      AppendPairKeepsPaired(es, out.0.value.entry, out.0.value.mirror.value);
    }
  }

  /**
   * What a call creates can be found again: searching for the same entry
   * submission on the page handler returns the new entry record.
   */
  lemma PostedEntryIsFound(languages: set<string>, users: set<Id>, actor: Option<Id>,
                           es: seq<Entry>, nextId: Id,
                           entrySubmission: Option<string>, mirrorSubmission: Option<string>)
    requires var out := Post(languages, users, actor, es, nextId, entrySubmission, mirrorSubmission);
      out.0.Success? && out.0.value.origin == New
    ensures var out := Post(languages, users, actor, es, nextId, entrySubmission, mirrorSubmission);
      out.0.value.entry in Io(out.1, entrySubmission)
  {
    NewNodeIsMirroredPair(languages, users, actor, es, nextId, entrySubmission, mirrorSubmission);
    var out := Post(languages, users, actor, es, nextId, entrySubmission, mirrorSubmission);
    var x := out.0.value.entry;
    assert QueryText(entrySubmission.value) == x.index;
    WordInItself(x.index);
    assert x in out.1;
  }

  /** The page of one node: its records and the author of the first one, if that user still exists. */
  datatype Definition = Definition(entries: seq<Entry>, author: Option<Id>)

  /** `entries[0].author` on an empty result throws, so a node without records is an error. */
  datatype GetError = NoEntries

  /** `get_definition`: the records of `node` in collection order and the first record's author. */
  function GetDefinition(es: seq<Entry>, users: set<Id>, node: Id): (r: Result<Definition, GetError>)
    ensures r.Failure? <==> forall e | e in es :: e.definitionNode != node
    ensures r.Success? ==>
      && |r.value.entries| > 0
      && (forall e | e in r.value.entries :: e in es && e.definitionNode == node)
      && (forall e | e in es && e.definitionNode == node :: e in r.value.entries)
      && (r.value.author.Some? ==> r.value.author.value == r.value.entries[0].author
                                   && r.value.author.value in users)
      && (r.value.author.None? ==> r.value.entries[0].author !in users)
  {
    var entries := NodeEntries(es, node);
    if |entries| == 0 then Failure(NoEntries)
    else
      var author := entries[0].author;
      Success(Definition(entries, if author in users then Some(author) else None))
  }

  /** Right after a node is created, its page lists exactly the two new records, entry first. */
  lemma NewNodeIsListed(languages: set<string>, users: set<Id>, actor: Option<Id>,
                        es: seq<Entry>, nextId: Id,
                        entrySubmission: Option<string>, mirrorSubmission: Option<string>)
    requires IdsBelow(es, nextId)
    requires var out := Post(languages, users, actor, es, nextId, entrySubmission, mirrorSubmission);
      out.0.Success? && out.0.value.origin == New
    ensures var out := Post(languages, users, actor, es, nextId, entrySubmission, mirrorSubmission);
      GetDefinition(out.1, users, nextId)
      == Success(Definition([out.0.value.entry, out.0.value.mirror.value], actor))
  {
    var out := Post(languages, users, actor, es, nextId, entrySubmission, mirrorSubmission);
    var x, y := out.0.value.entry, out.0.value.mirror.value;
    FilterAppend(es, [x, y], OnNode(nextId));
    FilterNone(es, OnNode(nextId));
    FilterAll([x, y], OnNode(nextId));
    assert NodeEntries(out.1, nextId) == [x, y];
  }

  /** `findById` found nothing, so reading `definitionNode` from its result throws. */
  datatype DeleteError = NotFound

  /**
   * `delete_definition`: the node of the record with `_id` equal to `id`, and the
   * collection once every record of that node is deleted; an unknown id is an
   * error and deletes nothing.
   */
  function Delete(es: seq<Entry>, id: Id): (out: (Result<Id, DeleteError>, seq<Entry>))
    ensures out.0.Failure? <==> forall e | e in es :: e.id != id
    ensures out.0.Failure? ==> out.1 == es
    ensures out.0.Success? ==>
      && (exists e | e in es :: e.id == id && e.definitionNode == out.0.value)
      && (forall e :: e in out.1 <==> e in es && e.definitionNode != out.0.value)
  {
    match FindById(es, id)
    case None => (Failure(NotFound), es)
    case Some(e) => (Success(e.definitionNode), WithoutNode(es, e.definitionNode))
  }

  /**
   * Deleting a node removes all of its records and no others: afterwards the node
   * has no records, and every other node has exactly the records it had.
   */
  lemma DeleteRemovesWholeNode(es: seq<Entry>, node: Id, other: Id)
    requires other != node
    ensures NodeEntries(WithoutNode(es, node), node) == []
    ensures NodeEntries(WithoutNode(es, node), other) == NodeEntries(es, other)
  {
    FilterFilter(es, OffNode(node), OnNode(other));
    FilterNone(WithoutNode(es, node), OnNode(node));
  }

  /** After a node is deleted, its page is an error. */
  lemma DeletedNodeIsGone(es: seq<Entry>, users: set<Id>, node: Id)
    ensures GetDefinition(WithoutNode(es, node), users, node) == Failure(NoEntries)
  {
  }

  /** Deleting a node keeps the collection valid. */
  lemma DeleteKeepsStored(languages: set<string>, es: seq<Entry>, node: Id, bound: Id)
    requires Stored(languages, es) && IdsBelow(es, bound)
    ensures Stored(languages, WithoutNode(es, node)) && IdsBelow(WithoutNode(es, node), bound)
  {
    FilterUniqueIds(es, OffNode(node));
  }

  /**
   * The `(index, language)` index does not make the pair unique: two valid records
   * sharing index and language, with distinct ids, form a valid collection.
   */
  lemma DuplicateIndexAllowed(languages: set<string>, a: Entry, b: Entry)
    requires ValidEntry(languages, a) && ValidEntry(languages, b)
    requires a.index == b.index && a.language == b.language && a.id != b.id
    ensures Stored(languages, [a, b])
  {
  }
}
