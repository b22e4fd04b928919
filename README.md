# Definition-node store of a community dictionary

This project models the part of the dictionary controller that keeps
**definition nodes** consistent. A user submits a word as `text@language`,
together with its translation (the *mirror*) in the same form. The controller
parses both submissions and links them to each other. It then either reuses
the node of a matching record (*tenured*) or creates a new node that holds
exactly two records, each the mirror of the other. Both records are saved in
one transaction. Deleting a record deletes its whole node. A node's page lists
the node's records, and two search handlers find records by a whole word of
their `index`.

The model is written in six modules:

- `Wrappers`: `Option`, `Result` and JavaScript truthiness of an optional string.
- `Text`: `split` on one separator character and `trim`, with their algebra
  (join/split round trip, the first two parts, trim idempotence).
- `Entries`: the `Entry` schema and its validation, the partial objects the
  controller fills in, `findOne`, `findById`, and `find`/`deleteMany` as a
  filter. It also defines the collection invariants:
  - `Stored`: every record is valid and ids are unique;
  - `IdsBelow`: every id was handed out before the current counter;
  - `Paired`: every record has its mirror record, and no node holds more than
    two records.
- `Search`: the whole-word, case-insensitive match of the query regex, and the
  two handlers `io` and `search_io`.
- `Dictionary`: the value-level specification of the handlers:
  - `Post`: one `post_definition` call, as the reply plus the collection after
    commit or abort;
  - `Delete`, `GetDefinition`;
  - the lemmas about them.
- `Store`: class `EntryStore`, which holds the collection and the ObjectId
  counter. Its methods `PostDefinition` and `DeleteDefinition` run the
  handlers' steps in place. They build the objects field by field, save to a
  pending copy of the collection, and commit at the end. Each method is proved
  equal to `Post` / `Delete` and to preserve `Valid()` and `Paired`.

Several facts are parameters of the model:

- **Languages:** the recognized-language list lives in a keys module that is
  not part of this model, so it is a parameter (`languages`).
- **Users:** the user collection enters only as the set of user ids.
- **Signed-in user:** the signed-in user is an `Option`, because the routes do
  not require a login.
- **ObjectIds:** ObjectIds are natural numbers handed out by a counter.

Some behaviour of the controller is worth stating outright:

- **Missing `@`:** a submission without the delimiter throws a plain
  `Error`, so the reply is a 500 (`StatusCode`), not a validation error.
- **Blank text (`"@spanish"`):** the text parses to an empty `index`
  (`AtSpanishParsesBlank`). No stored record matches it, so it is never
  written (`BlankIndexRejected`). What the reply is depends on the rest of the
  call:
  - with a signed-in, known user and a well-formed mirror submission, the
    schema's `required` validator rejects `index`, a 400;
  - with a known user and no mirror submission, the assignment to the
    undefined mirror object throws first, a 500 (`MirrorUndefined`);
  - without a user, the user checks fail first, a 500.
- **Second save:** the cross-link gives both objects the same four strings,
  so once the first record passes validation the second does too
  (`MirrorValidAfterEntry`). Only the first save can fail on the schema; the
  transaction matters only for storage failures, which are not modelled.
- **`search_io`:** its word condition is on `header`, a path the schema does
  not define, and the server turns on Mongoose's strict query mode
  (index.js:39), which drops such paths from a filter. As written it therefore
  ignores the query word and returns every record, or with `@` every record of
  the named language (`SearchIoAsWritten`, `HeaderFilterIgnoresWord`). The
  model's `SearchIo` filters on `index`, as `io` does; see Findings.

## Model

| member | source | states |
|---|---|---|
| Text.Split | dictionary.js:146-152 | `split("@")` always yields at least one part, and two or more exactly when the text contains the separator |
| Text.JoinSplit | dictionary.js:146-152 | joining the parts of a split with the separator gives back the original text |
| Text.SplitPartsFree | dictionary.js:146-152 | no part of a split contains the separator |
| Text.SplitJoin | dictionary.js:146-152 | splitting separator-free parts joined by the separator gives back the parts |
| Text.SplitFirstTwo | dictionary.js:146-147 | part 0 is the text before the first `@`; part 1 is the text between the first `@` and the next `@` or the end |
| Text.FirstTwoParts | dictionary.js:146-147 | conversely, part 0 and part 1 sit at the first separator and between it and the next separator or the end, and neither contains the separator |
| Text.TrimStart | dictionary.js:146-147 | the result is a suffix of the input; only whitespace was dropped, and it does not start with whitespace |
| Text.TrimEnd | dictionary.js:146-147 | the result is a prefix of the input; only whitespace was dropped, and it does not end with whitespace |
| Text.Trim | dictionary.js:146-147 | `trim()` is the slice of its input left after dropping only whitespace at both ends, and it neither starts nor ends with whitespace |
| Text.WhitespaceAround | dictionary.js:146-147 | a prefix of a suffix of a text, with only whitespace cut off on each side, is a slice of the text with only whitespace before and after it |
| Text.TrimmedAlready | dictionary.js:146-147 | a text without whitespace at either end is its own trim |
| Text.TrimIdempotent | dictionary.js:146-147 | trimming twice is trimming once |
| Entries.InvalidPaths | entries.js:7-33 | the failing paths are empty exactly for a valid object; `index`/`mirror` fail exactly when missing or empty; `language`/`mirrorLanguage` fail exactly when missing, empty or outside the language enum |
| Entries.ValidDraft | entries.js:7-33 | the schema: a record can be saved only with an author and a node, a non-empty `index` and `mirror`, and both languages non-empty and in the enum (its partner is `InvalidPaths`) |
| Entries.Validate | entries.js:7-33 | `save` validation succeeds exactly for a valid object; the saved record carries the given `_id` and exactly the object's fields; a failure reports the non-empty set of failing paths |
| Entries.ValidateDraftOf | entries.js:7-33 | validating the full object of a valid record gives back that record |
| Entries.FindOne | dictionary.js:168 | `findOne(entryData)` returns nothing exactly when no record matches every field set in the object, and otherwise the first matching record in collection order |
| Entries.Matches | dictionary.js:168 | a query object matches a record when every field the object sets equals the record's field; unset fields impose nothing |
| Entries.FindOneAppend | dictionary.js:168 | after records are appended to a collection with no match, the first appended record, if it matches, is what `findOne` returns |
| Entries.FindById | dictionary.js:237 | `findById(id)` returns a record with that `_id` when there is one, and nothing exactly when no record has it |
| Entries.Filter | dictionary.js:117 | a filter result is no longer than the collection and holds exactly the records the filter keeps |
| Entries.FilterFilter | dictionary.js:240 | filtering twice is filtering once with both conditions |
| Entries.FilterAppend | dictionary.js:117 | filtering a concatenation concatenates the filtered parts |
| Entries.NodeEntries | dictionary.js:117 | `find({ definitionNode })` holds exactly the records of that node |
| Entries.WithoutNode | dictionary.js:240 | `deleteMany({ definitionNode })` leaves exactly the records of other nodes |
| Entries.FilterUniqueIds | dictionary.js:240 | removing records keeps `_id`s unique |
| Entries.AppendPairKeepsPaired | dictionary.js:175-191 | adding a mirrored pair on a node no record uses keeps every record mirrored and every node at most two records |
| Entries.WithoutNodeKeepsPaired | dictionary.js:240 | deleting a whole node keeps the pair shape of the remaining nodes |
| Entries.AppendFreshKeepsStored | dictionary.js:184-188 | appending two valid records with fresh, distinct ids keeps the collection valid with unique ids |
| Search.FoldCase | dictionary.js:45 | the `i` option maps each upper-case ASCII letter to the lower-case letter at the same place in the alphabet and leaves every other character alone |
| Search.WordAt | dictionary.js:45 | the whole-word regex with option `i` matches at a position: the word, ignoring ASCII case, preceded by the start or a whitespace character and followed by the end or a whitespace character |
| Search.ContainsWord | dictionary.js:75 | the same regex matches somewhere in the text |
| Search.ContainsWordIgnoresCase | dictionary.js:45 | two query words that differ only in letter case match exactly the same texts |
| Search.QueryText | dictionary.js:40-41 | the query text (`q.split("@")[0].trim()`, also at lines 70-71) holds no `@` and no whitespace at either end, and a query without `@` is only trimmed; with `@` its value is given by `QueryParts` |
| Search.QueryLanguage | dictionary.js:70-76 | the query names a language exactly when it contains `@`; its value is given by `QueryParts` |
| Search.QueryParts | dictionary.js:70-76 | for every query with `@`, the text is the trimmed text before the first `@` and the language the untrimmed text between the first `@` and the next `@` or the end |
| Search.Io | dictionary.js:26-59 | a missing or empty query gives no records; otherwise exactly the stored records whose `index` holds the trimmed text before `@` as a whole word, ignoring case |
| Search.SearchIo | dictionary.js:62-88 | a missing or empty query is an error; otherwise exactly the records whose `index` holds the query text as a whole word and, when `@` is present, whose language equals the untrimmed text between the first `@` and the next `@` or the end |
| Search.SearchIoAsWritten | dictionary.js:62-79 | as written, under strict query mode (index.js:39): a missing or empty query is an error; otherwise exactly the records of the named language, or all records when there is no `@`, whatever the query word |
| Search.HeaderFilterIgnoresWord | dictionary.js:75 | as written, `casa` returns a record indexed `casas`, which the intended whole-word filter leaves out |
| Search.SearchIoNarrowsIo | dictionary.js:40-79 | `search_io` never returns a record `io` would not, and without `@` the two agree |
| Search.WordInItself | dictionary.js:45 | a text is a whole word of itself |
| Search.ExampleWords | dictionary.js:45 | "casa" matches "Mi Casa" but neither "casas" nor "micasa" |
| Search.PlainQuery | dictionary.js:40-41 | a trimmed query without `@` is its own text and names no language |
| Search.ScopedQuery | dictionary.js:70-76 | the query `w@l` has text `w` and language `l` |
| Search.ExampleQueries | dictionary.js:70-76 | `casa` has text "casa" and no language; `casa@spanish` has text "casa" and language "spanish" |
| Search.LanguageScopedExample | dictionary.js:62-79 | on a small collection, `casa@spanish` returns only the Spanish record holding the word, and `casa` also returns the Portuguese one |
| Search.ExampleFilter | dictionary.js:74-79 | the filtering step of that example once the query is split |
| Dictionary.StatusCode | dictionary.js:211-217 | the error reply is 400 exactly for a validation error and 500 for every other error |
| Dictionary.ParseSubmission | dictionary.js:145-153 | a parsed submission sets only `index` and `language`, each free of `@` and of whitespace at either end |
| Dictionary.ParsedFields | dictionary.js:145-153 | the parsed index is the trimmed text before the first `@`, and the parsed language the trimmed text between the first and second `@` |
| Dictionary.AtSpanishParsesBlank | dictionary.js:145-148 | `"@spanish"` parses to an empty index |
| Dictionary.CrossLink | dictionary.js:155-160 | the linked object keeps its own index, language, author and node, and takes the other object's index and language as its mirror fields |
| Dictionary.Submissions | dictionary.js:137-160 | the checks pass exactly when the entry submission is non-empty with `@`, and any non-empty mirror submission has `@`; a mirror object exists exactly when a mirror submission was given |
| Dictionary.SubmissionsLinked | dictionary.js:145-160 | each object carries its own parse; with a mirror, each names the other's index and language as its mirror; without one, the entry has no mirror fields |
| Dictionary.MirrorValidAfterEntry | dictionary.js:155-188 | once the cross-linked entry object passes validation, so does the mirror object |
| Dictionary.Stamp | dictionary.js:178-182 | stamping sets the author and the node and keeps the four strings; on an object with neither set, a record that matches the stamped object matches the original |
| Dictionary.Post | dictionary.js:127-225 | the collection changes only when a node is created, and then it grows by exactly the entry and mirror records; those take ids `nextId + 1` and `nextId + 2` on node `nextId`, authored by a signed-in, existing user |
| Dictionary.Create | dictionary.js:175-191 | creation succeeds exactly when a mirror object exists and the stamped entry object is valid; failure keeps the collection; success appends the two records with fresh ids on the fresh node, both by the user |
| Dictionary.PostCreatesNode | dictionary.js:175-191 | well-formed submissions with a mirror, a known user, no match and a valid entry object produce the new node with the two stamped records appended in order |
| Dictionary.MalformedSubmissionRejected | dictionary.js:137-141 | a missing entry submission, an entry without `@` and a mirror without `@` each give their own error and leave the collection unchanged |
| Dictionary.UnknownUserRejected | dictionary.js:163-164 | with no signed-in user or a user id that is not stored, the call fails and nothing is written |
| Dictionary.MatchIsTenured | dictionary.js:168-173 | when a stored record matches the parsed entry object, the call reports that record's node as tenured and writes nothing |
| Dictionary.NewNodeIsMirroredPair | dictionary.js:175-191 | a created node adds exactly two valid records by the acting user on node `nextId`, each the other's mirror, carrying the parsed entry and mirror submissions |
| Dictionary.FailedInsertKeepsNothing | dictionary.js:181-209 | with no match, a missing mirror submission or an invalid record ends in an error that keeps neither record; the error is "mirror undefined" exactly when no mirror was submitted |
| Dictionary.BlankIndexRejected | dictionary.js:164-185 | an entry submission with empty text never reaches a valid collection, since nothing matches it; for a known user it is a `required` failure on `index` when a mirror is given, and `MirrorUndefined` when none is |
| Dictionary.AtSpanishRejected | dictionary.js:145-148 | `"@spanish"` fails and leaves a valid collection unchanged, whatever the mirror |
| Dictionary.ResubmissionIsTenured | dictionary.js:168-173 | repeating a call that created a node finds the record it wrote, reports the same node as tenured, and writes nothing |
| Dictionary.PostKeepsStored | dictionary.js:184-188 | every call keeps the collection valid with unique ids |
| Dictionary.PostKeepsIdsBelow | dictionary.js:176 | every call keeps all ids below `nextId + 3` |
| Dictionary.PostKeepsPaired | dictionary.js:175-191 | every call keeps every node a mirrored pair |
| Dictionary.PostedEntryIsFound | dictionary.js:26-48 | after a node is created, searching for the same entry submission on the page handler returns the new entry record |
| Dictionary.GetDefinition | dictionary.js:113-126 | a node without records is an error; otherwise the result holds exactly the node's records, and the author is the first record's author when that user exists |
| Dictionary.NewNodeIsListed | dictionary.js:113-118 | right after creation, the node's page lists exactly the entry and mirror records, in that order, with the acting user as author |
| Dictionary.Delete | dictionary.js:226-259 | an unknown id is an error and deletes nothing; otherwise the result is the node of the record with that id, and exactly the records of other nodes remain |
| Dictionary.DeleteRemovesWholeNode | dictionary.js:237-240 | after deleting a node, it has no records, and every other node keeps exactly its records in order |
| Dictionary.DeletedNodeIsGone | dictionary.js:117-118 | after deleting a node, its page is an error |
| Dictionary.DeleteKeepsStored | dictionary.js:240 | deleting a node keeps the collection valid and its ids below the counter |
| Dictionary.DuplicateIndexAllowed | entries.js:36 | two valid records with the same index and language but distinct ids form a valid collection |
| Store.EntryStore.constructor | entries.js:39 | a new store is empty, valid and of pair shape |
| Store.EntryStore.NewObjectId | dictionary.js:176 | hands out the counter and advances it by one |
| Store.EntryStore.PostDefinition | dictionary.js:127-225 | reply and new collection equal `Post` on the old collection and counter; keeps `Valid()` and `Paired`; a created node consumes exactly three ids |
| Store.EntryStore.CreateNode | dictionary.js:175-191 | builds both objects field by field, saves them to a pending copy and commits; reply and new collection equal `Create` |
| Store.EntryStore.DeleteDefinition | dictionary.js:226-259 | reply and new collection equal `Delete` on the old collection; keeps `Valid()` and `Paired` |

## Findings

| source | as written | input that shows it | evidently intended | confidence | as-written member | corrected member |
|---|---|---|---|---|---|---|
| dictionary.js:75 | the word condition of `search_io` is on `header`, which the schema does not define, so strict query mode (index.js:39) drops it | the query `casa` on a collection holding a record indexed `casas` returns that record | the whole-word condition on `index`, as `io` has at line 45 | not executed; high for the path name, medium for Mongoose's handling of it | Search.HeaderFilterIgnoresWord | Search.SearchIo |

## Left out

- Rendering, `req.flash` messages and redirects are left out. The handlers'
  replies are result values, and `StatusCode` gives the HTTP status of a
  `post_definition` error.
- Mongoose sessions are modelled only by their all-or-nothing effect. Two
  concurrent requests are not modelled, so neither is the race between
  `findOne` and the inserts that can create two nodes for one pair.
- Storage failures are not modelled: a lost connection, a failing second save
  or a failing commit. Nor is the crash in the `finally` blocks when
  `startSession` itself failed and `session` is undefined.
- Store.EntryStore.PostDefinition: the ObjectId taken for a new node before the
  "mirror undefined" error is consumed, as in the source, but the contract
  promises only that the counter never decreases on failures.
- `search_io`'s `header` condition, and the `null` key it builds for a query
  without `@`, are dropped by strict query mode (index.js:39); the model
  states that outcome (`SearchIoAsWritten`) rather than Mongoose's casting of
  filters in general, which is not part of this model.
- The `catch` of `search_io` compares the caught `Error` with the string
  `'no query'`, which never holds, and it refers to an undefined `entries`.
  The model reports a missing query as `Failure(NoQuery)` instead of leaving
  the request without a reply.
- The query text is spliced into the regular expression unescaped, and regex
  metacharacters in it are not modelled: the text is matched literally.
  `Sanitize` is not part of this model.
- Case-insensitive matching folds ASCII letters only, and `\s` is taken to be
  ASCII whitespace. Unicode case folding is not modelled.
- `get_node`, `post_notes` and `post_translation` are left out; they only
  render a page or echo their input.
- Timestamps are left out.
- The user model (`users.js`) is not part of this model. Its `tenure` virtual
  uses the clock and floating point.
- Read-only handlers are functions over the collection (`GetDefinition`, `Io`,
  `SearchIo`) rather than store methods. They change nothing.
