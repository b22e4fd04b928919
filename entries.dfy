/**
 * The `Entry` collection: the record shape with its schema rules (required
 * fields, the language enum), the half-built objects the controller assembles
 * before saving, and the queries the controller runs against the collection.
 */
module Entries {
  import opened Wrappers

  /** A MongoDB ObjectId: the `_id` of a record, a user reference, a definition node. */
  type Id = nat

  /** A stored record; every field the schema requires is present. */
  datatype Entry = Entry(
    id: Id,
    author: Id,
    index: string,
    language: string,
    mirror: string,
    mirrorLanguage: string,
    definitionNode: Id)

  /**
   * A plain object handed to `new Entry(...)` or to `findOne(...)`: each field
   * may be missing, as the controller fills them in one at a time.
   */
  datatype Draft = Draft(
    author: Option<Id>,
    index: Option<string>,
    language: Option<string>,
    mirror: Option<string>,
    mirrorLanguage: Option<string>,
    definitionNode: Option<Id>)

  const EmptyDraft: Draft := Draft(None, None, None, None, None, None)

  /** The object with every field of a stored record present. */
  function DraftOf(e: Entry): (d: Draft)
    ensures Matches(e, d)
  {
    Draft(Some(e.author), Some(e.index), Some(e.language), Some(e.mirror), Some(e.mirrorLanguage),
          Some(e.definitionNode))
  }

  /** A `required: true` string path: present and not the empty string. */
  predicate RequiredString(v: Option<string>)
  {
    v.Some? && v.value != ""
  }

  /** A required path that is also restricted to the recognized-language enum. */
  predicate RecognizedLanguage(languages: set<string>, v: Option<string>)
  {
    RequiredString(v) && v.value in languages
  }

  /** The schema rules on a record that is about to be saved. */
  predicate ValidDraft(languages: set<string>, d: Draft)
  {
    && d.author.Some?
    && RequiredString(d.index)
    && RecognizedLanguage(languages, d.language)
    && RequiredString(d.mirror)
    && RecognizedLanguage(languages, d.mirrorLanguage)
    && d.definitionNode.Some?
  }

  /** The same rules on a stored record. */
  predicate ValidEntry(languages: set<string>, e: Entry)
  {
    ValidDraft(languages, DraftOf(e))
  }

  /** The paths whose validators reject the object; Mongoose reports all of them at once. */
  function InvalidPaths(languages: set<string>, d: Draft): (paths: set<string>)
    ensures paths == {} <==> ValidDraft(languages, d)
    ensures paths <= {"author", "index", "language", "mirror", "mirrorLanguage", "definitionNode"}
    ensures "author" in paths <==> d.author.None?
    ensures "definitionNode" in paths <==> d.definitionNode.None?
    ensures "index" in paths <==> !RequiredString(d.index)
    ensures "mirror" in paths <==> !RequiredString(d.mirror)
    ensures "language" in paths <==> !RecognizedLanguage(languages, d.language)
    ensures "mirrorLanguage" in paths <==> !RecognizedLanguage(languages, d.mirrorLanguage)
  {
    (if d.author.None? then {"author"} else {})
    + (if !RequiredString(d.index) then {"index"} else {})
    + (if !RecognizedLanguage(languages, d.language) then {"language"} else {})
    + (if !RequiredString(d.mirror) then {"mirror"} else {})
    + (if !RecognizedLanguage(languages, d.mirrorLanguage) then {"mirrorLanguage"} else {})
    + (if d.definitionNode.None? then {"definitionNode"} else {})
  }

  /** Document validation run by `save`: the record to insert, or the failing paths. */
  function Validate(languages: set<string>, id: Id, d: Draft): (r: Result<Entry, set<string>>)
    ensures r.Success? <==> ValidDraft(languages, d)
    ensures r.Success? ==> r.value.id == id && DraftOf(r.value) == d && ValidEntry(languages, r.value)
    ensures r.Failure? ==> r.error == InvalidPaths(languages, d) && r.error != {}
  {
    if !ValidDraft(languages, d) then Failure(InvalidPaths(languages, d))
    else Success(Entry(id, d.author.value, d.index.value, d.language.value, d.mirror.value,
                       d.mirrorLanguage.value, d.definitionNode.value))
  }

  /** Validating the full object of a valid record gives back that record. */
  lemma ValidateDraftOf(languages: set<string>, e: Entry)
    requires ValidEntry(languages, e)
    ensures Validate(languages, e.id, DraftOf(e)) == Success(e)
  {
  }

  /** A query object matches a record when every field it sets is equal in the record. */
  predicate Matches(e: Entry, d: Draft)
  {
    && (d.author.None? || d.author.value == e.author)
    && (d.index.None? || d.index.value == e.index)
    && (d.language.None? || d.language.value == e.language)
    && (d.mirror.None? || d.mirror.value == e.mirror)
    && (d.mirrorLanguage.None? || d.mirrorLanguage.value == e.mirrorLanguage)
    && (d.definitionNode.None? || d.definitionNode.value == e.definitionNode)
  }

  /** `Entry.findOne(d)`: the first record in collection order that matches `d`. */
  function FindOne(es: seq<Entry>, d: Draft): (r: Option<Entry>)
    ensures r.None? <==> forall e | e in es :: !Matches(e, d)
    ensures r.Some? ==> exists i | 0 <= i < |es| :: es[i] == r.value && Matches(es[i], d)
                                                && forall j | 0 <= j < i :: !Matches(es[j], d)
    decreases |es|
  {
    if es == [] then None
    else if Matches(es[0], d) then Some(es[0])
    else
      FindOne(es[1..], d)
  }

  /** Appending records after a collection with no match makes the first appended match the result. */
  lemma {:induction false} FindOneAppend(es: seq<Entry>, more: seq<Entry>, d: Draft)
    requires FindOne(es, d).None?
    requires |more| > 0 && Matches(more[0], d)
    ensures FindOne(es + more, d) == Some(more[0])
    decreases |es|
  {
    if es != [] {
      assert (es + more)[1..] == es[1..] + more;
      FindOneAppend(es[1..], more, d);
    }
  }

  /** `Entry.findById(id)`: the record with that `_id`, if any. */
  function FindById(es: seq<Entry>, id: Id): (r: Option<Entry>)
    ensures r.Some? ==> r.value in es && r.value.id == id
    ensures r.None? <==> forall e | e in es :: e.id != id
    decreases |es|
  {
    if es == [] then None
    else if es[0].id == id then Some(es[0])
    else FindById(es[1..], id)
  }

  /** `Entry.find(filter)` and `Entry.deleteMany(filter)`: the records kept by a filter, in order. */
  function Filter<T>(s: seq<T>, keep: T -> bool): (r: seq<T>)
    ensures |r| <= |s|
    ensures forall x | x in r :: x in s && keep(x)
    ensures forall x | x in s && keep(x) :: x in r
    decreases |s|
  {
    if s == [] then []
    else if keep(s[0]) then [s[0]] + Filter(s[1..], keep)
    else Filter(s[1..], keep)
  }

  /** Filtering twice equals filtering once by the stronger condition. */
  lemma {:induction false} FilterFilter<T>(s: seq<T>, first: T -> bool, second: T -> bool)
    requires forall x :: second(x) ==> first(x)
    ensures Filter(Filter(s, first), second) == Filter(s, second)
    decreases |s|
  {
    if s != [] {
      FilterFilter(s[1..], first, second);
      if first(s[0]) {
        assert Filter(s, first) == [s[0]] + Filter(s[1..], first);
        assert ([s[0]] + Filter(s[1..], first))[1..] == Filter(s[1..], first);
      }
    }
  }

  /** A filter that keeps every element of the sequence keeps all of it, in order. */
  lemma {:induction false} FilterAll<T>(s: seq<T>, keep: T -> bool)
    requires forall x | x in s :: keep(x)
    ensures Filter(s, keep) == s
    decreases |s|
  {
    if s != [] {
      FilterAll(s[1..], keep);
      assert [s[0]] + s[1..] == s;
    }
  }

  /** Filtering distributes over concatenation. */
  lemma {:induction false} FilterAppend<T>(s: seq<T>, t: seq<T>, keep: T -> bool)
    ensures Filter(s + t, keep) == Filter(s, keep) + Filter(t, keep)
    decreases |s|
  {
    if s == [] {
      assert s + t == t;
    } else {
      assert (s + t)[1..] == s[1..] + t;
      FilterAppend(s[1..], t, keep);
    }
  }

  /** `{ definitionNode: node }` as a filter. */
  function OnNode(node: Id): Entry -> bool
  {
    (e: Entry) => e.definitionNode == node
  }

  /** `{ definitionNode: { $ne: node } }`: what `deleteMany({ definitionNode: node })` leaves behind. */
  function OffNode(node: Id): Entry -> bool
  {
    (e: Entry) => e.definitionNode != node
  }

  /** `Entry.find({ definitionNode })`: every record of one node, in collection order. */
  function NodeEntries(es: seq<Entry>, node: Id): (r: seq<Entry>)
    ensures forall e :: e in r <==> e in es && e.definitionNode == node
  {
    Filter(es, OnNode(node))
  }

  /** The collection after `Entry.deleteMany({ definitionNode: node })`. */
  function WithoutNode(es: seq<Entry>, node: Id): (r: seq<Entry>)
    ensures forall e :: e in r <==> e in es && e.definitionNode != node
  {
    Filter(es, OffNode(node))
  }

  /** MongoDB's unique `_id`: no two records in the collection share one. */
  predicate UniqueIds(es: seq<Entry>)
  {
    forall i, j | 0 <= i < j < |es| :: es[i].id != es[j].id
  }

  /**
   * What the collection holds: records that passed schema validation, with
   * distinct ids. Nothing makes `(index, language)` unique (the index on those
   * two paths is a plain one), so this asks nothing of them.
   */
  predicate Stored(languages: set<string>, es: seq<Entry>)
  {
    (forall e | e in es :: ValidEntry(languages, e)) && UniqueIds(es)
  }

  /** Filtering keeps ids distinct. */
  lemma {:induction false} FilterUniqueIds(es: seq<Entry>, keep: Entry -> bool)
    requires UniqueIds(es)
    ensures UniqueIds(Filter(es, keep))
    decreases |es|
  {
    if es != [] {
      FilterUniqueIds(es[1..], keep);
      var rest := Filter(es[1..], keep);
      if keep(es[0]) {
        var r := [es[0]] + rest;
        forall i, j | 0 <= i < j < |r| ensures r[i].id != r[j].id {
          if i == 0 {
            assert r[j] in es[1..];
            var k :| 0 <= k < |es[1..]| && es[1..][k] == r[j];
            assert es[k + 1] == r[j];
          } else {
            assert r[i] == rest[i - 1] && r[j] == rest[j - 1];
          }
        }
      }
    }
  }

  /** Every id and every definition node in the collection lies below `bound`. */
  predicate IdsBelow(es: seq<Entry>, bound: Id)
  {
    forall e | e in es :: e.id < bound && e.definitionNode < bound
  }

  /** Two records are each other's mirror within one node. */
  predicate MirrorPair(a: Entry, b: Entry)
  {
    && a.id != b.id
    && a.definitionNode == b.definitionNode
    && a.mirror == b.index && a.mirrorLanguage == b.language
    && b.mirror == a.index && b.mirrorLanguage == a.language
  }

  /** Some record of the collection is the mirror of `a`. */
  ghost predicate HasMirror(es: seq<Entry>, a: Entry)
  {
    exists j | 0 <= j < |es| :: MirrorPair(a, es[j])
  }

  /** Three records on one node are not three distinct records. */
  predicate NotThreeOnNode(a: Entry, b: Entry, c: Entry)
  {
    a.definitionNode == b.definitionNode == c.definitionNode ==> a.id == b.id || b.id == c.id || a.id == c.id
  }

  /** Every record of the collection has its mirror record in the collection. */
  ghost predicate AllMirrored(es: seq<Entry>)
  {
    forall a | a in es :: HasMirror(es, a)
  }

  /** No node of the collection holds more than two records. */
  predicate AtMostTwoPerNode(es: seq<Entry>)
  {
    forall a, b, c | a in es && b in es && c in es :: NotThreeOnNode(a, b, c)
  }

  /**
   * The translation-pair shape of the collection: every record has a mirror
   * record in its node, and no node has more than two records.
   */
  ghost predicate Paired(es: seq<Entry>)
  {
    AllMirrored(es) && AtMostTwoPerNode(es)
  }

  /** Adding a mirrored pair on a node no stored record uses keeps the pair shape. */
  lemma AppendPairKeepsPaired(es: seq<Entry>, x: Entry, y: Entry)
    requires Paired(es) && MirrorPair(x, y)
    requires forall e | e in es :: e.definitionNode != x.definitionNode
    ensures Paired(es + [x, y])
  {
    AppendPairMirrored(es, x, y);
    AppendPairAtMostTwo(es, x, y);
  }

  lemma AppendPairMirrored(es: seq<Entry>, x: Entry, y: Entry)
    requires AllMirrored(es) && MirrorPair(x, y)
    ensures AllMirrored(es + [x, y])
  {
    var es' := es + [x, y];
    assert MirrorPair(y, x);
    forall a | a in es' ensures HasMirror(es', a) {
      if a == x {
        assert es'[|es| + 1] == y;
      } else if a == y {
        assert es'[|es|] == x;
      } else {
        assert HasMirror(es, a);
        var j :| 0 <= j < |es| && MirrorPair(a, es[j]);
        assert es'[j] == es[j];
      }
    }
  }

  lemma AppendPairAtMostTwo(es: seq<Entry>, x: Entry, y: Entry)
    requires AtMostTwoPerNode(es) && MirrorPair(x, y)
    requires forall e | e in es :: e.definitionNode != x.definitionNode
    ensures AtMostTwoPerNode(es + [x, y])
  {
    var es' := es + [x, y];
    forall a, b, c | a in es' && b in es' && c in es' ensures NotThreeOnNode(a, b, c) {
      if a.definitionNode == b.definitionNode == c.definitionNode && a.definitionNode == x.definitionNode {
        assert a !in es && b !in es && c !in es;
      }
    }
  }

  /** Removing whole nodes keeps the pair shape of the rest. */
  lemma WithoutNodeKeepsPaired(es: seq<Entry>, node: Id)
    requires Paired(es)
    ensures Paired(WithoutNode(es, node))
  {
    WithoutNodeMirrored(es, node);
    WithoutNodeAtMostTwo(es, node);
  }

  lemma WithoutNodeMirrored(es: seq<Entry>, node: Id)
    requires AllMirrored(es)
    ensures AllMirrored(WithoutNode(es, node))
  {
    var r := WithoutNode(es, node);
    forall a | a in r ensures HasMirror(r, a) {
      assert HasMirror(es, a);
      var j :| 0 <= j < |es| && MirrorPair(a, es[j]);
      var b := es[j];
      assert b in es && b.definitionNode != node;
      assert b in r;
      var k := IndexOf(r, b);
    }
  }

  /** The position of an element of a sequence. */
  lemma IndexOf<T>(s: seq<T>, x: T) returns (k: nat)
    requires x in s
    ensures k < |s| && s[k] == x
  {
    k :| k < |s| && s[k] == x;
  }

  lemma WithoutNodeAtMostTwo(es: seq<Entry>, node: Id)
    requires AtMostTwoPerNode(es)
    ensures AtMostTwoPerNode(WithoutNode(es, node))
  {
  }

  /** Adding two valid records with fresh ids keeps the collection valid. */
  lemma AppendFreshKeepsStored(languages: set<string>, es: seq<Entry>, bound: Id, x: Entry, y: Entry)
    requires Stored(languages, es) && IdsBelow(es, bound)
    requires ValidEntry(languages, x) && ValidEntry(languages, y)
    requires bound <= x.id < y.id
    ensures Stored(languages, es + [x, y])
  {
    var es' := es + [x, y];
    forall i, j | 0 <= i < j < |es'| ensures es'[i].id != es'[j].id {
      if j < |es| {
        assert es'[i] == es[i] && es'[j] == es[j];
      } else if i < |es| {
        assert es'[i] in es;
      }
    }
  }

  /** Appending two records one after the other appends the pair (a step the solver needs spelled out). */
  lemma AppendOneByOne(es: seq<Entry>, x: Entry, y: Entry)
    ensures es + [x] + [y] == es + [x, y]
  {
  }

  /** Appending records whose ids lie below a larger bound keeps every id below it (a step the solver needs spelled out). */
  lemma AppendIdsBelow(es: seq<Entry>, bound: Id, later: Id, more: seq<Entry>)
    requires IdsBelow(es, bound) && bound <= later
    requires IdsBelow(more, later)
    ensures IdsBelow(es + more, later)
  {
  }

  /** A filter that keeps no element of the sequence yields the empty sequence. */
  lemma {:induction false} FilterNone<T>(s: seq<T>, keep: T -> bool)
    requires forall x | x in s :: !keep(x)
    ensures Filter(s, keep) == []
    decreases |s|
  {
    if s != [] {
      FilterNone(s[1..], keep);
    }
  }
}
