/**
 * The two search handlers: the page handler `io` and the JSON handler
 * `search_io`. Both take a query `q` of the form `text[@language]` and ask the
 * collection for the records whose `index` holds `text` as a whole word,
 * through the regular expression `(^|\s)text($|\s)` with the `i` option.
 */
module Search {
  import opened Wrappers
  import opened Text
  import opened Entries

  /** `\s` in the server's regular expressions: the ASCII whitespace characters. */
  predicate IsRegexSpace(c: char)
  {
    c == ' ' || c == '\t' || c == '\n' || c == '\r' || c == '\U{000B}' || c == '\U{000C}'
  }

  /** Case folding as the `i` option applies it to ASCII letters. */
  function FoldCase(c: char): (f: char)
    ensures 'A' <= c <= 'Z' ==> 'a' <= f <= 'z' && f as int - 'a' as int == c as int - 'A' as int
    ensures !('A' <= c <= 'Z') ==> f == c
  {
    if 'A' <= c <= 'Z' then (c as int - 'A' as int + 'a' as int) as char else c
  }

  /** Equal texts once letters are folded to one case. */
  predicate SameIgnoringCase(a: string, b: string)
  {
    |a| == |b| && forall i | 0 <= i < |a| :: FoldCase(a[i]) == FoldCase(b[i])
  }

  /**
   * `word` occurs in `text` at position `i`, preceded by the start of the text or
   * a whitespace character and followed by the end of the text or a whitespace character.
   */
  predicate WordAt(text: string, word: string, i: nat)
  {
    && i + |word| <= |text|
    && SameIgnoringCase(text[i..i + |word|], word)
    && (i == 0 || IsRegexSpace(text[i - 1]))
    && (i + |word| == |text| || IsRegexSpace(text[i + |word|]))
  }

  /** The regular expression `(^|\s)word($|\s)` with option `i` finds a match in `text`. */
  predicate ContainsWord(text: string, word: string)
  {
    exists i: nat | i <= |text| :: WordAt(text, word, i)
  }

  /** Because of the `i` option, two words that differ only in letter case match the same texts. */
  lemma ContainsWordIgnoresCase(text: string, word: string, other: string)
    requires SameIgnoringCase(word, other)
    ensures ContainsWord(text, word) <==> ContainsWord(text, other)
  {
    forall i: nat | i <= |text| ensures WordAt(text, word, i) <==> WordAt(text, other, i) {
      if i + |word| <= |text| {
        var seg := text[i..i + |word|];
        assert SameIgnoringCase(seg, word) <==> SameIgnoringCase(seg, other);
      }
    }
  }

  /**
   * The text part of a query: `q.split("@")[0].trim()`. It holds no `@` and no
   * whitespace at either end, and a query without `@` is only trimmed.
   */
  function QueryText(q: string): (word: string)
    ensures '@' !in word
    ensures word == [] || (!IsJsWhitespace(word[0]) && !IsJsWhitespace(word[|word| - 1]))
    ensures '@' !in q ==> word == Trim(q)
  {
    SplitPartsFree(q, '@');
    var parts := Split(q, '@');
    assert '@' !in q ==> parts == [q] by {
      if '@' !in q { SplitFree(q, '@'); }
    }
    Trim(parts[0])
  }

  /** The language part of a query, `q.split("@")[1]` when there is one; it is not trimmed. */
  function QueryLanguage(q: string): (lang: Option<string>)
    ensures lang.Some? <==> '@' in q
  {
    var parts := Split(q, '@');
    if |parts| > 1 then Some(parts[1]) else None
  }

  /**
   * With `k` the position of the first `@` and `j` that of the second (or the end
   * of the query), the query text is the trimmed text before `k` and the language
   * the untrimmed text between `k` and `j`.
   */
  lemma QueryParts(q: string, k: nat, j: nat)
    requires k < j <= |q|
    requires q[k] == '@' && '@' !in q[..k]
    requires '@' !in q[k + 1..j] && (j == |q| || q[j] == '@')
    ensures QueryText(q) == Trim(q[..k]) && QueryLanguage(q) == Some(q[k + 1..j])
  {
    var t := q[k + 1..];
    assert q == q[..k] + ['@'] + t;
    assert j < |q| ==> t[..j - k - 1] == q[k + 1..j] && t[j - k - 1] == q[j];
    SplitFirstTwo(q[..k], '@', t, q[k + 1..j]);
  }

  /** The filter `{ index: { $regex: ..., $options: "i" } }`. */
  function IndexHasWord(word: string): Entry -> bool
  {
    (e: Entry) => ContainsWord(e.index, word)
  }

  /** The filter of `search_io`: the word filter, plus `{ language }` when the query names one. */
  function WordAndLanguage(word: string, lang: Option<string>): Entry -> bool
  {
    (e: Entry) => ContainsWord(e.index, word) && (lang.None? || e.language == lang.value)
  }

  /**
   * `io`: a missing or empty query yields no records without querying the
   * collection; otherwise the records whose index holds the query text as a word.
   */
  function Io(es: seq<Entry>, q: Option<string>): (r: seq<Entry>)
    ensures !Truthy(q) ==> r == []
    ensures Truthy(q) ==> forall e | e in r :: e in es && ContainsWord(e.index, QueryText(q.value))
    ensures Truthy(q) ==> forall e | e in es && ContainsWord(e.index, QueryText(q.value)) :: e in r
  {
    if !Truthy(q) then [] else Filter(es, IndexHasWord(QueryText(q.value)))
  }

  datatype SearchError = NoQuery

  /**
   * `search_io`: a missing or empty query is an error; otherwise the records whose
   * index holds the query text as a word and, when the query carries `@`, whose
   * language equals the text between the first `@` and the next `@` or the end.
   */
  function SearchIo(es: seq<Entry>, q: Option<string>): (r: Result<seq<Entry>, SearchError>)
    ensures r.Failure? <==> !Truthy(q)
    ensures r.Success? ==> forall e | e in r.value ::
      && e in es
      && ContainsWord(e.index, QueryText(q.value))
      && ('@' in q.value ==> Some(e.language) == QueryLanguage(q.value))
    ensures r.Success? ==> forall e | e in es && ContainsWord(e.index, QueryText(q.value))
      && ('@' in q.value ==> Some(e.language) == QueryLanguage(q.value)) :: e in r.value
  {
    if !Truthy(q) then Failure(NoQuery)
    else Success(Filter(es, WordAndLanguage(QueryText(q.value), QueryLanguage(q.value))))
  }

  /** The `{ language }` condition alone, when the query names a language. */
  function LanguageOnly(lang: Option<string>): Entry -> bool
  {
    (e: Entry) => lang.None? || e.language == lang.value
  }

  /**
   * `search_io` as written: its word condition is on `header`, a path the schema
   * does not define, and the connection runs in strict query mode, which drops
   * such paths from a filter (as it drops the `null` key of a query without `@`).
   * What reaches the collection is the language condition alone.
   */
  function SearchIoAsWritten(es: seq<Entry>, q: Option<string>): (r: Result<seq<Entry>, SearchError>)
    ensures r.Failure? <==> !Truthy(q)
    ensures r.Success? ==> forall e | e in r.value ::
      e in es && ('@' in q.value ==> Some(e.language) == QueryLanguage(q.value))
    ensures r.Success? ==> forall e | e in es && ('@' in q.value ==> Some(e.language) == QueryLanguage(q.value)) ::
      e in r.value
  {
    if !Truthy(q) then Failure(NoQuery)
    else Success(Filter(es, LanguageOnly(QueryLanguage(q.value))))
  }

  /**
   * The word of the query is lost as written: `casa` returns a record indexed
   * `casas`, which the intended whole-word filter leaves out.
   */
  lemma HeaderFilterIgnoresWord(e: Entry)
    requires e.index == "casas"
    ensures SearchIoAsWritten([e], Some("casa")) == Success([e])
    ensures SearchIo([e], Some("casa")) == Success([])
  {
    ExampleWords();
    ExampleQueries();
    var written := SearchIoAsWritten([e], Some("casa")).value;
    assert e in written;
    assert written == [e];
    var intended := SearchIo([e], Some("casa")).value;
    assert forall x | x in intended :: x == e && !ContainsWord(x.index, "casa");
    assert intended == [];
  }

  /** The JSON handler never returns a record the page handler would not, and without `@` both agree. */
  lemma SearchIoNarrowsIo(es: seq<Entry>, q: Option<string>)
    requires Truthy(q)
    ensures SearchIo(es, q).Success?
    ensures forall e | e in SearchIo(es, q).value :: e in Io(es, q)
    ensures '@' !in q.value ==> SearchIo(es, q).value == Io(es, q)
  {
    if '@' !in q.value {
      var word := QueryText(q.value);
      FilterFilter(es, IndexHasWord(word), WordAndLanguage(word, None));
      FilterAll(Filter(es, IndexHasWord(word)), WordAndLanguage(word, None));
    }
  }

  /** A text is a whole word of itself, so a record is found by its own index. */
  lemma WordInItself(text: string)
    ensures ContainsWord(text, text)
  {
    assert text[0..|text|] == text;
    assert WordAt(text, text, 0);
  }

  /** Case does not matter to the match, but the word must stand alone. */
  lemma ExampleWords()
    ensures ContainsWord("Mi Casa", "casa")
    ensures !ContainsWord("casas", "casa")
    ensures !ContainsWord("micasa", "casa")
  {
    assert WordAt("Mi Casa", "casa", 3);
    forall i: nat | i <= 5 ensures !WordAt("casas", "casa", i) {
      if i == 0 {
        assert "casas"[4] == 's';
      }
    }
    forall i: nat | i <= 6 ensures !WordAt("micasa", "casa", i) {
      if i == 2 {
        assert "micasa"[1] == 'i';
      }
    }
  }

  /** A query without `@` is its own text, with no language, once it is trimmed. */
  lemma PlainQuery(w: string)
    requires '@' !in w
    requires w == [] || (!IsJsWhitespace(w[0]) && !IsJsWhitespace(w[|w| - 1]))
    ensures QueryText(w) == w && QueryLanguage(w) == None
  {
    SplitFree(w, '@');
    TrimmedAlready(w);
  }

  /** A query `w@l` names the text `w` and the language `l`. */
  lemma ScopedQuery(w: string, l: string)
    requires '@' !in w && '@' !in l
    requires w == [] || (!IsJsWhitespace(w[0]) && !IsJsWhitespace(w[|w| - 1]))
    ensures QueryText(w + "@" + l) == w && QueryLanguage(w + "@" + l) == Some(l)
  {
    SplitJoin([w, l], '@');
    assert Join([w, l], '@') == w + "@" + l;
    TrimmedAlready(w);
  }

  /** How the two example queries split. */
  lemma ExampleQueries()
    ensures QueryText("casa") == "casa" && QueryLanguage("casa") == None
    ensures QueryText("casa@spanish") == "casa" && QueryLanguage("casa@spanish") == Some("spanish")
  {
    var w, q := "casa", "casa@spanish";
    assert !IsJsWhitespace(w[0]) && !IsJsWhitespace(w[|w| - 1]);
    assert '@' !in w;
    PlainQuery(w);
    ExampleScopedQuery(w, q);
  }

  lemma ExampleScopedQuery(w: string, q: string)
    requires w == "casa" && q == "casa@spanish"
    requires '@' !in w && !IsJsWhitespace(w[0]) && !IsJsWhitespace(w[|w| - 1])
    ensures QueryText(q) == w && QueryLanguage(q) == Some("spanish")
  {
    ScopedQuery(w, "spanish");
    assert w + "@" + "spanish" == q;
  }

  /**
   * The API variant on a small collection: `casa@spanish` keeps only the Spanish
   * record holding the word, while `casa` alone also returns the Portuguese one.
   */
  lemma LanguageScopedExample(a: Entry, b: Entry, c: Entry)
    requires a.index == "Mi Casa" && a.language == "spanish"
    requires b.index == "casas" && b.language == "spanish"
    requires c.index == "casa" && c.language == "portuguese"
    ensures SearchIo([a, b, c], Some("casa@spanish")) == Success([a])
    ensures SearchIo([a, b, c], Some("casa")) == Success([a, c])
  {
    ExampleWords();
    WordInItself(c.index);
    ExampleQueries();
    ExampleFilter(a, b, c, "casa@spanish", "casa", Some("spanish"));
    ExampleFilter(a, b, c, "casa", "casa", None);
  }

  /** The filtering step of the example, once the query has been split. */
  lemma ExampleFilter(a: Entry, b: Entry, c: Entry, q: string, word: string, lang: Option<string>)
    requires q != "" && QueryText(q) == word && QueryLanguage(q) == lang
    requires ContainsWord(a.index, word) && !ContainsWord(b.index, word) && ContainsWord(c.index, word)
    requires lang == None || (lang == Some(a.language) && lang != Some(c.language))
    ensures SearchIo([a, b, c], Some(q)) == Success(if lang.None? then [a, c] else [a])
  {
    var f := WordAndLanguage(word, lang);
    assert f(a) && !f(b) && (f(c) <==> lang.None?);
    FilterKeepsFirstAndLast(a, b, c, f);
    assert SearchIo([a, b, c], Some(q)) == Success(Filter([a, b, c], f));
  }

  /** A filter that keeps the first of three records and drops the second. */
  lemma FilterKeepsFirstAndLast(a: Entry, b: Entry, c: Entry, f: Entry -> bool)
    requires f(a) && !f(b)
    ensures Filter([a, b, c], f) == if f(c) then [a, c] else [a]
  {
    assert [a, b, c][1..] == [b, c];
    assert [b, c][1..] == [c];
    assert [c][1..] == [];
    assert Filter([c], f) == if f(c) then [c] else [];
    assert Filter([b, c], f) == Filter([c], f);
    assert Filter([a, b, c], f) == [a] + Filter([b, c], f);
  }
}
