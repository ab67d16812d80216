/** The translation table: each record is narrowed to the current locale, and the rows shown are
    those the fuzzy search keeps, in the order the records arrived. */
module TranslationKeyManager {
  import opened Wrappers
  import opened Text
  import opened Models

  /** A row of the table: the record with `translations` narrowed to one locale. The entries of
      `translations` are kept in JavaScript object order; an entry whose value is `undefined`
      (the record had no translation for that locale) is `None`. */
  datatype Row = Row(
    id: string,
    key: string,
    category: string,
    description: Option<string>,
    translations: seq<(string, Option<TranslationValue>)>)

  /** Reading `.value` of an undefined translation throws: the record lacks the locale shown. */
  datatype DataError = MissingTranslation(key: string)

  // ---------------------------------------------------------------------------------------------
  // Projection onto the current locale (the `useEffect` that fills `data`)

  /** `{...key, translations: {[currentLocale]: key.translations[currentLocale]}}` */
  function Project(k: TranslationKey, currentLocale: string): Row {
    Row(k.id, k.key, k.category, k.description,
        [(currentLocale, if currentLocale in k.translations then Some(k.translations[currentLocale]) else None)])
  }

  /** `localizations.map(...)`: one row per record, in the same order. */
  function ProjectAll(ks: seq<TranslationKey>, currentLocale: string): (rows: seq<Row>)
    ensures |rows| == |ks|
  {
    seq(|ks|, i requires 0 <= i < |ks| => Project(ks[i], currentLocale))
  }

  /** The translation every cell of a row reads: `translations[Object.keys(translations)[0]]`. */
  function Shown(r: Row): Result<TranslationValue, DataError> {
    if r.translations == [] then Failure(MissingTranslation(r.key))
    else match r.translations[0].1
      case Some(v) => Success(v)
      case None => Failure(MissingTranslation(r.key))
  }

  /** Projection keeps every record, in order, with its id, key, category and description, leaves it
      the single locale `currentLocale`, and the value, `updated_at` and `updated_by` the table shows
      are that locale's entry; a record without that locale is a data error, not an empty row. */
  lemma {:induction false} ProjectionFaithful(ks: seq<TranslationKey>, currentLocale: string, i: nat)
    requires i < |ks|
    ensures var r := ProjectAll(ks, currentLocale)[i];
      && r.id == ks[i].id && r.key == ks[i].key && r.category == ks[i].category
      && r.description == ks[i].description
      && |r.translations| == 1 && r.translations[0].0 == currentLocale
      && (currentLocale in ks[i].translations ==> Shown(r) == Success(ks[i].translations[currentLocale]))
      && (currentLocale !in ks[i].translations ==> Shown(r) == Failure(MissingTranslation(ks[i].key)))
  {
    assert ProjectAll(ks, currentLocale)[i] == Project(ks[i], currentLocale);
  }

  // ---------------------------------------------------------------------------------------------
  // The matcher

  /** `${key} ${category} ${description} ${translationValue}`.toLowerCase(), with
      `description || ""`. */
  function SearchableContent(r: Row): Result<string, DataError> {
    match Shown(r)
    case Failure(e) => Failure(e)
    case Success(t) => Success(SearchText(r, t))
  }

  function SearchText(r: Row, t: TranslationValue): string {
    Lower(r.key + " " + r.category + " " + r.description.GetOr("") + " " + t.value)
  }

  /** The pass test of `rankItem` at its default threshold: every character of the query occurs in
      the text, in the same relative order. Checked greedily, left to right. */
  predicate IsSubsequence<T(==)>(q: seq<T>, t: seq<T>)
    decreases |t|
  {
    if q == [] then true
    else if t == [] then false
    else if q[0] == t[0] then IsSubsequence(q[1..], t[1..])
    else IsSubsequence(q, t[1..])
  }

  /** Reference definition: `idx` picks, in strictly increasing positions of `t`, the
      characters of `q`. */
  ghost predicate Embeds<T>(q: seq<T>, t: seq<T>, idx: seq<int>) {
    && |idx| == |q|
    && (forall i :: 0 <= i < |idx| ==> 0 <= idx[i] < |t| && t[idx[i]] == q[i])
    && (forall i, j :: 0 <= i < j < |idx| ==> idx[i] < idx[j])
  }

  function Shift(idx: seq<int>, d: int): (r: seq<int>)
    ensures |r| == |idx| && forall i :: 0 <= i < |idx| ==> r[i] == idx[i] + d
  {
    seq(|idx|, i requires 0 <= i < |idx| => idx[i] + d)
  }

  lemma {:induction false} SubsequenceHasEmbedding<T>(q: seq<T>, t: seq<T>)
    requires IsSubsequence(q, t)
    ensures exists idx :: Embeds(q, t, idx)
    decreases |t|
  {
    if q == [] {
      assert Embeds(q, t, []);
    } else if q[0] == t[0] {
      SubsequenceHasEmbedding(q[1..], t[1..]);
      var idx :| Embeds(q[1..], t[1..], idx);
      assert Embeds(q, t, [0] + Shift(idx, 1));
    } else {
      SubsequenceHasEmbedding(q, t[1..]);
      var idx :| Embeds(q, t[1..], idx);
      assert Embeds(q, t, Shift(idx, 1));
    }
  }

  lemma {:induction false} EmbeddingGivesSubsequence<T>(q: seq<T>, t: seq<T>, idx: seq<int>)
    requires Embeds(q, t, idx)
    ensures IsSubsequence(q, t)
    decreases |t|
  {
    if q != [] {
      assert t != [] by { assert 0 <= idx[0] < |t|; }
      if q[0] == t[0] {
        assert forall i :: 0 < i < |idx| ==> idx[0] < idx[i];
        EmbeddingGivesSubsequence(q[1..], t[1..], Shift(idx[1..], -1));
      } else {
        assert idx[0] != 0;
        assert forall i :: 0 < i < |idx| ==> idx[0] < idx[i];
        EmbeddingGivesSubsequence(q, t[1..], Shift(idx, -1));
      }
    }
  }

  /** The greedy check agrees with the reference definition, in both directions. */
  lemma SubsequenceIffEmbedding<T>(q: seq<T>, t: seq<T>)
    ensures IsSubsequence(q, t) <==> exists idx :: Embeds(q, t, idx)
  {
    if IsSubsequence(q, t) {
      SubsequenceHasEmbedding(q, t);
    } else if idx :| Embeds(q, t, idx) {
      EmbeddingGivesSubsequence(q, t, idx);
    }
  }

  /** `fuzzyFilter`: whether a row passes for the search value, or the error reading its value. */
  function FuzzyFilter(r: Row, query: string): (res: Result<bool, DataError>)
    ensures res.Failure? <==> Shown(r).Failure?
  {
    match SearchableContent(r)
    case Failure(e) => Failure(e)
    case Success(text) => Success(IsSubsequence(Lower(query), text))
  }

  /** A row passes exactly when the lower-cased query can be laid, in order, over the lower-cased
      key, category, description and shown value. */
  lemma FuzzyFilterMeaning(r: Row, query: string, t: TranslationValue)
    requires Shown(r) == Success(t)
    ensures FuzzyFilter(r, query) == Success(true) <==>
      exists idx :: Embeds(Lower(query), SearchText(r, t), idx)
    ensures FuzzyFilter(r, query).Success?
  {
    assert SearchableContent(r) == Success(SearchText(r, t));
    assert FuzzyFilter(r, query) == Success(IsSubsequence(Lower(query), SearchText(r, t)));
    SubsequenceIffEmbedding(Lower(query), SearchText(r, t));
  }

  /** The search is case-insensitive in the query. */
  lemma FuzzyFilterIgnoresQueryCase(r: Row, query: string)
    ensures FuzzyFilter(r, Lower(query)) == FuzzyFilter(r, query)
  {
    LowerIdempotent(query);
  }

  /** A query whose first character occurs nowhere in the text cannot match. */
  lemma {:induction false} AbsentFirstCharFails<T>(q: seq<T>, t: seq<T>)
    requires q != [] && q[0] !in t
    ensures !IsSubsequence(q, t)
    decreases |t|
  {
    if t != [] {
      assert q[0] != t[0];
      assert q[0] !in t[1..];
      AbsentFirstCharFails(q, t[1..]);
    }
  }

  /** The searchable text of the example record `button.save`. */
  lemma ButtonSaveText(r: Row)
    requires r == Row("1", "button.save", "buttons", None,
                      [("en", Some(TranslationValue("Save", "2025-01-01", "alice")))])
    ensures SearchableContent(r) == Success("button.save buttons  save")
  {
    var tv := TranslationValue("Save", "2025-01-01", "alice");
    var p := "button.save buttons  ";
    assert Shown(r) == Success(tv);
    assert r.key + " " + r.category + " " + r.description.GetOr("") + " " + tv.value == p + "Save";
    assert SearchText(r, tv) == Lower(p + "Save");
    LowerSplit(p, "Save", "save");
  }

  lemma LowerSplit(p: string, q: string, lq: string)
    requires p == "button.save buttons  " && q == "Save" && lq == "save"
    ensures Lower(p + q) == "button.save buttons  save"
  {
    LowerPrefix(p);
    LowerSave(q);
    LowerConcat(p, q);
    assert Lower(p) + Lower(q) == p + lq;
  }

  lemma LowerPrefix(p: string)
    requires p == "button.save buttons  "
    ensures Lower(p) == p
  {
    assert forall i :: 0 <= i < |p| ==> !IsUpper(p[i]);
    LowerKeepsLower(p);
  }

  lemma LowerSave(q: string)
    requires q == "Save"
    ensures Lower(q) == "save"
  {
    assert q[1..] == "ave" && Lower("ave") == "ave";
  }

  /** Example: "bsv" and "BSV" find `button.save`, "xyz" does not. */
  lemma ExampleButtonSave(r: Row)
    requires r == Row("1", "button.save", "buttons", None,
                      [("en", Some(TranslationValue("Save", "2025-01-01", "alice")))])
    ensures FuzzyFilter(r, "bsv") == Success(true) && FuzzyFilter(r, "xyz") == Success(false)
    ensures FuzzyFilter(r, "BSV") == Success(true)
  {
    ButtonSaveText(r);
    var text := SearchableContent(r).value;
    assert Lower("bsv") == "bsv" && Lower("xyz") == "xyz";
    BsvMatches(text);
    XyzFails(text);
    FuzzyFilterIgnoresQueryCase(r, "BSV");
    assert Lower("BSV") == "bsv";
  }

  lemma BsvMatches(text: string)
    requires text == "button.save buttons  save"
    ensures IsSubsequence("bsv", text)
  {
    assert Embeds("bsv", text, [0, 7, 9]);
    EmbeddingGivesSubsequence("bsv", text, [0, 7, 9]);
  }

  lemma XyzFails(text: string)
    requires text == "button.save buttons  save"
    ensures !IsSubsequence("xyz", text)
  {
    assert forall i :: 0 <= i < |text| ==> text[i] != 'x';
    AbsentFirstCharFails("xyz", text);
  }

  // ---------------------------------------------------------------------------------------------
  // The filtered row model

  /** Rows kept by the fuzzy filter, in order; the first row whose value cannot be read aborts. */
  function KeepPassing(rows: seq<Row>, query: string): (res: Result<seq<Row>, DataError>)
    ensures res.Success? ==> |res.value| <= |rows|
    decreases |rows|
  {
    if rows == [] then Success([])
    else match FuzzyFilter(rows[0], query)
      case Failure(e) => Failure(e)
      case Success(pass) =>
        match KeepPassing(rows[1..], query)
        case Failure(e) => Failure(e)
        case Success(rest) => Success(if pass then [rows[0]] + rest else rest)
  }

  /** `getFilteredRowModel` with `globalFilter: searchQuery`: an empty query applies no filter. */
  function FilteredRows(rows: seq<Row>, query: string): (res: Result<seq<Row>, DataError>)
    ensures query == "" ==> res == Success(rows)
    ensures res.Success? ==> |res.value| <= |rows|
  {
    if query == "" then Success(rows) else KeepPassing(rows, query)
  }

  /** The kept rows are drawn from `rows` in their original order; a row is kept exactly when it
      passes; the filter fails exactly when some row's shown translation is missing. */
  lemma {:induction false} KeepPassingCorrect(rows: seq<Row>, query: string)
    ensures KeepPassing(rows, query).Failure? <==> exists i :: 0 <= i < |rows| && Shown(rows[i]).Failure?
    ensures KeepPassing(rows, query).Success? ==>
      var kept := KeepPassing(rows, query).value;
      && IsSubsequence(kept, rows)
      && (forall r :: r in kept ==> FuzzyFilter(r, query) == Success(true))
      && (forall r :: r in rows && FuzzyFilter(r, query) == Success(true) ==> r in kept)
    decreases |rows|
  {
    if rows != [] {
      KeepPassingCorrect(rows[1..], query);
      var tail := KeepPassing(rows[1..], query);
      if Shown(rows[0]).Failure? {
        assert KeepPassing(rows, query).Failure?;
      } else if tail.Failure? {
        var i :| 0 <= i < |rows[1..]| && Shown(rows[1..][i]).Failure?;
        assert Shown(rows[i + 1]).Failure?;
      } else {
        assert forall i :: 0 <= i < |rows| ==> Shown(rows[i]).Success? by {
          forall i | 0 <= i < |rows| ensures Shown(rows[i]).Success? {
            if i > 0 { assert rows[i] == rows[1..][i - 1]; }
          }
        }
        var kept := KeepPassing(rows, query).value;
        if FuzzyFilter(rows[0], query) == Success(true) {
          assert kept == [rows[0]] + tail.value;
          assert kept[1..] == tail.value;
        } else {
          assert kept == tail.value;
          SubsequenceSkip(kept, rows);
        }
      }
    }
  }

  /** The kept rows are exactly the passing rows, each as many times as `rows` holds it. */
  lemma {:induction false} KeepPassingCounts(rows: seq<Row>, query: string)
    ensures KeepPassing(rows, query).Success? ==>
      forall x :: multiset(KeepPassing(rows, query).value)[x]
               == if FuzzyFilter(x, query) == Success(true) then multiset(rows)[x] else 0
    decreases |rows|
  {
    if rows != [] && KeepPassing(rows, query).Success? {
      KeepPassingCounts(rows[1..], query);
      assert rows == [rows[0]] + rows[1..];
      var kept := KeepPassing(rows, query).value;
      var tail := KeepPassing(rows[1..], query).value;
      if FuzzyFilter(rows[0], query) == Success(true) {
        assert kept == [rows[0]] + tail;
        assert multiset(kept) == multiset([rows[0]]) + multiset(tail);
      } else {
        assert kept == tail;
      }
      assert multiset(rows) == multiset([rows[0]]) + multiset(rows[1..]);
    }
  }

  lemma SubsequenceSkip<T>(q: seq<T>, t: seq<T>)
    requires t != [] && IsSubsequence(q, t[1..])
    ensures IsSubsequence(q, t)
  {
    SubsequenceIffEmbedding(q, t[1..]);
    var idx :| Embeds(q, t[1..], idx);
    assert Embeds(q, t, Shift(idx, 1));
    SubsequenceIffEmbedding(q, t);
  }
}
