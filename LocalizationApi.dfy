/** The API's data logic: reshaping a project's rows for one locale, building the upsert records
    for an update, and the validation report. Database reads are inputs: the rows a query would
    return, whether a lookup found anything, and the ids the database assigns. */
module LocalizationApi {
  import opened Wrappers
  import opened Models
  import opened Dicts
  import opened Interpolation

  // ---------------------------------------------------------------------------------------------
  // Errors

  /** Why a handler's `try` block raised. */
  datatype Cause =
    | NotFound(detail: string)     // the HTTPException(404) raised inside the `try`
    | UnboundLocal(name: string)   // a variable read before any iteration assigned it
    | NoInsertedRow                // `new_key.data[0]` on an insert that returned no row

  /** What reaches the client: `except Exception as e: raise HTTPException(500, detail=str(e))`. */
  datatype HttpError = HttpError(status: nat, cause: Cause)

  /** Every exception of a handler's body, the 404s included, surfaces as a 500. */
  function Surface<T>(r: Result<T, Cause>): (s: Result<T, HttpError>)
    ensures s.Success? <==> r.Success?
    ensures r.Success? ==> s.value == r.value
    ensures r.Failure? ==> s.error.status == 500 && s.error.cause == r.error
  {
    match r
    case Success(v) => Success(v)
    case Failure(c) => Failure(HttpError(500, c))
  }

  const ProjectNotFound: Cause := NotFound("Project not found")
  const LocaleNotFound: Cause := NotFound("Locale not found")

  /** The result of a loop that has produced `acc` so far and whose remaining iterations give `rest`. */
  function Prepend<T>(acc: seq<T>, rest: Result<seq<T>, Cause>): Result<seq<T>, Cause> {
    match rest
    case Success(xs) => Success(acc + xs)
    case Failure(c) => Failure(c)
  }

  lemma PrependNothing<T>(rest: Result<seq<T>, Cause>)
    ensures Prepend([], rest) == rest
  {
    if rest.Success? {
      assert [] + rest.value == rest.value;
    }
  }

  lemma ConcatAssoc<T>(x: seq<T>, y: seq<T>, z: seq<T>)
    ensures x + (y + z) == (x + y) + z
  {
  }

  lemma PrependAssoc<T>(acc: seq<T>, x: seq<T>, rest: Result<seq<T>, Cause>)
    ensures Prepend(acc, Prepend(x, rest)) == Prepend(acc + x, rest)
  {
    if rest.Success? {
      ConcatAssoc(acc, x, rest.value);
    }
  }

  // ---------------------------------------------------------------------------------------------
  // GET /localizations/{project_id}/{locale}

  /** One joined `translation_values` row. */
  datatype ValueRow = ValueRow(localeCode: string, value: string, updatedAt: string, updatedBy: string)

  /** One `translation_keys` row with its joined values. */
  datatype KeyRow = KeyRow(id: string, key: string, category: string, description: Option<string>,
                           values: seq<ValueRow>)

  function ValueLocale(tv: ValueRow): string { tv.localeCode }
  function ValueOf(tv: ValueRow): TranslationValue { TranslationValue(tv.value, tv.updatedAt, tv.updatedBy) }
  function RowKey(item: KeyRow): string { item.key }

  /** `translations[tv["locale_code"]] = {...}` for every joined value. */
  function Translations(values: seq<ValueRow>): map<string, TranslationValue> {
    LastWins(values, ValueLocale, ValueOf)
  }

  function RowEntry(item: KeyRow): LocalizationEntry {
    LocalizationEntry(item.id, item.category, item.description, Translations(item.values))
  }

  /** `localizations[item["key"]] = {...}` for every row. */
  function Reshape(rows: seq<KeyRow>): map<string, LocalizationEntry> {
    LastWins(rows, RowKey, RowEntry)
  }

  /** `get_localizations`, given whether the project and the locale lookups found a row and the
      joined rows of the project's keys. */
  method GetLocalizations(projectId: string, locale: string, projectFound: bool, localeFound: bool,
                          rows: seq<KeyRow>)
    returns (r: Result<LocalizationResponse, HttpError>)
    ensures !projectFound ==> r == Surface(Failure(ProjectNotFound))
    ensures projectFound && !localeFound ==> r == Surface(Failure(LocaleNotFound))
    ensures projectFound && localeFound ==> r == Success(LocalizationResponse(projectId, locale, Reshape(rows)))
  {
    if !projectFound {
      return Surface(Failure(ProjectNotFound));
    }
    if !localeFound {
      return Surface(Failure(LocaleNotFound));
    }
    var localizations: map<string, LocalizationEntry> := map[];
    for i := 0 to |rows|
      invariant localizations == LastWins(rows[..i], RowKey, RowEntry)
    {
      var item := rows[i];
      var translations: map<string, TranslationValue> := map[];
      for j := 0 to |item.values|
        invariant translations == LastWins(item.values[..j], ValueLocale, ValueOf)
      {
        var tv := item.values[j];
        LastWinsStep(item.values, j, ValueLocale, ValueOf);
        translations := translations[tv.localeCode := TranslationValue(tv.value, tv.updatedAt, tv.updatedBy)];
      }
      assert item.values[..|item.values|] == item.values;
      LastWinsStep(rows, i, RowKey, RowEntry);
      localizations := localizations[item.key := LocalizationEntry(item.id, item.category, item.description, translations)];
    }
    assert rows[..|rows|] == rows;
    return Success(LocalizationResponse(projectId, locale, localizations));
  }

  /** The response has one entry per distinct key among the rows; a key's entry echoes the last
      row with that key, its id, category and description, and maps each of its locales to that
      locale's last value, `updated_at` and `updated_by`. */
  lemma {:induction false} ReshapeContent(rows: seq<KeyRow>, i: nat, j: nat)
    requires i < |rows| && forall k :: i < k < |rows| ==> rows[k].key != rows[i].key
    requires j < |rows[i].values|
    requires forall k :: j < k < |rows[i].values| ==> rows[i].values[k].localeCode != rows[i].values[j].localeCode
    ensures rows[i].key in Reshape(rows)
    ensures var e := Reshape(rows)[rows[i].key];
      && e.id == rows[i].id && e.category == rows[i].category && e.description == rows[i].description
      && rows[i].values[j].localeCode in e.translations
      && e.translations[rows[i].values[j].localeCode]
           == TranslationValue(rows[i].values[j].value, rows[i].values[j].updatedAt, rows[i].values[j].updatedBy)
  {
    LastWinsValue(rows, RowKey, RowEntry, i);
    LastWinsValue(rows[i].values, ValueLocale, ValueOf, j);
  }

  /** No key appears in the response unless some row had it. */
  lemma ReshapeKeys(rows: seq<KeyRow>, k: string)
    ensures k in Reshape(rows) <==> exists i :: 0 <= i < |rows| && rows[i].key == k
  {
    LastWinsKeys(rows, RowKey, RowEntry, k);
  }

  // ---------------------------------------------------------------------------------------------
  // POST /localizations/{project_id}/{locale}

  /** A record handed to the `translation_values` upsert. */
  datatype Upsert = Upsert(translationKeyId: string, localeCode: string, value: string,
                           updatedBy: string, id: Option<string>)

  const CurrentUser: string := "currentUser"
  const UpdatedMessage: string := "Localizations updated successfully"

  /** The upsert record of one update, given the id of its translation key. */
  function RecordFor(keyId: string, locale: string, u: TranslationUpdate, valueIds: map<string, string>): Upsert {
    Upsert(keyId, locale, u.value, CurrentUser, if keyId in valueIds then Some(valueIds[keyId]) else None)
  }

  /** The records the loop builds. `keyToId` grows with the keys it creates; `inserted` are the
      ids the database gives the created keys, in order; `valueIds` maps a translation key id to
      the id of its existing value in this locale. */
  function BuildRecords(updates: seq<(string, TranslationUpdate)>, keyToId: map<string, string>,
                        inserted: seq<string>, valueIds: map<string, string>, locale: string)
    : (r: Result<seq<Upsert>, Cause>)
    ensures r.Success? ==> |r.value| == |updates|
    ensures r.Failure? ==> r.error == NoInsertedRow
    decreases |updates|
  {
    if updates == [] then Success([])
    else
      var key := updates[0].0;
      if key !in keyToId && inserted == [] then Failure(NoInsertedRow)
      else
        var ids := if key in keyToId then keyToId else keyToId[key := inserted[0]];
        var rest := if key in keyToId then inserted else inserted[1..];
        Prepend([RecordFor(ids[key], locale, updates[0].1, valueIds)],
                BuildRecords(updates[1..], ids, rest, valueIds, locale))
  }

  /** `update_localizations`, given the lookups' outcomes, the ids of the project's existing keys
      among the updated ones, the ids the inserts return and the existing values' ids. Also
      returns the records handed to the upsert. */
  method UpdateLocalizations(projectFound: bool, localeFound: bool, locale: string,
                             updates: seq<(string, TranslationUpdate)>, existingKeys: map<string, string>,
                             inserted: seq<string>, valueIds: map<string, string>)
    returns (r: Result<UpdateAck, HttpError>, records: seq<Upsert>)
    ensures !projectFound ==> r == Surface(Failure(ProjectNotFound))
    ensures projectFound && !localeFound ==> r == Surface(Failure(LocaleNotFound))
    ensures projectFound && localeFound ==>
      match BuildRecords(updates, existingKeys, inserted, valueIds, locale)
      case Success(recs) => r == Success(UpdateAck(UpdatedMessage, |recs|)) && records == recs
      case Failure(c) => r == Surface(Failure(c))
  {
    records := [];
    if !projectFound {
      return Surface(Failure(ProjectNotFound)), records;
    }
    if !localeFound {
      return Surface(Failure(LocaleNotFound)), records;
    }
    var keyToId := existingKeys;
    var next := 0;
    var i := 0;
    assert updates[0..] == updates && inserted[0..] == inserted;
    PrependNothing(BuildRecords(updates, existingKeys, inserted, valueIds, locale));
    while i < |updates|
      invariant 0 <= i <= |updates| && 0 <= next <= |inserted|
      invariant BuildRecords(updates, existingKeys, inserted, valueIds, locale)
                == Prepend(records, BuildRecords(updates[i..], keyToId, inserted[next..], valueIds, locale))
    {
      var key := updates[i].0;
      ghost var tail := BuildRecords(updates[i..], keyToId, inserted[next..], valueIds, locale);
      assert updates[i..][0] == updates[i] && updates[i..][1..] == updates[i + 1..];
      if key !in keyToId {
        if next >= |inserted| {
          return Surface(Failure(NoInsertedRow)), records;
        }
        assert inserted[next..][1..] == inserted[next + 1..];
        keyToId := keyToId[key := inserted[next]];
        next := next + 1;
      }
      var record := RecordFor(keyToId[key], locale, updates[i].1, valueIds);
      PrependAssoc(records, [record], BuildRecords(updates[i + 1..], keyToId, inserted[next..], valueIds, locale));
      records := records + [record];
      i := i + 1;
    }
    assert updates[i..] == [];
    assert records + [] == records;
    return Success(UpdateAck(UpdatedMessage, |records|)), records;
  }

  /** One record per update, in order: the update's text, this locale, `updated_by` forced to
      `"currentUser"`, an existing key's id, and the existing value's id exactly when there is one. */
  lemma {:induction false} RecordsShape(updates: seq<(string, TranslationUpdate)>, keyToId: map<string, string>,
                                        inserted: seq<string>, valueIds: map<string, string>, locale: string)
    requires BuildRecords(updates, keyToId, inserted, valueIds, locale).Success?
    ensures var recs := BuildRecords(updates, keyToId, inserted, valueIds, locale).value;
      && |recs| == |updates|
      && forall i :: 0 <= i < |recs| ==>
        && recs[i].value == updates[i].1.value
        && recs[i].localeCode == locale
        && recs[i].updatedBy == CurrentUser
        && (updates[i].0 in keyToId ==> recs[i].translationKeyId == keyToId[updates[i].0])
        && (recs[i].id.Some? <==> recs[i].translationKeyId in valueIds)
        && (recs[i].id.Some? ==> recs[i].id.value == valueIds[recs[i].translationKeyId])
    decreases |updates|
  {
    if updates != [] {
      var key := updates[0].0;
      var ids := if key in keyToId then keyToId else keyToId[key := inserted[0]];
      var rest := if key in keyToId then inserted else inserted[1..];
      RecordsShape(updates[1..], ids, rest, valueIds, locale);
      var recs := BuildRecords(updates, keyToId, inserted, valueIds, locale).value;
      var tail := BuildRecords(updates[1..], ids, rest, valueIds, locale).value;
      assert recs == [RecordFor(ids[key], locale, updates[0].1, valueIds)] + tail;
      forall i | 0 < i < |recs| && updates[i].0 in keyToId
        ensures recs[i].translationKeyId == keyToId[updates[i].0]
      {
        assert updates[1..][i - 1] == updates[i];
        assert recs[i] == tail[i - 1];
      }
    }
  }

  /** Keys of the updates that the project does not have yet. */
  function NewKeyCount(updates: seq<(string, TranslationUpdate)>, keyToId: map<string, string>): nat
    decreases |updates|
  {
    if updates == [] then 0
    else (if updates[0].0 in keyToId then 0 else 1) + NewKeyCount(updates[1..], keyToId)
  }

  /** The updates of a JSON object have distinct keys. */
  ghost predicate DistinctKeys(updates: seq<(string, TranslationUpdate)>) {
    forall i, j :: 0 <= i < j < |updates| ==> updates[i].0 != updates[j].0
  }

  lemma {:induction false} NewKeyCountIgnoresOthers(updates: seq<(string, TranslationUpdate)>,
                                                    keyToId: map<string, string>, key: string, id: string)
    requires forall i :: 0 <= i < |updates| ==> updates[i].0 != key
    ensures NewKeyCount(updates, keyToId[key := id]) == NewKeyCount(updates, keyToId)
    decreases |updates|
  {
    if updates != [] {
      NewKeyCountIgnoresOthers(updates[1..], keyToId, key, id);
    }
  }

  /** With distinct keys, building fails exactly when more keys are new than the inserts return
      ids for. */
  lemma {:induction false} RecordsFailOnlyWithoutIds(updates: seq<(string, TranslationUpdate)>,
      keyToId: map<string, string>, inserted: seq<string>, valueIds: map<string, string>, locale: string)
    requires DistinctKeys(updates)
    ensures BuildRecords(updates, keyToId, inserted, valueIds, locale).Success?
            <==> NewKeyCount(updates, keyToId) <= |inserted|
    decreases |updates|
  {
    if updates != [] {
      var key := updates[0].0;
      assert DistinctKeys(updates[1..]);
      if key in keyToId {
        RecordsFailOnlyWithoutIds(updates[1..], keyToId, inserted, valueIds, locale);
      } else if inserted != [] {
        assert forall i :: 0 <= i < |updates[1..]| ==> updates[1..][i].0 != key;
        NewKeyCountIgnoresOthers(updates[1..], keyToId, key, inserted[0]);
        RecordsFailOnlyWithoutIds(updates[1..], keyToId[key := inserted[0]], inserted[1..], valueIds, locale);
      }
    }
  }

  /** With distinct keys, the i-th created key gets the i-th id the inserts return. */
  lemma {:induction false} RecordsNewKeyIds(updates: seq<(string, TranslationUpdate)>,
      keyToId: map<string, string>, inserted: seq<string>, valueIds: map<string, string>, locale: string, i: nat)
    requires DistinctKeys(updates)
    requires BuildRecords(updates, keyToId, inserted, valueIds, locale).Success?
    requires i < |updates| && updates[i].0 !in keyToId
    ensures NewKeyCount(updates[..i], keyToId) < |inserted|
    ensures var recs := BuildRecords(updates, keyToId, inserted, valueIds, locale).value;
      |recs| == |updates| && recs[i].translationKeyId == inserted[NewKeyCount(updates[..i], keyToId)]
    decreases |updates|
  {
    RecordsShape(updates, keyToId, inserted, valueIds, locale);
    var key := updates[0].0;
    var ids := if key in keyToId then keyToId else keyToId[key := inserted[0]];
    var rest := if key in keyToId then inserted else inserted[1..];
    var recs := BuildRecords(updates, keyToId, inserted, valueIds, locale).value;
    var tail := BuildRecords(updates[1..], ids, rest, valueIds, locale).value;
    assert recs == [RecordFor(ids[key], locale, updates[0].1, valueIds)] + tail;
    if i == 0 {
      assert updates[..0] == [];
    } else {
      assert DistinctKeys(updates[1..]);
      assert updates[1..][i - 1] == updates[i];
      assert updates[i].0 != key;
      assert updates[i].0 !in ids;
      RecordsNewKeyIds(updates[1..], ids, rest, valueIds, locale, i - 1);
      assert recs[i] == tail[i - 1];
      var prefix := updates[..i];
      assert prefix[0] == updates[0] && prefix[1..] == updates[1..][..i - 1];
      if key !in keyToId {
        assert forall j :: 0 <= j < |prefix[1..]| ==> prefix[1..][j].0 != key;
        NewKeyCountIgnoresOthers(prefix[1..], keyToId, key, inserted[0]);
      }
    }
  }

  // ---------------------------------------------------------------------------------------------
  // GET /translation-validation/{project_id}

  /** One joined `translation_values` row of the validation query. */
  datatype ItemValue = ItemValue(localeCode: string, value: string)

  /** One `translation_keys` row of the project with its joined values. */
  datatype Item = Item(id: string, key: string, category: string, values: seq<ItemValue>)

  /** One entry of the report. The lists the endpoint builds from Python sets have no defined
      order, so they are sets here. */
  datatype ValidationResult = ValidationResult(
    key: string,
    category: string,
    missingTranslations: set<string>,
    missingInterpolations: LocaleVariables,
    inconsistentInterpolations: LocaleVariables)

  /** `existing_locales`: every locale with a row for the key, even one with an empty value. */
  function ExistingLocales(values: seq<ItemValue>): set<string> {
    set tv | tv in values :: tv.localeCode
  }

  /** `all_locales`: the codes of the `locales` table. */
  function LocaleSet(localeCodes: seq<string>): set<string> {
    set c | c in localeCodes
  }

  /** `missing_translations`: the locales with no row for the key. */
  function MissingTranslations(allLocales: set<string>, item: Item): (m: set<string>)
    ensures forall l :: l in m <==> l in allLocales && forall tv :: tv in item.values ==> tv.localeCode != l
  {
    allLocales - ExistingLocales(item.values)
  }

  /** The rows whose value is not empty, in order. */
  function NonEmpty(values: seq<ItemValue>): seq<ItemValue>
    decreases |values|
  {
    if values == [] then []
    else
      var init := NonEmpty(values[..|values| - 1]);
      if values[|values| - 1].value == "" then init else init + [values[|values| - 1]]
  }

  /** `NonEmpty` keeps exactly the rows with a non-empty value. */
  lemma {:induction false} NonEmptyMembers(values: seq<ItemValue>)
    ensures forall tv :: tv in NonEmpty(values) <==> tv in values && tv.value != ""
    decreases |values|
  {
    if values != [] {
      NonEmptyMembers(values[..|values| - 1]);
      assert forall tv :: tv in values <==> tv in values[..|values| - 1] || tv == values[|values| - 1];
    }
  }

  function ItemLocale(tv: ItemValue): string { tv.localeCode }

  /** `set(re.findall(interpolation_pattern, tv["value"]))` */
  function Names(tv: ItemValue): set<string> { set n | n in FindInterpolations(tv.value) }

  /** `locale_interpolations`: each locale with a non-empty value, mapped to the names used in
      its last such value. */
  function LocaleInterpolations(values: seq<ItemValue>): LocaleVariables {
    LastWins(NonEmpty(values), ItemLocale, Names)
  }

  /** The inner loop over a key's values: empty values are skipped. */
  method CollectInterpolations(values: seq<ItemValue>) returns (li: LocaleVariables)
    ensures li == LocaleInterpolations(values)
  {
    li := map[];
    for j := 0 to |values|
      invariant li == LastWins(NonEmpty(values[..j]), ItemLocale, Names)
    {
      var tv := values[j];
      assert values[..j + 1][..j] == values[..j];
      if tv.value != "" {
        var ne := NonEmpty(values[..j + 1]);
        assert ne == NonEmpty(values[..j]) + [tv];
        LastWinsStep(ne, |ne| - 1, ItemLocale, Names);
        assert ne[..|ne| - 1] == NonEmpty(values[..j]);
        assert ne[..|ne|] == ne;
        li := li[tv.localeCode := set n | n in FindInterpolations(tv.value)];
      }
    }
    assert values[..|values|] == values;
  }

  /** A locale takes part in the comparison exactly when it has a non-empty value; a non-empty
      value without placeholders takes part with no names. */
  lemma LocaleInterpolationsKeys(values: seq<ItemValue>, l: string)
    ensures l in LocaleInterpolations(values) <==> exists tv :: tv in values && tv.localeCode == l && tv.value != ""
  {
    var ne := NonEmpty(values);
    NonEmptyMembers(values);
    LastWinsKeys(ne, ItemLocale, Names, l);
    if exists tv :: tv in values && tv.localeCode == l && tv.value != "" {
      var tv :| tv in values && tv.localeCode == l && tv.value != "";
      var i :| 0 <= i < |ne| && ne[i] == tv;
    }
  }

  /** The two reports the comparison yields. */
  datatype Comparison = Comparison(missing: LocaleVariables, inconsistent: LocaleVariables)

  function Compare(li: LocaleVariables): Comparison {
    Comparison(MissingInterpolations(li), InconsistentInterpolations(li))
  }

  /** `if missing_translations or missing_interpolations or inconsistent_interpolations`. */
  predicate HasIssues(r: ValidationResult) {
    r.missingTranslations != {} || r.missingInterpolations != map[] || r.inconsistentInterpolations != map[]
  }

  const UnboundName: string := "missing_interpolations"

  /** The report loop as written. `carried` holds the two maps as the previous iteration left
      them: they are assigned only when more than one locale has a non-empty value, so otherwise
      the previous key's maps are read, or, before any assignment, the read raises. */
  function ValidateFrom(allLocales: set<string>, items: seq<Item>, carried: Option<Comparison>)
    : (r: Result<seq<ValidationResult>, Cause>)
    ensures r.Success? ==> |r.value| <= |items|
    ensures r.Failure? ==> r.error == UnboundLocal(UnboundName)
    decreases |items|
  {
    if items == [] then Success([])
    else
      var cmp := NextComparison(items[0], carried);
      match cmp
      case None => Failure(UnboundLocal(UnboundName))
      case Some(c) =>
        var r := Entry(allLocales, items[0], c);
        Prepend(if HasIssues(r) then [r] else [], ValidateFrom(allLocales, items[1..], cmp))
  }

  /** The maps the loop holds after a key: fresh when more than one locale has a non-empty
      value, otherwise whatever it held before. */
  function NextComparison(item: Item, carried: Option<Comparison>): Option<Comparison> {
    var li := LocaleInterpolations(item.values);
    if |li| > 1 then Some(Compare(li)) else carried
  }

  /** The entry the loop builds for a key from the maps it holds. */
  function Entry(allLocales: set<string>, item: Item, c: Comparison): ValidationResult {
    ValidationResult(item.key, item.category, MissingTranslations(allLocales, item), c.missing, c.inconsistent)
  }

  /** `validate_translations`, given whether the project lookup found a row, the codes of the
      `locales` table and the project's keys with their values. */
  method ValidateTranslations(projectFound: bool, localeCodes: seq<string>, items: seq<Item>)
    returns (r: Result<seq<ValidationResult>, HttpError>)
    ensures !projectFound ==> r == Surface(Failure(ProjectNotFound))
    ensures projectFound ==> r == Surface(ValidateFrom(LocaleSet(localeCodes), items, None))
  {
    if !projectFound {
      return Surface(Failure(ProjectNotFound));
    }
    var allLocales := LocaleSet(localeCodes);
    ghost var expected := ValidateFrom(allLocales, items, None);
    var results: seq<ValidationResult> := [];
    var carried: Option<Comparison> := None;
    var i := 0;
    assert items[0..] == items;
    PrependNothing(expected);
    while i < |items|
      invariant 0 <= i <= |items|
      invariant expected == Prepend(results, ValidateFrom(allLocales, items[i..], carried))
    {
      ghost var before := carried;
      var report;
      carried, report := CheckKey(allLocales, items[i], carried);
      if carried.None? {
        ValidateStepFails(allLocales, items, i, before, results);
        return Surface(Failure(UnboundLocal(UnboundName)));
      }
      var added := if HasIssues(report) then [report] else [];
      ValidateStep(allLocales, items, i, before, carried.value, results);
      results := results + added;
      i := i + 1;
    }
    assert items[i..] == [];
    assert results + [] == results;
    return Success(results);
  }

  /** The body of the report loop for one key: the maps the loop holds afterwards, and the entry
      it builds from them (meaningful only when there are maps). */
  method CheckKey(allLocales: set<string>, item: Item, carried: Option<Comparison>)
    returns (next: Option<Comparison>, report: ValidationResult)
    ensures next == NextComparison(item, carried)
    ensures next.Some? ==> report == Entry(allLocales, item, next.value)
  {
    var missingTranslations := allLocales - ExistingLocales(item.values);
    var li := CollectInterpolations(item.values);
    next := carried;
    if |li| > 1 {
      next := Some(Compare(li));
    }
    if next.None? {
      return next, ValidationResult(item.key, item.category, missingTranslations, map[], map[]);
    }
    report := ValidationResult(item.key, item.category, missingTranslations,
                               next.value.missing, next.value.inconsistent);
  }

  /** One step of the report loop, on the rows from `i` on, when it has maps to report with. */
  lemma ValidateStep(allLocales: set<string>, items: seq<Item>, i: nat, carried: Option<Comparison>,
                     c: Comparison, acc: seq<ValidationResult>)
    requires i < |items| && NextComparison(items[i], carried) == Some(c)
    ensures var e := Entry(allLocales, items[i], c);
      Prepend(acc, ValidateFrom(allLocales, items[i..], carried))
        == Prepend(acc + (if HasIssues(e) then [e] else []), ValidateFrom(allLocales, items[i + 1..], Some(c)))
  {
    assert items[i..][0] == items[i] && items[i..][1..] == items[i + 1..];
    var e := Entry(allLocales, items[i], c);
    PrependAssoc(acc, if HasIssues(e) then [e] else [], ValidateFrom(allLocales, items[i + 1..], Some(c)));
  }

  /** One step of the report loop, on the rows from `i` on, when it has no maps: the read fails. */
  lemma ValidateStepFails(allLocales: set<string>, items: seq<Item>, i: nat, carried: Option<Comparison>,
                          acc: seq<ValidationResult>)
    requires i < |items| && NextComparison(items[i], carried).None?
    ensures Prepend(acc, ValidateFrom(allLocales, items[i..], carried)) == Failure(UnboundLocal(UnboundName))
  {
    assert items[i..][0] == items[i];
  }

  // ---------------------------------------------------------------------------------------------
  // The report as intended: each key compared on its own

  /** The entry of one key, its interpolation maps computed from its own values. */
  function ItemReport(allLocales: set<string>, item: Item): ValidationResult {
    Entry(allLocales, item, Compare(LocaleInterpolations(item.values)))
  }

  /** The entries of the keys with at least one issue, in row order. */
  function IntendedReport(allLocales: set<string>, items: seq<Item>): (rs: seq<ValidationResult>)
    ensures |rs| <= |items|
    decreases |items|
  {
    if items == [] then []
    else
      var r := ItemReport(allLocales, items[0]);
      (if HasIssues(r) then [r] else []) + IntendedReport(allLocales, items[1..])
  }

  /** The corrected endpoint: only the 404 check can fail. */
  function ValidateIntended(projectFound: bool, localeCodes: seq<string>, items: seq<Item>)
    : (r: Result<seq<ValidationResult>, HttpError>)
    ensures r.Success? <==> projectFound
    ensures r.Failure? ==> r.error == HttpError(500, ProjectNotFound)
    ensures r.Success? ==> |r.value| <= |items|
  {
    if !projectFound then Surface(Failure(ProjectNotFound))
    else Success(IntendedReport(LocaleSet(localeCodes), items))
  }

  /** A key is reported exactly when one of its three collections is non-empty, and reported keys
      keep row order: the report of two runs of rows is the two reports one after the other. */
  lemma {:induction false} IntendedReportSplits(allLocales: set<string>, a: seq<Item>, b: seq<Item>)
    ensures IntendedReport(allLocales, a + b) == IntendedReport(allLocales, a) + IntendedReport(allLocales, b)
    decreases |a|
  {
    if a == [] {
      assert a + b == b;
    } else {
      var r := ItemReport(allLocales, a[0]);
      var head := if HasIssues(r) then [r] else [];
      assert (a + b)[0] == a[0] && (a + b)[1..] == a[1..] + b;
      assert IntendedReport(allLocales, a + b) == head + IntendedReport(allLocales, a[1..] + b);
      assert IntendedReport(allLocales, a) == head + IntendedReport(allLocales, a[1..]);
      IntendedReportSplits(allLocales, a[1..], b);
      ConcatAssoc(head, IntendedReport(allLocales, a[1..]), IntendedReport(allLocales, b));
    }
  }

  /** An entry is in the report exactly when it is the entry of one of the keys and has an issue. */
  lemma {:induction false} IntendedReportMembers(allLocales: set<string>, items: seq<Item>, r: ValidationResult)
    ensures r in IntendedReport(allLocales, items)
        <==> HasIssues(r) && exists item :: item in items && r == ItemReport(allLocales, item)
    decreases |items|
  {
    if items != [] {
      IntendedReportMembers(allLocales, items[1..], r);
      assert forall item :: item in items <==> item == items[0] || item in items[1..];
    }
  }

  /** The corrected endpoint reports, for a found project, exactly the keys with an issue, each
      key compared on its own; a single-locale key is reported only for missing translations. */
  lemma ValidateIntendedReports(localeCodes: seq<string>, items: seq<Item>, r: ValidationResult)
    ensures ValidateIntended(true, localeCodes, items).Success?
    ensures r in ValidateIntended(true, localeCodes, items).value
        <==> HasIssues(r) && exists item :: item in items && r == ItemReport(LocaleSet(localeCodes), item)
  {
    IntendedReportMembers(LocaleSet(localeCodes), items, r);
  }

  /** A key whose non-empty values are in at most one locale can only be reported for missing
      translations. */
  lemma SingleLocaleOnlyMissingTranslations(allLocales: set<string>, item: Item)
    requires |LocaleInterpolations(item.values)| <= 1
    ensures ItemReport(allLocales, item).missingInterpolations == map[]
    ensures ItemReport(allLocales, item).inconsistentInterpolations == map[]
    ensures HasIssues(ItemReport(allLocales, item)) <==> MissingTranslations(allLocales, item) != {}
  {
    SingleLocaleNoReports(LocaleInterpolations(item.values));
  }

  /** Where every key has non-empty values in more than one locale, the loop as written gives the
      intended report, whatever it carried in. */
  lemma {:induction false} AsWrittenAgreesWhenCompared(allLocales: set<string>, items: seq<Item>,
                                                       carried: Option<Comparison>)
    requires forall i :: 0 <= i < |items| ==> |LocaleInterpolations(items[i].values)| > 1
    ensures ValidateFrom(allLocales, items, carried) == Success(IntendedReport(allLocales, items))
    decreases |items|
  {
    if items != [] {
      var li := LocaleInterpolations(items[0].values);
      assert |li| > 1;
      AsWrittenAgreesWhenCompared(allLocales, items[1..], Some(Compare(li)));
    }
  }

  /** Finding: the loop fails exactly when the first key has non-empty values in at most one
      locale; then the read of the never-assigned map raises and the whole report is a 500. */
  lemma FirstSingleLocaleKeyFails(allLocales: set<string>, items: seq<Item>)
    ensures ValidateFrom(allLocales, items, None).Failure?
        <==> items != [] && |LocaleInterpolations(items[0].values)| <= 1
    ensures items != [] && |LocaleInterpolations(items[0].values)| <= 1
        ==> ValidateFrom(allLocales, items, None) == Failure(UnboundLocal(UnboundName))
  {
    if items != [] && |LocaleInterpolations(items[0].values)| > 1 {
      CarriedNeverFails(allLocales, items[1..], NextComparison(items[0], None).value);
    }
  }

  /** Once some key has bound the maps, the loop never reads an unbound name again. */
  lemma {:induction false} CarriedNeverFails(allLocales: set<string>, items: seq<Item>, c: Comparison)
    ensures ValidateFrom(allLocales, items, Some(c)).Success?
    decreases |items|
  {
    if items != [] {
      CarriedNeverFails(allLocales, items[1..], NextComparison(items[0], Some(c)).value);
    }
  }

  /** Finding: a key with a single non-empty locale after a compared key is reported with the
      previous key's interpolation maps. */
  lemma CarriedMapsReported(allLocales: set<string>, item: Item, rest: seq<Item>, c: Comparison)
    requires |LocaleInterpolations(item.values)| <= 1
    requires c.missing != map[]
    ensures ItemReport(allLocales, item).missingInterpolations == map[]
    ensures ValidateFrom(allLocales, [item] + rest, Some(c)).Success?
    ensures var rs := ValidateFrom(allLocales, [item] + rest, Some(c)).value;
      rs != [] && rs[0].key == item.key && rs[0].missingInterpolations == c.missing
      && rs[0].inconsistentInterpolations == c.inconsistent
  {
    assert ([item] + rest)[0] == item && ([item] + rest)[1..] == rest;
    CarriedNeverFails(allLocales, [item] + rest, c);
    SingleLocaleOnlyMissingTranslations(allLocales, item);
  }
}
