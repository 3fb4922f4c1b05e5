/** Post-processing on the dashboard side: the start of the one-month window,
    the emptiness test on the model's answer and its fallback, the
    per-country result map, and the map rows with their closed set of labels. */
module Dashboard {
  import opened Outcomes
  import opened PyStr
  import opened Calendar
  import opened ApiData

  // ---------------------------------------------------------------- one month before

  function Min(a: int, b: int): int {
    if a <= b then a else b
  }

  /** The date one calendar month before `today`: the same day of the previous
      month, or that month's last day when it is shorter. Computed through the
      last day of the previous month. */
  function AnteriorDate(today: Date): (r: Result<Date>)
    requires Valid(today)
    ensures r.Fail? <==> today.year == MinYear && today.month == 1
    ensures r.Fail? ==> r.error == DateOverflow
    ensures r.Ok? ==>
      var py := if today.month > 1 then today.year else today.year - 1;
      var pm := if today.month > 1 then today.month - 1 else 12;
      r.value == Date(py, pm, Min(today.day, DaysIn(py, pm)))
    ensures r.Ok? ==> Valid(r.value) && Before(r.value, today)
  {
    var first := ReplaceDate(today.year, today.month, 1).value;
    var lastOfLastMonth :- MinusOneDay(first);
    if today.day > lastOfLastMonth.day then MinusOneDay(first)
    else if today.month > 1 then ReplaceDate(today.year, today.month - 1, today.day)
    else ReplaceDate(today.year - 1, 12, today.day)
  }

  /** The window is between 28 and 31 days long. */
  lemma AnteriorDateDistance(today: Date)
    requires Valid(today) && AnteriorDate(today).Ok?
    ensures 28 <= Ordinal(today) - Ordinal(AnteriorDate(today).value) <= 31
  {
    var prev := AnteriorDate(today).value;
    if today.month > 1 {
      MonthBeforeDistance(today, prev);
    } else {
      DecemberBeforeDistance(today, prev);
    }
  }

  lemma MonthBeforeDistance(today: Date, prev: Date)
    requires Valid(today) && today.month > 1
    requires prev == Date(today.year, today.month - 1, Min(today.day, DaysIn(today.year, today.month - 1)))
    ensures Valid(prev) && 28 <= Ordinal(today) - Ordinal(prev) <= 31
  {
    assert DaysBeforeMonth(today.year, today.month)
        == DaysBeforeMonth(today.year, today.month - 1) + DaysIn(today.year, today.month - 1);
  }

  lemma DecemberBeforeDistance(today: Date, prev: Date)
    requires Valid(today) && today.month == 1 && today.year > MinYear
    requires prev == Date(today.year - 1, 12, Min(today.day, 31))
    ensures Valid(prev) && 28 <= Ordinal(today) - Ordinal(prev) <= 31
  {
    assert DaysBeforeYear(today.year) == DaysBeforeYear(today.year - 1) + DaysInYear(today.year - 1);
    DaysBeforeDecember(today.year - 1);
  }

  // ---------------------------------------------------------------- the model's answer

  /** A value of the parsed answer: a string, or anything else JSON can hold. */
  datatype JsonValue = JString(s: string) | JOther

  type JsonObject = map<string, JsonValue>

  const GeneralKey := "general_situation"
  const ContentKeys: seq<string> :=
    ["political_situation", "economy", "climate", "sanitarian_situation", "immigration_situation"]
  const NoData := "no relevant data"
  const Labels: seq<string> := ["crisis situation", "concerning situation", "mild situation", "normal situation"]

  /** Every key of `keys` is present and maps to the empty string. */
  predicate Blank(obj: JsonObject, keys: seq<string>) {
    forall i :: 0 <= i < |keys| ==> keys[i] in obj && obj[keys[i]] == JString("")
  }

  /** The chain `obj[k1] == "" and obj[k2] == "" and ...`, evaluated left to
      right: it stops at the first non-empty value and raises KeyError at the
      first missing key it reaches. */
  function AllBlank(obj: JsonObject, keys: seq<string>): (r: Result<bool>)
    ensures r == Ok(true) <==> Blank(obj, keys)
    ensures r.Fail? <==> exists i :: 0 <= i < |keys| && keys[i] !in obj && Blank(obj, keys[..i])
    ensures r.Fail? ==> r.error.MissingKey? && r.error.key in keys && r.error.key !in obj
    ensures (forall i :: 0 <= i < |keys| ==> keys[i] in obj) ==> r == Ok(Blank(obj, keys))
    decreases |keys|
  {
    if |keys| == 0 then Ok(true)
    else if keys[0] !in obj then
      assert Blank(obj, keys[..0]);
      Fail(MissingKey(keys[0]))
    else if obj[keys[0]] != JString("") then Ok(false)
    else
      AllBlankStep(obj, keys);
      AllBlank(obj, keys[1..])
  }

  /** Past a first key that is present and blank, the chain behaves as on the
      remaining keys. */
  lemma AllBlankStep(obj: JsonObject, keys: seq<string>)
    requires |keys| > 0 && keys[0] in obj && obj[keys[0]] == JString("")
    ensures Blank(obj, keys) <==> Blank(obj, keys[1..])
    ensures (exists i :: 0 <= i < |keys| - 1 && keys[1..][i] !in obj && Blank(obj, keys[1..][..i]))
        <==> (exists i :: 0 <= i < |keys| && keys[i] !in obj && Blank(obj, keys[..i]))
  {
    var rest := keys[1..];
    forall i | 0 <= i < |rest|
      ensures Blank(obj, rest[..i]) <==> Blank(obj, keys[..i + 1])
    {
      assert keys[..i + 1] == [keys[0]] + rest[..i];
    }
    if exists i :: 0 <= i < |rest| && rest[i] !in obj && Blank(obj, rest[..i]) {
      var i :| 0 <= i < |rest| && rest[i] !in obj && Blank(obj, rest[..i]);
      assert keys[i + 1] !in obj && Blank(obj, keys[..i + 1]);
    }
    if exists i :: 0 <= i < |keys| && keys[i] !in obj && Blank(obj, keys[..i]) {
      var i :| 0 <= i < |keys| && keys[i] !in obj && Blank(obj, keys[..i]);
      assert i > 0;
      assert rest[i - 1] !in obj && Blank(obj, rest[..i - 1]);
    }
  }

  function IsJsonEmpty(obj: JsonObject): (r: Result<bool>)
    ensures r == Ok(true) <==> forall k :: k in ContentKeys ==> k in obj && obj[k] == JString("")
    ensures r.Fail? ==> exists k :: k in ContentKeys && k !in obj
  {
    AllBlank(obj, ContentKeys)
  }

  /** The test ignores `general_situation`, so writing it afterwards does not
      change the test's outcome. */
  lemma IsJsonEmptyIgnoresGeneral(obj: JsonObject, v: JsonValue)
    ensures IsJsonEmpty(obj[GeneralKey := v]) == IsJsonEmpty(obj)
  {
    AllBlankIgnores(obj, ContentKeys, GeneralKey, v);
  }

  lemma {:induction false} AllBlankIgnores(obj: JsonObject, keys: seq<string>, k: string, v: JsonValue)
    requires k !in keys
    ensures AllBlank(obj[k := v], keys) == AllBlank(obj, keys)
    decreases |keys|
  {
    if |keys| > 0 {
      AllBlankIgnores(obj, keys[1..], k, v);
    }
  }

  /** After the model call: an answer with all five content fields empty gets
      `general_situation` set to "no relevant data"; any other answer is kept. */
  function AfterLlm(obj: JsonObject): (r: Result<JsonObject>)
    ensures r.Fail? <==> IsJsonEmpty(obj).Fail?
    ensures r.Ok? && IsJsonEmpty(obj) == Ok(false) ==> r.value == obj
    ensures r.Ok? && IsJsonEmpty(obj) == Ok(true) ==>
      && r.value.Keys == obj.Keys + {GeneralKey}
      && r.value[GeneralKey] == JString(NoData)
      && forall k :: k in obj && k != GeneralKey ==> r.value[k] == obj[k]
  {
    var empty :- IsJsonEmpty(obj);
    if empty then Ok(obj[GeneralKey := JString(NoData)]) else Ok(obj)
  }

  /** The fallback is stable: the result of `AfterLlm` is its own result. */
  lemma AfterLlmIdempotent(obj: JsonObject)
    requires AfterLlm(obj).Ok?
    ensures AfterLlm(AfterLlm(obj).value) == AfterLlm(obj)
  {
    IsJsonEmptyIgnoresGeneral(obj, JString(NoData));
    var once := AfterLlm(obj).value;
    if IsJsonEmpty(obj) == Ok(true) {
      assert once[GeneralKey := JString(NoData)] == once;
    }
  }

  // ---------------------------------------------------------------- map rows

  /** The metric shown on the map: `general_situation` when it is one of the
      four labels, "no relevant data" otherwise, also when the key is absent. */
  function MapMetric(obj: JsonObject): (m: string)
    ensures m in Labels || m == NoData
    ensures m != NoData ==> GeneralKey in obj && obj[GeneralKey] == JString(m)
    ensures GeneralKey in obj && obj[GeneralKey].JString? && obj[GeneralKey].s in Labels ==> m == obj[GeneralKey].s
  {
    if GeneralKey in obj && obj[GeneralKey].JString? && obj[GeneralKey].s in Labels
    then obj[GeneralKey].s
    else NoData
  }

  /** An answer with nothing relevant is shown as "no relevant data". */
  lemma EmptyAnswerShowsNoData(obj: JsonObject)
    requires IsJsonEmpty(obj) == Ok(true)
    ensures MapMetric(AfterLlm(obj).value) == NoData
  {
    assert NoData !in Labels;
  }

  datatype Row = Row(code: string, metric: string)

  /** One row per selected country, in order: the ISO code of `country[5:-1]`
      and the metric. A country with no entry in the results raises KeyError,
      since that lookup is outside the guarded block. */
  function CountryRows(countries: seq<string>, results: map<string, JsonObject>, iso: string -> string): (r: Result<seq<Row>>)
    ensures r.Ok? <==> forall i :: 0 <= i < |countries| ==> countries[i] in results
    ensures r.Ok? ==> |r.value| == |countries| && forall i :: 0 <= i < |countries| ==>
      r.value[i] == Row(iso(Slice(countries[i], 5, -1)), MapMetric(results[countries[i]]))
    ensures r.Fail? ==> exists i :: (0 <= i < |countries| && r.error == MissingKey(countries[i])
      && countries[i] !in results && forall j :: 0 <= j < i ==> countries[j] in results)
    decreases |countries|
  {
    if |countries| == 0 then Ok([])
    else
      var country := countries[0];
      var code := iso(Slice(country, 5, -1));
      if country !in results then Fail(MissingKey(country))
      else
        var rest :- CountryRows(countries[1..], results, iso);
        Ok([Row(code, MapMetric(results[country]))] + rest)
  }

  // ---------------------------------------------------------------- the pipeline

  /** The per-country computation, a function of the stripped country name. */
  type Single = string -> Result<JsonObject>

  /** The computation as the loop applies it: to the country string as given,
      stripped of spaces. */
  function OnStripped(single: Single): Single {
    c => single(Strip(c, ' '))
  }

  /** Every entry of `acc` holds what `compute` gives for its key. */
  predicate Computed(acc: map<string, JsonObject>, compute: Single) {
    forall k :: k in acc ==> compute(k) == Ok(acc[k])
  }

  /** `compute` succeeds on every country. */
  predicate AllSucceed(countries: seq<string>, compute: Single) {
    forall i :: 0 <= i < |countries| ==> compute(countries[i]).Ok?
  }

  /** `e` is what `compute` raises on the first country it fails on. */
  predicate FirstFailure(countries: seq<string>, compute: Single, e: Error) {
    exists i :: (0 <= i < |countries| && compute(countries[i]) == Fail(e)
      && AllSucceed(countries[..i], compute))
  }

  /** The loop over the result map's keys in first-occurrence order; a country
      already in the map is not computed again. */
  function Calls(countries: seq<string>, compute: Single, acc: map<string, JsonObject>): (r: Result<map<string, JsonObject>>)
    requires Computed(acc, compute)
    ensures r.Ok? <==> AllSucceed(countries, compute)
    ensures r.Ok? ==> r.value.Keys == acc.Keys + (set c | c in countries)
    ensures r.Ok? ==> Computed(r.value, compute)
    ensures r.Fail? ==> FirstFailure(countries, compute, r.error)
    decreases |countries|
  {
    if |countries| == 0 then Ok(acc)
    else
      var country := countries[0];
      KeysCons(countries);
      SucceedCons(countries, compute);
      if country in acc then
        var r := Calls(countries[1..], compute, acc);
        FailureCons(countries, compute, r);
        r
      else match compute(country)
        case Fail(e) =>
          FailureHead(countries, compute, e);
          Fail(e)
        case Ok(v) =>
          var r := Calls(countries[1..], compute, acc[country := v]);
          FailureCons(countries, compute, r);
          r
  }

  lemma KeysCons(countries: seq<string>)
    requires |countries| > 0
    ensures (set c | c in countries) == {countries[0]} + (set c | c in countries[1..])
  {
    assert countries == [countries[0]] + countries[1..];
  }

  lemma SucceedCons(countries: seq<string>, compute: Single)
    requires |countries| > 0
    ensures AllSucceed(countries, compute)
        <==> compute(countries[0]).Ok? && AllSucceed(countries[1..], compute)
  {
    var rest := countries[1..];
    assert forall i :: 0 < i < |countries| ==> countries[i] == rest[i - 1];
  }

  lemma FailureHead(countries: seq<string>, compute: Single, e: Error)
    requires |countries| > 0 && compute(countries[0]) == Fail(e)
    ensures FirstFailure(countries, compute, e)
  {
    assert AllSucceed(countries[..0], compute);
  }

  /** A failure on the remaining countries, after a first country that
      succeeded, is the first failure of the whole list. */
  lemma FailureCons(countries: seq<string>, compute: Single, r: Result<map<string, JsonObject>>)
    requires |countries| > 0
    ensures compute(countries[0]).Ok? && r.Fail? && FirstFailure(countries[1..], compute, r.error)
            ==> FirstFailure(countries, compute, r.error)
  {
    var rest := countries[1..];
    if compute(countries[0]).Ok? && r.Fail? && FirstFailure(rest, compute, r.error) {
      var i :| 0 <= i < |rest| && compute(rest[i]) == Fail(r.error) && AllSucceed(rest[..i], compute);
      assert countries[..i + 1] == [countries[0]] + rest[..i];
      SucceedCons(countries[..i + 1], compute);
      assert countries[..i + 1][1..] == rest[..i];
      assert compute(countries[i + 1]) == Fail(r.error);
    }
  }

  /** One entry per distinct selected country, keyed by the country string as
      given and computed from that string stripped of spaces. */
  function RunPipeline(countries: seq<string>, single: Single): (r: Result<map<string, JsonObject>>)
    ensures r.Ok? <==> forall i :: 0 <= i < |countries| ==> single(Strip(countries[i], ' ')).Ok?
    ensures r.Ok? ==> r.value.Keys == (set c | c in countries)
    ensures r.Ok? ==> forall k :: k in r.value ==> single(Strip(k, ' ')) == Ok(r.value[k])
    ensures r.Fail? ==> FirstFailure(countries, OnStripped(single), r.error)
  {
    var r := Calls(countries, OnStripped(single), map[]);
    assert AllSucceed(countries, OnStripped(single))
      <==> forall i :: 0 <= i < |countries| ==> single(Strip(countries[i], ' ')).Ok?;
    r
  }

  /** `out` is what the fallback makes of the model's `answer`: an answer with
      content is kept as it is, and an empty one gains `general_situation` =
      `no relevant data` with every other field kept. */
  predicate FallbackOf(answer: JsonObject, out: JsonObject) {
    && (IsJsonEmpty(answer) == Ok(false) ==> out == answer)
    && (IsJsonEmpty(answer) == Ok(true) ==>
          && out.Keys == answer.Keys + {GeneralKey}
          && out[GeneralKey] == JString(NoData)
          && forall k :: k in answer && k != GeneralKey ==> out[k] == answer[k])
  }

  /** The computation for one country: the window from one month before
      `today` to `today`, the articles of that window framed for the model, the
      model's answer, then the fallback. */
  function RunSingleCountry(country: string, today: Date, scrape: string -> seq<Article>,
                            llm: string -> Result<JsonObject>): (r: Result<JsonObject>)
    requires Valid(today)
    ensures AnteriorDate(today).Ok? ==>
      var input := GetData(scrape(country), FormatDate(AnteriorDate(today).value), FormatDate(today));
      input.Ok? ==> (r.Ok? <==> llm(input.value).Ok? && IsJsonEmpty(llm(input.value).value).Ok?)
    ensures r.Ok? ==> AnteriorDate(today).Ok?
    ensures r.Ok? ==>
      var input := GetData(scrape(country), FormatDate(AnteriorDate(today).value), FormatDate(today));
      input.Ok? && llm(input.value).Ok? && FallbackOf(llm(input.value).value, r.value)
    ensures AnteriorDate(today).Fail? ==> r == Fail(DateOverflow)
    ensures AnteriorDate(today).Ok? && (forall i :: 0 <= i < |scrape(country)| ==>
              !InWindow(FormatDate(AnteriorDate(today).value), FormatDate(today), scrape(country)[i]))
            ==> r == Fail(EmptyWindow)
    ensures r.Ok? ==> GeneralKey in r.value || IsJsonEmpty(r.value) == Ok(false)
    ensures r.Ok? && IsJsonEmpty(r.value) == Ok(true) ==> r.value[GeneralKey] == JString(NoData)
  {
    var start :- AnteriorDate(today);
    AskModel(GetData(scrape(country), FormatDate(start), FormatDate(today)), llm)
  }

  /** The model's answer to a prepared input, then the fallback; a failure to
      prepare the input is passed on. */
  function AskModel(input: Result<string>, llm: string -> Result<JsonObject>): (r: Result<JsonObject>)
    ensures input.Fail? ==> r == Fail(input.error)
    ensures input.Ok? ==> (r.Ok? <==> llm(input.value).Ok? && IsJsonEmpty(llm(input.value).value).Ok?)
    ensures input.Ok? && llm(input.value).Fail? ==> r == Fail(llm(input.value).error)
    ensures r.Ok? ==> input.Ok? && llm(input.value).Ok? && FallbackOf(llm(input.value).value, r.value)
    ensures r.Ok? ==> GeneralKey in r.value || IsJsonEmpty(r.value) == Ok(false)
    ensures r.Ok? && IsJsonEmpty(r.value) == Ok(true) ==> r.value[GeneralKey] == JString(NoData)
  {
    var text :- input;
    var answer :- llm(text);
    IsJsonEmptyIgnoresGeneral(answer, JString(NoData));
    AfterLlm(answer)
  }

  /** A successful pipeline run always yields the map rows: one per selected
      country, showing the metric of that country's answer. */
  lemma PipelineFeedsMap(countries: seq<string>, single: Single, iso: string -> string)
    requires RunPipeline(countries, single).Ok?
    ensures var rows := CountryRows(countries, RunPipeline(countries, single).value, iso);
      && rows.Ok? && |rows.value| == |countries|
      && forall i :: 0 <= i < |countries| ==>
           rows.value[i].metric == MapMetric(single(Strip(countries[i], ' ')).value)
  {
    var m := RunPipeline(countries, single).value;
    assert forall i :: 0 <= i < |countries| ==> countries[i] in m;
  }

  // ---------------------------------------------------------------- country labels

  /** The selector's label of a country: four spaces, then the name in double
      quotes. */
  function Label(name: string): string {
    "    \"" + name + "\""
  }

  /** The ISO lookup receives the bare name, while the pipeline receives the
      name still in its quotes: stripping removes only the spaces. */
  lemma CountryLabel(name: string)
    ensures Slice(Label(name), 5, -1) == name
    ensures Strip(Label(name), ' ') == "\"" + name + "\""
  {
    var quoted := "\"" + name + "\"";
    assert Label(name) == seq(4, _ => ' ') + quoted + seq(0, _ => ' ');
    StripPadded(4, quoted, 0, ' ');
    assert Label(name)[5..|Label(name)| - 1] == name;
  }
}
