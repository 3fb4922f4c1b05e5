/** Preparation of the language model's input: the articles of a time window
    joined into one text, framed by a fixed instruction and a fixed suffix. */
module ApiData {
  import opened Outcomes
  import opened Seqs
  import opened PyStr
  import opened Calendar

  /** One row of the article table: the article text and its publication date
      as a `%Y-%m-%d` string. */
  datatype Article = Article(text: string, date: string)

  /** The row of a scraped article that has a publication date. */
  function ArticleRow(title: string, body: string, published: Date): (a: Article)
    requires Valid(published)
    ensures |a.date| == 10
    ensures |a.text| == 8 + |title| + |body|
    ensures a.text[..7] == "Title: " && a.text[|a.text| - |body|..] == body
    ensures a.text[7..7 + |title|] == title && a.text[7 + |title|] == '\n'
  {
    Article("Title: " + title + "\n" + body, FormatDate(published))
  }

  /** Seven newlines between consecutive articles. */
  const Separator := "\n\n\n\n\n\n\n"

  /** The half-open window `start < date <= end`, comparing the date strings. */
  predicate InWindow(start: string, end: string, a: Article) {
    LexLt(start, a.date) && LexLe(a.date, end)
  }

  function WindowTest(start: string, end: string): Article -> bool {
    a => InWindow(start, end, a)
  }

  function Texts(rows: seq<Article>): (texts: seq<string>)
    ensures |texts| == |rows|
    ensures forall i :: 0 <= i < |rows| ==> texts[i] == rows[i].text
  {
    seq(|rows|, i requires 0 <= i < |rows| => rows[i].text)
  }

  /** The rows of the window, in table order. */
  function Selected(rows: seq<Article>, start: string, end: string): seq<Article> {
    Filter(rows, WindowTest(start, end))
  }

  /** The texts of the rows in the window, joined by the separator; an empty
      window is an error. */
  function Preprocess(rows: seq<Article>, start: string, end: string): (r: Result<string>)
    ensures r.Fail? <==> forall i :: 0 <= i < |rows| ==> !InWindow(start, end, rows[i])
    ensures r.Fail? ==> r.error == EmptyWindow
  {
    FilterEmptyIff(rows, WindowTest(start, end));
    var kept := Selected(rows, start, end);
    if |kept| == 0 then Fail(EmptyWindow) else Ok(Join(Texts(kept), Separator))
  }

  /** The result, one row at a time: a row outside the window changes nothing,
      the first row inside it gives its text, and every later one adds the
      separator and its text. */
  lemma PreprocessSnoc(rows: seq<Article>, a: Article, start: string, end: string)
    ensures Preprocess(rows + [a], start, end)
         == if !InWindow(start, end, a) then Preprocess(rows, start, end)
            else if Preprocess(rows, start, end).Fail? then Ok(a.text)
            else Ok(Preprocess(rows, start, end).value + Separator + a.text)
  {
    var keep := WindowTest(start, end);
    FilterSnoc(rows, a, keep);
    FilterEmptyIff(rows, keep);
    var kept := Selected(rows, start, end);
    if InWindow(start, end, a) {
      assert Selected(rows + [a], start, end) == kept + [a];
      assert Texts(kept + [a]) == Texts(kept) + [a.text];
      if |kept| > 0 {
        JoinSnoc(Texts(kept), a.text, Separator);
      } else {
        assert Texts(kept + [a]) == [a.text];
      }
    } else {
      assert Selected(rows + [a], start, end) == kept;
    }
  }

  /** A window holding a single article gives that article's text verbatim. */
  lemma {:induction false} PreprocessOnly(rows: seq<Article>, k: int, start: string, end: string)
    requires 0 <= k < |rows| && InWindow(start, end, rows[k])
    requires forall i :: 0 <= i < |rows| && i != k ==> !InWindow(start, end, rows[i])
    ensures Preprocess(rows, start, end) == Ok(rows[k].text)
  {
    var n := |rows| - 1;
    var init := rows[..n];
    assert rows == init + [rows[n]];
    PreprocessSnoc(init, rows[n], start, end);
    if k < n {
      PreprocessOnly(init, k, start, end);
    } else {
      assert forall i :: 0 <= i < |init| ==> !InWindow(start, end, init[i]);
    }
  }

  /** For `k` articles in the window the result is their texts with exactly
      `k - 1` separators, opening with the first and closing with the last. */
  lemma PreprocessShape(rows: seq<Article>, start: string, end: string)
    requires Preprocess(rows, start, end).Ok?
    ensures var kept := Selected(rows, start, end);
            var out := Preprocess(rows, start, end).value;
            && |kept| > 0
            && |out| == TotalLength(Texts(kept)) + (|kept| - 1) * 7
            && |kept[0].text| <= |out| && out[..|kept[0].text|] == kept[0].text
            && |kept[|kept| - 1].text| <= |out| && out[|out| - |kept[|kept| - 1].text|..] == kept[|kept| - 1].text
  {
    var kept := Selected(rows, start, end);
    JoinLength(Texts(kept), Separator);
    JoinEnds(Texts(kept), Separator);
  }

  /** For rows dated by `ArticleRow` and bounds in the same format, comparing
      the strings is comparing the dates: the window is `start < published <= end`. */
  lemma WindowIsChronological(start: Date, end: Date, title: string, body: string, published: Date)
    requires Valid(start) && Valid(end) && Valid(published)
    ensures InWindow(FormatDate(start), FormatDate(end), ArticleRow(title, body, published))
        <==> Before(start, published) && NotAfter(published, end)
  {
    FormatDateOrder(start, published);
    FormatDateOrderNonStrict(published, end);
  }

  // ---------------------------------------------------------------- prompt framing

  const Prompt: string :=
    "You are an expert at building JSON. \n"
    + "    Based on the following articles, for the country, here is a JSON where the keys are \n"
    + "    - \"political_situation\": political situation of the country, \n"
    + "    - \"economy\": economic situation of the country, \n"
    + "    - \"climate\": climatic situation of the country, \n"
    + "    - \"sanitarian_situation\": sanitarian situation of the country from a humanitarian point of view, \n"
    + "    - \"immigration_situation\": the immigration situation in the country, from a humanitarian point of view\n"
    + "    - \"general_situation\": the general HUMANITARIAN situation of the country. It can have the values \"normal situation\", \"mild situation\", \"concerning situation\" and \"crisis situation\" and indicates the general HUMANITARIAN situation of the country \n"
    + "    The values of each field is 2 sentences maximum relating to the keys and based on the articles. If nothing is relevant for a field, it is empty (\"\").\n"
    + "    "

  const Suffix: string := "\n\n    JSON:\n    "

  /** The instruction, the articles, then the cue for the answer. */
  function Prepare(text: string): (input: string)
    ensures |input| == |Prompt| + |text| + |Suffix|
    ensures input[..|Prompt|] == Prompt && input[|input| - |Suffix|..] == Suffix
  {
    Prompt + text + Suffix
  }

  /** The text between the instruction and the cue, if the input is so framed. */
  function Unframe(input: string): (text: Option<string>)
    ensures text.Some? ==> |text.value| == |input| - |Prompt| - |Suffix|
  {
    Between(Prompt, Suffix, input)
  }

  /** The middle of `input` when it starts with `head` and ends with `tail`. */
  function Between(head: string, tail: string, input: string): (mid: Option<string>)
    ensures mid.Some? ==> |head| + |mid.value| + |tail| == |input|
  {
    if |input| >= |head| + |tail| && input[..|head|] == head && input[|input| - |tail|..] == tail
    then Some(input[|head|..|input| - |tail|])
    else None
  }

  /** Putting `text` between `head` and `tail` is undone by `Between`, and is
      the only way to obtain an input whose middle is `text`. */
  lemma BetweenFrame(head: string, tail: string, text: string, input: string)
    ensures Between(head, tail, head + text + tail) == Some(text)
    ensures Between(head, tail, input) == Some(text) ==> head + text + tail == input
  {
    var p := head + text + tail;
    assert p[..|head|] == head && p[|p| - |tail|..] == tail;
    assert p[|head|..|p| - |tail|] == text;
    if Between(head, tail, input) == Some(text) {
      assert input == input[..|head|] + input[|head|..|input| - |tail|] + input[|input| - |tail|..];
    }
  }

  /** Framing can be undone, and every framed input is the framing of its text. */
  lemma UnframePrepare(text: string, input: string)
    ensures Unframe(Prepare(text)) == Some(text)
    ensures Unframe(input) == Some(text) ==> Prepare(text) == input
  {
    BetweenFrame(Prompt, Suffix, text, input);
  }

  /** Distinct texts give distinct inputs. */
  lemma PrepareInjective(a: string, b: string)
    ensures Prepare(a) == Prepare(b) <==> a == b
  {
    UnframePrepare(a, Prepare(a));
    UnframePrepare(b, Prepare(b));
  }

  /** The input for the model: the window's articles, framed. */
  function GetData(rows: seq<Article>, start: string, end: string): (r: Result<string>)
    ensures r.Fail? <==> forall i :: 0 <= i < |rows| ==> !InWindow(start, end, rows[i])
    ensures r.Fail? ==> r.error == EmptyWindow
    ensures r.Ok? ==> Unframe(r.value) == Some(Preprocess(rows, start, end).value)
  {
    var text :- Preprocess(rows, start, end);
    UnframePrepare(text, Prepare(text));
    Ok(Prepare(text))
  }
}
