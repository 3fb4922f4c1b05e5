# Human-Geomonitor: report chunking, model input and dashboard post-processing

A Dafny model of three pure cores of the Human-Geomonitor hackathon project.

- **Report chunking** (`data-processing/data_extraction.py`). A directory of PDF reports becomes one text file per report and one JSON chunk file per selected chunk. The model covers:
  - the extension gate;
  - the naming of the text and chunk artifacts;
  - the alpha-ratio filter that keeps chunks made mostly of letters;
  - the numbering and content of the chunk records;
  - the report loop, which goes in sorted order and stops at the first exception.
- **Preparation of the language model's input** (`src/pipeline/get_api_data.py`). The articles whose date falls in a half-open window are joined with seven newlines and framed by a fixed instruction and a fixed answer cue.
- **Dashboard post-processing** (`src/streamlit/utils.py`). The model covers:
  - "one month before today" as a date;
  - the emptiness test on the model's JSON answer and its "no relevant data" fallback;
  - the result map of the per-country pipeline;
  - the map rows, whose metric comes from a closed set of four labels.

Files and modules:

| file | module | contents |
|---|---|---|
| `outcomes.dfy` | `Outcomes` | the exceptions, as an `Error` datatype; `Result` and `Option` |
| `seqs.dfy` | `Seqs` | order-preserving `Filter`, subsequences |
| `pystr.dfy` | `PyStr` | the Python string operations used: `split`, `join`, `replace`, `strip`, slicing, `<` on `str`, `sorted` |
| `decimal.dfy` | `Decimal` | `str(n)` and zero-padded fields, with their parser |
| `paths.dfy` | `Paths` | `os.path.join` and `path.split('/')[-1]` |
| `calendar.dfy` | `Calendar` | `datetime.date` for years 1..9999: `replace`, `- timedelta(days=1)`, `toordinal`, `strftime("%Y-%m-%d")` |
| `extraction.dfy` | `Extraction` | `Extractor` |
| `apidata.dfy` | `ApiData` | `_preprocess_data`, `_prepare_input`, `get_data` |
| `dashboard.dfy` | `Dashboard` | `_get_anterior_date`, `is_json_empty`, `run_pipeline`, `run_pipeline_single_country`, `get_country_level_data_for_map` |

Every raised exception becomes `Fail(e)` of a `Result`. Some parts of the outside world are parameters; the model says nothing about them:

- the PDF readers: a map from path to document information and page texts;
- the text splitter;
- `str.isalpha`;
- the article scraper;
- the language-model call;
- the ISO-3166 lookup;
- `date.today()`.

The model follows the code, not the comments, in these places:

- An empty candidate chunk is not skipped. Its alpha ratio divides by zero, and that exception ends the whole run (`SelectChunks`, `EmptyCandidateFailsReport`).
- One failing report does not let the run continue. The loop has no `try`, so the first exception stops it. `RunLog` records the reports completed before that and the error.
- `run_pipeline_single_country` passes the window bounds as strings. An empty window therefore raises `AttributeError` in the message's `strftime`, before the intended `Exception`. Either way the call fails, and the model reports `EmptyWindow`.
- `_get_anterior_date` on January of year 1 raises `OverflowError` in `- timedelta`. The model returns `DateOverflow` rather than excluding that input.

## Model

| member | source | states |
|---|---|---|
| Extraction.IsPdfNameIff | data-processing/data_extraction.py:46 | The gate `filename.split('.')[-1] == "pdf"` admits exactly the names ending in `.pdf`, case-sensitively, and the bare name `pdf`. |
| Extraction.ConvertPdfToText | data-processing/data_extraction.py:34-66 | The gate is checked first and rejects exactly the names it should. Success needs a readable file with document information (`dict(None)` raises). The text file is `text_folder` joined with the base name, `.pdf` turned into `.txt`. Its base name is that name. The text written has the length of all pages together. It succeeds exactly when the name passes the gate, the file can be read and it has document information; otherwise the error names the first of these that fails. |
| Extraction.PageTextLength | data-processing/data_extraction.py:59-64 | The pages are written one after another, with nothing between them. |
| Extraction.CleanTextIdentity | data-processing/data_extraction.py:68-75 | Cleaning returns the file name unchanged and is idempotent. |
| Extraction.AlphaRatioAgrees | data-processing/data_extraction.py:110-111 | The integer test `10·letters >= 7·length` is the real-number test `letters/length >= 0.7`, including the boundary value 0.7. |
| Extraction.SelectChunks | data-processing/data_extraction.py:106-118 | With the filter on, an empty candidate is a division by zero, and nothing else fails. Otherwise the result is the order-preserving filter by the ratio. With the filter off, every candidate is kept. |
| Extraction.SelectedChunks | data-processing/data_extraction.py:106-118 | The kept chunks are a subsequence of the candidates. Each is mostly letters, and every candidate that is mostly letters is kept. All are kept exactly when all qualify. |
| Extraction.ChunkRecord | data-processing/data_extraction.py:129-130 | The record has the metadata keys plus `page_content`. A metadata entry wins over the chunk text. |
| Extraction.WriteChunks | data-processing/data_extraction.py:122-131 | The loop writes one file per kept chunk, numbered over the kept chunks. The shared metadata is stamped before each record. Afterwards the caller's metadata holds the last index. |
| Extraction.ChunkPathsDistinct | data-processing/data_extraction.py:122-125 | Chunk files of one text file never overwrite each other: distinct indices give distinct paths. |
| Extraction.ChunkRecordContents | data-processing/data_extraction.py:126-130 | Record `i` holds `/Chunk` = `str(i)`, which reads back as `i`. The other metadata is unchanged, and the chunk text is under `page_content` unless the metadata has that key. |
| Extraction.ConvertTextToChunks | data-processing/data_extraction.py:77-131 | The call fails exactly when the filter is on and an empty candidate exists. No more files than candidates are written, one per candidate with the filter off. File `i` is `<prefix>_<i>.json` in the chunk directory. `/Chunk` is added to the metadata when anything was written. There is one file per kept chunk, and file `i` holds the `i`-th kept chunk with the metadata stamped `/Chunk = str(i)`. |
| Extraction.ProcessReport | data-processing/data_extraction.py:159-172 | A report succeeds exactly when its conversion succeeds and the splitter, given the text as read back in text mode, yields no empty candidate. A failed conversion's error is passed on; the other failure is the division by zero. A report that succeeds passed the gate after joining with the reports directory. Its text file is in `text_files`, and its chunk paths derive from that text file's name. Its chunk files hold, in order, the candidates of the read-back text that pass the letter-ratio filter, each with the document information stamped with its index. |
| Extraction.RunReports | data-processing/data_extraction.py:155-172 | The run processes entries in order and stops at the first failure. The completed reports are the results for a prefix of the entries, and the error is that of the next entry. |
| Extraction.PdfToChunks | data-processing/data_extraction.py:151-172 | Only listing entries that pass the gate are processed, in ascending string order. A run without error processes each of them exactly once. The run completes exactly when every listed entry that passes the gate processes without error, and each completed entry is that report's own conversion, cleaning and chunking. The completed reports are always the first of the sorted entries. A run that aborts stopped at the next sorted entry, and its error is that entry's error. |
| Extraction.SortedRunFacts | data-processing/data_extraction.py:155 | Over a sorted list, the completed reports are a prefix of that list, in order. |
| Extraction.PlainReportNames | data-processing/data_extraction.py:55-56 | `<stem>.pdf`, with no dot in the stem, gives the text file `<stem>.txt`, and that gives the chunk prefix `<stem>_chunk`. |
| Extraction.PlainReportArtifacts | data-processing/data_extraction.py:122-125 | A plain report's text goes to `text_files/<stem>.txt` and its chunks to `<stem>_chunk_<i>.json`. |
| Extraction.CollidingReportNames | data-processing/data_extraction.py:55-56 | `<stem>.pdf.pdf` and `<stem>.txt.pdf` both pass the gate but share the text file `<stem>.txt.txt`. |
| Extraction.TextFileNameOfJoin | data-processing/data_extraction.py:55 | For a name without `/`, the text file name is the name with `.pdf` replaced, wherever it is joined. |
| Extraction.BarePdfEntryAbortsRun | data-processing/data_extraction.py:152-161 | A listing entry named `pdf` passes the listing filter. Joined to a directory, it fails the gate, and the run is aborted. |
| Extraction.SplitterDefaultsOnly | data-processing/data_extraction.py:77-81 | The report loop consults the splitter only with the defaults 512 and 0. |
| Extraction.EmptyCandidateFailsReport | data-processing/data_extraction.py:108-110 | In the report loop the filter is always on, so an empty candidate fails the report with a division by zero. |
| PyStr.JoinSplit | data-processing/data_extraction.py:46 | Joining the pieces of `split(c)` with `c` gives the string back. |
| PyStr.LastFieldIs | data-processing/data_extraction.py:46 | `s.split(c)[-1] == t` exactly when `s` is `t` or ends in `c` followed by `t`. |
| PyStr.ReplaceTrailing | data-processing/data_extraction.py:55 | A trailing occurrence is replaced, and a prefix that cannot start one is kept. |
| PyStr.ReplaceNearMiss | data-processing/data_extraction.py:55 | A look-alike of the pattern before an occurrence is kept, and the occurrence is replaced. |
| PyStr.SortNames | data-processing/data_extraction.py:155 | `sorted` returns an ascending permutation of its input. |
| PyStr.StripPadded | src/streamlit/utils.py:53 | `strip(" ")` removes exactly the leading and trailing spaces around a core that neither starts nor ends with one. |
| PyStr.TranslateNewlines | data-processing/data_extraction.py:99-101 | Reading the text file back in text mode leaves no `\r`: each `\r\n` and each lone `\r` becomes `\n`. Text without `\r` reads back unchanged, and reading never lengthens it. |
| PyStr.TranslateNewlinesConcat | data-processing/data_extraction.py:59-64 | Pages written one after another read back as the separate readings joined, provided a page does not end in a `\r` that the next page's `\n` would complete. |
| PyStr.TranslateNewlinesReplace | data-processing/data_extraction.py:99-101 | Reading back in text mode is the same as `s.replace("\r\n", "\n").replace("\r", "\n")`, so each `\r\n` and each lone `\r` becomes one `\n` and nothing else changes. |
| PyStr.StripInfix | src/streamlit/utils.py:53 | What `strip(c)` keeps is an infix of the string, and every character removed before or after it is `c`. |
| PyStr.StripIdempotent | src/streamlit/utils.py:53 | Stripping twice is stripping once. |
| Paths.PathJoin | data-processing/data_extraction.py:56 | `os.path.join` ends with the name. An absolute name replaces the directory; otherwise the result starts with the directory. |
| Paths.BasenameOfJoin | data-processing/data_extraction.py:55-56 | The base name of a joined path is the plain name that was joined. |
| Paths.PathJoinInjective | data-processing/data_extraction.py:125 | In one directory, relative names give equal paths exactly when they are equal. |
| Decimal.ParseNatToString | data-processing/data_extraction.py:126 | `str(n)` reads back as `n`. |
| Calendar.ReplaceDate | src/streamlit/utils.py:27 | `replace` succeeds exactly on a real date and raises `ValueError` otherwise. |
| Calendar.MinusOneDay | src/streamlit/utils.py:28 | Subtracting a day fails only on 0001-01-01, and otherwise lowers the ordinal by one. |
| Calendar.BeforeIsOrdinalOrder | src/streamlit/utils.py:29-36 | Field-wise date order is ordinal order. |
| Calendar.FormatDateOrder | src/pipeline/get_api_data.py:144 | On `%Y-%m-%d` strings, Python's `<` is chronological `<`. |
| Calendar.FormatDateOrderNonStrict | src/pipeline/get_api_data.py:144 | On `%Y-%m-%d` strings, `<=` is chronological `<=`. |
| Calendar.FormatDateInjective | src/pipeline/get_api_data.py:96-98 | Distinct dates have distinct `%Y-%m-%d` strings. |
| ApiData.ArticleRow | src/pipeline/get_api_data.py:93-98 | A scraped row's text is `Title: ` followed by the title, a newline and the body. Its date is a 10-character string. |
| ApiData.Preprocess | src/pipeline/get_api_data.py:143-151 | The call fails, with the empty-window error, exactly when no row has `start < date <= end`. |
| ApiData.PreprocessSnoc | src/pipeline/get_api_data.py:143-154 | Row by row: an out-of-window row changes nothing; the first in-window row gives its text; each later one adds seven newlines and its text. |
| ApiData.PreprocessOnly | src/pipeline/get_api_data.py:152-154 | A window holding one article gives its text verbatim. |
| ApiData.PreprocessShape | src/pipeline/get_api_data.py:152-154 | For `k` articles, the length is their total plus `7·(k-1)`. The result opens with the first and closes with the last. |
| ApiData.WindowIsChronological | src/pipeline/get_api_data.py:143-145 | For dates written by `strftime("%Y-%m-%d")`, the string window is `start < published <= end` on dates. |
| ApiData.Prepare | src/pipeline/get_api_data.py:108-127 | The input starts with the fixed instruction and ends with the fixed cue. |
| ApiData.UnframePrepare | src/pipeline/get_api_data.py:126-127 | The text can be recovered from the input, and an input framed around a text is exactly the framing of that text. |
| ApiData.PrepareInjective | src/pipeline/get_api_data.py:126 | Distinct texts give distinct inputs. |
| ApiData.GetData | src/pipeline/get_api_data.py:157-177 | The call fails exactly on an empty window. Otherwise the framed text is the preprocessed articles. |
| Dashboard.AnteriorDate | src/streamlit/utils.py:16-37 | The result is the previous calendar month (December of the year before for January), with day `min(day, days in that month)`. It is strictly earlier than today. Only January of year 1 overflows. |
| Dashboard.AnteriorDateDistance | src/streamlit/utils.py:29-37 | The window is 28 to 31 days long. |
| Dashboard.AllBlank | src/streamlit/utils.py:60-67 | The `and` chain is true exactly when every key is present and empty. It raises `KeyError` exactly when a key is missing and all keys before it are present and empty. With every key present, it is the plain conjunction. |
| Dashboard.IsJsonEmpty | src/streamlit/utils.py:60-67 | The test is true exactly when the five content fields are present and empty. It raises only when one of them is missing. |
| Dashboard.IsJsonEmptyIgnoresGeneral | src/streamlit/utils.py:60-67 | The test's outcome does not depend on `general_situation`. |
| Dashboard.AfterLlm | src/streamlit/utils.py:87-89 | An empty answer gets `general_situation` = `no relevant data` and nothing else changes. Any other answer is returned as is. |
| Dashboard.AfterLlmIdempotent | src/streamlit/utils.py:87-89 | Applying the fallback again changes nothing. |
| Dashboard.MapMetric | src/streamlit/utils.py:107-120 | The metric is `general_situation` when that is one of the four labels, and `no relevant data` otherwise, including when the key is absent. |
| Dashboard.EmptyAnswerShowsNoData | src/streamlit/utils.py:107-120 | An answer with nothing relevant is shown as `no relevant data`. |
| Dashboard.CountryRows | src/streamlit/utils.py:102-125 | Rows are built one per country, in order, from the ISO code of `country[5:-1]` and the metric. A country missing from the results raises `KeyError`, namely the first missing one. |
| Dashboard.Calls | src/streamlit/utils.py:53-55 | The loop over first occurrences ends with every country as a key, each holding what the per-country computation gives for it. It fails exactly when the computation fails on some country, with the first failure's error. |
| Dashboard.RunPipeline | src/streamlit/utils.py:53-57 | The keys are exactly the selected strings, unstripped, and each value is computed from `strip(" ")` of its key. The call fails with the first failure in selection order. |
| Dashboard.RunSingleCountry | src/streamlit/utils.py:71-89 | January of year 1 fails with an overflow, and an empty window fails. With a non-empty window, the call succeeds exactly when the model answers and the emptiness test on its answer does not raise. A result is the model's answer to the framed window, kept as is when it has content, and otherwise given `general_situation` = `no relevant data` with every other field kept. |
| Dashboard.AskModel | src/streamlit/utils.py:81-89 | A failure to prepare the input is passed on unchanged, and so is a failure of the model. Otherwise the call succeeds exactly when the emptiness test on the answer does not raise. The result is the answer itself when it has content. An empty answer gains `general_situation` = `no relevant data`, with every other field kept. |
| Dashboard.PipelineFeedsMap | src/streamlit/utils.py:104-106 | After a successful pipeline run, the map has one row per selected country with that country's metric, and the `KeyError` cannot occur. |
| Dashboard.CountryLabel | src/streamlit/utils.py:104 | For a selector label `    "<name>"`, the ISO lookup receives `<name>`, and the pipeline receives `"<name>"` with its quotes. |

## Left out

- PDF parsing (`PdfReader`, `pymupdf`): a PDF is its document information and its page texts. Any file that cannot be opened is one `Unreadable` error. The UTF-8 encoding of the pages and its decoding on re-reading are taken to give back the same characters; the newline translation of text-mode reading is modelled (`TranslateNewlines`).
- `MarkdownTextSplitter`: an uninterpreted function of the text, the chunk size and the overlap. Chunk sizes and boundaries are not modelled.
- `str.isalpha`: a parameter, since Unicode categories are outside the model.
- Extraction.SelectChunks: compares `10·letters >= 7·length` exactly, while the program divides in double precision. `AlphaRatioAgrees` proves agreement with the exact real ratio. Double rounding could only matter for chunk lengths far beyond any real chunk, and that is not proved.
- `json.dump` formatting (indentation, `ensure_ascii`): a chunk file is its path and its record as a map.
- Extraction.ConvertTextToChunks: metadata values are strings (`map<string, string>`). A PDF whose document information holds a non-string value (bytes, say) makes `json.dump` raise `TypeError`; that failure is not modelled.
- Files of a failing report: the text file and the chunk files written before the exception are not recorded in `RunLog`, which lists completed reports only.
- Directory creation (`os.mkdir`), progress printing and the `verbose` flags: side effects with no bearing on the results. `os.listdir` is the `listing` parameter, in any order.
- Network access and HTML parsing in `get_api_data.py` (`_get_article_text`, `_get_articles_news_api`, `_get_bbc_articles`), including the `nb_pages_res` paging. Articles arrive as rows; only the row construction from a scraped title, body and date is modelled.
- `datetime.strptime` of the scraped timestamp: the publication date is given as a `Date`.
- Calendar.FormatDate: zero-fills the year to four digits. Platform `strftime` may not pad years below 1000; such dates do not occur here.
- The language-model call (`call_llm.py`) and the `MODEL` environment variable: `llm` is a parameter returning a parsed answer or `LlmFailure`. A JSON value that is not a string is `JOther`.
- `st.cache_data` caching: the per-country computation is a function, so repeated calls agree.
- The `pydtm` ISO-3166 lookup: an uninterpreted `iso` parameter.
- pandas: a data frame is a sequence of rows.
- The Streamlit and plotly user interface (`dashboard.py`), `report2chunks.py` and `webscraper.py`: not part of this model.
