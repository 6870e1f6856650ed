# conv_AI service core in Dafny

This project models the deterministic core of the conversational backend's
three service modules as pure Dafny functions over immutable values. The
PDF reader, the HTTP client, the vector store's similarity search, the chat
model and `uuid4()` are passed in as plain inputs (oracles).

- **Document chunker** (`process_documents.py`, module `ProcessDocuments`).
  Every page with text is cut into consecutive windows of `chunk_size`
  characters. Each window is stripped of whitespace, blank windows are
  dropped, and the rest are tagged with the 0-based page index. The chunk
  store appends one record per `zip(chunks, embeddings)` pair to a
  collection, modelled as a sequence (module `VectorStore`).
- **Weather client** (`weather_service.py`, module `WeatherService`).
  - The request URL is chosen by the Python truthiness of `date` and
    `forecast_days`.
  - A non-200 status and an unparseable body become error objects.
  - The response is reshaped by a key-precedence dispatch: `error`, then
    `current`, then `forecast`, then `history`. This works over a small
    JSON datatype (module `Json`) that has Python's `in` and subscript
    semantics, including the TypeError, KeyError and IndexError cases.
- **Retrieval glue** (`rag_service.py`, module `RagService`).
  - Page filtering and per-page insertion into the store.
  - The top-three excerpt join with its dashed separator.
  - The chat request (system prompt, user message template, model name)
    and the fallback answer.

Python behaviour the code relies on is modelled in module `Python`:
- `str.strip()` with the whitespace set of `str.isspace`;
- truthiness of optional strings and ints;
- `range` with a positive step, `zip`, `sep.join`;
- `str(int)` and substring `in`.

Python exceptions become `Failure(PyError)` values.

`split_pdf_into_chunks` has no exception handler, so when the document
cannot be read the reader's exception propagates to the caller:
`SplitPdfIntoChunks` gives `Failure(ExternalError)`. Only
`extract_text_from_pdf` in the RAG service catches that exception, and it
returns an empty list instead.

The `history` branch of `get_weather_response` is only reached when
`"forecast" in data` was false, yet its first subscript is
`data["forecast"]`. The model proves that this branch never returns
normally (`WeatherService.HistoryNeverReturns` and
`NormalizeWeather`'s contract).

## Model

| member | source | states |
|---|---|---|
| Python.Strip | conversational-AI/app/services/process_documents.py:62 | the result is a contiguous slice of the input that neither starts nor ends with whitespace, and everything removed is whitespace; it is empty exactly when the input is all whitespace |
| Python.StripIdempotent | conversational-AI/app/services/process_documents.py:62 | stripping an already stripped string changes nothing |
| Python.Range | conversational-AI/app/services/process_documents.py:61 | `range(start, stop, step)` has ceil((stop-start)/step) elements, starts at `start`, rises by `step`, stays below `stop` and keeps `start`'s remainder |
| Python.RangeComplete | conversational-AI/app/services/process_documents.py:61 | every value in [start, stop) with the same remainder as `start` is visited |
| Python.Zip | conversational-AI/app/services/process_documents.py:78 | `zip` has the shorter length and pairs equal positions |
| Python.KeptFrom | conversational-AI/app/services/rag_service.py:55 | a filtering comprehension keeps, in ascending order, only the positions whose element passes the test |
| Python.KeptComplete | conversational-AI/app/services/rag_service.py:55 | a filter drops no element that passes the test |
| Python.KeptAll | conversational-AI/app/services/rag_service.py:55 | a filter keeps the full length exactly when every element passes |
| Python.JoinPiece | conversational-AI/app/services/rag_service.py:75-77 | piece i of `sep.join(xs)` sits at its own offset, after all earlier pieces and separators |
| Python.JoinSeparator | conversational-AI/app/services/rag_service.py:75-77 | the separator immediately follows every piece but the last |
| Python.JoinLength | conversational-AI/app/services/rag_service.py:75-77 | the join ends where its last piece ends, so it holds nothing beyond pieces and separators |
| Python.NatToString | conversational-AI/app/services/weather_service.py:45 | `str(n)` is a non-empty string of decimal digits with no leading zero whose decimal value is n |
| Python.IntToString | conversational-AI/app/services/weather_service.py:36 | `str(n)` of a negative int is a minus sign followed by the digits of -n |
| Json.Contains | conversational-AI/app/services/weather_service.py:56-82 | `key in data` raises TypeError exactly when the value is neither dict, list nor str |
| Json.Index | conversational-AI/app/services/weather_service.py:63-89 | `data[key]` succeeds exactly when the value is a dict holding the key; otherwise KeyError for a dict, TypeError for anything else |
| Json.IndexFirst | conversational-AI/app/services/weather_service.py:83 | `v[0]` succeeds exactly on a non-empty list or str |
| Json.AbsentKeyRaises | conversational-AI/app/services/weather_service.py:82-83 | once `key in v` is false, `v[key]` raises |
| ProcessDocuments.Window | conversational-AI/app/services/process_documents.py:62 | a slice taken inside the text is non-empty and at most `chunk_size` long |
| ProcessDocuments.WindowsAtOffsets | conversational-AI/app/services/process_documents.py:61-62 | one window per offset of `range(start, len(text), chunk_size)`, window j being the slice at the j-th offset |
| ProcessDocuments.WindowsCover | conversational-AI/app/services/process_documents.py:61-62 | concatenated, the windows give back the text from `start`: nothing skipped, nothing repeated |
| ProcessDocuments.ChunksOfWindows | conversational-AI/app/services/process_documents.py:62-64 | the chunks are the stripped non-blank windows, in order, all tagged with the page |
| ProcessDocuments.PageChunks | conversational-AI/app/services/process_documents.py:61-64 | every chunk of a page carries the page number, is non-empty, is at most `chunk_size` long and is a stripped aligned window; there are at most ceil(L/chunk_size) chunks, exactly that many iff no window strips to empty |
| ProcessDocuments.PageChunksOrigin | conversational-AI/app/services/process_documents.py:61-64 | chunk j is the stripped window at an offset that is a multiple of `chunk_size` inside the text; the offsets strictly increase |
| ProcessDocuments.ChunkOffsetsComplete | conversational-AI/app/services/process_documents.py:61-64 | every window that does not strip to nothing is represented by a chunk |
| ProcessDocuments.AllWindowsKept | conversational-AI/app/services/process_documents.py:61-64 | if every window the loop visits is non-blank, then no `chunk_size`-aligned window of the text strips to empty |
| ProcessDocuments.NoBlankWindowKeepsAll | conversational-AI/app/services/process_documents.py:61-64 | conversely, if no aligned window of the text strips to empty, every window the loop visits is non-blank |
| ProcessDocuments.StrippedWindowInText | conversational-AI/app/services/process_documents.py:62 | a stripped window is a substring of its page |
| ProcessDocuments.SplitPagesFrom | conversational-AI/app/services/process_documents.py:57-64 | `range` with step 0 raises ValueError exactly when a page with text is reached; a negative step yields no chunks; chunks come only from pages with text, with bounded non-empty content, and page numbers never decrease |
| ProcessDocuments.SplitPdfIntoChunks | conversational-AI/app/services/process_documents.py:53-65 | an unreadable file raises; otherwise every chunk's page has text, the content is non-empty, at most `chunk_size` long and a substring of that page, and chunks are ordered by page; for a positive `chunk_size` the call returns and the chunks of each page q are exactly the page chunker's output for page q's text (nothing for a page without text) |
| ProcessDocuments.SplitPagesOccur | conversational-AI/app/services/process_documents.py:57-64 | every chunk of the document is a substring of the text of the page it is tagged with |
| ProcessDocuments.SplitPagesPerPage | conversational-AI/app/services/process_documents.py:57-64 | for a positive `chunk_size` the page loop returns, and for every page its chunks are exactly the page chunker's output |
| ProcessDocuments.SplitPdfIntoChunksDefault | conversational-AI/app/services/process_documents.py:53-65 | with the default `chunk_size` of 500 only an unreadable file raises; every chunk belongs to a page of the document, is non-empty and at most 500 characters, chunks are in page order, and the chunks of page q are exactly the page chunker's 500-character output for that page |
| ProcessDocuments.SplitPerPage | conversational-AI/app/services/process_documents.py:57-64 | the document's chunks tagged with page q are exactly the page chunker's output for page q's text, and nothing for a page with no text |
| ProcessDocuments.StoreChunksInChromadb | conversational-AI/app/services/process_documents.py:77-84 | appends exactly min(len(chunks), len(embeddings)) records, the i-th carrying chunk i's content and page number, embedding i and the i-th fresh id; earlier records are untouched and ids stay distinct |
| VectorStore.Add | conversational-AI/app/services/process_documents.py:79-84 | one add puts the record after all existing ones and changes nothing else |
| VectorStore.AppendFreshKeepsDistinct | conversational-AI/app/services/process_documents.py:83 | records added with pairwise different ids unused in the collection keep all ids distinct |
| WeatherService.SelectRequest | conversational-AI/app/services/weather_service.py:29-40 | history iff `date` is truthy; forecast iff `date` is falsy and `forecast_days` is truthy (non-zero); current otherwise |
| WeatherService.WeatherUrl | conversational-AI/app/services/weather_service.py:26-40 | the exact URL of each branch: `history.json` with `dt=date`, `forecast.json` with `days=str(forecast_days)`, `current.json` with only key and `q=lat,lon` |
| WeatherService.DateOverridesDays | conversational-AI/app/services/weather_service.py:29-36 | with a truthy `date`, `forecast_days` does not affect the URL |
| WeatherService.FalsyMeansCurrent | conversational-AI/app/services/weather_service.py:29-40 | an empty date and zero forecast days ask for the current weather, like absent arguments |
| WeatherService.FetchWeatherData | conversational-AI/app/services/weather_service.py:42-50 | non-200 gives the status error object with the body text as details; a 200 with an unparseable body gives the parse error object; otherwise the decoded body |
| WeatherService.RateLimitedPayload | conversational-AI/app/services/weather_service.py:44-45 | a 503 with body `rate limited` gives `{"error": "API request failed with status code 503", "details": "rate limited"}` |
| WeatherService.CurrentShape | conversational-AI/app/services/weather_service.py:59-67 | the current shape has exactly the six keys and echoes latitude and longitude; it succeeds iff `current`, `current.temp_c`, `current.condition.text`, `current.humidity` and `current.wind_kph` can all be read, and then `temperature_c`, `condition`, `humidity` and `wind_kph` are exactly those values |
| WeatherService.ForecastDay | conversational-AI/app/services/weather_service.py:74-78 | each forecast entry has exactly date, temperature and condition; it succeeds iff `date`, `day.avgtemp_c` and `day.condition.text` can all be read, and then the entry copies `date`, takes `temperature_c` from `day.avgtemp_c` and `condition` from `day.condition.text` |
| WeatherService.ForecastDaysFrom | conversational-AI/app/services/weather_service.py:73-80 | the comprehension succeeds iff every day has the fields read, then gives one entry per day in order; otherwise the error of a failing day |
| WeatherService.IterateForecast | conversational-AI/app/services/weather_service.py:69-80 | iterating a list gives one entry per element, each the reshaped element; a non-list succeeds exactly when it is an empty dict or empty string (giving no entries), and otherwise raises TypeError |
| WeatherService.ForecastShape | conversational-AI/app/services/weather_service.py:68-81 | the forecast shape has exactly latitude, longitude and a list-valued forecast; it returns iff `data["forecast"]["forecastday"]` can be read and iterated, and then `forecast` is exactly the list of reshaped days |
| WeatherService.ForecastOnePerDay | conversational-AI/app/services/weather_service.py:68-81 | over a `forecastday` list the branch returns iff every day is well formed, with one entry per day, in order, each exactly that day's reshaped entry (its date, average temperature and condition text) |
| WeatherService.HistoryNeverReturns | conversational-AI/app/services/weather_service.py:82-83 | when `"forecast" in data` is false the history branch raises |
| WeatherService.NormalizeWeather | conversational-AI/app/services/weather_service.py:54-92 | an `error` payload is returned unchanged; a non-container raises TypeError; with `current` present the result is exactly the current shape, otherwise with `forecast` present exactly the forecast shape; the history branch never returns; no known key gives the unexpected-format error; every other result echoes the coordinates |
| WeatherService.GetWeatherResponse | conversational-AI/app/services/weather_service.py:52-57 | a non-200 response or an unparseable body reaches the caller as exactly its error object; a 200 response with a parsed body gives exactly the reshaped body |
| RagService.TruthyTextsFrom | conversational-AI/app/services/rag_service.py:55 | the truthy page texts, in page order, as the filter picks them |
| RagService.ExtractTextFromPdf | conversational-AI/app/services/rag_service.py:52-59 | a reader failure gives no texts; otherwise exactly the pages with non-empty text, in page order, all non-empty |
| RagService.ExtractKeepsEveryText | conversational-AI/app/services/rag_service.py:55 | every page text that is non-empty is returned, and nothing is dropped iff every page has text |
| RagService.AddTexts | conversational-AI/app/services/rag_service.py:67-69 | one record per text, in order, with the i-th fresh id and no metadata; earlier records untouched; ids stay distinct |
| RagService.StoreDocumentInChroma | conversational-AI/app/services/rag_service.py:61-70 | no extracted text leaves the collection unchanged; otherwise one record per extracted page text, in order |
| RagService.GetRelevantExcerpts | conversational-AI/app/services/rag_service.py:72-81 | a search failure and an empty result give `""`; a single result is returned unchanged |
| RagService.Top | conversational-AI/app/services/rag_service.py:76 | at most the first three results, in the search's order |
| RagService.ExcerptPiece | conversational-AI/app/services/rag_service.py:75-77 | each of the top results appears in the block at its own offset, in the search's order |
| RagService.ExcerptSeparatorAfter | conversational-AI/app/services/rag_service.py:75 | the dashed separator follows every top result but the last |
| RagService.ExcerptsEnd | conversational-AI/app/services/rag_service.py:75-77 | the block ends with the last top result |
| RagService.ExcerptsStartWithBest | conversational-AI/app/services/rag_service.py:75-77 | the block begins with the best match |
| RagService.ExcerptsIgnoreTail | conversational-AI/app/services/rag_service.py:76 | results after the third do not change the block |
| RagService.ExcerptsEmptyIff | conversational-AI/app/services/rag_service.py:72-81 | the block is empty exactly when the search raised, found nothing, or its only top result is empty |
| RagService.UserMessageParts | conversational-AI/app/services/rag_service.py:94 | the user message is `User Question: `, the question, the excerpts heading and the excerpts, each readable back at a fixed offset |
| RagService.BuildRequest | conversational-AI/app/services/rag_service.py:84-97 | the request holds the system prompt, then the user message, and names `llama-3.3-70b-versatile` |
| RagService.GenerateResponse | conversational-AI/app/services/rag_service.py:88-102 | the first choice's content is returned; a raised exception or an empty choice list gives the fixed fallback text |

## Left out

- `embed_chunks` and the ingestion run at import time (process_documents.py:67-74, 87-90) are not modelled. They call the embedding service, and embeddings are opaque values here. As written, `embed_chunks` returns only the first vector, so the module-level call pairs chunks with single floats. That pairing is not modelled.
- The SQLAlchemy models and the database and collection creation at import time (process_documents.py:13-51) are left out: they are declarations with no behaviour.
- `json.dumps` and `json.loads` are left out. The weather functions return the JSON value rather than its serialised text, so key order and number formatting are not modelled. Numbers are kept as opaque literals, and no arithmetic is done on the float fields.
- Exceptions from `requests.get`, such as connection errors or timeouts, are left out: the HTTP oracle always returns a response.
- Latitude, longitude and `date` are strings, and `forecast_days` is an int. Other Python values that a tool call could pass, such as `None` coordinates or float days, are not modelled.
- The PDF reader is modelled as a per-page result or one failure for the whole file. A failure partway through a document counts as a failure of the whole read, which is what both callers effectively see.
- Similarity ranking, embedding inside the store, and Chroma's id checks are left out. The search result is an input, and ids are assumed fresh through `FreshDraws`; `uuid4` collisions are not modelled.
- `print` calls and log messages are left out.
- `run_conversation`, the RAG `main` loop, `initialize_clients`, `classify_message.py`, `main.py`, `routes.py` and `models.py` are left out. They are external-service orchestration, console I/O and filesystem plumbing, and the HTTP handlers call the service functions with the wrong number of arguments.
- RagService.GetRelevantExcerpts: the layout of two or three results is stated by `ExcerptPiece`, `ExcerptSeparatorAfter` and `ExcerptsEnd`, not by this member's own contract.

