# YouTube channel ETL: a Dafny model of its record and file-name logic

The job fetches one page of a channel's search results from the YouTube
Data API, keeps only the video results as records `{title, description,
video_url}`, rewrites `&amp;` to `&` in every description in place, saves
the records to `youtube_data_<YYYYMMDD_HHMMSS>.csv` and uploads that file to
an S3 bucket under the same name. When no video comes back, nothing is
transformed, saved or uploaded.

This project models the deterministic part of that job in Dafny 4:

- `text.dfy`, module `Text`: `ReplaceAll`, which is Python's `str.replace`
  for a non-empty pattern (a left-to-right scan that replaces
  non-overlapping occurrences), and `Count`, which is `str.count`. The lemmas
  give the exact length of the result, show that the scan finds an
  occurrence exactly when one exists, and show that a text without the
  pattern comes back unchanged.
- `videos.dfy`, module `Videos`: the fetch and transform stages.
  - A response item is a value `Item(kind, videoId, title, description)`.
  - A record is a `VideoRecord` object whose fields are updated in place.
    Its value is `VideoInfo`.
  - `GetVideos` is the filter loop of `get_videos_from_channel`. It appends
    one fresh record per video item and is proved against the
    specification function `KeepVideos`.
  - `TransformData` is the in-place loop of `transform_data`. It is proved
    against `TransformAll`.
  - `Escape` (each `&` becomes `&amp;`) is the inverse of the rewrite:
    `UnescapeEscape` proves that `Unescape` undoes it for every text.
- `export.dfy`, module `Export`: the output file name
  `f"{filename.replace('.csv', '')}_{timestamp}.csv"`. The timestamp is
  `strftime("%Y%m%d_%H%M%S")` of a clock reading that the model takes as a
  parameter. `ParseStamp` reads a timestamp back, and the two form a proved
  round trip.
- `etl.dfy`, module `Etl`: `run_etl_process`. `RunEtl` lists the stage
  effects (transform, save, upload) a run performs, in order. The method
  `RunEtlProcess` composes the imperative stages and is proved to perform
  exactly those effects.

`filename.replace('.csv', '')` (`youtube_etl.py:72`) removes every
occurrence of `.csv`, not only a trailing one:

- `Export.InteriorCsvRemoved` shows an interior occurrence being removed.
- `Export.StripCsvSinglePass` shows that the single pass can leave a `.csv`
  that it created itself.

`maxResults` (`youtube_etl.py:44`) is enforced by the API, so no bound on
the record count is stated.

## Model

| member | source | states |
|---|---|---|
| `Text.ReplaceAllLength` | youtube_etl.py:66 | `str.replace` trades `len(pat)` characters for `len(rep)` per replaced occurrence: `len(r) + count*len(pat) == len(s) + count*len(rep)` |
| `Text.CountPositiveIffOccurs` | youtube_etl.py:66 | the left-to-right scan replaces at least one occurrence if and only if the pattern occurs somewhere in the text |
| `Text.ReplaceAllAbsent` | youtube_etl.py:66 | a text with no occurrence of the pattern is returned unchanged |
| `Text.ReplaceAllFixedIff` | youtube_etl.py:66 | when the replacement's length differs from the pattern's, the text is unchanged exactly when the pattern does not occur in it |
| `Text.ReplaceAllShrinks` | youtube_etl.py:66 | a replacement no longer than the pattern never lengthens the text |
| `Text.ReplaceAllPlainPrefix` | youtube_etl.py:66 | a prefix in which no occurrence of the pattern starts is copied to the output unchanged, whatever characters it holds |
| `Text.ReplaceAllFirstMatch` | youtube_etl.py:66 | the first occurrence is the one replaced, whatever text precedes it, and the scan resumes right after it (no overlapping matches) |
| `Videos.KeepVideosAppend` | youtube_etl.py:48-61 | filtering distributes over concatenation, so the kept records keep the relative order of their items |
| `Videos.KeepVideosLength` | youtube_etl.py:49-59 | one record per video item; at most as many records as items; exactly as many records as items iff every item is a video; no record iff no item is a video |
| `Videos.KeepVideosMembers` | youtube_etl.py:51-57 | a value is a record iff some video item has that title and description and has URL `https://www.youtube.com/watch?v=` + its videoId |
| `Videos.DropNonVideo` | youtube_etl.py:58-59 | removing a non-video item from the response leaves the records unchanged |
| `Videos.KeptPlusSkipped` | youtube_etl.py:49-59 | every item is either kept as a record or reported as skipped; the video kind is never reported as skipped |
| `Videos.GetVideos` | youtube_etl.py:48-61 | the loop returns distinct fresh records whose values are `KeepVideos(items)`, and reports the skipped kinds `SkippedKinds(items)` in response order |
| `Videos.VideoRecord.constructor` | youtube_etl.py:52-56 | a new record holds the given title, description and URL |
| `Videos.UnescapeEscape` | youtube_etl.py:66 | rewriting `&amp;` to `&` undoes HTML escaping of the ampersand, for every text |
| `Videos.UnescapeLength` | youtube_etl.py:66 | a description shrinks by exactly 4 characters per rewritten `&amp;`, never grows, and is unchanged iff it contains no `&amp;` |
| `Videos.UnescapeSingle` | youtube_etl.py:66 | one `&amp;` between two stretches of text that hold no `&` becomes a single `&`; the text around it is copied unchanged |
| `Videos.UnescapeRockAndRoll` | youtube_etl.py:66 | `"Rock &amp; Roll"` becomes `"Rock & Roll"` |
| `Videos.UnescapeAfterStrayAmp` | youtube_etl.py:66 | a stray `&` before the first escape does not hide it: `"Q&A &amp;" + t` becomes `"Q&A &" +` the rewrite of `t` |
| `Videos.UnescapeNotIdempotent` | youtube_etl.py:66 | one pass is not idempotent: `"&amp;amp;"` becomes `"&amp;"`, and only a second pass gives `"&"` |
| `Videos.TransformAll` | youtube_etl.py:64-67 | the transformed list has the same length and order; each title and URL is unchanged and each description is its `&amp;`-to-`&` rewrite |
| `Videos.TransformData` | youtube_etl.py:64-67 | returns the same list; each record's description is rewritten in place; titles and URLs are untouched; the new values are `TransformAll` of the old ones |
| `Export.FilenameShape` | youtube_etl.py:72 | the file name ends in `_<timestamp>.csv`; it is 4 characters shorter per `.csv` in the base; it is `base + "_" + timestamp + ".csv"` when the base holds no `.csv` |
| `Export.FilenameInjective` | youtube_etl.py:71-72 | for a fixed base, different timestamps give different file names |
| `Export.DefaultFilename` | youtube_etl.py:70-72 | with the default base `youtube_data.csv` the name is `youtube_data_<timestamp>.csv` |
| `Export.InteriorCsvRemoved` | youtube_etl.py:72 | every `.csv` is removed from the base, not only a trailing one: `old.csvdata.csv` gives `olddata_<timestamp>.csv` |
| `Export.StripCsvSinglePass` | youtube_etl.py:72 | the removal is one pass: `.c.csvsv` becomes `.csv` |
| `Export.Pad` | youtube_etl.py:71 | a zero-padded field of `strftime` has exactly its width, all decimal digits |
| `Export.NumPad` | youtube_etl.py:71 | a zero-padded field reads back as the number it was made from |
| `Export.Stamp` | youtube_etl.py:71 | `%Y%m%d_%H%M%S` is 15 characters: digits everywhere except an underscore at index 8 |
| `Export.StampRoundTrip` | youtube_etl.py:71 | the timestamp determines the clock reading: parsing it gives back every field |
| `Etl.RunEtlSkipsIffNoVideos` | youtube_etl.py:92-99 | a run transforms, saves and uploads nothing if and only if the response holds no video item |
| `Etl.RunEtlStages` | youtube_etl.py:92-99 | with a video present, transform, save and upload each run once, in that order. The saved rows are the transformed records, one per video item. The file is `youtube_data_<timestamp>.csv` and is uploaded under its own name |
| `Etl.RunEtlProcess` | youtube_etl.py:92-99 | the fetch loop followed by the in-place transform performs exactly the effects `RunEtl` describes |

## Left out

- The YouTube client and the `search().list(...).execute()` request
  (`youtube_etl.py:23`, `41-47`) are network calls through an external SDK.
  The response's `items` is the model's input instead. `maxResults` is
  applied by the API, so no bound by `max_results` is stated.
- The S3 client and `upload_file` (`youtube_etl.py:26-37`, `80-89`) are
  foreign SDK calls. The model covers them only as the `Upload(file, key)`
  effect. The `try`/`except` at `youtube_etl.py:83-89` swallows a failure of
  `upload_file` only; the run ends after it either way, so the model has no
  separate upload error path.
- `pd.DataFrame(...).to_csv(...)` (`youtube_etl.py:74-75`) is not modelled.
  The CSV row format, quoting and escaping happen inside pandas. A save is
  the `Save(file, rows)` effect.
- Etl.RunEtl: no stage has an error path. An exception from the request
  (`youtube_etl.py:47`), from `to_csv` (`:75`) or from creating the S3
  client (`:81`, re-raised at `:37`) ends the run, so a failed save is never
  followed by an upload. `RunEtl` lists the effects of a run in which every
  stage succeeds.
- `datetime.datetime.now()` (`youtube_etl.py:71`) is a clock reading, so it
  is a `DateTime` parameter. Only its `strftime` format is modelled.
- `load_dotenv`, `os.getenv`, every `logging` call and the module-level
  invocation (`youtube_etl.py:11-20`, `102-103`) are environment and log
  side effects and are not modelled. The skipped kinds are returned as data
  instead of being logged.
- Text.ReplaceAll: requires a non-empty pattern, so `str.replace` with an
  empty pattern is not modelled. Both uses in the job pass the non-empty
  literals `"&amp;"` and `".csv"`.
- Videos.TransformData: requires the list's records to be distinct objects.
  A Python list that held the same dict twice would rewrite it twice, and
  that case is not modelled. The job's only call passes the fresh records
  built by `GetVideos`, which are distinct.
- Export.Stamp: requires a four-digit year (1000 to 9999). How `%Y` pads
  earlier years depends on the platform.
- Export.StampRoundTrip: stated only for valid clock readings; field ranges do
  not model month lengths.
- Missing keys in a response item (a `KeyError` in the source) and
  non-string field values are not modelled: an `Item` always holds four
  strings.
