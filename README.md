# Suape company-map extraction loop, in Dafny

`extracao-v1.py` opens the Suape "mapa de empresas" page in a browser and walks
over every `div.empresa` block. For each block it builds one company record:

- `Nome`: the stripped text of the `.titulo-empresa h3` title;
- `Atividade` and `Polo`: taken from the block's paragraphs;
- `Coordenadas`: the `data-lat` / `data-long` attributes of the
  `a.empresa-mapa` anchor.

A block whose title or anchor cannot be found raises inside the `try`. The
script prints an error with the block's 1-based number, skips the block and
carries on.

This project models that loop. The page is replaced by values. A `Block` holds
its title text (absent when the lookup raises), its paragraph texts in
document order, and its anchor (absent when the lookup raises). The anchor's
attributes are optional strings. Files:

- `PyStr.dfy` (module `PyStr`) models the three Python string operations the
  loop uses. `Strip` is `str.strip()`, with Python's full `isspace` set.
  `Contains` is `pat in s`. `RemoveAll` is `s.replace(pat, "")`: one
  left-to-right pass deleting non-overlapping occurrences.
- `Extracao.dfy` (module `Extracao`) holds the data model and the
  specification functions. `BlockRecord` gives the record of one block,
  `LastField` the value the paragraph loop leaves in a field, `Records` the
  `empresas` list after a prefix of the blocks, and `FailedPositions` the
  numbers of the reported blocks. It also holds `ExtractEmpresas`, the block
  loop itself, with the nested paragraph loop. `ExtractEmpresas` is proved
  against those functions. The lemmas state what the loop promises.

The repository also holds a later script, `extracao(v1).py`, whose
`_parse_empresas_from_soup` does the same work differently. Where the two
differ, the model follows `extracao-v1.py`:

- Paragraphs are classified by substring containment (extracao-v1.py:54, 56),
  not by the `startswith` test of extracao(v1).py:121, 123.
- A missing activity or cluster is `None` (extracao-v1.py:52), not the empty
  string that extracao(v1).py:118 starts from.
- The coordinates are the attribute strings as they are (extracao-v1.py:61-62).
  There is no decimal comma to point conversion and no `float` parsing as at
  extracao(v1).py:126-127, and no GeoJSON feature as built at
  extracao(v1).py:103-108.

A block whose stripped title is empty still yields a record.

The browser / HTTP / offline fallback pipeline of `extracao(v1).py` is not
part of this model.

## Model

| member | source | states |
|---|---|---|
| Extracao.FieldValue | extracao-v1.py:55-57 | definition of `text.replace(key, "").strip()`; characterised by `FieldValueOfLabelled` and `MarkerWithoutSpaceKept` and by the `Strip` and `RemoveAll` lemmas |
| Extracao.LastField | extracao-v1.py:52-57 | definition of what the paragraph loop leaves in a field that starts as None; characterised by `LastFieldNoneIff` and `LastFieldPicksLast` |
| Extracao.BlockRecord | extracao-v1.py:48-74 | definition of the record one block's `try` body builds, None when a lookup raises; characterised by `MissingLookupSkipsBlock`, `RecordFields` and `LabelledBlock` |
| Extracao.Succeeds | extracao-v1.py:48-60 | definition of the `try` body running to its end: both `find_element` lookups find their element; characterised by `MissingLookupSkipsBlock` |
| Extracao.SucceededIndices | extracao-v1.py:47-74 | definition of the reference list of 0-based indices of the blocks that yield a record; characterised by `SucceededIndicesExact` and used by `RecordsInBlockOrder` |
| Extracao.Records | extracao-v1.py:40-66 | definition of the `empresas` list after a prefix of the blocks; characterised by `RecordsInBlockOrder`, `RecordsAppend` and `Accounting` |
| Extracao.FailedPositions | extracao-v1.py:78-79 | definition of the 1-based block numbers the error line prints; characterised by `FailedPositionsExact` and `Accounting` |
| PyStr.Contains | extracao-v1.py:54-56 | definition of `pat in s`: `pat` occurs at some position; used by `ContainsAtStart`, `RemoveAllAbsent` and `LastFieldNoneIff` |
| PyStr.IsSpace | extracao-v1.py:49 | definition of the whitespace set `strip()` removes, Python's `isspace`; used by `LeadingSpace`, `TrailingSpace` and `Strip` |
| Extracao.ExtractEmpresas | extracao-v1.py:40-79 | the loop's `empresas` list is `Records(blocos)`; the numbers it reports are `FailedPositions(blocos)`; the two lengths add up to the number of blocks, so at most one record per block |
| Extracao.Accounting | extracao-v1.py:47-79 | every block either adds one record or is reported, never both: record count plus report count equals block count |
| Extracao.FailedPositionsExact | extracao-v1.py:47-79 | a 1-based number is reported exactly when it names a block whose title or anchor is missing |
| Extracao.RecordsInBlockOrder | extracao-v1.py:47-74 | the k-th record is the record of the k-th succeeding block; there is one record per succeeding block |
| Extracao.SucceededIndicesExact | extracao-v1.py:47-74 | the indices of the succeeding blocks are strictly increasing and are exactly the blocks whose title and anchor are both present |
| Extracao.RecordsAppend | extracao-v1.py:47-66 | the records of a concatenation of block lists are the records of the first part followed by those of the second |
| Extracao.RecordsOfOne | extracao-v1.py:48-79 | a single block yields its record when its lookups succeed, and nothing otherwise |
| Extracao.SkippedBlockContributesNothing | extracao-v1.py:48-79 | a block with no title or no anchor adds nothing; the blocks before it keep their records and the blocks after it are still processed |
| Extracao.MissingLookupSkipsBlock | extracao-v1.py:48-78 | a block yields no record if and only if its title or its anchor lookup fails |
| Extracao.RecordFields | extracao-v1.py:49-74 | for a block whose lookups succeed, `Nome` is the title with its surrounding whitespace cut and is already stripped; `lat`/`lng` are the `data-lat`/`data-long` values unchanged, absent ones included; `Atividade`/`Polo` are None exactly when no paragraph contains `"Atividade:"`/`"Polo:"` |
| Extracao.LastFieldNoneIff | extracao-v1.py:52-57 | a field left by the paragraph loop is None if and only if no paragraph contains its marker |
| Extracao.LastFieldPicksLast | extracao-v1.py:53-57 | when several paragraphs contain the marker, the field is the cleaned text of the last one |
| Extracao.BothMarkersOneParagraph | extracao-v1.py:54-57 | the two tests are independent `if`s: a last paragraph containing both markers sets both fields from its own text |
| Extracao.FieldValueOfLabelled | extracao-v1.py:55-57 | a paragraph `"Atividade: " + v` (or `"Polo: " + v`) with no further key in `v` yields `v` stripped |
| Extracao.MarkerWithoutKeyKept | extracao-v1.py:54-55 | any paragraph containing `"Atividade:"` but not `"Atividade: "` is classified as an activity and its value is the whole paragraph stripped |
| Extracao.StitchedKeySurvives | extracao-v1.py:55-57 | for any key whose second and third characters differ from its first, the paragraph `key[..2] + key + key[2..] + v` (with no key in `key[2..] + v`) yields `Strip(key + v)`, and `key + v` still contains the key: one-pass `replace` can leave the key in a value |
| Extracao.ValueKeepsLabel | extracao-v1.py:55 | the paragraph `"AtAtividade: ividade: X"` yields the activity `"Atividade: X"`, which still contains the deleted key: the one-pass `replace` reaches the field value |
| Extracao.MarkerWithoutSpaceKept | extracao-v1.py:54-55 | the paragraph `"Atividade:X"` counts as an activity, and since only `"Atividade: "` (with the space) is deleted, its value keeps the marker |
| Extracao.LabelledBlock | extracao-v1.py:47-74 | a block with an activity paragraph then a cluster paragraph, each starting with its key, where neither value contains its own key again and the cluster paragraph does not contain `"Atividade:"`, yields the stripped title, the two stripped values and the anchor's attribute strings |
| PyStr.LeadingSpace | extracao-v1.py:49 | the result is the length of the longest all-whitespace prefix: all before it is whitespace and the character at it is not |
| PyStr.TrailingSpace | extracao-v1.py:49 | the result is the length of the longest all-whitespace suffix |
| PyStr.Strip | extracao-v1.py:49-57 | the result is a slice of the input; only whitespace lies outside the slice; the result neither starts nor ends with whitespace |
| PyStr.StripUnique | extracao-v1.py:49-57 | any string with those properties, cut out at any position, is the result of `Strip` |
| PyStr.StripIdempotent | extracao-v1.py:49 | stripping twice is the same as stripping once |
| PyStr.StripEmptyIff | extracao-v1.py:49-57 | stripping gives the empty string if and only if the input is all whitespace |
| PyStr.StripKeepsTrimmed | extracao-v1.py:49 | a non-empty string with no whitespace at either end is unchanged |
| PyStr.ContainsAtStart | extracao-v1.py:54-56 | `pat in pat + t` holds |
| PyStr.RemoveAll | extracao-v1.py:55-57 | deleting never makes a string longer |
| PyStr.RemoveAllAbsent | extracao-v1.py:55-57 | deleting a pattern that does not occur leaves the string unchanged |
| PyStr.RemoveAllLeading | extracao-v1.py:55-57 | a leading occurrence is deleted, and a rest with no further occurrence is kept whole |
| PyStr.RemoveAllSkip | extracao-v1.py:55-57 | when no occurrence starts at the first character, that character is kept and the scan goes on from the next one |
| PyStr.RemoveAllFirst | extracao-v1.py:55-57 | the general step of `replace(pat, "")`: all text before the first occurrence is kept, that occurrence is deleted, and the deletion goes on in the text after it; with `RemoveAllAbsent` this determines the result for every input |
| PyStr.RemoveAllSinglePass | extracao-v1.py:55-57 | deletion is one pass: an occurrence stitched together by deleting another one survives, so the result of `replace` can still contain `pat` |

## Left out

- Building the Chrome driver, its options and the anti-detection script
  (extracao-v1.py:9-28): calls into a browser driver whose behaviour is not
  visible.
- Loading the page, the half-page scroll and every randomized `time.sleep`
  (extracao-v1.py:30-37, 76): network, timing and randomness that do not
  affect the records.
- `find_elements`, `find_element`, `.text` and `get_attribute`: their results
  are the fields of `Block`. A lookup that raises is an absent field. Such a
  failure cannot arise from the paragraph list, which is always a list.
- The progress line printed per record (extracao-v1.py:64), the count line
  (extracao-v1.py:45) and the final message (extracao-v1.py:85): console
  output only. The text of the error message (extracao-v1.py:79) is left out
  too. Only the block number it carries is kept, as `falhas`.
- `json.dump` of `empresas` to `empresas_suape.json` and `driver.quit()`
  (extracao-v1.py:82-83, 87): file I/O and library serialisation. The model
  stops at the in-memory `empresas` list.
- Exceptions other than a failed element lookup, such as a stale element or
  a lost browser session: they come from the browser and are not modelled.
- PyStr.RemoveAll: models `replace` only with a non-empty pattern. An empty
  pattern inserts text in Python, and the two patterns the loop uses are both
  non-empty.
