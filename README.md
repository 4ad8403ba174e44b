# UFEDKMLmerge, modelled in Dafny

UFEDKMLmerge merges KML files exported from Cellebrite UFED into one KML
document and writes a summary report. This project models the sequential
logic of `UFEDKMLmerge.py` once the XML library, the thread pool, the file
system and the clock are taken out. The model has five parts.

- **strings.dfy** (`Strings`): the Python string operations the script
  uses, restricted to ASCII. These are `strip`, `lower`, `isdigit` with
  `int()`, `split(',')` with its inverse `join`, `endswith`, zero padding
  as `strftime` does it. To state how the output names sort, it also has
  the code-point order of Python's `<` on strings; the script itself never
  compares names.
- **kml.dfy** (`Kml`): the `{http://www.opengis.net/kml/2.2}Placemark`
  tag, the 10 MiB `LARGE_FILE_THRESHOLD` that picks the streaming or the
  whole-document parse, `count_placemarks_in_file`, and the `.kml` filter
  of `list_kml_files`.
- **selection.dfy** (`Selection`): one answer at the prompt of
  `get_user_selection`. It becomes one of four outcomes: `Exit`, `Invalid`,
  `TooFew`, or `Selected(files)`.
- **output.dfy** (`Output`): the `%Y%m%d%H%M%S` stamp, the names
  `<stamp>_Merged.kml` and `Analysis_<stamp>.xlsx`, and the report rows.
- **merge.dfy** (`Merge`): `merge_kml_files`. Each task result is folded
  into a `MergedDocument` object, whose `children` and `placemarkCount`
  are updated in place, in the order the parse jobs complete. The outcome is
  then either the written file and its report, or "nothing merged".

A placemark is an opaque type parameter `P`. The result of one parse task
is `Failed` (`None` returned, or an exception raised) or `Parsed(placemarks)`.
The completion order of `as_completed` is an index sequence that is a
permutation of the submission order.

Two behaviours of the code shape the model:

- The streaming path of `parse_kml_file` clears each node right after
  appending it (line 169). The model therefore says nothing about node
  content, and it does not relate the two parse strategies: a parse result
  is taken as given.
- Duplicate selections such as `1,1` are kept. The futures dictionary is keyed
  by future (line 190), so such a file is parsed and merged twice, and the
  model does the same.

## Model

| member | source | states |
|---|---|---|
| `Strings.Strip` | UFEDKMLmerge.py:118 | `strip()` never lengthens its input, and what it returns neither starts nor ends with whitespace; `StripSpec` and `StripSurrounded` pin it down |
| `Strings.StripSpec` | UFEDKMLmerge.py:118 | `strip()` keeps an infix of its input with only whitespace around it, and neither end of what it keeps is whitespace |
| `Strings.StripSurrounded` | UFEDKMLmerge.py:130 | stripping whitespace-only padding around a string that has no whitespace at its ends gives back exactly that string |
| `Strings.Lower` | UFEDKMLmerge.py:118 | `lower()` keeps the length and lowers each character where it stands |
| `Strings.Split` | UFEDKMLmerge.py:129 | `split(',')` always yields at least one piece, and no piece contains a comma |
| `Strings.JoinSplit` | UFEDKMLmerge.py:129 | joining the pieces of `split(',')` with commas gives back the input |
| `Strings.SplitJoin` | UFEDKMLmerge.py:129 | splitting comma-joined, comma-free pieces gives back exactly those pieces |
| `Strings.DigitsValue` | UFEDKMLmerge.py:131 | `int()` of a token that `isdigit()` accepts (`IsDigits`: non-empty, all ASCII digits) is less than 10 to the power of its width; the 4300-digit limit of current CPython's `int()` is not modelled |
| `Strings.LeadingZeros` | UFEDKMLmerge.py:131 | leading zeros do not change the value `int()` reads, so `01` names file 1 |
| `Strings.Pad` | UFEDKMLmerge.py:206 | a zero-padded field is all digits, reads back as the number it encodes, and has the requested width unless the number needs more digits |
| `Strings.EndsWithIff` | UFEDKMLmerge.py:73 | `endswith(suffix)` holds exactly when the name is some string followed by `suffix` |
| `Kml.ChooseStrategy` | UFEDKMLmerge.py:162 | streaming is chosen if and only if the size is strictly greater than the threshold |
| `Kml.ThresholdBoundary` | UFEDKMLmerge.py:21 | the threshold is 10485760 bytes; a file of exactly 10 MiB is parsed whole and one byte more is streamed |
| `Kml.CountPlacemarksInFile` | UFEDKMLmerge.py:95-103 | the count is the number of end events for the Placemark tag, or 0 when parsing raised an error |
| `Kml.ListKmlFiles` | UFEDKMLmerge.py:73-77 | a name is listed exactly when it is a directory entry ending in `.kml` (case-sensitive), so the empty list on which the script exits means no entry ends in `.kml` |
| `Kml.ListKmlFilesConcat` | UFEDKMLmerge.py:73 | the filter keeps directory order: filtering a concatenation gives the concatenation of the filtered parts |
| `Selection.Contribution` | UFEDKMLmerge.py:130-132 | one token adds at most one name, and only a listed one; `PickToken` says which |
| `Selection.Pick` | UFEDKMLmerge.py:128-132 | the tokens select no more names than there are tokens, every one of them a listed file; `PickConcat` and `PickEmpty` characterise it further |
| `Selection.Select` | UFEDKMLmerge.py:118-150 | the outcome is `Exit` exactly when the stripped, lowered line is `e`; a returned selection has at least two names, all of them listed files |
| `Selection.GetUserSelection` | UFEDKMLmerge.py:118-150 | the loop that appends one name per valid token computes exactly `Select(input, files)` |
| `Selection.PickConcat` | UFEDKMLmerge.py:128-132 | selection goes token by token: a concatenation of tokens selects the concatenation of what the parts select, so input order and duplicates are kept |
| `Selection.PickToken` | UFEDKMLmerge.py:130-132 | a token adds `files[k-1]` exactly when, once stripped, it is all digits spelling some `k` in `1..n`; any other token adds nothing |
| `Selection.PickEmpty` | UFEDKMLmerge.py:133-134 | nothing is selected exactly when no token is valid |
| `Selection.EmptyInputSelectsAll` | UFEDKMLmerge.py:123-125 | an answer that is empty after stripping selects every listed file, in listing order; with fewer than two files the outcome is `TooFew` |
| `Selection.InvalidIff` | UFEDKMLmerge.py:127-138 | the outcome is `Invalid` exactly when the line is neither `e` nor empty and none of its comma-separated tokens is valid |
| `Selection.TooFewIff` | UFEDKMLmerge.py:141-147 | the outcome is `TooFew` exactly when the line is empty and fewer than two files are listed, or the line's valid tokens select at least one file but fewer than two |
| `Selection.SelectedIff` | UFEDKMLmerge.py:127-150 | for a line that is neither `e` nor empty, the outcome is `Selected` exactly when its tokens pick at least two files, and it then holds exactly the picked files, in token order |
| `Selection.TwoNumbers` | UFEDKMLmerge.py:129-132 | typing `j,k` with both in range selects `[files[j-1], files[k-1]]`, the same file twice when `j == k` |
| `Output.Stamp` | UFEDKMLmerge.py:206 | the `%Y%m%d%H%M%S` stamp written at lines 206 and 228 is all digits and at least 14 long; `StampWidth`, `StampRoundTrip` and `StampOrder` say more |
| `Output.MergedFileName` | UFEDKMLmerge.py:206 | the merged file name ends in `_Merged.kml` |
| `Output.AnalysisFileName` | UFEDKMLmerge.py:228 | the report name starts with `Analysis_` and ends in `.xlsx` |
| `Output.StampWidth` | UFEDKMLmerge.py:206 | for years 1000-9999, the stamp is exactly 14 digits |
| `Output.StampRoundTrip` | UFEDKMLmerge.py:206 | all six fields can be read back from the stamp, so the stamp determines the clock reading |
| `Output.StampOrder` | UFEDKMLmerge.py:206 | stamps compare as strings exactly as their clock readings compare field by field, from the year down to the second |
| `Output.MergedNamesSortChronologically` | UFEDKMLmerge.py:206 | one merged file name sorts before another exactly when it was stamped with an earlier clock reading |
| `Output.AnalysisNamesSortChronologically` | UFEDKMLmerge.py:228 | the same holds for report names |
| `Output.AnalysisRows` | UFEDKMLmerge.py:229-231 | the report has one row per selected file, in selection order, failed files included, and every row carries the same total |
| `Merge.Successful` | UFEDKMLmerge.py:193-198 | the Document's children are the placemarks of the parsed sources, one source after another, and there are exactly `Total` of them, the final `placemark_count`; failed sources add 0 |
| `Merge.TotalPermutation` | UFEDKMLmerge.py:191 | any two orders over the same indices give the same total |
| `Merge.TotalOrderIndependent` | UFEDKMLmerge.py:189-191 | the total is the same for every completion order |
| `Merge.SuccessfulNonEmpty` | UFEDKMLmerge.py:205 | something is merged exactly when some source parsed with at least one placemark |
| `Merge.NothingLost` | UFEDKMLmerge.py:193-203 | every placemark of every parsed source is in the merge, whatever the other sources did |
| `Merge.NothingLostInCompletionOrder` | UFEDKMLmerge.py:189-198 | the same holds for the document as the script builds it, in completion order: a failed sibling never drops a parsed source's placemarks |
| `Merge.MergedDocument.constructor` | UFEDKMLmerge.py:185-187 | the Document starts with no children and a count of 0 |
| `Merge.MergedDocument.Extend` | UFEDKMLmerge.py:197-198 | the new placemarks go after the old children and none is removed; the count grows by their number, so it always equals the number of children |
| `Merge.MergeKmlFiles` | UFEDKMLmerge.py:185-219 | a file is written exactly when the total is positive. It then holds the parsed sources' placemarks in completion order, as many as the total, and is named from the first clock reading. The report is named from the second reading and lists every selected file with that total. Otherwise nothing is merged. |

## Left out

- XML parsing and serialisation by lxml (`iterparse`, `parse`, `findall`, `tostring`) are library calls. A parse task's result enters the model as a value. `count_placemarks_in_file` takes as input the end events that `iterparse` reaches.
- `elem.clear()` in the streaming path changes node content, which the model does not represent. The model does not relate the two parse strategies either: a parse result is taken as given, whichever strategy produced it.
- The thread pool and `as_completed` are concurrency. They become a sequential loop over a given completion order.
- `parse_kml_file`: the model captures only the choice between the two strategies. The file size is a parameter, because `os.path.getsize` is file I/O.
- File and console I/O is not modelled: `os.listdir`, `open`/`write`, the pandas Excel writer, logging, `clear_screen`, `display_countdown`, `print`, `sys.exit`, and the loops in `main` and `get_user_selection` that prompt again.
- `get_user_selection` is modelled for one answer. Reading the line, re-prompting and re-listing the files are I/O.
- The clock: `datetime.now()` is called twice (lines 206 and 228). The two readings are two parameters, which may differ.
- The `File Size (MB)` report column and the MB figures in the listing are floating point on file I/O, so they are not modelled.
- The placemark counts and sizes that `list_kml_files` shows next to each name are display only. The model keeps only the `.kml` filter of that function.
- Unicode: `strip`, `lower` and `isdigit` are modelled on ASCII only.
- Selection.Select: a token for which `isdigit` holds but `int()` raises is not modelled. Such a token is made of other Unicode digits, or, on current CPython, of more than 4300 ASCII digits (the integer string conversion limit). The source catches the `ValueError` at line 135 and reports an invalid selection. The model reads every ASCII digit string as its number, so for an answer such as `1,2,1` followed by 4300 zeros it returns `Selected` where the source asks again. The same holds for `Selection.GetUserSelection`.
- Output.Stamp: `%Y` is modelled as padded to four digits. For years below 1000, whether the C library pads is platform-dependent, so the 14-digit and ordering lemmas require a four-digit year.
- The clock is local time: `datetime.now()` returns a naive local reading, so after a daylight-saving change a later run can get an earlier reading. The ordering lemmas compare readings, not instants.
