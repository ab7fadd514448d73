# EGI MFF event reading, modelled in Dafny

This project models `mne/io/egi/events.py` from MNE-Python. That module reads the event markers of an EGI MFF
recording (a directory of XML files) and turns them into an event matrix. It also merges binary trigger rows
into one trigger channel, and parses the event files written by EGI's Experiment Control Interface (ECI).

The model has these parts:

- `wrappers.dfy` (`Wrappers`): `Option`, and `Result` with the Python exceptions the code can raise
  (`KeyError`, `IndexError`, `ValueError`, `TypeError`, `AttributeError`, `NameError`).
- `pystr.dfy` (`PyStr`): the string operations the module is built from.
  - `str.split` and `str.join` on one character, `_ns`, `str.strip`.
  - Reversal and single replacement, used to drop the last ':' of a timestamp.
  - The slicing of `_ns2py_time`, and `int(str)` with its inverse `str(int)`.
- `collections.dfy` (`Collections`): generic behaviour of Python built-ins the module relies on.
  - Keeping the entries that exist, and `dict.update` pair by pair (the last pair wins).
  - The `if x not in code: code.append(x)` idiom.
  - A list comprehension whose elements may raise (the first exception wins).
- `xml.dfy` (`Xml`): the element tree as a datatype, and Python's `None`/`str`/`list`/`dict` values.
  - `_xml2list` and `_xml2dict` as recursive methods with loops, each proved equal to a specification function.
  - Lemmas on what the output holds.
- `mff_events.dfy` (`MffEvents`): `_read_mff_events` and `_read_events`.
  - The directory walk, the recording start, the marker loop and the grouping by code are methods, each
    proved against a specification function.
  - The header dict `info` is a class whose `n_events` and `event_codes` fields `ReadEvents` sets.
  - The event matrix is an `array2` filled in place.
- `triggers.dfy` (`Triggers`): `_combine_triggers` as a method over a fresh array, proved against a
  specification of the resulting channel.
- `eci.dfy` (`Eci`): `parse_ECI_events_from_xml` as pure functions.
  - The field converters, `parse_key`, the `keys` dict and the list of event dicts.
  - As written, `parse_element` has no key "beginTime" (see Findings); the intended converters sit beside it.

Inputs the module takes from its environment become parameters:

- The directory listing is a sequence of parsed files (`MffEvents.XmlFile`: name and root element).
- `datetime.strptime` becomes a `Clock` / `StampClock` function: from the text handed to it, to a time
  (integer microseconds), or to nothing where `strptime` raises ValueError.
- Times are integers, so `(event_start - start_time).total_seconds() * sfreq` becomes
  `us * sfreq / 1_000_000`, rounded toward zero as `np.fix` does, with an integer `sfreq`.

## Model

| member | source | states |
|---|---|---|
| PyStr.Ns | mne/io/egi/events.py:106-111 | `_ns` as written: split on '}' and join every piece but the first; what that leaves is stated by `NsDropsPrefix` |
| PyStr.NsDropsPrefix | mne/io/egi/events.py:106-111 | `_ns` leaves a tag without '}' unchanged and otherwise returns exactly the text after the first '}' (later '}' kept) |
| PyStr.NsStripsNamespace | mne/io/egi/events.py:106-111 | `_ns("{uri}local") == local` for any uri without '}' |
| PyStr.JoinSplit | mne/io/egi/events.py:108-109 | `sep.join(s.split(sep)) == s` |
| PyStr.SplitAtFirst | mne/io/egi/events.py:108-109 | `s.split(sep)` is the text before the first separator followed by the split of the rest |
| PyStr.Split | mne/io/egi/events.py:108-109 | `s.split(sep)` has at least one piece and no piece contains the separator |
| PyStr.LStrip | mne/io/egi/events.py:98 | `lstrip` removes exactly a whitespace prefix and leaves a non-space first character |
| PyStr.RStrip | mne/io/egi/events.py:98 | `rstrip` removes exactly a whitespace suffix and leaves a non-space last character |
| PyStr.StripEnds | mne/io/egi/events.py:97-99 | `strip()` is empty exactly for all-whitespace text, and otherwise starts and ends with non-whitespace |
| PyStr.ReplaceFirstRemovesFirst | mne/io/egi/events.py:214 | `replace(c, "", 1)` cuts out the first `c` and nothing else, and leaves text without `c` alone |
| PyStr.LastColonDropped | mne/io/egi/events.py:213-215 | `t[::-1].replace(":", "", 1)[::-1]` removes exactly the last ':' of `t` |
| PyStr.DropLastColon | mne/io/egi/events.py:213-215 | the edited `beginTime` text is `t` without its last ':', or `t` when it has none |
| PyStr.SliceCases | mne/io/egi/events.py:145-146 | Python's `s[a:b]` for non-negative bounds, every case: in range it is `s[a..b]`, an end past the length stops at the length, and a start at or past the end or past the length gives "" |
| PyStr.NsTimeText | mne/io/egi/events.py:143-146 | the text `_ns2py_time` parses is `nstime[0:10] + " " + nstime[11:26]`: the date, a space for the 'T', and the time cut after 26 characters |
| PyStr.ParseInt | mne/io/egi/events.py:216-217 | `int(text)` fails only with ValueError, and always fails on blank text |
| PyStr.ParseFormat | mne/io/egi/events.py:216-217 | `int(str(n)) == n` for every integer n |
| Collections.KeepLayout | mne/io/egi/events.py:88-103 | the kept entries are exactly the present ones, in their original order |
| Collections.UpdateKeys | mne/io/egi/events.py:120-139 | updating a dict pair by pair leaves its old keys plus the pairs' keys |
| Collections.UpdateLastWins | mne/io/egi/events.py:120-139 | after `dict.update` pair by pair, a key holds the value of its last pair; untouched keys keep their value |
| Collections.Distinct | mne/io/egi/events.py:62-63 | the `if x not in code: code.append(x)` list has the same members as its input and no duplicates |
| Collections.DistinctOrder | mne/io/egi/events.py:62-63 | the distinct codes appear in the order of their first occurrence |
| Collections.CollectCases | mne/io/egi/events.py:235-241 | a comprehension over raising elements succeeds exactly when all do, with their values in order; otherwise it raises the first element's exception |
| Collections.CollectedDict | mne/io/egi/events.py:223 | `dict(pairs)` has exactly the pairs' keys, and a key holds the value of its last pair |
| Xml.Xml2List | mne/io/egi/events.py:86-103 | the `_xml2list` loop returns exactly the list specification `ListOf` (recursing through `_xml2dict`) |
| Xml.Xml2Dict | mne/io/egi/events.py:114-140 | the `_xml2dict` loop returns exactly the dict specification `DictOf` (recursing through `_xml2list`) |
| Xml.ListItemCases | mne/io/egi/events.py:89-101 | a leaf is dropped exactly when its text is None or blank, else becomes `{ns(tag): stripped text}`; an element with children becomes a dict iff its first and last child tags differ |
| Xml.Xml2ListShape | mne/io/egi/events.py:86-103 | output entry j comes from an increasing child position; exactly the children with children or non-blank text appear; each kept child's entry matches its kind |
| Xml.EntryKeys | mne/io/egi/events.py:124-139 | the keys the children give are their tags without namespace |
| Xml.Xml2DictShape | mne/io/egi/events.py:114-140 | `_xml2dict` has exactly the attribute names and the children's stripped tags as keys; a tag holds its LAST child's entry; an attribute survives unless a child's tag equals it |
| Xml.LastEntry | mne/io/egi/events.py:124-139 | the entry of a child that no later sibling shares a key with is the last pair with that key |
| Xml.DictEntryCases | mne/io/egi/events.py:125-139 | a leaf without attributes gives its raw text or None, a leaf with attributes its attribute dict, an element with children a dict in which its own attributes override nested keys |
| MffEvents.TruncDiv | mne/io/egi/events.py:66 | `int(np.fix(x / d))` rounds toward zero: the quotient times d lies within d of x, on the side of 0 |
| MffEvents.NsToTimeIgnoresZone | mne/io/egi/events.py:143-149 | `_ns2py_time` of a timestamp `date + sep + time + zone` (a 10-character date, a 15-character time) is the date parser's reading of `date + " " + time`: the separator and the UTC offset play no part; ValueError where the parser rejects it, TypeError for a value that is not a string |
| MffEvents.OrigAt | mne/io/egi/events.py:46-49 | with distinct file names, `orig[name]` is the parsed list of that file |
| MffEvents.StartTime | mne/io/egi/events.py:52-55 | the recording start is missing (`start_time` unbound) exactly when no `info` item holds `recordTime` |
| MffEvents.FindStartTime | mne/io/egi/events.py:52-55 | the `info` loop gives the time of the first item holding `recordTime`, or nothing, or the exception its conversion raises |
| MffEvents.CollectMarkers | mne/io/egi/events.py:56-70 | the nested marker loop returns the markers of all events of the `Events_*` files in order, with the distinct codes, or the exception of the first failing event |
| MffEvents.CollectFileMarkers | mne/io/egi/events.py:59-70 | the loop over one file's events appends their markers and lists each new code, or stops at the first event that raises, with that event's exception |
| MffEvents.MarkerOf | mne/io/egi/events.py:59-70 | one event's marker: TypeError for a non-dict, KeyError without `beginTime`, `_ns2py_time`'s exception, NameError when `start_time` is unbound, KeyError without `code` or `duration`, TypeError for a non-string duration; else its code, its offset from the start and `int(np.fix(start * sfreq))`; the marker lemmas above state its use |
| MffEvents.StopsAt | mne/io/egi/events.py:56-70 | an exception raised by one event ends `_read_mff_events` with that exception |
| MffEvents.GroupSamples | mne/io/egi/events.py:71-75 | the `events_tims` loop maps each code to its markers' start samples |
| MffEvents.ReadMffEvents | mne/io/egi/events.py:36-76 | `_read_mff_events` returns `(events_tims, code)` for the files, or the exception raised along the way |
| MffEvents.ListedParsed | mne/io/egi/events.py:46-50 | walking the dict `orig` in key order gives back the parsed files in directory order |
| MffEvents.CodesAndGroups | mne/io/egi/events.py:58-76 | `code` lists every marker code exactly once, in order of first appearance; `events_tims` has exactly those keys, each holding that code's samples |
| MffEvents.SamplesAreKept | mne/io/egi/events.py:73-74 | the samples of a code are the comprehension `[c['start_sample'] for c in markers if c['name'] == ev]` |
| MffEvents.SamplesInOrder | mne/io/egi/events.py:73-74 | sample j of a code comes from an increasing marker position carrying that code, and every such marker is included |
| MffEvents.GroupsPartition | mne/io/egi/events.py:71-75 | the code groups partition the markers: their sizes add up to the number of markers |
| MffEvents.Wrap | mne/io/egi/events.py:32 | a valid numpy index `-cols <= i < cols` denotes the entry `i % cols`, inside the row |
| MffEvents.MarkRow | mne/io/egi/events.py:31-32 | row n gets n + 1 exactly at the entries its samples denote, other rows unchanged; false iff a sample is out of range (IndexError) |
| MffEvents.EventsMatrix | mne/io/egi/events.py:29-32 | a fresh `codes x cols` matrix holding n + 1 in row n at the samples of code n and 0 elsewhere, or IndexError iff some sample is out of range |
| MffEvents.ReadEvents | mne/io/egi/events.py:15-33 | `_read_events`: IndexError for empty `last_samps`; otherwise `_read_mff_events`'s exception, or `info` gains `n_events` and `event_codes` and the matrix is built (ValueError for negative width) |
| Triggers.Active | mne/io/egi/events.py:162-163 | `np.any(d.nonzero())` only holds for a row with a nonzero sample, holds for every such row whose sample 0 is zero, and fails for a row nonzero at sample 0 alone |
| Triggers.ColumnCount | mne/io/egi/events.py:155 | a column's count of nonzero rows is at most the number of rows |
| Triggers.MaxCount | mne/io/egi/events.py:155 | `.max()` bounds every column count and is attained by one |
| Triggers.TwoRowsCount | mne/io/egi/events.py:155 | two rows nonzero in one column make its count at least 2 |
| Triggers.CombineTriggers | mne/io/egi/events.py:152-165 | ValueError for zero columns; None exactly when a sample has two events; otherwise the channel `Trigger` |
| Triggers.TriggerValue | mne/io/egi/events.py:161-165 | without overlaps, an unmarked sample stays 0 and a sample marked by row d holds `remapping[d]` when d is in the zip and the row is active, else 0 |
| Triggers.TriggerAgreesAfterZero | mne/io/egi/events.py:161-165 | the channel as written equals the intended channel at every sample but sample 0 |
| Triggers.FirstSampleDropped | mne/io/egi/events.py:162-163 | counterexample: the row [1, 0] with id 5 gives [0, 0] rather than [5, 0] |
| Triggers.IntendedTriggerValue | mne/io/egi/events.py:161-165 | the corrected channel holds, without overlaps, the id of the event marking each sample, sample 0 included |
| Eci.Find | mne/io/egi/events.py:198-199 | `find` returns the FIRST child with the tag (no earlier child has it), or None exactly when no child has it |
| Eci.FindAllMembers | mne/io/egi/events.py:240 | `findall` returns exactly the children with the tag |
| Eci.FindAllOrder | mne/io/egi/events.py:240 | `findall` keeps document order |
| Eci.IntOf | mne/io/egi/events.py:216-217 | `int(e.text)` raises TypeError exactly when the text is missing and otherwise at most ValueError, with the text read as `int(str)` does (read back by `IntFieldRoundTrip`) |
| Eci.ParseKey | mne/io/egi/events.py:184-201 | `parse_key` as written: the `keyCode` text and the `data` text converted by its `dataType`; its cases are stated by `ParseKeyCases` |
| Eci.ConverterOf | mne/io/egi/events.py:207-224 | the keys `parse_element` has: a converter exists exactly for `duration`, `relativeBeginTime`, `segmentationEvent`, `code`, `label`, `description`, `sourceDevice` and `keys`; no tag reaches the begin-time converter, whose key is the note joined to "beginTime" |
| Eci.ParseElement | mne/io/egi/events.py:237 | `parse_element[tag](e)`: KeyError for a tag the dict lacks, else the converter's value or exception; its cases are stated by the lemmas below |
| Eci.BeginTimeKeyError | mne/io/egi/events.py:207-213 | as written, `parse_element["beginTime"]` raises KeyError whatever the element holds |
| Eci.BeginTimeEventFails | mne/io/egi/events.py:235-240 | as written, an event with a `beginTime` child never converts; with every earlier child converting it raises that KeyError |
| Eci.BeginTimeFileFails | mne/io/egi/events.py:235-242 | as written, `parse_ECI_events_from_xml` raises as soon as one event has a `beginTime` child |
| Eci.IntendedConverterOf | mne/io/egi/events.py:207-224 | the intended dict: a converter exists exactly for the nine field names, `beginTime` included, and `beginTime` alone gets the begin-time converter |
| Eci.IntendedBeginTimeText | mne/io/egi/events.py:213-215 | with the intended key, `beginTime` parses its text without the last ':'; TypeError for missing text, ValueError for unparsable text |
| Eci.IntendedAgrees | mne/io/egi/events.py:207-224 | the intended and the written dict convert every tag alike except `beginTime`, which the written one rejects with KeyError |
| Eci.SegmentationFlag | mne/io/egi/events.py:218 | `segmentationEvent` is true exactly when the text is "true" |
| Eci.IntFieldRoundTrip | mne/io/egi/events.py:216-217 | `duration` and `relativeBeginTime` read back the integer whose `str` is the text |
| Eci.StrFieldText | mne/io/egi/events.py:219-222 | the text fields are the text itself, or "None" when it is missing |
| Eci.UnknownTag | mne/io/egi/events.py:207-237 | a tag that is not a key of `parse_element` (`beginTime` among them, as written) raises KeyError; the keys other than `keys` never raise KeyError |
| Eci.ParseKeyCases | mne/io/egi/events.py:198-232 | `parse_key`: AttributeError without `keyCode` or `data`; KeyError iff the `dataType` is not short, long, string or TEXT; otherwise the code's text and the converted data |
| Eci.KeyDataRoundTrip | mne/io/egi/events.py:227-232 | short and long data read back the integer they print; string and TEXT data are kept as they are |
| Eci.KeysDict | mne/io/egi/events.py:223 | the `keys` dict exists iff every key parses; its keys are the key codes, and a code holds the data of its LAST key |
| Eci.KeysError | mne/io/egi/events.py:223 | a failing key makes `keys` raise the exception of the first key that fails |
| Eci.ParseEvent | mne/io/egi/events.py:236-239 | the dict comprehension of one event as written: `dict.update` of the children's `(_ns(tag), value)` pairs, or the first exception; stated by the lemmas below |
| Eci.EventDict | mne/io/egi/events.py:236-239 | an event dict exists exactly when every child converts |
| Eci.EventKeys | mne/io/egi/events.py:236-239 | an event dict's keys are its children's tags without namespace |
| Eci.EventLastWins | mne/io/egi/events.py:236-239 | a tag of an event dict holds the converted value of its LAST child with that tag |
| Eci.EventFieldsKnown | mne/io/egi/events.py:236-239 | every field of a converted event is a key of `parse_element` (so never `beginTime`, as written) |
| Eci.EventError | mne/io/egi/events.py:236-239 | a failing child makes the event raise the exception of the first child that fails |
| Eci.EciEvents | mne/io/egi/events.py:235-242 | one dict per `event` child of the root, in order, when every event converts; otherwise the first event's exception |

## Left out

- Reading files: `glob`, `parse` (`_parse_xml` beyond `_xml2list`), the file system and `logger.info` are not modelled. The directory is given as already parsed files whose names (`splitext(basename(f))[0]`) are distinct, as they are in one directory.
- Dicts are maps, so their key order is not modelled. Where order matters (the `Events_*` files and `code`), it comes from the file sequence, which follows the order of `orig`'s keys.
- `datetime.strptime` and `datetime` arithmetic are the `Clock` parameter. Times are integer microseconds, `sfreq` is an integer, and floating-point rounding in `start * sfreq` is not modelled.
- MffEvents.MarkerOf: `float(event['duration'])` is modelled only by its TypeError for a non-string. Its ValueError for non-numeric text is not modelled, and the `end` and `chan` keys of a marker are not kept, since `_read_mff_events` never reads them.
- MffEvents.MarkerOf: the source appends a new code to `code` before reading `duration`. The model checks `duration` first. This cannot be observed, because an exception discards `code`.
- MffEvents.NsToTime: a dict value (an element with children) raises TypeError, as slicing a dict does before Python 3.12. From 3.12 on, slices are hashable and the lookup raises KeyError instead.
- MffEvents.GroupSamples: codes that are dicts (unhashable in Python) are not rejected with TypeError when they become `events_tims` keys.
- MffEvents.HasRecordTime: it is false for string and None items. Items of `_xml2list`'s output are always lists or dicts, so those items cannot occur.
- MffEvents.EventsMatrix: numpy's float matrix is an integer matrix. It holds the same values, `n + 1` and 0.
- Eci.ConverterOf: the dict's first key, the note text joined to "beginTime", is not spelled out. It holds spaces and line breaks, which no XML tag name does, so no `_ns(tag)` can match it.
- Eci.ParseEvent: `parse_ECI_events_from_xml` is modelled as written, so an event with a `beginTime` child fails. The intended converter is `IntendedConverterOf`, and no event parser is built on it.
- Eci.ConvertKeyData: `np.int16` and `np.int64` overflow on out-of-range text is not modelled. Both keep the parsed integer.
- PyStr.ParseInt: underscores between digits and non-ASCII digits, which Python's `int` also accepts, are not modelled.
- Triggers.CombineTriggers: `new_trigger` is a float64 array and `+= event_id` is float addition; the model adds integers. Integer ids below 2^53 are exact in float64, so the values are the same.
- MffEvents.ReadEvents: `info['last_samps']`, `info['sfreq']` and `info['n_segments']` raise KeyError on a dict that lacks them. The `Header` class always has these fields, since the header reader fills them in before `_read_events` is called.
- Triggers.CombineTriggers: the `remapping=None` default is not modelled, so a remapping must be passed. Its body `np.arange(data) + 1` passes the array itself to `np.arange`, not its length. The rows are given as a sequence of equal-length rows with their column count.

## Findings

| source | as written | input that shows it | evidently intended | confidence | as-written member | corrected member |
|---|---|---|---|---|---|---|
| mne/io/egi/events.py:162-163 | `np.any(d.nonzero())` tests the tuple of indices, which is false when the only nonzero index is 0 | one row `[1, 0]`, remapping `[5]`: the channel is `[0, 0]` | every row with a nonzero sample contributes its id, giving `[5, 0]` | high (by reading; not executed) | Triggers.FirstSampleDropped | Triggers.IntendedTriggerValue |
| mne/io/egi/events.py:207-213 | no comma follows the note before `"beginTime"`, so Python joins the two literals and the dict has no key "beginTime" | an `event` with a `beginTime` child, as every ECI event has: `parse_element["beginTime"]` raises KeyError | `"beginTime"` is a key whose converter parses the timestamp without its last ':' | high (by reading; not executed) | Eci.BeginTimeEventFails | Eci.IntendedBeginTimeText |
