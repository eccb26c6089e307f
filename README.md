# Smart Travel — a verified model of its core logic

Smart Travel is a set of Streamlit tourist apps. This project models in Dafny
the parts of it that decide something, and proves what they promise.

- **Landmark detector** (`finalhistoryapp.py`), modules `Landmarks` and `FramePipeline`:
  - an upload is handed to a CLIP worker thread through two capacity-one queues;
  - the worker picks the best-scoring landmark label;
  - the page shows that landmark with a summary, "No landmark detected", or
    "Processing..." when no answer came within the timeout.
  - The queues are a `Slot` class. `put_nowait` drops an item when the slot
    is full.
  - The worker is a `Worker` class whose `Step` is one turn of its loop. Its
    invariant is one detection per image taken, published or held until the
    out-slot is free, and none for or after the stop sentinel.
- **Audio cleaning and languages** (`chatbot2.py`), module `AudioText`:
  - `clean_text_for_audio` is modelled as its four steps: markup to spaces,
    drop symbols, collapse whitespace, strip. The proofs cover the characters
    the result keeps, the form of its whitespace, the content it preserves,
    that words whose gap holds whitespace or markup stay apart with one
    space while words separated only by dropped symbols are joined, and
    idempotence.
  - The proofs also show that the merged language table keeps both tables.
- **Crime-hotspot map** (`maplegend.py`), module `Hotspots`:
  - the background pass rewrites each hotspot's risk level in place, clamped
    to 1..5, or creates the column;
  - the marker colour of a level, the default risk of 3, and the icon of a
    tourist category.
- **Travel assistant** (`recommendapp.py`), module `Recommend`:
  - app names and links are split, stripped, zipped and numbered;
  - the recommendation row is chosen by a case-insensitive state match;
  - the reverse-geocoded state falls back to a default.
- `Text` holds the Python string operations these need: `split`, `"sep".join`, `strip`,
  `lower` and the whitespace class. `Wrappers` holds `Option` and `Result`.

Inputs that come from outside are parameters:
- CLIP scores, as a score vector or `None` when encoding raised;
- whether the worker answered within five seconds;
- the summary service's answer;
- the random draws of a hotspot pass;
- the geocoder's outcome.

## Model

| member | source | states |
|---|---|---|
| Text.IsWhitespace | chatbot2.py:53-55 | the characters `\s` and `str.strip` treat as whitespace: Python's `isspace` set, Unicode spaces and separators included |
| Text.Split | recommendapp.py:43 | `str.split(sep)`: one more piece than separators, and no piece contains the separator |
| Text.Join | finalhistoryapp.py:30 | `sep.join`: separator-free pieces give exactly one separator fewer than pieces |
| Text.JoinSplit | finalhistoryapp.py:33 | rejoining the pieces of a split with the separator gives back the text |
| Text.SplitJoin | recommendapp.py:43-44 | splitting a join of separator-free pieces gives back the pieces |
| Text.TrimStart | chatbot2.py:55 | `lstrip`: removes exactly a whitespace prefix; the rest starts with non-whitespace |
| Text.TrimEnd | chatbot2.py:55 | `rstrip`: removes exactly a whitespace suffix; the rest ends with non-whitespace |
| Text.Strip | recommendapp.py:43-44 | `strip`: a slice of the input with only whitespace cut from both ends, neither starting nor ending with whitespace |
| Text.Lower | recommendapp.py:71 | `lower`: same length, each character lowered |
| Text.LowerIdempotent | recommendapp.py:71 | lowered text has no capital left, and lowering it again changes nothing |
| Text.TrimStartAppend | chatbot2.py:55 | `lstrip` of a concatenation whose first part holds non-whitespace only touches that part |
| Text.TrimEndAppend | chatbot2.py:55 | `rstrip` of a concatenation whose second part holds non-whitespace only touches that part |
| AudioText.ReplaceMarkup | chatbot2.py:52 | every `*`, `#` and newline becomes a space, other characters untouched, length kept |
| AudioText.ReplaceMarkupAppend | chatbot2.py:52 | the substitution works character by character, so it distributes over concatenation |
| AudioText.DropSymbols | chatbot2.py:53 | keeps only word characters, whitespace and `. , ! ?`, all taken from the input |
| AudioText.DropSymbolsAppend | chatbot2.py:53 | the deletion distributes over concatenation, so the kept characters stay in input order |
| AudioText.DropSymbolsSingle | chatbot2.py:53 | one character is kept exactly when it is allowed |
| AudioText.DropSymbolsKeepsAllowed | chatbot2.py:53 | no allowed character of the input is lost |
| AudioText.CollapseWhitespace | chatbot2.py:54 | no two spaces in a row; every non-space is an input non-whitespace; starts with a space exactly when the input starts with whitespace |
| AudioText.CollapseRun | chatbot2.py:54 | a whole non-empty whitespace run before non-whitespace becomes exactly one space |
| AudioText.CollapseAppend | chatbot2.py:54 | the collapse splits at any point just after a non-whitespace character |
| AudioText.Clean | chatbot2.py:50-55 | the cleaned text is never longer than the input |
| AudioText.CleanCharacterSet | chatbot2.py:50-55 | the result holds only word characters, `. , ! ?` and plain spaces, and no markup |
| AudioText.CleanWhitespaceForm | chatbot2.py:54-55 | no doubled space and no leading or trailing whitespace |
| AudioText.CleanSpeakable | chatbot2.py:50-55 | the result of cleaning is speakable text (the two properties above) |
| AudioText.CleanPreservesContent | chatbot2.py:50-55 | with spaces removed, the result is exactly the input's word characters and kept punctuation, in order |
| AudioText.CleanFixesSpeakable | chatbot2.py:50-55 | cleaning speakable text changes nothing |
| AudioText.CleanIdempotent | chatbot2.py:50-55 | cleaning twice equals cleaning once |
| AudioText.CleanJoin | chatbot2.py:50-55 | two texts, the first ending and the second starting with a spoken character, joined by unspoken characters that include whitespace or markup, clean to their cleaned forms joined by one space |
| AudioText.CleanSeparatesWords | chatbot2.py:50-55 | two words of spoken characters separated that way are read as the two words with one space |
| AudioText.ScenarioLineBreaks | chatbot2.py:52-55 | "Fort\n\nPalace" is read as "Fort Palace" |
| AudioText.ScenarioEmoji | chatbot2.py:51-55 | an emoji between words is dropped: "Fort 🏰 Palace" is read as "Fort Palace" |
| AudioText.CleanGlue | chatbot2.py:50-55 | two texts, the first ending and the second starting with a spoken character, joined only by characters step 2 deletes and step 1 leaves alone, clean to their cleaned forms with nothing between them |
| AudioText.CleanGluesWords | chatbot2.py:50-55 | two words of spoken characters separated only by such symbols are read as one word |
| AudioText.ScenarioGlued | chatbot2.py:53-55 | "Fort🏰Palace" is read as "FortPalace" |
| AudioText.Merge | chatbot2.py:45 | `{**a, **b}`: keys of both; the right table's value wins on a shared key |
| AudioText.LanguageTablesDisjoint | chatbot2.py:20-43 | no language is in both the Indian and the foreign table |
| AudioText.LanguagesKeepBothTables | chatbot2.py:20-45 | the merged table maps every language of both tables to its code and holds nothing else, so its size is the sum |
| Landmarks.ArgMax | finalhistoryapp.py:52 | `topk(1)`: an index of a largest score, the first such |
| Landmarks.Classify | finalhistoryapp.py:44-57 | a detection is one of the labels with one of the scores |
| Landmarks.ClassifyPicksBest | finalhistoryapp.py:51-57 | a detection is some label with its own score and no score is higher; `(None, None)` exactly when there are no scores, they are empty, or the best index has no label |
| Landmarks.ClassifyTotal | finalhistoryapp.py:51-57 | when there is one label per score and at least one score, scoring always yields a detection |
| Landmarks.Summary | finalhistoryapp.py:98-101 | the service's summary, else the bundled description, else the empty text |
| Landmarks.Decide | finalhistoryapp.py:93-107 | "Processing..." exactly when nothing arrived in time; a shown landmark has a non-empty label scoring at least 22.0 |
| Landmarks.DecideCases | finalhistoryapp.py:93-107 | "Processing..." exactly on timeout; a detection exactly for a non-empty label scoring at least 22.0, with its label, score and summary; "No landmark detected" otherwise |
| Landmarks.BelowThresholdNotFound | finalhistoryapp.py:95 | a score below the threshold is never shown as a landmark |
| Landmarks.ScenarioFound | finalhistoryapp.py:95-103 | of two labels, "Taj Mahal" scoring 35.0 against 10.0 is detected and shown with the service's summary |
| Landmarks.ScenarioBelowThreshold | finalhistoryapp.py:95-105 | a best score of 10.0 still names its label, but "No landmark detected" is shown |
| Landmarks.LoadLandmarks | finalhistoryapp.py:22-27 | every label has a description; the label list is never longer than the file's members |
| Landmarks.LoadLandmarksFaithful | finalhistoryapp.py:22-27 | labels are distinct, and every key of the file is a label whose description is that key's last value |
| Landmarks.LoadLandmarksKeyOrder | finalhistoryapp.py:22-27 | the labels are exactly the file's keys, each at the position of its first occurrence, in increasing order of those positions |
| Landmarks.ScenarioRepeatedKey | finalhistoryapp.py:22-27 | `{"b": "1", "a": "2", "b": "3"}` gives the labels `b`, `a`, with `b` described by "3" |
| Landmarks.LoadLandmarksDistinctKeys | finalhistoryapp.py:22-27 | with distinct keys the labels are the keys in file order |
| Landmarks.OverlayLines | finalhistoryapp.py:32-37 | one line per newline-separated piece, at `x`, the i-th at `y + i * line_height`, none containing a newline |
| Landmarks.OverlayLinesCoverText | finalhistoryapp.py:33 | the overlay lines rejoined with newlines are the text |
| FramePipeline.Slot.constructor | finalhistoryapp.py:75-76 | a new queue is empty |
| FramePipeline.Slot.Offer | finalhistoryapp.py:89 | `put_nowait` stores the item exactly when the slot was empty and leaves a full slot as it was |
| FramePipeline.Slot.Poll | finalhistoryapp.py:41 | `get` returns the held item and empties the slot |
| FramePipeline.Submit | finalhistoryapp.py:88-91 | a frame offered to an occupied slot is dropped silently |
| FramePipeline.Publications | finalhistoryapp.py:40-57 | the reference for the worker's output: one classification per image taken, up to the sentinel; its lemmas are the next three rows |
| FramePipeline.PublicationsPerImage | finalhistoryapp.py:40-57 | before the sentinel, the k-th image taken yields the k-th publication, its classification |
| FramePipeline.PublicationsStopAtSentinel | finalhistoryapp.py:42-43 | nothing is published for the sentinel or for anything after it |
| FramePipeline.PublicationsAppend | finalhistoryapp.py:41-57 | taking one more image adds exactly its classification to the publications |
| FramePipeline.Worker.constructor | finalhistoryapp.py:77-78 | a new worker waits, having taken and published nothing |
| FramePipeline.Worker.Step | finalhistoryapp.py:39-57 | one loop turn: stop on the sentinel; classify an image and publish it, or hold it while the out-slot is full; keeps one detection per image taken, published or held, and stops only on the sentinel |
| FramePipeline.ShowResult | finalhistoryapp.py:93-107 | the consumer empties the out-slot and shows the display decision for what it held |
| FramePipeline.DetectOnce | finalhistoryapp.py:86-107 | one upload shows the frame's classification when the worker answered in time, "Processing..." otherwise |
| FramePipeline.DetectWithSecondFrameRejected | finalhistoryapp.py:88-107 | a second frame offered while the inbound slot is occupied is rejected, and the first frame's detection is shown |
| FramePipeline.ShutDownIdle | finalhistoryapp.py:40-43 | an idle worker given the sentinel stops and never publishes, however many turns it gets |
| Hotspots.ClampLevel | maplegend.py:19 | `max(1, min(5, v))` is in 1..5, is `v` when in range, and the nearest bound otherwise |
| Hotspots.NextLevel | maplegend.py:18-19 | the new level is in 1..5, moves an in-range level by at most one, keeps 5 at 5 on +1 and 1 at 1 on -1 |
| Hotspots.UpdatedLevels | maplegend.py:17-20 | a pass keeps the row count and gives row i the clamped sum of its level and its own change |
| Hotspots.UpdatedLevelsInRange | maplegend.py:17-20 | after a pass every level is in 1..5; an in-range column moves each row by at most one |
| Hotspots.Passes | maplegend.py:11-24 | repeated passes keep the row count |
| Hotspots.PassesInRange | maplegend.py:11-24 | after at least one pass, or from an in-range start, the column stays in range |
| Hotspots.HotspotTable.constructor | maplegend.py:13 | the table read from the file, with or without a risk column |
| Hotspots.HotspotTable.UpdatePass | maplegend.py:14-20 | creates a missing column from the draws, else updates each row in place; afterwards the column exists, every level is in 1..5, and other columns and row count are untouched |
| Hotspots.RiskColor | maplegend.py:64 | 1..5 map to green, yellow, orange, red, black; any other level is red |
| Hotspots.RedMarkers | maplegend.py:80 | a marker is red exactly for level 4 or an unlisted level |
| Hotspots.InitialRisk | maplegend.py:79 | 3 without a risk column, the cell's value otherwise, an error exactly for a blank cell |
| Hotspots.DefaultRiskColor | maplegend.py:79-80 | a hotspot without a risk column is drawn orange |
| Hotspots.CategoryIcon | maplegend.py:69 | a listed category gets its table icon, any other the pin |
| Hotspots.DefaultIconMeansUnknown | maplegend.py:53-69 | the pin appears exactly for categories the table does not list |
| Recommend.StripAll | recommendapp.py:43-44 | each piece stripped, count kept |
| Recommend.RenderAppList | recommendapp.py:42-48 | "No apps available" exactly when the names or the links cell is missing; listed entries are numbered from 1 |
| Recommend.AppListPairs | recommendapp.py:42-46 | with both cells present: min(#names, #links) entries, at least one; entry k is numbered k+1 and pairs the k-th stripped name with the k-th stripped link, both trimmed |
| Recommend.AppListRoundTrip | recommendapp.py:42-46 | a stored list of trimmed, separator-free names and links is shown back entry for entry |
| Recommend.FirstMatch | recommendapp.py:71 | the first row whose state matches case-insensitively, or none when no row matches |
| Recommend.SelectRow | recommendapp.py:71 | the row shown matches the state and no earlier row does; `IndexError` exactly when no row matches |
| Recommend.ShowRecommendations | recommendapp.py:69-71 | nothing shown without a state or with the empty state; otherwise the first matching row, the one `SelectRow` picks, or a failure exactly when none matches |
| Recommend.SelectRowIgnoresCase | recommendapp.py:71 | states differing only in letter case select the same row |
| Recommend.StateFromCoords | recommendapp.py:22-31 | the address's state when the geocoder found one, the fallback otherwise, including when it raised |

## Left out

- CLIP image and text encoding and the cosine-similarity arithmetic (finalhistoryapp.py:46-51, 68-72) are floating-point model code. The score vector is an input.
- Threads, blocking and timeouts are not modelled as such. `Worker.Step` is one loop turn, a blocked `get` or `put` is a turn that makes no progress, and the five-second `out_q.get` timeout is the input `answeredInTime`.
- Each run of `clip_landmark_detector` creates its own queues and worker (finalhistoryapp.py:75-78) and offers one frame (finalhistoryapp.py:89). In the program as written no frame ever meets an occupied slot, and the `None` sentinel is never sent. `Submit`, `DetectWithSecondFrameRejected` and `ShutDownIdle` model the drop and the stop as `put_nowait` and `clip_worker` define them.
- The upload path end to end: finalhistoryapp.py:83 calls `np.array` without importing numpy, so the page raises before any frame is queued. `DetectOnce` models the intended hand-off from line 86 onwards.
- `textwrap.wrap` (finalhistoryapp.py:29-30) is library code whose wrapping rules are not part of this model. The overlay is modelled on the already-wrapped text.
- Drawing with OpenCV, and the header's `{score:.1f}` formatting, are rendering.
- The Wikipedia summary, the Gemini calls, translation, text-to-speech, ipinfo and Nominatim are network services. Their answers are inputs.
- File I/O is not modelled: JSON and CSV reading and writing, `to_csv`, and the `except` that prints errors in maplegend.py:21-23.
- The 30-second sleep and the random number generator are not modelled. A pass's draws are inputs.
- AudioText.DropSymbols: Python's `\w` (Unicode letters, digits and underscore) is a parameter `isWord`. Only its disjointness from whitespace, `*` and `#` is assumed.
- Text.Lower: lowers ASCII letters only. Python's full Unicode case mapping is not modelled.
- Landmarks.ArgMax: picks the lowest index among equal best scores. The tie order of `torch.topk` is not specified by the library.
- Pandas NaN in app cells and state cells is modelled as a missing cell. NaN in a risk cell during a pass is not modelled: levels are integers.
- Hotspots.UpdatePass: the pass's two kinds of draws are both inputs, though each branch uses only one of them.
- translator.py and app1.py are not part of this model. They are thin wrappers over speech libraries and UI.
- The live-location branch of recommendapp.py:57-66 is not modelled. It is network calls and widget reads; only `get_state_from_coords` is modelled.
