# Customer-service helper: capture pipeline and record table

This project models the two pieces of logic at the heart of the
customer-service helper and proves their properties in Dafny.

- **The capture pipeline** (`OcrCapture`, `ocr_capture.dfy`). It works through an ordered list of steps against one screenshot.
  - Each step locates its template by the best score on a correlation-score surface and compares that score with the step's threshold.
  - A matched step moves the mouse to the centre of the match and clicks. A "copy" step also applies the step's offset, clicks three times and presses Ctrl+C.
  - The step then reads the clipboard.
  - The run keeps the non-empty texts of the steps that succeeded, in order. With at least three of them it hands the first three, by position, to the record sink.
- **The record table of the helper window** (`AppUi`, `app_ui.dfy`). The `HelperApp` class holds:
  - all records, and the records the last search let through;
  - the current page and the page count;
  - the tree view's rows, the page buttons and the page label.

  Its methods are search, showing a ten-row page with highlighting, previous/next/jump navigation, adding a record at the front, clearing and exporting. `Keypress` builds the hotkey string of the hotkey dialog.
- **Python string semantics** (`TextUtil`, `text.dfy`). The model writes out the string operations these rely on: `str.strip()`, `str.lower()`, the substring test `t in s`, `int(s)`, and `'+'.join`.
- **Option type** (`Options`, `options.dfy`).

How the outside world is modelled:
- The template matcher's output is an input: a grid of real scores, or `None` when the matcher raised.
- Each template file is an input: missing, unreadable, or loaded with its size and score surface.
- The clipboard text each step reads is an input.
- Mouse and keyboard effects are the list of input events a call returns (`MoveTo`, `Click`, `CtrlC`).
- Confirmations, the file chooser, the hotkey dialog's result and the clock are parameters.
- Widgets are reduced to the state they hold.

Invariants of `HelperApp`:
- `Valid()` is kept by every operation. It says:
  - `1 <= currentPage <= totalPages`;
  - `totalPages == max(1, (n + 9) // 10)` for the `n` filtered records;
  - the filtered records are the records the last search key selects.
- `Shown()` is established by every redraw. It says:
  - the tree view holds exactly the current page's rows, with the right highlighting;
  - the buttons are enabled exactly away from the ends;
  - the label reads `第 p / t 页`.

Points of the code's behaviour that the model keeps as written:
- Every matched step reads and returns the clipboard text, a "click" step included, so a click step can contribute a result (`ui/ocr_capture.py:59-61`).
- The record takes `results[0]` as nickname, `results[1]` as merchant and `results[2]` as order number (`ui/ocr_capture.py:91-95`).
- The threshold is used as given; nothing restricts it to (0, 1].
- `__init__` never calls `update_page_controls`, so both page buttons start enabled. The constructor's contract says so, and `Shown()` holds only after the first redraw.

## Model

| member | source | states |
|---|---|---|
| OcrCapture.RowArgMax | ui/ocr_capture.py:20 | the column returned holds the row's maximum, and every earlier column is strictly smaller, so it is the first maximum |
| OcrCapture.ArgMax | ui/ocr_capture.py:20 | the position returned lies in the surface and its score is at least every score of the surface |
| OcrCapture.FindImageCenter | ui/ocr_capture.py:16-28 | a matcher that raised gives no match, and a match's confidence reaches the threshold; `FindImageCenterSpec` states the rest |
| OcrCapture.FindImageCenterSpec | ui/ocr_capture.py:16-28 | a match exists iff some score reaches the threshold; a matcher that raised gives none; the confidence is at least the threshold and the best score of the surface; the centre is an alignment with that score plus (width div 2, height div 2) |
| OcrCapture.CenterInsideScreenshot | ui/ocr_capture.py:19-24 | for a surface of shape (H-h+1)×(W-w+1), the match centre lies inside the matched region and inside the screenshot |
| OcrCapture.Threshold | ui/ocr_capture.py:40 | a step's threshold is its own value, or 0.8 when absent |
| OcrCapture.StepOffset | ui/ocr_capture.py:49 | a step's offset is its own value, or (0, 0) when absent |
| OcrCapture.ActionEvents | ui/ocr_capture.py:48-57 | exactly one move, and it comes first; "copy" gives five events: a move to centre + offset, exactly three clicks and exactly one Ctrl+C, which comes last; any other action gives two events: a move to the exact centre and one click, with no Ctrl+C |
| OcrCapture.PerformAction | ui/ocr_capture.py:48-57 | the click loop emits exactly the events `ActionEvents` describes |
| OcrCapture.RunStep | ui/ocr_capture.py:30-61 | a failed step emits no events; a step that succeeds had its template loaded and returns the clipboard text; `StepContract` states the rest |
| OcrCapture.StepContract | ui/ocr_capture.py:30-61 | errors in the order missing file, unreadable file, no match, each iff its condition holds; a failed step emits no events; a loaded template with a match always succeeds, returning the clipboard text with the events of its action at the match |
| OcrCapture.ExecuteStep | ui/ocr_capture.py:30-61 | the outcome and events are those of `RunStep`, whose meaning `StepContract` states |
| OcrCapture.Runs | ui/ocr_capture.py:81-82 | one run per step, in order, each the step's own outcome |
| OcrCapture.Harvest | ui/ocr_capture.py:81-87 | at most one result per step; `HarvestAppend`, `SkipSilentRun` and `FiveStepRun` state which |
| OcrCapture.Trace | ui/ocr_capture.py:81-82 | every step's events in step order; `TraceAppend` and `SkipSilentRun` state it |
| OcrCapture.Contribution | ui/ocr_capture.py:83-87 | a step adds its text exactly when it succeeded with non-empty text, and adds nothing otherwise |
| OcrCapture.Decide | ui/ocr_capture.py:90-98 | a record is made iff there are at least three results, with result 0 as nickname, 1 as merchant and 2 as order number |
| OcrCapture.StartCapture | ui/ocr_capture.py:63-102 | a configuration that fails to load gives false and no events; otherwise success iff the sink is called; the sink receives the decision on the harvested results; the trace is every step's events in order |
| OcrCapture.HarvestAppend | ui/ocr_capture.py:81-87 | the results of two step lists run in turn are the first list's results followed by the second's |
| OcrCapture.TraceAppend | ui/ocr_capture.py:81-82 | the events of two step lists run in turn are the first list's events followed by the second's |
| OcrCapture.RunsAppend | ui/ocr_capture.py:81-82 | running a split configuration is running its two parts one after the other |
| OcrCapture.SkipSilentRun | ui/ocr_capture.py:83-85 | a failed, silent run can be removed without changing the results or the events |
| OcrCapture.FailedStepSkipped | ui/ocr_capture.py:81-87 | removing a failing step from the configuration changes neither the results nor the events: a failure never aborts the run |
| OcrCapture.FiveStepRun | ui/ocr_capture.py:81-95 | five steps where the first and third fail and the others give a, b, c harvest [a, b, c], which becomes the record (a, b, c) |
| OcrCapture.ExtraResultsIgnored | ui/ocr_capture.py:90-95 | results after the third never change the record |
| TextUtil.LeadingSpaces | ui/app_ui.py:291 | the count covers only whitespace and stops at the first non-whitespace character |
| TextUtil.TrailingSpaces | ui/app_ui.py:291 | the count covers only trailing whitespace and stops at the last non-whitespace character |
| TextUtil.Strip | ui/app_ui.py:291 | Python's `s.strip()`; `StripSpec` and `StripPadded` state what it cuts |
| TextUtil.StripSpec | ui/app_ui.py:291 | `strip()` leaves a segment of the input with only whitespace cut on either side; the result neither starts nor ends with whitespace; it is empty iff the input is all whitespace |
| TextUtil.StripPadded | ui/app_ui.py:291 | whitespace put around a string that neither starts nor ends with whitespace is exactly what `strip()` removes |
| TextUtil.Lower | ui/app_ui.py:291 | `lower()` keeps the length and lower-cases each character |
| TextUtil.Contains | ui/app_ui.py:297 | Python's `t in s`; `ContainsSpec` states its meaning |
| TextUtil.ContainsSpec | ui/app_ui.py:297 | `t in s` holds iff `t` occurs in `s` at some index |
| TextUtil.NatToString | ui/app_ui.py:339 | `str(n)` is a non-empty string of decimal digits |
| TextUtil.ParseInt | ui/app_ui.py:273 | Python's `int(s)` in base 10, `None` for ValueError, except that the digit-count limit is not modelled (see Left out); it skips the whitespace `strip()` cuts except U+001C..U+001F; `ParseIntOfNatToString`, `ParseIntOfStrip`, `SeparatorNeverParses`, `SeparatorPaddingFails` and `AppUi.PageTextReadsBack` state its meaning |
| TextUtil.SeparatorNeverParses | ui/app_ui.py:273 | a text holding one of U+001C..U+001F never spells a number, so rejecting such characters anywhere is the same as not skipping them at the ends |
| TextUtil.SeparatorPaddingFails | ui/app_ui.py:273 | `int()` fails on a number padded with U+001C..U+001F on either side, although `strip()` cuts that padding |
| TextUtil.ParseIntOfStrip | ui/app_ui.py:273 | for texts without U+001C..U+001F, `int()` depends only on the stripped text |
| TextUtil.ParseIntOfNatToString | ui/app_ui.py:273 | `int(str(n)) == n` |
| TextUtil.Join | ui/app_ui.py:100 | Python's `'+'.join(key)`; `SplitJoin` states that it can be undone |
| TextUtil.SplitJoin | ui/app_ui.py:100 | splitting a `'+'.join` of parts free of '+' gives the parts back |
| AppUi.AnyContainsSpec | ui/app_ui.py:295-298 | a record's values match iff some value, lower-cased, contains the key |
| AppUi.AnyFieldContains | ui/app_ui.py:325-328 | the loop over the values that stops at the first hit finds one iff some value contains the key |
| AppUi.Filter | ui/app_ui.py:293-298 | the records with some value containing the key, in order; `FilterRecords`, `FilterCounts` and `FilterAppend` state it |
| AppUi.Filtered | ui/app_ui.py:291-300 | every record for a blank key, the matches otherwise; `HelperApp.PerformSearch` states it |
| AppUi.FilterRecords | ui/app_ui.py:293-298 | the search loop collects exactly `Filter(records, key)` |
| AppUi.FilterCounts | ui/app_ui.py:292-298 | each matching record occurs in the search result as often as in all records; others do not occur |
| AppUi.FilterAppend | ui/app_ui.py:292-298 | the search keeps record order: the matches of a concatenation are the matches of each part in turn |
| AppUi.PageCount | ui/app_ui.py:302 | there is always at least one page |
| AppUi.PageCountBounds | ui/app_ui.py:302 | no records give one page; otherwise the pages hold all records and the last page is not empty |
| AppUi.SliceSpec | ui/app_ui.py:309-315 | Python's clamped slice: the elements from `a` up to `b` or the end, and nothing when `a` is past the end |
| AppUi.WindowSpec | ui/app_ui.py:309-315 | page p has at most ten records, those from position (p-1)*10 on; a page within the page count of a non-empty table is not empty |
| AppUi.PageRowsSpec | ui/app_ui.py:309-330 | row i of page p is the record at (p-1)*10+i, highlighted iff the key is not blank and one of its values contains the key |
| AppUi.PagesCoverRecords | ui/app_ui.py:302-315 | the pages 1..total laid end to end are exactly the records |
| AppUi.PagesPrefix | ui/app_ui.py:309-315 | pages 1..k laid end to end are the first min(10k, n) records |
| AppUi.PageText | ui/app_ui.py:337-339 | the label `第 p / t 页`; `PageTextReadsBack` states what it holds |
| AppUi.PageTextReadsBack | ui/app_ui.py:337-339 | reading the label back (the text between "第 " and " 页", split at '/', each part through `int()`) gives exactly the current page and the page count |
| AppUi.ExportTable | ui/app_ui.py:417-419 | a header row with the four column names, then one row per record with its values in column order |
| AppUi.ExportRoundTrip | ui/app_ui.py:417-419 | reading the exported rows back gives the records in order |
| AppUi.HotkeyParts | ui/app_ui.py:90-99 | the hotkey's last part is the lower-cased key name |
| AppUi.Keypress | ui/app_ui.py:85-101 | Escape cancels; a bare left Control/Alt/Shift is ignored; any other key chooses the '+'-join of the held modifiers (ctrl, alt, shift in that order) and the lower-cased key name |
| AppUi.HotkeyDecodes | ui/app_ui.py:90-100 | the chosen string splits at '+' into exactly the held modifiers, in order, then the key name |
| AppUi.Jump | ui/app_ui.py:272-276 | a jump only ever goes to a page between 1 and the page count |
| AppUi.JumpSpec | ui/app_ui.py:270-281 | a jump happens iff the entry reads as an integer between 1 and the page count, and goes to that integer; "not a number" iff `int()` fails |
| AppUi.JumpToLabelledPage | ui/app_ui.py:273-274 | typing the number of an existing page, as the label shows it, jumps to that page |
| AppUi.HelperApp.constructor | ui/app_ui.py:34-57 | no records, page 1 of 1, both buttons enabled, hotkey from the configuration or "F1"; `Valid()` holds |
| AppUi.HelperApp.SetSearchText | ui/app_ui.py:291 | the search entry holds the typed text |
| AppUi.HelperApp.SetPageEntry | ui/app_ui.py:273 | the page entry holds the typed text |
| AppUi.HelperApp.UpdatePageControls | ui/app_ui.py:341-345 | previous is enabled iff not on page 1, next iff not on the last page, and the label shows page and count |
| AppUi.TagRows | ui/app_ui.py:316-333 | the insertion loop builds each record of the page as a row, tagged iff the key is not blank and some value contains it |
| AppUi.HelperApp.UpdateTreeview | ui/app_ui.py:306-335 | the view holds exactly the current page's rows with their highlighting, and the controls agree (`Shown()`) |
| AppUi.HelperApp.PerformSearch | ui/app_ui.py:289-304 | the filtered records are all records for a blank key, else the matches in order; page 1 of `max(1, (n+9)//10)`; `Valid()` and `Shown()` |
| AppUi.HelperApp.PrevPage | ui/app_ui.py:347-351 | the page goes down by exactly one when above 1 and the view is redrawn; otherwise the page, the view, both buttons and the label are unchanged; `Valid()` is kept |
| AppUi.HelperApp.NextPage | ui/app_ui.py:353-357 | the page goes up by exactly one when below the count and the view is redrawn; otherwise the page, the view, both buttons and the label are unchanged; `Valid()` is kept |
| AppUi.HelperApp.JumpToPage | ui/app_ui.py:270-281 | the page changes only on a valid jump and then to the typed page; otherwise the page, the view, both buttons and the label are unchanged; the entry is cleared either way; `Valid()` is kept |
| AppUi.HelperApp.AddNewData | ui/app_ui.py:387-401 | the new record is first and the others follow in their order; every record is shown again even with a search typed; page 1 of the new count; `Valid()` and `Shown()` |
| AppUi.HelperApp.ClearData | ui/app_ui.py:424-433 | when confirmed, no records and page 1 of 1 with the controls updated; when declined, nothing changes |
| AppUi.HelperApp.ExportData | ui/app_ui.py:403-422 | nothing is written without records, or when the dialog is cancelled or returns an empty name; otherwise the header and every record in order |
| AppUi.HelperApp.ChangeHotkey | ui/app_ui.py:110-114 | a non-empty dialog result becomes the hotkey; a cancelled or empty one changes nothing |
| AppUi.HelperApp.OnHotkeyPressed | ui/app_ui.py:369-385 | runs the capture; on success the record (result 0, order number result 2, merchant result 1, now) is added at the front, every record is shown on page 1 of the new count and `Shown()` holds; on failure the records, the search, the page, the view, the buttons and the label are unchanged; `Valid()` is kept |

## Left out

- The template matcher (`cv2.matchTemplate` with normalized correlation) is left out because it is floating-point work in a foreign library. Its score surface is an input. Which sizes make it raise is not modelled, and neither is its swapping of image and template when the template is the larger in both dimensions.
- When several positions share the best score, the model reports the first in row-major order. Which one `cv2.minMaxLoc` reports is not stated by the source.
- `cv2.imread`, the colour conversion and `pyautogui.screenshot`/`size` are image I/O. They become the template-file input and the score surface.
- The animated mouse moves (`duration=0.2`) and the `time.sleep` delays are left out, because only the order of events is observable here.
- The `pyperclip` clipboard is left out; its text is an input per step.
- `load_steps` and the hotkey JSON load are file input. They are the `config` and `savedHotkey` inputs. A failure while taking the screenshot is folded into `config == None`.
- `save_hotkey` writes the hotkey file and is left out, as is its logging when the write fails.
- The model's steps always carry `template_path`, `name` and `action`, and an `offset` always has `x` and `y`. In the code a missing key raises `KeyError` only where it is read: `template_path` at once (`ui/ocr_capture.py:32`), `name` only when the step fails (lines 44 and 84), `action` only after a match (line 48), and the offset's `x`/`y` only on a "copy" step (line 50). Such a `KeyError` ends the whole run through the outer `except` (lines 100-102), with no record added. Steps that lack a key they never reach are modelled as steps that have it.
- An exception raised from a mouse or keyboard call in the middle of a run is not modelled.
- The template path join with the root directory is left out; the step's own path is reported in the error.
- The error messages are datatype values rather than formatted Chinese strings. `print` and logging are left out.
- tkinter widget construction, styling, the status bar and its timer, message boxes and the file chooser are left out. Confirmations and file choices are parameters.
- The 300 ms search debounce (`root.after`) is left out. `PerformSearch` is the call the timer makes.
- Registering the global hotkey with `keyboard` and the thread its callback runs on are concurrency, and are left out. `register_global_hotkey` and `save_hotkey` catch their own exceptions (`ui/app_ui.py:65-66`, `73-75`), so a failed registration or save keeps the new hotkey, as `ChangeHotkey` does. The restore branch at lines 118-121 runs only if updating the status bar raises; that widget failure is not modelled.
- `sort_column` reorders the rows of the tree view in place (`tree.move`, `ui/app_ui.py:364-365`) and flips the heading's sort direction. It is not modelled. After it, the displayed order differs from the page order that `Shown()` describes until the next redraw.
- `on_double_click`, `copy_cell_value` and `copy_row` read tree items, write the clipboard and post a status-bar message. `show_context_menu` selects the row under the mouse and opens the context menu. None of the four changes state the model holds, and all four are left out.
- The CSV file encoding (`utf-8-sig`, `DictWriter` quoting) and write errors are left out. `ExportData` returns the table of rows it writes.
- The timestamp format of `datetime.now()` is left out; the creation time is a parameter.
- TextUtil.Lower: lower-cases ASCII letters only. Python's `str.lower()` also maps other letters.
- TextUtil.ParseInt: accepts ASCII digits only. Python's `int()` also accepts other Unicode decimal digits. It also does not model `int()`'s limit on the number of digits (ValueError above 4300 digits by default since Python 3.11, adjustable at run time), so for such an entry `AppUi.JumpSpec` gives `OutOfRange` where `_jump_to_page` reports an invalid page number.
- `_perform_search` appends to `filtered_data` in place. The model collects the matches in a local sequence (`FilterRecords`) and assigns it to the field once; no one observes the list in between.
