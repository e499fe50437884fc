# NosTale Market Helper: the OCR text handler

The market helper captures a screen region, reads it with OCR and hands the
text to `datahandler`. That function splits the text into an item name and an
item price, and the GUI puts both into entry fields for the user to correct.
This project models that text handling and proves what it computes:

- `dt_ratio`: the share of a line's characters that are digits;
- `l2d`: the letter-to-digit correction applied to price text;
- `datahandler`: the single pass over the lines that feeds the two
  accumulators `item_name` and `item_price`.

The files are:

- `py_text.dfy` (`PyText`) models the Python built-ins the handler uses:
  - `str.count` and `str.replace` with a one-character pattern;
  - `str.splitlines` with `'\n'` as the only line terminator;
  - `int()` on a string. A literal is optional whitespace, an optional sign, one or more ASCII digits, then optional whitespace. The whitespace is tab, '\n', '\v', '\f', '\r' and space. `Strip` cuts this whitespace before the literal is read; `datahandler` itself never calls `str.strip`.
- `digit_ratio.dfy` (`DigitRatio`) models `dt_ratio`.
- `confusion.dfy` (`Confusion`) models `l2d`:
  - a method with the loop over the replacement table;
  - the table fold;
  - a character-by-character reference, `Corrected`.
- `extractor.dfy` (`Extractor`) models the rest of `datahandler`:
  - the method `DataHandler` with its loop, whose loop body is `HandleLine`;
  - the per-line step `Step` and the fold `Run`;
  - the reference result `Extract`, with closed forms for the name and the price.

`item_price` is either a string or the integer `0` that the `ValueError`
fallback stores, so it is the datatype `Price = PStr(text) | PZero`.

The model follows the code where a prose description of the program could
suggest otherwise:

- The fallback is the integer 0, not a string.
- The last-line test compares text, not position. Any line that reads the same as the last line takes the last-line branch.
- Every line that reads the same as the last line overwrites `item_price`, so the last line always decides the price.
- Name fragments are joined with single spaces and never collapsed. Only one trailing space is removed.
- The leading `"1"` goes in front of the whole corrected line, surrounding whitespace included.

## Model

| member | source | states |
|---|---|---|
| DigitRatio.DigitCount | main.py:13 | the number of digit characters never exceeds the length |
| DigitRatio.DigitCountExtremes | main.py:13 | the count equals the length exactly when every character is a digit, and is 0 exactly when none is |
| DigitRatio.DtRatio | main.py:12-15 | the ratio lies between 0 and 1 |
| DigitRatio.DtRatioShare | main.py:12-15 | the ratio is 0 exactly when there is no digit, 1 exactly when the line is non-empty and all digits, and at least 0.5 exactly when the line is non-empty and 2·digits ≥ length |
| Confusion.L2d | main.py:23-27 | the loop over the six replacements in table order gives the table fold and the per-character reference; the result holds none of o O s S G and the comma, and is no longer than the input |
| Confusion.FixClean | main.py:24 | one character becomes at most one character, never a rewritten one, and any other character stays as it is |
| Confusion.TableOnCharacter | main.py:24-26 | on one character, the six sequential replacements give that character's table entry |
| Confusion.TableIsPerCharacter | main.py:24-26 | about `Corrected`, the per-character reference for l2d: the sequential str.replace calls equal replacing each character independently |
| Confusion.ApplyAppend | main.py:25-26 | the replacement loop distributes over concatenation |
| Confusion.CorrectedClean | main.py:24-26 | the corrected text holds none of o O s S G and the comma |
| Confusion.CorrectedShorter | main.py:24-26 | correction never lengthens the text |
| Confusion.CorrectedKeepsOthers | main.py:24-26 | every character that l2d neither rewrites nor writes survives, in the same order |
| Confusion.CorrectedKeepsClean | main.py:24-26 | text with none of the rewritten characters is returned unchanged |
| Confusion.CorrectedIdempotent | main.py:23-27 | applying l2d twice is the same as applying it once |
| Confusion.CorrectedAppend | main.py:24-26 | correction of a concatenation is the concatenation of the corrections |
| PyText.CountChar | main.py:46 | `line.count(c)` never exceeds the length |
| PyText.CountCharZero | main.py:46 | the count is 0 exactly when the character does not occur |
| PyText.ReplaceRemoves | main.py:53 | about `Replace`, the model of `str.replace` (also used at main.py:26): after `replace(pat, sub)` with pat not in sub, no pat is left; a one-character sub never lengthens the text; text without pat is unchanged |
| PyText.ReplaceAppend | main.py:26 | `str.replace` with a one-character pattern distributes over concatenation |
| PyText.ReplaceSingle | main.py:26 | on a single character, replace gives sub for pat and the character otherwise |
| PyText.SplitNoNewline | main.py:30 | no line holds the terminator |
| PyText.SplitTerminated | main.py:30 | splitting text made of lines each followed by '\n' gives those lines and one empty final segment |
| PyText.SplitLinesTerminated | main.py:30 | about `SplitLines`: `splitlines()` gives back exactly the lines of such a text, with no extra empty line |
| PyText.SplitLinesEmpty | main.py:30 | there are no lines exactly when the text is empty |
| PyText.LStripCut | main.py:38 | the whitespace `int()` skips at the front: the kept suffix does not start with whitespace, and only whitespace is cut |
| PyText.RStripCut | main.py:38 | the whitespace `int()` skips at the end: the kept prefix does not end in whitespace, and only whitespace is cut |
| PyText.StripShape | main.py:38 | the text `int()` reads is a slice with only whitespace cut on both sides, whose ends are not whitespace |
| PyText.StripAt | main.py:38 | whitespace around a slice that starts and ends with non-whitespace is exactly what `int()` skips |
| PyText.ParseIntGrammar | main.py:37-41 | about `ParseInt`, the model of `int()`: `int(line)` succeeds exactly when the line is a signed run of digits with only whitespace around it |
| PyText.DigitsValueZero | main.py:38 | a run of digits has value 0 exactly when every digit is '0' |
| PyText.ParseIntZero | main.py:38 | a line that parses has value 0 exactly when every digit in it is '0' |
| PyText.ParseIntNeedsDigit | main.py:37-41 | a line without digits raises `ValueError` |
| PyText.SeparatorsAreNotSkipped | main.py:37-41 | a line holding any of the separators 0x1C-0x1F anywhere is no integer literal, though `str.isspace` counts them as whitespace |
| PyText.SeparatorIsNotSkipped | main.py:37-41 | a last line of "0" followed by the separator 0x1F is no integer literal, as `int()` skips only tab, '\n', '\v', '\f', '\r' and space |
| Extractor.DataHandler | main.py:18-60 | the loop and the trim give `Extract(text)`: `("", "")` for empty text; otherwise the name lines joined by single spaces and the price the last line gives; the name holds no '1' |
| Extractor.HandleLine | main.py:31-54 | one turn of the loop updates the accumulators as `Step` says: the last line's text sets the price through the `int()` test, other price text sets the corrected price, anything else is appended to the name with a space |
| Extractor.RunSnoc | main.py:30-54 | handling one more line is one more `Step` of the fold `Run` |
| Extractor.PriceLineByRatio | main.py:46 | the test `dt_ratio(line) >= 0.5 or line.count(",") > 1` is exactly 2·digits ≥ length on a non-empty line, or at least two commas |
| Extractor.NameFixNoOne | main.py:53 | a fixed name line holds no '1', and a line without one is unchanged |
| Extractor.RunName | main.py:54 | the name accumulator is the name lines in input order, each followed by one space |
| Extractor.SpacedEndsInSpace | main.py:54 | appending each fragment with a space gives the joined name followed by one space |
| Extractor.TrimSpaced | main.py:57-58 | removing one trailing space turns the appended fragments into the fragments joined by single spaces |
| Extractor.ExtractClosedForm | main.py:30-58 | with at least one line, `item_name` is the name lines joined by single spaces and `item_price` depends only on the last line |
| Extractor.ExtractResult | main.py:18-60 | empty text gives `("", "")`, and only empty text has no lines; otherwise the closed form; the name never holds '1' |
| Extractor.NamesNoOne | main.py:53 | no name fragment holds '1' |
| Extractor.JoinSpacedNoOne | main.py:54 | joining fragments without '1' gives a name without '1' |
| Extractor.NameHasNoOne | main.py:53-58 | `item_name` never holds the digit 1 |
| Extractor.NamesAppend | main.py:30 | the name lines of a concatenation are the name lines of each part, in order |
| Extractor.DropIgnoredLine | main.py:32-48 | removing a non-last price line, or a line that reads the same as the last line, changes neither the name nor the price |
| Extractor.LastLinePriceCases | main.py:32-42 | about `LastLinePrice`, the price the last line gives: with c the corrected last line: the integer 0 exactly when c is no integer literal (the empty line included); "1"+c when c parses to zero; c when it parses to a nonzero value; never the empty string |
| Extractor.CorrectedKeepsNonDigit | main.py:34 | correction adds no digit to a line without digits and without o O s S G |
| Extractor.NoDigitPriceIsZero | main.py:37-41 | a last line without digits and without o O s S G gives the integer 0 |
| Extractor.ZeroRuleOnDigits | main.py:38-39 | for a bare run of zeros, the leading "1" gives a literal that parses to a nonzero value |
| Extractor.DigitsAreStripped | main.py:38 | `int()` skips nothing around a run of digits and reads its value |
| Extractor.ZeroRuleBreaksPadded | main.py:38-39 | any corrected last line that parses as zero but starts with whitespace or a sign is no integer once "1" is put in front of it |
| Extractor.ZeroRuleBeforeWhitespace | main.py:38-39 | the last line " 0" parses as zero and becomes "1 0", which is no integer |
| Extractor.PlainDigitsPrice | main.py:34-42 | a last line of plain digits is kept, or gets a leading "1" when all its digits are 0 |
| Extractor.PlainWordsAreName | main.py:46-53 | a line without digits and commas is name text, and the '1' fix leaves it unchanged |
| Extractor.PlainNames | main.py:46-54 | lines of plain words are all name lines, in order |
| Extractor.WellFormedListing | main.py:30-60 | name lines of plain words followed by a plain-digit price line give the words joined by spaces, and the price with a leading "1" when it is all zeros |
| Extractor.CallerText | main.py:261-263 | for the caller's text, each OCR result followed by '\n', datahandler sees exactly those results as its lines |

## Left out

- The `GUI` class (main.py:63-285) is not part of this model: tkinter widgets, key bindings and entry fields are user interface.
- SQLite persistence (`create_table`, `filter_data`, `add_item`, `delete_selected`, `load_listbox_data`) is left out. It consists of foreign database calls.
- Screen capture, OpenCV thresholding and EasyOCR are left out. They are library calls and image processing. The OCR results reach the model as a list of strings; see `CallerText`.
- `show_price_change` is left out. It is matplotlib plotting and `datetime` parsing.
- The `float()` parse of the price field in `add_item` is left out. It acts on the user-edited entry, after `datahandler`.
- DigitRatio.DtRatio: `dt_ratio` divides floats; the model divides exactly. For lines shorter than 2^52 characters, the comparison with 0.5 gives the same answer.
- DigitRatio.DigitCount: `str.isdigit` also accepts non-ASCII digits (superscripts and other scripts); the model counts only '0'-'9'.
- PyText.ParseInt: `int()` also accepts underscores between digits, non-ASCII digits and non-ASCII whitespace; the model accepts none of these. `int()` also raises `ValueError` on a literal of more than 4300 digits (Python 3.11 and later), which would make main.py:41 store 0; the model parses a literal of any length.
- PyText.SplitLines: `str.splitlines` also ends lines at '\r', "\r\n", '\v', '\f', 0x1C-0x1E, 0x85, U+2028 and U+2029; the model splits at '\n' only, the terminator the caller writes.
- The GUI calls `datahandler` twice on the same text (main.py:278-279). The model has one call, because the function has no side effects.
