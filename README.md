# Text-to-SQL utility scripts, modelled in Dafny

This project models the logic of three standalone Python scripts and proves properties of it:

- `add_watermark` (card.py) tiles a semi-transparent text watermark over an identity-card scan. It can first turn the picture a quarter turn counter-clockwise. It then resolves a font from a fixed list of platform paths and pastes one rotated text patch at every point of a grid. The grid starts one text width to the left of and one text height above the picture. Finally it composites the layer, flattens the image to RGB and saves it under `<name>_watermark<ext>` unless another path is given.
- `compare_sql_fields` (compare_SQL_generated.py) reads a JSON document and keeps the records whose `accuracy` equals 1 and whose `SQL` and `generated` texts still differ after `strip()`. It writes a numbered report of them and returns their count and the report path, or `(-1, None)` when anything raises.
- `compare_excel_columns` (Compare_contens_in_two_columns.py) takes the distinct non-missing values of one column in two sheets. It lists, in sorted order, the values found in only one of the two, and writes counts of those values and the row counts of both sheets.

Modules:

- `PyText` (py_text.dfy) holds the Python behaviour the scripts lean on:
  - `str()` of integers;
  - `"c" * n`;
  - `str.strip()` with Python's whitespace set;
  - code-point ordering of strings, as used by `sorted`;
  - a text file opened with `open(path, 'w')`, modelled as a class whose `Write` appends.
- `Watermark` (watermark.dfy) works on sizes only: an image is its size and colour mode. The watermark layer is a class that records every paste. The imaging library and the file system are fields of `Env`.
- `SqlDifferences` (sql_differences.dfy) contains:
  - JSON values;
  - the selection test, with its exception cases;
  - the scan over the records, proved against an order-preserving filter;
  - the report, write by write.
- `ColumnCompare` (column_compare.dfy) contains:
  - columns as sequences of optional cell texts;
  - the value sets and their differences;
  - `sorted` on a set, proved to give the unique ascending listing;
  - the report, write by write.

Two consequences of the code worth stating:

- **Empty watermark text.** The strides are `text_width + 80` and `text_height + 120`, so a step is never zero, even for empty text, and the tiling runs normally (`Watermark.LayoutOf`).
- **Missing fonts.** The font search always ends with a font: when no listed file exists, or the first one that exists fails to load, it falls back to the default font, with one of two warnings (`Watermark.ChosenFont`).

## Model

| member | source | states |
|---|---|---|
| PyText.NatToString | compare_SQL_generated.py:46 | `str(n)` of a count is a non-empty run of decimal digits with no leading zero |
| PyText.NatToStringRoundTrip | compare_SQL_generated.py:46 | reading the printed digits back gives the number printed |
| PyText.IntToString | compare_SQL_generated.py:51 | `str(i)` of an integer question id is a minus sign when negative, then digits with no leading zero that read back as its magnitude |
| PyText.Repeat | compare_SQL_generated.py:47 | `"=" * 80` has exactly 80 characters, each the repeated one |
| PyText.ConcatAppend | compare_SQL_generated.py:45-55 | writing one group of chunks after another leaves the two texts one after the other |
| PyText.Strip | compare_SQL_generated.py:35 | `strip()` leaves no whitespace at either end, is empty exactly when the text is all whitespace, and is never longer |
| PyText.StripIsSlice | compare_SQL_generated.py:35 | what `strip()` keeps is one slice of the text, and everything dropped before and after it is whitespace |
| PyText.IsSpace | compare_SQL_generated.py:35 | space, tab, newline, carriage return and the ideographic space count as whitespace; no digit, ASCII letter or underscore does |
| PyText.StripPadded | compare_SQL_generated.py:35 | whitespace added around a text never changes what `strip()` gives |
| PyText.Below | Compare_contens_in_two_columns.py:27 | Python's `<` on strings is the lexicographic order: a proper prefix comes first, otherwise the smaller code point at the first difference |
| PyText.BelowIrreflexive | Compare_contens_in_two_columns.py:27 | no string sorts before itself |
| PyText.BelowTransitive | Compare_contens_in_two_columns.py:27 | the string order used by `sorted` is transitive |
| PyText.BelowTotal | Compare_contens_in_two_columns.py:27 | any two different strings are ordered one way or the other |
| PyText.TextFile.Open | compare_SQL_generated.py:45 | opening for writing starts from an empty file |
| PyText.TextFile.Write | compare_SQL_generated.py:46 | each `write` appends its text and changes nothing else |
| Watermark.Rotated90 | card.py:27-28 | the quarter turn with canvas expansion swaps width and height and keeps the mode |
| Watermark.WorkingSize | card.py:26-28 | the working size is the source size swapped when `rotate_ccw` is set, and unchanged otherwise |
| Watermark.Converted | card.py:31-32 | conversion to RGBA keeps the size |
| Watermark.AlphaComposite | card.py:90 | compositing two RGBA images of one size gives an RGBA image of that size |
| Watermark.FontSize | card.py:39 | the font size is the largest whole number whose 25-fold fits within both sides |
| Watermark.FontSizeIgnoresRotation | card.py:27-39 | the optional quarter turn never changes the font size |
| Watermark.FirstExisting | card.py:52-55 | the search stops at the first listed path that exists; every earlier one is missing |
| Watermark.ChosenFont | card.py:42-62 | there is no warning exactly when a TrueType font was loaded, from a listed path at the computed size; the "no font found" warning comes exactly when no listed path exists |
| Watermark.ChosenFontIsFirstMatch | card.py:44-55 | a TrueType font always comes from the first existing listed path, at the computed size, with no warning |
| Watermark.FirstExistingPathIsUsed | card.py:50-62 | the first listed path that exists is the one used: it gives a TrueType font at the computed size with no warning when it loads, and the default font with the "loading failed" warning when it does not, whatever later paths hold |
| Watermark.FirstExistingIsFirst | card.py:52-55 | any index whose path exists with every earlier path missing is the index where the search stops |
| Watermark.NoFontFileMeansDefault | card.py:57-59 | when no listed font file exists, the default font is used with the "no font found" warning |
| Watermark.ResolveFont | card.py:42-62 | the loop with `break` and both handlers settles on the specified font and warning; it checks paths in order and none after the first that exists |
| Watermark.LayoutOf | card.py:65-73 | text width and height are the box's corner differences; strides are 80 and 120 more, so never zero |
| Watermark.Range | card.py:76-77 | `range(start, stop, step)` starts at `start`, stays below `stop`, is empty exactly when `start >= stop`, and one more step would reach `stop` |
| Watermark.RangeStride | card.py:76-77 | neighbouring values of the range are exactly one stride apart |
| Watermark.RangeCovers | card.py:76-77 | every point between start and stop lies within one stride after some value of the range |
| Watermark.Row | card.py:77 | one pass of the inner loop visits `(x, y)` for each `x`, in order |
| Watermark.Grid | card.py:76-77 | the nested loops start at the first row value and the first column value |
| Watermark.GridHas | card.py:76-77 | every pairing of a row value with a column value is visited |
| Watermark.GridOnly | card.py:76-77 | every visited origin pairs a row value with a column value |
| Watermark.TileOriginsInBounds | card.py:76-77 | every tile origin lies within one text size of the layer's edges |
| Watermark.FirstTileOrigin | card.py:76-77 | the first tile is pasted at `(-text_width, -text_height)` |
| Watermark.TilesCoverLayer | card.py:72-77 | every pixel of the layer lies within one stride right of and below some tile origin, so no margin is left untreated |
| Watermark.TilePatch | card.py:70-84 | each tile canvas is exactly 20 pixels wider and taller than the text, which sits at (10, 10) with a 10-pixel margin on every side, filled red `(255, 0, 0)` at alpha 128 and turned by -30 degrees |
| Watermark.Layer.constructor | card.py:35 | the layer has the working image's size and starts with nothing pasted |
| Watermark.Layer.Paste | card.py:87 | a paste adds one tile at the given origin, to the layer only |
| Watermark.TileRow | card.py:77-87 | one row pastes a tile at every column value, left to right |
| Watermark.TileLayer | card.py:76-87 | the nested loops paste one tile at every origin of the grid, row by row, and nothing else |
| Watermark.RFind | card.py:97 | `rfind` gives the last index holding a searched character, or -1 |
| Watermark.SplitExt | card.py:97 | `splitext` splits the path into name and extension that rejoin to it; the extension is empty or one dot followed by no dot or separator |
| Watermark.ExtensionFoundIff | card.py:97 | `splitext` finds an extension exactly when the file name after the last separator holds a dot with some other character before it |
| Watermark.WatermarkPath | card.py:96-98 | the default output path is longer than the input by `_watermark` and never equals it |
| Watermark.WatermarkPathSplits | card.py:96-98 | splitting the default output path gives back the input's extension, with `_watermark` on the name |
| Watermark.AddWatermark | card.py:12-110 | the parameters default to no output path, the text "仅供xxx使用，他用无效" and a quarter turn. It returns None with nothing pasted when the image cannot be opened. Otherwise the saved image has the working size in RGB, one tile sits at every grid origin, the font warning is the search's, and the result is the output path exactly when saving succeeds |
| SqlDifferences.EqualsOne | compare_SQL_generated.py:32 | `== 1` holds exactly for the integer 1, the float 1.0 and `True` |
| SqlDifferences.Selected | compare_SQL_generated.py:32-35 | a selected record has both texts and they differ even unstripped; a text-valued accuracy never qualifies |
| SqlDifferences.Check | compare_SQL_generated.py:32-35 | the test passes exactly for selected records; it raises for a non-dict item, or for a non-string text once accuracy and both keys are present |
| SqlDifferences.WhitespaceOnlyNotSelected | compare_SQL_generated.py:35 | texts that differ only in surrounding whitespace are never reported |
| SqlDifferences.Project | compare_SQL_generated.py:37-42 | the stored entry keeps both texts unstripped and puts "N/A" for a missing question id or question |
| SqlDifferences.Records | compare_SQL_generated.py:23-24 | a JSON list is scanned as its elements, any other document as a list of one record |
| SqlDifferences.Scan | compare_SQL_generated.py:30-42 | a finished loop holds at most one entry per record |
| SqlDifferences.ScanErrorStays | compare_SQL_generated.py:30-42 | once a record raises, later records change nothing: the whole call fails |
| SqlDifferences.ScanOkIffNoneRaise | compare_SQL_generated.py:30-35 | the loop finishes exactly when no record makes the test raise |
| SqlDifferences.Kept | compare_SQL_generated.py:30-35 | the reference filter keeps at most as many records as it is given |
| SqlDifferences.KeptMembers | compare_SQL_generated.py:30-35 | a record is kept exactly when it occurs in the input and passes the test |
| SqlDifferences.ScanIsProjectedFilter | compare_SQL_generated.py:27-42 | when the loop finishes, `differences` is one entry per selected record, in input order |
| SqlDifferences.SelectDifferences | compare_SQL_generated.py:27-42 | the loop computes the specified scan, stopping at the first record that raises |
| SqlDifferences.Show | compare_SQL_generated.py:51-54 | a string field is written as it stands, without quotes, and an integer as its decimal text |
| SqlDifferences.Entries | compare_SQL_generated.py:49-55 | the entries take six writes each |
| SqlDifferences.EntryAt | compare_SQL_generated.py:49-55 | the `k`-th difference occupies writes `6k` to `6k+5` and is numbered `k+1` |
| SqlDifferences.ReportHeader | compare_SQL_generated.py:45-47 | for any number of differences, zero included, the report opens with the count line, whose number reads back as that count, then the 80-character rule, and holds `2 + 6n` writes |
| SqlDifferences.ReportNumbering | compare_SQL_generated.py:49-55 | for every difference `k` (from 0), writes `2+6k` to `7+6k` are its six lines, and the first of them carries the number `k+1` |
| SqlDifferences.WriteEntry | compare_SQL_generated.py:50-55 | the six writes of one entry append exactly its chunks |
| SqlDifferences.WriteReport | compare_SQL_generated.py:45-55 | the file holds the header and then every entry, in order |
| SqlDifferences.DefaultReportName | compare_SQL_generated.py:13-15 | the default report name is `sql_differences_`, then the timestamp, then `.txt` |
| SqlDifferences.CompareSqlFields | compare_SQL_generated.py:4-61 | gives `(-1, None)` when reading, any record or opening the report fails. Otherwise gives the number of differences and the given or timestamped path, which is the file the report is written to, with the report as written. The count is -1 exactly when the path is None |
| ColumnCompare.Values | Compare_contens_in_two_columns.py:17-18 | the distinct non-missing values never outnumber the cells |
| ColumnCompare.ValuesMembers | Compare_contens_in_two_columns.py:17-18 | a value is in the set exactly when some non-missing cell holds it |
| ColumnCompare.DifferencesPartition | Compare_contens_in_two_columns.py:20-21 | the two one-sided differences are disjoint, together with the common values they make up the union, and each with the common values counts as its source set |
| ColumnCompare.LeastExists | Compare_contens_in_two_columns.py:27 | every non-empty set of strings has a least element |
| ColumnCompare.SortSet | Compare_contens_in_two_columns.py:27 | `sorted(set)` lists each element once, in strictly ascending order, and nothing else |
| ColumnCompare.AscendingUnique | Compare_contens_in_two_columns.py:27-32 | two strictly ascending listings of the same strings are equal, so the listing is exactly Python's `sorted` |
| ColumnCompare.ItemsSnoc | Compare_contens_in_two_columns.py:27-28 | one more pass of the listing loop adds one `- item` line |
| ColumnCompare.ReportLayout | Compare_contens_in_two_columns.py:24-36 | line `2+i` is the `i`-th value only in file 1, line `3+n1+i` the `i`-th only in file 2, then the statistics heading and two counts that read back as the listing lengths |
| ColumnCompare.WriteSection | Compare_contens_in_two_columns.py:26-28 | a heading and then one `- item` line per listed value, in order |
| ColumnCompare.WriteSummary | Compare_contens_in_two_columns.py:34-38 | the statistics heading and the four count lines |
| ColumnCompare.WriteReport | Compare_contens_in_two_columns.py:23-38 | the file holds the title, both sections and the statistics, in order |
| ColumnCompare.CompareExcelColumns | Compare_contens_in_two_columns.py:3-38 | a missing column in either sheet raises, file 1 first. Otherwise the two one-sided differences are listed in ascending order, their counts are their sizes, and the report is written as specified, to the file at `output_path` |
| ColumnCompare.CountsWithinRows | Compare_contens_in_two_columns.py:35-38 | the unique-value counts never exceed the row counts reported beside them, missing cells included |

## Left out

- Pixels: glyph rendering, the -30 degree turn of each tile, alpha blending and the RGB conversion are library work. The model tracks sizes, modes and where each tile is pasted, not pixel values.
- `Image.open`, `save` with quality 98 and 300 dpi, `os.path.exists`, `ImageFont.truetype` and `draw.textbbox` are parameters of `Env`. Their outcomes are given, not computed. `Image.open` decodes lazily, so the `open` parameter stands for opening the file together with the first load of its pixels in `rotate` or `convert`: a file that opens but whose pixels cannot be decoded there counts as failing to open. For an RGBA image that is not turned, neither call runs and the first load is `alpha_composite` (card.py:90), after every tile is pasted; that late failure, which gives `None` after the pastes, is not modelled.
- Watermark.TextBox: assumes `textbbox` never returns a box with right edge left of left edge or bottom above top. With that, both strides are positive.
- Watermark.FontSize: `int(min(size) / 25)` goes through a float. The model uses exact division, which agrees for every size an image can have.
- Watermark.AddWatermark: an exception raised after the image opened, other than a failed save, is not modelled. Such calls are the library calls above and `img.rotate(90, expand=True)`, `img.convert`, `Image.new`, `ImageDraw.Draw` (card.py:36, :80), `txt_draw.text` (card.py:81), `Image.rotate` of each tile, `paste` and `alpha_composite`, all taken to succeed on the sizes the model tracks. The likeliest real exception among them: with the bitmap font that older Pillow returns from `ImageFont.load_default()`, text is encoded as Latin-1, so `textbbox` and `text` raise on Chinese text such as the default; after either font fallback the source then returns `None`, where the model goes on to tile.
- Watermark.ResolveFont: `os.path.exists` raising, which would also send the search to the default font, is not modelled.
- The `main()` of card.py: argument handling, the existence check on the input path and all `print` output.
- Console output inside the modelled functions: the error print of compare_SQL_generated.py:60 and the status prints of card.py:102-104 and :109. The two font warnings of card.py:59 and :62 are modelled, as `warning`.
- The `__main__` blocks of the two comparison scripts, with their hard-coded paths and prints.
- SqlDifferences.CompareSqlFields: reading and parsing the JSON file is a parameter (`None` when it raised). The clock is a timestamp parameter, and whether the report file can be opened is a boolean.
- SqlDifferences.CompareSqlFields: every write after the report file opened is taken to succeed. A text holding a lone surrogate would make the UTF-8 encoder raise in mid-report, leaving a partial file and the result `(-1, None)`; that case is not modelled.
- ColumnCompare.CompareExcelColumns: every write after the output file opened is taken to succeed. A value holding a lone surrogate would make the UTF-8 encoder raise in mid-report and propagate; that case is not modelled.
- SqlDifferences.Json: a JSON number with a fraction or exponent is a `real`. The NaN, Infinity and -Infinity that `json.load` also accepts have no `real` value and are not modelled; under them `accuracy == 1` is false, as for any other non-1 number.
- PyText.TextFile: `contents` is the text as passed to `write`, before newline translation and UTF-8 encoding. On Windows, text mode writes each `"\n"` as `"\r\n"`, so the bytes on disk differ from `contents` there.
- SqlDifferences.Show: Python's rendering of floats, lists and dicts inside the report is a parameter. Strings, integers, booleans and `None` are rendered as Python does.
- ColumnCompare.CompareExcelColumns: `pd.read_excel` is not modelled; each sheet arrives as its row count and columns. `astype(str)` is taken as already applied, and NaN or None cells are `None`. Failing to open the output file is modelled as `CannotWrite`, though the script lets it propagate.
- `sorted` is Timsort in Python. The model sorts by repeated choice of the least element. `ColumnCompare.AscendingUnique` shows both give the same listing.
- delete_keywords_column.py, drop_duplicates.py and parquet_to_xlsx.py are single pandas calls on hard-coded files and are not part of this model.
