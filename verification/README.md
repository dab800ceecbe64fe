# Newsgroup body extraction and cleaning, modelled in Dafny

This project models the part of the repository that turns newsgroup messages into a
cleaned text dataset. That part is two scripts.

`news_csv_50.py` does four things:

- It locates the `.eml` files under a root directory: one capped block per category
  subdirectory, or an `uncategorized` block from the root itself.
- It extracts a main body from each file. Envelope text goes through a light paragraph
  pass. Otherwise the raw bytes go through the line-classifying heuristic extractor.
- It keeps the rows whose body is long enough.
- It exports them after the formula-injection guard and the removal of illegal XML
  control characters.

`deepcleane.py` does three things:

- It re-reads that dataset.
- It normalises each text with `clean_body`. That is a blank-line cut, a second line
  filter, and an ordered chain of regular-expression substitutions: emails, URLs,
  tags, disallowed characters, newline runs and whitespace runs, then lower-casing,
  stripping and illegal-character removal.
- It drops the rows whose cleaned text is shorter than 60 characters.

Everything is a pure function over strings, line sequences and an abstract directory
value. Python's character classes are modelled as explicit sets (`Chars`):

- `str.isspace` and `\s` are the same set.
- `str.splitlines` uses its own break set, with `\r\n` as one break.
- The case equivalences of `re.I` are modelled as they are.
- The illegal XML class is `\x00-\x08`, `\x0b`, `\x0c` and `\x0e-\x1f`.

The regular-expression substitutions are modelled exactly as Python's leftmost-greedy
scan computes them:

- `\S+@\S+` replaces a whole whitespace-free word by one space exactly when the word
  has an `@` that is neither its first nor its last character.
- `http\S+|www\.\S+` replaces each word from its first URL start onward.
- `re.split(r"\n\s*\n", s, maxsplit=1)` cuts after the last newline of the first
  whitespace run that holds two newlines.

Modules, following the two scripts:

| module | file | what it holds |
|---|---|---|
| `Maybe`, `Chars` | chars.dfy | `Option`; Python's character classes, ASCII lowering, `re.I` letter equivalence |
| `Text` | text.dfy | `strip`/`lstrip`/`rstrip`, `splitlines`, `join`, case-insensitive prefix and search |
| `Seqs` | seqs.dfy | list comprehension with a condition, the enumerate-and-break cap, string order and `sorted` |
| `Sanitize` | sanitize.dfy | `remove_illegal_xml_chars`, `sanitize_for_excel`, the column value `Cell` |
| `Patterns` | patterns.dfy | the blank-line cut, the `\n{2,}` paragraph split, `<[^>]+>` tag removal |
| `LineScan` | linescan.dfy | the classify-and-scan loop both line filters share |
| `Heuristic` | heuristic.dfy | the classifier, `extract_body_by_heuristic`, the light pass, `extract_main_body_from_file` |
| `Locator` | locator.dfy | `collect_eml_files` over an abstract directory |
| `Assembly` | assembly.dfy | the row filter and export of `convert_20ng_to_excel` |
| `DeepLines` | deeplines.dfy | the line filter of `clean_body` |
| `Substitute` | substitute.dfy | the substitution chain of `clean_body`, step by step |
| `DeepClean` | deepclean.dfy | `clean_body` and the final length filter of the script |

## Model

| member | source | states |
|---|---|---|
| Sanitize.RemoveIllegalXmlChars | news_csv_50.py:16-21 | no illegal control character is left; the result is no longer than the input; a string without illegal characters is returned unchanged |
| Sanitize.RemoveIllegalCell | news_csv_50.py:18-21 | non-string values are returned unchanged; a string loses its illegal characters and nothing else changes when it has none |
| Sanitize.RemoveIllegalConcat | deepcleane.py:6-11 | removal works piecewise over a concatenation, so the kept characters stay in their original order |
| Sanitize.RemoveIllegalCounts | deepcleane.py:6-11 | every legal character survives exactly as often as it occurs (tab, newline and carriage return included), and no illegal one survives |
| Sanitize.RemoveIllegalKeeps | deepcleane.py:54 | any property of every input character holds of every character the removal keeps |
| Sanitize.RemoveIllegalEnds | deepcleane.py:54 | a legal first or last character stays first or last |
| Sanitize.RemoveIllegalIdempotent | deepcleane.py:6-11 | removing twice gives the same as removing once |
| Sanitize.SanitizeForExcel | news_csv_50.py:143-146 | a non-empty string result never starts with `=`, `+`, `-` or `@`; a value changes exactly when it is a string that starts with one of them, and the only change is one leading `'` |
| Chars.LowerAscii | deepcleane.py:53 | upper-case ASCII letters map to their lower-case letter; every other character is unchanged |
| Chars.IsSpace | news_csv_50.py:28 | the characters `str.isspace` and `\s` accept |
| Chars.IsLineBreak | news_csv_50.py:64 | the characters at which `str.splitlines` ends a line |
| Chars.IsIllegalXml | news_csv_50.py:16 | the class `\x00-\x08`, `\x0b`, `\x0c`, `\x0e-\x1f` |
| Chars.CaseFoldEq | news_csv_50.py:23-26 | a text character matches a lower-case pattern letter under `re.I`: its two ASCII cases and the four non-ASCII letters Python folds onto ASCII |
| Text.LeadingSpace | news_csv_50.py:28 | the length of the whitespace run `^\s*` matches at the start |
| Text.TrailingSpace | news_csv_50.py:30 | the length of the whitespace run at the end of the string |
| Text.LStrip | news_csv_50.py:79 | the suffix after the leading whitespace; empty exactly when the string is all whitespace |
| Text.RStrip | news_csv_50.py:79 | the prefix before the trailing whitespace; empty exactly when the string is all whitespace |
| Text.Strip | news_csv_50.py:77 | the middle of the string, with only whitespace cut on either side; it has no edge whitespace; empty exactly when the input is all whitespace |
| Text.SplitLines | news_csv_50.py:64 | no line contains a line break; no lines exactly for the empty string |
| Text.Join | news_csv_50.py:77 | the elements with the separator between neighbours |
| Text.JoinSplitLines | news_csv_50.py:77 | joining the lines of a `\n`-only text without a final newline gives the text back |
| Text.SplitJoinLines | news_csv_50.py:103 | splitting the `\n`-join of break-free lines, the last one non-empty, gives the lines back |
| Text.StripJoin | news_csv_50.py:103-104 | stripping a `\n`-join equals joining the lines after the first non-blank one loses its indentation and the last non-blank one loses its trailing whitespace |
| Text.StripJoinLines | news_csv_50.py:103-104 | splitting the stripped `\n`-join of break-free lines gives exactly the line list with its front and back stripped |
| Text.JoinOnlyNewlineBreaks | news_csv_50.py:103 | the `\n`-join of break-free lines has no line break other than `\n` |
| Text.StripOnlyNewlineBreaks | news_csv_50.py:104 | stripping a text whose only line breaks are `\n` keeps that so |
| Text.NewlineTextIsJoin | news_csv_50.py:103-104 | a text without edge whitespace whose only line breaks are `\n` is the `\n`-join of its lines |
| Text.LStripJoin | news_csv_50.py:103-104 | the left half of the strip of a join, line by line |
| Text.RStripJoin | news_csv_50.py:103-104 | the right half of the strip of a join, line by line |
| Text.LStripConcat | news_csv_50.py:77 | left-stripping a concatenation strips only the first part, unless that part is all whitespace |
| Text.RStripConcat | news_csv_50.py:77 | right-stripping a concatenation strips only the last part, unless that part is all whitespace |
| Seqs.Filter | news_csv_50.py:123 | the comprehension keeps exactly the elements that pass the test, and nothing else |
| Seqs.FilterConcat | news_csv_50.py:156-164 | filtering distributes over concatenation, so kept elements keep their relative order |
| Seqs.FilterMultiset | news_csv_50.py:123 | the filter only removes elements |
| Seqs.Take | news_csv_50.py:126-128 | enumerate-and-break at `i >= cap` visits the first `cap` elements; nothing when the cap is zero or negative, and everything when it exceeds the length |
| Seqs.StrLeTotal | news_csv_50.py:119 | Python's string order is total |
| Seqs.StrLeTransitive | news_csv_50.py:119 | Python's string order is transitive |
| Seqs.StrLeAntisymmetric | news_csv_50.py:119 | Python's string order is antisymmetric |
| Seqs.StrLe | news_csv_50.py:119 | Python's `<=` on strings: lexicographic by code point, a proper prefix first |
| Seqs.Sort | news_csv_50.py:119 | `sorted` returns a sorted permutation of its input |
| Seqs.FilterSorted | news_csv_50.py:123 | filtering a sorted list leaves it sorted |
| Patterns.BlankCut | news_csv_50.py:60 | the first position where `\n\s*\n` matches, with the greedy end of that match: no earlier start matches, and no longer match from that start exists |
| Patterns.BodyAfterBlank | news_csv_50.py:60-61 | the body is a suffix of the text, and it is the whole text exactly when `\n\s*\n` matches nowhere |
| Patterns.HeaderBlockIgnored | deepcleane.py:20-21 | a header block with no blank line, then a blank line, then a body that does not start with whitespace: the cut keeps exactly the body |
| Patterns.SplitBlankRuns | news_csv_50.py:79 | no piece of the `\n{2,}` split contains two newlines in a row; a text with none stays one piece |
| Patterns.StrippedNonEmpty | news_csv_50.py:79 | every paragraph is non-empty with no edge whitespace; there is none exactly when every piece is blank |
| Patterns.Paragraphs | news_csv_50.py:79 | every paragraph is non-empty and has no edge whitespace |
| Patterns.SplitBlankRunsAtRun | news_csv_50.py:79 | a run of two or more newlines after a piece without a doubled newline ends that piece: the split of the whole is that piece followed by the split of the text after the run |
| Patterns.StrippedNonEmptyConcat | news_csv_50.py:79 | the blank-dropping strip works piece by piece: on a joined list of pieces it gives the two results joined, so nothing is reordered or merged |
| Patterns.StrippedNonEmptyOne | news_csv_50.py:79 | one piece gives its stripped form, or nothing when it is all whitespace |
| Patterns.ParagraphsAtRun | news_csv_50.py:79 | at a run of two or more newlines after such a piece, the paragraphs are the stripped piece (none when it is blank) followed by the paragraphs of the rest |
| Patterns.NoParagraphsIffBlank | news_csv_50.py:79-80 | a text has no paragraph exactly when it is all whitespace |
| Patterns.AllBlankSplit | news_csv_50.py:79 | every piece of the split is blank exactly when the text is all whitespace |
| Patterns.RemoveTags | news_csv_50.py:78 | no `<[^>]+>` match is left; every character is a space or comes from the input; a first character other than `<` stays first |
| Patterns.NoOpenUnchanged | deepcleane.py:49 | a text without `<` passes the tag substitution unchanged |
| LineScan.Scan | news_csv_50.py:63-75 | every kept line is a content line, and there are no more kept lines than input lines |
| LineScan.ScanIsContentBeforeStop | news_csv_50.py:63-75 | the scan keeps exactly the content lines before the first stopping line, in their order |
| LineScan.StopAtFirst | deepcleane.py:35-37 | the scan stops at the first line that passes the signature test |
| Heuristic.Classify | news_csv_50.py:65-74 | a line is kept exactly when it matches none of `HEADER_PATTERN`, `QUOTE_LINE`, `REPLY_MARKER`, `SIG_SEP` or the `[-=]{3,}` rule, and ends the scan exactly when it matches `SIG_SEP` |
| Heuristic.IsHeaderLine | news_csv_50.py:23-26 | the line starts with one of the twelve field names and a colon, letters matched as `re.I` matches them |
| Heuristic.IsQuoteLine | news_csv_50.py:28 | the first non-whitespace character of the line is `>` or a vertical bar |
| Heuristic.IsReplyLine | news_csv_50.py:29 | `writes:`, `wrote:` or `In article`, optional whitespace and `<` occur anywhere in the line, in any case |
| Heuristic.IsSigSep | news_csv_50.py:30 | the line is `--` with only whitespace around it |
| Heuristic.IsSeparatorLine | news_csv_50.py:73 | the line is three or more `-` or `=` characters with only whitespace around them |
| Heuristic.CleanedText | news_csv_50.py:77-78 | the retained lines joined by newlines, stripped, then put through the tag substitution |
| Heuristic.JoinedLines | news_csv_50.py:81 | the non-blank lines of the text, each stripped, joined by single spaces |
| Heuristic.SigSepIsPlain | news_csv_50.py:28-30 | a `SIG_SEP` line matches none of the header, quote and reply patterns, so the test order does not change the verdict |
| Heuristic.NormalizeNewlines | news_csv_50.py:59 | no carriage return is left; a text without one is unchanged |
| Heuristic.ReplaceCrLf | news_csv_50.py:99 | no longer than the input; a text without carriage returns is unchanged |
| Heuristic.ReplaceCrLfNoPair | news_csv_50.py:99 | a text where no carriage return is followed by a newline is unchanged |
| Heuristic.ReplaceCrLfConcat | news_csv_50.py:99 | the replacement distributes over a concatenation that does not cut a CRLF pair in two |
| Heuristic.ReplaceCrLfAtPair | news_csv_50.py:99 | a CRLF pair between two texts becomes exactly one newline between their replaced forms |
| Heuristic.NormalizeNewlinesConcat | news_csv_50.py:59 | the normalisation distributes over a concatenation that does not cut a CRLF pair in two |
| Heuristic.NormalizeNewlinesAtBreak | news_csv_50.py:59 | a CRLF pair, and a carriage return not followed by a newline, each become exactly one newline between the normalised neighbours |
| Heuristic.RetainedLines | news_csv_50.py:59-75 | no retained line matches `HEADER_PATTERN`, `QUOTE_LINE`, `REPLY_MARKER`, `SIG_SEP` or the separator rule |
| Heuristic.RetainedLinesStopAtSignature | news_csv_50.py:63-75 | the retained lines are the unclassified lines of the text after the blank-line cut that come before its first `SIG_SEP` line, in their original order |
| Heuristic.HeadersNeverScanned | news_csv_50.py:59-61 | a header block followed by a blank line is never scanned: the scan sees exactly the body |
| Heuristic.FallbackIsEmpty | news_csv_50.py:80-81 | the fallback paragraph is always empty, since it is built only when the text is all whitespace |
| Heuristic.FirstAtLeast | news_csv_50.py:83-85 | the index of the first paragraph of at least the given length, or none when every paragraph is shorter |
| Heuristic.LongestIndex | news_csv_50.py:86 | `max(..., key=len)`: a paragraph of greatest length, and the first of them |
| Heuristic.SelectParagraph | news_csv_50.py:83-86 | `""` when there are no paragraphs; otherwise either the first paragraph of at least `MIN_BODY_LEN` characters, or, when there is none, the first longest paragraph |
| Heuristic.ExtractBodyByHeuristic | news_csv_50.py:58-86 | the result has no edge whitespace; the empty text gives `""`; the result is the first long-enough or else the first longest paragraph of the cleaned text, and `""` when there is none |
| Heuristic.LightCandidate | news_csv_50.py:101-102 | the first paragraph of at least `MIN_BODY_LEN` characters that is not a quote, or none when every paragraph is short or quoted |
| Heuristic.LightPassAsWritten | news_csv_50.py:99-105 | as written: the result has no edge whitespace; with no candidate paragraph it is the heuristic on the same text; with one, the lines of the result are exactly the candidate's lines that do not match `HEADER_PATTERN`, in order, after leading blank lines and indentation are cut from the front and trailing whitespace from the back, and its only line breaks are newlines |
| Heuristic.LightPassAsWrittenIsJoin | news_csv_50.py:103-104 | with a candidate paragraph, the as-written result is exactly the kept lines, with leading blank lines and indentation cut from the front and trailing whitespace from the back, joined by `\n` |
| Heuristic.LightPassAsWrittenExposesHeader | news_csv_50.py:103-104 | for every break-free `x` of at least 60 characters whose last character is not whitespace, the as-written pass on `"From:\n from:" + x` returns a header line |
| Heuristic.LightPass | news_csv_50.py:99-105 | corrected pass: no edge whitespace; with no candidate it is the heuristic on the same text; with one, the lines of the result are exactly the candidate's lines whose unindented text does not match `HEADER_PATTERN`, stripped at the ends in the same way; its only line breaks are newlines, and no line of the result matches `HEADER_PATTERN` |
| Heuristic.LightPassIsJoin | news_csv_50.py:103-104 | with a candidate paragraph, the corrected result is exactly the lines passing the corrected test, stripped at the ends in the same way, joined by `\n` |
| Heuristic.LightPassesAgree | news_csv_50.py:99-105 | when no line of the candidate paragraph starts with whitespace, the corrected pass and the pass as written return the same body |
| Heuristic.UnindentedTestAgrees | news_csv_50.py:103 | on a line that does not start with whitespace, the corrected header test drops exactly what the test as written drops |
| Heuristic.IndentedIsNotHeader | news_csv_50.py:23-26 | a line that starts with whitespace never matches `HEADER_PATTERN` |
| Heuristic.UnindentedTestCovers | news_csv_50.py:103-104 | a line whose unindented text is not a header is not a header, and stays so after either strip |
| Heuristic.KeptLinesHeaderFree | news_csv_50.py:103-104 | joining lines that pass the corrected test and stripping the join leaves no header line |
| Heuristic.Latin1 | news_csv_50.py:108 | each byte becomes the character with the same code |
| Heuristic.ExtractMainBody | news_csv_50.py:89-111 | an unreadable file gives `""`; a non-empty envelope text goes through the light pass as written; an empty or failed parse sends the Latin-1 text through the heuristic; the result never has edge whitespace |
| Heuristic.ExtractMainBodyCorrected | news_csv_50.py:89-111 | the same cases with the corrected light pass; a parsed text with a candidate paragraph gives a body without header lines |
| Locator.EmlFiles | news_csv_50.py:123 | sorted, and holds exactly the listed names ending in `.eml` in any case |
| Locator.IsEml | news_csv_50.py:123 | the name ends in `.eml` once lower-cased |
| Locator.AnyEml | news_csv_50.py:120-125 | some subdirectory lists at least one `.eml` name, whatever the cap |
| Locator.SubdirItems | news_csv_50.py:121-129 | every item of the per-subdirectory blocks has a subdirectory as its category and the category and file name as its path |
| Locator.Block | news_csv_50.py:123-129 | the first `min(cap, count)` `.eml` names in sorted order: every name left out comes after every name kept |
| Locator.Entries | news_csv_50.py:129 | one item per name, with the category and the joined path |
| Locator.Subdirs | news_csv_50.py:119 | sorted, and holds exactly the listed names that are directories |
| Locator.CollectEmlFiles | news_csv_50.py:114-140 | a non-directory root gives `[]`; when some subdirectory has an `.eml` file, every item is a subdirectory file; otherwise the items are the capped `uncategorized` block of the root's own `.eml` files |
| Locator.CategoryIsBlock | news_csv_50.py:121-129 | when subdirectories hold `.eml` files, the names located for a category are exactly the capped sorted block of that subdirectory |
| Locator.CategoriesInOrder | news_csv_50.py:119-138 | the located items are grouped by category in sorted category order |
| Assembly.BuildRows | news_csv_50.py:156-164 | every row has a non-empty body of at least `MIN_BODY_LEN` characters once stripped; no more rows than files |
| Assembly.BuildRowsIsFilter | news_csv_50.py:156-164 | the rows are exactly the located files whose body passes the length test, in locator order |
| Assembly.RowsOf | news_csv_50.py:164 | one row per item, holding its file name, category and body |
| Assembly.ExportCellAsWritten | news_csv_50.py:173-176 | as written: non-strings unchanged; a string becomes its legal characters, after one leading `'` exactly when its first character starts a formula; an exported string can start a formula only when the original began with an illegal character |
| Assembly.ExportAsWrittenLetsFormulaThrough | news_csv_50.py:173-176 | for every illegal character `c`, the as-written export of `c` + `"="` + a legal rest starts with `=` |
| Assembly.ExportCell | news_csv_50.py:173-176 | corrected order: non-strings unchanged; a string result has no illegal character and does not start a formula; it is the legal characters of the input, after one `'` exactly when those legal characters start a formula |
| Assembly.ExportRecords | news_csv_50.py:173-176 | every row is exported with the given per-cell export, one record per row, in order |
| Assembly.Convert | news_csv_50.py:149-176 | as written: no files exactly when the locator finds none; no rows exactly when no located file's body passes the length test; otherwise one record per passing file, in locator order, each column exported by `ExportCellAsWritten`, and every cell free of illegal characters |
| Assembly.ConvertCorrected | news_csv_50.py:149-176 | the same outcome with the corrected reader and `ExportCell`; every cell is free of illegal characters and does not start a formula |
| Assembly.ConvertFiles | news_csv_50.py:151-176 | for any reader and per-cell export, the outcome after the locator is the one `ConvertedFrom` describes in terms of the filtered items; never more records than files |
| Assembly.ExportedAsWrittenClean | news_csv_50.py:175-176 | every cell of a dataset exported as written is a string without illegal characters |
| Assembly.ExportedCorrectedSafe | news_csv_50.py:175-176 | every cell of a dataset exported in the corrected order is safe |
| Assembly.KeepBody | news_csv_50.py:162-163 | a row is kept when its body is non-empty and at least `MIN_BODY_LEN` characters long once stripped |
| Assembly.ExportRecord | news_csv_50.py:173-176 | each of the three columns of a row goes through the same per-cell export |
| DeepLines.DeepClassify | deepcleane.py:24-43 | a line is kept exactly when it is not a header (own field list), not quoted, does not open with `--`, and holds no reply marker; it ends the pass exactly when its stripped form starts with `--` |
| DeepLines.IsDeepHeader | deepcleane.py:26-31 | the line starts with one of the twelve field names of this list and a colon, in any case |
| DeepLines.IsDeepQuote | deepcleane.py:33-34 | the stripped line starts with `>` or a vertical bar |
| DeepLines.IsDeepSig | deepcleane.py:36-37 | the stripped line starts with `--` |
| DeepLines.IsDeepReply | deepcleane.py:39-42 | an `In article` marker whose `<` is closed by a `>` on the same line, or `writes:` or `wrote:`, occurs anywhere in the line, in any case |
| DeepLines.DeepSigIsPlain | deepcleane.py:26-37 | a line that opens with `--` is neither a header nor a quote line, so testing it first changes nothing |
| DeepLines.KeptLines | deepcleane.py:20-43 | no kept line is a header, quote, signature or reply line |
| DeepLines.KeptLinesStopAtSignature | deepcleane.py:35-37 | the kept lines are the unclassified lines after the blank-line cut that come before the first line opening with `--`, in order |
| DeepLines.KeptLinesSkipHeaderBlock | deepcleane.py:20-21 | a header block followed by a blank line never reaches the line filter |
| Substitute.WordEnd | deepcleane.py:47 | the end of the whitespace-free run starting at a position |
| Substitute.RemoveEmails | deepcleane.py:47 | no `\S+@\S+` match is left; a leading whitespace character is kept |
| Substitute.NoEmailUnchanged | deepcleane.py:47 | a text without a match is unchanged |
| Substitute.RemoveEmailsIdempotent | deepcleane.py:47 | the email substitution is idempotent |
| Substitute.NoEmailJoin | deepcleane.py:47 | two match-free texts joined at whitespace have no match |
| Substitute.UrlStart | deepcleane.py:48 | the first position in a word where `http\S+` or `www\.\S+` matches |
| Substitute.CutUrl | deepcleane.py:48 | a word without a match is unchanged; otherwise it is the part before the first match followed by one space, and has no match |
| Substitute.RemoveUrls | deepcleane.py:48 | no URL match is left; a leading whitespace character is kept |
| Substitute.NoUrlUnchanged | deepcleane.py:48 | a text without a URL match is unchanged |
| Substitute.NoUrlJoin | deepcleane.py:48 | two URL-free texts joined at whitespace are URL-free |
| Substitute.ReplaceDisallowed | deepcleane.py:50 | every result character is an ASCII letter or digit, whitespace, or one of `.,!?`; a character changes exactly when it is disallowed, and then becomes a space |
| Substitute.CollapseNewlines | deepcleane.py:51 | no two newlines in a row; the first character is kept; allowed characters stay allowed |
| Substitute.CollapseNewlinesKeepsText | deepcleane.py:51 | only newlines are removed: the other characters are the same, in the same order |
| Substitute.NoDoubleNewlineUnchanged | deepcleane.py:51 | a text without a newline run is unchanged |
| Substitute.CollapseNewlinesConcat | deepcleane.py:51 | the collapse distributes over a concatenation that does not join two newline runs |
| Substitute.CollapseNewlinesOfRun | deepcleane.py:51 | a run of newlines alone becomes one newline |
| Substitute.CollapseNewlinesAtRun | deepcleane.py:51 | a newline run between two other characters becomes exactly one newline between the collapsed neighbours |
| Substitute.CollapseSpaces | deepcleane.py:52 | no two whitespace characters in a row; the first character keeps its kind, and its value when it is not whitespace; allowed characters stay allowed |
| Substitute.CollapseSpacesConcat | deepcleane.py:52 | the collapse distributes over a concatenation that does not join two whitespace runs |
| Substitute.CollapseSpacesOfRun | deepcleane.py:52 | a whitespace run alone becomes one space when it has two or more characters, and stays as it is otherwise |
| Substitute.CollapseSpacesAtRun | deepcleane.py:52 | a run of two or more whitespace characters between visible ones becomes exactly one space between the collapsed neighbours |
| Substitute.CollapseSpacesKeepsText | deepcleane.py:52 | only whitespace is rewritten: the other characters are the same, in the same order |
| Substitute.NoDoubleSpaceUnchanged | deepcleane.py:52 | a text without a whitespace run is unchanged |
| Substitute.LowerAll | deepcleane.py:53 | same length; whitespace stays whitespace; allowed characters become lower-case letters, digits, `.,!?` or whitespace; letters keep their case-insensitive identity; an upper-case ASCII letter becomes its lower-case letter and every other character stays; a text without upper-case letters is unchanged |
| DeepClean.RemoveIsolated | deepcleane.py:52-54 | deleting illegal characters that are all whitespace, from a text without whitespace runs, creates no run |
| DeepClean.Substitutions | deepcleane.py:47-52 | after the six substitutions, every character is allowed and no two whitespace characters are adjacent |
| DeepClean.Finalize | deepcleane.py:53-54 | after lowering, stripping and illegal-character removal, every character is a lower-case letter, digit, whitespace or `.,!?`, none is illegal, and there is no edge whitespace and no whitespace run |
| DeepClean.Normalize | deepcleane.py:46-55 | the substitution chain yields only lower-case ASCII letters, digits, whitespace and `.,!?` (so no `@`, `<`, `>`, `:` or `-`), no illegal character, no edge whitespace and no whitespace run |
| DeepClean.NormalizeOnPlainText | deepcleane.py:46-55 | on text the substitutions leave alone, the chain is just lowering followed by illegal-character removal |
| DeepClean.NormalizeFixpoint | deepcleane.py:46-55 | text already in the output form with no URL passes through unchanged |
| DeepClean.NormalizeIdempotentWithoutUrl | deepcleane.py:46-55 | cleaning twice equals cleaning once whenever the first result holds no URL match |
| DeepClean.NormalizeNotIdempotent | deepcleane.py:48-53 | `HTTPS` cleans to `https`, and cleaning that again gives the empty text |
| DeepClean.NormalizeCanLeaveUrl | deepcleane.py:48-54 | `http\x1fa` cleans to `httpa`, which still matches the URL pattern |
| DeepClean.CleanText | deepcleane.py:20-55 | the cleaned text of a raw string has only output characters, no edge whitespace and no whitespace run |
| DeepClean.CleanBody | deepcleane.py:15-55 | a missing value gives `""`; a non-string value fails (the `TypeError`); a string gives cleaned text of the output form |
| DeepClean.KeptRecord | deepcleane.py:72-73 | a record is kept exactly when its cleaned text has at least 60 characters once stripped |
| DeepClean.LongEnough | deepcleane.py:72-73 | the cleaned text, stripped, has at least 60 characters |
| DeepClean.FinalDataset | deepcleane.py:69-79 | the script fails exactly when some text is a non-string value; otherwise every record left has cleaned text of at least 60 characters free of illegal characters, and there are no more records than rows |
| DeepClean.FinalDatasetIsFilter | deepcleane.py:69-79 | the final rows are exactly the input rows whose cleaned text passes the length test, in order, with their cleaned text |

## Left out

- `try_extract_from_eml_bytes` (news_csv_50.py:33-55) wraps Python's `email` package. It is
  the `parse` parameter of `Heuristic.ExtractMainBody`: `None` when parsing fails,
  otherwise the extracted text.
- Reading files and opening directories are left out as I/O. The file read is the `read`
  parameter of `Assembly.Convert`, and the directory is the `Root` value.
- The UTF-8 decoding fallback (news_csv_50.py:109-110) is left out because it cannot
  happen. Latin-1 decodes every byte sequence.
- `os.listdir` returns names in arbitrary order. Every use in the source is wrapped in
  `sorted`, so the model sorts the listing itself.
- Locator.CategoryIsBlock: assumes that a directory lists no name twice. A file system
  guarantees this.
- DataFrame construction, `to_csv`, `to_excel`, `read_excel`, `os.makedirs` and the
  `print` messages are left out as I/O.
- The Excel round trip between the two scripts is not modelled. `DeepClean.FinalDataset`
  takes the records as the second script reads them.
- `select_dtypes(include=["object"])` picks the columns. Both sanitisers leave non-string
  values unchanged, so the model applies them to every column.
- `DeepClean.FinalDataset` drops the helper column `text_len` without it ever being
  modelled as a column.
- The `"\n\n"` join of MIME parts (news_csv_50.py:48) belongs to the parser and is left
  out with it.
- app.py and app1.py are left out: a web UI, network clients, model loading and file
  readers.
- Substitute.LowerAll: lowers ASCII letters only. `str.lower` also lowers non-ASCII
  letters, but by the time the chain lowers, only ASCII letters, digits, `.,!?` and
  whitespace are left, so the two agree there.
- Sanitize.RemoveIllegalIdempotent: needs no proof of its own. It follows from the
  contract of `Sanitize.RemoveIllegalXmlChars`.
- Substitute.RemoveEmails: the contract says that no match is left and that a text
  without a match is unchanged. It does not say where each replacement space goes; the
  body computes that word by word.
- Substitute.RemoveUrls: the same holds as for the email substitution.
- Patterns.RemoveTags: the contract says that no tag is left and that every character is
  a space or comes from the input. It does not say which characters a tag covered.

### Behaviour of the code worth knowing

- `clean_body` is not idempotent and can leave a URL start:
  - URL removal is case-sensitive and runs before lower-casing, so a second pass can
    remove what the first one lowered (`DeepClean.NormalizeNotIdempotent`).
  - A whitespace control character splits a URL until the last step deletes it
    (`DeepClean.NormalizeCanLeaveUrl`).
  - `DeepClean.NormalizeIdempotentWithoutUrl` states a sufficient condition under which
    cleaning twice changes nothing: the first result holds no URL match.
- The two line filters differ, and each is modelled as written:
  - The header lists differ: `date` and `sender` in the extractor; `last-modified` and
    `version` in `clean_body`.
  - The extractor stops only at a line that is `--` with surrounding whitespace.
    `clean_body` stops at any line whose stripped form starts with `--`.
  - `clean_body`'s `In article` marker needs a closing `>` on the same line.
  - The test order differs between the two filters.
- `clean_body` does not turn `\r` into `\n` before the blank-line cut. `splitlines` still
  treats `\r` as a line break.
- A non-string, non-missing text makes `clean_body` raise. The model returns `None` for
  that value, and `DeepClean.FinalDataset` returns `None` for the whole script.

## Findings

| source | as written | input that shows it | evidently intended | confidence | as-written member | corrected member |
|---|---|---|---|---|---|---|
| news_csv_50.py:173-176 | the formula guard runs before illegal-character removal | a text of `\x01` then `=1+1`: the guard sees `\x01` and adds nothing, then the removal leaves `=1+1`, which starts a formula | no exported string starts with `=`, `+`, `-` or `@` | not executed | Assembly.ExportAsWrittenLetsFormulaThrough | Assembly.ExportCell |
| news_csv_50.py:103-104 | the header filter runs on each line before the strip | an envelope text `From:\n from:` followed by 60 or more characters with no line break, the last of them not whitespace: the filter drops `From:`, keeps the indented line, and the strip then turns it into a `from:` header line | the returned paragraph has no header line | not executed | Heuristic.LightPassAsWrittenExposesHeader | Heuristic.LightPass |
