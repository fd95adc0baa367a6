# pcpp-table-bot text-repair engine in Dafny

A model of the text-repair engine of the Reddit bot pcpp-table-bot.
The bot watches PC-build posts. It finds PCPartPicker parts lists whose
markdown table came out broken, or that were pasted from the site's
"fancy-pants" editor as loose text. It rebuilds the table and replies
with it. The model covers four parts:

- **Tables** (`tables.dfy`): the shared `Table`, an insertion-ordered map
  from line number to row text with an error counter and two flags. It is
  a class over a `seq<(int, string)>` with unique keys. Its pure view
  `TableValue` renders the markdown and decides whether a table is worth
  posting.
- **Markdown reader** (`markdown_reader.dfy`): the line scan of
  `read_md_table` with its `in_table` flag and early stops. It un-escapes
  `\[`, `\*` and `\]`, counts errors and pads the last three rows. The
  methods mutate a `Table` and are proved against the function `Scan`.
- **Copy-paste reconstructor** (`copy_paste.dfy`, `copy_paste_table.dfy`):
  the part-type search, the name and cost scanners, the last-row
  terminator, the `Total:` footer and `read_copy_paste`. Each regex is a
  hand-written scanner for its one fixed pattern. Each search keeps its
  leftmost-match property as a lemma.
- **Bot decisions** (`bot.dfy`): whether a post has an identifiable list
  link, which reader runs, whether the bot replies, and how the reply is
  put together from the templates.

Every path on which the Python raises is a `Fail` outcome of
`Outcomes.Result`. None of them is repaired:

- `CustomPartType`: a `Custom` part type reaches the statement
  `type - match.group('part')`, which subtracts a string from `None`.
- `NoLastRowEnd`: no terminator follows the last part type, so
  `match.start` is taken on `None`.
- `NoTotal`: `get_total` finds no `Total:` and calls `.group` on `None`.
  Its docstring promises `None` here, but the code raises, and the model
  follows the code. As a consequence, `add_table_footer` never takes the
  "no footer" path: it adds both footer rows or raises.
- `TableUnassigned`: `read_submission` returns its local `table` in the
  already-replied branch and in the flair-filter branch without having
  bound it.

So every submission the bot skips ends in that last error. `Bot.SkippedSubmissionRaises`
states this.

Inputs the model does not compute arrive as parameters:

- the double-link fix of `fix_double_link` is an arbitrary
  `string -> string`, and its change count is ignored as in the source;
- the links of a post are their `is_anon` flags;
- the reply-database answer is a boolean of the submission;
- the three templates are strings.

## Model

| member | source | states |
|---|---|---|
| Tables.Table.constructor | reddit_table_bot/parsers/data_classes.py:6-11 | a new table has no rows, no errors, and neither a header nor an alignment row |
| Tables.Upsert | reddit_table_bot/parsers/data_classes.py:13-15 | `rows[line_num] = row` on an insertion-ordered dict: the old entry for `k`, if any, is dropped and `(k, v)` goes last (its properties are the three lemmas that follow) |
| Tables.UpsertNewKey | reddit_table_bot/parsers/data_classes.py:13-15 | adding an absent key appends `(k, v)` at the end and grows the table by one |
| Tables.UpsertExistingKey | reddit_table_bot/parsers/data_classes.py:13-15 | adding a present key removes its old entry, keeps every other entry in order and puts `(k, v)` last; the length is unchanged |
| Tables.UpsertKeepsUnique | reddit_table_bot/parsers/data_classes.py:9-15 | keys stay unique, and the key set grows by exactly `k` |
| Tables.Table.AddRow | reddit_table_bot/parsers/data_classes.py:13-15 | the row list becomes the upsert of the old one; flags and errors are untouched; keys stay unique |
| Tables.TableValue.CreateMd | reddit_table_bot/parsers/data_classes.py:17-31 | defined as the missing header and alignment lines followed by the row values, joined by newlines; what reading it back gives is the next row |
| Tables.CreateMdLines | reddit_table_bot/parsers/data_classes.py:17-31 | for row values without a line break, splitting the rendering at newlines gives the default header iff there is no header, then the alignment line iff there is none, then every row value in stored order |
| Tables.TableValue.CreateMdCorrected | reddit_table_bot/parsers/data_classes.py:17-31 | defined as `create_md` with the default alignment line placed right after the first stored row, which is the header when no row-shaped line precedes it, when the header was read and the alignment row was not; `MarkdownReader.CorrectedRenderingNotReturned` states what reading it back gives |
| Tables.TableValue.ShouldCreate | reddit_table_bot/parsers/data_classes.py:33-34 | defined as: there is a row and at least one error |
| Tables.Table.PopItem | reddit_table_bot/parsers/parse_md.py:164-165 | `popitem` returns the last entry and removes exactly it |
| MarkdownReader.IsTableHeader | reddit_table_bot/parsers/parse_md.py:8-22 | defined as: the header pattern `type`, a bar, `item`, a bar, `price`, with any non-word characters between, occurs somewhere in the lower-cased line |
| MarkdownReader.IsColumnAlignments | reddit_table_bot/parsers/parse_md.py:25-41 | defined as: the stripped line contains `:-` or `-:`, which is where the alignment pattern can match |
| MarkdownReader.HasTableMd | reddit_table_bot/parsers/parse_md.py:92-108 | defined as: the whole post contains `:-` or `-:` |
| MarkdownReader.IsTableRow | reddit_table_bot/parsers/parse_md.py:74-89 | defined as: the line holds two to four vertical bars |
| MarkdownReader.HeaderHasTwoBars | reddit_table_bot/parsers/parse_md.py:8-22 | every line the header pattern accepts has at least two bars |
| MarkdownReader.AlignmentIgnoresStrip | reddit_table_bot/parsers/parse_md.py:25-41 | the alignment test on a stripped line equals the whole-text test `has_table_md` on it |
| MarkdownReader.FixEscapedSeq | reddit_table_bot/parsers/parse_md.py:44-56 | output length plus repair count equals input length; `FixEscapedSeqRemovesEscapes` states what exactly is removed |
| MarkdownReader.FixEscapedDeletesBackslashes | reddit_table_bot/parsers/parse_md.py:44-56 | only backslashes are removed, every other character count is kept, and the repair count is the number of backslashes removed |
| MarkdownReader.KeptFrom | reddit_table_bot/parsers/parse_md.py:44-56 | the listed positions lie from `from` on, start no escape (a backslash followed by `[`, `*` or `]`) and strictly increase |
| MarkdownReader.KeptFromAll | reddit_table_bot/parsers/parse_md.py:44-56 | every position from `from` on that starts no escape is listed |
| MarkdownReader.FixEscapedSeqRemovesEscapes | reddit_table_bot/parsers/parse_md.py:44-56 | the repaired line is the input at exactly the positions that start no escape, all of them and in order, and the repair count is the number of escapes |
| MarkdownReader.NoEscapeUnchanged | reddit_table_bot/parsers/parse_md.py:44-56 | a line without an escape comes back unchanged with no repair |
| MarkdownReader.OneEscapeRepaired | reddit_table_bot/parsers/parse_md.py:44-56 | a line with exactly one escape, at `i`, loses the backslash at `i` and nothing else, and counts one repair |
| MarkdownReader.ReadHeaderStep | reddit_table_bot/parsers/parse_md.py:111-127 | the header is stored at its line number, the header flag is set, and an error is added iff the header is not on line 0 and the previous line is not blank |
| MarkdownReader.ReadTableHeader | reddit_table_bot/parsers/parse_md.py:111-127 | the table's new value is the header step of its old value |
| MarkdownReader.ReadRowStep | reddit_table_bot/parsers/parse_md.py:130-157 | the row is stored repaired; the error count rises by the escape count plus one iff there is more than one row and line `idx-1` is absent; the alignment flag becomes set iff the line passes the alignment test |
| MarkdownReader.ReadTableRow | reddit_table_bot/parsers/parse_md.py:130-157 | the table's new value is the row step of its old value |
| MarkdownReader.Scan | reddit_table_bot/parsers/parse_md.py:188-209 | the scan never lowers the error count |
| MarkdownReader.StopIndex | reddit_table_bot/parsers/parse_md.py:188-209 | the scan stops only at a header line or at a non-blank non-row line |
| MarkdownReader.StopIndexIsFirst | reddit_table_bot/parsers/parse_md.py:193-209 | the stop is the first line that is a header or a non-blank non-row line while a header has been read (before the scan or on an earlier scanned line); no earlier line is one, and without one the scan runs to the end |
| MarkdownReader.ScanKeepsPrefix | reddit_table_bot/parsers/parse_md.py:188-209 | the rows held before a scan stay in front, unchanged, and all keys stay in line order |
| MarkdownReader.ScanRecords | reddit_table_bot/parsers/parse_md.py:188-209 | line `j` is recorded iff it lies before the stop and its stripped text has 2-4 bars |
| MarkdownReader.Finish | reddit_table_bot/parsers/parse_md.py:211-216 | with rows present, a missing header and a missing alignment row each add one error; nothing else changes |
| MarkdownReader.CountMissingLines | reddit_table_bot/parsers/parse_md.py:211-216 | the table's new value is the finished old value |
| MarkdownReader.PadFooter | reddit_table_bot/parsers/parse_md.py:160-170 | keys and order are kept, the last `min(n, 3)` values get one trailing space, and the others are unchanged |
| MarkdownReader.PopItems | reddit_table_bot/parsers/parse_md.py:161-167 | the last `count` rows are removed and returned last-first |
| MarkdownReader.FixFooterColumns | reddit_table_bot/parsers/parse_md.py:160-170 | the rows become the padded footer of the old rows; flags and errors are untouched |
| MarkdownReader.ReadMd | reddit_table_bot/parsers/parse_md.py:173-220 | defined as the finished scan from line 0 with its footer padded, returned when it should be created; its properties are the lemmas that follow |
| MarkdownReader.ReadMdShouldCreate | reddit_table_bot/parsers/parse_md.py:217-220 | a returned table has rows and at least one error |
| MarkdownReader.WellFormedTableNotReturned | reddit_table_bot/parsers/parse_md.py:111-220 | a correct table is left alone: a header on the first line or after a blank one, with no row-shaped line before it, then clean rows (no escapes, no second header) one of which is an alignment row, then blank lines, then the end of the post or a non-blank non-row line, gives no table |
| MarkdownReader.ReadMdRows | reddit_table_bot/parsers/parse_md.py:183-220 | the returned table has one entry per row-shaped line before the stop, in line order, each holding that line's repaired text, with a space added for the last three |
| MarkdownReader.NoHeaderNoAlignmentsTwoErrors | reddit_table_bot/parsers/parse_md.py:211-220 | rows without any header or alignment row always give a table with at least two errors |
| MarkdownReader.ReadLine | reddit_table_bot/parsers/parse_md.py:188-209 | one loop iteration keeps the table well-formed; on a break the table is unchanged and the scan stops there; otherwise the scan from the next line gives the same final table as the scan from this one |
| MarkdownReader.ReadMdTable | reddit_table_bot/parsers/parse_md.py:173-220 | the loop with its early breaks returns a table exactly when the scan function does, and the same table |
| MarkdownReader.HeaderOnlyReadAgain | reddit_table_bot/parsers/data_classes.py:20-27 | the post `Type\|Item\|Price` is read as a table with that header, no alignment row, one error and the padded row; `create_md` renders it as the alignment line followed by the header, and that rendering is read as a table again; the corrected rendering is not |
| MarkdownReader.HeaderLineReadAgain | reddit_table_bot/parsers/parse_md.py:111-127 | the same for every post that is a single header line: the header on line 1 after the non-blank alignment line counts an error, so the rendering is read as a table again |
| MarkdownReader.CorrectedRenderingNotReturned | reddit_table_bot/parsers/data_classes.py:17-31 | the corrected rendering of a table whose header was read but whose alignment row was not, whose first stored row is a header line, and whose other rows are clean, is read as no table for every double-link fix |
| MarkdownReader.HeaderThenCleanNotReturned | reddit_table_bot/parsers/parse_md.py:111-220 | a post whose lines are a header line and then clean rows, the first of them an alignment row, is read as no table |
| CopyPaste.MatchAt | reddit_table_bot/parsers/parse_copy_paste_md.py:13-64 | a part-type match starts where it was tried and ends inside the text; a match without a part type is the literal `Custom` |
| CopyPaste.MatchAtMeans | reddit_table_bot/parsers/parse_copy_paste_md.py:13-64 | a match is followed by optional white space and the camera emoji; a match without a part type is `Custom`; one with part type `l` is `[`, `l` with optional `**` on each side, `]`, the pcpartpicker product link with a non-empty `[a-z-]` slug, then `/)`, and `l` is a vocabulary name with at most one white space on each side |
| CopyPaste.FindPartLeftmost | reddit_table_bot/parsers/parse_copy_paste_md.py:104 | no part-type match starts before the one the search returns |
| CopyPaste.PartTypesAreMatches | reddit_table_bot/parsers/parse_copy_paste_md.py:91-127 | each collected entry is a named part-type match at its own start, and the starts strictly increase |
| CopyPaste.HasCopyPasteTable | reddit_table_bot/parsers/parse_copy_paste_md.py:193-204 | defined as: the part-type search from the start finds a match; `PartTypesFirst` relates it to the list |
| CopyPaste.AllPartTypes | reddit_table_bot/parsers/parse_copy_paste_md.py:91-127 | defined as the recursive part-type list over the match at every position; its properties are the lemmas around it |
| CopyPaste.PartTypesFirst | reddit_table_bot/parsers/parse_copy_paste_md.py:104-107 | the list is empty iff `has_copy_paste_table` is false; otherwise it starts with the first match |
| CopyPaste.PartTypesSearches | reddit_table_bot/parsers/parse_copy_paste_md.py:125 | each next entry is the first match found from the previous start plus one |
| CopyPaste.PartTypesLast | reddit_table_bot/parsers/parse_copy_paste_md.py:107-125 | there is no match after the last entry's start |
| CopyPaste.PartTypesOutcome | reddit_table_bot/parsers/parse_copy_paste_md.py:113-117 | the only error is the `Custom` one, and a post without a part type gives the empty list |
| CopyPaste.CustomRaises | reddit_table_bot/parsers/parse_copy_paste_md.py:113-117 | when the first match is `Custom`, the search raises |
| CopyPaste.GetAllPartTypes | reddit_table_bot/parsers/parse_copy_paste_md.py:91-127 | tabulating the match at every position and running the search loop over it yields exactly the specified part-type list, or raises exactly when it does |
| CopyPaste.CollectPartTypes | reddit_table_bot/parsers/parse_copy_paste_md.py:101-127 | the `while` loop that appends each found part and resumes the search one past its start returns the same list as the recursive specification, including the raise on a Custom entry |
| CopyPaste.EntryStep | reddit_table_bot/parsers/parse_copy_paste_md.py:104-125 | one search step: no match ends the list, a Custom match raises, a linked match is put in front of the list found from one past its start |
| CopyPaste.CurrencyAt | reddit_table_bot/parsers/parse_copy_paste_md.py:69 | a price match starting at `p` has its amount (group 2) inside it |
| CopyPaste.CurrencyAtMeans | reddit_table_bot/parsers/parse_copy_paste_md.py:69 | group 2 of a price match is a currency symbol, at most one white space and a non-empty run of `[0-9,.]`, or that run, at most one white space and a symbol; the `**` on each side is taken iff it is there |
| CopyPaste.CostsAreMatches | reddit_table_bot/parsers/parse_copy_paste_md.py:165 | every price `findall` lists is a genuine price match at its own start |
| CopyPaste.CostsApart | reddit_table_bot/parsers/parse_copy_paste_md.py:165 | consecutive prices listed by `findall` do not overlap |
| CopyPaste.CostsExhaust | reddit_table_bot/parsers/parse_copy_paste_md.py:165 | the list is empty iff there is no price, and no price follows the last one |
| CopyPaste.GetCost | reddit_table_bot/parsers/parse_copy_paste_md.py:154-174 | defined as group 2 of the last `findall` match, or `""`; `GetCostIsLastMatch` states its meaning |
| CopyPaste.GetCostIsLastMatch | reddit_table_bot/parsers/parse_copy_paste_md.py:154-174 | the cost is empty iff there is no price; otherwise it is the amount of a price match after which no price follows; for every `findall` chain (the first match from 0, each next one the first match from the previous end, none after the last) the cost is group 2 of the chain's last entry, or `""` for the empty chain |
| CopyPaste.CostsFormFindallChain | reddit_table_bot/parsers/parse_copy_paste_md.py:165 | the price list is such a chain: its first entry is the first match, each next one is the first match from the previous end, and none follows the last |
| CopyPaste.FindallChainUnique | reddit_table_bot/parsers/parse_copy_paste_md.py:165 | the chain from a position is unique: any chain equals the price list |
| CopyPaste.NameEndLeftmost | reddit_table_bot/parsers/parse_copy_paste_md.py:141 | no end-of-name pattern occurs before the name's end |
| CopyPaste.GetPartName | reddit_table_bot/parsers/parse_copy_paste_md.py:130-151 | defined as the text up to the first end-of-name match, unbolded; the lemmas around it state its meaning |
| CopyPaste.NameHasNoPrice | reddit_table_bot/parsers/parse_copy_paste_md.py:130-151 | the name prefix holds no price match, and it is the whole text iff no end-of-name pattern occurs |
| CopyPaste.UnboldPlain | reddit_table_bot/parsers/parse_copy_paste_md.py:149 | a name without `[**` is unchanged by the unbolding |
| CopyPaste.UnboldBold | reddit_table_bot/parsers/parse_copy_paste_md.py:149 | `[**X**]` becomes `[X]` |
| CopyPasteTable.RemoveCameraEmoji | reddit_table_bot/parsers/parse_copy_paste_md.py:86-88 | defined as replacing every camera emoji by a space; the two lemmas that follow state its meaning |
| CopyPasteTable.RemoveCameraEmojiPointwise | reddit_table_bot/parsers/parse_copy_paste_md.py:86-88 | each camera emoji becomes one space, and every other character and the length are kept |
| CopyPasteTable.RemoveCameraEmojiLacks | reddit_table_bot/parsers/parse_copy_paste_md.py:86-88 | no camera emoji is left |
| CopyPasteTable.LastEnd | reddit_table_bot/parsers/parse_copy_paste_md.py:241-246 | defined as the terminator search on the text from `start`, shifted back to positions in the whole text |
| CopyPasteTable.LastEndIsFirstTerminator | reddit_table_bot/parsers/parse_copy_paste_md.py:241-246 | the last row ends at the first terminator at or after the last part type's start; there is none iff no terminator occurs there |
| CopyPasteTable.TotalAt | reddit_table_bot/parsers/parse_copy_paste_md.py:83 | a total match is `Total:` not preceded by `Base `, followed by a price |
| CopyPasteTable.GetTotal | reddit_table_bot/parsers/parse_copy_paste_md.py:177-190 | either it raises the no-total error or it returns a non-empty amount |
| CopyPasteTable.GetTotalFound | reddit_table_bot/parsers/parse_copy_paste_md.py:177-190 | it raises iff no total match exists; otherwise it returns the price of the leftmost total match |
| CopyPasteTable.RowsKeys | reddit_table_bot/parsers/parse_copy_paste_md.py:230-262 | row `i` has key `i` and text `**type** \| name \| cost`, built from the span that ends at the next start or, for the last row, at the last-row end; keys are exactly `0..n-1` |
| CopyPasteTable.FormatRow | reddit_table_bot/parsers/parse_copy_paste_md.py:253-261 | the formatted row is the row text of its part type and data span |
| CopyPasteTable.ReadTableSpec | reddit_table_bot/parsers/parse_copy_paste_md.py:207-264 | defined as: no parts give the empty table and no end; otherwise the rows of all parts with one error iff there are two or more, or the raise when the last row has no terminator |
| CopyPasteTable.ReadTableShape | reddit_table_bot/parsers/parse_copy_paste_md.py:207-264 | it raises iff there are parts and no terminator; otherwise there is exactly one error iff `part_count > 1`, no flags are set, there are `part_count` rows, and `end` is absent iff there are no parts |
| CopyPasteTable.ReadRow | reddit_table_bot/parsers/parse_copy_paste_md.py:232-262 | one loop step appends row `idx` with its specified text and returns that row's end, raising only at the last row when no terminator follows; flags and errors are untouched |
| CopyPasteTable.ReadTable | reddit_table_bot/parsers/parse_copy_paste_md.py:207-264 | the `for` loop builds exactly the specified table and end, or raises when it does |
| CopyPasteTable.FooterSpec | reddit_table_bot/parsers/parse_copy_paste_md.py:267-284 | defined as: the total search after the table raises or yields the total, and a non-empty total adds the price-info row and the total row |
| CopyPasteTable.FooterAddsTwo | reddit_table_bot/parsers/parse_copy_paste_md.py:267-284 | the footer raises iff no total follows `end`; otherwise it appends the price-info row and the total row at keys `n` and `n+1`, leaving errors and flags alone |
| CopyPasteTable.AddTableFooter | reddit_table_bot/parsers/parse_copy_paste_md.py:267-284 | the table's new value is the footer of its old value; on the error the table is unchanged |
| CopyPasteTable.ReadCopyPasteSpec | reddit_table_bot/parsers/parse_copy_paste_md.py:287-305 | defined as part types, then the table, then the footer, passing each raise on, and the table returned iff it should be created |
| CopyPasteTable.ReadCopyPaste | reddit_table_bot/parsers/parse_copy_paste_md.py:287-305 | it raises, returns nothing or returns a table exactly as the specification of `read_copy_paste` does |
| CopyPasteTable.OnePartNoTable | reddit_table_bot/parsers/parse_copy_paste_md.py:225-226 | with exactly one part type no table is returned |
| CopyPasteTable.NoPartNoTable | reddit_table_bot/parsers/parse_copy_paste_md.py:277-305 | with no part type the result is nothing when the text holds a total, and the no-total error otherwise |
| CopyPasteTable.TableReturned | reddit_table_bot/parsers/parse_copy_paste_md.py:287-305 | a table is returned iff there are at least two parts, a last-row end and a total after it; it then has one error and holds the part rows followed by the two footer rows |
| CopyPasteTable.ReadCopyPasteFailures | reddit_table_bot/parsers/parse_copy_paste_md.py:287-305 | each of the three errors happens exactly under its own condition |
| Bot.HasIdenPcppLink | reddit_table_bot/pcpphelperbot.py:157-173 | true iff some link is not anonymous |
| Bot.ReadSubmissionSpec | reddit_table_bot/pcpphelperbot.py:175-204 | defined by the branches of `read_submission`: the unbound-`table` error when live and already replied or not pertinent, else the markdown reader, else the copy-paste reader, else nothing |
| Bot.ReadSubmission | reddit_table_bot/pcpphelperbot.py:175-204 | the method raises, returns nothing or returns a table exactly as the dispatch function does |
| Bot.ReadSubmissionUnassigned | reddit_table_bot/pcpphelperbot.py:188-204 | the unbound-`table` error happens iff the bot is live and has already replied, or the post is not a text post with a pertinent flair |
| Bot.MarkdownPostNeverRaises | reddit_table_bot/pcpphelperbot.py:196-200 | with a markdown table the copy-paste reader does not run: the read never raises, and it yields a table iff the markdown reader does |
| Bot.OtherPostsIgnoreMarkdownReader | reddit_table_bot/pcpphelperbot.py:198-202 | without a markdown table the markdown reader does not run: the outcome is the same for every double-link fix |
| Bot.NoTableTextNoTable | reddit_table_bot/pcpphelperbot.py:194-204 | a pertinent post with neither kind of table yields no table and no error |
| Bot.ReturnedTableIsBad | reddit_table_bot/pcpphelperbot.py:175-204 | a table that comes back has rows and at least one error |
| Bot.MakeIdentifiableMarkdown | reddit_table_bot/pcpphelperbot.py:308-322 | the identifiable template iff an identifiable link is present, otherwise empty; non-empty iff the link is present, for a non-empty template |
| Bot.MakeTableMarkdown | reddit_table_bot/pcpphelperbot.py:290-306 | empty without a table; with one, the template with `:table:` replaced by the table's `create_md` rendering |
| Bot.TableMarkdownCarriesTable | reddit_table_bot/pcpphelperbot.py:290-306 | with `:table:` in the template, the table markdown contains the table's whole `create_md` rendering |
| Bot.TableMarkdownWithoutPlaceholder | reddit_table_bot/pcpphelperbot.py:290-306 | without `:table:` in the template, the table markdown is the template |
| Bot.MessageSpec | reddit_table_bot/pcpphelperbot.py:261-288 | defined as: the non-empty parts joined by a blank line replace every `:message:`, and no part gives `""`; `MessageShape` states its closed form |
| Bot.PutMessageTogether | reddit_table_bot/pcpphelperbot.py:261-288 | the list-appending method computes the specified message |
| Bot.MessageShape | reddit_table_bot/pcpphelperbot.py:274-288 | the message is empty when both parts are empty; otherwise every `:message:` is replaced by the table part, a blank line and the identifiable part, leaving out an empty part |
| Bot.MessageCarriesParts | reddit_table_bot/pcpphelperbot.py:274-288 | with `:message:` in the template, the message contains both parts |
| Bot.ReplySpec | reddit_table_bot/pcpphelperbot.py:231-259 | defined as the message put together from the table markdown and the identifiable markdown |
| Bot.MakeReply | reddit_table_bot/pcpphelperbot.py:231-259 | the reply is the message put together from the table markdown and the identifiable markdown |
| Bot.HandleSubmissionSpec | reddit_table_bot/pcpphelperbot.py:140-155 | defined as: a raise of the read is passed on; otherwise a reply when a table came back or a link is identifiable, and nothing else |
| Bot.HandleSubmission | reddit_table_bot/pcpphelperbot.py:140-155 | the method computes the specified outcome of handling a submission |
| Bot.RepliesIff | reddit_table_bot/pcpphelperbot.py:150-155 | handling fails iff the read raises; otherwise the bot replies iff a table came back or an identifiable link is present |
| Bot.SkippedSubmissionRaises | reddit_table_bot/pcpphelperbot.py:188-204 | an already-answered or non-pertinent submission always ends in the unbound-`table` error |
| Bot.ReplyCarriesTableAndNotice | reddit_table_bot/pcpphelperbot.py:231-306 | with both placeholders in their templates, a reply contains the `create_md` rendering of the table that was read, and the identifiable template when a link is identifiable |

## Left out

- Reddit and PRAW: reading hot posts and single posts, monitoring, posting the reply, checking the inbox for a stop message and logging are network I/O. `Bot.HandleSubmission` returns the reply message, which is what `reply` returns when the bot is not live. Posting when live is left out.
- The reply database (`dbhandler.py`) is SQLite I/O. Its one answer, whether the bot already replied, is the field `Submission.alreadyReplied`.
- Reading the three templates from files at start-up is I/O; the templates are parameters.
- `pcpp_links.py` parses HTML with BeautifulSoup. The links of a post are given as their `is_anon` flags.
- `fix_double_link` is a greedy backtracking regex. It is an uninterpreted parameter.
- General regular expressions: each fixed pattern is a hand-written scanner. `\p{Sc}` is the Unicode Sc list of `Text.IsCurrencySymbol`, and the lemmas use only that no currency symbol is a digit, comma, period, space or `*`. `\w` and `lower()` are exact on ASCII only: other non-space, non-currency characters count as word characters, and only ASCII letters are lower-cased.
- `Text.SplitLines` splits on `"\n"` only. Python's `splitlines` also breaks at `\r`, `\x0b`, `\x0c`, `\x1c`-`\x1e`, `\x85`, `\u2028` and `\u2029`.
- `guessed_url` and `has_err_line_break` are never read, so they are not modelled.
- `PCPP_Link` is only a record of a URL and a flag; the bot uses only the flag.
- The test file depends on fixture files that are not part of this model.
- Tables.CreateMdLines: stated only for tables whose row values hold no line break. A pasted part name or the output of the double-link fix can hold one, and reading such a table back splits that value.

## Findings

| source | as written | input that shows it | evidently intended | confidence | as-written member | corrected member |
|---|---|---|---|---|---|---|
| reddit_table_bot/parsers/data_classes.py:20-27 | the default alignment line `:----\|:----\|:----` is put in front of all rows, also when the header was read and is the first row | the post `Type\|Item\|Price`: it is read as a table with one error, and its rendering, read again, puts the header on line 1 after a non-blank line and is a table again | the alignment line goes right after the first stored row, which is the header when no row-shaped line precedes it, so the repaired table reads back as no table | not executed | MarkdownReader.HeaderOnlyReadAgain | MarkdownReader.CorrectedRenderingNotReturned |

`Tables.TableValue.CreateMd` is the rendering as written and
`Tables.TableValue.CreateMdCorrected` the corrected one; the bot's reply
uses the rendering as written. A second case where a promise does not hold is not a finding
of its own, because the model follows the code there. The docstring of
`read_table` promises the rows of a pasted table. With one pasted part type
and no last-row terminator after it, `re.search` finds nothing and
`match.start` raises (parse_copy_paste_md.py:245-246), so no one-row table
comes back. `CopyPasteTable.OnePartNoTable` allows that raise.

