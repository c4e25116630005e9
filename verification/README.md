# The madsqlite core and its command-line shell: a verified model

This project models the parts of the repository that do real work on text, buffers and state, and proves what they are
for. There are two groups.

**The SQLite command-line shell** (`src/main/cpp/sqlite-amalgamation/shell.c`):

* CSV. `CsvFormat` says what a printed field looks like and how any stream is to be read, `CsvRoundTrip` which rows any
  file of quoted and plain fields holds, printed files among them; `CsvPrinter`, `CsvReader` and `CsvImport` are the
  printer, the field reader with its look-back over its own buffer, and the record loop, each proved against it. Printing
  a table and importing the output gives back the table, column names included. The quoting rules are those of section 2
  of RFC 4180.
* `Glob`: the recursive matcher of the shell's test cases decides a declarative matching relation, which
  `GlobClasses` states item by item on the characters of pattern and text.
* Escapes. `Escapes` is C-style quoting and the in-place decoder, `MetaCommand` the tokenizer of dot commands, which cuts
  a line into C strings in place; together they give back every argument.
* SQL text. `InsertMode` prints rows as INSERT statements and `SqlLiterals` reads their values back; `DumpSelect` builds
  the SELECT of `.dump` and table names in exactly sized buffers and reads them back; `InsertRoundTrip` reads whole INSERT
  statements back.
* Loops over one buffer or array: `PrettySchema` (`.schema --indent`, with `PrettyQuotes` and `PrettyGaps` about
  what it does to quoted texts), `ExplainIndent` (indentation of EXPLAIN listings) and `TablesLayout` (the columns of
  `.tables`).
* `IntegerValue`: arguments with units, in 64-bit arithmetic.

**The C++ core** (`src/main/cpp/Mad*Impl.cpp`): `Registry` (the registry of weak handles to open databases),
`Transaction` (the transaction flag against the database's own state), `ContentValues` and `InsertBuilder` (a set, a
vector and an index map that represent one map, and the INSERT made from it), and `Query` (the cursor).

`CStrings`, `Quoting` and `Shell` hold what several of these share: C strings and character classes, quoting by
doubling, and the printing state of the shell.

Loops, buffers and objects that the source updates in place are methods over arrays and classes. Each of them is proved
equal to a function of its input, and the properties are proved about these functions for all inputs. A long source loop
is often one method for the loop and one for a single turn of it. Characters are bytes with their unsigned code, and where
the source compares them as signed numbers (`Glob`) the model does so too. The end of a stream is a value of its own.

What the environment does is a parameter or an abstract object: a stream is its bytes, a prepared INSERT keeps its bound
parameters across executions, a result set is a list of rows with a last step result, a table exists or CREATE TABLE may
or may not succeed, the conversions of the C++ library are functions, a database is a value of any type
with a snapshot while a transaction is open. For `Registry`, files are never removed or moved, and a path that does not
resolve before it is opened can only resolve to a new file afterwards; `Drop` (the last owner of a handle lets go) and
`Sweep` (its destructor cleans up) are separate steps that other steps may come between.

Where the code differs from its documentation the model follows the code:

* after a star run the glob matcher takes whitespace and `#` for literals, and a number or a span of whitespace is always
  the longest one, although its comment says that `#` matches any sequence of digits; `Glob.AgreesIffClear` says for which
  patterns the answer is nevertheless the documented one, `Glob.StarNumberDiffers` and `Glob.NumberTakesAll` name inputs
  where it is not;
* the decoder has no `\s` escape, although its comment lists one (`Escapes.CommentIff`, `Escapes.SpaceEscapeDiffers`);
* `exec` ignores a bare `BEGIN`, but not `BEGIN;` (`Transaction.SemicolonIsNotFiltered`);
* `.schema --indent` drops whitespace and breaks lines inside quoted texts as well (`PrettyGaps.QuotesKeptIff` says
  exactly for which texts, with inputs in `PrettyGaps.FirstPassExample` and `PrettyGaps.SecondPassExample`);
* a table whose name is a reserved word is stored without quotes by `set_table_name` (`DumpSelect.TableNameRoundTrip`);
* column names are printed as they are, so that some INSERT statements cannot be read (`InsertRoundTrip.InsertRoundTrip`,
  `InsertRoundTrip.ColumnNamesAreRaw`);
* of two keys that are equal but for letter case `insert` loses one value (`InsertBuilder.OutcomeIff`);
* the test `SQLITE_ROW || SQLITE_DONE` in `moveToNext` is always true, so a step that ends in an error still moves the
  cursor (`Query.Cursor.MoveToNext`).

`dafny verify dfyconfig.toml` checks the whole project.

## Model

| member | source | states |
|---|---|---|
| CsvRoundTrip.FileIsImported | src/main/cpp/sqlite-amalgamation/shell.c:3747-3788 | Any file of quoted and plain fields, with rows of any lengths, any two separators, row ends with or without CR, and perhaps a last row without an end, is imported into a table of n columns as its rows in order: the texts of the fields, NULL for each missing one, and none of those beyond n |
| CsvRoundTrip.TableRoundTrip | src/main/cpp/sqlite-amalgamation/shell.c:3747-3788 | Whole-table round trip: NUL-free rows printed with any one-byte ASCII separator other than a quote, CR or LF are imported as exactly those rows in the same order, with empty fields, quotes, separators and line ends inside fields, whether rows end with LF or CR LF and whether the last one ends at all |
| CsvRoundTrip.RowIsRead | src/main/cpp/sqlite-amalgamation/shell.c:3747-3788 | A row of a file is read as one record with exactly its fields, before LF, CR LF or any other row separator, and at the end of the file |
| CsvRoundTrip.RowRoundTrip | src/main/cpp/sqlite-amalgamation/shell.c:1193-1197 | With such a separator a printed row is read back as one record with exactly its fields, before LF, CR LF or the end of the file, whatever follows in the stream |
| CsvRoundTrip.MissingLastField | src/main/cpp/sqlite-amalgamation/shell.c:2648-2651 | A column separator right before the end of the file is followed by a missing field |
| CsvRoundTrip.FieldIsRead | src/main/cpp/sqlite-amalgamation/shell.c:2652-2702 | A field of a file, in quotes or plain, is read as its text; only a CR in front of a row separator is taken off a plain one; the rest of the stream and the terminator are those after it |
| CsvRoundTrip.FieldRoundTrip | src/main/cpp/sqlite-amalgamation/shell.c:857-886 | With such a separator a printed field, quoted or not, is read back as its text, ended by its own terminator, before a separator, LF, CR LF or the end of the file |
| CsvRoundTrip.Unterminated | src/main/cpp/sqlite-amalgamation/shell.c:2679-2684 | A field whose quote is never closed runs to the end of the file |
| CsvRoundTrip.UnescapedQuote | src/main/cpp/sqlite-amalgamation/shell.c:2668-2684 | A quote followed by something other than a separator, CR and a row separator, or the end of the file does not close a field; the text keeps it and runs to the end of the file when no other quote follows |
| CsvRoundTrip.QuotedFieldEnds | src/main/cpp/sqlite-amalgamation/shell.c:2666-2674 | The reader closes a quoted field that the printer wrote exactly at its closing quote and nowhere inside it, before a separator, LF, CR LF and the end of the file |
| CsvFormat.LinesCounted | src/main/cpp/sqlite-amalgamation/shell.c:2648-2699 | On any stream the line counter grows by the number of row separators among the bytes that a field consumes; the only exception, stated exactly, is an opening quote that is itself the row separator |
| CsvFormat.FieldBoundary | src/main/cpp/sqlite-amalgamation/shell.c:2642-2702 | What follows a field is the suffix of the stream right after its terminator, for any stream |
| CsvFormat.RecordBoundary | src/main/cpp/sqlite-amalgamation/shell.c:3747-3788 | For any stream the next record starts right after a row separator, or the stream is at its end |
| Quoting.DoubledRoundTrip | src/main/cpp/sqlite-amalgamation/shell.c:874-877 | Undoubling a doubled text gives the text back, and a doubled text leaves no quote unpaired |
| Quoting.OddPrefixOfDoubled | src/main/cpp/sqlite-amalgamation/shell.c:2660-2665 | Inside a doubled text an unpaired quote is always followed by its partner, so the reader cannot stop there |
| Quoting.DoubledIsClosed | src/main/cpp/sqlite-amalgamation/shell.c:733-760 | A doubled text is closed by the first quote after it, unless a further quote follows: the rule by which SQL ends strings and quoted names |
| CsvPrinter.ScanField | src/main/cpp/sqlite-amalgamation/shell.c:864-871 | The first loop yields 0 exactly for texts that must be quoted: empty ones, and those with a character marked in the table or with the separator |
| CsvFormat.OneCharacterField | src/main/cpp/sqlite-amalgamation/shell.c:828-849 | A field of one character is printed without quotes if and only if it is a visible ASCII character other than the two quotes and the separator |
| CsvFormat.AnyCharacterQuotes | src/main/cpp/sqlite-amalgamation/shell.c:864-871 | A field is quoted if and only if it is empty or one of its characters would be quoted by itself |
| CsvFormat.LongSeparator | src/main/cpp/sqlite-amalgamation/shell.c:866-868 | A separator of two characters is found at the start of a text and not inside it |
| CsvPrinter.OutputCsv | src/main/cpp/sqlite-amalgamation/shell.c:857-886 | Prints the null value for a null pointer, otherwise the text quoted exactly if it must be, then the separator if asked for |
| CsvPrinter.ShellCallbackCsv | src/main/cpp/sqlite-amalgamation/shell.c:1184-1200 | Header once before the first row when wanted, then the row with a separator between cells and the row separator after the last; nothing for an empty row; counts the row |
| CsvPrinter.PrintTable | src/main/cpp/sqlite-amalgamation/shell.c:1184-1200 | Row by row a result set of non-NULL cells is printed as the concatenation of its printed rows, after the header if it is on, nothing was printed before and there is a row |
| CsvPrinter.NamelessColumn | src/main/cpp/sqlite-amalgamation/shell.c:1188 | A column without a name has an empty field in the header |
| CsvReader.ImportCtx.AppendChar | src/main/cpp/sqlite-amalgamation/shell.c:2616-2627 | The text grows by exactly the given byte and a terminating NUL still fits into the allocation, for every growth of the buffer |
| CsvReader.ImportCtx.DropClosingQuote | src/main/cpp/sqlite-amalgamation/shell.c:2671 | On any stream the backward search finds a quote at one of the last two stored positions, never goes below 0, and leaves the text of the field |
| CsvReader.UnpairedQuoteIsStored | src/main/cpp/sqlite-amalgamation/shell.c:2660-2671 | When a quoted field closes, the last stored byte is its closing quote, or a CR with that quote before it |
| CsvReader.TerminatesWhenClosed | src/main/cpp/sqlite-amalgamation/shell.c:2666-2688 | The exit test on the current and the two previous characters recognises exactly the positions where the quoted field closes, although the second quote of a pair resets one of them only |
| CsvReader.ImportCtx.ReadQuoted | src/main/cpp/sqlite-amalgamation/shell.c:2652-2688 | The two-character look-back loop stores the undoubled text of the field up to its first closing position and leaves the stream right after it, malformed and unterminated fields included |
| CsvReader.ImportCtx.ReadPlain | src/main/cpp/sqlite-amalgamation/shell.c:2689-2699 | An unquoted field ends at the first separator; a CR before the row separator is not part of it |
| CsvReader.ImportCtx.ReadOneField | src/main/cpp/sqlite-amalgamation/shell.c:2642-2702 | On every stream and for any two separators, as they compare with bytes, the reader yields the field, the rest of the stream, the terminator and the line count of the declarative reading, stores a NUL inside the allocation, and at the end of the stream reports no field |
| CsvImport.FillWithNull | src/main/cpp/sqlite-amalgamation/shell.c:3767-3768 | Every parameter from the first missing column on is NULL, the others are unchanged |
| CsvImport.ReadCells | src/main/cpp/sqlite-amalgamation/shell.c:3749-3770 | After the column loop the parameters hold the first fields of this record, NULL for missing ones; the final loop index tells whether anything was read |
| CsvImport.SkipExtras | src/main/cpp/sqlite-amalgamation/shell.c:3771-3779 | Extra fields are read and dropped up to the end of the record, for any number of them |
| CsvImport.ImportRecord | src/main/cpp/sqlite-amalgamation/shell.c:3747-3788 | A record executes the INSERT once with all n parameters bound from this very record, so nothing is carried over from an earlier row; a record that starts at the end of the stream executes nothing |
| CsvImport.ImportRecords | src/main/cpp/sqlite-amalgamation/shell.c:3684-3788 | For any bytes the record loop ends at the end of the stream and has executed exactly the aligned records of the stream in order |
| CsvImport.ReadHeader | src/main/cpp/sqlite-amalgamation/shell.c:3686-3692 | The loop over the first record yields its fields as column names, up to a missing last one, leaves the stream after the record, and builds the CREATE TABLE text in step |
| CsvImport.CreatedColumns | src/main/cpp/sqlite-amalgamation/shell.c:3686-3700 | Read as SQL, the column definitions name exactly the fields in order, with quotes, commas or line ends in them |
| CsvImport.ImportTable | src/main/cpp/sqlite-amalgamation/shell.c:3684-3788 | For an existing table the aligned records of the file; a missing one is created from the first record, and the rest is aligned to its number of columns; an empty file and a failing CREATE TABLE are reported |
| CsvFormat.HighSeparator | src/main/cpp/sqlite-amalgamation/shell.c:3674-3674 | A column separator byte from 128 up, negative as a char, is never found: every record of every stream is a single field |
| CsvImport.Import | src/main/cpp/sqlite-amalgamation/shell.c:3621-3788 | Each separator error, in the order of the checks; in CSV mode CR LF is replaced by LF; otherwise, with each separator compared as a signed char, what the import into the table does |
| CsvImport.ExportAndImport | src/main/cpp/sqlite-amalgamation/shell.c:3637-3649 | Printing a result set with the default CSV separators and importing the output inserts exactly the same rows |
| CsvImport.ExportAndCreate | src/main/cpp/sqlite-amalgamation/shell.c:3685-3788 | With the header on and no such table, the import creates it with exactly the exported column names and inserts exactly the same rows; without a row the file is empty, header included |
| CsvImport.NullIsText | src/main/cpp/sqlite-amalgamation/shell.c:857-886 | A printed row with NULL cells is read back as one record in which NULL is the text of the null value |
| CsvImport.CutAtNul | src/main/cpp/sqlite-amalgamation/shell.c:3762 | A field is bound up to its first NUL |
| CsvImport.CreateOfTwo | src/main/cpp/sqlite-amalgamation/shell.c:3686-3700 | The CREATE TABLE text for two fields, character by character |
| Glob.TestcaseGlob | src/main/cpp/sqlite-amalgamation/shell.c:3116-3188 | For every pattern and text the matcher answers 1 exactly when the text matches the pattern, as the matcher reads it, under the declarative relation; recursion terminates on the pattern |
| Glob.MatchStar | src/main/cpp/sqlite-amalgamation/shell.c:3126-3145 | The star branch decides exactly whether some split of the text matches the rest of the pattern |
| Glob.LeapToLiteral | src/main/cpp/sqlite-amalgamation/shell.c:3138-3145 | Leaping to the next occurrence of the literal after a star run misses no match |
| Glob.SearchClass | src/main/cpp/sqlite-amalgamation/shell.c:3132-3136 | The search for a class after a star run tries every position at which it could match |
| Glob.MatchClass | src/main/cpp/sqlite-amalgamation/shell.c:3148-3176 | One character against a bracket class: exactly membership in its singles and ranges, inverted after `^`; an unclosed class matches nothing |
| Glob.MatchItem | src/main/cpp/sqlite-amalgamation/shell.c:3122-3184 | The branches for whitespace spans, `?`, classes, numbers and literals take exactly the longest text that the item may take, or fail |
| Glob.StarRunStep | src/main/cpp/sqlite-amalgamation/shell.c:3127-3129 | Further stars in a star run change nothing, and every `?` in it takes one character |
| Glob.StarPositions | src/main/cpp/sqlite-amalgamation/shell.c:3133-3143 | A star matches if and only if the rest of the pattern matches at some position of the remaining text |
| Glob.DocumentedIffPlain | src/main/cpp/sqlite-amalgamation/shell.c:3126-3145 | The matcher reads the items that the comment describes if and only if no star run is directly followed by whitespace or `#` |
| Glob.TakesLongest | src/main/cpp/sqlite-amalgamation/shell.c:3122-3182 | What the matcher lets an item take is the longest of the texts that the comment admits for it |
| Glob.MatchesIsDocumented | src/main/cpp/sqlite-amalgamation/shell.c:3097-3115 | Whatever the matcher accepts is matched by some division of the text among the items it reads, as the comment says |
| Glob.DocumentedIsMatched | src/main/cpp/sqlite-amalgamation/shell.c:3123-3181 | Taking the longest number or whitespace first loses no match when the item after it, stars aside, cannot start with a digit, or with whitespace |
| Glob.UnclearText | src/main/cpp/sqlite-amalgamation/shell.c:3097-3145 | For every other pattern whose items all match something there is a text that the comment accepts and the matcher rejects |
| Glob.AgreesIffClear | src/main/cpp/sqlite-amalgamation/shell.c:3097-3188 | The matcher answers as documented on every text, if and only if no star run is directly followed by whitespace or `#` and no number or whitespace by such an item, or the pattern matches nothing at all |
| Glob.NumberTakesAll | src/main/cpp/sqlite-amalgamation/shell.c:3177-3181 | The pattern `#5` does not match the text 15, although the comment lets `#` match the 1 |
| Glob.StarNumberDiffers | src/main/cpp/sqlite-amalgamation/shell.c:3138-3143 | For the pattern `*#` the matcher both rejects a text that the comment accepts and accepts one that it rejects |
| Glob.TrailingSpaceIgnored | src/main/cpp/sqlite-amalgamation/shell.c:3186-3187 | A text that matches still matches with any whitespace added at its end |
| GlobClasses.ClassMatches | src/main/cpp/sqlite-amalgamation/shell.c:3148-3176 | Anywhere in a pattern a bracket class matches one character, if and only if it is listed in the text between the brackets - by itself, or in a range x-y around it, characters compared as signed numbers - or, after a caret, if and only if it is not |
| GlobClasses.RangeMatches | src/main/cpp/sqlite-amalgamation/shell.c:3164-3167 | [x-y] matches a character if and only if it is between x and y or is x, and [^x-y] if and only if not |
| GlobClasses.UnclosedMatchesNothing | src/main/cpp/sqlite-amalgamation/shell.c:3176 | A class without a closing bracket matches nothing |
| GlobClasses.NumberMatches | src/main/cpp/sqlite-amalgamation/shell.c:3177-3181 | # matches the digits at the start of the text, as many as there are, with an optional plus or minus sign in front, and at least one |
| GlobClasses.SpanMatches | src/main/cpp/sqlite-amalgamation/shell.c:3122-3125 | Whitespace in a pattern matches the whitespace at the start of the text, as much as there is, and at least one character |
| GlobClasses.StarMatches | src/main/cpp/sqlite-amalgamation/shell.c:3130-3145 | A star matches any text before a class, and before any other character the text up to one of its occurrences |
| GlobClasses.StarRunMatches | src/main/cpp/sqlite-amalgamation/shell.c:3127-3129 | In a star run a further star changes nothing and a question mark takes one character |
| GlobClasses.AnyMatches | src/main/cpp/sqlite-amalgamation/shell.c:3146-3147 | ? matches any one character |
| GlobClasses.LiteralMatches | src/main/cpp/sqlite-amalgamation/shell.c:3182-3183 | Any other character matches itself |
| GlobClasses.EndMatches | src/main/cpp/sqlite-amalgamation/shell.c:3186-3187 | At its end a pattern matches whitespace only |
| Escapes.OutputCString | src/main/cpp/sqlite-amalgamation/shell.c:765-791 | Prints the text between double quotes with every backslash, quote, control and non-ASCII byte escaped |
| Escapes.ReadOctal | src/main/cpp/sqlite-amalgamation/shell.c:2444-2453 | One to three octal digits, as many as there are, with their value |
| Escapes.ReadEscape | src/main/cpp/sqlite-amalgamation/shell.c:2422-2455 | The character and the length of any escape, in the order of the branches |
| Escapes.ResolveFrom | src/main/cpp/sqlite-amalgamation/shell.c:2421-2459 | The in-place loop computes the functional decoding; the write index never passes the read index and nothing outside the string is changed |
| Escapes.ResolveBackslashes | src/main/cpp/sqlite-amalgamation/shell.c:2417-2459 | The buffer then holds exactly the decoded text and a NUL, for every C string |
| Escapes.OctalRoundTrip | src/main/cpp/sqlite-amalgamation/shell.c:784-785 | Three octal digits stand for the byte they were printed from, whatever follows them |
| Escapes.ResolvedEscaped | src/main/cpp/sqlite-amalgamation/shell.c:2417-2459 | Decoding undoes the quoting of `output_c_string` for every byte string |
| Escapes.CommentIff | src/main/cpp/sqlite-amalgamation/shell.c:2401-2459 | The decoder does what its comment says if and only if no escape of the text is a backslash followed by an s |
| Escapes.SpaceEscapeDiffers | src/main/cpp/sqlite-amalgamation/shell.c:2411 | For a backslash followed by an s the comment promises a space and the decoder gives the letter |
| Escapes.LettersDecoded | src/main/cpp/sqlite-amalgamation/shell.c:2424-2437 | The letters a, b, t, n, v, f and r after a backslash stand for the characters 7 to 13 |
| Escapes.OthersDecoded | src/main/cpp/sqlite-amalgamation/shell.c:2438-2443 | Any other character after a backslash, unless it is an octal digit, stands for itself, the quotes and the backslash among them |
| Escapes.OctalDecoded | src/main/cpp/sqlite-amalgamation/shell.c:2444-2453 | One and two octal digits that no further one follows, and three in any case, stand for the character with that number, cut to a byte |
| Escapes.PrintedPairs | src/main/cpp/sqlite-amalgamation/shell.c:769-783 | Backslash, double quote, tab, newline and CR are printed as a backslash and a character |
| Escapes.PrintedOthers | src/main/cpp/sqlite-amalgamation/shell.c:784-788 | Other characters are printed as they are from space to tilde, and with three octal digits beyond |
| MetaCommand.ScanEscaped | src/main/cpp/sqlite-amalgamation/shell.c:3238-3241 | The tokenizer finds the closing quote of a quoted string exactly at its end, whatever the string holds and whatever follows |
| MetaCommand.FindToken | src/main/cpp/sqlite-amalgamation/shell.c:3235-3249 | The bounds and the kind of the first token of a line |
| MetaCommand.CutToken | src/main/cpp/sqlite-amalgamation/shell.c:3242-3250 | Marking the end of a token and decoding it in place leaves its C string at its position and the rest of the line as it was |
| MetaCommand.TakeToken | src/main/cpp/sqlite-amalgamation/shell.c:3235-3251 | One turn of the loop takes exactly the first token of the remaining line and leaves every token cut before intact |
| MetaCommand.Tokenize | src/main/cpp/sqlite-amalgamation/shell.c:3223-3252 | The argument pointers denote exactly the tokens of the line, at most 50, although all of them share one buffer that is rewritten in place |
| MetaCommand.ArgumentsRoundTrip | src/main/cpp/sqlite-amalgamation/shell.c:3232-3252 | Quoted arguments are read back as they were, as many as there is room for |
| MetaCommand.CommandRoundTrip | src/main/cpp/sqlite-amalgamation/shell.c:3228-3252 | A command word and its quoted arguments come back unchanged, exactly up to the limit of 50 arguments |
| MetaCommand.LineRoundTrip | src/main/cpp/sqlite-amalgamation/shell.c:3228-3252 | Arguments in double quotes, between apostrophes - there with backslashes as they are - or bare, with any whitespace before each, are read as their texts, the first 50 of them |
| MetaCommand.PrintAndParse | src/main/cpp/sqlite-amalgamation/shell.c:3223-3252 | Printing arguments with `output_c_string`, tokenizing and decoding the line in place gives back the command and the arguments |
| InsertMode.IsNumber | src/main/cpp/sqlite-amalgamation/shell.c:434-456 | True exactly for the texts that are a number from the first to the last character under the longest-number grammar |
| InsertMode.NumberIff | src/main/cpp/sqlite-amalgamation/shell.c:434-456 | The number texts are exactly those put together from an optional sign, digits, an optional point with digits, and an optional e or E with an optional sign and digits |
| InsertMode.LiteralExamples | src/main/cpp/sqlite-amalgamation/shell.c:1213-1234 | What is printed for NULL, text, numbers and blobs, with type information, without it, and without a statement |
| InsertMode.OutputHexBlob | src/main/cpp/sqlite-amalgamation/shell.c:722-728 | Prints the bytes as two hexadecimal digits each, in a blob literal |
| InsertMode.OutputChunks | src/main/cpp/sqlite-amalgamation/shell.c:744-756 | The chunked loop prints the text with every quote doubled, at every position of quotes |
| InsertMode.OutputQuotedString | src/main/cpp/sqlite-amalgamation/shell.c:733-760 | Both branches print the quoted text with its quotes doubled |
| InsertMode.OutputLiteral | src/main/cpp/sqlite-amalgamation/shell.c:1216-1234 | The literal that each branch prints, with and without type information and statement |
| InsertMode.ShellCallbackInsert | src/main/cpp/sqlite-amalgamation/shell.c:1201-1238 | The whole INSERT line: table, column names when the header is shown, and the list of literals with commas between them |
| SqlLiterals.HexRoundTrip | src/main/cpp/sqlite-amalgamation/shell.c:2465-2470 | Reading the hexadecimal digits of a printed blob gives its bytes back |
| SqlLiterals.TextRoundTrip | src/main/cpp/sqlite-amalgamation/shell.c:733-760 | A printed text is read as a string literal with exactly that text, of exactly its printed length |
| SqlLiterals.BlobRoundTrip | src/main/cpp/sqlite-amalgamation/shell.c:722-728 | A printed blob is read as a blob literal with exactly its bytes |
| SqlLiterals.NumberRoundTrip | src/main/cpp/sqlite-amalgamation/shell.c:1221-1230 | A text printed raw is read as that whole number if and only if it is a number text |
| SqlLiterals.LiteralRoundTrip | src/main/cpp/sqlite-amalgamation/shell.c:1216-1234 | Every printed cell is read back as its typed value if and only if it is not an integer or float whose text is no number, such as an infinity |
| SqlLiterals.InfinityIsRaw | src/main/cpp/sqlite-amalgamation/shell.c:1221-1223 | A float cell that holds an infinity is printed as Inf, and no literal is read from that |
| SqlLiterals.RowRoundTrip | src/main/cpp/sqlite-amalgamation/shell.c:1213-1236 | The printed VALUES list is read back as exactly the row's values in order, if and only if no cell of the row is such a number |
| DumpSelect.AppendText | src/main/cpp/sqlite-amalgamation/shell.c:1314-1349 | The result is the old text with the new one, plain or quoted, in a buffer of exactly the computed length |
| DumpSelect.WriteQuoted | src/main/cpp/sqlite-amalgamation/shell.c:1333-1342 | The second pass fills the buffer exactly to its end, as the assertion in the code claims, and keeps the text before |
| DumpSelect.DoubledLength | src/main/cpp/sqlite-amalgamation/shell.c:1320-1326 | The length computed in the first pass is the length of the doubled text |
| DumpSelect.SetTableName | src/main/cpp/sqlite-amalgamation/shell.c:1273-1304 | Exactly the allocated number of bytes is written: the name, quoted if it is no plain identifier, and a NUL |
| DumpSelect.TableNameExamples | src/main/cpp/sqlite-amalgamation/shell.c:1269-1304 | Names that are stored as they are and names that are stored in quotes |
| DumpSelect.TableNameRoundTrip | src/main/cpp/sqlite-amalgamation/shell.c:1269-1304 | SQL reads the stored name as the name it was made from, and to its end, whatever follows it, unless it is a reserved word without quotes; then it reads no name |
| DumpSelect.ReservedName | src/main/cpp/sqlite-amalgamation/shell.c:2058-2059 | A table named order: its stored name is not read back |
| InsertRoundTrip.IdentifiersAreRead | src/main/cpp/sqlite-amalgamation/shell.c:1206-1211 | Column names printed as they are, with commas between them, are read back in order if they are identifiers and no reserved words |
| InsertRoundTrip.ColumnsLength | src/main/cpp/sqlite-amalgamation/shell.c:1206-1211 | Of any text, a list of names takes at least as many characters as the names and their separators have, and exactly as many only if all names are such identifiers |
| InsertRoundTrip.ValuesAreAsLong | src/main/cpp/sqlite-amalgamation/shell.c:1213-1236 | Of any text, a list of literals takes as many characters as its values determine |
| InsertRoundTrip.InsertRoundTrip | src/main/cpp/sqlite-amalgamation/shell.c:1201-1238 | The whole INSERT statement is read back as its table, its columns if the header is on, and its values, if and only if the table name is not a reserved word without quotes, every printed column name is an identifier and no reserved word, and no cell is an integer or float whose text is no number |
| InsertRoundTrip.ColumnNamesAreRaw | src/main/cpp/sqlite-amalgamation/shell.c:1208-1208 | With the header on a column named order, or a b, is not read back |
| DumpSelect.BuildHead | src/main/cpp/sqlite-amalgamation/shell.c:2057-2065 | The SELECT up to its columns, with the table name quoted twice |
| DumpSelect.AppendColumns | src/main/cpp/sqlite-amalgamation/shell.c:2066-2078 | The column loop appends one quote() call per column with commas between them |
| DumpSelect.BuildSelect | src/main/cpp/sqlite-amalgamation/shell.c:2057-2085 | The built text is the rendered list of its pieces; nothing is built for a table without columns |
| DumpSelect.LexRendered | src/main/cpp/sqlite-amalgamation/shell.c:1314-1349 | Reading a statement that was put together from plain and quoted pieces gives back exactly the pieces |
| DumpSelect.SelectRoundTrip | src/main/cpp/sqlite-amalgamation/shell.c:2057-2085 | Read back, the SELECT names exactly the columns in order and then the table, its string literals are the four expected ones, and the literal with the table name is again an identifier with that name, for any names |
| DumpSelect.SelectOfTwo | src/main/cpp/sqlite-amalgamation/shell.c:2057-2085 | The SELECT for a table with two columns, character by character |
| PrettySchema.SqueezeOne | src/main/cpp/sqlite-amalgamation/shell.c:1086-1093 | One turn of the first pass keeps the text still to be produced; the write index stays behind the read index |
| PrettySchema.Squeeze | src/main/cpp/sqlite-amalgamation/shell.c:1084-1095 | The first pass, in place over one buffer, computes the squeezed text |
| PrettySchema.SqueezedConserves | src/main/cpp/sqlite-amalgamation/shell.c:1084-1095 | Squeezing removes whitespace only |
| PrettySchema.SqueezedIsNormal | src/main/cpp/sqlite-amalgamation/shell.c:1084-1095 | The result has no whitespace at its ends, doubled, after `(` or before a parenthesis |
| PrettySchema.NormalIffSqueezed | src/main/cpp/sqlite-amalgamation/shell.c:1084-1095 | The texts in that normal form are exactly those that squeezing leaves alone, so squeezing twice is squeezing once |
| PrettySchema.BreakOne | src/main/cpp/sqlite-amalgamation/shell.c:1098-1120 | One turn of the second pass: what was printed and what is still to be printed make up the same text as before |
| PrettySchema.PrintBroken | src/main/cpp/sqlite-amalgamation/shell.c:1097-1124 | The second pass, in place over the same buffer, prints the broken lines |
| PrettySchema.BrokenConserves | src/main/cpp/sqlite-amalgamation/shell.c:1097-1124 | Breaking lines adds and removes whitespace only and adds the semicolon |
| PrettySchema.ShellCallbackPretty | src/main/cpp/sqlite-amalgamation/shell.c:1068-1127 | The whole branch: views and triggers as they are, short texts squeezed, texts of 79 characters or more squeezed and broken into lines |
| PrettySchema.PrettyConserves | src/main/cpp/sqlite-amalgamation/shell.c:1068-1127 | For every schema text the output without whitespace is the input without whitespace followed by a semicolon |
| PrettySchema.ViewsAndTriggers | src/main/cpp/sqlite-amalgamation/shell.c:1077-1082 | A text that starts with CREATE VIEW or CREATE TRIG in any letter case is printed as it is; any other is squeezed, and broken into lines if it then has 79 characters or more |
| PrettyQuotes.SqueezedIsStaying | src/main/cpp/sqlite-amalgamation/shell.c:1084-1095 | Squeezing keeps exactly these characters: all that are not whitespace, and whitespace that is first of its run, follows something other than `(` and precedes something other than a parenthesis |
| PrettyQuotes.BrokenIsPrinted | src/main/cpp/sqlite-amalgamation/shell.c:1097-1124 | The second pass rewrites the squeezed text character by character: a line break after `(` or `,` or for a newline at depth one, one before the last `)`, and no whitespace after a comma that ends a line; quotes play no part |
| PrettyQuotes.QuotedTextIsSpan | src/main/cpp/sqlite-amalgamation/shell.c:1102-1107 | Between double quotes, apostrophes, backquotes or brackets a quoted text reaches to the next closing quote, whatever other quotes it holds, and without one to the end of the text |
| PrettyQuotes.NothingQuoted | src/main/cpp/sqlite-amalgamation/shell.c:1102-1107 | A text without any of the four opening quotes has no quoted part |
| PrettyGaps.PassesAreOut | src/main/cpp/sqlite-amalgamation/shell.c:1084-1124 | Both passes together, the second for long texts only: every character that is not whitespace is printed as it is, and each of the gaps between them (runs of whitespace, possibly empty) is printed as the text that its surroundings in the input determine |
| PrettyGaps.QuotesKeptIff | src/main/cpp/sqlite-amalgamation/shell.c:1068-1127 | For every schema text: what stands in quotes is printed unchanged if and only if every quote is closed and, views and triggers apart, every gap inside quotes is one that is printed as it is |
| PrettyGaps.SqueezedSpans | src/main/cpp/sqlite-amalgamation/shell.c:1086-1093 | The first pass by itself leaves everything in quotes as it was if and only if it keeps every gap in quotes; otherwise the quoted part gets shorter |
| PrettyGaps.SecondPassSpans | src/main/cpp/sqlite-amalgamation/shell.c:1096-1124 | The second pass by itself leaves everything in quotes as it was if and only if every quote is closed and it keeps every gap in quotes; otherwise the quoted part gets longer |
| PrettyGaps.FirstPassExample | src/main/cpp/sqlite-amalgamation/shell.c:1086-1093 | For every table name and the column name x, two spaces, y: one space is printed for the two, and the quoted part is not kept |
| PrettyGaps.SecondPassExample | src/main/cpp/sqlite-amalgamation/shell.c:1114-1120 | For every table name of 79 letters or more and the column name x, comma, y: a line break is printed in the column name, and the quoted part is not kept |
| PrettyGaps.PassesCancel | src/main/cpp/sqlite-amalgamation/shell.c:1084-1124 | For every such table name and a column name with a comma, a newline and two spaces in it: each pass by itself changes the quoted name, and it comes out as it was |
| ExplainIndent.ExplainState.Grow | src/main/cpp/sqlite-amalgamation/shell.c:1727-1729 | Both arrays grow together by 100 entries and keep what they hold |
| ExplainIndent.ExplainState.Indent | src/main/cpp/sqlite-amalgamation/shell.c:1735-1742 | Exactly the rows from the target up to the jump move right by two |
| ExplainIndent.ExplainState.PrepareRow | src/main/cpp/sqlite-amalgamation/shell.c:1698-1743 | After each row the indentation of every earlier row is twice the number of loops around it so far, and the Yield flags are right; every access is inside the arrays |
| ExplainIndent.ExplainState.Prepare | src/main/cpp/sqlite-amalgamation/shell.c:1698-1748 | For a listing of any length the final indentation of row k is twice the number of closed loops whose interval contains k |
| ExplainIndent.EnclosingCounts | src/main/cpp/sqlite-amalgamation/shell.c:1656-1670 | The running count is the number of intervals around a row |
| ExplainIndent.EnclosesIff | src/main/cpp/sqlite-amalgamation/shell.c:1678-1682 | A row encloses another if and only if it is one of the seven Next-like operations, or a Goto with p1 set or back to one of the five Yield-like operations, and jumps back to that row or before it |
| TablesLayout.PrintLine | src/main/cpp/sqlite-amalgamation/shell.c:4675-4680 | The stride loop prints every nPrintRow-th name from i on, padded, with two spaces between them |
| TablesLayout.PrintTables | src/main/cpp/sqlite-amalgamation/shell.c:4662-4682 | For names without a newline the text printed, split at its line ends, has as many lines as the names need in as many columns as fit into 80 characters, and each line has exactly the characters of its names in their columns, with spaces in between and nothing else |
| TablesLayout.PageIsRight | src/main/cpp/sqlite-amalgamation/shell.c:4673-4682 | The page has these lines for any names: the name j is in line j modulo the rows, in column j divided by the rows |
| TablesLayout.OnePlace | src/main/cpp/sqlite-amalgamation/shell.c:4673-4675 | Every name has exactly one place: the index i + q * rows is in line i, column q, and in no other |
| TablesLayout.EntriesAre | src/main/cpp/sqlite-amalgamation/shell.c:4675 | A line holds exactly the names that are a multiple of the number of rows further on |
| TablesLayout.NameOnPage | src/main/cpp/sqlite-amalgamation/shell.c:4674-4681 | The name of line i and column q stands in that line, padded, at q times the column width |
| TablesLayout.EnoughColumns | src/main/cpp/sqlite-amalgamation/shell.c:4671-4673 | By the ceiling division no line is empty and none holds more names than there are columns |
| TablesLayout.LinesFit | src/main/cpp/sqlite-amalgamation/shell.c:4671-4681 | No line is longer than 78 characters or, if that is more, the longest name |
| TablesLayout.LineWidth | src/main/cpp/sqlite-amalgamation/shell.c:4675-4679 | The exact width of any line |
| IntegerValue.IntegerValue | src/main/cpp/sqlite-amalgamation/shell.c:2475-2516 | The value that sign, base, digits and unit denote, exactly when no intermediate result of the 64-bit computation overflows |
| IntegerValue.ReadDigits | src/main/cpp/sqlite-amalgamation/shell.c:2499-2507 | The digit loop yields the value of the longest run of digits exactly when every intermediate sum fits, a decimal digit counting 48 more before '0' is taken off |
| IntegerValue.ApplyUnit | src/main/cpp/sqlite-amalgamation/shell.c:2509-2514 | The search through the unit table multiplies by the unit's multiplier, in any letter case, or by 1 |
| IntegerValue.TableIsRight | src/main/cpp/sqlite-amalgamation/shell.c:2477-2487 | Every table entry has the multiplier that its letters mean: powers of 1000, or of 1024 with iB |
| IntegerValue.NotInTable | src/main/cpp/sqlite-amalgamation/shell.c:2477-2487 | A unit that the table does not list counts as 1 |
| IntegerValue.DecimalRoundTrip | src/main/cpp/sqlite-amalgamation/shell.c:2489-2516 | The decimal text of a number is read back as the number if and only if its magnitude plus 48 fits into 64 bits |
| IntegerValue.ArgumentRoundTrip | src/main/cpp/sqlite-amalgamation/shell.c:2475-2516 | A sign or none, a number in decimal or in hexadecimal digits of either letter case, and any text after it: the argument denotes the signed product of the number and the factor of the unit, which is one unless the text is one of the nine units in any letter case, if and only if number and product fit into 64 bits, a decimal number with 48 to spare |
| IntegerValue.HexRoundTrip | src/main/cpp/sqlite-amalgamation/shell.c:2496-2502 | 0x and the hexadecimal text of a number, with a minus sign or without, is read back up to the largest 64-bit number; a plus sign changes nothing |
| Registry.DatabaseRegistry.OpenDatabase | src/main/cpp/MadDatabaseImpl.cpp:52-74 | The new registry, owners and handle, for paths that resolve or not, live, expired and missing entries, and opening errors |
| Registry.DatabaseRegistry.SweepExpired | src/main/cpp/MadDatabaseImpl.cpp:40-50 | The erasing loop, in any order, removes exactly the expired entries |
| Registry.OpenKeepsInv | src/main/cpp/MadDatabaseImpl.cpp:52-74 | Opening keeps the invariant: an owned handle that was opened without an error is the registered one of its real path |
| Registry.RunKeepsInv | src/main/cpp/MadDatabaseImpl.cpp:40-74 | Every run of openings, drops, sweeps and file creations keeps the invariant |
| Registry.OneHandlePerPath | src/main/cpp/MadDatabaseImpl.cpp:40-74 | In every run from an empty registry a real path has at most one owned handle among those opened without an error for a path that resolved to it right after the opening, and it is the registered one |
| Registry.LateFile | src/main/cpp/MadDatabaseImpl.cpp:69-72 | A path that does not resolve right after its opening is not registered: when it comes to resolve later, a second handle is opened for it |
| Registry.SweepErasesExpired | src/main/cpp/MadDatabaseImpl.cpp:43-49 | A sweep never erases the entry of an owned handle and leaves no expired one |
| Registry.OwnedStays | src/main/cpp/MadDatabaseImpl.cpp:40-74 | A handle that keeps an owner keeps its path and its registration through any run |
| Registry.SameFileSameHandle | src/main/cpp/MadDatabaseImpl.cpp:52-64 | After any run in which a handle keeps its owner, opening any path with its real path returns that handle; it returns a null pointer exactly if the last owner lets go between the test and the lock |
| Registry.ReturnedIsOwned | src/main/cpp/MadDatabaseImpl.cpp:66-73 | A null pointer is returned exactly in that case; any other result is owned, and registered if its path resolves and opening it gave no error; a new handle has a real path exactly in that case |
| Transaction.Database.Begin | src/main/cpp/MadDatabaseImpl.cpp:120-125 | Issues BEGIN and sets the flag only outside a transaction, also when the statement fails |
| Transaction.Database.Rollback | src/main/cpp/MadDatabaseImpl.cpp:127-132 | Issues ROLLBACK and clears the flag only inside a transaction |
| Transaction.Database.Commit | src/main/cpp/MadDatabaseImpl.cpp:134-139 | Issues COMMIT and clears the flag only inside a transaction |
| Transaction.Database.ExecSql | src/main/cpp/MadDatabaseImpl.cpp:141-147 | A bare BEGIN, COMMIT or ROLLBACK in any letter case is ignored, other SQL is passed on, the flag does not change |
| Transaction.ThreeWordsIgnored | src/main/cpp/MadDatabaseImpl.cpp:141-147 | In any state exec of BEGIN, COMMIT and ROLLBACK in any letter case changes nothing, and any other text is passed on |
| Transaction.StepMirrorsIff | src/main/cpp/MadDatabaseImpl.cpp:120-147 | A call keeps the flag equal to the database's own state if and only if it is no exec that begins or ends a transaction and no begin, commit or rollback fails |
| Transaction.RunMirrorsIff | src/main/cpp/MadDatabaseImpl.cpp:120-147 | Through a run with any failing statements the flag always equals the database's state if and only if every call of it is such a call |
| Transaction.RunMirrors | src/main/cpp/MadDatabaseImpl.cpp:120-147 | In every run with exec given harmless SQL or a bare keyword, and no begin, commit or rollback that fails, the flag always equals the database's state, BEGIN is never nested, and COMMIT and ROLLBACK are issued inside a transaction only |
| Transaction.RunInside | src/main/cpp/MadDatabaseImpl.cpp:120-147 | Between a begin and its end the snapshot stays that of the begin and the contents change by the successful updates alone |
| Transaction.TransactionOutcome | src/main/cpp/MadDatabaseImpl.cpp:120-139 | A rollback restores the contents at the matching begin, a commit leaves what the successful updates alone would |
| Transaction.SemicolonIsNotFiltered | src/main/cpp/MadDatabaseImpl.hpp:39-40 | `BEGIN;` passes the filter: the flag is then wrong and the next begin is nested |
| ContentValues.ContentValues.PutData | src/main/cpp/MadContentValuesImpl.cpp:179-189 | Set, vector and index map still agree, and the map they represent has the new value for the key and is otherwise unchanged |
| ContentValues.ContentValues.Clear | src/main/cpp/MadContentValuesImpl.cpp:88-92 | The represented map is empty and the fields agree |
| ContentValues.ContentValues.Keys | src/main/cpp/MadContentValuesImpl.cpp:69-71 | Exactly the keys of the represented map, each once, in any order |
| ContentValues.ContentValues.GetData | src/main/cpp/MadContentValuesImpl.cpp:191-194 | The value of the represented map for the key |
| ContentValues.ContentValues.TypeForKey | src/main/cpp/MadContentValuesImpl.cpp:81-86 | The type of the key's value, NONE for a missing key |
| ContentValues.ContentValues.GetAsInteger | src/main/cpp/MadContentValuesImpl.cpp:94-117 | The integer stored under the key, the library's conversion of a value of another type, 0 for a missing key |
| ContentValues.ContentValues.GetAsReal | src/main/cpp/MadContentValuesImpl.cpp:119-142 | The real stored under the key, the library's conversion of a value of another type, 0 for a missing key |
| ContentValues.ContentValues.GetAsText | src/main/cpp/MadContentValuesImpl.cpp:144-170 | The text stored under the key, the bytes of a blob, the library's conversion of a number, empty for a missing key |
| ContentValues.ContentValues.GetAsBlob | src/main/cpp/MadContentValuesImpl.cpp:172-177 | The bytes stored under the key, none for a missing key or a value of another type |
| ContentValues.Overwrite | src/main/cpp/MadContentValuesImpl.cpp:180-182 | Writing a known key's position changes the represented map at that key only |
| ContentValues.OwnTypeIsKept | src/main/cpp/MadContentValuesImpl.cpp:94-177 | Each getter returns a value of its own type as it is, and the text of a blob has its bytes |
| ContentValues.Append | src/main/cpp/MadContentValuesImpl.cpp:183-187 | A new position for a new key keeps the index map a bijection and adds just that key |
| ContentValues.LastPutWins | src/main/cpp/MadContentValuesImpl.cpp:69-92 | After any sequence of puts and clears a key is present exactly if it was put since the last clear, with the value of its last put |
| ContentValues.Replay | src/main/cpp/MadContentValuesImpl.cpp:179-194 | Any sequence of puts and clears, run on the object, represents the map of that sequence |
| InsertBuilder.BuildText | src/main/cpp/MadDatabaseImpl.cpp:172-191 | The loop with the test against the last key puts commas and closers right, because the keys are distinct |
| InsertBuilder.InsertOfTwo | src/main/cpp/MadDatabaseImpl.cpp:172-191 | The statement for two keys, character by character |
| InsertBuilder.PrepareInsert | src/main/cpp/MadDatabaseImpl.cpp:177-193 | Read as SQL, the statement has the table, exactly one column per key in order, and one parameter per key |
| InsertBuilder.PreparedNames | src/main/cpp/MadDatabaseImpl.cpp:177-193 | No statement can name a table or column with a closing bracket in it |
| InsertBuilder.FaithfulIff | src/main/cpp/MadDatabaseImpl.cpp:177-193 | The statement says what it should if and only if neither the table nor a key holds a closing bracket |
| InsertBuilder.ParseColumnTokens | src/main/cpp/MadDatabaseImpl.cpp:180-190 | The column list is read back as the keys in order |
| InsertBuilder.BindValues | src/main/cpp/MadDatabaseImpl.cpp:199-236 | Parameter i + 1 is bound with the value of key i, by the getter of its type |
| InsertBuilder.RowOfColumns | src/main/cpp/MadDatabaseImpl.cpp:199-236 | The row has exactly the named columns, letter case aside, each with the parameter of one of its names |
| InsertBuilder.RowIff | src/main/cpp/MadDatabaseImpl.cpp:199-236 | With the keys for columns every value is in its column if and only if no two keys with different values are equal but for letter case |
| InsertBuilder.OutcomeIff | src/main/cpp/MadDatabaseImpl.cpp:166-246 | The statement puts every value into the column of its key if and only if no name holds a closing bracket and there is no such conflict |
| InsertBuilder.Insert | src/main/cpp/MadDatabaseImpl.cpp:166-246 | insert puts every value into the column of its key, and nothing else, if and only if there are values, no name holds a closing bracket and no two keys with different values are equal but for letter case; without values it does nothing |
| InsertBuilder.LetterCaseConflict | src/main/cpp/MadDatabaseImpl.cpp:166-246 | Of two different values for the keys a and A one is lost |
| Query.Cursor.MoveToFirst | src/main/cpp/MadQueryImpl.cpp:81-90 | The cursor is at the first row and the result says whether there is one; a reset that reports an earlier error makes it fail behind the last row |
| Query.Cursor.MoveToNext | src/main/cpp/MadQueryImpl.cpp:92-101 | True exactly if the cursor was not already behind the last row, and then the position is one further; a finished statement is never stepped |
| Query.Statement.Step | src/main/cpp/MadQueryImpl.cpp:94 | A step is allowed only on a statement that is not finished, and yields a row or the end |
| Query.Traverse | README.md:41-49 | The documented loop ends and visits every row exactly once in order; of a result set that has rows it visits none exactly if an earlier error is still to be reported |
| Query.PositionAfter | src/main/cpp/MadQueryImpl.cpp:81-101 | After any sequence of calls on any result set, with an error at its end or not, the position is the number of moves since the last moveToFirst, stopping behind the last row, where it also is if that moveToFirst failed |
| Query.SecondFirst | src/main/cpp/MadQueryImpl.cpp:81-90 | Of two calls of moveToFirst in a row the second always moves to the first row |
| Query.Replay | src/main/cpp/MadQueryImpl.cpp:81-105 | Any sequence of calls on a cursor object moves it to that position, which is the statement's row index unless a moveToFirst has just failed |

## Left out

- CsvRoundTrip.TableRoundTrip: for separators that the printer protects. A quote, CR or LF as column separator is left out. NULL cells are printed as the raw null value and cannot be told from text, see CsvImport.NullIsText. The printer's test for a separator of several characters is modelled in CsvFormat.SeparatorSeen, but the import rejects such separators.
- CsvRoundTrip.RowRoundTrip: likewise.
- CsvRoundTrip.FieldRoundTrip: likewise.
- CsvReader.ImportCtx.ReadOneField: the messages about unescaped and unterminated quotes and the interrupt flag are not modelled. A separator from 128 up stands as a character that is no byte; the byte 255 does not, because the code takes it for the end of the file.
- CsvImport.Import: the byte 255 as a separator is excluded: it is equal to the end of the file, where the loop over extra fields would not end. Opening files and pipes, the transaction around the import, failing INSERTs, errors of the first SELECT other than a missing table, and all messages are left out; so is ASCII mode.
- CsvImport.ReadCells: stated for CSV mode; in ASCII mode an empty first field ends the loop early.
- Escapes.OutputCString: `isprint` is that of the "C" locale.
- Escapes.ResolveBackslashes: an octal value above 255 is cut to a byte, as the conversion to `char` does.
- InsertMode.ShellCallbackInsert: the call without a row (a null azArg) only counts, and is left out; column names are not null.
- SqlLiterals.RowRoundTrip: the reading of SQL literals is written from SQL's lexical rules; the value that SQLite computes for the digits of a number is not modelled.
- DumpSelect.AppendText: running out of memory, and the 30-bit mask of strlen30, are left out; lengths are unbounded.
- DumpSelect.TableNameRoundTrip: which words are reserved is a parameter; comments and the blob literals that a name x and an apostrophe begin are not modelled.
- InsertRoundTrip.InsertRoundTrip: the statement is read with the shell's own spacing outside the list of columns; whether the table has such columns is not modelled.
- DumpSelect.SetTableName: a null name only frees the old one, and is left out.
- DumpSelect.BuildSelect: running the SELECT, its second form with ORDER BY, and the PRAGMA that yields the columns are left out.
- PrettySchema.ShellCallbackPretty: the null argument, which prints nothing, and the temporary copy of the text are left out.
- ExplainIndent.ExplainState.Prepare: the checks that a statement is an EXPLAIN and the printing of the indented rows are left out. Jump targets before the first row are excluded, because the code then writes before its array. The array starts unallocated, as the shell leaves it after every listing.
- TablesLayout.PrintTables: names are not null; widths are counted in bytes.
- IntegerValue.IntegerValue: overflow is undefined in C; the model reports it as no value instead of wrapping around.
- Registry.SameFileSameHandle: threads and the mutex are left out; the one race that the mutex does not exclude, the last owner letting go between `expired()` and `lock()`, is a parameter of the opening. Removed or renamed files are not modelled.
- Transaction.RunMirrors: a transaction that SQLite ends by itself after an error is not modelled, nor are the number of changes that exec returns and NUL characters inside SQL text.
- ContentValues.ContentValues.GetAsInteger: what stoi, stod, to_string, the casts between numbers and the reinterpretation of blobs yield is a parameter, and never an exception.
- InsertBuilder.Insert: preparing and binding succeed unless the text is malformed. The bind failure that returns -1, and so true, is left out, and so are a table that does not exist, other names for the row id, and NUL characters in names. Of two parameters for one column the first one counts, which for an INTEGER PRIMARY KEY is the last one; the condition is the same.
- PrettyGaps.QuotesKeptIff: quotes are those of SQL without its comments: a quote inside a comment opens a text here.
- Query.Traverse: a query whose statement could not be prepared and the column getters are left out.
- SQLite itself, realpath, stdio, terminals and the other dot commands are left out: I/O and foreign code.
- The JNI binding, the example program and the generated documentation are left out: foreign calls and UI.
