# Verified model of the STNS client's data structures

STNS resolves Unix users and groups from an HTTP directory. Its client parses the JSON answers with
the bundled library `parson.c`, reads its configuration with the bundled TOML reader `toml.c`, and
packs the groups it found into the buffers of the C library (`stns_group.c`, `stns.h`). This
project models these parts in Dafny and proves what they compute.

* **Object table** (`Members`, `Probing`, `ObjectTable`, `TableRuns`). A JSON object is an
  open-addressing hash table with linear probing, dense side arrays, swap-removal and
  backward-shift deletion. For *every* hash function and every run of operations it is an
  insertion-ordered list of distinct keys, and lookups answer as a map.
* **JSON text** (`Utf8`, `JsonStrings`, `StringCodec`, `StringReader`, `Values`, `Serializer`,
  `Parser`, `ParserMethods`, `RoundTrip`, `DepthLimit`, `Reparse`, `JsonGrammar`, `Writer`, `Layout`,
  `Comments`, `CommentLaws`, `CommentedText`). The string scanner, the string decoder and the comment
  stripper are compared with one grammar of string literals, and the value parser with one grammar of
  values; parsing undoes serializing exactly within the nesting limit; the measuring pass and the
  writing pass of the serializer agree byte for byte; a formatter of bytes turns the compact and the
  pretty form into each other; comments between the tokens of a text come to as many blanks.
* **Trees** (`TreeEquality`, `DottedPaths`). Equality is equality of trees whose objects are maps;
  dotted get, set and remove obey the laws of paths, and a get finds exactly what the segments
  between the dots lead to.
* **TOML** (`TomlCodes`, `TomlStrings`, `TomlKeys`, `TomlStore`, `TomlHeaders`, `TomlInline`,
  `TomlAccept`, `TomlRuns`, `TomlTables`, `TomlDocument`). The UCS encoder is undone by the decoder,
  and the scanner's tokens are what the normalizer accepts. The tables of a document are an abstract
  store that headers and assignments change; the classes `Tab`, `Arr` and `Doc` refine it. For every
  document each line is accepted exactly when the tables before it may take it, the keys of each
  table stay distinct, each table becomes explicit once, every assignment is still held at the end
  by the table that was current at its line, and a path keeps leading to its table until a
  double-bracket header renews an array on the way.
* **NSS** (`GroupPacking`, `Enumeration`). A group is packed if and only if its exact size fits and
  can be read back from the bytes of the buffer; the enumeration delivers the entries in order,
  whatever buffers the caller offers, from the text of the answer to the records that are read back.
  What an entry says is read off its members, and proved to be what the lookups of the code give.

Code that updates things in place is modelled as classes and methods (`Table`, `Doc`, `Cursor`,
buffers as arrays), each proved against a function of its inputs; the lemmas then speak about that
function. The grammars have their own tables of escapes, digits and blanks, written out as bytes. Texts
are sequences of bytes; a cursor is the text that is left, and `Head` of the empty
text is the terminator.

Where the code does something that its comments do not say, the model follows the code:

* A comma right before a closing bracket is accepted, and text behind the value is ignored.
* A minus sign without digits converts to nothing: the value is zero and the cursor does not move.
* Stripping comments twice can change more than stripping once
  (`CommentLaws.NotAlwaysIdempotent`); it does not if and only if no comment starts behind an
  unended one (`CommentLaws.IdempotentExactly`).
* An entry without a name stops an enumeration for good: the call answers "not found" and the
  cursor stays (`Enumeration.NamelessBlocks`, `Enumeration.CompleteExactly`).
* A group member that is not a string leaves its pointer slot as the caller's buffer had it
  (`GroupPacking.GroupEnsure`); in a buffer of zeros the caller reads the members before it
  (`GroupPacking.NonStringEnds`).
* A `\u0000` escape in a TOML string cuts the value that the caller sees
  (`TomlStrings.StringConverts`).
* When the entries have to be fetched in the middle of an enumeration, the inner function, called
  with no lock held, answers "not found" although the fetch succeeded (`Enumeration.Cursor.GetEnt`).
  `_nss_stns_getgrent_r` holds the mutex around it, so the fetch cannot lock the same mutex again
  (stns.h:183-188, stns.c:797-815) and its caller gets "unavailable" instead.

`dafny verify dfyconfig.toml` checks the whole project.

## Model

| member | source | states |
|---|---|---|
| `Members.LookupUnique` | parson.c:622-638 | in a list of distinct keys the lookup of a member's own key finds that member |
| `Members.PutExactly` | parson.c:2084-2125 | the result of a set is determined index by index: the member of the key has its new value at its old place and all others are as before, and a new key stands at the end |
| `Members.RemoveExactly` | parson.c:640-698 | the result of a removal is determined index by index: the last member fills the gap and all others keep their places |
| `Members.LookupPut` | parson.c:2084-2125 | after a set, lookups of the key give the new value and all others are as before |
| `Members.LookupAdd` | parson.c:586-620 | after adding a new key, lookups of it give the value and all others are as before |
| `Members.LookupRemove` | parson.c:640-698 | after a removal the key is gone and all other lookups are as before, although the last member moved |
| `Probing.MaskIsMod` | parson.c:555-584 | `hash & (capacity - 1)` is the remainder for every power of two |
| `Probing.MaskWraps` | parson.c:555-584 | the masked sum of a cell and an offset wraps once around the cell array |
| `Probing.EmptyCellCount` | parson.c:455-495 | with `cells` and `cell_ixs` mutually inverse, exactly capacity minus count cells are empty |
| `Probing.InsertKeeps` | parson.c:586-620 | storing an item in the first empty cell of its path keeps every item reachable and the arrays inverse |
| `Probing.SwapRemoveKeeps` | parson.c:640-698 | after the dense swap-removal the cells are still inverse, and every item is reachable except across the hole |
| `Probing.ShiftMoves` | parson.c:640-698 | moving an item whose path crosses the hole makes its old cell the only hole |
| `Probing.ShiftSkips` | parson.c:640-698 | leaving an item whose path avoids the hole is right, wrap-around included |
| `Probing.ShiftEnds` | parson.c:640-698 | when the scan meets an empty cell, the hole disturbs no path any more |
| `ObjectTable.GrowthMakesRoom` | parson.c:525-553 | doubling keeps a power of two of at least 16 and strictly raises the item capacity, so rehashing never grows again |
| `ObjectTable.ProbeEnds` | parson.c:555-584 | a non-empty consistent table has an empty cell, so every probe ends |
| `ObjectTable.EmptyMeansAbsent` | parson.c:555-584 | an empty cell at the end of a key's path means that the key is not in the table |
| `ObjectTable.SwapRemoveConsistent` | parson.c:640-698 | once the hole is closed, the swap-removed arrays are consistent again |
| `ObjectTable.Table.ItemsUnique` | parson.c:132-142 | the keys of every valid table are distinct |
| `ObjectTable.Table.LoadFactor` | parson.c:455-495 | in every valid table the capacity is 0 or a power of two of at least 16, there is room for 7/10 of it in items, count is at most that, and exactly capacity minus count cells are empty |
| `ObjectTable.Table.constructor` | parson.c:455-495 | a new table of a legal capacity is valid and empty |
| `ObjectTable.Table.Probe` | parson.c:555-584 | the probe loop ends at the key or at the first empty cell, and passed only full cells with other keys |
| `ObjectTable.Table.GetCellIx` | parson.c:555-584 | finds a key if and only if the list has it; otherwise the cell where it would go |
| `ObjectTable.Table.GrowAndRehash` | parson.c:525-553 | keeps the items in order, doubles the capacity (16 at first) and makes room |
| `ObjectTable.Table.Add` | parson.c:586-620 | appends a new key behind all items, or fails and leaves the items unchanged on a duplicate; a full table grows to twice its cells, 16 at first, and no other table grows |
| `ObjectTable.Table.Get` | parson.c:622-638 | the value of the key in the list, if it is there |
| `ObjectTable.Table.Set` | parson.c:2084-2125 | of a key that is there the value is replaced where it stands, every other item keeping its place; a new key is appended |
| `ObjectTable.Table.SwapOut` | parson.c:640-698 | takes the item out of the dense arrays, the last one moving into the gap, and leaves one hole in the cells |
| `ObjectTable.Table.CloseHole` | parson.c:640-698 | the backward shift restores the probe invariant and the inverse arrays |
| `ObjectTable.Table.Remove` | parson.c:640-698 | the last item fills the gap of the key and all others keep their places, or it fails and leaves the items unchanged |
| `ObjectTable.Table.Clear` | parson.c:2291-2308 | empties a table of any contents and keeps its capacity |
| `TableRuns.StepAnswers` | parson.c:586-698 | one operation keeps the list of members answering as the map of the same operations |
| `TableRuns.RunAnswers` | parson.c:586-698 | after every run of operations the list answers as the map |
| `TableRuns.Run` | parson.c:586-698 | the table refines the list over every run, statuses included |
| `TableRuns.RunThenGet` | parson.c:622-638 | for every hash function and every run from the empty table, a lookup gives what the map holds |
| `Utf8.VerifySound` | parson.c:350-390 | an accepted sequence is the section 3 encoding of RFC 3629 of a scalar value |
| `Utf8.VerifyComplete` | parson.c:350-390 | every such encoding is accepted, whatever follows it |
| `Utf8.GrammarIsEncoding` | parson.c:335-390 | the table of section 4 of RFC 3629 describes exactly those encodings |
| `Utf8.IsValidUtf8` | parson.c:392-402 | accepts exactly the concatenations of encodings of scalar values |
| `JsonStrings.SkipOne` | parson.c:787-805 | the scanner steps over exactly what one step of the decoder consumes |
| `JsonStrings.DecodeOneSound` | parson.c:856-911 | what one step of the decoder accepts is one unit of the grammar of literals, with its bytes |
| `JsonStrings.DecodeOneComplete` | parson.c:807-911 | every unit, surrogate pairs included, is accepted in one step |
| `JsonStrings.SkipComplete` | parson.c:787-805 | a literal of the grammar is scanned to its closing quote and no further |
| `JsonStrings.DecodeComplete` | parson.c:856-911 | a literal of the grammar is decoded to its meaning |
| `JsonStrings.DecodeSound` | parson.c:787-911 | a scanned and decoded body is a text of the grammar that ends at the quote the scanner found |
| `JsonStrings.DecodeExact` | parson.c:787-911 | the decoder accepts a scanned body if and only if the grammar writes it |
| `JsonStrings.HexExactly` | parson.c:308-333 | four bytes are read as a number if and only if they are its hexadecimal digits, in any mixture of cases |
| `StringCodec.QuoteRoundTrip` | parson.c:1290-1355 | every byte sequence is read back from its literal exactly, and the reading stops right behind it |
| `StringCodec.QuoteInjective` | parson.c:1290-1355 | different byte sequences have different literals |
| `StringCodec.EscapeNulFree` | parson.c:1290-1355 | the text of a literal contains no NUL, even for bytes that do |
| `StringCodec.EscapeShortest` | parson.c:1290-1355 | no text that means a byte is shorter than the one written for it, except that a slash is escaped on request |
| `StringCodec.EscapeDigits` | parson.c:1290-1355 | the numeric escapes have four digits in lower case |
| `StringCodec.ScalarsDecode` | parson.c:319-333 | scalar values written as `\u` escapes and surrogate pairs decode to their UTF-8 encoding, which is valid UTF-8 |
| `StringCodec.DecodeFails` | parson.c:856-911 | a place where no unit fits makes the whole literal fail |
| `StringCodec.LoneSurrogateFails` | parson.c:807-854 | a surrogate that is not a lead followed by a trail makes the literal fail |
| `StringReader.SkipQuotes` | parson.c:787-805 | the cursor moves right behind the closing quote, or fails at the end of the text |
| `StringReader.ParseUtf16` | parson.c:807-854 | writes the bytes of an escape and moves both cursors, never past the terminator |
| `StringReader.ProcessString` | parson.c:856-911 | decodes the body into a buffer of its length plus one, and writes no more bytes than it reads |
| `StringReader.GetQuotedString` | parson.c:913-922 | scanner and decoder together: the contents and the cursor behind the literal |
| `ParserMethods.SkipWhitespaces` | parson.c:80-81 | the cursor stands where `SkipSpaces` ends, which `JsonGrammar.SkipExactly` determines |
| `ParserMethods.ParseValueAt` | parson.c:924-947 | the cursor-based parser agrees with the recursive functions on value and position |
| `ParserMethods.ParseArrayAt` | parson.c:1022-1069 | the same for arrays, with the loop over items |
| `ParserMethods.ParseMemberAt` | parson.c:949-1020 | a key, a colon and a value go into the table, or fail on a duplicate or on a key with a NUL |
| `ParserMethods.ParseObjectAt` | parson.c:949-1020 | an object built in the hash table has the members of the specification in their order |
| `ParserMethods.ParseStringText` | parson.c:1383-1391 | the entry point computes the specified value for every hash function |
| `RoundTrip.NumberRoundTrip` | parson.c:1099-1112 | integers of at most 2^53 in magnitude are read back from their decimal text |
| `RoundTrip.ValueRoundTrip` | parson.c:924-1121 | any tree within the nesting limit is read back in either format, whatever follows it, leaving exactly what follows |
| `DepthLimit.TooDeepFails` | parson.c:924-947 | a serialized tree that nests too deeply is refused at every position |
| `DepthLimit.ReadBackExactly` | parson.c:1383-1391 | a serialized tree is read back if and only if no value sits below more than 2048 containers |
| `Reparse.ParsedReadable` | parson.c:924-1121 | every value that any text parses to has distinct keys and is within the limit |
| `Reparse.ParseSerializeParse` | parson.c:1840-1857 | serializing and parsing again gives the same value for every text that parses |
| `JsonGrammar.WrittenParses` | parson.c:924-1097 | every text that the grammar writes for a value within the limit is parsed to that value, spaces and trailing commas included |
| `JsonGrammar.ParsedWritten` | parson.c:924-1121 | every text that is parsed is spaces and a text that the grammar writes for the value, or a lone minus sign |
| `JsonGrammar.ParsesExactly` | parson.c:924-1121 | the parser gives a value and a rest if and only if the value is well-formed and within the limit and the text is spaces, a text of the value and the rest |
| `JsonGrammar.TextParsesExactly` | parson.c:1383-1391 | the texts that the entry point accepts, and with which value: at most one byte order mark, white space, a text of the value that is well-formed and within 2048 levels, and anything behind it |
| `JsonGrammar.SkipExactly` | parson.c:80-81 | exactly the six white-space bytes of the C locale are skipped: all bytes before the place are among them, and the one there is not |
| `Writer.SerializeString` | parson.c:1290-1355 | the literal is written with its terminator, and measured without a buffer to the same length |
| `Writer.SerializeTo` | parson.c:1146-1288 | the writing pass leaves the text and a terminator and changes nothing else; without a buffer it returns the same length |
| `Writer.SerializationSize` | parson.c:1799-1803 | the measured size is the length of the text plus one |
| `Writer.SerializeToBuffer` | parson.c:1805-1816 | refuses a buffer that is too small and leaves it alone; otherwise the text and its terminator are in it |
| `Writer.SerializeToString` | parson.c:1840-1857 | the allocated string is the text and its terminator, nothing less or more |
| `Writer.NumberFitsScratch` | parson.c:1146-1160 | every number and its terminator fit the scratch buffer |
| `Layout.FormsExactly` | parson.c:1129-1288 | a formatter that drops the blanks outside of literals, and for the pretty form breaks lines at brackets and commas with four spaces a level, turns either form of a value into the one that is asked for; so the compact form has no blank outside of literals |
| `Comments.StripBlanks` | parson.c:239-272 | stripping keeps the length and changes bytes only to blanks |
| `Comments.RemoveComments` | parson.c:239-272 | the in-place loop computes the specified text, and leaves the text alone for an empty token |
| `CommentLaws.StripTwice` | parson.c:239-272 | a second pass changes only the text behind an unended comment |
| `CommentLaws.UnchangedExactly` | parson.c:239-272 | a text stays as it is if and only if no comment starts outside of its literals |
| `CommentLaws.IdempotentExactly` | parson.c:239-272 | stripping twice equals stripping once if and only if no comment starts behind an unended one |
| `CommentLaws.NotAlwaysIdempotent` | parson.c:239-272 | two unended comment starts are a text on which stripping is not idempotent |
| `CommentLaws.LiteralUntouched` | parson.c:239-272 | the stripper agrees with the grammar about where a literal ends |
| `CommentLaws.SerializedUntouched` | parson.c:239-272 | serialized text passes the stripper unchanged, slashes in strings included |
| `CommentLaws.CommentsTransparent` | parson.c:1393-1406 | both passes leave serialized text alone, so the parser with comments reads the same tree |
| `CommentedText.CommentBlanked` | parson.c:239-272 | a comment, given as start token, text and the first end token, comes to as many blanks, tokens included, and stripping goes on right behind it |
| `CommentedText.UnendedBlanked` | parson.c:239-272 | of a comment without an end only the start token is blanked |
| `CommentedText.CommentsAreBlanks` | parson.c:1393-1406 | a text with comments of both kinds between its literals and other tokens is read as the text with blanks in their places |
| `CommentedText.CommentsIgnored` | parson.c:1393-1406 | a serialized value with comments and spaces in front and anything behind is read as that value |
| `CommentedText.ParseStringWithComments` | parson.c:1393-1406 | the entry point, which copies the text and strips it in place twice, computes the specified value for every hash function |
| `TreeEquality.EqualsExactly` | parson.c:2370-2433 | equality holds exactly for trees that are the same with objects read as maps |
| `TreeEquality.EqualsEquivalence` | parson.c:2370-2433 | equality is reflexive, symmetric and transitive |
| `TreeEquality.DeepCopy` | parson.c:1709-1797 | the copy is the same tree with the same member order, for every hash function |
| `DottedPaths.NamesArePaths` | parson.c:1441-1448 | dotted get, set and remove are the operations on the list of segments between the dots |
| `DottedPaths.FirstDotExactly` | parson.c:1441-1448 | the dot that splits a name is the first one, and a name is not split exactly when it has none |
| `DottedPaths.SplitExactly` | parson.c:1441-1448 | a name has exactly the segments without dots that give it when they are joined with dots |
| `DottedPaths.DotGetExactly` | parson.c:1441-1448 | a dotted get gives a value if and only if the segments lead to it, member by member through objects |
| `DottedPaths.DotSetLaws` | parson.c:2172-2221 | a set fails exactly when a proper prefix names something that is no object; afterwards the path gives the value and every path apart from it reads as before |
| `DottedPaths.DotRemoveLaws` | parson.c:700-713 | a removal succeeds exactly when the path has a value; afterwards it has none and every path apart from it reads as before |
| `TomlCodes.UcsToUtf8` | toml.c:155-233 | writes one to six bytes, or refuses a surrogate, 0xFFFE, 0xFFFF or a code beyond 31 bits |
| `TomlCodes.Utf8ToUcs` | toml.c:53-149 | the decoder's loop computes the specified code and length |
| `TomlCodes.UcsRoundTrip` | toml.c:53-233 | every accepted code is decoded again, whatever bytes follow |
| `TomlCodes.EncodingShortest` | toml.c:53-233 | whatever bytes a code is decoded from, its encoding is not longer |
| `TomlCodes.EncodingIsUtf8` | toml.c:155-233 | scalar values have the bytes of section 3 of RFC 3629, except 0xFFFE and 0xFFFF, which are refused |
| `TomlStrings.ScanString` | toml.c:1492-1533 | the loop over escape state and hex digits finds the closing quote of a single-line string |
| `TomlStrings.ScanComplete` | toml.c:1492-1533 | every string of the grammar is scanned to its closing quote |
| `TomlStrings.ScanSound` | toml.c:1492-1533 | what is scanned before the closing quote is a string of the grammar |
| `TomlStrings.NormalizeExactly` | toml.c:385-499 | normalizing a string of the grammar gives its meaning, or fails because a code is refused |
| `TomlStrings.HexRead` | toml.c:440-456 | the digits written for a number are read as that number |
| `TomlStrings.HexWritten` | toml.c:440-456 | digits that are read as a number are those that are written for it, so lower-case ones are not digits |
| `TomlStrings.LineEndVanishes` | toml.c:424-431 | a backslash at the end of a line stands for nothing, and so do all blanks and line ends behind it |
| `TomlStrings.NormalizeString` | toml.c:385-499 | the loop with its growing buffer computes the specified bytes, every write inside the buffer |
| `TomlStrings.TokenConverts` | toml.c:1929-1990 | every scanned token converts to its meaning, and fails exactly when an escape names a refused code |
| `TomlStrings.StringConverts` | toml.c:1929-1990 | the caller sees the C string that the meaning starts with, which is the whole meaning if and only if no escape names code 0 |
| `TomlKeys.Lists.FoundThere` | toml.c:567-603 | with distinct keys the lookup of a key finds the value, array or table that has it |
| `TomlKeys.Lists.FoundAgain` | toml.c:567-603 | when the lists only grow and stay distinct, a key is found where it was |
| `TomlTables.CheckKey` | toml.c:567-603 | finds a key in the values, arrays or tables, and says it is absent exactly when no list has it |
| `TomlTables.KeysEnumerated` | toml.c:1606-1630 | counting through a table with distinct keys meets each key once, and the raw value of a key is the one at its index |
| `TomlStore.AddTableKeeps` | toml.c:646-688 | adding a table under a new key keeps the document valid and everything that was there, and changes no other table |
| `TomlStore.PushTableKeeps` | toml.c:755-772 | the same for a table added to an array, which becomes its last one |
| `TomlHeaders.KeyTableKeeps` | toml.c:646-688 | the table of a key, new or promoted, is explicit from now on and was not before; the key leads to it and no value is lost |
| `TomlHeaders.WalkKeeps` | toml.c:1059-1124 | the walk succeeds if and only if nothing on the path is a value or an array without tables; the path then leads to its result, and it changes nothing when the path led to a table before |
| `TomlHeaders.ReachKept` | toml.c:1059-1124 | a path still leads to the same table after every growth that keeps the arrays which the path crosses |
| `TomlHeaders.SelectKeeps` | toml.c:1127-1212 | a header is accepted exactly when its path is at most ten keys long and its last key may be made there, said of the tables before it; the path then leads to the current table, the one that became explicit, and all values, lists, and arrays other than the named one are kept |
| `TomlInline.FillNewTable` | toml.c:788-820 | an inline table fills an empty table exactly when no key is given twice, and the table then holds those entries |
| `TomlInline.AddItemExactly` | toml.c:844-940 | an element is added to an array exactly when it is like those before it and loadable |
| `TomlInline.FillNewArray` | toml.c:844-940 | an inline array fills an empty array exactly when its elements are alike, and the array then holds those elements in order |
| `TomlInline.AssignNew` | toml.c:948-996 | an assignment to a new key succeeds exactly when its value is loadable, stores exactly that value and changes nothing else |
| `TomlInline.AssignKeeps` | toml.c:948-996 | after any accepted assignment, an inline table on an implicit one included, everything that was there is still there and the entry is held |
| `TomlInline.EntryGrows` | toml.c:948-996 | an entry that is held stays held in every document that extends this one |
| `TomlAccept.AssignFrame` | toml.c:948-996 | an assignment to a new key changes no table but its own, and one to an implicit table none but those under it |
| `TomlAccept.AssignExactly` | toml.c:948-996 | an assignment is accepted if and only if its key is new and its value loadable, or its key names an implicit table and each entry is accepted there, all said of the tables before it |
| `TomlRuns.AcceptedExactly` | toml.c:1261-1283 | a line is accepted if and only if the tables before it may take it |
| `TomlRuns.PathSurvives` | toml.c:1261-1283 | a path leads to the same table after any line, unless it crosses an array to which the line adds a table |
| `TomlRuns.TraceOk` | toml.c:1214-1289 | after every line of every document the keys of each table are distinct, each array is of one kind and type, and each table became explicit at most once |
| `TomlRuns.TraceGrows` | toml.c:1214-1289 | nothing that is there after some line is gone after a later one |
| `TomlRuns.NothingIsLost` | toml.c:1214-1289 | every assignment is held at the end by the table that was current at its line, and every header led to the table that it made current |
| `TomlRuns.PathLasts` | toml.c:1214-1289 | over a whole document a path leads to the same table as long as no line adds a table to an array that it crosses |
| `TomlRuns.TraceUnique` | toml.c:1214-1289 | the lines determine the documents after each line |
| `TomlRuns.RefusedForGood` | toml.c:1214-1289 | a line that is refused refuses the document |
| `TomlRuns.PlainExactly` | toml.c:1214-1289 | a document without headers loads exactly when no key comes twice and no array mixes kinds, and the root then holds its entries and nothing else |
| `TomlDocument.Doc.constructor` | toml.c:1214-1253 | a new document has a valid, empty and explicit root |
| `TomlDocument.Doc.KeysDistinct` | toml.c:567-603 | in a valid document the keys of every table are distinct |
| `TomlDocument.Doc.CreateKeyval` | toml.c:607-642 | adds a value if and only if its key is new to all three lists |
| `TomlDocument.Doc.CreateKeytable` | toml.c:646-688 | adds an explicit table for a new key, makes an implicit one explicit, and refuses everything else |
| `TomlDocument.Doc.CreateKeyarray` | toml.c:692-732 | adds an array for a new key, returns an existing one on request, and refuses everything else |
| `TomlDocument.Doc.AppendInnerArray` | toml.c:736-753 | adds an array to an array and leaves all other objects alone |
| `TomlDocument.Doc.AppendInnerTable` | toml.c:755-772 | adds a table to an array and leaves all other objects alone |
| `TomlDocument.Doc.WalkTabpath` | toml.c:1059-1124 | the loop over the path refines the walk of the store: the same result, the same tables created |
| `TomlDocument.Doc.ParseSelect` | toml.c:1127-1212 | a header on the objects refines the header on the store, accepted or refused alike |
| `TomlDocument.Doc.ReadTable` | toml.c:788-820 | the loop over an inline table refines the entries on the store |
| `TomlDocument.Doc.ReadArray` | toml.c:844-940 | the loop over an inline array refines the elements on the store |
| `TomlDocument.Doc.AssignKey` | toml.c:948-996 | an assignment on the objects refines the assignment on the store |
| `TomlDocument.Load` | toml.c:1214-1289 | loads a document if and only if all its lines are accepted; each line was one that the tables before it may take, and the line where it stopped was not; the objects are the store after the last line, which holds every assignment in the table that was current at its line |
| `GroupPacking.Copied` | stns.h:169-181 | a bounded copy writes the string and its terminator unless it is longer than the maximum |
| `GroupPacking.SaysExactly` | stns_group.c:7-39 | the id, the name and the members that the lookups give are exactly what the members "id", "name" and "users" of the entry say, in their order; a missing id is zero, a name that is no string is none, and strings are cut at their first NUL |
| `GroupPacking.SizeExactly` | stns_group.c:7-51 | a group of ordinary strings takes exactly its name and password with terminators, eight bytes per member and one more pointer, and the member strings with terminators |
| `GroupPacking.AddressRoundTrip` | stns_group.c:32-49 | an address that fits is read back from its bytes |
| `GroupPacking.LittleEndianSound` | stns_group.c:32-49 | little-endian storage is one of the machines that the packing is proved for |
| `GroupPacking.SetAttribute` | stns.h:169-181 | copies an attribute exactly when it fits and moves behind it, changing nothing else |
| `GroupPacking.MembersKept` | stns_group.c:32-49 | writes into other regions leave the packed pointers and strings alone |
| `GroupPacking.PackMembers` | stns_group.c:32-49 | packs every member exactly when all fit; slots of members that are not strings stay as they were |
| `GroupPacking.GroupEnsure` | stns_group.c:7-51 | not found without a name; otherwise success exactly when the size fits, with name, password, pointers and strings in disjoint regions, and a retry with ERANGE when not; nothing beyond the buffer changes; what the entry holds is determined by `SaysExactly` |
| `GroupPacking.GroupReadBack` | stns_group.c:7-51 | from the bytes of a packed buffer the caller reads the name, the password and the members in order up to NULL |
| `GroupPacking.NonStringEnds` | stns_group.c:32-49 | from a buffer of zeros the caller reads the members before the first one that is not a string |
| `Enumeration.RunDelivers` | stns.h:246-270 | over every sequence of buffer sizes the successes deliver the entries in order, none skipped or repeated |
| `Enumeration.RetryChangesNothing` | stns.h:246-270 | a call answered with a retry may be left out of a run |
| `Enumeration.EndIsFinal` | stns.h:246-270 | after the last entry every call answers not found and the cursor stays |
| `Enumeration.ExactBuffersSuffice` | stns.h:246-270 | with named entries, buffers of exactly the needed sizes deliver everything |
| `Enumeration.NamelessBlocks` | stns.h:246-270 | no run passes an entry without a name |
| `Enumeration.CompleteExactly` | stns.h:246-270 | some run delivers every entry if and only if every entry has a name |
| `Enumeration.NamelessFirst` | stns.h:246-270 | the answer `[{}]` is one from which nothing is ever delivered |
| `Enumeration.Cursor.SetEnt` | stns.h:183-206 | loads the entries and restarts at the first, or is unavailable and without entries when the text does not parse |
| `Enumeration.Cursor.EndEnt` | stns.h:233-244 | the cursor is without entries and at the start |
| `Enumeration.Cursor.GetEnt` | stns.h:246-270 | answers as specified for the entry at the cursor, packs that entry, and moves only on success |
| `Enumeration.Enumerate` | stns.h:183-270 | from the serialized text of entries that describe any groups, with buffers of any sizes, the caller reads the shifted ids, the names, the password and the members of these groups in order, each group once, as far as the sizes sufficed |

## Left out

- ParseNumber: reads integers of at most 2^53 in magnitude; a fraction, an exponent, hexadecimal, infinity, NaN, negative zero or a larger number is refused here, because `strtod` and `sprintf` on general doubles are foreign code. So are texts such as `1x`, `1e]` and `-nx`, from which `strtod` reads the prefix or nothing and which the code then accepts.
- Decimal: prints integers only, the form that `%1.17g` gives them; custom formats and number callbacks are not modelled.
- NumbersEqual: compares integers with the source's tolerance; on other numbers the tolerance makes equality non-transitive.
- GroupEnsure: the group id is an unbounded sum, and on a failure it says nothing about the fields of the record; alignment of the pointer area is not modelled.
- DotSet: works, like DotRemove, on immutable trees, so the in-place update of nested tables and the links from a value to its parent are not captured.
- DeepCopy: the copy is a value, so that its storage is disjoint from the original is not expressed.
- Set: the refusal of a value that already has a parent is not modelled.
- GetEnt: the mutex is not modelled, so the answer "unavailable" of a fetch under the held mutex is not either.
- Load: takes the lines of a document already split into keys and values; the tokenizer, its error messages and its behaviour at the end of the input are not modelled.
- ParseSelect: of a refused line it says, like the other steps of a document, only that the document stays valid; the source frees the document then.
- TokenConverts: covers single-line basic strings; triple-quoted and literal strings are not modelled.
- The hash is a parameter, so nothing depends on djb2; the alternative build with a constant hash is one instance.
- Allocation succeeds, capacities and lengths fit the machine's integers, and nothing is freed.
- Bit masks and shifts are written as remainders and quotients, except the mask of the hash table, which is proved to be a remainder.
- `strstr`, `strncpy`, `strnlen` and `memcpy` are replaced by their meaning on byte sequences.
- The array operations, the typed accessors and setters, `json_validate` and file access of `parson.c` would only add easy members.
- TOML numbers, booleans and timestamps; the type tag of a value is a parameter of the document.
- HTTP, caching, the lock file, configuration, syslog and the mutexes around the NSS functions.
- `stns_passwd.c` and `stns_shadow.c`, which pack records without a variable part.
