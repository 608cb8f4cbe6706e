# Verified models of the GEGELATI core

GEGELATI learns tangled program graphs. This project models, in Dafny, the parts of it
whose correctness is hardest to see by reading, and proves what they promise.

* **JSON printer and parser** (the modules whose names start with `Json`, with `Bytes` and `Utf8`).
  `JsonLexer` and `JsonParser` are a recursive reference definition of tokens and documents, error
  recovery and all feature flags included; `JsonReader.OurReader` is the cursor machine with its
  node stack, proved against it method by method, and `JsonWriter` is the printer, proved against a
  text function. `JsonGrammar` defines the language itself, as syntax trees with any whitespace,
  comments, spelling and extension, in bytes and without using the reader's own tests.
  `JsonAccepts` proves that the reader makes of every such text what its tree denotes, under every
  feature set, and `JsonDerives` the converse: what is read without error is such a text. For
  documents without comments this is an equivalence. `JsonFailures` says which error is reported
  first, and where. On top of it `JsonRoundTrip` joins printer and parser: the printer writes the
  compact text of a tree, and together they are the identity exactly on faithful values that fit.
  In the other direction `JsonReprint` says what values the parser can build and that printing them
  settles. The grammar is sections 2 to 7 of RFC 8259, UTF-8 is sections 3 and 4 of RFC 3629,
  surrogate pairs are section 2 of RFC 2781.
* **The archive** (`Recordings`, `Archive`, `ArchiveMerge`). A bounded queue, a per-program index
  and an owned table of copies; every step keeps them in agreement and frees each copy once.
  Merging the archives of parallel jobs is related to a sequential evaluation.
* **Random integers** (`Words`, `Products`, `Random`). Rejection sampling over a 64-bit engine is
  exactly uniform; signed ranges are adjusted without losing order.
* **Addressing and hashing** (`DataHandlers`, `Windows`, `HandlerHash`). Windows of a grid, memo
  tables that never change an answer, FNV-1a with a rotating fold.
* **Programs** (`Programs`, `Introns`, `IdenticalBehavior`). The backward scan that marks introns,
  their removal, the engine that skips them, and the comparison of two programs.
* **Decimation and scoring** (`Decimation`, `FScore`). Which roots a generation keeps, and the
  F1 scores from confusion tables.

Objects that the C++ code updates in place are classes with `modifies` clauses; each method is
tied to a function of the state before it, and what the code promises is proved about those
functions. 64-bit integers are either `newtype`s in which overflow is an error, or integers with
the remainder written out. Scores, ratios and margins are real numbers.

## Where the code is not what it is said to be

* The comment at `gegelatilib/include/archive.h:200-201` says that a recording that is already there
  is not added. The code always adds (`gegelatilib/src/archive.cpp:98-109`), and so does the model.
* Unmarked programs are not always equivalent to marked ones: when exceptions are ignored, a needed
  line that fails leaves an earlier write visible that the scan took for dead
  (`Programs.IgnoredFailureDiffers`, in an environment that can be constructed).
  `Programs.IntronsPreserveResult` says when results agree: a second scan, of the executable lines
  alone, must find no needed line among those that were marked.
* `hasIdenticalBehavior` compares one constant per operand, so programs that differ in the second
  constant of an array operand pass (`IdenticalBehavior.ArrayConstantsEscape`). Programs that pass
  behave the same when all the constants their operands read are equal
  (`IdenticalBehavior.IdenticalMeansSame`).
* Merging parallel archives re-hashes the stored copies. A wrapper around a null pointer hashes to
  zero, and its clone hashes like zero-filled data; the two differ unless the hash of the handler's
  id is one particular value (`HandlerHash.CloneKeepsHash`). For the first handler ever made, around
  one double, they differ (`HandlerHash.FirstNullWrapperChanges`), and a merge changes its key
  (`ArchiveMerge.NullWrapperMerge`). `ArchiveMerge.MergeIsSequential` gives the exact condition for
  the merge to equal the sequential archive.
* The reader accepts more than JSON even when every extension is off, and `JsonGrammar` has it all:
  comments are skipped inside arrays and objects whether allowed or not, and behind a member that
  a comment follows any token passes for the comma (`lib/JsonCpp/jsoncpp.cpp:1722-1733`); a trailing
  comma passes behind a member with an empty name (line 1685); a sign alone is the number zero or
  floating-point text; and a comment in stars that is cut short counts as complete when the
  document ends with a slash.
* Array values may have holes. Removing an index acts as deletion from the sequence exactly when
  `JsonArray.Removable` holds: the index has an entry, and removing the last one exposes no hole.
* Assigning one primitive array to another keeps a cached hash that may be stale
  (`HandlerHash.HashedArray.Assign`).
* The comment at `gegelatilib/include/mutator/deterministicRandom.h:121` gives the bit mask as
  2^`_Bits` - 1, but `_Bits` starts at 8 for a 64-bit type (line 59). With the full-range engine of
  `rng.h` the mask is 2^64 - 1 and one draw always fills it, which is what `Random` models.

## Model

| member | source | states |
|---|---|---|
| Utf8.Decode | lib/JsonCpp/jsoncpp.cpp:4237-4287 | one decoding step consumes 1 to 4 bytes and never passes the end, whatever the bytes are |
| Utf8.DecodeScalar | lib/JsonCpp/jsoncpp.cpp:4237-4287 | what the printer ends up denoting is always a Unicode scalar value, even on malformed input |
| Utf8.DecodeTakes | lib/JsonCpp/jsoncpp.cpp:4237-4287 | a character cut short, or a byte that starts none, is replaced by U+FFFD and one byte is taken; any other takes the bytes its lead byte demands |
| Utf8.DecodeReplaces | lib/JsonCpp/jsoncpp.cpp:4237-4287 | overlong forms and surrogates are replaced as a whole |
| Utf8.DecodeWellFormed | lib/JsonCpp/jsoncpp.cpp:4237-4287 | on a well-formed character the decoder takes exactly its bytes and gives the scalar value that encodes back to them |
| Utf8.EncodeWellFormed | lib/JsonCpp/jsoncpp.cpp:125-151 | the encoding of a scalar value is one well-formed character in any context |
| Utf8.EncodeQuadruple | lib/JsonCpp/jsoncpp.cpp:125-151 | the four bytes of a value above U+FFFF are those that make it up |
| Utf8.EncodeTriple | lib/JsonCpp/jsoncpp.cpp:125-151 | the same for three bytes |
| Utf8.SurrogatesMean | lib/JsonCpp/jsoncpp.cpp:4383-4392 | the two halves of a pair lie in their ranges and make up the value |
| Utf8.RepairExact | lib/JsonCpp/jsoncpp.cpp:4324-4399 | decoding and re-encoding a byte string gives well-formed UTF-8, and changes it exactly when it was malformed |
| JsonString.QuoteStep | lib/JsonCpp/jsoncpp.cpp:4337-4396 | one round of the quoting loop moves the cursor by at least one byte and never past the end, so the loop lands on it |
| JsonString.ShortcutAgrees | lib/JsonCpp/jsoncpp.cpp:4324-4336 | the shortcut for harmless texts writes what the escaping loop would write |
| JsonString.RawStepIs | lib/JsonCpp/jsoncpp.cpp:4337-4396 | with emitUTF8 exactly quote, backslash and control characters are escaped, each in its one form |
| JsonString.Scan | lib/JsonCpp/jsoncpp.cpp:1650-1672 | string scanning stays in the document and succeeds only right behind a closing quote |
| JsonString.ScanQuoted | lib/JsonCpp/jsoncpp.cpp:1650-1660 | scanning a quoted text stops exactly behind its closing quote, whatever follows |
| JsonString.CodePointDecodes | lib/JsonCpp/jsoncpp.cpp:1956-2005 | an escaped code point, as one escape or as a surrogate pair, is decoded to the UTF-8 of that code point |
| JsonString.DecodeQuoted | lib/JsonCpp/jsoncpp.cpp:1903-1954 | decoding a quoted text without emitUTF8 gives the repaired text, for every byte string |
| JsonString.DecodeQuotedRaw | lib/JsonCpp/jsoncpp.cpp:1903-1954 | with emitUTF8 every byte string comes back unchanged |
| JsonString.QuotedRoundTrip | lib/JsonCpp/jsoncpp.cpp:4324-4399 | without emitUTF8 quoting and decoding is the identity exactly on well-formed UTF-8; with it, always |
| JsonWriter.ValueToQuotedString | lib/JsonCpp/jsoncpp.cpp:4324-4399 | the printer's loop with its shortcut produces the quoted text |
| JsonNumber.UintToString | lib/JsonCpp/jsoncpp.cpp:153-173 | writes the digits and terminator into the buffer, leaves every other cell alone, and needs 21 of the 25 cells at most |
| JsonNumber.IntToString | lib/JsonCpp/jsoncpp.cpp:4145-4159 | prints every int64, the smallest included, as its decimal text |
| JsonNumber.UintToText | lib/JsonCpp/jsoncpp.cpp:4161-4167 | prints every uint64 as its decimal text |
| JsonNumber.DigitsDenote | lib/JsonCpp/jsoncpp.cpp:167-173 | the printed digits denote the number |
| JsonNumber.DigitsLead | lib/JsonCpp/jsoncpp.cpp:167-173 | printed digits have no leading zeros |
| JsonNumber.DecodeNumber | lib/JsonCpp/jsoncpp.cpp:1790-1868 | for every nonempty text the 64-bit loop never overflows and gives the denoted integer exactly when the text is an optionally negated digit string in range |
| JsonNumber.DecodeNumberOld | lib/JsonCpp/jsoncpp.cpp:781-822 | the same for the older decoder, whose signed range is 32 bits |
| JsonNumber.DecodersAgree | lib/JsonCpp/jsoncpp.cpp:781-822 | both decoders fall back on the same texts and give the same number; they differ in signedness exactly between 2^31 and 2^63 - 1 |
| JsonNumber.PrintedIntegerDecodes | lib/JsonCpp/jsoncpp.cpp:1790-1868 | every printed int64 or uint64 decodes to itself without the floating-point fallback |
| JsonValue.PutIsUpdate | lib/JsonCpp/jsoncpp.cpp:3459-3475 | storing a member in the sorted map changes the lookup of that key only and keeps the order |
| JsonValue.PutTwice | lib/JsonCpp/jsoncpp.cpp:3459-3475 | creating a member as null and then assigning it equals storing it once |
| Bytes.KeyLessIs | lib/JsonCpp/jsoncpp.cpp:2706-2721 | a key comes before another exactly if at the first difference it ends or has the smaller byte |
| JsonValue.CanonicalExact | lib/JsonCpp/jsoncpp.cpp:1861-1862 | a value is left unchanged by printing and reading exactly when it has no signed number stored unsigned, no malformed text or key and no hole |
| JsonValue.CanonicalSettles | lib/JsonCpp/jsoncpp.cpp:4422-4482 | what comes back from printing and reading is well-formed and faithful |
| JsonValue.CanonicalIdempotent | lib/JsonCpp/jsoncpp.cpp:4422-4482 | a second round of printing and reading changes nothing |
| JsonLexer.TokenAt | lib/JsonCpp/jsoncpp.cpp:1386-1495 | a token starts where it is looked for, stays in the document, and is empty only at the end of the stream |
| JsonLexer.ReadToken | lib/JsonCpp/jsoncpp.cpp:1386-1495 | the same behind leading spaces |
| JsonLexer.NonComment | lib/JsonCpp/jsoncpp.cpp:1681-1685 | skipping comments ends at a token that is none |
| JsonLexer.Recover | lib/JsonCpp/jsoncpp.cpp:2016-2027 | error recovery terminates inside the document |
| JsonParser.Leaf | lib/JsonCpp/jsoncpp.cpp:1306-1371 | one-token values, and the un-read closing token, leave the cursor between the token's ends |
| JsonParser.ParseValue | lib/JsonCpp/jsoncpp.cpp:1284-1374 | reading a value terminates inside the document and ends either without errors or with at least one |
| JsonParser.ParseMembers | lib/JsonCpp/jsoncpp.cpp:1674-1736 | the same for the loop over members, under every feature flag |
| JsonParser.ParseElements | lib/JsonCpp/jsoncpp.cpp:1738-1778 | the same for the loop over elements, dropped placeholders included |
| JsonParser.ParseDocument | lib/JsonCpp/jsoncpp.cpp:1238-1282 | a document is read without errors or with at least one |
| JsonReader.OurReader.Match | lib/JsonCpp/jsoncpp.cpp:1517-1526 | the backward comparison succeeds exactly when the pattern stands at the cursor, and moves behind it |
| JsonReader.OurReader.ReadNumber | lib/JsonCpp/jsoncpp.cpp:1624-1648 | moves to the end of digits, fraction and exponent, or stops at an infinity |
| JsonReader.OurReader.ReadString | lib/JsonCpp/jsoncpp.cpp:1650-1672 | scans to the closing quote as the scanning function says |
| JsonReader.OurReader.ReadToken | lib/JsonCpp/jsoncpp.cpp:1386-1495 | the tokenizer gives the reference token and leaves the cursor behind it |
| JsonReader.OurReader.ReadNonComment | lib/JsonCpp/jsoncpp.cpp:1681-1685 | the comment loop gives the reference token |
| JsonReader.OurReader.RecoverFromError | lib/JsonCpp/jsoncpp.cpp:2016-2027 | recovery moves to the reference position and leaves the error list as it was |
| JsonReader.OurReader.DecodeNumber | lib/JsonCpp/jsoncpp.cpp:1780-1890 | decodes a number token and records an error exactly when it is rejected |
| JsonReader.OurReader.DecodeString | lib/JsonCpp/jsoncpp.cpp:1892-2005 | decodes a string token, escapes and surrogate pairs included, and records an error exactly when it is rejected |
| JsonReader.OurReader.ReadLeaf | lib/JsonCpp/jsoncpp.cpp:1306-1371 | the one-token cases store the value in the current node, the un-read case moves the cursor back |
| JsonReader.OurReader.ReadValue | lib/JsonCpp/jsoncpp.cpp:1284-1374 | reads what the reference parser reads, restores the node stack on every normal return, and keeps the cursor in the document even when it throws |
| JsonReader.OurReader.ReadObject | lib/JsonCpp/jsoncpp.cpp:1674-1736 | the member loop builds the reference object in the current node |
| JsonReader.OurReader.ReadName | lib/JsonCpp/jsoncpp.cpp:1680-1707 | one round up to the name, with every way the object can end there |
| JsonReader.OurReader.ReadMember | lib/JsonCpp/jsoncpp.cpp:1709-1733 | the rest of the round: colon, value, and what follows |
| JsonReader.OurReader.ReadArray | lib/JsonCpp/jsoncpp.cpp:1738-1778 | the element loop builds the reference array in the current node |
| JsonReader.OurReader.ReadElement | lib/JsonCpp/jsoncpp.cpp:1755-1776 | one element, with every way the array can end behind it |
| JsonReader.OurReader.Parse | lib/JsonCpp/jsoncpp.cpp:1238-1282 | parsing any document with any features gives the reference outcome, value, errors and cursor, with an empty node stack; it succeeds on nothing but texts of the grammar, and, where nothing extra is allowed and no slash occurs, on all of them, with the value the text denotes |
| JsonWriter.FastWriter.Write | lib/JsonCpp/jsoncpp.cpp:4422-4428 | the printer appends exactly the text of the value and resets what it wrote before |
| JsonWriter.FastWriter.WriteValue | lib/JsonCpp/jsoncpp.cpp:4430-4482 | the recursive printing of one value extends the document by its text |
| JsonTokens.FillerSkipped | lib/JsonCpp/jsoncpp.cpp:1497-1505 | exactly space, tab, line feed, carriage return and comments are skipped, where comments are skipped at all |
| JsonTokens.CommentRead | lib/JsonCpp/jsoncpp.cpp:1528-1622 | a comment ends behind the first star and slash, or behind the line break that ends its line |
| JsonTokens.CharsDecode | lib/JsonCpp/jsoncpp.cpp:1903-2005 | every spelling of a string, escapes in either case and surrogate pairs included, decodes to the bytes it denotes; an unknown escape and a high surrogate without its second half fail with the message the source gives |
| JsonTokens.StringRead | lib/JsonCpp/jsoncpp.cpp:1650-1672 | the token of a string, in double or allowed single quotes, ends behind its closing quote and decodes to what it denotes |
| JsonTokens.NumberRead | lib/JsonCpp/jsoncpp.cpp:1624-1648 | the token of a number ends where the number does, and gives the integer it denotes when that is in 64-bit range and written without fraction, exponent and plus sign, else the converted floating-point text |
| JsonAccepts.ElementsParse | lib/JsonCpp/jsoncpp.cpp:1738-1778 | elements between whitespace and comments are read in order up to the first that fails, with left-out elements and trailing commas as the features say |
| JsonAccepts.MembersParse | lib/JsonCpp/jsoncpp.cpp:1674-1736 | members between whitespace and comments are read in order, the last of several with one name staying unless duplicates are rejected, up to the first that fails |
| JsonAccepts.TreeParses | lib/JsonCpp/jsoncpp.cpp:1284-1374 | every text of the grammar, inside any document and at any depth, is read to the value its tree denotes and left exactly behind it, or fails or throws as the tree says |
| JsonAccepts.GrammarAccepted | lib/JsonCpp/jsoncpp.cpp:1238-1282 | with any feature flags every text is parsed to the value its tree denotes, with each flag deciding exactly the extension it names; otherwise the first error or the exception is the one foretold |
| JsonDerives.CharsFound | lib/JsonCpp/jsoncpp.cpp:1903-2005 | whatever is unescaped without error is a sequence of characters and escapes of the grammar |
| JsonDerives.ValueDerives | lib/JsonCpp/jsoncpp.cpp:1284-1374 | whatever is read as a value without error is the text of a tree that denotes it |
| JsonDerives.DocumentDerives | lib/JsonCpp/jsoncpp.cpp:1238-1282 | the same for documents, with what may stand before and behind the root |
| JsonDerives.AcceptedExactly | lib/JsonCpp/jsoncpp.cpp:1238-1282 | a document without a slash, where nothing extra is allowed, is parsed to a value if and only if it is the text of a tree that denotes the value |
| JsonFailures.ValueMissing | lib/JsonCpp/jsoncpp.cpp:1361-1364 | where no value can start, that is the first error, marked there |
| JsonFailures.NameMissing | lib/JsonCpp/jsoncpp.cpp:1699-1736 | a missing name or a comma too many is the first error, marked where the name should stand |
| JsonFailures.ColonMissing | lib/JsonCpp/jsoncpp.cpp:1709-1713 | so is a missing colon |
| JsonFailures.CommaMissingInObject | lib/JsonCpp/jsoncpp.cpp:1722-1727 | so is what stands for the comma or brace behind a member |
| JsonFailures.CommaMissingInArray | lib/JsonCpp/jsoncpp.cpp:1765-1772 | so is what stands for the comma or bracket behind an element |
| JsonFailures.NameRefused | lib/JsonCpp/jsoncpp.cpp:1691-1707 | a malformed or duplicate name is marked from its first to its last quote |
| JsonFailures.EscapeRefused | lib/JsonCpp/jsoncpp.cpp:1903-2005 | an escape that is cut off or lacks digits is refused with its message |
| JsonFailures.RootRefused | lib/JsonCpp/jsoncpp.cpp:1255-1281 | something extra is marked where it stands, a root of the wrong kind as the whole document |
| JsonFailures.RecoveryFinds | lib/JsonCpp/jsoncpp.cpp:2016-2027 | recovery ends right behind the bracket it looks for |
| JsonRoundTrip.WrittenIsText | lib/JsonCpp/jsoncpp.cpp:4430-4482 | the printer writes the compact text of a tree: no whitespace, one spelling of every character, lower-case hex digits, commas and colons as in the grammar |
| JsonRoundTrip.TreeDenotes | lib/JsonCpp/jsoncpp.cpp:1674-1736 | reading the tree of a written value gives the canonical value exactly if it fits and no repaired keys collide where duplicates are rejected; else it throws for the depth or a long key, or the first error is a duplicate key |
| JsonRoundTrip.WrittenParses | lib/JsonCpp/jsoncpp.cpp:1284-1374 | the text of a value, inside any document and at any depth, is parsed to its canonical form and left exactly behind it, throws when the levels do not suffice or a key is too long, or fails for a colliding key |
| JsonRoundTrip.DocumentRoundTrip | lib/JsonCpp/jsoncpp.cpp:1238-1282 | parsing a printed document succeeds exactly if the value fits, no repaired keys collide where duplicates are rejected, and the root is allowed; then it gives the canonical value; otherwise it throws or fails for the reason stated |
| JsonRoundTrip.DocumentRoundTripExact | lib/JsonCpp/jsoncpp.cpp:4422-4482 | printing and parsing is the identity exactly for faithful values that fit and whose root is allowed |
| JsonPersistence.WriteThenParse | lib/JsonCpp/jsoncpp.cpp:4422-4428 | the same round trip for the printer and parser objects, for every nested value whose reals survive as text |
| JsonReprint.ValueBuilt | lib/JsonCpp/jsoncpp.cpp:1284-1374 | every value the parser builds, even beside errors, has strictly sorted short keys, integers in range and unsigned only where needed, no holes, and nesting within the stack limit |
| JsonReprint.DocumentBuilt | lib/JsonCpp/jsoncpp.cpp:1238-1282 | the same for whole documents, under all features |
| JsonReprint.Reprint | lib/JsonCpp/jsoncpp.cpp:4422-4428 | a document whose reals survive as text can be printed and parsed again exactly if no repaired key is too long or collides where duplicates are rejected, and gives the same value exactly if all its texts are well-formed UTF-8 |
| JsonReprint.SecondRound | lib/JsonCpp/jsoncpp.cpp:4422-4428 | after one round of printing and parsing neither outcome nor value changes any more, under every feature set |
| JsonArray.Size | lib/JsonCpp/jsoncpp.cpp:3262-3283 | the size is the highest index plus one |
| JsonArray.ArrayValue.Touch | lib/JsonCpp/jsoncpp.cpp:3327-3341 | access creates a missing entry as null and nothing else |
| JsonArray.ArrayValue.Insert | lib/JsonCpp/jsoncpp.cpp:3543-3555 | the shifting loop is sequence insertion, refused beyond the end, and keeps density |
| JsonArray.ArrayValue.RemoveIndex | lib/JsonCpp/jsoncpp.cpp:3600-3622 | returns the element, and the shifting loop is sequence deletion exactly when the index is removable; keeps density |
| JsonArray.InsertThenRemove | lib/JsonCpp/jsoncpp.cpp:3543-3622 | removing what was inserted restores the sequence and gives the element back |
| JsonArray.RemoveThenInsert | lib/JsonCpp/jsoncpp.cpp:3543-3622 | inserting a removed element again restores the sequence, for every removable index |
| JsonArraySlots.ViewsAgree | lib/JsonCpp/jsoncpp.cpp:3262-3283 | the array map and the slots of an array value determine each other |
| Recordings.RunKeepsLast | gegelatilib/src/archive.cpp:72-148 | over every run of additions and clears, with any draws and any size, the archive holds exactly the last min(n, maxSize) accepted recordings since the last clear |
| Recordings.CombinedAnyOrder | gegelatilib/src/archive.cpp:50-60 | the combined key does not depend on the order of the handlers |
| Recordings.OneHandlerChangesKey | gegelatilib/src/archive.cpp:50-60 | changing the hash of one handler always changes the combined key |
| Recordings.SmallerMargin | gegelatilib/src/archive.cpp:155-197 | uniqueness within a margin implies uniqueness within any smaller one |
| Archives.GetCombinedHash | gegelatilib/src/archive.cpp:50-60 | the loop computes the exclusive or of the hashes |
| Archives.Archive.Store | gegelatilib/src/archive.cpp:81-109 | table, queue and index take the recording and stay in agreement; copies are made only for a new key |
| Archives.EvictedPresent | gegelatilib/src/archive.cpp:112-146 | the lookups of eviction always succeed, and the index queue starts with the evicted recording |
| Archives.Archive.Evict | gegelatilib/src/archive.cpp:112-146 | dropping the oldest recording keeps the three structures in agreement and frees copies exactly when no recording uses their key |
| Archives.Archive.AddRecording | gegelatilib/src/archive.cpp:72-148 | a forced or certain recording, and one whose draw is not above the probability, enters the queue, which keeps its last ones; others change nothing; index, table and ownership stay exact; a table whose entries hash to their keys stays so |
| Archives.Archive.Clear | gegelatilib/src/archive.cpp:216-228 | everything is emptied and every copy freed |
| Archives.Archive.Destroy | gegelatilib/src/archive.cpp:40-48 | every copy still live is freed, each once |
| Archives.WholeLife | gegelatilib/src/archive.cpp:40-228 | over any calls from construction to destruction: the content is the bounded history, index and table agree with it, and no copy is left unfreed or freed twice |
| Archives.Archive.DeleteEntry | gegelatilib/src/archive.cpp:129-133 | the copies of one entry are live and distinct, so each is freed once |
| Archives.EquivalentByQueue | gegelatilib/src/archive.cpp:155-193 | the per-program index decides equivalence as the flat recordings do |
| Archives.Archive.AreProgramResultsUnique | gegelatilib/src/archive.cpp:155-197 | the loops with flag and break give exactly: every program has no recording on the given data, or one whose result lies further than the margin from the given one |
| Archives.CopyKeepsKey | gegelatilib/src/archive.cpp:81-96 | when all other handlers of a set keep their hash, the stored copies have the key of the originals exactly if the remaining one keeps its hash when cloned |
| ArchiveMerge.FirstNeeded | gegelatilib/src/learn/parallelLearningAgent.cpp:168-177 | the backward scan finds the last jobs that fill an archive, and no more |
| ArchiveMerge.Replay | gegelatilib/src/learn/parallelLearningAgent.cpp:193-205 | forcing one job's recordings appends them with the keys of their stored copies |
| ArchiveMerge.MergeArchiveMap | gegelatilib/src/learn/parallelLearningAgent.cpp:165-213 | the merged archive holds the last recordings of its own followed by all jobs', in job order, and the job archives are destroyed |
| ArchiveMerge.ParallelIsSequential | gegelatilib/include/learn/parallelLearningAgent.h:199-203 | one bounded archive per job, concatenated, keeps what one archive would keep that sees all jobs in order |
| ArchiveMerge.MergeIsSequential | gegelatilib/include/learn/parallelLearningAgent.h:160-171 | the merge equals the sequential archive exactly when the copies of every surviving recording hash back to its key |
| ArchiveMerge.FaithfulReplay | gegelatilib/src/learn/parallelLearningAgent.cpp:193-205 | where all tables are faithful the merge changes no recording |
| ArchiveMerge.NullWrapperMerge | gegelatilib/src/learn/parallelLearningAgent.cpp:193-205 | merging the archive of one job that recorded a null wrapper gives another archive than the sequential evaluation |
| Random.AcceptedIsBelow | gegelatilib/include/mutator/deterministicRandom.h:82-86 | a draw is accepted exactly when it is below the largest multiple of the bound in 64 bits |
| Random.Uniform | gegelatilib/include/mutator/deterministicRandom.h:67-88 | for every bound of at least 2 each residue comes from exactly floor(2^64 / bound) accepted draws |
| Random.MoreThanHalf | gegelatilib/include/mutator/deterministicRandom.h:82-86 | strictly more than half of all draws are accepted |
| Random.RngFromUrng.Sample | gegelatilib/include/mutator/deterministicRandom.h:70-80 | one draw fills the mask; a bound of one draws nothing |
| Random.RngFromUrng.Next | gegelatilib/include/mutator/deterministicRandom.h:67-88 | gives the residue of the first accepted draw of the stream and consumes the stream up to it |
| Random.RngFromUrng.GetAllBits | gegelatilib/include/mutator/deterministicRandom.h:90-102 | gives one draw unchanged |
| Random.AdjustIsOrder | gegelatilib/include/mutator/deterministicRandom.h:274-294 | adjusting twice is the identity and adjusted values keep signed distances |
| Random.EvalUnsigned64 | gegelatilib/include/mutator/deterministicRandom.h:253-272 | a value of the range, offset from the minimum by the residue of the first accepted draw, full range included |
| Random.EvalInt32 | gegelatilib/include/mutator/deterministicRandom.h:253-294 | the same for signed 32-bit ranges through the adjustment |
| Random.EachValueEquallyOften | gegelatilib/include/mutator/deterministicRandom.h:253-272 | every value of a range is produced by equally many accepted draws |
| ArrayWrappers.AddressSpaceIsFit | gegelatilib/include/data/arrayWrapper.h:274-304 | an address is valid exactly when the window from it on fits in the array |
| ArrayWrappers.AccessedReads | gegelatilib/include/data/arrayWrapper.h:306-329 | an element type reads the cell of its address, an array type as many cells from there on as it has, if they fit, and nothing else is read |
| ArrayWrappers.ArrayWrapper.GetAddressSpace | gegelatilib/include/data/arrayWrapper.h:274-304 | the memo table never changes the answer |
| ArrayWrappers.ArrayWrapper.GetAddressesAccessed | gegelatilib/include/data/arrayWrapper.h:306-329 | consecutive addresses inside the array, none for an invalid address |
| ArrayWrappers.ArrayWrapper.GetDataAt | gegelatilib/include/data/arrayWrapper.h:331-364 | copies exactly the accessed cells in order, or gives the error of the failed check |
| ArrayWrappers.ArrayWrapper.SetPointer | gegelatilib/include/data/arrayWrapper.h:383-405 | a vector of another size is refused and nothing changes; any other pointer is taken and marks the cached hash invalid |
| Windows.AddressesAreCorners | gegelatilib/include/data/array2DWrapper.h:216-282 | valid addresses and the corners at which a window fits correspond one to one |
| Windows.CellsAreWindow | gegelatilib/include/data/array2DWrapper.h:185-203 | the listed cells are exactly those of the window, strictly increasing, each window row in one grid row |
| Windows.CellAt | gegelatilib/include/data/array2DWrapper.h:190-202 | the cell of row k and column c stands at position k * width + c |
| Windows.AccessedIsWindow | gegelatilib/include/data/array2DWrapper.h:173-207 | what an address reads is in bounds and is the window at its corner |
| Windows.AccessedReads | gegelatilib/include/data/array2DWrapper.h:173-207 | an element type reads the cell of its address, which is valid exactly inside the grid; a window type reads, row by row, the cells from the quotient and remainder of the address on |
| Windows.Array2DWrapper.GetAddressSpace | gegelatilib/include/data/array2DWrapper.h:209-282 | the memo table changes neither the answer nor the dimensions |
| Windows.Array2DWrapper.GetAddressesAccessed | gegelatilib/include/data/array2DWrapper.h:173-207 | the nested loops list exactly those cells |
| Windows.Array2DWrapper.GetDataAt | gegelatilib/include/data/array2DWrapper.h:284-329 | copies exactly those cells in order, or gives the error of the failed check |
| HandlerHash.AppendBytes | gegelatilib/include/data/hash.h:62-73 | the loop applies the FNV-1a step to every byte in order |
| HandlerHash.AppendIsFnv | gegelatilib/include/data/hash.h:62-73 | from byte to byte the hash is combined with the byte by exclusive or and then multiplied by the prime |
| HandlerHash.FoldIsHash | gegelatilib/include/data/arrayWrapper.h:407-431 | from element to element the hash is rotated right by one bit and then combined with the hash of the element |
| Words.XorAt | gegelatilib/src/archive.cpp:50-60 | every bit of an exclusive or is the sum of the two bits without the carry |
| HandlerHash.TimesPrimeUndone | gegelatilib/include/data/hash.h:67-70 | multiplication by the prime modulo 2^64 is undone by its inverse |
| HandlerHash.MixInjective | gegelatilib/include/data/hash.h:67-70 | an FNV-1a step is injective in the state and in the byte |
| HandlerHash.OneByte | gegelatilib/include/data/hash.h:62-91 | changing one byte of an element always changes its hash |
| HandlerHash.OneElement | gegelatilib/include/data/arrayWrapper.h:414-425 | the rotating fold changes exactly when the hash of the replaced element does |
| HandlerHash.OneByteChangesHandler | gegelatilib/include/data/arrayWrapper.h:407-431 | changing one byte of one element always changes the handler's hash |
| HandlerHash.OneByteChangesKey | gegelatilib/src/archive.cpp:50-60 | and therefore the key under which the archive stores the set |
| HandlerHash.CloneKeepsHash | gegelatilib/include/data/primitiveTypeArray.h:145-165 | a clone has the hash of its original exactly if the original has data, or the hash of its id is the one value from which zero-filled data folds to zero |
| HandlerHash.FirstNullWrapperChanges | gegelatilib/include/data/arrayWrapper.h:407-412 | the first handler made, around a null pointer to one double, hashes differently once cloned |
| HandlerHash.HashedArray.UpdateHash | gegelatilib/include/data/arrayWrapper.h:407-431 | goes through these steps over the current data and validates the cache; around a null pointer gives zero and validates nothing |
| HandlerHash.HashedArray.GetHash | gegelatilib/src/data/dataHandler.cpp:52-59 | the answer is right whenever the cache is coherent, and stale otherwise |
| HandlerHash.HashedArray.SetDataAt | gegelatilib/include/data/primitiveTypeArray.h:199-212 | refuses a type it does not provide or an address out of range, else replaces one element, and keeps the cache coherent |
| HandlerHash.HashedArray.Assign | gegelatilib/include/data/primitiveTypeArray.h:213-233 | copies the data; the cache stays coherent exactly if it was invalid or the hash is the same |
| Programs.Run | gegelatilib/src/program/programEngine.cpp:161-186 | a run throws exactly when exceptions count and some line is not executable |
| Programs.Execute | gegelatilib/src/program/programExecutionEngine.cpp:41-55 | executing a line writes the instruction's value to its destination register and changes no other |
| Programs.OperandIs | gegelatilib/src/program/programEngine.cpp:124-160 | an operand is the window of registers or constants at its location modulo the number of positions, or what its data source holds at its location modulo the address space |
| Programs.ExecuteSteps | gegelatilib/src/program/programExecutionEngine.cpp:41-55 | a line runs exactly if instruction, destination and sources exist, and then puts the instruction's value on these operands into the destination |
| Programs.RunIsTrace | gegelatilib/src/program/programEngine.cpp:161-186 | a run goes from state to state, line by line, and throws exactly if exceptions count and some line cannot run |
| Programs.SameValue | gegelatilib/src/program/programEngine.cpp:124-160 | a line computes the same on registers that agree on the addresses it accesses |
| Programs.ReadsExact | gegelatilib/src/program/program.cpp:164-187 | the operand loop collects exactly the addresses that some register operand accesses |
| Programs.AllReadsAre | gegelatilib/src/program/program.cpp:164-187 | a line reads a register exactly if the window of one of its register operands, within the arity of the instruction, holds it |
| Programs.UsefulIsLive | gegelatilib/src/program/program.cpp:138-201 | the set the scan keeps is liveness: a register is in it exactly when a needed line reads it before any line writes it, or it is register 0 and stays unwritten |
| Programs.RunNeeded | gegelatilib/src/program/programEngine.cpp:161-186 | going through the needed lines only gives the same register 0, from any registers that agree on what matters |
| Programs.ExecutableCovers | gegelatilib/src/program/program.cpp:138-201 | when every needed line is executable, scanning the executable lines alone keeps the same registers and no further line |
| Programs.IntronsPreserveResult | gegelatilib/include/program/program.h:58-69 | for every program and all data the marked program gives the same result or exception: exactly under the stated condition when exceptions count; when they are ignored, whenever no executable line that matters among the executable ones was marked |
| Programs.IgnoredFailureDiffers | gegelatilib/src/program/programEngine.cpp:172-181 | a program, in an environment that can be constructed, whose marked and full results differ when exceptions are ignored |
| Programs.SecondScan | gegelatilib/src/program/program.cpp:138-201 | without its introns a program has the same dependencies and no introns |
| Introns.Program.IdentifyIntrons | gegelatilib/src/program/program.cpp:138-201 | flags exactly the lines whose destination is neither the result nor read by a later unflagged line before it is overwritten, and counts them; throws exactly on a needed line with an unknown instruction |
| Introns.MarkedIsDependency | gegelatilib/src/program/program.cpp:138-201 | the flags follow, from the last line to the first, from what the lines behind read and write |
| Introns.MarkedKeepsNeeded | gegelatilib/include/program/programEngine.h:205-215 | with exact flags the lines the engine goes through are the needed ones |
| Introns.Program.RemoveLine | gegelatilib/src/program/program.cpp:94-98 | removes one line, refused out of range |
| Introns.Program.ClearIntrons | gegelatilib/src/program/program.cpp:75-92 | removes exactly the flagged lines, in place, keeping the order |
| Introns.ProgramExecutionEngine.Next | gegelatilib/src/program/programEngine.cpp:96-105 | advances to the following line that is no intron |
| Introns.ProgramExecutionEngine.ExecuteCurrentLine | gegelatilib/src/program/programExecutionEngine.cpp:41-55 | fetches the operands from registers, constants and data sources and writes the destination, or throws and changes nothing |
| Introns.ProgramExecutionEngine.IterateThroughProgram | gegelatilib/src/program/programEngine.cpp:161-186 | executes the kept lines in order with the given treatment of exceptions |
| Introns.ProgramExecutionEngine.ExecuteProgram | gegelatilib/src/program/programExecutionEngine.cpp:57-69 | register 0 after the kept lines from zeroed registers, each line applied to the data its operands name |
| Introns.MarkThenClear | gegelatilib/include/program/program.h:154-164 | for every program that can be scanned, with exceptions let out or ignored: clearing the marked lines keeps the result, a second scan finds nothing, and the result is that of all lines under the stated conditions |
| IdenticalBehavior.HasIdenticalBehavior | gegelatilib/src/program/program.cpp:221-297 | the two-cursor comparison of the kept lines gives that answer |
| IdenticalBehavior.Compare | gegelatilib/src/program/program.cpp:221-297 | a positive answer means equal kept lines |
| IdenticalBehavior.CompareExact | gegelatilib/src/program/program.cpp:221-297 | with known instructions the answer is positive exactly for equal kept lines with equal constants at every constant operand |
| IdenticalBehavior.CompareCases | gegelatilib/src/program/program.cpp:221-297 | positive exactly for equally many kept lines that are all alike, constants named by operands of index 1 included; an exception exactly at an unknown instruction behind alike lines |
| IdenticalBehavior.SameOperand | gegelatilib/src/program/programEngine.cpp:124-160 | an operand reads the same in both programs exactly if it reads no constants or its windows of the constants are equal |
| IdenticalBehavior.SingleConstantsMatch | gegelatilib/src/program/program.cpp:252-280 | where operands read one constant each, the comparison covers all the constants that are read |
| IdenticalBehavior.IdenticalMeansSame | gegelatilib/include/program/program.h:240-281 | programs found identical give the same outcome on all data when every constant operand reads equal constants in both |
| IdenticalBehavior.ArrayConstantsEscape | gegelatilib/src/program/program.cpp:252-280 | two programs, in an environment that can be constructed, found identical whose results differ |
| Decimation.SortByClass | gegelatilib/include/learn/classificationLearningAgent.h:281-294 | the multimap holds the same entries in ascending order of one class's score, equal ones in the order of the results |
| Decimation.KeepBest | gegelatilib/include/learn/classificationLearningAgent.h:296-310 | the last k roots of the sorted map get marked, none twice, and the iterator stays in range |
| Decimation.LastAreTop | gegelatilib/include/learn/classificationLearningAgent.h:296-310 | the last k of the sorted map are the k roots that no other root outscores, ties broken by the order of the results |
| Decimation.KeepPerClass | gegelatilib/include/learn/classificationLearningAgent.h:278-311 | the best k roots of every class are marked |
| Decimation.GeneralHalf | gegelatilib/include/learn/classificationLearningAgent.h:265-273 | the class phase takes at most half of what is kept |
| Decimation.KeepGeneral | gegelatilib/include/learn/classificationLearningAgent.h:313-324 | marks up to the exact number, and every root left unmarked stands before every root marked here |
| Decimation.EraseOne | gegelatilib/include/learn/classificationLearningAgent.h:345-355 | erasing the entry of a root removes exactly that root from the results |
| Decimation.NbRootsToKeep | gegelatilib/include/learn/classificationLearningAgent.h:259-263 | the number deleted is the whole part of the deleted share |
| Decimation.ClassificationLearningAgent.RemoveOthers | gegelatilib/include/learn/classificationLearningAgent.h:326-357 | graph, stored results and results lose exactly the roots that are neither marked nor actions |
| Decimation.ClassificationLearningAgent.DecimateWorstRoots | gegelatilib/include/learn/classificationLearningAgent.h:245-358 | exact number of distinct marked roots, the best of every class among them, at least half by general score and none of the others better, and exactly the others removed |
| FScore.RowsAreColumns | gegelatilib/include/learn/classificationLearningAgent.h:194-211 | a table summed by rows and by columns has the same total |
| FScore.ErrorsBalance | gegelatilib/include/learn/classificationLearningAgent.h:194-211 | over all classes false negatives and false positives are equally many, and the evaluations add up to the table |
| FScore.HarmonicMean | gegelatilib/include/learn/classificationLearningAgent.h:213-220 | the harmonic mean of precision and recall is 2tp / (2tp + fp + fn) |
| FScore.ScoreIs | gegelatilib/include/learn/classificationLearningAgent.h:194-220 | the score is the harmonic mean of precision and recall as quotients of a row and a column of the table, zero without true positives |
| FScore.TotalScoreJoin | gegelatilib/include/learn/classificationLearningAgent.h:222-231 | scores and counts of further iterations are added, each table with its own score |
| FScore.F1Bounds | gegelatilib/include/learn/classificationLearningAgent.h:217-220 | scores lie in [0, 1] and are 1 exactly without errors |
| FScore.ScoreClass | gegelatilib/include/learn/classificationLearningAgent.h:195-224 | the harmonic mean of precision and recall and the evaluation count of one class, without underflow |
| FScore.EvaluationsConserved | gegelatilib/include/learn/classificationLearningAgent.h:223-223 | the per-class counts add up to all classifications made |
| FScore.ScoreAll | gegelatilib/include/learn/classificationLearningAgent.h:161-232 | averaged scores in [0, 1] and conserved counts over all iterations, the harmonic mean itself for one |

## Left out

- Floating-point text: conversion between text and double is a parameter of the reader and the writer; the round trip asks of each real that its printed text is a number that converts back to it.
- JsonRoundTrip.DocumentRoundTrip: does not cover a printer told to drop null placeholders, which is off by default and leaves the JSON grammar, though printer and parser are modelled with that option. When a value neither fits nor is free of collisions, either may be met first.
- JsonAccepts.GrammarAccepted: asks that members are separated by commas. Behind a member that a comment follows, the reader takes any token for the separator; such texts are trees too, and JsonDerives.DocumentDerives covers them, in one direction.
- JsonDerives.AcceptedExactly: the equivalence is for documents without a slash, since comments raise the case above; a slash inside a string is excluded with them.
- JsonReader.OurReader.ReadValue: nodes are values that are written back into their parent when they are popped, where the original writes through pointers; aliasing of nodes is not modelled.
- JsonReader.OurReader.Parse: collected comments, source offsets of values and the text of error messages are left out; messages are an enumeration.
- JSON: 32-bit lengths of texts and 32-bit array indices do not wrap; the styled writers, the older Reader apart from its number decoder, and Path are not modelled.
- IEEE arithmetic: infinities and NaN exist as JSON values only; scores, ratios, margins and register contents are reals, and the undefined 0/0 of an absent class is not computed.
- Archives.Archive.AddRecording: the draw of the random engine is a parameter, and handlers are snapshots with the hash they have at the call.
- Random.RngFromUrng.Next: asks for an accepted draw somewhere ahead in the stream, without which the original does not return either; the engine is any stream of 64-bit values, the Mersenne Twister and uniform_real are left out.
- ArrayWrappers.ArrayWrapper.GetDataAt: the argument checks of a debug build are modelled, not the unchecked accesses of a release build; and likewise for the two-dimensional wrapper, which is not asked for data at a valid address of a null pointer; the original checks no null pointer there.
- Data types are a small datatype in place of demangled C++ names matched by a regular expression.
- HandlerHash.OneByteChangesHandler: elements are the bytes that represent them; the mapping of negative zero to zero for floating-point elements is not part of it.
- Programs.IntronsPreserveResult: with ignored exceptions one direction only, since whether an earlier write behind a failing line shows depends on the values computed.
- IdenticalBehavior.IdenticalMeansSame: one direction only, since whether a constant that differs matters depends on the instruction.
- Introns.Program.IdentifyIntrons: asks that register operands of needed lines have a type the registers provide; otherwise the original divides by zero.
- IdenticalBehavior.HasIdenticalBehavior: asks that kept lines have as many operands as their instruction reads, as every line of an environment has.
- Instructions are total functions of their operands; one that throws by itself is not modelled.
- Decimation.ClassificationLearningAgent.DecimateWorstRoots: the graph is the list of its roots and the set of its vertices; roots that appear because their parent was removed are not followed, as in the original.
- FScore.ScoreAll: the confusion tables of the iterations are parameters; executing the policies that fill them is not modelled.
- Threads and locks of the parallel agent, the execution of graphs, mutators, environments, loggers, file access, dot files and code generation.
- Line editing, getters and operator+= of evaluation results: easy members.
