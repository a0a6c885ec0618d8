# libtextgen core in Dafny

libtextgen builds a Markov-chain text generator. A *model* interns every
word it is trained on into one buffer of NUL-terminated strings. It interns
every run of `pref_size` consecutive word ids (a *prefix*, here called a
*window*) into a second buffer. Both buffers are indexed by ordered sets of
offsets. For each prefix the model keeps a table row: the words seen after
that prefix, each with a frequency and the id of the prefix that the word
completes. Training fills the table. `save` writes it out with a
checksummed header. `load` reads it back, turning each row's frequencies
into cumulative upper bounds, so that generation can pick the next word
with one `lower_bound` on a random draw. A small command-line parser
(`program::arguments`) reads the options of the tool.

The project has four modules:

- `Lex` (lex.dfy) covers the two comparators, `strcmp` on C strings and
  `lgcmp` on windows of word ids. It also covers the ordered index that
  `std::set` keeps, with `lower_bound` as a binary search, `find`, and
  insertion through `std::inserter`.
- `Generator` (generator.dfy) holds the model as a class whose fields are
  the two buffers, the two indexes, the window width and the table. It
  models word and window interning, `train`, `generate` and its three
  exceptions, `first_prefix`, both `state` overloads, and the closures
  returned by `train(m)` and `generate(m, list)`.
- `Codec` (codec.dfy) covers the `header` and its `hash`, the stream layout
  that `save` writes, and `load` with its checksum test and its two range
  checks on loaded offsets. A `Check` parameter selects those range checks
  either as written (`AsWritten`, in `size_t` arithmetic, which wraps at
  2^64: this is the source's `load`) or as evidently intended (`Intended`);
  see "Findings". It proves that loading what was saved gives back the
  model, with each row in its cumulative form, under either check, and that
  a model so loaded generates from every row it holds.
- `Program` (program.dfy) holds `program::arguments` as a class with
  `add`, `get`, `help` and `parse`. `parse` is a loop that is proved
  against a recursive specification. The specification is itself related,
  in both directions, to the command lines that can be written from a list
  of options. `std::string`'s order is the lexicographic order of `Lex` on
  the character codes.

The model captures the two ordered sets, which the source keys through
references into the buffers, in this way:

- Each index is a strictly ascending `seq<nat>` of offsets.
- The index is ordered by a `Keying`, which reads each offset's key from
  the current buffer.
- Appending to a buffer never changes an existing key (`CStrStable`,
  `GrowKeepsWindows`). This is why the indexes stay ordered while their
  buffers grow.

## Model

| member | source | states |
|---|---|---|
| Lex.StrcmpOrdersStrings | generator.h:45-47 | comparing two NUL-terminated byte strings byte by byte, as `std::strcmp(..) < 0`, is exactly the lexicographic order of the strings before their NUL |
| Lex.LexEquivalentIsEqual | generator.h:62-71 | the lexicographic comparator is a strict weak order in which equivalent keys are equal, so a set ordered by it holds each key once |
| Lex.CStrOf | generator.h:136 | `c_str()` of a std::string yields a NUL-free prefix of it, and the whole string when it has no NUL |
| Lex.FirstNotLessSplits | generator.cpp:47 | in an ascending index, every offset before the lower-bound position has a smaller key and none after it has |
| Lex.LowerBound | generator.cpp:47 | `lower_bound` is a binary search that returns the first position whose key is not less than the target |
| Lex.MatchAtLowerBound | generator.cpp:48 | the key at the lower bound equals the target exactly when some offset in the index has that key |
| Lex.Lookup | generator.cpp:57-61 | `find` returns an offset whose key equals the target when one exists, and `~0` when none does |
| Lex.LookupUnique | generator.cpp:57-61 | in an ascending index, `find` of an indexed offset's key returns that very offset |
| Lex.Find | generator.cpp:57-61 | the search method returns `Lookup`'s result |
| Lex.InsertCases | generator.cpp:163-179 | inserting through `std::inserter` keeps the index ascending, adds no offset but the inserted one, leaves the index unchanged when the key is present, and otherwise adds exactly the new offset |
| Lex.InsertAdds | generator.cpp:163-179 | whatever the order of the index, inserting adds no offset but the inserted one |
| Lex.InsertAbove | generator.cpp:163-179 | inserting an offset whose key is above every key in the index appends it at the end |
| Lex.InOrder | generator.cpp:126 | the keys of a `std::map` row are enumerated once each, in increasing order |
| Lex.LeastAtLeast | generator.cpp:142 | `std::map::lower_bound(r)` picks the least key that is at least `r` |
| Generator.Bump | generator.cpp:99-101 | `table[p][w]` creates a missing row or entry, increments its count by one and sets its successor; every other row and entry is unchanged |
| Generator.AppendWindow | generator.cpp:68-76 | when the window's first n-1 ids equal the buffer's last n-1 ids, only its last id is appended and it starts n-1 before the old end; otherwise it is appended whole at the end; either way the old buffer is kept and the window can be read at its position |
| Generator.WordStored | generator.cpp:50-52 | appending a new word and inserting its offset at the lower bound keeps the model well formed, stores the word and changes no earlier word |
| Generator.WindowStored | generator.cpp:69-77 | storing a new window at its lower bound keeps the model well formed, stores the window and changes no earlier window |
| Generator.BumpKeepsWellFormed | generator.cpp:99-101 | counting one more occurrence keeps every count at least one and the model well formed |
| Generator.BumpKeepsConsistent | generator.cpp:99-101 | counting a word under an interned prefix with an interned successor keeps the table consistent: no row is empty, and every prefix, word and successor in it is interned |
| Generator.ConsistentGrows | generator.cpp:88-98 | interning more words and windows, with the table untouched, keeps a consistent table consistent |
| Generator.VocabularyGrows | generator.cpp:45-55 | indexing one more offset that names a word, while every old offset reads as before, adds exactly that word to the words held |
| Generator.InternedBlank | generator.h:150-152 | interning the n empty tokens of `first_prefix(n)` appends one lone NUL, unless n is 0 or the empty word is held already |
| Generator.Model.constructor | generator.h:22-24 | a new model is empty, well formed, has a consistent (empty) table and a window buffer made of interned words, and keeps the window width |
| Generator.Model.PrefSize | generator.h:26 | the width is the number of ids each indexed window spans, and every such window lies inside the window buffer |
| Generator.Model.InsertWord | generator.cpp:45-55 | returns the offset `find` gives for the word afterwards; a known word changes nothing; a new one is appended with its NUL at the old end, which becomes its offset and joins the index; every old word reads as before and the words held gain exactly this one; the model stays well formed |
| Generator.Model.FindWord | generator.cpp:57-61 | the offset of a stored word, or `~0` when it is not stored |
| Generator.Model.InsertPrefix | generator.cpp:63-80 | returns the offset `find` gives for the window afterwards; a known window changes nothing; a new one is stored by the overlap rule and its offset joins the index; every old window reads as before; the model stays well formed |
| Generator.Model.FindPrefix | generator.cpp:82-86 | the offset of a stored window, or `~0` when it is not stored |
| Generator.Model.Train | generator.cpp:88-102 | interns the word and then the shifted window as `InsertWord` and `InsertPrefix` do (the words held gain exactly the word), shifts the word into the state's window (which stays empty when the width is 0), and counts the word once under the state's old last id with the new window as its successor; the model stays well formed, and a consistent table stays consistent when the old last id is interned |
| Generator.Model.Generate | generator.cpp:133-149 | no row for the state's last id halts; an empty row throws "invalid prefix"; no key at or above the draw throws "invalid frequency"; an entry whose word offset is outside the buffer throws "invalid word"; otherwise the chosen entry's word is returned and its successor becomes the state's last id; failures leave the state unchanged; a draw no larger than the row's largest key never meets "invalid frequency" |
| Generator.FirstPrefix | generator.h:127-130 | `pref_size` empty strings |
| Generator.InternWords | generator.h:134-136 | each token is interned through `c_str()`; the ids come back in order and each names that token's word; the word buffer becomes `Interned` (each token not held before, and not named by an earlier token, appended with its NUL); the words held gain exactly the tokens' words; the index gains only the returned ids; windows and table are untouched |
| Generator.TrainingState | generator.h:132-139 | the training state is the token ids followed by the id of their window; the words are interned as `InternWords` says and the window as `InsertPrefix` says; the table is untouched and stays consistent, and the window buffer stays made of interned words |
| Generator.GeneratingState | generator.h:141-148 | the generating state is each token's `find` result followed by the window's `find` result, and the model is not changed |
| Generator.UnknownSeedHalts | generator.cpp:136-138 | a seed whose window the model does not hold halts generation at the first step, with no word and the state unchanged, in a well-formed model with a consistent table and a width of at least one |
| Generator.UnknownWordHalts | generator.cpp:136-138 | in such a model whose windows are made of interned words, a seed with a word the model has never seen halts generation at the first step in the same way |
| Generator.WindowOfUnknownWord | generator.h:141-148 | a window holding the `~0` id of an unknown word is never an interned window when every window is made of interned words |
| Generator.TrainedOfWords | generator.cpp:88-102 | a training step keeps every id of the window buffer an interned word, when the ids it shifts out of the old state are interned words |
| Generator.WindowsOfWordsGrow | generator.cpp:63-80 | interning a window of interned words keeps every id of the window buffer an interned word |
| Generator.AppendWindowFrom | generator.cpp:63-80 | the window buffer after storing a window holds only its old ids and the window's |
| Generator.Trainer.constructor | generator.h:150-152 | the training closure seeds its state from `first_prefix(pref_size)`: the word buffer gains one lone NUL unless the width is 0 or the empty word is held, the words held gain the empty word when the width is not 0, and the window of empty-word ids is interned |
| Generator.Trainer.Call | generator.h:152-155 | one call trains the model on the word as `Train` does, with the same word and window changes, keeps the table consistent and the window buffer made of interned words, and threads the new state (interned word ids and an interned window) to the next call |
| Generator.Generation.constructor | generator.h:158-161 | the generating closure seeds its state from the given tokens, or from `first_prefix` when none are given |
| Generator.Generation.Call | generator.h:161-164 | one call performs one generation step on the threaded state with the draw |
| Codec.AsWordAsSize | generator.cpp:111 | the checksum stored as a size_t reads back as the same 64 bits |
| Codec.HeaderHashXorsFields | generator.cpp:35-41 | the header checksum is the exclusive or of `std::hash` of the six size fields |
| Codec.XorFoldKeepsDifference | generator.cpp:39-40 | folding the same values into two accumulators keeps them equal exactly when they started equal |
| Codec.FoldDetectsChange | generator.cpp:39-40 | changing one folded value changes the fold exactly when the hashes of the old and new value differ |
| Codec.ChecksumDetectsChange | generator.cpp:35-41 | a header that differs from another in one size field has the same checksum exactly when `std::hash` maps the two values of that field to the same word |
| Codec.ChangedHeaderRejected | generator.cpp:156-159 | what `save` wrote, with one size field of the header changed and the checksum kept, is refused as "invalid checksum" whenever the hash tells the old and the new value apart |
| Codec.HeaderOf | generator.cpp:109-111 | the header `save` writes records the six sizes of the model, and its checksum is the hash of those sizes |
| Codec.ReadBlock | generator.cpp:156-186 | a read of n words either fails as a read failure, or yields n words that fit in 64 bits and leaves the stream after them |
| Codec.ReadChars | generator.cpp:162 | a read of n characters either fails as a read failure, or yields n characters and leaves the stream after them |
| Codec.ReadIndex | generator.cpp:163-179 | reading an index fails only by a read failure or by the given out-of-range failure |
| Codec.ReadIndexChecked | generator.cpp:163-179 | every offset that reading adds to an index is a size_t that passed the selected range check |
| Codec.ReadIndexAscending | generator.cpp:163-179 | reading into an ascending index leaves it ascending, as `std::set` keeps it |
| Codec.ReadEntriesKeeps | generator.cpp:184-188 | reading a row's entries fails only as a read failure; otherwise it consumes exactly three words per entry and keeps every key read before with its entry |
| Codec.ReadRowShape | generator.cpp:180-189 | reading a row fails only as a read failure; otherwise its prefix id is the first word, and it consumes the two header words and three words per entry |
| Codec.ReadRowsKeeps | generator.cpp:180-190 | reading rows fails only as a read failure; otherwise it leaves a tail of the stream and keeps every row read before |
| Codec.Decode | generator.cpp:151-191 | a successful load gives ordered indexes; with the intended check every word offset lies inside the word buffer and every window inside the window buffer; with the check as written an offset may also be one whose end wraps past 2^64 |
| Codec.DecodeWords | generator.cpp:161-169 | the same holds for a load that continues after the header |
| Codec.DecodePrefixes | generator.cpp:170-190 | a load that continues after the word index keeps the words it read, gives an ascending window index, and bounds its windows in the same way |
| Codec.CumulateKeepsEntries | generator.cpp:184-188 | a row in cumulative form is empty exactly when the training row is, and each entry holds a word of the training row with that word's successor |
| Codec.Cumulated | generator.cpp:180-190 | every row of a loaded table is in cumulative form: the same prefix ids, each row empty exactly when the trained one is, each entry naming a trained word and its successor |
| Codec.CumulateSelects | generator.cpp:184-188 | after the running sums replace the counts, a draw in the j-th entry's range (above the sum before it, at most the sum through it) selects exactly that entry's word and successor |
| Codec.ThresholdsIncrease | generator.cpp:184-188 | the cumulative upper bounds strictly increase, and each lies between the sums around it |
| Codec.CumulateCovers | generator.cpp:184-188 | any draw no larger than the row's total meets some upper bound, so it never reaches the "invalid frequency" exit |
| Codec.ReadBlockCells | generator.cpp:170-171 | reading back n written words returns them and leaves the rest of the stream |
| Codec.ReadHeaderCells | generator.cpp:156-157 | reading back a written header returns it |
| Codec.ReadIndexCells | generator.cpp:163-169 | reading back an ascending index whose offsets lie in range returns the same index, under either check |
| Codec.ReadEntriesCells | generator.cpp:184-188 | reading back a row's entries gives the row in cumulative form, merged under what was read before |
| Codec.ReadRowCells | generator.cpp:180-189 | reading back one saved row gives its prefix id and its cumulative form |
| Codec.DecodeTable | generator.cpp:180-190 | reading back every saved row, in any enumeration order of the table, gives the whole table in cumulative form |
| Codec.DecodeEncode | generator.cpp:151-191 | loading what `save` wrote from a well-formed model, in any order of its table and under either check, gives back the model with every row in cumulative form |
| Codec.SelectedEntryHeld | generator.cpp:136-148 | in a loaded row of a consistent table, the row is not empty and the entry a draw selects names a held word inside the buffer and an interned window |
| Codec.LoadedRowsEmit | generator.cpp:133-149 | generating from a model trained, saved and loaded back, at a state whose last id has a row, never throws "invalid prefix", and a draw no larger than the row's largest key emits a held word and moves the state to an interned window |
| Codec.WrappedOffsetAccepted | generator.cpp:166 | the range check as written accepts the word offset 2^64-1 even into an empty buffer, which the intended check refuses |
| Codec.WrappedOffsetLoads | generator.cpp:156-169 | a stream with an empty word buffer and the single word offset 2^64-1 (with a checksum that matches) loads with the check as written, indexing a word that does not exist, and fails as out of range with the intended check |
| Codec.ChecksAgreeWithoutWrap | generator.cpp:163-179 | when `v + extent` does not wrap, the check as written refuses exactly the offsets the intended check refuses |
| Codec.SaveOffsets | generator.cpp:115-122 | writes each offset as one word, in index order |
| Codec.SaveRow | generator.cpp:124-129 | writes the prefix id and entry count, then each entry as word, count and successor in key order |
| Codec.SaveRows | generator.cpp:123-130 | writes the rows in the table's enumeration order |
| Codec.Save | generator.cpp:104-131 | writes the stream that `Encode` describes for the model's current state |
| Codec.LoadOffsets | generator.cpp:163-179 | the loop reading an index computes what `ReadIndex` specifies, with the selected check |
| Codec.LoadEntries | generator.cpp:184-188 | the loop reading a row's entries computes what `ReadEntries` specifies, with running sums as keys |
| Codec.LoadRows | generator.cpp:180-190 | the loop reading the rows computes what `ReadRows` specifies |
| Codec.Load | generator.cpp:151-191 | a failed decode reports its failure; a successful one sets the model's fields to the decoded snapshot, whose indexes are ordered; a header that cannot be read or fails its checksum leaves the model untouched, and once the word characters are read the word buffer holds them whatever fails later; `Load(.., AsWritten)` is the source's `load` |
| Codec.LoadWords | generator.cpp:161-169 | the word stage of `Load` agrees with `DecodeWords`; once the characters are read the word buffer holds them, and a bad word offset leaves the windows and the table as they were |
| Codec.LoadPrefixes | generator.cpp:170-190 | the window and table stage of `Load` agrees with `DecodePrefixes`; it leaves the words alone, once the window block is read the model holds it with the header's width, and a bad window offset leaves the table as it was |
| Program.StrTotal | program.h:38 | `std::string`'s `operator<` orders any two distinct strings |
| Program.CodesInjective | program.h:38 | strings with the same character codes are the same string, so comparing codes is comparing strings |
| Program.InOrder | program.h:38 | a `std::map` enumerates exactly its keys |
| Program.InOrderAscending | program.h:38 | it enumerates them in strictly increasing `operator<` order |
| Program.LineShowsDefault | program.cpp:26-30 | an option line carries " (dflt by default)" exactly when the default is not empty |
| Program.HelpListsEach | program.cpp:20-33 | the help text contains the line of every registered option |
| Program.ParseFromShape | program.cpp:42-67 | the parse loop fails only at an option-like word that is unregistered, or that takes a value and is last; on success every value is an old one or belongs to a registered option-like name (a flag's value being its const), and the positionals are a tail of the words that does not start with an option-like word |
| Program.ParseArgsShape | program.cpp:35-71 | the same for the whole argument vector: failures point after the program name, values belong only to registered option-like names, and the positionals are a tail of argv that never includes the program name |
| Program.ParseRendered | program.cpp:42-66 | a command line written as legal options followed by positionals (which do not start with an option-like word) parses to those option values and those positionals |
| Program.ParsedIsRendered | program.cpp:42-66 | conversely, every successful parse read a command line of that form, with the values the options were given |
| Program.UnregisteredRejected | program.cpp:45-49 | an option-like word that is not registered makes the parse fail |
| Program.MissingValueRejected | program.cpp:51-54 | a valued option at the end of the command line makes the parse fail |
| Program.DecimalString | program.h:29-34 | `std::to_string` of an integer starts with '-' exactly when the integer is negative, is otherwise all decimal digits, and has no leading zero except in "0" |
| Program.DecimalRoundTrip | program.h:29-34 | `std::to_string` of an integer reads back as the same integer |
| Program.DashWord | program.h:17 | the default pattern `-\w` matches exactly a dash followed by one word character |
| Program.Arguments.constructor | program.h:17 | a new parser keeps its pattern and has no options, program name or values |
| Program.Arguments.Positionals | program.h:20 | the positional arguments never start with an option-like word |
| Program.Arguments.Add | program.h:26-28 | registers or replaces the option's help, default and constant, changes nothing else, and keeps every parsed value's name registered |
| Program.Arguments.AddNumbers | program.h:29-31 | registers decimal default and constant strings, so the option is a flag |
| Program.Arguments.AddNumber | program.h:32-34 | registers a decimal default and an empty constant, so the option takes a value |
| Program.Arguments.Help | program.cpp:20-33 | builds the banner and then one line per option in key order |
| Program.Arguments.Get | program.cpp:9-18 | returns the parsed value, else the registered default, and fails with the help text exactly when the name is neither parsed nor registered; after any parse that is exactly when the name is not registered |
| Program.Arguments.Parse | program.cpp:35-71 | sets the program name from argv[0]; on success replaces the values and positionals with the parse result, which holds only registered option-like names; on failure reports the help text and keeps the old values |

## Left out

- Stream I/O is modelled as a sequence of cells, one 64-bit word or one
  character each. This leaves out the stream exception masks, the sentry,
  byte order and the raw byte layout of `size_t`.
- The failures of `load` are distinguished as read failure, bad checksum
  and offset out of range. In the source they are all the same
  `std::ios_base::failure`.
- `std::hash<size_t>` is a parameter of the checksum, because the C++
  library does not fix it.
- `random(1, max, urng)` is the draw `r` of `Generate`. The engine and the
  distribution are not modelled.
- The table is an `std::unordered_map`, whose enumeration order is an
  `order` parameter of `Save`. Any order of the keys is allowed.
- Codec.Load: after a failed load the model does not promise everything
  the source leaves behind. A short read of the word characters or of the
  window block leaves the old buffer here, while the source has resized it
  and filled part of it. The offsets read before a bad one, and the rows
  read before a failing row, are not kept here. The command-line tool
  drops the model when `load` throws (main.cpp:117-127), so nothing reads
  that state.
- `load` calls after the first one are not modelled. `Load` requires a
  model with an empty word index, as the command-line tool constructs one.
- Codec.Decode: a successful load is not proved to give a well-formed
  model. Loading arbitrary input does not check the NUL termination of the
  word buffer, so the strings the index points at may be unterminated, as
  they can be in the source.
- In `Lex.Key`, an offset outside its buffer reads as an empty key, and a
  word that reaches the end of the buffer without a NUL ends there. In the
  source the comparators then read past the end of the buffer, which has no
  defined result; the check as written lets such offsets in (see
  "Findings").
- The regular expression of `arguments` is a predicate `re` on strings.
  The default `-\w` is `DashWord`, which treats the ASCII letters, digits
  and `_` as word characters. General regular expressions are not modelled.
- Program.DecimalRoundTrip covers integers only. `std::to_string` of
  floating-point values, which the templates also accept, is not modelled.
  `ParseDecimal` reads back only what `to_string` writes, not everything
  `std::stoi` accepts (leading blanks, `+`, trailing text).
- `main.cpp`, `io.cpp`/`io.h` (reading words from a stream), `string.h`
  and `iterator.h` are not part of this model.
- `generating::model` and `training::model` share one class. Training and
  generating operations are methods of the same `Model`.

## Findings

| source | as written | input that shows it | evidently intended | confidence | as-written member | corrected member |
|---|---|---|---|---|---|---|
| generator.cpp:166, 176 | `h.word_data_size < v + 1` and `h.pref_data_size < v + h.pref_size`, computed in `size_t`, which wraps at 2^64 | a header declaring an empty word buffer and one word offset, followed by the offset `v = 2^64-1` (`v + 1` wraps to 0, so the empty buffer accepts it); likewise a window offset near 2^64 | refuse every offset whose word or window does not end inside its buffer: `v + extent <= size` without wrap-around | not executed | Codec.WrappedOffsetLoads | Codec.Decode |
