# Models of libac, with proofs

libac is a C utility library. This project models the parts of it that hold a theorem and
proves those theorems with Dafny 4.11. `dafny verify dfyconfig.toml` checks the whole project.

Code that changes state in C is a class or a method over arrays here, proved against functions
on values; what the library promises is then proved about those functions, over every input and
every run of calls. A C string is a `string` of bytes 1 to 255; `char` is signed, as on the
library's usual targets; 8-bit and 32-bit fields wrap where the C fields wrap. An action passed
to a `foreach` function is represented by the list of items it is called on, and the user's
free functions by the list of entries handed to them.

## The files

- `Common.dfy`: optional values, 32-bit words, facts about sequences.
- JSON writer: `JsonWriter.dfy` (the buffer, edited in place), `JsonText.dfy` (what each call
  does to the text and means for the document), `JsonLayout.dfy` (documents laid out line by
  line), `JsonRuns.dfy` (what every run keeps), `JsonReader.dfy` (a reader written from sections
  2 to 7 of RFC 8259), `JsonRoundTrip.dfy` (the reader undoes the writer), `JsonWeight.dfy` and
  `JsonLimits.dfy` (why documents that are too deep or have names that need escaping cannot be
  read back), `JsonIndent.dfy` (when the buffer holds the indentation), `JsonUnended.dfy` (ending
  the JSON with containers open), `JsonPrinter.dfy` (whole runs on the buffer), `JsonDocuments.dfy`
  (the calls for a given document), `JsonPretty.dfy` (what the text of a document looks like),
  `JsonForms.dfy` (which escapes and numerals are written).
- `Levenshtein.dfy`: the two-row program, the recurrence, and edit scripts.
- Random numbers: `RandomStream.dfy` (the recurrence, the table read cyclically, saving and
  switching), `RandomSeed.dfy` (what a seed starts), `RandomR.dfy` (the generator as a class), `RandomArrays.dfy` (one
  generator over several state arrays); `Shuffle.dfy` on top of it.
- Circular buffer: `Bits.dfy`, `CircAddress.dfy` (masked 32-bit offsets), `CircFifo.dfy` (the
  queue it stands for), `CircBuf.dfy` (the buffer as a class).
- `Luhn.dfy`, `TreeWalk.dfy`.
- Linked structures: `Slist.dfy`, `Queue.dfy`, `ListSpec.dfy` and `List.dfy` (doubly linked),
  `TableSpec.dfy`, `TableRuns.dfy` and `HTable.dfy` (hash table), `Quark.dfy`.

## Where the code and its promises part

Each of these is proved as the exact condition under which the promise is met.

- What a caller reads from the JSON writer after any legal run of calls that ends all it began
  denotes the document built if and only if four things hold (`JsonPrinter.Print`): there was room for every
  indentation, no more than 256 containers were ever open at once, the strings are ASCII, and
  the names need no escaping.
  - The depth is 8 bits wide. Closing a container at nesting level 257 brings it to zero, so the
    container is taken for the root and its comma is left out (`JsonRuns.EndKeepsIff`,
    `JsonDocuments.DeepestAndOneMore`). At level 256, the last that is read back, entries are not
    indented (`JsonPretty.PrettyIff`).
  - `c < 0x20` is a test on a plain `char`, so every byte from 0x80 is written as `\uffff`
    (`JsonRoundTrip.SeenIff`).
  - Names are pasted without escaping (`JsonRoundTrip.NameIff`).
  - The buffer grows once before indenting. That is enough from every state if and only if the
    indentation is at most 4096 bytes (`JsonIndent.OneGrowthSufficesIff`); `ac_jsonw_indent_sz`
    stays within that, `ac_jsonw_set_indenter` need not (`JsonIndent.TooWide`). Indentation that
    does not fit is cut off with a NUL inside the text, and a later piece of it may be written
    past the buffer.
- `ac_jsonw_end` closes one container, with a brace, whatever is open. Within the first three
  limits the text is a JSON text if and only if the run has ended every container it began
  (`JsonUnended.EndedIff`, `JsonPrinter.Print`).
- `ac_str_levenshtein` returns the last word of a row it never wrote when the first string is
  empty and the second is not (`Levenshtein.InitialisedIff`).
- `is_pow2` accepts zero (`CircBuf.IsPow2Iff`). For any size that is a power of two and any
  element size the offsets, masked steps and counts are right if and only if the storage is at
  most 2^32 cells, the set bits of the element size lie far enough apart and the size is one or
  divides 2^32 / elem_sz (`CircAddress.SoundIff`); within that storage powers of two always qualify.
- `ac_circ_buf_pushm` of exactly `size` items onto an empty buffer reports success and leaves
  the buffer empty; no other call loses an item (`CircFifo.StepConservesIff`), and what is lost
  stays lost until a reset (`CircFifo.RunConserves`).
- The comment on `ac_list_preadd` recommends it with `ac_list_reverse`. As the old first item
  gets no `prev` link, reversing then keeps only the item that was put in first
  (`List.PreaddThenReverse`). Reversing keeps all items if and only if the links are
  mirrors (`ListSpec.ReversesIff`).
- `ac_queue_foreach` visits nothing when the 32-bit item count reads zero, so also with 2^32
  items (`Queue.CountedWraps`, `Queue.Queue.Foreach`).

## Model

| member | source | states |
|---|---|---|
| JsonWriter.MakeEscapedString | src/ac_jsonw.c:122-160 | the escaped text and its NUL fit an allocation of six times the length and one, for every byte string |
| JsonRoundTrip.EscapeClean | src/ac_jsonw.c:128-157 | escaped text is printable ASCII and at most six times as long as the input |
| JsonRoundTrip.ReadCharsEscaped | src/ac_jsonw.c:131-157 | a reader of section 7 of RFC 8259 takes the escaped text up to exactly the closing quotation mark, and decodes the input, bytes from 0x80 as U+FFFF |
| JsonRoundTrip.SeenIff | src/ac_jsonw.c:132-138 | a string is decoded unchanged exactly when it is ASCII |
| JsonRoundTrip.NameIff | src/ac_jsonw.c:176-178 | a name pasted between quotation marks is decoded unchanged exactly when it holds no control character, quotation mark or backslash |
| JsonRoundTrip.ReadNumberDecimal | src/ac_jsonw.c:197-203 | a printed integer is read back as that integer |
| JsonForms.CharShortest | src/ac_jsonw.c:128-157 | no text denotes an ASCII character more briefly than its escape, and none as brief, with hexadecimal digits in lower case, is another |
| JsonForms.NonAsciiEscape | src/ac_jsonw.c:132-138 | every byte from 0x80 is escaped as U+FFFF |
| JsonForms.EscapeShortest | src/ac_jsonw.c:122-160 | no text that denotes an ASCII string is shorter than the escaped one |
| JsonForms.NumeralIff | src/ac_jsonw.c:197-203 | the digits printed are the one decimal numeral of their number without a superfluous zero |
| JsonIndent.DefinedIff | src/ac_jsonw.c:34-42 | C defines a run of indentation exactly when each piece starts within the buffer or at its end |
| JsonIndent.GrownIs | src/ac_jsonw.c:44-54 | for a message the buffer grows by as few blocks of 4096 bytes as hold it and a NUL |
| JsonIndent.OneGrowthSufficesIff | src/ac_jsonw.c:32-42 | the one growth before indenting makes room from every buffer state exactly when the indentation is at most 4096 bytes |
| JsonIndent.ShortIsRoomy | src/ac_jsonw.c:88-107 | with indenters that fill at most a block at 255 levels, those set by size among them, there is room for every indentation of every run |
| JsonIndent.TooWide | src/ac_jsonw.c:104-107 | 9000 blanks, set as the indenter, leave no room for the first line |
| JsonWriter.JsonWriter.constructor | src/ac_jsonw.c:66-80 | a new writer holds an opened root, NUL-terminated inside its allocation |
| JsonWriter.JsonWriter.IndentSz | src/ac_jsonw.c:88-96 | sets an indenter of that many blanks for 1 to 16 and changes nothing otherwise; `JsonPretty.PrettyIff` states what it does to the text |
| JsonWriter.JsonWriter.SetIndenter | src/ac_jsonw.c:104-107 | sets any indenter |
| JsonWriter.JsonWriter.GrowForIndent | src/ac_jsonw.c:34-38 | grows the buffer at most once, by a block, and keeps the text |
| JsonWriter.JsonWriter.Snprintf | src/ac_jsonw.c:39-42 | writes as much of the indenter as the buffer holds, ended by a NUL, and counts all of it |
| JsonWriter.JsonWriter.JsonBuildStr | src/ac_jsonw.c:24-57 | appends indentation and message, or, without room, the indentation cut off by a NUL at the end of the grown buffer, then arbitrary bytes and the message; excluded are only states in which a piece would start past the buffer |
| JsonWriter.JsonWriter.AddStr | src/ac_jsonw.c:172-183 | the buffer afterwards holds the text of the specified call, as far as there was room to indent |
| JsonWriter.JsonWriter.AddInt | src/ac_jsonw.c:197-203 | the same for an integer of 64 bits |
| JsonWriter.JsonWriter.AddBool | src/ac_jsonw.c:252-259 | the same for a boolean |
| JsonWriter.JsonWriter.AddNull | src/ac_jsonw.c:270-276 | the same for null |
| JsonWriter.JsonWriter.AddStrOrNull | src/ac_jsonw.c:290-297 | a missing or empty string is written as null, any other as a string |
| JsonWriter.JsonWriter.AddArray | src/ac_jsonw.c:305-309 | opens a named array one level deeper, the 8-bit depth wrapping |
| JsonWriter.JsonWriter.AddObject | src/ac_jsonw.c:351-359 | opens an object one level deeper, the 8-bit depth wrapping |
| JsonWriter.JsonWriter.JsonEnd | src/ac_jsonw.c:311-333 | edits away the tail, and closes the container with or without a comma by the depth left |
| JsonWriter.JsonWriter.EndArray | src/ac_jsonw.c:340-343 | closes with a square bracket |
| JsonWriter.JsonWriter.EndObject | src/ac_jsonw.c:366-369 | closes with a brace |
| JsonWriter.JsonWriter.End | src/ac_jsonw.c:376-380 | closes the root whatever the depth was |
| JsonLayout.LayBuilds | src/ac_jsonw.c:172-369 | the lines written follow the document under construction, whatever indenter is in force |
| JsonRuns.OpenTextEndsEditable | src/ac_jsonw.c:315-321 | while containers are open the text ends in an opening bracket or a comma, and a newline; the comma exactly when the innermost one has entries |
| JsonRuns.EndKeepsIff | src/ac_jsonw.c:311-333 | closing leaves the text the rendering of the open containers exactly when the depth returned to is not zero |
| JsonRuns.StepKeeps | src/ac_jsonw.c:88-369 | every legal call, setting an indenter among them, keeps the text the rendering of the containers open afterwards |
| JsonRuns.RunKeeps | src/ac_jsonw.c:88-369 | the same over every legal run with at most 256 containers open, the indenter changing at will |
| JsonRuns.EndAllRenders | src/ac_jsonw.c:376-380 | ending with only the root open leaves the rendering of the whole document |
| JsonRoundTrip.ReadRendered | src/ac_jsonw.c:172-369 | a rendered value, with its white space and commas, is read as that value and nothing after it is touched |
| JsonRoundTrip.TextReads | src/ac_jsonw.c:172-380 | a finished text with plain names is a JSON text and denotes the document as seen through the escaper |
| JsonRoundTrip.WriterRoundTrip | src/ac_jsonw.c:24-380 | printer and parser for every run within the limits: the text denotes the document built, exactly when its strings are ASCII |
| JsonWeight.NameWeighs | src/ac_jsonw.c:176-178 | a pasted name spends less than any text that denotes it, exactly when it needs escaping |
| JsonLimits.StepFalls | src/ac_jsonw.c:172-369 | at any depth and with any names no call adds more weight to the text than to the document, and one that leaves out a comma or an escape adds less |
| JsonLimits.RunFalls | src/ac_jsonw.c:172-369 | a run that goes deeper than 256, or names something with a name that needs escaping, ends with too light a text |
| JsonLimits.WriterRoundTripIff | src/ac_jsonw.c:24-380 | for every legal run with room for its indentation the text denotes the document built exactly when at most 256 containers were ever open, the strings are ASCII and the names plain |
| JsonPrinter.Spoils | src/ac_jsonw.c:34-54 | indentation that was cut off leaves a NUL in the text, and before it less than the document weighs |
| JsonUnended.EndedIff | src/ac_jsonw.c:376-380 | for every legal run with room for its indentation, at most 256 containers open and plain names, ending the JSON leaves a JSON text exactly when every container begun was ended |
| JsonPrinter.Print | src/ac_jsonw.c:24-423 | for every legal run on a fresh buffer that ends all it began, what the caller reads denotes the document built exactly when there was room for every indentation, at most 256 containers were ever open, the strings are ASCII and the names plain; within these limits, but for the strings, a run that leaves containers open yields no JSON text, and any other does |
| JsonDocuments.SomeCalls | src/ac_jsonw.c:172-369 | every entry that fits where it is put can be written |
| JsonDocuments.DocumentBuilds | src/ac_jsonw.c:88-369 | calls that write a document, whichever of the equivalent ones are chosen, are legal, build it, and open as many containers at once as it is deep |
| JsonDocuments.ShortDocument | src/ac_jsonw.c:88-107 | with indenters set by size there is room for every document |
| JsonDocuments.DocumentRoundTripIff | src/ac_jsonw.c:24-380 | with room for the indentation, whatever calls write a document yield a text that denotes it exactly when it is at most 256 deep, its strings are ASCII and its names plain |
| JsonDocuments.DeepestAndOneMore | src/ac_jsonw.c:324-331 | a root with 256 objects inside each other is not read back; with 255 it is |
| JsonPretty.AddStrOrNullIs | src/ac_jsonw.c:290-297 | a string that is not empty is written by the call for strings, an empty or missing one by the call for null, and both mean just that for the document |
| JsonPretty.PrettyIff | src/ac_jsonw.c:24-380 | within 256 levels, whatever calls write a document, the text is the document printed one entry a line with the indenter last set, by size or as a string, or else four blanks, exactly when no entry lies inside 256 containers or the indenter is empty |
| JsonPretty.PrintDocument | src/ac_jsonw.c:24-423 | on the buffer, for every document and all white-space indenters: the text denotes the document exactly when there was room for the indentation, it is at most 256 deep, its strings are ASCII and its names plain; and with room it is the printed document under the same condition |
| Levenshtein.Minimum | src/ac_str.c:140-150 | the result is one of the three and no greater than any |
| Levenshtein.NextRow | src/ac_str.c:188-195 | the inner loop turns one row of the full matrix into the next, no value leaving int |
| Levenshtein.Levenshtein | src/ac_str.c:167-206 | the program computes the last entry of the matrix, or returns uninitialised memory when the first string is empty and the second is not |
| Levenshtein.InitialisedIff | src/ac_str.c:185-200 | the result is the distance whatever the uninitialised row held exactly when the first string is nonempty or the strings are equal |
| Levenshtein.LeastSteps | src/ac_str.c:152-166 | the matrix entry is the least number of insertions, deletions and substitutions: some script attains it, none is shorter |
| Levenshtein.Attained | src/ac_str.c:185-200 | some script attains the distance |
| Levenshtein.NoneShorter | src/ac_str.c:185-200 | no script is shorter than the distance |
| Levenshtein.LevBounds | src/ac_str.c:176-200 | the distance is between the difference of the lengths and the longer length |
| Levenshtein.LevZeroIff | src/ac_str.c:176-177 | zero exactly for equal strings |
| Levenshtein.LevSymmetric | src/ac_str.c:176-200 | symmetric |
| Levenshtein.LevTriangle | src/ac_str.c:176-200 | the triangle inequality, by composing scripts |
| RandomStream.DrawsAreTheRecurrence | src/platform/common/random_r.c:364-387 | after any number of draws the window holds the latest words of x[n] = x[n-deg] + x[n-sep] modulo 2^32 in order, and the next result is the next word without its lowest bit |
| RandomStream.TableStep | src/platform/common/random_r.c:370-384 | adding the rear word into the front one is one step of the recurrence on the table read from the front pointer |
| RandomStream.DrawLiveIsDraw | src/platform/common/random_r.c:357-387 | a draw on a state array is a draw of the recurrence it stands for, and leaves the saved word alone |
| RandomStream.SavedWordDecodes | src/platform/common/random_r.c:240-244 | the word 5 * rear + type decodes to rear and type |
| RandomStream.RefusedIff | src/platform/common/random_r.c:314-316 | a first word is refused exactly when it is negative and no multiple of five; otherwise its remainder is the type and its quotient the position |
| RandomStream.SaveLoad | src/platform/common/random_r.c:305-328 | saving and loading give back position, type and stream |
| RandomStream.SwitchKeeps | src/platform/common/random_r.c:293-335 | switching between state arrays changes the stream of none of them |
| RandomStream.SwitchToCurrent | src/platform/common/random_r.c:285-292 | switching to the array in use keeps position, type and table |
| RandomStream.StreamsAreIndependent | src/platform/common/random_r.c:285-387 | however switches and draws are interleaved, each array yields exactly the stream it would yield alone |
| RandomSeed.SchrageIs | src/platform/common/random_r.c:193-200 | the step is 16807 * word modulo 2147483647 for every int32, a negative one too, and nothing leaves int32 on the way |
| RandomSeed.SeedWordStep | src/platform/common/random_r.c:188-202 | each seeded word is 16807 times the one before, modulo 2147483647 |
| RandomSeed.SeedWordZeroIff | src/platform/common/random_r.c:181-202 | a seeded word after the first is zero exactly when the seed word is a multiple of 2147483647 |
| RandomSeed.SeedWordIs | src/platform/common/random_r.c:178-202 | seeded word k is the seed, as a signed word, times 16807 to the k, modulo 2147483647; zero seeds what one seeds |
| RandomSeed.SameTableIff | src/platform/common/random_r.c:178-202 | two seeds start the same table exactly when they are equal or are zero and one |
| RandomSeed.SeededYields | src/platform/common/random_r.c:165-218 | for every type and seed all numbers drawn, in closed form: number k is word 11 * deg + k of the recurrence over the seeded words without its lowest bit, or for type 0 the closed form of the congruential generator |
| RandomSeed.StateFits | src/platform/common/random_r.c:247-268 | the type chosen for n bytes has a table that fits n/4 words with the saved one |
| RandomR.TenTurns | src/platform/common/random_r.c:204-211 | ten turns of draws bring the pointers back to where seeding put them |
| RandomR.RandomData.RandomR | src/platform/common/random_r.c:348-388 | one draw, both pointers staying in the table although the rear one is not tested when the front one wraps |
| RandomR.RandomData.FillTable | src/platform/common/random_r.c:184-202 | the table holds the seeded words |
| RandomR.RandomData.SRandomR | src/platform/common/random_r.c:165-218 | seeds the stream in use, so that it yields the numbers of that seed in closed form, and puts its rear position to zero; an unknown type changes nothing |
| RandomR.RandomData.InitStateR | src/platform/common/random_r.c:231-283 | saves the stream in use, starts one that yields the numbers of the seed and of n bytes in closed form, and stores exactly its type; fails below 8 bytes |
| RandomR.RandomData.SetStateR | src/platform/common/random_r.c:293-335 | saves the stream in use and takes up the one in the array given, decided by that array's first word alone; the registers then describe a stream exactly when the word gives a type and position that fit the array; the same array may be given |
| RandomArrays.OnArrays | src/platform/common/random_r.c:285-388 | whatever switches and draws are made on one generator over several arrays, the numbers drawn from each array are those of its own stream |
| Shuffle.ShuffledPermutes | src/ac_misc.c:224-235 | the shuffle keeps the multiset of elements |
| Shuffle.ShuffledInjective | src/ac_misc.c:224-235 | different choice vectors give different arrangements of distinct elements |
| Shuffle.ShuffledSurjective | src/ac_misc.c:224-235 | every arrangement arises from some choice vector |
| Shuffle.ShuffleIsABijection | src/ac_misc.c:224-235 | on distinct elements the choice vectors map one-to-one onto the permutations |
| Shuffle.UnshuffledUndoes | src/ac_misc.c:224-235 | the same exchanges in the opposite order undo the shuffle |
| Shuffle.ShuffleWith | src/ac_misc.c:224-235 | the loop in place brings about the arrangement of the numbers its generator yields |
| Shuffle.ShuffleFisherYates | src/ac_misc.c:213-238 | the same from a seed: each choice is the next number of that seed, in closed form, reduced by how many elements are left; the multiset of elements is kept |
| Luhn.LuhnCheck | src/ac_misc.c:188-211 | the loop decides whether a number of at least two digits has a digit sum that is a multiple of ten |
| Luhn.SumIsWeighted | src/ac_misc.c:197-208 | the loop's sum is the sum over the list of decimal digits with every second one doubled |
| Luhn.SumByPairs | src/ac_misc.c:197-208 | of the two digits on the right the last counts once and the other is doubled, the digits of a product of ten or more being added |
| Luhn.SumFits | src/ac_misc.c:190-208 | the 32-bit sum cannot overflow |
| Luhn.UniqueCheckDigit | src/ac_misc.c:188-211 | every number has exactly one check digit |
| Luhn.SetDigitDigits | src/ac_misc.c:197-198 | the single-digit error considered changes that decimal digit and no other |
| Luhn.TransposedDigits | src/ac_misc.c:197-198 | the transposition considered exchanges two adjacent decimal digits and no others |
| Luhn.DetectsDigitError | src/ac_misc.c:188-211 | changing any one digit of a passing number makes it fail |
| Luhn.DetectsTransposition | src/ac_misc.c:188-211 | swapping adjacent digits of a passing number makes it fail, exactly unless they are equal or are 0 and 9 |
| CircBuf.IsPow2Iff | src/ac_circ_buf.c:74-77 | the test accepts zero and exactly the powers of two |
| CircAddress.SoundIff | src/ac_circ_buf.c:30-33 | for every nonzero size that is a power of two and every element size, all offsets fit in 32 bits and every masked step and every count from two offsets is right, exactly when the pair is sound |
| CircAddress.PowersAreSound | src/ac_circ_buf.c:156-157 | element sizes that are powers of two are sound |
| CircAddress.ThreeByFourUnsound | src/ac_circ_buf.c:156-157 | four elements of three bytes: the first step already goes astray |
| CircFifo.StepConservesIff | src/ac_circ_buf.c:140-242 | a call keeps accepted items equal to popped items followed by the contents exactly when it is not a bulk push of `size` items onto an empty buffer |
| CircFifo.RunConserves | src/ac_circ_buf.c:140-282 | the same over every run: accepted items equal popped items followed by the contents exactly when no such push has been made since the last reset; the queue stays within size - 1 in any case |
| CircFifo.RunDrains | src/ac_circ_buf.c:140-282 | when nothing has overfilled since the last reset, enough pops of one item give back every item accepted since, in order |
| CircBuf.CircBuf.New | src/ac_circ_buf.c:91-113 | null exactly for a size that is neither zero nor a power of two; an empty buffer when size and element size are sound |
| CircBuf.CircBuf.CircCount | src/ac_circ_buf.c:30-33 | the number of items queued, despite wraparound |
| CircBuf.CircBuf.CircSpace | src/ac_circ_buf.c:40-44 | size - 1 less the number of items queued |
| CircBuf.CircBuf.CircCountToEnd | src/ac_circ_buf.c:52-58 | the number of items in a row from the tail |
| CircBuf.CircBuf.CircSpaceToEnd | src/ac_circ_buf.c:66-72 | the number of free places in a row from the head |
| CircBuf.CircBuf.PushM | src/ac_circ_buf.c:140-160 | succeeds exactly when the free places in a row suffice, or the buffer is empty and there are at most `size` items; appends them, or starts the ring afresh with them, or with nothing for exactly `size`; on failure nothing changes |
| CircBuf.CircBuf.Push | src/ac_circ_buf.c:172-186 | succeeds exactly below size - 1 items and appends one; on failure nothing changes; the item popped last keeps its place |
| CircBuf.CircBuf.PopM | src/ac_circ_buf.c:199-215 | succeeds exactly when that many items are queued and lie in a row, and takes them from the front; on failure nothing changes |
| CircBuf.CircBuf.Pop | src/ac_circ_buf.c:226-242 | takes the oldest item, and none exactly from an empty buffer; the item stays in the buffer, in the place in front of the tail |
| CircBuf.CircBuf.Foreach | src/ac_circ_buf.c:251-272 | visits the items queued, in order |
| CircBuf.CircBuf.Reset | src/ac_circ_buf.c:279-282 | empties the buffer and starts the ring afresh |
| TableSpec.ChainGetIff | src/ac_htable.c:22-35 | a lookup in a bucket finds exactly the data stored under the same key |
| TableRuns.InsertKeeps | src/ac_htable.c:108-125 | an insertion binds one key and no other, and keeps every entry in its hash bucket and no key twice |
| TableRuns.RemoveKeeps | src/ac_htable.c:137-147 | a removal forgets one key and no other, with the same kept |
| TableRuns.StepIs | src/ac_htable.c:108-147 | in full: in bucket hash % 2048 entries with another key keep their order and an inserted one comes first, the entry with the key is released, no other bucket changes, and the count goes by what lookups find |
| TableRuns.RunIsAMap | src/ac_htable.c:108-169 | after every run of insertions and removals a lookup finds what the last operation on its key left |
| TableRuns.RunConserves | src/ac_htable.c:37-147 | after every run each inserted entry is in the table or has been released, exactly once, and the count is the number of entries |
| TableRuns.DestroyedReleasesAll | src/ac_htable.c:202-225 | after destroying the table every inserted entry has been released exactly once |
| TableRuns.ListedOnce | src/ac_htable.c:179-195 | no two entries visited have the same key |
| TableRuns.ListedByBucket | src/ac_htable.c:179-195 | the visit goes from bucket to bucket |
| TableRuns.ListedIff | src/ac_htable.c:179-195 | the entries visited are exactly the bindings lookups find |
| HTable.HTable.constructor | src/ac_htable.c:80-96 | an empty table of 2048 lists that share nothing |
| HTable.HTable.BucketListRemove | src/ac_htable.c:37-65 | takes the entry with the same key out of its bucket, releases it, and reports whether there was one |
| HTable.HTable.Insert | src/ac_htable.c:108-125 | chains, count and released entries are those of the specified step |
| HTable.HTable.Remove | src/ac_htable.c:137-147 | the same, and reports whether the key was bound |
| HTable.HTable.Lookup | src/ac_htable.c:159-169 | the data bound to the key, if any |
| HTable.HTable.Foreach | src/ac_htable.c:179-195 | visits all entries bucket by bucket |
| HTable.HTable.Destroy | src/ac_htable.c:202-225 | releases all entries left, in that order |
| ListSpec.StepKeepsIff | src/ac_list.c:60-237 | an operation leaves mirrored links mirrored exactly unless it puts an item in front of others |
| ListSpec.RemovedAt | src/ac_list.c:112-218 | after a removal the other items are left, each linked back as before, but the next one as the removed one was |
| ListSpec.RunKeeps | src/ac_list.c:60-237 | over every run that puts items in front only of an empty list the links stay mirrors and the items are those of a plain sequence |
| ListSpec.ReversesIff | src/ac_list.c:225-237 | reversing yields all items in reverse exactly when the links are mirrors, and always leaves mirrors |
| ListSpec.ReversesTwiceIff | src/ac_list.c:225-237 | reversing twice restores the list exactly when the links are mirrors |
| ListSpec.BackwardVisitIff | src/ac_list.c:335-349 | a backward visit sees the reverse of a forward one exactly when the links are mirrors |
| ListSpec.PreaddAndReverseIff | src/ac_list.c:78-99 | putting items in front and reversing keeps only the first of them, so it equals adding them exactly when there is at most one |
| List.List.Add | src/ac_list.c:60-76 | appends a node linked both ways; the other nodes keep their place |
| List.List.Preadd | src/ac_list.c:87-99 | puts a node in front; the old first one gets no link back |
| List.List.Remove | src/ac_list.c:112-137 | takes out the first item equal to the data; the node after it takes over its `prev` link |
| List.List.RemoveNth | src/ac_list.c:150-176 | takes out item n if there is one |
| List.List.RemoveCustom | src/ac_list.c:190-218 | takes out the first item the comparison finds |
| List.List.Reverse | src/ac_list.c:225-237 | the same nodes in reverse, down to the last one without a `prev` link |
| List.List.Foreach | src/ac_list.c:318-325 | visits the items in order |
| List.List.RevForeach | src/ac_list.c:335-349 | visits the items backwards as far as the `prev` links go |
| List.PreaddThenReverse | src/ac_list.c:78-99 | on the list itself: of items put in front of a new list, reversing keeps only the first put in |
| Slist.PrependAndReverse | src/ac_slist.c:76-96 | putting items in front of an empty sequence and reversing it gives them in order |
| Slist.PreaddThenReverse | src/ac_slist.c:76-96 | on the list itself: putting items in front of a new list and reversing it equals adding them in order |
| Slist.Slist.Add | src/ac_slist.c:60-74 | appends one node after the same nodes |
| Slist.Slist.Preadd | src/ac_slist.c:85-96 | puts one node in front of the same nodes |
| Slist.Slist.RemoveFirst | src/ac_slist.c:179-203 | takes out the first item found, and no other |
| Slist.Slist.Find | src/ac_slist.c:257-270 | the first item found, if any |
| Slist.Slist.Reverse | src/ac_slist.c:210-223 | reverses the same nodes in place |
| Slist.Slist.Foreach | src/ac_slist.c:304-312 | visits the items in order |
| Queue.Queue.Push | src/ac_queue.c:46-68 | the contents are the old ones followed by the item, linked after the remembered last node; the 32-bit count wraps |
| Queue.Queue.Pop | src/ac_queue.c:79-99 | returns the first item and leaves the others; returns none exactly from an empty queue; the remembered node may become stale |
| Queue.CountedIs | src/ac_queue.c:65 | a 32-bit counter reads the number of items modulo 2^32 |
| Queue.CountedWraps | src/ac_queue.c:125-126 | with 2^32 items the count reads zero |
| Queue.Queue.NrItems | src/ac_queue.c:110-113 | the number of items modulo 2^32 |
| Queue.Queue.Foreach | src/ac_queue.c:122-129 | visits all items in order, or none when their number is a multiple of 2^32 |
| Queue.RunConserves | src/ac_queue.c:46-99 | over every run the items popped followed by those left are those pushed, in order |
| Queue.RunLevel | src/ac_queue.c:46-99 | over every run as many items are left as pushes and pops dictate |
| Queue.PushesThenPops | src/ac_queue.c:46-99 | items pushed on an empty queue come out by as many pops, in order; more pops give nothing |
| Queue.OnQueue | src/ac_queue.c:46-99 | of a run on a new queue: popped items followed by the contents are the items pushed, in order, and as many are left as pushes and pops dictate |
| Queue.OnList | src/ac_slist.c:60-74 | the same run with the walking append yields the same, so the two agree over every run |
| Quark.StrcmpZeroIff | src/ac_quark.c:37-43 | the comparison is zero exactly for equal strings |
| Quark.StrcmpOrders | src/ac_quark.c:37-43 | the comparison is antisymmetric and transitive |
| Quark.StrcmpLessIff | src/ac_quark.c:37-43 | less means a proper prefix, or a smaller byte at the first difference |
| Quark.RunExtends | src/ac_quark.c:74-93 | no later call changes an earlier mapping, and no string has two numbers |
| Quark.RunRoundTrips | src/ac_quark.c:74-109 | every number returned in a run stands for its string when the run is over, and interning the string again returns it |
| Quark.NumbersIdentify | src/ac_quark.c:74-93 | two calls return the same number exactly for the same string |
| Quark.IssuedExactly | src/ac_quark.c:74-93 | the numbers returned are exactly those from zero to the last |
| Quark.Quark.FromString | src/ac_quark.c:74-93 | returns the string's number, adding the string only if it is new |
| Quark.Quark.ToString | src/ac_quark.c:105-109 | the string with that number, NULL above the last, a read in front of the array for a negative one |
| TreeWalk.ParseWalk | src/platform/common/twalk_r.c:203-232 | a reader recovers the tree from its events, whatever events may follow |
| TreeWalk.ParsedWalk | src/platform/common/twalk_r.c:203-232 | whatever the reader accepts is the walk of the tree it returns |
| TreeWalk.WalkInjective | src/platform/common/twalk_r.c:203-232 | trees with the same events are equal |
| TreeWalk.IsWalkIff | src/platform/common/twalk_r.c:203-232 | a list of events is a walk exactly when the reader takes all of it |
| TreeWalk.ListedIsInOrder | src/test.c:50-57 | keeping postorder and leaf events lists the tree in order |
| TreeWalk.ListedIsPreOrder | src/platform/common/twalk_r.c:203-232 | keeping preorder and leaf events lists each node before those under it |
| TreeWalk.ListedIsEndOrder | src/platform/common/twalk_r.c:203-232 | keeping endorder and leaf events lists each node after those under it |
| TreeWalk.ListedOnce | src/test.c:50-57 | the listing has as many items as the tree has nodes |

## Left out

- `ac_geo` and `ac_jsonw_add_real`: floating point.
- `ac_fs`, `ac_json`, `ac_net`, `ac_misc_passcrypt`, `ac_misc_gen_uuid4`, and the file copy, UUID
  and allocation code under `src/platform`: calls into the kernel and other libraries.
- `ac_btree`: thin wrappers over the C library's tree search. In `Quark.dfy` the tree is the set
  of nodes it holds, with the contract that a lookup finds a node that compares equal.
- `ac_time`, `ac_misc_ppb`, the other `ac_str` functions, the hash functions and the macros: small
  members that add little.
- Failing memory allocation, leaks of replaced indenters, threads, and NULL arguments that
  the code rejects at once.
- Formatting by `vasprintf` is concatenation of strings; the decimal and hexadecimal digits
  themselves are modelled.
- UTF-8: text is bytes, and the reader takes each byte of a name for a character.
- The clock: the shuffle's seed is a parameter. Elements are moved as wholes, not byte by byte.
- Destroying lists, queues, quarks and circular buffers; the length, nth-item and search functions of
  the lists that are not listed above.
- A node taken out of a list is not tracked any more, so nothing is said about its memory.
- JsonWriter.JsonWriter.JsonBuildStr: requires, and so does every call that indents, that no
  piece of indentation starts past the end of the buffer, as C defines nothing for such a write.
  A single message is taken to be shorter than 2^31 bytes, the range of the `int` that holds its
  length.
- JsonPrinter.Print: says nothing of indenters that are not white space or of closers that do not
  match; of a run that leaves containers open it says nothing when the run goes beyond the limits
  of room, depth or names, as a name that is pasted unescaped may itself close them. It ends a
  run, with no text, before a call that C does not define.
- CircBuf.CircBuf.Pop: in C the item of a buffer of copies is a pointer into it; here it is a copy,
  with the place it was copied from. Pushing leaves that place alone; a bulk push that starts the
  ring afresh may overwrite it, which is not stated further.
- CircBuf.CircBuf.New: a buffer with more than 2^32 cells, or with an element size that is not
  sound, is created in C as well; the contract then states its fields and no more.
- RandomR.RandomData.SetStateR: after an array whose first word gives a position outside it has been
  taken, nothing is said of draws; C forms pointers past that array.
- HTable.HTable.Insert: the count is an unbounded integer, as memory holds fewer than 2^64 entries;
  free functions that are NULL are entries nobody is told of.
- Quark.Quark.FromString: requires a number left below 2^31 for a new string.
