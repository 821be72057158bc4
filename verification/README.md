# CCI daemon: the JSON engine, the worker pool and daemonizing

A Dafny model of three parts of the repository, with proofs about them.

**The JSON engine** of `include/json.h`, in layers:

- `Bytes`, `Values`, `Ordering`: byte strings with the order of `std::string`, JSON values as `basic_json`
  stores them (an object is the strictly key-sorted sequence of its `std::map` entries), `operator==` and `operator<`.
- `Utf8`, `Escape`, `StringCodec`: `to_unicode`, `extra_space` and `escape_string` on a pre-sized buffer, and what
  the contents of a string token mean.
- `Lexemes`, `Scanner`, `NumberGrammar`, `Numbers`, `Lexing`: the tokens as declarative rules; the re2c automaton of
  `scan`, label by label, with its marker and `yyaccept`; the number grammar of section 6 of RFC 7159; the 64-bit
  accumulation of `get_number`; and the `lexer` class that runs the automaton.
- `Grammar`, `Parsing`, `Faults`: the grammar of sections 2, 4 and 5 of RFC 7159 as derivation trees, recursive descent
  over tokens, the `parser` class with its one token of lookahead, and which exception a bad string leaves it with.
- `Printing`, `Layout`, `RoundTrip`: `dump`, the layout of its output, and the proof that parsing it gives the value back.
- `Pointer`, `Access`, `Resolution`, `Flatten`, `Unflatten`: JSON pointers of sections 3 and 4 of RFC 6901, assigning and
  looking up through them, which pointers resolve, `flatten` and `unflatten`.

**The daemon**:

- `Pool`: reactor thread, message queue, workers and `stop` as a transition system over all interleavings.
- `Daemonize`: the state machine of `daemonize_` over the ids and the descriptor table of the process.

Loops of the source are methods with loops, proved against specification functions; objects that methods update
(`lexer`, `parser`, the output stream, the flat result object, the process) are classes. What the source promises is
then proved of those functions, for all inputs, and what they do to single bytes, types and flags is stated by literals
and constructors. Some definitions that are costly to
unfold are guarded by `Bytes.Look`, which is always true, and unfold only where a proof mentions it.

## Where the code does not keep its promise

Each of these is a theorem: the exact condition, for all inputs, and where it helps a concrete value.

- `j == j.flatten().unflatten()` is documented as "always true" apart from empty containers. It fails for an object whose
  flat form starts with key "0" (`{"0": null}` comes back as `[null]`), and for arrays of more than 2^31 elements, whose
  indices `std::stoi` refuses. `Unflatten.Restorable` is exactly the rest: a key "0" is harmless when another key of the
  object comes before it (the empty key, one that starts with a byte below "/", ...).
- `get_number` promises a float for an integer that does not fit 64 bits. The wrap test compares only the wrapped
  accumulator with its last value, and 42000000000000000000 is read as the unsigned number 5106511852580896768.
- Comparing an unsigned with a signed number casts to `int64_t`. A value lies on a cycle of `operator<` with comparable
  values exactly when some unsigned number in it is above 2^63 - 1. Irreflexivity and trichotomy hold above it too.
- `to_unicode` encodes a lone low surrogate as three bytes that are no UTF-8.
- Assigning through a pointer accepts array indices with leading zeros that checked lookup refuses.
- `daemonize_` spins for ever when `bd_no_close_files` is set and nothing failed before.
- `proc_thread_pool::stop` reads the counter of running workers once. A worker that enters `svc` later gets no null block
  from this call and waits for ever. The model has one call of `stop`; a second one would post a block for it.

Other places where the code is narrower or wider than the standard are part of the model as they are: a string may hold
raw bytes from 0x10 on, a NUL byte ends the input, and a byte order mark is skipped in front of any token.

## Model

| member | source | states |
|---|---|---|
| Bytes.LessTrichotomy | include/json.h:5621-5626 | the order on byte strings that sorts keys is total: exactly one of less, equal, greater |
| Bytes.LessAtFirst | include/json.h:5621-5626 | a byte string is less exactly when it ends first or has the lesser byte at the first position where they differ |
| Values.SameLookupsSameObject | include/json.h:3375-3394 | two sorted entry sequences with the same lookups are the same: an object is its map |
| Values.PutFind | include/json.h:3375-3394 | after assigning to a key, that key is found with the new value and every other key as before |
| Ordering.StrictTotalOrder | include/json.h:5596-5678 | for all values without floats, `operator<` is irreflexive and exactly one of less, equal, greater holds; when their unsigned numbers are at most 2^63-1 it is also transitive and respects `operator==`, through nested arrays and objects |
| Ordering.OrderedExactly | include/json.h:5665-5672 | a value has no unsigned number above 2^63-1 if and only if it lies on no cycle a < b < c < a with two values that have none |
| Ordering.EqualityEquivalence | include/json.h:5406-5485 | `operator==` is an equivalence on all values without floats, large unsigned numbers included |
| Ordering.Trichotomy | include/json.h:5406-5485 | exactly one of a<b, a==b, b<a, for all values without floats |
| Ordering.Transitivity | include/json.h:5596-5678 | `operator<` and `operator==` are transitive and compose when unsigned numbers are at most 2^63-1 |
| Ordering.TypeOrder | include/json.h:5359-5380 | null before booleans, numbers, objects, arrays and strings, in this order, by the constructors of the values: less, not greater, not equal |
| Ordering.ScalarOrder | include/json.h:5621-5638 | false before true, numbers by value, strings at the first byte that differs |
| Ordering.ArraysLexicographic | include/json.h:5605-5610 | for all arrays without floats: one is less than another exactly when, behind equal elements, it ends first or has the lesser element |
| Ordering.ObjectsLexicographic | include/json.h:5611-5616 | for all objects without floats: decided at the first entry that differs, by its key and then by its value, or by the end of one |
| Ordering.MixedComparisonExact | include/json.h:5475-5482 | when a signed-unsigned comparison agrees with the numbers: if and only if |
| Ordering.Cycle | include/json.h:5665-5672 | the cycle for every value with a larger unsigned number, at any depth: u < 0 < 1 < u in its place |
| Utf8.EncodeDecode | include/json.h:7402-7464 | for every Unicode scalar value the bytes are the UTF-8 of section 3 of RFC 3629 and decode to it |
| Utf8.DecodeEncode | include/json.h:7402-7464 | every UTF-8 character is what `to_unicode` gives for its code point |
| Utf8.Pairs | include/json.h:7408-7427 | a surrogate pair maps into 0x10000..0x10FFFF and back as in section 2.2 of RFC 2781 |
| Utf8.PairsOnto | include/json.h:7408-7427 | every code point beyond 0xFFFF comes from a pair |
| Utf8.PairOrder | include/json.h:7408-7427 | pairs are in the order of their code points, the high surrogate first |
| Utf8.Utf8Order | include/json.h:7402-7464 | the encodings of any two scalar values are, byte by byte, in the order of the values |
| Utf8.Utf8Exactly | include/json.h:7402-7464 | the result is UTF-8 exactly for scalar values and surrogate pairs; when it throws |
| Utf8.LoneLow | include/json.h:7443-7449 | a lone low surrogate is encoded as three bytes, which are no UTF-8 character |
| Escape.ExtraSpace | include/json.h:5954-5988 | the loop computes the length of the escaped string minus the length of the string |
| Escape.EscapeString | include/json.h:6003-6107 | the buffer filled through the moving position is the byte-by-byte escape, every write inside it and the position ending at its size; the early return is the same function |
| Escape.EscapeBytes | include/json.h:6010-6100 | each byte by its literal escape: itself from 0x20 on except quote and backslash, five named control characters, and \u00 with two lower-case digits for the others |
| StringCodec.TokenItems | include/json.h:7851-7965 | every string token spells a sequence of plain bytes, two-byte escapes and \u escapes |
| StringCodec.ItemsToken | include/json.h:7851-7965 | every such sequence between quotes is one string token, whatever follows |
| StringCodec.ItemsOfText | include/json.h:8336-8437 | the sequence is determined by its text |
| StringCodec.EscapeRoundTrip | include/json.h:6003-6107 | for every byte string and every following text, the quoted escape is one string token that ends behind its closing quote and means the string |
| StringCodec.ItemBytes | include/json.h:7851-7965 | which bytes stand for themselves, follow a backslash, or are the four digits of a \u escape |
| StringCodec.TextMeans | include/json.h:8336-8437 | the quoted text of any items is one token that means what the items mean |
| StringCodec.ShortMeans | include/json.h:8347-8388 | each of the eight two-byte escapes means its character, in front of any items |
| StringCodec.UnicodeMeans | include/json.h:8398-8427 | the escape of any scalar value below 0x10000, its digits found by division by 16, in either case, means one UTF-8 character that decodes to the value |
| StringCodec.PairMeans | include/json.h:8398-8418 | the two escapes of any supplementary code point mean the one UTF-8 character that decodes to it |
| StringCodec.MeaningExactly | include/json.h:8401-8418 | decoding throws if and only if some high surrogate has no low one behind it, and then nothing but the exception of a surrogate |
| Scanner.Keeps | include/json.h:7684-8277 | one block of the automaton, from every label, leads to the token the rules expect, with less work left |
| Scanner.Enters | include/json.h:7569-7708 | the entry decision tree leads to the token the rules name or over blanks and byte order marks |
| Scanner.StringLabels | include/json.h:7851-7965 | the string labels read the string rules |
| Scanner.HexLabels | include/json.h:8031-8277 | the labels of a \u escape ask for four hexadecimal digits |
| Scanner.IntLabels | include/json.h:7722-7793 | the labels of the integer part read digits, fraction and exponent, with the marker |
| Scanner.FractionLabels | include/json.h:7966-8097 | the labels behind a decimal point; back to the marker on forms like "1.x" |
| Scanner.ExponentLabels | include/json.h:7977-8123 | the labels behind an exponent sign; back to the marker on "12E" and "0e+" |
| Lexing.Lexer.Scan | include/json.h:7517-8279 | the state loop terminates and leaves start and cursor around the token the rules name |
| Lexemes.TokenStart | include/json.h:7517-7708 | in front of a token there are only bytes 0x20, 0x09, 0x0A, 0x0D and marks EF BB BF, and no token starts with one of them |
| Parsing.WhiteSpaceSkipped | include/json.h:7695-7708 | whatever is made of these has no token: the tokens of the text behind it are the same |
| Lexing.Lexer.GetString | include/json.h:8336-8437 | the decoding loop gives the meaning of the token's contents, or the exception of `to_unicode` or of a missing surrogate |
| Lexing.Lexer.GetNumber | include/json.h:8531-8643 | the accumulation loop gives what the digits specify |
| NumberGrammar.NumberToken | include/json.h:7722-7793 | where a number can start, the token is a number exactly when some prefix derives from the number grammar, and then it is the longest such prefix; otherwise one byte of error |
| NumberGrammar.NumberTokenIsLongest | include/json.h:7966-8123 | no longer prefix derives from the grammar |
| Numbers.WrapTest | include/json.h:8604-8617 | the overflow test in exact arithmetic: the quotients of 10w+d and 9w+d by 2^64 differ, or the remainder is too large |
| Numbers.AccumulateExactly | include/json.h:8546-8625 | the loop stops exactly when some digit is caught, and otherwise holds the value modulo 2^64 |
| Numbers.NumberExactly | include/json.h:8546-8642 | an integer literal is read as promised if and only if it fits or some digit is caught; what it is read as otherwise |
| Numbers.FractionIsFloat | include/json.h:8576-8598 | every number of the grammar with a fraction or an exponent is the float of its whole literal |
| Numbers.IntegerPartsOnly | include/json.h:8627-8642 | a number read as an integer has neither, and is signed exactly when it has a minus sign |
| Numbers.FirstWrapCaught | include/json.h:8608 | a literal that reaches 2^64 with 9v+d below it is a float, whatever digits follow |
| Numbers.MissedWrap | include/json.h:8608 | 42000000000000000000 is read as an unsigned number |
| Numbers.NumberRoundTrip | include/json.h:6231-6241 | reading back a printed int64 or uint64 gives the number and its type |
| Numbers.NumberIsToken | include/json.h:6231-6241 | a printed number is one number token, whatever may follow a number |
| Grammar.ParserAcceptsGrammar | include/json.h:8687-8889 | the parser accepts a token sequence exactly when it derives from the grammar, and returns what the derivation denotes |
| Grammar.ParsesTree | include/json.h:8700-8889 | every derivation is parsed, whatever follows it, and nothing behind it is consumed |
| Grammar.TreeOfParse | include/json.h:8700-8889 | what is parsed is a derivation that denotes the value |
| Grammar.LastDuplicateWins | include/json.h:8763-8769 | an object denotes a sorted map in which the last of several equal names wins |
| Grammar.Unambiguous | include/json.h:8700-8889 | one token sequence has one derivation, so the grammar is unambiguous |
| Parsing.Parser.GetToken | include/json.h:8892-8896 | the lookahead moves by one token; it cannot be called after the end of the input or a scan error |
| Parsing.Parser.ParseInternal | include/json.h:8700-8889 | the recursive descent on the lexer gives the result and the remaining tokens of the descent on the token sequence |
| Parsing.Parser.ParseArray | include/json.h:8784-8837 | the loop over the elements, the same |
| Parsing.Parser.ParseMemberName | include/json.h:8741-8764 | the name of a member and the colon behind it |
| Parsing.Parser.ParseObject | include/json.h:8706-8782 | the loop over the members, the same |
| Parsing.Parser.Parse | include/json.h:8687-8696 | one value and then the end of the input |
| Parsing.ParseText | include/json.h:8687-8696 | parsing a string is parsing its token sequence |
| Parsing.TextAccepted | include/json.h:8687-8889 | a text is accepted exactly when its tokens, up to the end of the input, derive from the grammar, as the value derived |
| Faults.FirstFaultThrown | include/json.h:8392-8420 | a text that is JSON but for what its strings mean: it is parsed exactly when every string can be decoded, and otherwise throws what the first that cannot throws |
| Printing.Dump | include/json.h:6126-6334 | the recursion appends exactly the serialization to the stream, compact or pretty; the unsigned indentation returns to its value |
| Printing.DumpText | include/json.h:2161-2175 | the public `dump`, for compact output and any indentation |
| Layout.LaidOut | include/json.h:6126-6334 | a reader that knows no values accepts every printed text: compact text has no blanks outside strings; in pretty text every element, member and closing bracket has its own line, indented by the step for every open bracket |
| RoundTrip.PrintParseRoundTrip | include/json.h:6126-6334 | for every value without floats and any indentation, parsing the output of `dump` succeeds with a value equal under `operator==` |
| RoundTrip.PrintReads | include/json.h:6126-6334 | the printed text reads as the tokens of the derivation, whatever follows |
| RoundTrip.CanonEqual | include/json.h:5406-5485 | the value read back, in which integers from 0 on are unsigned, is equal to the one printed |
| Pointer.ReplaceSubstring | include/json.h:9309-9321 | the loop is leftmost non-overlapping replacement, also when the replacement contains the pattern, and terminates |
| Pointer.ReplaceByPieces | include/json.h:9309-9321 | replacement joins, with the new text, the pieces that the old text joins to the string |
| Pointer.PiecesHaveNone | include/json.h:9309-9321 | no piece contains the pattern |
| Pointer.EscapeIsEncoding | include/json.h:9365-9373 | the two passes "~" to "~0", "/" to "~1" are the encoding of section 3 of RFC 6901 |
| Pointer.EncodingBytes | include/json.h:9365-9373 | 0x7E becomes 7E 30, 0x2F becomes 7E 31, every other byte stays; each token has a slash in front |
| Pointer.UnescapeIsDecoding | include/json.h:9281-9286 | the two passes "~1" to "/", "~0" to "~" are one decoding pass on properly escaped tokens |
| Pointer.EncodedDecodes | include/json.h:9365-9373 | decoding an encoded token gives the token back |
| Pointer.DecodedEncodes | include/json.h:9281-9286 | encoding a decoded token gives the token back |
| Pointer.SplitJoin | include/json.h:9230-9292 | splitting the joined form of any token list gives that list |
| Pointer.JoinSplit | include/json.h:9230-9292 | joining the tokens of any pointer string gives that string |
| Pointer.SplitAccepts | include/json.h:9230-9292 | `split` accepts exactly the pointers of section 3 of RFC 6901 |
| Pointer.CheckEscapes | include/json.h:9264-9280 | the check loop accepts exactly the properly escaped tokens |
| Pointer.SplitPointer | include/json.h:9230-9292 | the loop over the slashes gives the token list, or the exception |
| Access.FillTo | include/json.h:3302-3306 | the loop of `operator[]` fills up with null values |
| Access.GetAndCreate | include/json.h:8976-9030 | the loop returns a place such that assigning any value through it changes the document as specified, or the exception |
| Access.Lookup | include/json.h:9185-9227 | the loop of `get_checked` gives the value at the path, or the exception |
| Access.SetThenGet | include/json.h:8976-9030 | what was assigned is found again by checked lookup if and only if no array index on the way has a leading zero |
| Access.LeadingZeroLost | include/json.h:9112-9116 | assigning to [null] through "/00" works, looking "/00" up is an error |
| Resolution.StoIExactly | include/json.h:9011 | a token is read as an index if and only if it is spaces, an optional sign and digits whose number is an `int`, with anything behind them |
| Resolution.LookupExactly | include/json.h:9185-9227 | for all valid values and paths: checked lookup finds a value if and only if the path leads to it, entry by entry and element by element, and throws an exception if and only if a token on the way is refused with it |
| Resolution.CanonicalStep | include/json.h:9194-9217 | a canonical index leads to the element of that number below the size; otherwise what is thrown |
| Resolution.AssignExactly | include/json.h:8976-9030 | an assignment throws if and only if a token on the way meets a primitive value other than null, or in an array is no number from 0 on; all else is created |
| Access.SetKeepsOthers | include/json.h:8976-9030 | with canonical indices, every pointer that resolved before and is neither prefix nor extension of the assigned one resolves to the same value |
| Access.IndexOfDecimal | include/json.h:9011 | the index that `std::to_string` prints is the index `std::stoi` reads, up to 2^31 - 1 |
| Flatten.FlattenInto | include/json.h:9330-9386 | the recursion on the result object, with its loops and its key escaping, adds the specified entries |
| Flatten.FlattenValue | include/json.h:9455-9460 | the public `flatten` |
| Flatten.FlattenedLeaves | include/json.h:9330-9386 | the entries are sorted, keyed by pointers, primitive, and exactly the leaves: looking up a path finds the leaf there, or nothing |
| Flatten.FlattenAgrees | include/json.h:9185-9227 | looking up the pointer of every entry gives the leaf it was written for (an empty container for null), if and only if no array has more than 2^31 elements |
| Unflatten.UnflattenValue | include/json.h:9393-9419 | the loop over the entries, with its checks, is the replay of the assignments |
| Unflatten.UnflattenThrows | include/json.h:9393-9419 | `unflatten` throws if and only if the value is no object, or some entry is not primitive, has a key that is no pointer, or is blocked by what the entries in front of it built; the exception is that of the first |
| Unflatten.UnflattenFlattenEqual | include/json.h:9463-9492 | `j == j.flatten().unflatten()` under `operator==`, for every value without floats if and only if it is restorable |
| Unflatten.UnflattenFlatten | include/json.h:9463-9492 | for every value, floats included, unflattening what was flattened gives the very value back if and only if it is restorable |
| Unflatten.Restores | include/json.h:9393-9419 | the same for the leaves of any value in pointer order, by induction over the value |
| Unflatten.ArrayZeroFirst | include/json.h:8985-8998 | index 0 always comes first among the pointers of an array |
| Unflatten.ObjectZeroFirst | include/json.h:8985-8998 | the first pointer of an object leads through key "0" exactly when that key precedes all others |
| Unflatten.ArrayReplay | include/json.h:8976-9030 | assignments in any order build every element as its own assignments do, with the gaps filled |
| Unflatten.ObjectReplay | include/json.h:8976-9030 | assignments build every member as its own assignments do |
| Unflatten.KeyZeroLost | include/json.h:9475-9478 | {"0": null} comes back as [null], which is not equal |
| Pool.StepKeeps | cci_daemon/src/procs/proc_ace_thread_pool.cpp:31-106 | the invariant is kept by every step of every thread |
| Pool.Reachable | cci_daemon/src/procs/proc_ace_thread_pool.cpp:31-106 | the invariant holds in every state of every run |
| Pool.Ownership | cci_daemon/src/procs/proc_ace_handler.cpp:264-313 | in every state of every run a live handler is registered, in the reactor thread, queued or held, in exactly one place; it is destroyed at most once and then nowhere; no two workers process it |
| Pool.OwnershipStep | cci_daemon/src/procs/proc_ace_handler.cpp:264-295 | every step conserves handlers: places plus destructions of each stay one |
| Pool.KeptAlive | cci_daemon/src/procs/proc_ace_handler.cpp:283-294 | when `process` goes well the handler is registered again and alive, and nothing is destroyed |
| Pool.ClosedForGood | cci_daemon/src/procs/proc_ace_thread_pool.cpp:94-97 | when it fails the handler is destroyed, once, and nowhere any more |
| Pool.DestroyedByFailure | cci_daemon/src/procs/proc_ace_thread_pool.cpp:94-97 | over any run, a handler is destroyed if and only if at some step `process` failed on it |
| Pool.AllExitExactly | cci_daemon/src/procs/proc_ace_thread_pool.cpp:31-47 | when nothing moves any more after `stop` was called, all workers have left if and only if the counter it read was the number of workers |
| Pool.StopReturns | cci_daemon/src/procs/proc_ace_thread_pool.cpp:31-47 | if all workers had entered, `stop` returns only after they took, in order, all that was enqueued up to the last of one null block per worker, whatever else is enqueued |
| Pool.ReturnedEmpty | cci_daemon/src/procs/proc_ace_thread_pool.cpp:38-43 | then all workers have left and the counter stays at zero |
| Pool.Shutdown | cci_daemon/src/procs/proc_ace_thread_pool.cpp:31-106 | with a quiet reactor every shutdown that cannot go on has dispatched each queued handler once and in order; each worker took exactly one null block, the queue is empty and all workers are done |
| Pool.InternalRunEnds | cci_daemon/src/procs/proc_ace_thread_pool.cpp:72-106 | a measure bounds the length of every run of workers and `stop` |
| Pool.LateWorkerStays | cci_daemon/src/procs/proc_ace_thread_pool.cpp:34-36 | a run in which `stop` returns and a worker that started late waits for ever |
| Daemonize.Process.Run | cci_daemon/src/core/cci_daemonize.cpp:11-123 | returns -1 exactly when a fork, setsid, open or dup2 fails; the parents exit; on 0 the process is no session leader, its descriptors below the limit are closed but for the standard streams, which are /dev/null unless that is flagged off |
| Daemonize.Process.Round | cci_daemon/src/core/cci_daemonize.cpp:17-117 | one pass of the switch is one step of the machine |
| Daemonize.Process.CloseAll | cci_daemon/src/core/cci_daemonize.cpp:81-84 | the loop closes every descriptor below the limit and no other |
| Daemonize.DaemonDescriptors | cci_daemon/src/core/cci_daemonize.cpp:76-101 | in the daemon every descriptor below `openMax`, or below 8192 when that is -1, is closed but for the standard streams; those beyond stay as they were |
| Daemonize.FlagBits | include/cci_daemonize.h:49-57 | bits 1, 2, 4 and 8 are no-chdir, no-close, no-reopen and no-umask, each alone |
| Daemonize.Process.Reopen | cci_daemon/src/core/cci_daemonize.cpp:95-101 | `open` gives descriptor 0, since it was just closed, and the others are duplicated from it |
| Daemonize.TerminatesExactly | cci_daemon/src/core/cci_daemonize.cpp:15-120 | the loop terminates if and only if the files are to be closed or an earlier step ends it |
| Daemonize.SpinsForEver | cci_daemon/src/core/cci_daemonize.cpp:76-89 | with `bd_no_close_files` alone and a kernel that fails nothing, the run never ends |
| Daemonize.ProgressStep | cci_daemon/src/core/cci_daemonize.cpp:17-117 | what is known of the process at each step is kept by the next |

## Left out

- Floating-point conversion, printing and comparison: they belong to the C library. A float is an opaque leaf named by its
  literal; printing and comparison are stated for values without floats.
- Lexing.Lexer.GetNumber: a float is left as its literal, and the precision and exponent bits kept with it are absent.
- Printing.Dump: values with floats, which are printed by `snprintf`.
- Layout.LaidOut: values with floats.
- Reading from a stream (`yyfill`), the parser callback, and the text of exceptions; their kind is modelled.
- `get_number` on the magnitude 2^63 with a minus sign: the negation of `INT64_MIN` is taken to be itself.
- JSON iterators, conversions, allocation and moves, and `get_unchecked`.
- Access.GetAndCreate: the pointer into the document is modelled as the steps from the root to the place; aliasing of the
  document by other references is not. A negative index, which would append null values until memory or the size limit
  of a vector ends it with an exception, is an exception here at once.
- Access.Lookup: a negative index, which the cast to `size_t` makes huge, is out of range here as there.
- Unflatten.UnflattenFlattenEqual: values with floats, whose `operator==` is that of `double`.
- Pool.LateWorkerStays: one call of `stop`; a second call would post a block for the worker that stayed.
- Printing.DumpText: values with floats. `dump` is one recursive function; the model has a method for each of its loops.
- Pool: a failed `putq` or `getq`, thread cancellation, a failed registration with the reactor and the idle timer, which
  may destroy a handler that a worker holds.
- Pool: handlers in the modes without a thread pool.
- Daemonize.Process.Run: is stated for the inputs on which the loop terminates; `TerminatesExactly` says which.
- Daemonize: ids are assumed to be fresh as POSIX promises; the process tree is followed along the process that goes on.
- The session protocol (`process`, `perform`, `parse_command`, `on_login`), whose outcomes are steps of the pool.
- The `auth_mgr_*` files, which repeat the `proc_*` files; plugins, pid files, logging, configuration.
