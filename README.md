# MorseCraft conversion engine, modelled in Dafny

MorseCraft is a Qt desktop tool that turns text into International Morse code
and back. This project models the engine inside its `MainWindow` class, without
the widgets:

- the forward symbol table (A–Z, 0–9 and the space mapped to `"/"`) and the
  reverse table built by inverting it;
- the binary code trie (dot = left edge, dash = right edge), its construction
  and its pre-order listing;
- the encoder `textToMorse` and the decoder `morseToText`;
- the character frequency count `logFrequency`;
- the member state the engine updates in place: the history list, the FIFO
  conversion queue drained by `processQueue`, the set of codes seen and the
  frequency map.

Files, one module each:

- `strings.dfy` (`Strings`): the QString operations the engine relies on:
  `toUpper`, `trimmed`, `split(" ")`, and the two ways of gluing tokens.
- `symbol_table.dfy` (`SymbolTable`): the 37-entry table and its properties.
- `code_trie.dfy` (`CodeTrie`): the trie as an inductive datatype (`Nil` is a
  null child pointer), insertion along a code, and what a built trie holds.
- `converter.dfy` (`Converter`): what the encoder, decoder and frequency
  count compute, as functions of the tables, with their properties.
- `main_window.dfy` (`Window`): class `MainWindow` with the source's member
  state and methods. Each method carries the loops of the source and is proved
  against the functions of `Converter` and `CodeTrie`. The object invariant
  `Valid()` holds between slot invocations.

Three behaviours of the code are easy to miss, and the model keeps them:

- Decoding the empty string gives one null character, not the empty string.
  `split(" ")` yields one empty piece, and that piece is not a code.
- The separator's code `"/"` is not left out of the trie. Its walk takes no
  edge, so the root's value becomes `" "`, and the pre-order listing starts
  with it.
- The listing therefore holds 37 characters, not 36.

## Model

| member | source | states |
|---|---|---|
| SymbolTable.MorseTable | mainwindow.cpp:70-106 | the 37 entries of `initMorseMap`; no ensures of its own: TableKeys, TableCodes and TableInjective state its properties |
| SymbolTable.TableKeys | mainwindow.cpp:68-107 | the forward table has exactly 37 keys: A–Z, 0–9 and the space |
| SymbolTable.TableCodes | mainwindow.cpp:70-106 | every letter or figure code has 1–5 symbols, each a dot or a dash; the space maps to "/" and nothing else does |
| SymbolTable.TableInjective | mainwindow.cpp:70-106 | the 37 codes are pairwise distinct |
| SymbolTable.TableRoundTrip | mainwindow.cpp:109-114 | for any inverse of the table, reverse[forward[c]] == c for every key and forward[reverse[s]] == s for every code |
| Strings.Upper | mainwindow.cpp:153 | the upper-cased string has the same length, and each character is the upper-cased character at that position (the same fold `logFrequency` applies at line 197) |
| Strings.Trimmed | mainwindow.cpp:162 | the result is no longer than the input and is empty or neither begins nor ends with whitespace; TrimmedInfix states that it is the input with only its leading and trailing whitespace removed |
| Strings.TrimStartFacts | mainwindow.cpp:162 | removing leading whitespace keeps a suffix of the input that is empty or does not begin with whitespace, and every character dropped in front of it is whitespace |
| Strings.TrimEndFacts | mainwindow.cpp:162 | removing trailing whitespace keeps a prefix of the input that is empty or does not end with whitespace, and every character dropped after it is whitespace |
| Strings.TrimmedInfix | mainwindow.cpp:162 | `trimmed` returns one contiguous slice of the input, and every character in front of it and after it is whitespace, so only whitespace at the two ends is removed and the middle is kept |
| Strings.Split | mainwindow.cpp:168 | `split(" ")` keeps empty pieces: one piece more than there are spaces, and no piece contains a space |
| Strings.SplitJoin | mainwindow.cpp:168 | splitting a space-joined non-empty list of space-free tokens gives the list back |
| Strings.JoinSplit | mainwindow.cpp:168 | joining the pieces with single spaces gives the string back |
| Strings.TrimmedSpaced | mainwindow.cpp:156-162 | trimming "token + space" repeated removes exactly the trailing space, when no token is empty or holds whitespace |
| CodeTrie.NewNode | mainwindow.h:43 | a new node holds the given value and has null dot and dash children |
| CodeTrie.Insert | mainwindow.cpp:120-135 | the walk from an existing node gives a node again; InsertValueAt and InsertCommute state what it stores |
| CodeTrie.Labels | mainwindow.cpp:139-147 | the pre-order listing holds no empty value; SpacedLabels, ListingHead and InsertKeysLabels state its order and contents |
| CodeTrie.InsertKeys | mainwindow.cpp:119-136 | inserting every entry of a key set, in an arbitrary order, from a fresh root gives a node; InsertKeysLast, InsertKeysValueAt, InsertKeysLabels and InsertKeysHeight state what it holds |
| CodeTrie.InsertValueAt | mainwindow.cpp:120-135 | after one insertion, codes with the inserted code's dot/dash path lead to the new value; every other code leads to what it led to before |
| CodeTrie.InsertCommute | mainwindow.cpp:119-136 | two insertions along different paths give the same trie in either order |
| CodeTrie.InsertKeysLast | mainwindow.cpp:119-136 | with pairwise different paths, any entry can be the one inserted last: the built trie does not depend on the visiting order |
| CodeTrie.InsertKeysValueAt | mainwindow.cpp:116-137 | in the built trie each key's code leads to a node holding that key; a path no key's code takes holds no value |
| CodeTrie.InsertKeysLabels | mainwindow.cpp:116-137 | the non-empty values of the built trie are the keys, each exactly once |
| CodeTrie.InsertKeysHeight | mainwindow.cpp:122-133 | the built trie has at most one level more than its longest code has symbols |
| Converter.Encode | mainwindow.cpp:150-163 | what `textToMorse` returns; no ensures of its own: EncodeJoins, EncodeSplits, EncodeEmpty and RoundTrip state its properties |
| Converter.EncodeJoins | mainwindow.cpp:150-163 | the encoder's output is the tokens separated by single spaces, with no trailing space |
| Converter.EncodeSplits | mainwindow.cpp:150-163 | the output of a non-empty text splits into exactly one token per character, the code if the upper-cased character has one and "/" otherwise; it has one space fewer than the text has characters |
| Converter.EncodeEmpty | mainwindow.cpp:150-163 | the empty text encodes to the empty string |
| Converter.EncodeSos | mainwindow.cpp:150-163 | "SOS" and "sos" encode to "... --- ..." |
| Converter.EncodeHelloWorld | mainwindow.cpp:153-160 | "HELLO WORLD" yields the "/" token exactly once, at its space |
| Converter.SeparatorToken | mainwindow.cpp:155-160 | with the table, a character's token is "/" exactly when the character is a space or has no entry |
| Converter.UnknownIsSeparator | mainwindow.cpp:158-159 | a character outside the table encodes to "/", exactly as a space does |
| Converter.Decode | mainwindow.cpp:165-180 | the decoder emits one character per piece, so its output has one character more than the input has spaces |
| Converter.SeparatorBranchUnreachable | mainwindow.cpp:170-177 | the reverse table already maps "/" to a space, so the explicit `token == "/"` branch is never taken |
| Converter.DecodeEmpty | mainwindow.cpp:168-176 | decoding "" yields a single null character |
| Converter.DecodeSos | mainwindow.cpp:165-180 | "... --- ..." decodes to "SOS" |
| Converter.RoundTrip | mainwindow.cpp:150-180 | decoding the encoding of a non-empty text gives the upper-cased text, with each character outside the table turned into a space |
| Converter.RoundTripTableText | mainwindow.cpp:150-180 | for non-empty text of letters, figures and spaces, decoding its encoding gives the upper-cased text |
| Converter.CodesUsed | mainwindow.cpp:154-159 | the codes recorded while encoding are table codes |
| Converter.SeparatorRecorded | mainwindow.cpp:154-159 | with the table, "/" is recorded exactly when the text holds a space, never for an unknown character |
| Converter.Frequencies | mainwindow.cpp:195-201 | what `logFrequency` leaves in the map: only characters with a table entry are keys, each with a count of at least one; FrequencyCounts states the exact counts |
| Converter.Counts | mainwindow.cpp:197-201 | no ensures of its own: CountsStep states how one more character changes it, and FrequencyCounts what it holds for a whole text |
| Converter.CountsStep | mainwindow.cpp:197-200 | one more character bumps its own count, from zero if absent, when it has a table entry, and changes nothing otherwise |
| Converter.FrequencyCounts | mainwindow.cpp:195-201 | the keys are the upper-cased characters with a table entry, each mapped to its number of occurrences (at least one); the counts are the multiplicities of the recognised characters, whose total is at most the text length |
| Window.TablePathsDistinct | mainwindow.cpp:70-106 | no two table entries walk the same trie path |
| Window.BuiltTrieValues | mainwindow.cpp:116-137 | in the built trie each code leads to a node holding its character |
| Window.BuiltTrieRoot | mainwindow.cpp:118-135 | the separator's "/" takes no edge, so the root of the built trie holds " " |
| Window.BuiltTrieLabels | mainwindow.cpp:139-147 | the pre-order listing of the built trie starts with " " and holds each of the 37 characters exactly once and nothing else |
| Window.BuiltTrieHeight | mainwindow.h:39-44 | the built trie has at most six levels, that is at most five edges on any path |
| Window.MainWindow.constructor | mainwindow.cpp:15-29 | states the state after construction only: the object invariant holds (the two tables and the built trie are in place), the history is the loaded lines, and the set and frequency map are empty. That the root is null until the trie is built is not part of this contract; it follows from the frames of InitMorseMap and InitializeReverseMorseCodeMap, which leave the root alone, and from BuildMorseTree's `ensures morseTreeRoot.Node?` |
| Window.MainWindow.InitMorseMap | mainwindow.cpp:68-107 | the forward map becomes its old entries overwritten by the 37 table entries |
| Window.MainWindow.InitializeReverseMorseCodeMap | mainwindow.cpp:109-114 | in any visiting order, every code becomes a key that leads back to a character with that code, and other keys are untouched; with distinct codes each code maps back to its own character |
| Window.MainWindow.BuildMorseTree | mainwindow.cpp:116-137 | a root is allocated; in any visiting order, with distinct paths, the trie is the canonical insertion of every entry |
| Window.MainWindow.TraverseMorseTree | mainwindow.cpp:139-148 | appends each non-empty value in pre-order (node, dot subtree, dash subtree), each followed by one space |
| Window.MainWindow.TextToMorse | mainwindow.cpp:150-163 | returns the encoding of the text; the set of codes seen grows by exactly the codes of the recognised characters |
| Window.MainWindow.MorseToText | mainwindow.cpp:165-180 | returns the decoding of the Morse text against the reverse map |
| Window.MainWindow.ProcessQueue | mainwindow.cpp:182-191 | empties the queue; returns what the list widget gains, the encoding of each queued text in FIFO order; the history gains the same entries after its earlier ones, and the set of codes seen grows by their codes |
| Window.MainWindow.LogFrequency | mainwindow.cpp:193-201 | the frequency map is rebuilt from scratch: it equals the counts of this text alone |
| Window.MainWindow.LoadHistory | mainwindow.cpp:219-230 | the history gains the loaded lines, in order, after its earlier entries |
| Window.MainWindow.SubmitText | mainwindow.cpp:41-47 | returns the text as the entry the list widget gains; the same text is appended to the history and the frequency map becomes its counts |
| Window.MainWindow.ConvertText | mainwindow.cpp:49-58 | an empty text shows nothing and changes nothing; otherwise it returns its encoding as the one entry the list widget gains, the history gains exactly that entry, and the set of codes seen grows by its codes |
| Window.MainWindow.DecodeText | mainwindow.cpp:60-66 | returns the decoding of the Morse text and appends the Morse text itself to the history |

## Left out

- Qt UI wiring is not modelled: `setupUi`, the `connect` calls, the widgets themselves, reading and clearing the line edits. Each slot takes the text its line edit would hold as a parameter and returns the entries its list widget would gain through `addItem`.
- File I/O is not modelled. `saveHistory` is left out entirely. `loadHistory` is modelled only as appending lines it is given; opening and reading `history.txt`, and a missing file, are outside the model.
- `printHistory` and all `qDebug` output are left out; they have no behavioural content.
- Upper-casing is an ASCII fold of `a`–`z` only. `QString::toUpper` also folds non-ASCII letters and can change the string's length; that is not modelled.
- Strings are sequences of Unicode scalar values, not UTF-16 `QChar`s.
- `trimmed()` is modelled with ASCII whitespace, U+0085 and U+00A0 only, not every Unicode separator. Encoder output never holds whitespace besides its separating spaces, so this does not change any result.
- Raw pointers, the leaked nodes of an earlier trie, and aliasing are not modelled. The trie is an inductive value, and `Nil` plays the null pointer.
- The pointer walk inside `buildMorseTree` is modelled by the recursive function `Insert`, not as a loop over a moving pointer. The outer loop over the map stays a method loop.
- `unordered_map` iteration order is modelled as an arbitrary choice of the next key.
- Window.MainWindow.BuildMorseTree: when two codes walk the same path, the result depends on the visiting order. The contract then states only that a root exists. The fixed table has distinct paths (Window.TablePathsDistinct).
- `int` overflow of a frequency count is not modelled: counts are unbounded integers.
- `std::set` and `std::map` ordering is not modelled. The set of codes seen is a `set` and the frequency map a `map`, and the model never iterates over them.
