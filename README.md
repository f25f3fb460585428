# Sequoia core, modelled in Dafny

Sequoia is a Windows web browser whose tabs form a tree. The tree is kept in
a SQLite database and shown in a sidebar written in JavaScript. This project
models the bookkeeping at its centre and proves properties of the model:

- **The sidebar scripts.**
  - `src/win32app/shell.js` keeps a record per tab id and a tree of nested lists sorted by position key. It applies update batches in two passes and plans drag-and-drop moves.
  - `src/res/shell.js` is the older revision. It links siblings through prev/next ids and inserts them by a cascade.
- **Bifractor position keys** (`src/util/bifractor.*`): byte strings under lexicographic order, with a constructor that picks a key strictly between two others.
- **Projection of the tab graph and its diff** (`src/win32app/tabs.cpp`, `src/model/tabs.cpp`, `src/tabs.cpp`). The expanded part of the graph is flattened into a table of tabs with flag bits, and two such tables are diffed into the messages the sidebar receives.
- **Model-layer bookkeeping.**
  - Sibling ordering of edges (`src/model/internal/edge.cpp`).
  - The activity table and its three indices (`src/model/internal/activity.cpp`).
  - The legacy doubly linked sibling lists with subtree counts (`src/data.cpp`).
- **Utilities.**
  - The JSON parser and serializer (`json/json.cpp`).
  - Hex and URL helpers (`src/util/text.cpp`) and the x31 string hash (`src/util/hash.h`).
  - Command-line parsing (`src/win32app/main.cpp`) and the weak-pointer registry (`src/util/weak.cpp`).
  - Activity eviction and the address-or-search decision (`src/win32app/activities.cpp`).

Each core file is one module. Code that updates state in place is a class
with `modifies` frames, or a method with loops, proved against a
specification function. Code that computes values is functions and lemmas. The JSON texts of
`json/json_test.cpp`, and one text for each number form `wcstod` reads,
are lemmas in a module of their own, JsonTexts.
The database, the WebView, the DOM and the message channel are values
passed in or returned: a map from list owner to a sequence of children
stands for the DOM, and the posted messages are returned.

## Model

| member | source | states |
|---|---|---|
| Hash.Step | src/util/hash.h:9 | one step `(h<<5) - h + c` in 64-bit arithmetic equals `31*h + c` modulo 2^64 |
| Hash.HashRange | src/util/hash.h:15-22 | the range overload's loop computes the left fold X31 over every character; the empty string hashes to 0 |
| Hash.HashPointer | src/util/hash.h:5-12 | the pointer overload's loop stops at the first NUL and computes X31 of the prefix before it |
| Hash.HashSnoc | src/util/hash.h:9 | appending a character c maps the hash h to (31*h + c) mod 2^64 |
| Hash.HashAppend | src/util/hash.h:15-22 | the hash of s+t is 31^|t| times the hash of s plus the hash of t, mod 2^64 |
| Hash.PointerHashIsPrefixHash | src/util/hash.h:5-22 | on a buffer p, NUL, rest, both overloads agree: the pointer form hashes exactly p |
| Hash.NulIndex | src/util/hash.h:8 | the pointer loop's stopping index holds NUL and no earlier character is NUL |
| Text.ToHexDigit | src/util/text.cpp:28-39 | a nybble below 16 becomes '0'..'9' exactly when it is below 10, otherwise 'A'..'F' |
| Text.FromHexDigit | src/util/text.cpp:41-70 | a digit of either case gives its value below 16; exactly the non-hex characters give -1 |
| Text.HexDigitRoundTrip | src/util/text.cpp:28-70 | from_hex_digit(to_hex_digit(n)) == n for every n < 16 |
| Text.HexDigitCanonical | src/util/text.cpp:28-70 | to_hex_digit(from_hex_digit(c)) is c for upper-case digits and c in upper case for 'a'..'f' |
| Text.EscapeChar | src/util/text.cpp:75-88 | a space becomes '+', an unreserved character is copied, and a reserved one becomes the single char that sums '%' and two digits, always at least 0x80 |
| Text.EscapeUrl | src/util/text.cpp:72-91 | escape_url's loop writes exactly one character per input character, each the EscapeChar of the input's |
| Text.EscapedHasNoSeparators | src/util/text.cpp:72-91 | no space survives escape_url, and the only reserved character in its output is a '+' that came from a space |
| Text.EscapeUrlNotInjective | src/util/text.cpp:83-84 | '&' and the char 0x8D escape to the same character, so escape_url loses information |
| Text.PercentEscape | src/util/text.cpp:83-84 | the intended escape is three characters, '%' and then two hex digits that encode the byte |
| Text.EscapeUrlIntended | src/util/text.cpp:72-91 | the intended escaping never shortens its input |
| Text.UnescapeForm | src/util/text.cpp:72-91 | the form decoding that the intended escaping targets never lengthens its input |
| Text.EscapeUrlIntendedRoundTrip | src/util/text.cpp:72-91 | decoding the intended escaping of a '%'-free input gives the input back |
| Text.ByteOf | src/util/text.cpp:100 | two hex digit values make the byte high*16+low |
| Text.Utf8From | src/util/text.cpp:93-111 | the reference definition of make_url_utf8 from index i never yields more than the characters left |
| Text.MakeUrlUtf8 | src/util/text.cpp:93-111 | make_url_utf8's loop, with its skip of two indices, computes Utf8From from 0, so the output is never longer than the URL |
| Text.Utf8Unfold | src/util/text.cpp:96-108 | each loop step either appends the decoded byte and skips three characters, or copies one character |
| Text.Utf8NoPercent | src/util/text.cpp:93-111 | a URL without '%' comes back unchanged |
| Text.TrailingPercentKept | src/util/text.cpp:96 | a '%' with fewer than two characters after it is copied verbatim, along with what follows |
| Text.DecodesHighEscape | src/util/text.cpp:96-105 | the percent escape of a byte at or above 0x80 decodes to that byte |
| JsString.StrLessIrreflexive | src/win32app/shell.js:359 | the `<` comparison of position strings is irreflexive |
| JsString.StrLessTransitive | src/win32app/shell.js:359 | the comparison is transitive |
| JsString.StrLessTotal | src/win32app/shell.js:359 | any two distinct strings are ordered one way or the other |
| JsString.StrLessAsymmetric | src/win32app/shell.js:359 | no two strings are each less than the other |
| Weak.WeakRegistry.constructor | src/util/weak.cpp:7-9 | the registry starts with next_id 1 and no entries |
| Weak.WeakRegistry.Enregister | src/util/weak.cpp:14-19 | enregister stores the object under next_id, which is never already in use, returns that id and increments next_id |
| Weak.WeakRegistry.Deregister | src/util/weak.cpp:20-23 | deregister erases exactly that id and never rewinds next_id |
| Weak.WeakRegistry.Find | src/util/weak.cpp:24-29 | find yields non-null exactly for a registered id, and then the registered object |
| Weak.WeakPointable.constructor | src/util/weak.cpp:32 | a new object registers itself under a fresh id |
| Weak.WeakPointable.Destroy | src/util/weak.cpp:33 | the destructor deregisters the object's id and nothing else |
| Weak.WeakPtr.Get | src/util/weak.cpp:34-36 | a weak pointer reads as null for id 0, otherwise as get_strong_ptr(id), which is find(id) |
| Weak.FromPointer | src/util/weak.cpp:55-58 | a weak pointer built from an object holds its id, and one built from null holds 0 |
| Weak.PointerToRegistered | src/util/weak.cpp:57-59 | a weak pointer to a registered object yields that object |
| Weak.WeakPtrLifetime | src/util/weak.cpp:49-63 | a default weak pointer is false, one taken from a live object yields it, and it is false after the object is deleted |
| Weak.DistinctIds | src/util/weak.cpp:14-19 | two registrations receive different ids, and the first object stays findable |
| Bifractor.MemCmp | src/util/bifractor.cpp:76 | memcmp over n bytes is zero exactly when the prefixes agree, and its sign follows the order of the first differing byte |
| Bifractor.Compare | src/util/bifractor.cpp:75-79 | compare is negative, zero or positive exactly when a < b, a == b or b < a in byte order with a proper prefix first |
| Bifractor.CompareAgrees | src/util/bifractor.cpp:75-79 | the common-length prefix decides the order when the prefixes differ, and the sizes decide it otherwise |
| Bifractor.LessIrreflexive | src/util/bifractor.h:68-70 | no key is below itself |
| Bifractor.LessTransitive | src/util/bifractor.h:68-70 | the order is transitive |
| Bifractor.LessStrictTotalOrder | src/util/bifractor.h:68-83 | `<` is a strict total order on byte strings: irreflexive, transitive, asymmetric and total |
| Bifractor.Lt | src/util/bifractor.h:68-70 | operator< holds exactly when a is below b |
| Bifractor.Le | src/util/bifractor.h:71-73 | operator<= holds exactly when a is below or equal to b |
| Bifractor.Gt | src/util/bifractor.h:81-83 | operator> holds exactly when b is below a |
| Bifractor.Ge | src/util/bifractor.h:78-80 | operator>= holds exactly when b is below or equal to a |
| Bifractor.Eq | src/util/bifractor.h:74-77 | operator== (size test, then compare) is exactly equality of the byte strings |
| Bifractor.FromBool | src/util/bifractor.h:35-37 | Bifractor(false) is the single byte 00 and Bifractor(true) the single byte FF |
| Bifractor.ZeroIsMinimum | src/util/bifractor.h:35-37 | 00 is at or below every non-empty key |
| Bifractor.ZeroBelowOne | src/util/bifractor.cpp:94 | 0 < 1 |
| Bifractor.NumOrder | src/util/bifractor.cpp:29-53 | for keys of one length, the base-256 value decides the byte order, and equal values mean equal keys |
| Bifractor.Scan | src/util/bifractor.cpp:27-53 | the constructor's loop, from position i with its carries, stops with a prefix shorter than max(size)+1 or runs out |
| Bifractor.BisectAsWritten | src/util/bifractor.cpp:19-55 | the constructor as written, storing `middle` into a uint8, yields at most max(size)+1 bytes |
| Bifractor.BisectAsWrittenLeavesRange | src/util/bifractor.cpp:45-48 | 10 C8 and 11 80 at bias 0x80 bisect to 10 24, which lies below 10 C8: the truncation leaves the range |
| Bifractor.MiddleBetween | src/util/bifractor.cpp:44-47 | where the operands differ by 2 or more, the biased average, bumped when it meets either operand, lies strictly between them |
| Bifractor.ScanNone | src/util/bifractor.cpp:29-54 | the loop runs out, and the constructor throws, exactly when the operands padded with zero bytes agree |
| Bifractor.ScanSome | src/util/bifractor.cpp:29-51 | where the loop stops, the prefix and the middle value lie strictly between the padded operands |
| Bifractor.BisectBetween | src/util/bifractor.cpp:19-55 | the corrected bisection throws exactly on operands that agree once padded; otherwise it has at most max(size)+1 bytes and lies strictly between the operands (given high first, only with a non-zero bias) |
| Bifractor.Bisect | src/util/bifractor.cpp:19-55 | the constructor's loop, with the carry added into the prefix, computes BisectSpec: it throws exactly on padded-equal operands, else a key strictly between them |
| Bifractor.BisectStaysInUnit | src/util/bifractor.cpp:97-229 | bisecting between keys in [0, 1] gives a key strictly inside (0, 1), as the repeated-bisection tests require |
| Bifractor.HexOf | src/util/bifractor.cpp:9-17 | hex() has two characters per byte |
| Bifractor.HexOfAt | src/util/bifractor.cpp:12-15 | characters 2j and 2j+1 are the high and the low nybble of byte j |
| Bifractor.HexDigitMonotone | src/util/text.cpp:28-39 | to_hex_digit preserves the order of nybbles |
| Bifractor.HexOrder | src/util/bifractor.cpp:9-17 | comparing hex renderings as JavaScript strings agrees exactly with comparing the keys |
| Bifractor.HexOfNestedBisection | src/util/bifractor.cpp:230-234 | bisecting 0 and 1 gives 7F, bisecting 0 and that gives 3F, rendered "3F" |
| Bifractor.Slot.Constant | src/util/bifractor.h:35-37 | the bool constructor stores FromBool(one) |
| Bifractor.Slot.FromBuffer | src/util/bifractor.cpp:57-64 | the byte-pointer constructor's loop copies exactly size bytes of the buffer |
| Bifractor.Slot.Copy | src/util/bifractor.cpp:66-73 | the copy constructor reproduces the source's bytes |
| Bifractor.Slot.Move | src/util/bifractor.h:43-47 | the move constructor takes the bytes and leaves the source with size 0 |
| Bifractor.Slot.Assign | src/util/bifractor.h:53-62 | both assignment operators leave this equal to the source, and the source unchanged |
| Bifractor.Slot.Hex | src/util/bifractor.cpp:9-17 | hex()'s loop fills the string to HexOf of the bytes |
| Json.EscapeChar | json/json.cpp:198-208 | stringify copies a character other than `"` and `\`, or writes a backslash and a non-NUL letter that str() decodes back to it |
| Json.Stringify | json/json.cpp:186-235 | stringify never writes the empty text |
| Json.Get | json/json.cpp:67-70 | get() yields NUL at the end without moving, and otherwise the next character |
| Json.Ws | json/json.cpp:71-73 | ws() stops on the first character that is not whitespace, or at the end |
| Json.WsSkipsSpace | json/json.cpp:71-73 | every character ws() steps over is whitespace |
| Json.Step | json/json.cpp:127-130 | wcstod's automaton, one character at a time: an optional sign, then the decimal form, "0x" and the hexadecimal form, or INF, INFINITY, NAN and NAN(...) in either case; a form goes on only with a character that can belong to a number |
| Json.StepStart | json/json.cpp:127-130 | the first character, or the one after a sign: a digit, a point, or the first letter of INF or NAN in either case, and a second sign ends the scan |
| Json.StepDecimal | json/json.cpp:127-130 | the decimal form: digits, one point, then 'e' in either case with an optional sign and digits; a leading "0" followed by 'x' goes on to the hexadecimal form |
| Json.StepHex | json/json.cpp:127-130 | the hexadecimal form: hexadecimal digits, one point, then 'p' in either case with an optional sign and decimal digits |
| Json.StepWord | json/json.cpp:127-130 | the words INF, INFINITY and NAN letter by letter in either case, and after NAN a parenthesised run of letters, digits and '_' |
| Json.NumberEnd | json/json.cpp:127-130 | where wcstod stops: after the longest prefix that the automaton reads into a whole number, at the start itself when there is none, and always inside the text |
| Json.NumberChars | json/json.cpp:127-130 | every character wcstod reads can belong to a number |
| Json.ScanInf | json/json.cpp:127-130 | from the start or after a sign, INF in either case is read whole and is a whole number |
| Json.ScanInfinity | json/json.cpp:127-130 | after INF, the letters "inity" in either case are read too, and the number ends there |
| Json.ScanNan | json/json.cpp:127-130 | from the start or after a sign, NAN in either case is read whole and is a whole number |
| Json.ScanLocal | json/json.cpp:127-130 | for any automaton that stops on every character that cannot belong to a number, the scan reads as far in a text as in the part of it up to such a character |
| Json.NumberLocal | json/json.cpp:127-130 | wcstod reads as far at position i of a text as in the lexeme that stands there alone, when a character that cannot continue a number follows it |
| Json.ReadStr | json/json.cpp:74-95 | str() ends after the closing quote, inside the text |
| Json.Literal | json/json.cpp:99-116 | null, true and false are accepted exactly when every remaining letter matches, and then give their value |
| Json.ReadValue | json/json.cpp:96-172 | value() consumes only characters of the text |
| Json.ReadArray | json/json.cpp:134-149 | the array case ends after the closing bracket |
| Json.ReadObject | json/json.cpp:150-169 | the object case ends after the closing brace |
| Json.StrRound | json/json.cpp:74-95 | str() reads a NUL-free text back from its escaped form followed by a quote |
| Json.ValueRound | json/json.cpp:96-172 | wherever it stands in a text, value() reads back exactly the value stringify wrote |
| Json.ArrayRound | json/json.cpp:134-149 | the array loop reads back the elements stringify wrote, up to the closing bracket |
| Json.ObjectRound | json/json.cpp:150-169 | the object loop reads back the members stringify wrote, up to the closing brace |
| Json.NumberRound | json/json.cpp:117-130 | a number lexeme followed by a character that cannot continue it is read back whole |
| Json.ParseSpaced | json/json.cpp:173-178 | parse() takes back what stringify wrote, with whitespace before and after it |
| Json.ParseStringify | json/json_test.cpp:55-61 | parse(stringify(v)) == v, and so stringify(parse(t)) == t for every text t that stringify writes |
| Json.ParseTrailing | json/json.cpp:173-178 | parse() accepts a written value followed by more text exactly when that text is whitespace |
| Json.TrailingRejected | json/json.cpp:175-176 | a written value followed by anything but whitespace is a syntax error |
| Json.SpaceAfterCommaRejected | json/json.cpp:156-157 | an object with whitespace between a comma and the next key, such as `{"a":1, "b":2}`, is a syntax error |
| Json.UnicodeEscapeLiteral | json/json.cpp:80-88 | `\u` is taken as a plain 'u', so the string `"\u0041"` reads as the text u0041 and not as A |
| Json.UnterminatedString | json/json.cpp:76-94 | a string with no closing quote before the end is a syntax error |
| Json.CanonicalOf | json/json_test.cpp:55-61 | a text stringify writes for a value parses to that value and is written back unchanged |
| JsonTexts.LiteralTexts | json/json_test.cpp:66-68 | "null", "true" and "false" read back and are written out unchanged |
| JsonTexts.IntegerTexts | json/json_test.cpp:69-70 | "0" and "12343" read back and are written out unchanged |
| JsonTexts.FractionText | json/json_test.cpp:71 | "35.324" reads back and is written out unchanged |
| JsonTexts.NegativeText | json/json_test.cpp:72 | "-45.5" reads back and is written out unchanged |
| JsonTexts.ExponentText | json/json_test.cpp:73 | "1.3241e-54" reads back and is written out unchanged |
| JsonTexts.HexText | json/json.cpp:127-130 | wcstod reads the hexadecimal form, so "[0x10]" parses to an array holding the number 0x10 and is written out unchanged |
| JsonTexts.HexNeedsDigit | json/json.cpp:127-130 | "0x" without a hexadecimal digit is read as the number 0 with the 'x' left over, so parse() rejects it |
| JsonTexts.InfText | json/json.cpp:127-130 | "-inF" is a number: it reads back whole and is written out unchanged |
| JsonTexts.InfinityText | json/json.cpp:127-130 | "-Infinity" is a number: it reads back whole and is written out unchanged |
| JsonTexts.NanText | json/json.cpp:127-130 | "-nan(1)" is a number: it reads back whole and is written out unchanged |
| JsonTexts.StringText | json/json_test.cpp:74 | `"foo"` reads back and is written out unchanged |
| JsonTexts.ArrayTexts | json/json_test.cpp:76 | "[]" reads back and is written out unchanged |
| JsonTexts.ObjectTexts | json/json_test.cpp:78 | "{}" reads back and is written out unchanged |
| Json.EscapeAppend | json/json.cpp:198-208 | escaping distributes over concatenation |
| Json.ElemsSnoc | json/json.cpp:211-220 | appending an element appends a comma and its text |
| Json.MembersSnoc | json/json.cpp:221-232 | appending a member appends a comma and its text |
| JsonParser.Parser.constructor | json/json.cpp:182-184 | a parser starts at the beginning of its text |
| JsonParser.Parser.Get | json/json.cpp:67-70 | get() advances the cursor as Json.Get says |
| JsonParser.Parser.Ws | json/json.cpp:71-73 | ws()'s loop moves the cursor to Json.Ws |
| JsonParser.Parser.Expect | json/json.cpp:100-115 | reading a literal's letters with get() succeeds exactly when the word stands at the cursor, and then steps over it |
| JsonParser.Parser.Str | json/json.cpp:74-95 | str()'s loop succeeds exactly when ReadStr does, with the same text and end |
| JsonParser.Parser.Value | json/json.cpp:96-172 | value() succeeds exactly when ReadValue does, with the same value and end |
| JsonParser.Parser.Array | json/json.cpp:134-149 | the array loop succeeds exactly when ReadArray does, with the same value and end |
| JsonParser.Parser.Object | json/json.cpp:150-169 | the object loop succeeds exactly when ReadObject does, with the same value and end |
| JsonParser.Parser.Parse | json/json.cpp:173-178 | parse() gives exactly Json.Parse of the text |
| JsonParser.ParseText | json/json.cpp:182-184 | json::parse(s) gives exactly Json.Parse(s), so the round-trip lemmas hold for it |
| JsonOps.QuoteString | json/json.cpp:195-210 | the string case's loop writes the quoted, escaped text |
| JsonOps.Stringify | json/json.cpp:186-235 | stringify's loops, with a comma before every element or member but the first, compute Json.Stringify |
| JsonOps.StringifyElems | json/json.cpp:211-220 | the array loop writes the elements separated by commas |
| JsonOps.StringifyMembers | json/json.cpp:221-232 | the object loop writes each key as a string, a colon and the value, separated by commas |
| JsonOps.Lookup | json/json.cpp:46-53 | a member with the key is found exactly when b has one |
| JsonOps.AsWrittenNotReflexive | json/json.cpp:44-57 | operator== as written finds the object {"x":null,"y":null} unequal to itself, while the intended equality holds |
| JsonOps.LookupUnique | json/json.cpp:46-53 | with unique keys, looking up the key of the k-th member finds that member |
| JsonOps.EqualReflexive | json/json.cpp:30-60 | the intended equality is reflexive on values whose objects have unique keys |
| JsonOps.AsWrittenAgrees | json/json.cpp:30-60 | operator== as written agrees with the intended equality whenever every object of the left value has at most one member |
| JsonOps.Equals | json/json.cpp:30-60 | the corrected operator==, its loops searching b for each key of a, computes the intended equality |
| JsonOps.Cell.constructor | json/json.h:35-44 | a cell holds the value it is built with |
| JsonOps.Cell.Move | json/json.cpp:11-20 | the move constructor takes over the payload and leaves the source null |
| Args.NameStart | src/win32app/main.cpp:39 | a name starts after two dashes exactly when the second character is '-', otherwise after one |
| Args.SepFrom | src/win32app/main.cpp:41-45 | the separator is the first '=' or ':' at or after the start, or the end of the argument |
| Args.StepAt | src/win32app/main.cpp:31-60 | one turn of the loop emits one result and moves on, switches to positional-only on "--", or throws for a missing value |
| Args.Positionals | src/win32app/main.cpp:33-59 | the positional results keep their argv order |
| Args.Nameds | src/win32app/main.cpp:52-55 | the named results keep their argv order |
| Args.PositionalsSnoc | src/win32app/main.cpp:33-59 | a new result is appended to exactly one of the two lists |
| Args.Arguments.constructor | src/win32app/main.cpp:25-26 | both global lists start empty |
| Args.Arguments.Push | src/win32app/main.cpp:33-59 | a result is appended to the list it belongs to and the other list is unchanged |
| Args.Arguments.ParseArgs | src/win32app/main.cpp:28-62 | parse_args's loop appends the positional and named results of Parse in argv order, and reports the throw exactly when Parse does |
| Args.ReadArgument | src/win32app/main.cpp:31-60 | the loop body takes the branch StepAt describes |
| Args.FindSep | src/win32app/main.cpp:41-45 | the inner loop finds SepFrom(arg, start) |
| Args.ScanEmit | src/win32app/main.cpp:30-61 | a result emitted at i moves from the pending part to the accumulated part |
| Args.ScanDoubleDash | src/win32app/main.cpp:35-37 | a first "--" gives no result and switches to positional-only |
| Args.ScanMissing | src/win32app/main.cpp:47-51 | a missing value ends the parse with the throw and no further result |
| Args.ScanSuffix | src/win32app/main.cpp:30-61 | the loop reads argv only from index i on |
| Args.ProgramNameSkipped | src/win32app/main.cpp:30 | argv[0] is skipped: whatever the program name, the results are those of the rest |
| Args.AllPositional | src/win32app/main.cpp:33 | every argument becomes a positional result, in order |
| Args.AfterDoubleDash | src/win32app/main.cpp:32-37 | after the first "--" every argument is positional, further "--" and dashed ones included, and nothing throws |
| Args.NoDashes | src/win32app/main.cpp:58-60 | with no dashed argument, every argument is positional, in order |
| Args.NamedArgument | src/win32app/main.cpp:38-56 | a dashed argument gives a name without separators, after one or two dashes; the value is the rest after the first '=' or ':', or else the next argument; or the parse throws |
| Args.MissingValueAtEnd | src/win32app/main.cpp:47-51 | the throw happens only for a dashed last argument, before any "--", with no '=' or ':' |
| Args.MissingValueExample | src/win32app/main.cpp:47-51 | a lone "-x" after the program name throws with no result |
| Args.AtMostOnePerArgument | src/win32app/main.cpp:30-61 | each argv entry gives at most one result |
| Activities.KeepLoaded | src/win32app/activities.cpp:178-188 | the kept set holds the new activity's own tab, every window's focused tab and the last visited tabs |
| Activities.Candidates | src/win32app/activities.cpp:192-196 | the candidates are exactly the registered tabs that are not kept and have been visited |
| Activities.VictimUnique | src/win32app/activities.cpp:189-204 | under the intended order the victim is unique, whatever the scan order |
| Activities.BetterTransitive | src/win32app/activities.cpp:197-200 | the intended victim order is transitive |
| Activities.VictimStep | src/win32app/activities.cpp:192-204 | one turn of the scan keeps the victim the best candidate among the tabs scanned so far, and none exactly when there are no candidates |
| TabTable.LeastOf | src/win32app/activities.cpp:192 | a non-empty set of tab ids has a least one, where the map's ascending scan goes next |
| Activities.ScanAdvance | src/win32app/activities.cpp:192 | moving the least unscanned id to the scanned ones keeps the scan in ascending order |
| Activities.Activity.constructor | src/win32app/activities.cpp:175-207 | a new activity is registered under its tab; with fewer than 80 activities before, nothing else changes; otherwise only candidates are unloaded, the others keep their activities, at least 80 remain, and more than 80 remain only when no candidate is left |
| Activities.Activity.ClickLink | src/win32app/activities.cpp:218-246 | click_link does what ClickActionFor says and records a created tab as the last created child |
| Activities.Activity.NavigateUrl | src/win32app/activities.cpp:302-310 | navigate_url returns the webview's answer and records the address as navigated_url only on success |
| Activities.Activity.NavigateSearch | src/win32app/activities.cpp:311-316 | navigate_search loads the escaped search URL, or aborts when it is refused |
| Activities.Activity.NavigateUrlOrSearch | src/win32app/activities.cpp:318-336 | navigate_url_or_search ends as NavigateOutcome says and records the loaded URL |
| Activities.Activities.constructor | src/win32app/activities.cpp:27 | activities_by_tab starts empty |
| Activities.Activities.ActivityForTab | src/win32app/activities.cpp:357-361 | activity_for_tab yields the tab's activity, or null exactly when the tab has none |
| Activities.Activities.Insert | src/win32app/activities.cpp:31-32 | the constructor's emplace registers the activity under its tab, which had none |
| Activities.Activities.Remove | src/win32app/activities.cpp:349-351 | the destructor erases exactly the activity's entry |
| Activities.Activities.EnsureActivityForTab | src/win32app/activities.cpp:363-369 | ensure_activity_for_tab returns the existing activity unchanged, or creates exactly one new one |
| Activities.Activities.FindVictim | src/win32app/activities.cpp:189-204 | the corrected scan finds no victim exactly when there is no candidate, and otherwise the best candidate: unstarred first, then earliest visited |
| Activities.Activities.EvictOld | src/win32app/activities.cpp:177-206 | the corrected eviction loop changes nothing at 80 activities or fewer; above 80 it unloads only candidates, never a better one than a candidate it keeps, leaves at least 80, and leaves more than 80 only when no candidate is left |
| Activities.ClickActionFor | src/win32app/activities.cpp:226-244 | only button 1 acts; a double click only focuses a non-zero last child; any other button-1 click creates a tab |
| Activities.ClickRelationsOneToOne | src/win32app/activities.cpp:232-243 | alt+shift, alt, shift and no modifier choose four different relations, LAST_CHILD exactly without modifiers |
| Activities.SearchUrl | src/win32app/activities.cpp:313 | the search URL is the DuckDuckGo prefix followed by escape_url of the text, one character per character |
| Activities.NavigateOutcome | src/win32app/activities.cpp:318-336 | without a webview only the URL is recorded; a navigation loads the address, "http://" plus it or the search URL, and only one the webview accepted |
| Activities.NavigationOrder | src/win32app/activities.cpp:321-331 | an accepted address wins; an address with a space or no '.' goes to the search; "http://" is used only for an address with a '.' and no space that was refused |
| Activities.SearchUrlHasNoSpace | src/win32app/activities.cpp:313 | a search URL never holds a space |
| Activities.VictimAsWritten | src/win32app/activities.cpp:189-204 | the scan as written yields 0 or a tab with data |
| Activities.AsWrittenUnloadsStarred | src/win32app/activities.cpp:197-200 | scanning tab 1 (unstarred, visited at 10) and tab 2 (starred, visited at 5), the code as written picks the starred tab 2, while the intended victim is tab 1 |
| Activities.EvictStepAsWritten | src/win32app/activities.cpp:205 | a turn of the loop as written never adds activities |
| Activities.NoVictimNoProgress | src/win32app/activities.cpp:190-206 | with more than 80 activities and no candidate, the victim stays 0, nothing is removed and the loop as written never ends |
| Activities.NoCandidateKeepsVictim | src/win32app/activities.cpp:192-204 | a scan over tabs that are not candidates keeps the victim it started with |
| Edge.Between | src/model/internal/edge.cpp:89-125 | the bisecting Bifractor constructor yields a key strictly between its two bounds |
| Edge.PositionAfter | src/model/internal/edge.cpp:87-94 | position_after lies above the target, below 1 and below the next sibling up when there is one |
| Edge.PositionBefore | src/model/internal/edge.cpp:110-117 | position_before lies below the target, above 0 and above the previous sibling down when there is one |
| Edge.FirstPosition | src/model/internal/edge.cpp:96-103 | the corrected first_position lies strictly between 0 and 1 and below the lowest child |
| Edge.LastPosition | src/model/internal/edge.cpp:119-126 | the corrected last_position lies strictly between 0 and 1 and above the highest child |
| Edge.FromBool | src/model/internal/edge.cpp:102 | the bool constructor of Bifractor gives 1 for true and 0 for false |
| Edge.ChildlessPositionIsOne | src/model/internal/edge.cpp:96-126 | as written, a node's first child (first or last) gets the key 1 itself, outside the open interval every other key lies in; the corrected keys lie below 1 |
| Edge.EdgeTable.constructor | src/model/internal/edge.cpp:128-148 | an empty table is valid and has touched nothing |
| Edge.EdgeTable.NearestAbove | src/model/internal/edge.cpp:82-86 | the query yields nothing exactly when no sibling lies above the bound, and otherwise the least sibling position above it |
| Edge.EdgeTable.NearestBelow | src/model/internal/edge.cpp:105-108 | the query yields nothing exactly when no sibling lies below the bound, and otherwise the greatest sibling position below it |
| Edge.EdgeTable.EdgesFromNode | src/model/internal/edge.cpp:44-55 | get_edges_from_node lists exactly the edges from the node, each once, in ascending position |
| Edge.EdgeTable.LastTrashedEdge | src/model/internal/edge.cpp:70-80 | get_last_trashed_edge yields 0 exactly when nothing is trashed, and otherwise an edge trashed no earlier than any other |
| Edge.EdgeTable.Insert | src/model/internal/edge.cpp:128-157 | create_edge stores the row under a fresh non-zero rowid with now as created_at, changes no other row and touches the new edge |
| Edge.EdgeTable.Save | src/model/internal/edge.cpp:128-148 | save of an existing row replaces exactly that row and touches it, keeping siblings' positions distinct |
| Edge.EdgeTable.CreateFirstChild | src/model/internal/edge.cpp:159-169 | create_first_child adds one edge opened from and placed under the parent, below every existing child, and changes nothing else |
| Edge.EdgeTable.CreateLastChild | src/model/internal/edge.cpp:171-181 | create_last_child adds one edge under the parent, above every existing child, and changes nothing else |
| Edge.EdgeTable.CreateNextSibling | src/model/internal/edge.cpp:183-194 | create_next_sibling adds one edge among the target's siblings, just above the target and below every sibling above it |
| Edge.EdgeTable.CreatePrevSibling | src/model/internal/edge.cpp:196-207 | create_prev_sibling adds one edge among the target's siblings, just below the target and above every sibling below it |
| Edge.EdgeTable.MoveFirstChild | src/model/internal/edge.cpp:209-215 | move_first_child changes only the edge's from_node and position, placing it below all of the parent's children |
| Edge.EdgeTable.MoveLastChild | src/model/internal/edge.cpp:217-223 | move_last_child changes only the edge's from_node and position, placing it above all of the parent's children |
| Edge.EdgeTable.MoveAfter | src/model/internal/edge.cpp:225-232 | move_after puts the edge among the target's siblings, between the target and the next sibling up |
| Edge.EdgeTable.MoveBefore | src/model/internal/edge.cpp:234-241 | move_before puts the edge among the target's siblings, between the previous sibling down and the target |
| Edge.EdgeTable.Trash | src/model/internal/edge.cpp:243-248 | trash sets exactly trashed_at of the edge and marks the edge updated |
| Edge.EdgeTable.Untrash | src/model/internal/edge.cpp:250-255 | untrash clears exactly trashed_at of the edge and marks the edge updated |
| ActivityIndex.NodelessEdge | src/model/internal/activity.cpp:77-79 | an activity is indexed by its edge exactly when it has an edge and no node |
| ActivityIndex.Saved | src/model/internal/activity.cpp:60-101 | after save the old_* fields mirror the current fields, and no other field changes |
| ActivityIndex.Owner | src/model/internal/activity.cpp:114-128 | an entry of an exact index names a live activity with that key |
| ActivityIndex.NoOwner | src/model/internal/activity.cpp:114-128 | a key missing from an exact index belongs to no activity |
| ActivityIndex.Reindex | src/model/internal/activity.cpp:66-89 | erasing the old key and emplacing a free new key keeps an index exact, and then emplace and assignment agree |
| ActivityIndex.Enter | src/model/internal/activity.cpp:31-40 | a new activity entered under a free key keeps an index exact |
| ActivityIndex.Drop | src/model/internal/activity.cpp:370-385 | erasing a deleted activity's key keeps an index exact |
| ActivityIndex.ClaimView | src/model/internal/activity.cpp:41-52 | when an activity takes a view held by another, clearing the holder's view and pointing by_view at the new one keeps by_view exact |
| ActivityIndex.LastChildWithUrl | src/model/internal/activity.cpp:289-306 | the backwards scan of the child edges finds the last child whose node has the URL, or reports that none has |
| ActivityIndex.UrlTarget | src/model/internal/activity.cpp:260-313 | url_changed stays exactly for the node's own URL, goes to the parent exactly when the parent has the URL, else to the last child with it, else to a new last child |
| ActivityIndex.Kicked | src/model/internal/activity.cpp:41-50 | the holder of the claimed view, if any, loses its view and old_view, and no activity is added or removed |
| ActivityIndex.CreateKeeps | src/model/internal/activity.cpp:25-58 | create keeps ids below next_id, every record saved and all three indices exact |
| ActivityIndex.SaveKeeps | src/model/internal/activity.cpp:60-101 | save (with create's view rule) keeps the table consistent when a changed node or nodeless edge is free |
| ActivityIndex.DeleteKeeps | src/model/internal/activity.cpp:370-385 | delete_activity keeps the table consistent |
| ActivityIndex.ReindexStep | src/model/internal/activity.cpp:68-89 | one index section of save erases the old entry and emplaces the new key, as Reindexed says |
| ActivityIndex.ClaimViewStep | src/model/internal/activity.cpp:41-99 | the view section erases the old entry, kicks out the new view's holder and points by_view at the activity |
| ActivityIndex.SaveStep | src/model/internal/activity.cpp:60-101 | the tables after save are consistent and are the re-indexed maps section by section |
| ActivityIndex.CreateStep | src/model/internal/activity.cpp:25-58 | the tables after create are consistent and hold next_id's saved record under each key it has |
| ActivityIndex.ByViewEmplaceIgnored | src/model/internal/activity.cpp:91-99 | as written, save of an activity taking a held view leaves by_view naming the old holder while both have the view, so by_view is no longer exact |
| ActivityIndex.ActivityModel.constructor | src/model/internal/activity.cpp:25-30 | the table starts empty with next_id 1 |
| ActivityIndex.ActivityModel.ActivityForEdge | src/model/internal/activity.cpp:114-138 | get_activity_for_edge finds the activity of the edge's to_node, or of the nodeless edge, and 0 exactly when there is none |
| ActivityIndex.ActivityModel.Create | src/model/internal/activity.cpp:25-58 | create gives the activity the fresh id next_id, increments next_id, indexes it and evicts the previous holder of its view |
| ActivityIndex.ActivityModel.Save | src/model/internal/activity.cpp:60-101 | save re-indexes an activity whose fields changed, erasing exactly the entries its old_* fields name; for the view index it follows the corrected rule, so a view already held by another activity passes to the saved one (see the Findings row for activity.cpp:91-99) |
| ActivityIndex.ActivityModel.FocusActivityForTab | src/model/internal/activity.cpp:150-175 | the node's activity takes the edge and view, or a new one loading from now is created; the activity on the node is marked updated; an edge without a node changes nothing; it re-indexes through the corrected Save, where the view's new holder replaces the old one (see the Findings row for activity.cpp:91-99) |
| ActivityIndex.ActivityModel.Reload | src/model/internal/activity.cpp:219-226 | reload sets reloading and a non-zero loading_at and leaves the indices alone |
| ActivityIndex.ActivityModel.FinishedLoading | src/model/internal/activity.cpp:236-246 | finished_loading clears loading_address, reloading and loading_at and leaves the indices alone |
| ActivityIndex.ActivityModel.DeleteActivity | src/model/internal/activity.cpp:370-385 | delete_activity removes the id from by_id and from every index its old_* fields name |
| ActivityIndex.ActivityModel.MoveActivity | src/model/internal/activity.cpp:248-258 | move_activity deletes another activity already on the node, then gives the activity the node and edge; both activities are marked updated |
| ActivityIndex.ActivityModel.UrlChanged | src/model/internal/activity.cpp:260-314 | url_changed gives a nodeless activity the URL's node, and otherwise moves it as UrlTarget says, deleting any activity already on the target node |
| TabTable.NotedAllSpec | src/data.cpp:59-72 | a pending list never holds an id twice, keeps what it held, and holds exactly the ids held before or noted since |
| TabTable.NotedAllAppend | src/data.cpp:59-65 | noting one list of ids after another is noting the two lists joined |
| TabTable.ChainUnfold | src/data.cpp:151-163 | the tabs change_child_count visits from a tab are that tab followed by those it visits from its parent |
| TabTable.ChainOfRoot | src/data.cpp:152 | from a parent <= 0 the walk visits nothing |
| TabTable.NotOwnAncestor | src/data.cpp:151-163 | a tab whose walk up ends is not among its own ancestors |
| TabTable.ChainDistinct | src/data.cpp:151-163 | the walk of change_child_count never visits a tab twice |
| TabTable.ChainAvoiding | src/data.cpp:187-197 | a walk that does not pass through a tab is the same whatever that tab's parent becomes |
| TabTable.SameTree | src/data.cpp:165-185 | writing prev, next or counts, but no parent, keeps every walk |
| TabTable.WithPrev | src/data.cpp:165-174 | set_prev's write changes only the prev of the row, and no parent |
| TabTable.WithNext | src/data.cpp:176-185 | set_next's write changes only the next of the row, and no parent |
| TabTable.WithParent | src/data.cpp:187-192 | set_parent's write changes only the parent of the row |
| TabTable.AddAlongStep | src/data.cpp:153-156 | one turn of the walk adds diff to one more tab not yet visited |
| TabTable.FirstRow | src/data.cpp:229-248 | the first row of a query is 0 for no match, and otherwise the least matching id |
| TabTable.Spliced | src/data.cpp:199-202 | remove_tab's relinking points the tab's prev forward to its next and its next back to its prev, and changes nothing else, the tab included |
| TabTable.RemovedTable | src/data.cpp:199-205 | remove_tab is the relinking, then the subtree size subtracted along the old parent's walk, then the tab parked under -1 |
| TabTable.RemovedSpec | src/data.cpp:199-205 | remove_tab splices the tab out of its sibling list, the old ancestors lose the subtree size, and the tab is parked under -1 with its links and count kept |
| TabTable.RemovedParking | src/data.cpp:187-205 | set_parent(id, -1) walks nothing; remove_tab notes the neighbours, the old ancestors and the tab, in that order |
| TabTable.PlacedBefore | src/data.cpp:209-218 | BEFORE puts the tab between the reference and its old prev under the reference's parent, whose walk gains the subtree size |
| TabTable.PlacedAfter | src/data.cpp:219-228 | AFTER puts the tab between the reference and its old next under the reference's parent, whose walk gains the subtree size |
| TabTable.PlacedFirstChild | src/data.cpp:229-240 | FIRST_CHILD makes the tab the head of the reference's open children, before the head the query finds, and the reference's walk gains the subtree size |
| TabTable.PlacedLastChild | src/data.cpp:241-252 | LAST_CHILD makes the tab the tail of the reference's open children, after the tail the query finds, and the reference's walk gains the subtree size |
| TabTable.PlacedTree | src/data.cpp:207-255 | whatever the relation, place_tab gives the tab its new parent and adds its subtree size to the new ancestors, and changes no other parent, count or closing time |
| TabTable.ParentRestored | src/data.cpp:316-334 | after remove_tab, giving the tab its old parent back walks the same ancestors as before |
| TabTable.ClosedSpec | src/data.cpp:316-334 | close_tab leaves a closed tab alone; otherwise it records the time and takes the tab out of its sibling list, and every parent and child_count stays as it was |
| TabTable.ClosedTable | src/data.cpp:316-334 | close_tab is remove_tab on the closed row followed by set_parent back to the old parent |
| TabTable.LoopNotRooted | src/data.cpp:151-163 | making a tab the child of a tab below it closes a loop that the walk from there never leaves |
| TabTable.MoveIntoOwnSubtreeNeverEnds | src/data.cpp:336-343 | as written, move_tab onto a new parent inside the tab's own subtree starts a change_child_count walk that never reaches a parent <= 0 |
| TabTable.MoveUnderOwnChild | src/data.cpp:336-343 | moving tab 1 to be the last child of its own child 2 is such a move |
| TabTable.MovablePlaceable | src/data.cpp:336-343 | once the move into the tab's own subtree is excluded, the removed tab can be placed again, and the new parent's walk is the one before the removal |
| TabTable.MovedTree | src/data.cpp:336-343 | the corrected move_tab carries the subtree size from the old ancestors to the new ones, changes no other parent, and is a no-op onto itself or into its own subtree |
| TabTable.RemovedThenPlaced | src/data.cpp:336-343 | remove_tab followed by place_tab moves the subtree size from the old ancestors to the new ones |
| TabTable.MovedTable | src/data.cpp:336-343 | a move the guard lets through is remove_tab followed by place_tab |
| TabTable.TabStore.constructor | src/data.cpp:55-57 | the store starts from a table with both pending lists empty |
| TabTable.TabStore.TabUpdated | src/data.cpp:59-65 | tab_updated appends the id unless it is already pending |
| TabTable.TabStore.WindowUpdated | src/data.cpp:66-72 | window_updated appends the id unless it is already pending |
| TabTable.TabStore.ChangeChildCount | src/data.cpp:151-163 | change_child_count adds diff to the parent and every ancestor up to the first parent <= 0, noting each |
| TabTable.TabStore.SetPrev | src/data.cpp:165-174 | set_prev writes prev and notes the tab |
| TabTable.TabStore.SetNext | src/data.cpp:176-185 | set_next writes next and notes the tab |
| TabTable.TabStore.SetParent | src/data.cpp:187-197 | set_parent writes the parent, notes the tab and adds the subtree size along the new parent's walk |
| TabTable.TabStore.Unlink | src/data.cpp:200-202 | the guarded set_next and set_prev link the neighbours to each other |
| TabTable.TabStore.RemoveTab | src/data.cpp:199-205 | remove_tab does what Removed says, to the table and the pending list |
| TabTable.TabStore.PlaceTab | src/data.cpp:207-255 | place_tab does what Placed says for each relation |
| TabTable.TabStore.PlaceBefore | src/data.cpp:209-218 | the BEFORE case does what Placed says |
| TabTable.TabStore.PlaceAfter | src/data.cpp:219-228 | the AFTER case does what Placed says |
| TabTable.TabStore.PlaceFirstChild | src/data.cpp:229-240 | the FIRST_CHILD case does what Placed says |
| TabTable.TabStore.PlaceLastChild | src/data.cpp:241-252 | the LAST_CHILD case does what Placed says |
| TabTable.TabStore.CloseTab | src/data.cpp:316-334 | close_tab does what Closed says |
| TabTable.TabStore.OnChain | src/data.cpp:151-163 | the walk up from p meets x exactly when x is p or one of its ancestors |
| TabTable.TabStore.MoveTab | src/data.cpp:336-343 | the corrected move_tab does what Moved says |
| TabTree.WordBit | src/win32app/tabs.h:23-31 | bit i of the flag word is the i-th flag it was built from |
| TabTree.DecodeBits | src/win32app/tabs.h:23-31 | reading each flag bit of a tab's word gives back the flag set it was built from |
| TabTree.BitsInjective | src/win32app/tabs.h:23-31 | two flag sets travel as the same integer exactly when they are the same set |
| TabTree.GenSpec | src/win32app/tabs.cpp:12-54 | gen_tabs keeps every tab already present, adds its edge, adds every out-edge of an expanded new tab, and every tab it adds hangs where the walk put it |
| TabTree.GenAllSpec | src/win32app/tabs.cpp:37-41 | visiting the out-edges in order adds each of them and keeps what was there |
| TabTree.KidNotNull | src/model/internal/edge.cpp:44-55 | no out-edge is the null edge 0 |
| TabTree.KidsUnique | src/model/internal/edge.cpp:44-55 | an edge is listed under one node only |
| TabTree.TopLevelTree | src/win32app/tabs.cpp:56-64 | the tree grown from the root's out-edges has those edges under 0, every other tab under an expanded tab whose node lists it, and every out-edge of an expanded tab |
| TabTree.RootedTree | src/model/tabs.cpp:38-43 | the tree grown from the null edge showing the root has the root under 0, every other tab under an expanded tab whose node lists it, and every out-edge of an expanded tab |
| TabTree.GenTabs | src/win32app/tabs.cpp:12-54 | the recursive walk computes exactly the tree Gen describes |
| TabTree.ChangedTabs | src/win32app/tabs.cpp:66-92 | get_changed_tabs lists the removals, then the resent tabs, in iteration order |
| TabTree.RemovalsIn | src/win32app/tabs.cpp:71-76 | a removal is listed for each old tab the new tree lacks, only for such tabs, and once each |
| TabTree.AdditionsIn | src/win32app/tabs.cpp:77-90 | a tab is sent for each new tab that is new, changed in flags or touched by the update, only for those, and once each |
| TabTree.ChangesRemove | src/win32app/tabs.cpp:71-76 | the change list removes an edge exactly when only the old tree has it |
| TabTree.ChangesResend | src/win32app/tabs.cpp:81-90 | the change list sends a tab exactly when the new tree has it and it is resent |
| TabTree.ChangesOrdered | src/win32app/tabs.cpp:66-92 | each edge appears once in the change list, and every removal comes before every addition |
| TabTree.ApplyAppend | src/win32app/tabs.cpp:66-92 | applying two change lists in turn is applying them joined |
| TabTree.ApplyRemovals | src/win32app/tabs.cpp:71-76 | applying the removals drops exactly the listed edges the new tree lacks |
| TabTree.ApplyAdditions | src/win32app/tabs.cpp:81-90 | applying the additions overwrites exactly the resent edges with their new tabs |
| TabTree.ChangesRebuild | src/win32app/tabs.cpp:66-92 | applying the change list to the old tree gives the new one, provided every tab that changed other than in its flags was touched by the update |
| TabTree.MarkAllAt | src/model/tabs.cpp:50-59 | marking a change list marks each change in place |
| TabTree.MarkedRemovalsAre | src/model/tabs.cpp:50-59 | the removals sent as empty tabs are the removals, marked |
| TabTree.MarkedAdditionsAre | src/model/tabs.cpp:60-73 | the additions sent as bare tabs are the additions, marked |
| TabTree.ChangedTabsMarked | src/model/tabs.cpp:45-75 | the model and page revisions send the same change list with each removal as the empty tab |
| TabTree.MarkedDecodes | src/model/tabs.cpp:45-75 | while no new tab shows node 0, reading node 0 as a removal gives back the change list |
| WinTabs.CreateTabTree | src/win32app/tabs.cpp:56-64 | create_tab_tree walks each out-edge of the root node under edge 0 and yields the tree TabTreeOf describes |
| WinTabs.TreeShape | src/win32app/tabs.cpp:12-64 | each out-edge of the root is a top tab, every other tab hangs under an expanded tab whose node lists it, an expanded tab has all its node's out-edges, and each tab shows its edge's node and flags |
| WinTabs.FlagWord | src/win32app/tabs.cpp:19-53 | FOCUSED, TRASHED and EXPANDED follow the edge; LOADING and LOADED follow the activity and are never both; a nodeless edge is only LOADING when it has an activity |
| WinTabs.StarNotCarried | src/win32app/tabs.cpp:32 | restricted to the enumerators tabs.h declares, which have no STARRED, the flag word of a starred tab equals that of an unstarred one |
| WinTabs.StarCarried | src/win32app/tabs.cpp:32 | with a STARRED bit (bit 7, the model's choice) the word tells a starred tab from an unstarred one |
| WinTabs.TabJsonShape | src/win32app/tabs.cpp:94-128 | a missing edge or tab is sent as the edge id alone; otherwise seven cells with parent and flags, the first non-empty of node title, edge title and URL, and a hex position that sorts as the positions do |
| ModelTabs.CreateTabTree | src/model/tabs.cpp:38-43 | create_tab_tree walks from the null edge showing the view's root node and yields the tree TabTreeOf describes |
| ModelTabs.TreeShape | src/model/tabs.cpp:11-43 | the root is the tab for edge 0 under 0, every other tab hangs under an expanded tab whose node lists it, and an expanded tab has all its node's out-edges |
| ModelTabs.FlagWord | src/model/tabs.cpp:20-27 | each flag bit says what its condition says: LOADING and LOADED follow the node state and are never both, edge 0 is never TRASHED, and nothing is STARRED |
| PageTabs.CreateTabTree | src/tabs.cpp:33-37 | create_tab_tree walks from the null link showing the view's root page and yields the tree TabTreeOf describes |
| PageTabs.TreeShape | src/tabs.cpp:7-37 | the root page is the tab for link 0 under 0, every other tab hangs under an expanded tab whose page lists it, and an expanded tab has all its page's out-links |
| PageTabs.FlagWord | src/tabs.cpp:13-22 | LOADING exactly when the page's activity is loading, LOADED exactly when it has one that is not, link 0 never TRASHED, nothing STARRED |
| WinShell.Halvings | src/win32app/shell.js:7-13 | each flag mask's test is one more halving of the word |
| WinShell.MasksMatchApp | src/win32app/shell.js:7-13 | the shell's masks test the same bits the app sets in a tab's flag word |
| WinShell.WithoutSpec | src/win32app/shell.js:342-348 | taking an element out of a list keeps exactly the other elements, and changes nothing when it is absent |
| WinShell.DetachSpec | src/win32app/shell.js:342-348 | `remove()` takes the element out of every list and keeps every other element |
| WinShell.CreatedShape | src/win32app/shell.js:256-311 | create_item gives the tab a new element, not yet listed anywhere, with an empty child list and an unplaced record, and changes no other record or list |
| WinShell.CreatedClassesFollowFlags | src/win32app/shell.js:257-263 | a created element has "item" and the class of each set flag except LOADING, and never "closed" |
| WinShell.RestyledClasses | src/win32app/shell.js:320-326 | update_item's toggles make each flag class follow its flag and leave every other class alone |
| WinShell.UpdatedKnown | src/win32app/shell.js:313-345 | update_item of a known tab changes only its element, whose flag classes follow the flags and whose title and favicon follow the tuple, and detaches it exactly when its parent or position changed |
| WinShell.RemovedShape | src/win32app/shell.js:347-350 | remove_item throws exactly for an unknown id; otherwise only that record goes and its element leaves every list |
| WinShell.CreatedValid | src/win32app/shell.js:256-311 | create_item keeps the shell's invariant |
| WinShell.UpdatedValid | src/win32app/shell.js:313-345 | update_item keeps the shell's invariant |
| WinShell.RemovedValid | src/win32app/shell.js:347-350 | remove_item keeps the shell's invariant |
| WinShell.PlacedThrows | src/win32app/shell.js:352-365 | place_item throws for an unknown tab, for an unknown parent, and for a tab that is its own parent |
| WinShell.ScanStops | src/win32app/shell.js:357-363 | the sibling scan stops at the first sibling with a greater key, or appends when none has one |
| WinShell.InsertSorted | src/win32app/shell.js:352-365 | inserting before the first greater key keeps a list in key order |
| WinShell.PlacedList | src/win32app/shell.js:352-365 | a place_item that ends normally stores the parent and position and inserts the element into the target list before the first greater key, taking it out of any other list |
| WinShell.PlacedWhere | src/win32app/shell.js:352-365 | after place_item the element is listed in its parent's list, or the top list for a null parent, and nowhere else new |
| WinShell.ParentCell | src/win32app/shell.js:356 | the parent cell read as meant: edge id 0 is no parent, any other id is that parent |
| WinShell.TopLevelFromAppThrows | src/win32app/shell.js:352-356 | as written, a tuple whose parent is the app's 0 is not taken as top level, and placing it throws because no tab has id 0 |
| WinShell.TopLevelFromAppPlaced | src/win32app/shell.js:352-365 | reading the parent through ParentCell, a top-level tab from the app is placed into the top list |
| WinShell.PlacedSorted | src/win32app/shell.js:352-365 | placing into a list in key order leaves it in key order, holding one more element |
| WinShell.PlacedValid | src/win32app/shell.js:352-365 | place_item keeps the shell's invariant, whether it ends normally or throws |
| WinShell.Pass1Valid | src/win32app/shell.js:512-521 | the update loop keeps the invariant |
| WinShell.Pass2Valid | src/win32app/shell.js:522-526 | the placement loop keeps the invariant |
| WinShell.Pass1Sticks | src/win32app/shell.js:512-521 | once a step of the update loop throws, the rest of the batch does not run |
| WinShell.BatchValid | src/win32app/shell.js:512-527 | commands.update keeps the invariant |
| WinShell.ViewedValid | src/win32app/shell.js:502-511 | commands.view keeps the invariant |
| WinShell.UpdatedSorted | src/win32app/shell.js:256-345 | create_item and update_item keep every live list (the top list and each record's own list) in position order, each element once |
| WinShell.RemovedSorted | src/win32app/shell.js:347-350 | remove_item keeps every live list in position order |
| WinShell.PlacedTargetSorted | src/win32app/shell.js:352-365 | the list place_item inserts into stays in position order and holds the element once |
| WinShell.PlacedSortedAll | src/win32app/shell.js:352-365 | a place_item that ends normally keeps every live list in position order |
| WinShell.Pass1Sorted | src/win32app/shell.js:512-521 | the update loop keeps every live list in position order |
| WinShell.Pass2Sorted | src/win32app/shell.js:522-526 | a placement loop that ends normally keeps every live list in position order |
| WinShell.BatchSorted | src/win32app/shell.js:512-527 | a commands.update that ends normally leaves every child list sorted by position, each element once |
| WinShell.ViewedSorted | src/win32app/shell.js:502-511 | a commands.view that ends normally leaves every child list sorted by position, whatever the sidebar held before |
| WinShellOrder.Pass1After | src/win32app/shell.js:512-521 | after the update loop a tab has a record exactly when a full tuple names it or it had one and no entry names it; untouched tabs keep record and lists; known tabs keep their element; created ones get a fresh one |
| WinShellOrder.Pass2After | src/win32app/shell.js:522-526 | after the placement loop every tab of a full tuple holds the tuple's parent and position and is listed in its parent's list and no other; every other tab is untouched |
| WinShellOrder.RunRecords | src/win32app/shell.js:502-527 | the records a batch leaves, read off the entries as a set |
| WinShellOrder.RunListed | src/win32app/shell.js:502-527 | which tabs a batch leaves under each owner, read off the entries as a set |
| WinShellOrder.SameOrder | src/win32app/shell.js:357-363 | two id lists holding the same tabs once each, one strictly and one weakly in key order, are equal |
| WinShellOrder.BatchRecordsAgree | src/win32app/shell.js:512-527 | two orders of one batch that both end normally leave records for the same tabs with the same parent and position |
| WinShellOrder.BatchOrderIndependent | src/win32app/shell.js:512-527 | two orders of one batch, each naming a tab once, that both end normally leave every owner with the same child tabs in the same order when those siblings have distinct keys |
| WinShellOrder.ViewedOrderIndependent | src/win32app/shell.js:502-511 | the same for commands.view, from any valid sidebar |
| WinShell.InitialValid | src/win32app/shell.js:254 | the empty sidebar satisfies the invariant |
| WinShell.ViewedCreates | src/win32app/shell.js:502-508 | the first loop of view creates every tab before any is placed |
| WinShell.ChildBeforeParent | src/win32app/shell.js:502-511 | a view listing a child before its parent still nests the child under the parent, because every tab is created before any is placed |
| WinShell.MovedItemThrows | src/win32app/shell.js:341-343 | as written, update_item throws exactly for a known tab whose parent or position changed; otherwise it does what the intended version does |
| WinShell.EveryCloseTrashes | src/win32app/shell.js:367-398 | no element ever has the class "closed", so the close button and the middle button always post trash_tab; the new-child button posts new_child |
| WinShell.ExpandFollowsFlags | src/win32app/shell.js:400-409 | after a tuple is applied, the expand button asks to contract exactly when the tuple said expanded |
| WinShell.DragSteps | src/win32app/shell.js:431-467 | a drag starts moving past 24 pixels; while moving the destination is the tab under the pointer and the relation its band |
| WinShell.BandsOrdered | src/win32app/shell.js:441-457 | the bands go BEFORE, LAST_CHILD, AFTER from top to bottom of a tab |
| WinShell.ReleasePosts | src/win32app/shell.js:468-486 | release resets the drag and posts move_tab exactly when it was moving over a tab other than the moved one |
| WinShell.RelationNeverChosen | src/win32app/shell.js:443-456 | as written, reading the undefined TabRelation throws, so a drag posts move_tab with the relation never chosen |
| WinShell.RelationChosen | src/win32app/shell.js:431-486 | with the relations defined, a drag posts move_tab with the band under the pointer |
| WinShell.AsWrittenKeepsRelation | src/win32app/shell.js:431-467 | as written, a drag step never changes the relation, and it throws exactly when moving over a tab |
| WinShell.Shell.constructor | src/win32app/shell.js:148-420 | the script starts with no records, an empty top list and no drag |
| WinShell.Shell.CreateItem | src/win32app/shell.js:256-311 | create_item changes the state as Created says |
| WinShell.Shell.UpdateItem | src/win32app/shell.js:313-345 | the intended update_item changes the state as Updated says |
| WinShell.Shell.RemoveItem | src/win32app/shell.js:347-350 | remove_item changes the state as Removed says, and reports whether it ended normally |
| WinShell.Shell.PlaceItem | src/win32app/shell.js:352-365 | place_item's scan and insertion change the state as Placed says |
| WinShell.Shell.UpdateEach | src/win32app/shell.js:513-521 | the update loop applies each entry in turn, stopping at the first that throws |
| WinShell.Shell.PlaceEach | src/win32app/shell.js:522-526 | the placement loop places each full entry in turn, stopping at the first that throws |
| WinShell.Shell.Update | src/win32app/shell.js:512-527 | commands.update is the update loop followed by the placement loop; it keeps the invariant, and when it ends normally it keeps every child list sorted by position |
| WinShell.Shell.View | src/win32app/shell.js:502-511 | commands.view clears the records and top list, then updates and places every tuple; it keeps the invariant, and when it ends normally every child list is sorted by position |
| WinShell.Shell.OnTabMousedown | src/win32app/shell.js:422-430 | mousedown starts grabbing the tab at the pointer's height |
| WinShell.Shell.OnTabDrag | src/win32app/shell.js:431-467 | the intended drag step changes the drag state as Dragged says |
| WinShell.Shell.OnTabRelease | src/win32app/shell.js:468-486 | release changes the drag state and posts as Released says |
| ResShell.Without | src/res/shell.js:245 | taking an element out of a list leaves no longer list |
| ResShell.WithoutSpec | src/res/shell.js:245 | after `remove()` the list holds exactly its old elements other than the removed one |
| ResShell.IndexOf | src/res/shell.js:322 | the position `insertBefore` finds holds the reference element, and no earlier position does |
| ResShell.InsertAtSpec | src/res/shell.js:322 | after `insertBefore` the list holds exactly its old elements and the inserted one |
| ResShell.DetachConsistent | src/res/shell.js:245 | `remove()` keeps the element tree well formed and leaves the element in no list and with no parent |
| ResShell.InsertedConsistent | src/res/shell.js:321-322 | `insertBefore` keeps the tree well formed and attaches the element to exactly the list it names |
| ResShell.AppliedConsistent | src/res/shell.js:235-311 | the first loop's work on one tuple keeps the element tree well formed |
| ResShell.Pass1Consistent | src/res/shell.js:235-311 | the whole first loop keeps the element tree well formed |
| ResShell.CascadeStep | src/res/shell.js:316-324 | insertIfNeeded either changes nothing or inserts the tab's item into its parent's list before its next sibling and goes on with its previous sibling |
| ResShell.CascadeConsistent | src/res/shell.js:316-324 | insertIfNeeded keeps the tree well formed, whether it finishes or throws, and never touches the records |
| ResShell.Pass2Consistent | src/res/shell.js:314-326 | the second loop keeps the tree well formed and the records unchanged |
| ResShell.BatchConsistent | src/res/shell.js:234-327 | a whole `tabs` command keeps the element tree well formed |
| ResShell.InitialConsistent | src/res/shell.js:152 | the empty record table with the empty top list is well formed |
| ResShell.ClosedRemoves | src/res/shell.js:243-249 | a closed tuple deletes its record and takes its item out of every list, leaves every other record alone, and changes nothing for an unknown id |
| ResShell.UpdatedLinks | src/res/shell.js:278-290 | a known tab's tuple stores the new links and tooltip and keeps the old url, its item leaves the page exactly when parent, prev or next changed, and the address shows the stored url for the focused tab |
| ResShell.CreatedDetached | src/res/shell.js:257-277 | a new id's tuple creates a contracted record with the tuple's links, whose fresh item belongs to no other record, sits in no list and owns an empty list |
| ResShell.InsertAtRun | src/res/shell.js:322 | inserting item k before item k+1 of a run already at the list's end extends the run by one at its front |
| ResShell.InsertStep | src/res/shell.js:316-324 | one insertIfNeeded step on a linked run of siblings inserts the next item in line |
| ResShell.CascadeRunStep | src/res/shell.js:316-324 | from item k of a linked run, one recursive step leaves the run one item further in place and goes on at item k-1 |
| ResShell.CascadeRunFirst | src/res/shell.js:316-324 | from the first item of a run whose other items are in place, insertIfNeeded finishes with the whole run in place |
| ResShell.CascadeRun | src/res/shell.js:316-324 | from any item of a linked run, with enough recursion depth, insertIfNeeded finishes with the whole run in place |
| ResShell.DistinctSize | src/res/shell.js:316-324 | a run of distinct record ids is no longer than the record table, so one call per record suffices |
| ResShell.CascadeAtStage | src/res/shell.js:314-325 | for a detached or fully inserted run, insertIfNeeded on any of its ids finishes, and on its last id inserts the whole run |
| ResShell.Pass2Run | src/res/shell.js:312-326 | the second loop over tuples of one run finishes, and once the run's last id has come up the whole run is in place |
| ResShell.InsertionOrderIndependent | src/res/shell.js:312-326 | for one linked run of new top-level siblings, whatever order the second loop meets their tuples in, the top list ends with the run's items in sibling order |
| ResShell.Pass2Sticks | src/res/shell.js:314-326 | once insertIfNeeded throws, the rest of the command does nothing more |
| ResShell.ChainShape | src/res/shell.js:183-186 | the depth loop only looks at parent links, so records with the same links have the same depths |
| ResShell.ChainMore | src/res/shell.js:183-186 | a depth found in some number of steps is the depth found with any more steps |
| ResShell.ExpandedUp | src/res/shell.js:220-225 | expandUp changes no record's links |
| ResShell.Focused | src/res/shell.js:209-227 | commands.focus changes no record's links |
| ResShell.AboveShape | src/res/shell.js:220-225 | which records lie above a tab depends only on the links |
| ResShell.AltAlternates | src/res/shell.js:181-189 | expand_tab gives a child depth one more than its parent, so their "alt" classes differ |
| ResShell.ExpandedUpSpec | src/res/shell.js:220-225 | expandUp expands exactly the tab and its ancestors, setting "alt" from each one's own depth, and leaves every other record as it was |
| ResShell.ExpandToggled | src/res/shell.js:194-206 | the expander changes no record's links |
| ResShell.ToggleTwice | src/res/shell.js:181-206 | clicking the expander twice gives back the record, except that "alt" now follows the depth |
| ResShell.ExpandedUpFields | src/res/shell.js:220-225 | expandUp keeps every record's links, texts and focus mark, and expands the tab it starts from |
| ResShell.ExpandedUpKeepsExpanded | src/res/shell.js:220-225 | expandUp never contracts a record |
| ResShell.FocusMoves | src/res/shell.js:209-218 | focus records the new id and keeps the record set; the new tab gets the focused class and the old focused tab loses it |
| ResShell.FocusKeepsRest | src/res/shell.js:209-227 | focus changes no record's links or texts |
| ResShell.FocusShows | src/res/shell.js:215-225 | focus expands the focused tab and puts its url in the address field |
| ResShell.FocusKeepsMark | src/res/shell.js:209-216 | when only the focused id carries the focused class, that stays true after focus |
| ResShell.AppliedKeepsMark | src/res/shell.js:235-311 | a tuple never moves the focused class or the focused id |
| ResShell.CascadeKeepsRecords | src/res/shell.js:316-324 | insertIfNeeded changes neither the records nor the focused id |
| ResShell.BatchKeepsMark | src/res/shell.js:234-327 | a `tabs` command never moves the focused class or the focused id |
| ResShell.Pass1KeepsMark | src/res/shell.js:235-311 | the first loop never moves the focused class or the focused id |
| ResShell.Pass2KeepsRecords | src/res/shell.js:314-326 | the second loop changes neither the records nor the focused id |
| ResShell.ClickFocusThenLoad | src/res/shell.js:154-179 | a left click on an unfocused tab asks for focus and a second click asks for a load; a middle click and the close button both ask to close |
| ResShell.Shell.constructor | src/res/shell.js:152 | the script starts with no records and an empty top list |
| ResShell.Shell.Remove | src/res/shell.js:245 | `remove()` changes the page as Detach says |
| ResShell.Shell.Apply | src/res/shell.js:235-311 | the first loop's body changes the state as Applied says |
| ResShell.Shell.InsertBefore | src/res/shell.js:322 | `insertBefore` changes the page as Inserted says |
| ResShell.Shell.InsertIfNeeded | src/res/shell.js:316-324 | insertIfNeeded changes the page as Cascade says, and reports whether it threw |
| ResShell.Shell.Tabs | src/res/shell.js:234-327 | commands.tabs runs both loops as Batch says, and reports whether it threw |
| ResShell.Shell.ExpandTab | src/res/shell.js:181-189 | expand_tab counts the depth in a loop and sets the record's classes as Expanded says |
| ResShell.Shell.ContractTab | src/res/shell.js:190-193 | contract_tab clears the expanded class of that one record |
| ResShell.Shell.OnExpandClicked | src/res/shell.js:194-206 | the expander toggles a known tab as ExpandToggled says and changes nothing for an unknown one |
| ResShell.Shell.ExpandUp | src/res/shell.js:220-225 | expandUp changes the records as ExpandedUp says |
| ResShell.Shell.Focus | src/res/shell.js:209-227 | commands.focus changes the state as Focused says |

## Left out

- Win32 and WebView2 plumbing is not modelled. That covers window classes, message dispatch between the app, the shell and the page, accelerators, fullscreen and DPI scaling. These are foreign calls. The WebView is an oracle parameter (`webview`) of the navigation methods.
- The hosts disagree on the message a drag posts. `src/view/window.cpp:341-372` expects `move_tab_before`, `move_tab_after` and similar names. `src/win32app/bark.cpp:387-393` expects `move_tab` with a numeric relation. The shell model posts `move_tab(dragged, target, relation)`. Neither host's dispatch is part of this model, so which one accepts the message is not captured.
- The SQLite layer is not modelled: statements, migrations, transactions, observer notification and the recursive fix-up queries of `src/data.cpp:345-421`. Each table is a map from id to row. Each query is a scan of that map. A `save` is a whole-row write.
- `src/model/internal/test/activity.t.cpp` refers to a `tree` field where the code has `view`. The model follows the code.
- The thin persisted setters of nodes, views, trees and pages are not modelled. The expanded-tab set they maintain is an input of the tab-tree walk.
- Floating point is not modelled. A JSON number is kept as the characters it was written with, and stringify writes those characters back. The round trip (Json.ParseStringify, Json.CanonicalOf) therefore holds for numbers only as opaque lexemes. This is a choice of the model, not the program's behaviour: `wcstod` and `%g` rewrite "1234567" as "1.23457e+06", "1.0" as "1" and "0x10" as "16". The reader accepts every lexeme `wcstod` reads (Json.NumberEnd), hexadecimal and INF/NAN forms included, but keeps each as written. The drag ratio bands use integer cross-multiplication (10·dy < 3·h and 10·dy > 7·h). Edge positions are abstract reals bounded by 0 and 1, and `Between` returns their midpoint. This stands in for the Bifractor bisection that `src/model/internal/edge.cpp` calls with doubles.
- `now()` and every timestamp is an integer parameter. The model assumes nothing about clocks beyond "non-zero means set".
- UTF-16 conversion, logging, error dialogs, settings and profile loading are I/O and are not modelled.
- The DOM helpers, toolbar, menus, sidebar resizing and injected page scripts are event-to-message glue and are not modelled. In both shells the DOM is a map from list owner to its children in order. Elements are numbered and never destroyed.
- Earlier revisions that repeat modelled logic are not modelled separately: `parse_args` in `src/main.cpp` and `src/control/main.cpp`, the link revisions of the edge position scheme, the root `data.cpp` and `shell/shell.js`.
- ResShell.Cascade: the recursion of `insertIfNeeded` is bounded by one call per record. Running out of that bound counts as a throw. The source leaves the bound to the JavaScript call stack.
- ResShell.Shell.ExpandTab: requires the parent chain of the tab to leave the records. Its depth loop (src/res/shell.js:181-189) does not end on a cyclic chain, so that case is not modelled; ResShell.Shell.OnExpandClicked asks this only when it expands, since contract_tab walks no chain.
- ResShell.Shell.ExpandUp and ResShell.Shell.Focus: require the parent chain of the focused tab to leave the records. `expandUp` has no cycle guard, and on a cyclic chain the source recurses until the stack overflows. That case is not modelled.
- TabTree.GenTabs: requires a rank on the nodes that decreases along expanded edges, that is, an acyclic expanded subgraph. The source has no visited set and does not terminate on a cycle of expanded edges.
- TabTree.ChangedTabs: takes the iteration order of each TabTree as a parameter. The source iterates an unordered map, so the order in which changes are sent is not pinned down.
- Activities.Activities.EvictOld: models the eviction loop with the victim order corrected (unstarred first, then earliest visited) and with the loop stopping when no candidate is left. The code as written is modelled separately (see Findings).
- Bifractor.Hex: is proved to give two upper-case digits per byte, high nibble first, and to order like the bytes. The heap and inline storage of `bytes()` is not modelled: a key is its sequence of bytes.
- WinShell.Shell.Update and WinShell.Shell.View: their contracts tie each call to Batch and Viewed and state sortedness. Order independence relates two runs, so it is the lemma WinShellOrder.BatchOrderIndependent (and ViewedOrderIndependent). That lemma asks that each batch name a tab once, that both orders end normally, and that the siblings have distinct keys. With equal keys a later placement goes after an earlier one, so the order of the batch shows.
- ResShell.InsertionOrderIndependent: covers one linked run of new top-level siblings (parent 0) that are not yet in the page and that end the top list, and only the second loop, from the state the first loop left. Children under a parent, runs anchored between existing siblings, and whole batches over permuted tuples are not covered.
- WinTabs.CreateTabTree: gives STARRED bit 7 (128). That position is the model's choice: src/win32app/tabs.h declares no such enumerator, and the shell reads no starred bit (src/win32app/shell.js:7-13).
- Json.Parse: the text is a sequence of wide characters, and a NUL ends it as `get()` does. `\uXXXX` escapes are read as written, so `"\u0041"` gives the text u0041 (Json.UnicodeEscapeLiteral). Whitespace between a comma and the next object key is rejected (Json.SpaceAfterCommaRejected). The model follows the code in both places, although section 7 and section 2 of RFC 8259 require otherwise.

## Findings

| source | as written | input that shows it | evidently intended | confidence | as-written member | corrected member |
|---|---|---|---|---|---|---|
| src/util/bifractor.cpp:45-48 | `middle` can exceed 0xFF after a carry and is truncated when stored into a uint8 | a = 10 C8, b = 11 80, bias 0x80 gives 10 24, below a | the carry goes into the kept prefix, so the result lies strictly between a and b | high, not executed | Bifractor.BisectAsWrittenLeavesRange | Bifractor.BisectBetween |
| src/model/internal/edge.cpp:96-126 | `Bifractor(30/32.0)` and `Bifractor(2/32.0)` resolve to the bool constructor, so a node's first child gets key 1 | a node with no children: first_position gives 1, outside the open interval | a key strictly between 0 and 1 | medium, not executed: the bundled src/util/bifractor.h has no three-argument bias constructor, which edge.cpp calls, so the header and edge.cpp come from different revisions and the overload a double picks is not certain; src/model/internal/test/edge.t.cpp:34-35 expects a key below 1 | Edge.ChildlessPositionIsOne | Edge.FirstPosition |
| src/model/internal/activity.cpp:91-99 | save emplaces into by_view and ignores failure when another activity holds the view | activity 1 holds view 1; activity 2 is saved with view 1; by_view still names 1 while both have the view | the new holder replaces the old one, as create does | high, not executed | ActivityIndex.ByViewEmplaceIgnored | ActivityIndex.SaveKeeps |
| json/json.cpp:44-57 | object equality compares each member of a with the first member of b only | {"x":null,"y":null} is unequal to itself | objects are equal when they have the same keys with equal values | high, not executed | JsonOps.AsWrittenNotReflexive | JsonOps.EqualReflexive |
| src/data.cpp:336-343 | move_tab into the tab's own subtree has no guard | moving tab 1 to be the last child of its child 2 makes the ancestor walk loop forever | refuse a move into the tab's own subtree | medium, not executed | TabTable.MoveIntoOwnSubtreeNeverEnds | TabTable.MovedTree |
| src/win32app/activities.cpp:197-200 | `&&` binds tighter than `\|\|`, so an earlier visit beats starred status | tab 1 unstarred, visited at 10, and tab 2 starred, visited at 5: tab 2 is unloaded | unstarred tabs are unloaded first, then the earliest visited | medium, not executed | Activities.AsWrittenUnloadsStarred | Activities.Activities.FindVictim |
| src/win32app/activities.cpp:190-206 | with no candidate, the victim stays 0 and deleting a null activity removes nothing | more than 80 activities, all kept: the loop never ends | stop when no candidate is left | high, not executed | Activities.NoVictimNoProgress | Activities.Activities.EvictOld |
| src/win32app/shell.js:341-343 | `$item.remove()` names an undeclared variable, which throws in strict mode | an update changing a known tab's position | detach the tab's own element, `item.$item.remove()` | high, not executed | WinShell.MovedItemThrows | WinShell.UpdatedKnown |
| src/win32app/shell.js:443-456 | `TabRelation` is never defined, so reading it throws | any drag step over a tab while moving | the drag band picks BEFORE, AFTER or LAST_CHILD | high, not executed | WinShell.RelationNeverChosen | WinShell.RelationChosen |
| src/win32app/tabs.cpp:32 | `Tab::STARRED` names no enumerator of `Tab::Flags` (src/win32app/tabs.h:23-31), so the file does not compile | any build of src/win32app/tabs.cpp; with only the declared enumerators, a starred and an unstarred tab get the same flag word | a STARRED bit of its own in the flag word | medium, not executed | WinTabs.StarNotCarried | WinTabs.StarCarried |
| src/win32app/shell.js:356 | place_item tests `parent == null`, but src/win32app/tabs.cpp:56-64 gives a top-level tab parent edge 0 and src/win32app/tabs.cpp:109-117 sends it as a number | any top-level tab the app sends: `items_by_id[0]` is undefined and reading its `$list` throws | 0 read as no parent | medium, not executed (the edge id's JSON conversion is not part of this model; it is taken as a number, as WinTabs.TabJson writes it) | WinShell.TopLevelFromAppThrows | WinShell.TopLevelFromAppPlaced |
| src/util/text.cpp:83-84 | escape_url sums character codes into one char instead of writing "%XX" | '&' and the char 0x8D escape to the same character | percent-encoding as in section 2.1 of RFC 3986 | high, not executed | Text.EscapeUrlNotInjective | Text.EscapeUrlIntendedRoundTrip |
