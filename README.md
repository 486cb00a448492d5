# tinyredis core in Dafny

This project models the core of tinyredis, a small Redis-like key-value server written in C++:

- **The key-value store** (`KVStore`, src/kvstore.cpp). It keeps two maps: `memory` (key to value) and `expiry` (key to deadline). Expiry is lazy: every operation first purges the key it touches if that key's deadline has passed. The operations are `set`, `get`, `del`, `expire` and `ttl`.
- **The command front end** (src/repl.cpp):
  - `parse_line` splits a request line into whitespace-separated words. Both the console loop and the network server pass every line they read through it.
  - `parse_resp_array` incrementally decodes one RESP request frame, `*<n>\r\n` followed by n bulk strings `$<len>\r\n<bytes>\r\n`. It answers `NeedMore`, `Ok` or `Error`, together with the number of bytes consumed and the decoded strings.
  - `eval_command` lowercases the command name, checks the number of arguments, calls the store and returns the plain-text reply.

The files are:

- `wrappers.dfy`: the `Option` type.
- `stdlib.dfy` (module `StdLib`): the pieces of the C/C++ library that the code relies on:
  - `isspace` and `tolower` in the C locale;
  - `std::to_string`;
  - `std::stoll` (skip blanks, optional sign, at least one digit, 64-bit range; `None` stands for its exception);
  - `std::string::find("\r\n", pos)`.
- `store.dfy` (module `Store`): the store.
  - `Table` is the pair of maps as a value. Its member functions are the specification of each operation.
  - `KVStore` is a class with the two maps as fields. Its methods update them in place, and each method is proved to leave exactly the table its specification function computes.
  - The invariant is that every key with a deadline holds a value.
  - `View` is what a client can observe: the live keys with their values.
- `resp.dfy` (module `Resp`): the frame decoder.
  - `Parse` is a recursive specification.
  - `ParseRespArray` is the cursor loop, proved equal to `Parse`.
- `resp_encoding.dfy` (module `RespEncoding`): a canonical encoder of frames, and the round-trip, pipelining and truncation properties of the decoder against it.
- `repl.dfy` (module `Repl`):
  - `parse_line`: the `Tokens` specification and the `ParseLine` loop.
  - `eval_command`: the `Eval` specification over a table, and `EvalCommand` over a `KVStore` object.

Time is the argument `now`, a reading of the monotonic clock in nanosecond ticks (`TicksPerSecond`).

## Model

| member | source | states |
|---|---|---|
| Store.Table.Purge | src/kvstore.cpp:5-20 | the key survives exactly when it is live at now; a surviving deadline is in the future; the view and all other keys are unchanged; the invariant is kept |
| Store.Table.Set | src/kvstore.cpp:66-75 | the view gains key := value; the key holds value and has no deadline; other keys are unchanged; the invariant is kept |
| Store.Table.Get | src/kvstore.cpp:77-86 | the table after the call is the purge of the key; the result is the key's live value, or None when the key is not live |
| Store.Table.Del | src/kvstore.cpp:87-98 | true exactly when the key was live; the view loses the key and the key leaves both maps; other keys are unchanged; the invariant is kept |
| Store.Table.Expire | src/kvstore.cpp:22-38 | true exactly when the key is live. When false, only the purge happens. A count of at most 0 deletes the key. A positive count keeps the value and sets the deadline to now plus that many seconds. Other keys are unchanged; the invariant is kept |
| Store.Table.Ttl | src/kvstore.cpp:40-64 | -2 exactly when the key is not live; -1 exactly when it is live with no deadline; otherwise the whole seconds left, rounded down; never below -2 |
| Store.View | src/kvstore.cpp:5-20 | a key is visible exactly when it holds a value whose deadline has not passed |
| Store.KVStore.constructor | include/kvstore.hpp:29-31 | the store starts with both maps empty |
| Store.KVStore.PurgeIfExpired | src/kvstore.cpp:5-20 | true exactly when the key's deadline has passed; the fields become the purged table |
| Store.KVStore.Expire | src/kvstore.cpp:22-38 | fields and result are those of Table.Expire on the old fields; the invariant is kept |
| Store.KVStore.Ttl | src/kvstore.cpp:40-64 | fields and result are those of Table.Ttl; the branch for a deadline that passed between two clock readings is unreachable with one reading |
| Store.KVStore.Set | src/kvstore.cpp:66-75 | fields are those of Table.Set; the invariant is kept |
| Store.KVStore.Get | src/kvstore.cpp:77-86 | fields and result are those of Table.Get |
| Store.KVStore.Del | src/kvstore.cpp:87-98 | fields and result are those of Table.Del |
| Store.KVStore.IncrBy | include/kvstore.hpp:24 | fields and result are those of the incrby effect passed in |
| Store.SetThenGet | src/kvstore.cpp:66-86 | after set, get returns the value and ttl returns -1, at that instant and at any later one |
| Store.ExpireThenTtl | src/kvstore.cpp:35-63 | a positive expire on a live key succeeds, and ttl at the same instant returns exactly the count |
| Store.ExpireThenDeadlinePasses | src/kvstore.cpp:5-20 | once the installed deadline is reached, ttl returns -2 and get returns nothing |
| Store.ExpiredKeyIsAbsent | src/kvstore.cpp:5-20 | a key whose deadline has passed is absent to get, del, expire and ttl, and each of them leaves it in neither map |
| Store.ExpireNonPositiveIsDel | src/kvstore.cpp:29-34 | expire with a count of at most 0 has exactly the effect and answer of del |
| Store.SetGetDelScenario | tests/kvstore_tests.cpp:5-22 | the set/get/del sequence of the unit test gives the expected answers |
| StdLib.LowerChar | src/repl.cpp:108-110 | the result is never an upper-case letter; a character outside 'A'..'Z' is kept; toupper maps a lowered letter back to it |
| StdLib.Lowercase | src/repl.cpp:108-110 | same length; no upper-case letter is left; every character outside 'A'..'Z' is kept in place; toupper maps each lowered letter back to the original |
| StdLib.LowercaseIdempotent | src/repl.cpp:108-110 | lowering an already lowered name changes nothing |
| StdLib.IsSpace | src/repl.cpp:8-20 | the C-locale whitespace that separates tokens: space, tab, newline, vertical tab, form feed and carriage return |
| StdLib.NatToString | src/repl.cpp:184 | a non-empty string of digits that denotes the number, with no leading zero |
| StdLib.IntToString | src/repl.cpp:184 | non-empty, and it starts with '-' exactly when the number is negative |
| StdLib.StoLL | src/repl.cpp:44 | std::stoll: the end it reports and the value it reads are characterised by StoLLResult |
| StdLib.StoLLResult | src/repl.cpp:44 | stoll succeeds with value v and end e exactly when the text before e is blanks, an optional sign and a non-empty run of digits that stops at e (the end or a non-digit), v is the signed value of those digits and v fits in 64 bits; it throws exactly when no such reading exists |
| StdLib.WholeNumeral | src/repl.cpp:44-51 | an accepted field is one stoll reads to its end, with stoll's value; it ends with a digit and its value fits in 64 bits |
| StdLib.WholeNumeralReads | src/repl.cpp:44-51 | the accepted fields are exactly blanks, an optional sign and digits up to the end, within the 64-bit range, and the result is the value those digits denote |
| StdLib.StoLLOfIntToString | src/repl.cpp:72 | stoll reads back what to_string wrote, stopping before a following non-digit |
| StdLib.FindCrlf | src/repl.cpp:33 | a found index is at or after the start and holds "\r\n" |
| StdLib.FindCrlfFirst | src/repl.cpp:63-65 | the found "\r\n" is the first one; npos means there is none |
| Resp.ParseHeader | src/repl.cpp:27-53 | empty input needs more; a first byte other than '*' is an Error; an accepted header ends in "\r\n" within the buffer |
| Resp.ParseBulk | src/repl.cpp:57-96 | an accepted element ends within the buffer, after at least its bytes plus six framing bytes |
| Resp.ParseElements | src/repl.cpp:55-97 | the element loop as a recursion; its outcome is stated by ElementsOutcome and the chain lemmas |
| Resp.Parse | src/repl.cpp:22-99 | empty input needs more; a first byte other than '*' is an Error; anything but Ok consumes 0; Ok exactly when all counted strings were read; Ok consumes at least 4 and at most the buffer |
| Resp.ElementsOutcome | src/repl.cpp:55-99 | the element loop either reads every element and ends within the buffer, or stops with 0 consumed and fewer strings than counted |
| Resp.ParseRespArray | src/repl.cpp:22-99 | status, consumed and out are those of Parse |
| Resp.ReadHeader | src/repl.cpp:27-53 | returns ParseHeader of the buffer |
| Resp.ReadBulk | src/repl.cpp:57-96 | returns ParseBulk at the cursor |
| Resp.BulkAccepted | src/repl.cpp:81-96 | an element that passes every check yields its bytes and the cursor past its trailer |
| Resp.BulkShort | src/repl.cpp:81-84 | an element whose bytes are not all present needs more |
| Resp.ElementsStep | src/repl.cpp:93-96 | one pass of the loop appends the element and moves the cursor past it |
| Resp.BulksCons | src/repl.cpp:55-97 | a good element in front of a chain of good elements is a chain |
| Resp.ElementsChain | src/repl.cpp:55-97 | a run of good elements is consumed whole, in order, and decoding continues after the last |
| Resp.ElementsThenShort | src/repl.cpp:57-84 | good elements followed by an incomplete one make the frame need more |
| Resp.FirstElementError | src/repl.cpp:60-91 | a bad first element after a good header makes the frame an Error with nothing decoded |
| Resp.EmptyFrame | src/repl.cpp:53-99 | `*0\r\n` is Ok with no strings and 4 bytes consumed |
| Resp.HeaderExamples | src/repl.cpp:33-38 | `*\r\n` is an Error; a count with no "\r\n" yet needs more, even when it is not a numeral |
| Resp.BadCountExamples | src/repl.cpp:39-51 | a non-numeric, partly numeric or negative count is an Error |
| Resp.BadElementExamples | src/repl.cpp:60-91 | a missing '$', a negative length and bytes not followed by "\r\n" are Errors |
| Resp.LenientNumeralExample | src/repl.cpp:67-79 | a count with a leading blank and a length with a '+' sign are accepted |
| Resp.OneHeader | src/repl.cpp:30-53 | a buffer that starts with `*1\r\n` has a count of 1 and its first element at index 4 |
| RespEncoding.RoundTrip | src/repl.cpp:53-99 | parsing an encoded frame followed by any bytes gives Ok, the strings back, and consumed equal to the frame length |
| RespEncoding.Pipelining | src/repl.cpp:98-99 | two frames back to back are decoded one after the other by slicing off consumed |
| RespEncoding.PrefixNeedsMore | src/repl.cpp:27-84 | every strict prefix of an encoded frame needs more |
| RespEncoding.CanonicalNumeral | src/repl.cpp:39-51 | the decimal text of a count has no '\r' and stoll reads it whole, as that count |
| RespEncoding.HeaderOfEncoding | src/repl.cpp:30-53 | an encoded header is accepted with its count, and the first element starts just after it |
| RespEncoding.FieldThenCrlf | src/repl.cpp:33 | the first "\r\n" after a field without '\r' is the one that ends it |
| RespEncoding.FindCrlfAfterField | src/repl.cpp:63 | find stops at the first "\r\n" when no '\r' comes before it |
| RespEncoding.HeaderPrefix | src/repl.cpp:27-35 | a cut inside an encoded header needs more |
| RespEncoding.NoCrlfInPrefix | src/repl.cpp:63-65 | in a prefix cut inside a field there is no "\r\n" to find |
| RespEncoding.BulkOfParts | src/repl.cpp:57-96 | an encoded element is accepted with its bytes, and the next one starts just after it |
| RespEncoding.FieldThenTrailer | src/repl.cpp:89-91 | the bytes of an element are followed by its "\r\n" trailer |
| RespEncoding.BulkOfEncoding | src/repl.cpp:57-96 | an encoded element followed by any bytes is accepted whole |
| RespEncoding.BulksOfEncoding | src/repl.cpp:55-97 | encoded elements back to back form a chain of good elements |
| RespEncoding.BulkThenChain | src/repl.cpp:55-97 | one encoded element in front of a chain of encoded elements is a chain |
| RespEncoding.ElementsOfEncoding | src/repl.cpp:55-99 | the element loop over encoded elements reads them all and ends at the frame's end |
| RespEncoding.BulkPrefix | src/repl.cpp:57-84 | a cut inside one encoded element needs more |
| RespEncoding.BulkPrefixOfParts | src/repl.cpp:57-84 | a cut anywhere in the '$', the length, the bytes or the trailer of an element needs more |
| RespEncoding.FindCrlfShift | src/repl.cpp:63 | find over a suffix is find over the whole buffer, shifted |
| RespEncoding.ElementsPrefix | src/repl.cpp:55-84 | encoded elements cut anywhere need more |
| RespEncoding.SplitBulks | src/repl.cpp:55-97 | a strict prefix of encoded elements is some whole elements then a strict prefix of the next |
| Repl.WordEnd | src/repl.cpp:14 | the end of the word at j is within the string, and is at its end or at whitespace; a word at a non-blank is not empty |
| Repl.TokensFrom | src/repl.cpp:14-17 | the tokens read from a position on; none is empty or contains whitespace |
| Repl.Tokens | src/repl.cpp:8-20 | the tokens of a whole line; none is empty or contains whitespace |
| Repl.ParseLine | src/repl.cpp:8-20 | the tokens are those of the Tokens specification |
| Repl.TokensKeepText | src/repl.cpp:8-20 | the tokens, put together, are exactly the line's non-whitespace characters in order |
| Repl.WordEndRun | src/repl.cpp:14 | a word holds no whitespace |
| Repl.WordText | src/repl.cpp:14 | over a word, the non-whitespace characters are the word itself |
| Repl.WordEndShift | src/repl.cpp:14 | reading a word from an offset is reading it from the suffix, shifted |
| Repl.TokensShift | src/repl.cpp:8-20 | tokenising from an offset is tokenising the suffix |
| Repl.TokensOfSpaced | src/repl.cpp:8-20 | words with any whitespace around the line and non-empty whitespace between them tokenise back to exactly those words, so the tokens are the maximal runs |
| Repl.WordBetween | src/repl.cpp:14-16 | blanks, then a word ended by whitespace or the end of the line: the word is the first token and tokenising goes on after it |
| Repl.SkipBlankRun | src/repl.cpp:14 | whitespace produces no token |
| Repl.WordEndFrom | src/repl.cpp:14 | a word runs up to the first whitespace |
| Repl.ParseLineExample | tests/kvstore_tests.cpp:24-31 | `"  SET  a  b  "` gives `["SET","a","b"]` |
| Repl.Eval | src/repl.cpp:102-247 | empty arguments give "" and no change; the uncaught exception only comes from expire with a count stoll rejects, and leaves the table unchanged; the invariant is kept |
| Repl.Arity | src/repl.cpp:112-242 | exactly the eight recognised names have an arity, and it is between 1 and 3 words |
| Repl.PingCommand | src/repl.cpp:112-119 | the table is untouched; PONG exactly when PING comes alone |
| Repl.SetCommand | src/repl.cpp:120-131 | with three words the reply is OK and the view gains the key with the value; otherwise the arity error and no change; the invariant is kept |
| Repl.GetCommand | src/repl.cpp:132-150 | with two words the view is unchanged and the reply is the live value or "(nil)"; otherwise the arity error; the invariant is kept |
| Repl.DelCommand | src/repl.cpp:151-162 | with two words the key leaves the view and the reply is "1" exactly when it was live, else "0"; otherwise the arity error; the invariant is kept |
| Repl.ExpireCommand | src/repl.cpp:163-174 | the exception escapes exactly when three words come with a count stoll rejects, and then nothing changes; otherwise "1" exactly when the key is live, and a count of at most 0 removes it from the view; the invariant is kept |
| Repl.TtlCommand | src/repl.cpp:175-186 | with two words the view is unchanged, "-2" for a key that is not live and "-1" for one with no deadline; otherwise the arity error; the invariant is kept |
| Repl.IncrByCommand | src/repl.cpp:187-242 | the arity error for the wrong number of words; the not-an-integer error with no change for a count stoll rejects; the exception is always caught; the invariant is kept when incrby keeps it |
| Repl.EvalCommand | src/repl.cpp:102-247 | the store and the outcome are those of Eval on the old store; the invariant is kept |
| Repl.RunSet | src/repl.cpp:120-131 | the set branch on the store object, equal to its specification |
| Repl.RunGet | src/repl.cpp:132-150 | the get branch on the store object, equal to its specification |
| Repl.RunDel | src/repl.cpp:151-162 | the del branch on the store object, equal to its specification |
| Repl.RunExpire | src/repl.cpp:163-174 | the expire branch on the store object, equal to its specification |
| Repl.RunTtl | src/repl.cpp:175-186 | the ttl branch on the store object, equal to its specification |
| Repl.RunIncrBy | src/repl.cpp:187-242 | the incrby and decrby branches on the store object, equal to their specification |
| Repl.EvalIgnoresCase | src/repl.cpp:108-110 | two requests whose names agree up to case get the same reply and the same table |
| Repl.EvalUnknownCommand | src/repl.cpp:243-246 | an unknown name gets the unknown-command reply with the lowercased name; the table is untouched |
| Repl.EvalWrongArity | src/repl.cpp:112-242 | a known name with the wrong number of words gets the wrong-arity reply naming the command; the table is untouched |
| Repl.EvalPing | src/repl.cpp:112-115 | PING alone answers PONG; the table is untouched |
| Repl.EvalSetThenGet | src/repl.cpp:120-150 | SET answers OK, and a GET at that instant or later answers the value |
| Repl.EvalGet | src/repl.cpp:132-150 | GET answers the live value, or "(nil)" when the key is not live |
| Repl.EvalDel | src/repl.cpp:151-162 | DEL answers "1" exactly when the key was live, else "0"; afterwards the key is gone from the view |
| Repl.EvalExpire | src/repl.cpp:163-174 | a count stoll rejects is the uncaught exception with the table untouched; otherwise the answer is "1" exactly when the key is live |
| Repl.EvalExpireThenTtl | src/repl.cpp:163-186 | EXPIRE with a positive count answers "1", and TTL at the same instant answers that count |
| Repl.EvalTtl | src/repl.cpp:175-186 | TTL answers ttl's result in decimal; "-2" for a key that is not live |
| Repl.EvalIncrBy | src/repl.cpp:187-242 | a count stoll rejects answers the not-an-integer error with the table untouched; otherwise incrby gets the count (negated for DECRBY), and its result is the new value or the same error |
| Repl.FullWorkflowScenario | tests/kvstore_tests.cpp:33-54 | the SET/GET/DEL/PING session of the unit test gives the expected replies |
| Repl.UnknownCommandScenario | tests/kvstore_tests.cpp:56-64 | UNKNOWN and INVALID are answered as unknown commands, named in lowercase |
| Repl.DelWrongArityScenario | tests/kvstore_tests.cpp:66-77 | DEL with no key or two keys gets the wrong-arity reply for 'del' |

## Behaviour worth knowing (the model follows the code)

- On `NeedMore` or `Error` the decoder reports 0 consumed, but `out` keeps the elements decoded before the failure (src/repl.cpp:25, 93). `out` is only empty when the failure is in the header or in the first element.
- The count and length fields are read by `std::stoll`, so a leading blank or a `+` sign is accepted (`Resp.LenientNumeralExample`).
- A count with no `\r\n` yet is `NeedMore` even when it is not a numeral (src/repl.cpp:33-35).
- `eval_command` returns its reply as plain text, including errors, which start with `(error)`.
- `EXPIRE` with a count that `std::stoll` rejects throws out of `eval_command` (src/repl.cpp:171). The model represents this as the outcome `Uncaught`.
- `eval_command` does not require `std::stoll` to read the whole field, so `"5abc"` counts as 5 (src/repl.cpp:171, 197, 225).

## Left out

- src/server.cpp (socket accept, read, write and close, and the newline splitting in `handle_client`) and src/main.cpp (the console loop) are not part of this model: they are I/O around the core.
- The real clock: `steady_clock::now()` becomes the argument `now`. `ttl` reads the clock twice; with one reading, the branch at src/kvstore.cpp:55-59 cannot be taken, and the model asserts that.
- `KVStore::incrby` and `KVStore::exists` are declared (include/kvstore.hpp:24, 26) but have no definition, so their behaviour is not modelled. `eval_command` receives the effect of `incrby` as a parameter that keeps the store invariant. An exception thrown by `incrby` itself, which the source would catch, is not modelled.
- Repl.Eval: requires that DECRBY's count is not the least 64-bit value, because negating it is undefined behaviour in C++ (src/repl.cpp:225).
- Store.Table.Expire: the deadline `now + seconds` is an unbounded integer. The 64-bit overflow of the nanosecond count for counts above about 9.2e9 seconds is not modelled.
- `std::unordered_map` hashing and iteration order: the maps are Dafny `map`s, and no operation depends on order.
- Concurrency: the server handles one client at a time, and the model is sequential.
- Strings are sequences of `char` with C-locale `isspace`/`tolower`; locales and multibyte encodings are not modelled.
