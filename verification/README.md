# LiteCore core logic in Dafny

A model of six pieces of Couchbase Lite Core, with proofs of the properties
each one promises:

- **Query translator** (`LiteCore/Query/QueryParser.cc`): turns a JSON query
  tree into SQL text. Operations are looked up in a table by name and operand
  count. Output is parenthesised by precedence against a stack of enclosing
  operations. Properties become `fl_value(body, 'path')` calls. Strings are
  quoted by doubling apostrophes. ANY/EVERY bind a variable for their
  predicate only. MATCH registers full-text-search (FTS) tables. Modules:
  `JsonValue`, `SqlText`, `QueryOps`, `QueryParser`.
- **Encrypted stream** (`LiteCore/Support/EncryptedStream.cc`): the writer
  cuts the cleartext into 4096-byte blocks. Each block is encrypted with
  AES-128-CBC under its block number as IV. The last block is PKCS #7 padded
  (it is empty when the length is a multiple of 4096) and is followed by the
  16-byte nonce. The reader decrypts one block at a time into a buffer, and
  does the block arithmetic for `read`, `seek` and `tell`. Modules:
  `StreamLayout`, `EncryptedWriter`, `EncryptedReader`, `StreamRoundTrip`.
  The cipher is symbolic: an encrypted block records its key, IV, padding
  mode and plaintext, and has the size AES-128-CBC gives it.
- **Argument tokenizer** (`tools/ArgumentTokenizer.cc`): a character state
  machine with quotes, backslash escapes, space splitting and dropped line
  breaks. Module `ArgumentTokenizer`.
- **Native error policy** (`CSharp/src/LiteCore.Shared/Interop/NativeHandler.cs`):
  decides whether a native call failed. A failure is then silenced by the
  allow-list (domain 0 matches any domain), passed to a handler, or thrown.
  Modules `C4Base`, `NativeHandler`.
- **Replicator status** (`Replicator/Replicator.cc`): the initial push and
  pull status, the activity level derived from the connection state, how
  child status reports are folded in, and the error recorded when the
  connection closes. Module `ReplicatorStatus`.
- **Document definitions** (`CSharp/src/LiteCore.Shared/Interop/C4Document_defs.cs`):
  the document and revision flag bits, and the `C4DocPutRequest` properties
  that keep booleans in bytes and a count in a pointer-sized field. Module
  `DocumentDefs`.

Errors the source throws are modelled as `Failure` values of a `Result`.
State the source mutates is threaded through pure functions: a parser
`State`, a `Writer` or `Reader` value, a `Handler`, a `Replicator`. Three
of the source's loops are methods with loop invariants:
`EncryptedWriter.WriteBlocks`, `ArgumentTokenizer.Tokenize` and
`NativeHandler.AllowErrors`. The others are recursive functions:
`EncryptedReader.ReadDirect`, `QueryOps.FirstFit` (behind `QueryOps.FindRow`),
`QueryOps.NameMatched`,
`QueryParser.InfixOp` (which also writes `QueryParser.FunctionOp`'s
argument list, through `QueryParser.WriteArgList`),
`QueryParser.PropertyFromOperands`, `SqlText.AllWordChars`,
`SqlText.DoubleQuotes` and `NativeHandler.IsAllowed`. I/O and randomness
are parameters: the random nonce is an argument of `EncryptedWriter.Create`.
The reader's file is the list of blocks the writer produced.

Where the source does something its authors evidently did not intend (see
"Findings"), the model does what the code does, and the corrected
definition stands beside it with the intended property proved.

## Model

| member | source | states |
|---|---|---|
| SqlText.IsAlphanumericOrUnderscore | LiteCore/Query/QueryParser.cc:44-51 | true iff the string is non-empty and every character is a letter, a digit or '_' |
| SqlText.AllWordChars | LiteCore/Query/QueryParser.cc:47-49 | the scan from a position succeeds iff every later character is a letter, digit or '_' |
| SqlText.IsValidIdentifier | LiteCore/Query/QueryParser.cc:53-55 | true iff non-empty, all letters, digits or '_', and not starting with a digit; so it starts with a letter or '_' |
| SqlText.StripRoot | LiteCore/Query/QueryParser.cc:74-79 | a leading '$' (with a following '.') is removed, leaving a proper suffix; a child not starting with '$' is unchanged |
| SqlText.AppendPaths | LiteCore/Query/QueryParser.cc:73-86 | an empty parent gives the stripped child; otherwise the parent, then '.' unless the stripped child starts with '[', then the stripped child |
| SqlText.AppendPathsShape | LiteCore/Query/QueryParser.cc:80-85 | closed form of appendPaths (parent + separator + stripped child), the helper AppendPathsAssociative is proved from |
| SqlText.AppendPathsAssociative | LiteCore/Query/QueryParser.cc:73-86 | for plain components, joining a, b then c equals joining a with (b joined with c) |
| SqlText.AppendRootedPath | LiteCore/Query/QueryParser.cc:74-79 | "$.name" and "name" give the same path under any parent, and so does "$name" unless name starts with '.' |
| SqlText.DoubleQuotes | LiteCore/Query/QueryParser.cc:90-110 | each apostrophe is doubled, so the text grows by the number of apostrophes; text without apostrophes is unchanged |
| SqlText.UndoubleInvertsDouble | LiteCore/Query/QueryParser.cc:90-110 | un-doubling the escaped text gives the input back |
| SqlText.SQLString | LiteCore/Query/QueryParser.cc:90-110 | the literal is an apostrophe, the escaped text and an apostrophe; reading it back gives the input |
| SqlText.SQLStringInjective | LiteCore/Query/QueryParser.cc:90-110 | different strings give different literals |
| JsonValue.NatToString | LiteCore/Query/QueryParser.cc:287-288 | the decimal text of a natural number is all digits and denotes that number |
| JsonValue.IntToString | LiteCore/Query/QueryParser.cc:287-288 | the decimal text of an integer starts with '-' exactly when the integer is negative, and the digits after it denote the integer's absolute value |
| QueryOps.FindRow | LiteCore/Query/QueryParser.cc:318-327 | the first table row from a position with the operator's name and an arity range containing the count; no earlier row qualifies |
| QueryOps.NameMatched | LiteCore/Query/QueryParser.cc:319-323 | true iff some row from the position has the operator's name |
| QueryOps.LookupOperation | LiteCore/Query/QueryParser.cc:318-329 | the first row matching the name and min(count, 9); "Wrong number of arguments to" iff the name occurs but no arity fits; the fallback row iff the name is absent |
| QueryOps.TableRowsWellFormed | LiteCore/Query/QueryParser.cc:229-273 | every table row has a name, a handler of its own, and 0 <= minArgs <= maxArgs <= 9 |
| QueryOps.TableHasNoFallback | LiteCore/Query/QueryParser.cc:229-273 | no named row uses the fallback handler |
| QueryOps.MinusDispatch | LiteCore/Query/QueryParser.cc:241-242 | "-" with one operand is the prefix row (precedence 9), with two the infix row (precedence 6) |
| QueryParser.Push | LiteCore/Query/QueryParser.cc:340 | the pushed frame is on top of the context stack, and popping it restores the state |
| QueryParser.Segment | LiteCore/Query/QueryParser.cc:584-602 | one path operand: a string gives ".name" (no dot first), a one-integer array gives "[n]"; an index first, or a malformed index, is an error |
| QueryParser.PropertyFromOperands | LiteCore/Query/QueryParser.cc:579-605 | succeeds iff every operand is a usable name or index; an index in first position is the error "Property path can't start with an array index" |
| QueryParser.PropertyFromOperandsIsJoinPath | LiteCore/Query/QueryParser.cc:579-605 | for name and index operands the path equals the components joined one by one with appendPaths |
| QueryParser.PropertyFromNode | LiteCore/Query/QueryParser.cc:609-624 | a [".", ...] node gives the path of its operands, a [".name"] node gives "name"; anything that is not an array whose first item is a string starting with '.' gives "" (non-arrays, [], [5], ["+", 1, 2]) |
| QueryParser.FTSPropertyIndex | LiteCore/Query/QueryParser.cc:695-700 | 0 iff the path is absent; otherwise the 1-based position of its first occurrence |
| QueryParser.AddPath | LiteCore/Query/QueryParser.cc:706-711 | the returned position holds the path; the list is unchanged if the path was present and grows by it otherwise; a duplicate-free list stays duplicate-free |
| QueryParser.AddFTSPropertyIndex | LiteCore/Query/QueryParser.cc:703-712 | the full path under the property-path prefix ends up in the list at the returned 1-based table number; a path already listed keeps the list and its first position, a new one is appended and numbered last |
| QueryParser.AddPathIndexed | LiteCore/Query/QueryParser.cc:695-712 | after adding, FTSPropertyIndex finds the path at the returned position |
| QueryParser.AddPathIdempotent | LiteCore/Query/QueryParser.cc:703-712 | adding the same path twice changes nothing the second time and gives the same table number |
| QueryParser.WritePropertyGetter | LiteCore/Query/QueryParser.cc:641-661 | "_id"/"_sequence" become key/sequence, and only under fl_value; rank() succeeds iff the bare property name is in the FTS list; otherwise fn(body, literal) where the literal reads back as the full path |
| QueryParser.RankGetterAsWritten | LiteCore/Query/QueryParser.cc:650-654 | the rank() branch as written succeeds iff the bare property name is in the FTS list |
| QueryParser.RankAsWrittenMissesMatchedProperty | LiteCore/Query/QueryParser.cc:650-654 | with prefix "doc", the property getter's rank() on "text" fails although "text" was MATCHed |
| QueryParser.RankAsWrittenMissesRootedProperty | LiteCore/Query/QueryParser.cc:650-654 | with no prefix, rank() on "$.text" fails although "$.text" was MATCHed, since the list holds "text" |
| QueryParser.RankGetter | LiteCore/Query/QueryParser.cc:650-654 | the corrected rank() branch succeeds iff the full path is in the FTS list |
| QueryParser.RankFindsMatchedProperty | LiteCore/Query/QueryParser.cc:650-654 | with the corrected lookup, after a property has been MATCHed, rank() on it succeeds and names the FTS table of its full path |
| QueryParser.WriteNestedPropertyOpIfAny | LiteCore/Query/QueryParser.cc:629-637 | nothing when there are no operands or the first is not a property; otherwise the getter of that property under the given function |
| QueryParser.PropertyOp | LiteCore/Query/QueryParser.cc:471-473 | succeeds iff the path can be built and read with fl_value; the state is unchanged |
| QueryParser.ParameterOp | LiteCore/Query/QueryParser.cc:477-492 | an operator "$name" with operands is an error; otherwise succeeds iff the name is alphanumeric or '_', writing "$_name" and recording the name |
| QueryParser.VariableOp | LiteCore/Query/QueryParser.cc:496-511 | succeeds only for a valid identifier bound by an enclosing ANY/EVERY; an unbound one is "No such variable"; writes "_v.value" or fl_value(_v.pointer, path) |
| QueryParser.SelectOp | LiteCore/Query/QueryParser.cc:515-529 | a non-dictionary operand is an error; a dictionary reaches the nested SELECT writer, which is not modelled |
| QueryParser.TableRowsFit | LiteCore/Query/QueryParser.cc:229-273 | every table row promises its handler at least the operands the handler reads |
| QueryParser.DollarKnown | LiteCore/Query/QueryParser.cc:231 | "$" is a table operator, so the fallback never sees it |
| QueryParser.ParseNode | LiteCore/Query/QueryParser.cc:283-305 | data and dictionaries are errors; literals leave the state alone; arrays are operations; translating keeps the context stack and the variables in scope, and only adds parameters and FTS paths |
| QueryParser.ParseOpNode | LiteCore/Query/QueryParser.cc:308-331 | an empty array, a non-string operator, or a known name with no fitting arity are the three errors, with the source's messages |
| QueryParser.HandleOperation | LiteCore/Query/QueryParser.cc:335-350 | succeeds iff the handler does; the handler's SQL is parenthesised iff the row's precedence is <= the top of the stack; the stack is left as found |
| QueryParser.RunHandler | LiteCore/Query/QueryParser.cc:344-345 | every handler keeps the stack below its own frame and that frame's precedence |
| QueryParser.InfixOp | LiteCore/Query/QueryParser.cc:373-383 | no operands write nothing; the context stack is kept |
| QueryParser.InfixStep | LiteCore/Query/QueryParser.cc:373-383 | the output is the separator (" op ", or ", " for the argument list), the first operand, then the rest |
| QueryParser.WriteArgList | LiteCore/Query/QueryParser.cc:570-572 | succeeds iff the comma-separated operand list (InfixOp under the "," frame) does; the text is that list, wrapped in "(" ... ")" iff the argument-list precedence is <= the top of the stack; the stack is kept |
| QueryParser.PrefixOp | LiteCore/Query/QueryParser.cc:357-362 | keeps the context stack and the variables in scope |
| QueryParser.PostfixOp | LiteCore/Query/QueryParser.cc:366-369 | keeps the context stack and the variables in scope |
| QueryParser.ExistsOp | LiteCore/Query/QueryParser.cc:387-396 | keeps the context stack and the variables in scope |
| QueryParser.BetweenOp | LiteCore/Query/QueryParser.cc:400-406 | keeps the context stack and the variables in scope |
| QueryParser.InOp | LiteCore/Query/QueryParser.cc:410-414 | keeps the context stack and the variables in scope |
| QueryParser.MatchOp | LiteCore/Query/QueryParser.cc:418-427 | a non-property source is "Source of MATCH must be a property"; on success the property's full path is in the FTS list |
| QueryParser.AnyEveryOp | LiteCore/Query/QueryParser.cc:431-467 | rejects a non-identifier and an already-bound variable with the source's messages; on success the variable was unbound and the scope is as before |
| QueryParser.AnyEveryScopesVariable | LiteCore/Query/QueryParser.cc:431-467 | on success the predicate was translated with the variable bound, and it is unbound again afterwards |
| QueryParser.VariableOutsideScope | LiteCore/Query/QueryParser.cc:496-501 | with no ANY/EVERY around it, a variable reference is always an error |
| QueryParser.FallbackOp | LiteCore/Query/QueryParser.cc:533-549 | an operator that is not ".x", "$x" or "f()" is "Unknown operator"; the others keep the stack below the top frame |
| QueryParser.FunctionOp | LiteCore/Query/QueryParser.cc:553-566 | keeps the context stack and the variables in scope |
| QueryParser.ParseJustExpression | LiteCore/Query/QueryParser.cc:150-153 | the stack is reset to the outer frame, and is that frame again afterwards |
| QueryParser.ParseInteger | LiteCore/Query/QueryParser.cc:287-288 | an integer literal is its decimal text |
| QueryParser.InfixOfTwo | LiteCore/Query/QueryParser.cc:373-383 | two operands are written "a op b" |
| QueryParser.InfixOfOne | LiteCore/Query/QueryParser.cc:373-383 | a later operand is written " op b" |
| QueryParser.ArrayNodeDispatch | LiteCore/Query/QueryParser.cc:308-331 | an array whose operator names a table row goes to handleOperation with that row |
| QueryParser.HandleOperationOf | LiteCore/Query/QueryParser.cc:335-350 | handleOperation's result is the handler's SQL, parenthesised by precedence, with the frame popped |
| QueryParser.BinaryInfix | LiteCore/Query/QueryParser.cc:335-350 | a binary infix node is "a op b", parenthesised iff its precedence is <= the enclosing one |
| QueryParser.NestedSameInfix | LiteCore/Query/QueryParser.cc:339 | an infix operation as the left operand of itself is parenthesised, because equal precedence is enough: "(x op y) op z" |
| QueryParser.NestedSubtraction | LiteCore/Query/QueryParser.cc:241-349 | ["-", ["-", 1, 2], 3] translates to "(1 - 2) - 3" |
| StreamLayout.DeriveKey | LiteCore/Support/EncryptedStream.cc:30-32 | the corrected key derivation: the given key XOR the nonce, byte by byte |
| StreamLayout.DeriveKeyInvertible | LiteCore/Support/EncryptedStream.cc:30-32 | XORing the nonce in again recovers the given key |
| StreamLayout.RecoverNonce | LiteCore/Support/EncryptedStream.cc:30-32 | the derived key XOR the given key is the nonce |
| StreamLayout.DeriveKeyInjective | LiteCore/Support/EncryptedStream.cc:30-32 | different nonces give different encryption keys |
| StreamLayout.PaddedSize | LiteCore/Support/EncryptedStream.cc:45-50 | PKCS #7 output is the next multiple of 16 strictly above the input length |
| StreamLayout.FullPrefix | LiteCore/Support/EncryptedStream.cc:40-43 | the blocks before the last are 4096 bytes each, in ciphertext and in cleartext |
| StreamLayout.StreamSizes | LiteCore/Support/EncryptedStream.cc:34-52 | a stream of n blocks is (n-1)*4096 plus a padded last block of 16 to 4096 bytes, and holds (n-1)*4096 plus the last block's cleartext |
| StreamLayout.BlockInPlaintext | LiteCore/Support/EncryptedStream.cc:34-38 | block k's cleartext sits at offset k*4096 of the stream's cleartext |
| StreamLayout.PlaintextSplit | LiteCore/Support/EncryptedStream.cc:34-38 | the cleartext of the first k+1 blocks is that of the first k plus block k's, and is a prefix of the whole |
| StreamLayout.AppendBlock | LiteCore/Support/EncryptedStream.cc:119 | appending a block appends its cleartext and its ciphertext size |
| EncryptedWriter.Create | LiteCore/Support/EncryptedStream.cc:62-97 | fails iff the algorithm is not AES-128; otherwise an open writer with nothing written, keeping the nonce, and keyed by the given key unchanged |
| EncryptedWriter.NonceIgnoredAsWritten | LiteCore/Support/EncryptedStream.cc:62-97 | two writers created under one key with different nonces encrypt block i under the same key and the same IV |
| EncryptedWriter.WriteBlock | LiteCore/Support/EncryptedStream.cc:107-125 | one block is appended, with the current block number as IV; the number goes up by one; the ciphertext is the plaintext size, or its padded size for the final block |
| EncryptedWriter.Write | LiteCore/Support/EncryptedStream.cc:128-147 | blocks then buffer hold everything written, in order; the buffer holds (old + new) mod 4096 bytes; (old + new) div 4096 full, non-final blocks are added |
| EncryptedWriter.WriteBlocks | LiteCore/Support/EncryptedStream.cc:138-146 | the whole-block loop: each block written is full and non-final, and the remainder is buffered |
| EncryptedWriter.WriteFullBlock | LiteCore/Support/EncryptedStream.cc:138-142 | writing one full block keeps the writer invariant and appends its bytes |
| EncryptedWriter.Close | LiteCore/Support/EncryptedStream.cc:150-159 | the buffer becomes one final padded block followed by the nonce, and the stream's cleartext is everything written; a closed writer is left as it is |
| EncryptedWriter.CloseIdempotent | LiteCore/Support/EncryptedStream.cc:150-151 | closing twice is closing once |
| EncryptedWriter.ClosedLayout | LiteCore/Support/EncryptedStream.cc:150-159 | n bytes give n div 4096 + 1 blocks; the final block is empty iff n is a multiple of 4096; the output is the full blocks, the padded remainder and the 16-byte nonce |
| EncryptedReader.U64 | LiteCore/Support/EncryptedStream.cc:169-170 | uint64_t wrap-around: the identity on 0..2^64-1 |
| EncryptedReader.Open | LiteCore/Support/EncryptedStream.cc:165-180 | a short nonce is CorruptData, then a non-AES-128 algorithm is UnsupportedEncryption; otherwise tell is 0, the input length excludes the trailer, and the key is the given key unchanged |
| EncryptedReader.EmptyInputFinalBlock | LiteCore/Support/EncryptedStream.cc:169-170 | an empty cleartext area wraps the final block number to (2^64-1) div 4096 |
| EncryptedReader.ReadSizeBounds | LiteCore/Support/EncryptedStream.cc:197-200 | each block read asks for 1 to 4096 bytes |
| EncryptedReader.DecryptBlock | LiteCore/Support/EncryptedStream.cc:203-209 | decryption succeeds iff the block was encrypted with this key, this IV and this padding mode at this size, and then yields its plaintext |
| EncryptedReader.ReadBlockFromFile | LiteCore/Support/EncryptedStream.cc:192-216 | past the final block it yields nothing; otherwise it yields block blockID's cleartext (at most 4096 bytes) and moves to the next block |
| EncryptedReader.ReadSizeIsCipherSize | LiteCore/Support/EncryptedStream.cc:197-200 | on a well-formed stream the size read is exactly the block's ciphertext size, the trailer excluded |
| EncryptedReader.ReadBlockOk | LiteCore/Support/EncryptedStream.cc:192-216 | on a well-formed stream every block up to the final one decrypts to its cleartext |
| EncryptedReader.FillBuffer | LiteCore/Support/EncryptedStream.cc:220-224 | the buffer holds the next block's cleartext (empty at EOF), its number is recorded, and the position is 0 |
| EncryptedReader.ReadFromBuffer | LiteCore/Support/EncryptedStream.cc:228-234 | copies min(buffered, count) bytes from the buffer position and advances it by that much |
| EncryptedReader.ReadDirect | LiteCore/Support/EncryptedStream.cc:243-245 | the direct-read loop only moves the block number and returns no more than asked |
| EncryptedReader.ReadAsWritten | LiteCore/Support/EncryptedStream.cc:237-254 | read as written returns at most count bytes |
| EncryptedReader.ReadDirectReadsClear | LiteCore/Support/EncryptedStream.cc:243-244 | the direct whole-block reads return the cleartext from their block on, stopping before a block with under 4096 bytes still wanted or at the end of the stream, and move only the file's block number |
| EncryptedReader.ReadAsWrittenReadsCleartext | LiteCore/Support/EncryptedStream.cc:237-254 | on a stream the writer produced, read as written returns the next min(count, rest) bytes of the cleartext from tell |
| EncryptedReader.Read | LiteCore/Support/EncryptedStream.cc:237-254 | the corrected read returns at most count bytes and keeps the input and key |
| EncryptedReader.ReadReadsCleartext | LiteCore/Support/EncryptedStream.cc:237-291 | on a stream the writer produced, the corrected read returns the next min(count, rest) bytes of the cleartext from tell, and tell advances by that much |
| EncryptedReader.Seek | LiteCore/Support/EncryptedStream.cc:272-284 | a seek keeps the reader's invariant, input and key |
| EncryptedReader.SeekTell | LiteCore/Support/EncryptedStream.cc:272-291 | after seek(pos), tell is min(pos, cleartext length) |
| EncryptedReader.FindLength | LiteCore/Support/EncryptedStream.cc:263-269 | finding the length keeps the reader's invariant |
| EncryptedReader.FindLengthIsClearLength | LiteCore/Support/EncryptedStream.cc:263-269 | findLength reports the cleartext length and restores tell |
| EncryptedReader.SeekThenRead | LiteCore/Support/EncryptedStream.cc:237-284 | seek then read, as written or corrected, returns the cleartext from the sought position |
| EncryptedReader.ClearLength | LiteCore/Support/EncryptedStream.cc:169-170 | the cleartext length is finalBlockID*4096 plus the final block's length, and is below the input length |
| EncryptedReader.FinalBlockOfStream | LiteCore/Support/EncryptedStream.cc:170 | (inputLength - 1) div 4096 is the number of the stream's last block |
| EncryptedReader.TellAtBoundary | LiteCore/Support/EncryptedStream.cc:287-291 | with the buffer used up, tell is blockID*4096 |
| EncryptedReader.ReadAsWrittenLeavesTellBehind | LiteCore/Support/EncryptedStream.cc:241-291 | as written, reading 8192 bytes from a fresh reader returns them but leaves tell at 0 |
| EncryptedReader.ReadAdvancesTell | LiteCore/Support/EncryptedStream.cc:237-291 | corrected, the same read leaves tell at 8192 |
| EncryptedReader.TwoReadsAsWritten | LiteCore/Support/EncryptedStream.cc:237-254 | as written, reading 100 then 8092 bytes leaves block 0 buffered (used up) while the file has moved past block 1 |
| EncryptedReader.SeekBackSkipsBlockAsWritten | LiteCore/Support/EncryptedStream.cc:272-284 | as written, seeking back to 0 in that state and reading 8192 bytes returns block 0 followed by block 2: block 1 is skipped |
| EncryptedReader.SeekBackRereads | LiteCore/Support/EncryptedStream.cc:272-284 | corrected, the same calls return the first 8192 bytes of the cleartext |
| StreamRoundTrip.OpenWrittenStream | LiteCore/Support/EncryptedStream.cc:150-180 | a reader opened with the key a closed writer used, on that writer's output, sees exactly the written cleartext, at position 0 |
| StreamRoundTrip.ReadBackWritten | LiteCore/Support/EncryptedStream.cc:128-254 | reading n bytes back, with read as written or corrected, gives the first n bytes written (all of them if fewer) |
| StreamRoundTrip.WriteThenReadBack | LiteCore/Support/EncryptedStream.cc:128-254 | create, write data, close, open under the same key and read as written: exactly the data comes back |
| ArgumentTokenizer.Finish | tools/ArgumentTokenizer.cc:67-75 | succeeds iff no quote is open and no escape is pending; the last argument is pushed only on success and only when non-empty |
| ArgumentTokenizer.TokenizeResult | tools/ArgumentTokenizer.cc:22-76 | a null input fails with the arguments untouched; the earlier arguments always stay a prefix |
| ArgumentTokenizer.Tokenize | tools/ArgumentTokenizer.cc:22-76 | the loop computes the functional tokenizer's result; null input fails; earlier arguments stay a prefix |
| ArgumentTokenizer.ScanAppend | tools/ArgumentTokenizer.cc:34-65 | scanning a + b is scanning a, then b |
| ArgumentTokenizer.ScanDropsLineBreaks | tools/ArgumentTokenizer.cc:37-39 | no argument or pending text ever holds CR or LF |
| ArgumentTokenizer.LineBreakSkipped | tools/ArgumentTokenizer.cc:37-39 | a CR or LF is skipped without touching the state, so a pending escape applies to the next character |
| ArgumentTokenizer.TokensHaveNoLineBreaks | tools/ArgumentTokenizer.cc:37-39 | no token the tokenizer returns holds CR or LF |
| ArgumentTokenizer.EmptyArgumentBetweenSpaces | tools/ArgumentTokenizer.cc:55-58 | "a  b" gives ["a", "", "b"] |
| ArgumentTokenizer.UnterminatedQuoteFails | tools/ArgumentTokenizer.cc:67-69 | "x 'y" fails and keeps the argument "x" already pushed |
| ArgumentTokenizer.EscapedCharacterLiteral | tools/ArgumentTokenizer.cc:41-64 | a backslash and a character add just that character, whatever it is |
| ArgumentTokenizer.ScanInsideQuote | tools/ArgumentTokenizer.cc:45-64 | inside a quote, text without the opening quote, a backslash or a line break is kept as is, spaces and the other quote included |
| ArgumentTokenizer.QuotedArgument | tools/ArgumentTokenizer.cc:45-54 | a quoted text is one argument without its quotes |
| ArgumentTokenizer.ScanEscaped | tools/ArgumentTokenizer.cc:41-64 | the escaped form of a text adds exactly that text to the current argument |
| ArgumentTokenizer.ScanJoined | tools/ArgumentTokenizer.cc:55-64 | escaped arguments joined by spaces scan to all but the last pushed, with the last pending |
| ArgumentTokenizer.TokenizeJoin | tools/ArgumentTokenizer.cc:22-76 | tokenizing non-empty arguments, escaped and joined by spaces, gives exactly those arguments back |
| NativeHandler.AllowError | CSharp/src/LiteCore.Shared/Interop/NativeHandler.cs:129-133 | appends the error to the allow-list and changes nothing else |
| NativeHandler.AllowErrorCode | CSharp/src/LiteCore.Shared/Interop/NativeHandler.cs:118-121 | appends C4Error(domain, code) to the allow-list and changes nothing else |
| NativeHandler.AllowErrors | CSharp/src/LiteCore.Shared/Interop/NativeHandler.cs:152-159 | appends the given errors in order; null changes nothing |
| NativeHandler.HandleExceptions | CSharp/src/LiteCore.Shared/Interop/NativeHandler.cs:168-172 | sets or clears the handler and changes nothing else |
| NativeHandler.IsAllowed | CSharp/src/LiteCore.Shared/Interop/NativeHandler.cs:247-252 | true iff some entry equals the error, or has domain 0 and the same code |
| NativeHandler.ThrowOrHandle | CSharp/src/LiteCore.Shared/Interop/NativeHandler.cs:241-259 | nothing happens when there is no exception or it is allowed; otherwise it throws iff there is no handler, and calls the handler iff there is one |
| NativeHandler.Complete | CSharp/src/LiteCore.Shared/Interop/NativeHandler.cs:179-186 | success clears Exception; failure records it and throws iff it is neither allowed nor handled; the handler is called once exactly when it is set and the error is not allowed |
| NativeHandler.ExecuteBool | CSharp/src/LiteCore.Shared/Interop/NativeHandler.cs:174-187 | succeeds iff the block returned true or the code is 0; returns true exactly on success; a failure records the error |
| NativeHandler.ExecutePointer | CSharp/src/LiteCore.Shared/Interop/NativeHandler.cs:189-203 | succeeds iff the result is non-null or the code is 0; returns the result on success and null on failure |
| NativeHandler.ExecuteInt | CSharp/src/LiteCore.Shared/Interop/NativeHandler.cs:205-219 | succeeds iff the result is >= 0 or the code is 0; returns the block's result either way |
| NativeHandler.ExecuteSlice | CSharp/src/LiteCore.Shared/Interop/NativeHandler.cs:221-235 | succeeds iff the slice's pointer is non-null or the code is 0; returns the block's slice either way |
| NativeHandler.FailurePolicy | CSharp/src/LiteCore.Shared/Interop/NativeHandler.cs:184-258 | after any failure, even a silenced one, Exception holds the error |
| NativeHandler.ZeroDomainMatchesAnyDomain | CSharp/src/LiteCore.Shared/Interop/NativeHandler.cs:248-249 | an entry with domain 0 silences that code in every domain |
| NativeHandler.OtherDomainNotAllowed | CSharp/src/LiteCore.Shared/Interop/NativeHandler.cs:248-249 | an entry with a real domain does not silence the same code in another domain |
| NativeHandler.AllowedStaysAllowed | CSharp/src/LiteCore.Shared/Interop/NativeHandler.cs:131-252 | adding entries never un-silences an error |
| NativeHandler.AllowListIsASet | CSharp/src/LiteCore.Shared/Interop/NativeHandler.cs:247-252 | only which entries are listed matters, not their order or repetition |
| NativeHandler.SuccessClearsException | CSharp/src/LiteCore.Shared/Interop/NativeHandler.cs:179-197 | a success after a failure clears Exception |
| ReplicatorStatus.MaxLevel | Replicator/Replicator.cc:167 | the greater of two activity levels in enum order |
| ReplicatorStatus.AddProgress | Replicator/Replicator.cc:140 | each counter is the 64-bit sum, and the exact sum when it fits |
| ReplicatorStatus.InitialLevel | Replicator/Replicator.cc:64-65 | Stopped iff the direction is disabled, Busy otherwise |
| ReplicatorStatus.Create | Replicator/Replicator.cc:63-65 | push and pull start at their initial levels with no error, in the connection's state, with no effects yet |
| ReplicatorStatus.Stop | Replicator/Replicator.cc:104-109 | with a connection, a close is requested and the state is Closing; without one, nothing changes |
| ReplicatorStatus.ComputeActivityLevel | Replicator/Replicator.cc:158-186 | Connecting while connecting; Busy while closing; after the connection, Busy iff the database worker is busy, else Stopped; when connected, at least push and pull, Busy with an unsaved checkpoint, and never Idle for a one-shot client, which stops instead |
| ReplicatorStatus.ConnectedIsActive | Replicator/Replicator.cc:175 | a connected replicator is not Stopped when the base worker is not |
| ReplicatorStatus.StoppedOnlyWhenDone | Replicator/Replicator.cc:158-186 | Stopped iff the connection is gone and the database worker is not busy |
| ReplicatorStatus.ConnectedLevelIsGreatest | Replicator/Replicator.cc:162-177 | connected with a saved checkpoint, the level is the greatest input level, except that a finished one-shot client reports Busy |
| ReplicatorStatus.CompletionStopsOnce | Replicator/Replicator.cc:104-174 | after the completion stop, asking again reports Busy with no second close |
| ReplicatorStatus.UpdateSlot | Replicator/Replicator.cc:131-137 | only the reporting child's slot changes |
| ReplicatorStatus.ChildChangedStatus | Replicator/Replicator.cc:126-155 | ignored once stopped; otherwise only the reporter's slot changes, progress becomes push + pull, the pull error (else the push error) is reported, and a stopped child causes one checkpoint save |
| ReplicatorStatus.PullErrorPreferred | Replicator/Replicator.cc:147-150 | with both errors set, the pull error is the one reported |
| ReplicatorStatus.PushPullReportsCommute | Replicator/Replicator.cc:126-155 | push and pull reports in either order give the same statuses, progress and checkpoint saves |
| ReplicatorStatus.ProgressStaysSum | Replicator/Replicator.cc:139 | after any sequence of reports, progress is push + pull progress |
| ReplicatorStatus.Replay | Replicator/Replicator.cc:126-129 | reports never change the replicator's own level |
| ReplicatorStatus.CloseError | Replicator/Replicator.cc:274-287 | no error iff a WebSocket close with code 1000; reasons 0-2 keep the code under their domain; others become LiteCore's remote error (26) |
| ReplicatorStatus.OnClose | Replicator/Replicator.cc:250-291 | takes the new state and drops the connection; a normal close not started locally is recorded as 1001 "WebSocket connection closed by peer"; the close's error, if any, is appended |
| ReplicatorStatus.RequestedCloseIsClean | Replicator/Replicator.cc:254-277 | a requested close with code 1000 records no error |
| ReplicatorStatus.PeerCloseIsGoingAway | Replicator/Replicator.cc:254-287 | a normal close started by the peer is reported as WebSocket error 1001 |
| ReplicatorStatus.CloseErrorIff | Replicator/Replicator.cc:267-287 | an error is recorded iff the close is not a requested WebSocket close with code 1000 |
| ReplicatorStatus.TransportErrorsKeepCode | Replicator/Replicator.cc:274-285 | POSIX and network closes keep their code in their domain; exception and unknown closes become LiteCore error 26 |
| DocumentDefs.DocumentFlagsAreDistinctBits | CSharp/src/LiteCore.Shared/Interop/C4Document_defs.cs:34-40 | each document flag is a single bit and no two share one |
| DocumentDefs.RevisionFlagsAreDistinctBits | CSharp/src/LiteCore.Shared/Interop/C4Document_defs.cs:48-56 | each revision flag is a single bit of the byte and no two share one |
| DocumentDefs.RevisionFlagsFitInSixBits | CSharp/src/LiteCore.Shared/Interop/C4Document_defs.cs:48-56 | all six revision flags together are 0x3F |
| DocumentDefs.SettingFlagKeepsOthers | CSharp/src/LiteCore.Shared/Interop/C4Document_defs.cs:48-56 | setting one revision flag sets it and leaves every other flag as it was |
| DocumentDefs.ByteToBool | CSharp/src/LiteCore.Shared/Interop/C4Document_defs.cs:92 | a byte reads as true iff it is non-zero |
| DocumentDefs.BoolToByte | CSharp/src/LiteCore.Shared/Interop/C4Document_defs.cs:95 | a boolean is stored as 1 or 0 and reads back as itself |
| DocumentDefs.ByteRoundTrip | CSharp/src/LiteCore.Shared/Interop/C4Document_defs.cs:89-97 | reading a byte and storing it back is exact iff the byte is 0 or 1 |
| DocumentDefs.SetExistingRevision | CSharp/src/LiteCore.Shared/Interop/C4Document_defs.cs:89-97 | the getter returns the value set; only its own byte changes |
| DocumentDefs.SetAllowConflict | CSharp/src/LiteCore.Shared/Interop/C4Document_defs.cs:99-107 | the getter returns the value set; only its own byte changes |
| DocumentDefs.SetSave | CSharp/src/LiteCore.Shared/Interop/C4Document_defs.cs:119-127 | the getter returns the value set; only its own byte changes |
| DocumentDefs.SetHistoryCount | CSharp/src/LiteCore.Shared/Interop/C4Document_defs.cs:109-117 | succeeds iff the value fits the platform's pointer width; then the getter returns it and only that field changes |
| DocumentDefs.HistoryCountAlwaysFits64 | CSharp/src/LiteCore.Shared/Interop/C4Document_defs.cs:114-116 | on a 64-bit platform every ulong is stored as is |
| DocumentDefs.SettersIndependent | CSharp/src/LiteCore.Shared/Interop/C4Document_defs.cs:78-127 | after setting the three booleans, each reads back its own value and every other field is unchanged |
| DocumentDefs.RewriteNormalises | CSharp/src/LiteCore.Shared/Interop/C4Document_defs.cs:119-127 | writing back what the getter read changes nothing iff the byte was 0 or 1 |

## Left out

- Fleece values and JSON parsing: the query arrives as a `Json` datatype. A number or null is written with a `ToText` that stands in for Fleece's `toString`: decimal integers, and "" for non-scalars. Reals are kept abstract.
- Fleece's `toString` on reals: floating point is not modelled.
- `parseNode` on JSON null writes "null" and then null's own text, because the source's switch falls through from the null case into the number case. This is modelled literally.
- `parse`, `writeSelect`, `selectOp`'s statement writer and `findFTSProperties`: the nested SELECT writer depends on members initialised in a header that is not part of this model. `SelectOp` stops with `SelectNotModelled` where it would write the statement.
- The `kOrderByOperation` row and `Warn` logging are not modelled.
- QueryParser.PropertyFromNode: an empty operator string `[""]` reads `op[0]` past the end of an empty slice in the source; the model takes that byte to be NUL, so such a node gives "" like any non-property.
- QueryParser.PrefixOp, QueryParser.PostfixOp, QueryParser.ExistsOp, QueryParser.BetweenOp, QueryParser.InOp, QueryParser.FunctionOp: these contracts state only that the context stack and the variables in scope are kept. The exact SQL text is pinned down only for infix operations (`InfixStep`, `BinaryInfix`), not for each of these handlers.
- The AES-128 cipher, `SecureRandomize`, logging and the `AES128_AVAILABLE` switch: the cipher is symbolic and the nonce is a parameter. A build without AES is the same as asking for another algorithm.
- Stream I/O: the reader's file is the list of encrypted blocks, read sequentially. `getLength`'s cache of the length is not modelled; `FindLength` is.
- EncryptedReader.Seek, EncryptedReader.FindLength and EncryptedReader.Read: on an arbitrary input their contracts state only invariants. Their full meaning is proved for streams the writer produced (`SeekTell`, `FindLengthIsClearLength`, `ReadReadsCleartext`, `ReadAsWrittenReadsCleartext`).
- ReadReadsCleartext: that `tell` advances past the bytes read, and that the reader stays positioned for the next read, is proved for the corrected `read` only. The source's `read` returns the same bytes (`ReadAsWrittenReadsCleartext`) but leaves `tell` behind (Findings, third row).
- EncryptedReader.Open: the nonce read is an input. The constructor's two seeks on the underlying file are not modelled.
- ArgumentTokenizer.Tokenize: the input is a C string, so it holds no NUL; the precondition says so.
- NativeHandler.AllowErrors: the fluent methods return the same instance in C#. The model returns the updated handler value, so object identity is not modelled.
- The `LiteCoreException` object and the handler delegate: an exception is its `C4Error`; the handler is present or absent, and its calls are recorded. `Debug.Assert` on the block is not modelled.
- `C4Error` equality compares domain, code and internal info, as the C# struct's default `Equals` does. `new C4Error(domain, code)` leaves the internal info 0. The `C4Error` declaration is not part of this model.
- Actors, threads, the BLIP connection, cookies, the checkpoint exchange and the delegate notifications of the replicator are not modelled. `Worker::computeActivityLevel`, `_checkpoint.isUnsaved()`, `isContinuous()` and `isOpenServer()` are parameters. `_checkpoint.save()` is counted, and `stopAutosave` and `connectionClosed` are not modelled.
- ReplicatorStatus.ChildChangedStatus and ReplicatorStatus.OnClose: `onError` and `gotError` belong to the base worker, which is not part of this model. Their calls are recorded in order in the `errors` log. Their effect on the worker's own status is not modelled, so `status.error` here is the field as it was, not the error the worker would now report.
- ReplicatorStatus.ConnectedIsActive: the source asserts that a connected replicator is above Stopped. That holds only if the base worker's own level is above Stopped, which this lemma assumes.
- `C4Progress.documentCount` is not added by the replicator and is not modelled. `logDebug` is not modelled.
- `Connection::CloseStatus::isNormal` and the order of `websocket::CloseReason` come from headers that are not part of this model. They are taken as a WebSocket close with code 1000 or 1001, and as the order WebSocket, POSIX, Network, Exception, Unknown. `kC4ErrorRemoteError` is taken as 26.
- `c4error_make`'s message argument is not kept in the recorded `C4Error`.
- DocumentDefs: `maxRevTreeDepth` and `remoteDBID` are `uint` fields modelled as unbounded naturals, since no modelled code writes them. `history` is an opaque pointer.
- DocumentDefs.SetHistoryCount: the cast of a ulong to `UIntPtr` is taken to throw an overflow on a 32-bit platform for values above 2^32-1. On 64-bit it always succeeds.

## Findings

| source | as written | input that shows it | evidently intended | confidence | as-written member | corrected member |
|---|---|---|---|---|---|---|
| LiteCore/Query/QueryParser.cc:650-654 | rank() looks up the bare property name in the FTS list, but `AddFTSPropertyIndex` (703-712) stores the full path under the property-path prefix | property path "doc", MATCH on "text" then rank("text"): the list holds "doc.text", so rank() fails with "rank() can only be used with FTS properties" | look up (and name the table by) `appendPaths(_propertyPath, property)` | not executed; medium (also with no prefix: MATCH on "$.text" stores "text") | QueryParser.WritePropertyGetter, QueryParser.RankGetterAsWritten, QueryParser.RankAsWrittenMissesMatchedProperty, QueryParser.RankAsWrittenMissesRootedProperty | QueryParser.RankGetter, QueryParser.RankFindsMatchedProperty |
| LiteCore/Support/EncryptedStream.cc:62-77 | the design comment (30-32) says the key is XORed with the nonce, but `initEncryptor` only copies both, and the key is used unchanged | two streams written with the same key and different nonces: both encrypt under the same key with the same block-number IVs | encrypt under key XOR nonce | not executed; medium (the XOR might happen in code that is not part of this model) | EncryptedWriter.Create, EncryptedWriter.NonceIgnoredAsWritten | StreamLayout.DeriveKey, StreamLayout.DeriveKeyInjective |
| LiteCore/Support/EncryptedStream.cc:237-291 | `read` decrypts whole blocks straight to the caller without updating `_bufferBlockID` or `_bufferPos`, so `tell` and `seek` use a stale buffered block | a fresh reader on a 3-block stream and read(8192): tell() is 0 instead of 8192. Or, on a 4-block stream, read(100), read(8092), seek(0), read(8192): block 0 then block 2 come back, and block 1 is skipped | route every block through the buffer, or update the buffered block number after direct reads | not executed; high | EncryptedReader.ReadAsWritten, EncryptedReader.ReadAsWrittenLeavesTellBehind, EncryptedReader.SeekBackSkipsBlockAsWritten | EncryptedReader.Read, EncryptedReader.ReadAdvancesTell, EncryptedReader.SeekBackRereads |
