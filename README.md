# JSON-subset parser, brace checker and Huffman coder, in Dafny

This project models three small tools of the repository and proves properties
of the models.

* **The JSON-subset parser** (`app2/parser.py`). A generator lexer turns a text
  into tokens: the six structural characters, STRING, BOOLEAN, NULL, NUMBER,
  then EOF, or a single INVALID token that ends the stream. A recursive-descent
  parser (`parse_value`, `parse_array`, `parse_object`, `parser`) reads one
  value from the token list and then expects EOF. Every `print(...); sys.exit(1)`
  of the parser is an error value of its own (`JsonParser.ParseError`). Running
  past the end of the token list (`StopIteration`) is the error `OutOfTokens`,
  and it is proved never to happen on a list the lexer produced.
  The parser is modelled as written. `parse_value` consumes the opening `[` or
  `{`, and then `parse_array` / `parse_object` demand the opener a second time.
  So `[]` and `{}` are rejected, `[[1,2]` is the array `[1, 2]`, and `[[1]]` is
  rejected for its trailing `]`. Each grammar routine is a specification
  function over a token list and a cursor. A method with the source's loops
  is proved equal to it.
* **The brace checker** (`json_parser/parser.py`). A lexer knows only `{` and
  `}` and stops with INVALID at any other character. The acceptor reads at
  most three tokens. The model proves that the checker accepts exactly the
  text `{}` and never runs out of tokens.
* **The Huffman coder** (`app3/custom_compression_tool.py`). `Node`,
  `build_huffman_tree`, `generate_codes`, `encode`, `decode` and the frequency
  table of `main` are modelled.
  * The building loop keeps a forest whose leaves are exactly the table, whose
    weights add up to the table's total, and whose trees are well weighted.
    It ends with one tree holding one inner node per merge.
  * The codes are the root-to-leaf paths of that tree, and they are prefix-free.
  * Decoding an encoding gives the text back whenever the tree has an inner
    root, distinct leaves and a leaf for every character of the text, as the
    tree built from a text's table has when the text holds two or more
    distinct characters.
  * A text of one repeated character is coded as the empty string and
    decodes to the empty string.

The parser's inverse is written out as well (`JsonRoundTrip.Emit`: each opener
twice, commas between elements and members, one closer). Every value whose
objects have unique keys is read back from its tokens, and every value the
parser produces is such a value.

The lexer helpers as written never move the lexer's position forward (see
"Findings"). The parser and the examples use the corrected lexer. The loop as
written is modelled next to it.

## Model

| member | source | states |
|---|---|---|
| JsonLexer.ScanString | app2/parser.py:77-85 | a STRING token exactly when a closing quote follows on the same line; its text has no quote or newline, and the matched length covers the text and both quotes |
| JsonLexer.ScanBoolean | app2/parser.py:87-93 | BOOLEAN exactly when the keyword starts at `pos`, matched length the keyword's; otherwise the INVALID message naming the keyword |
| JsonLexer.ScanNull | app2/parser.py:95-101 | NULL exactly when `null` starts at `pos`, matched length 4; otherwise INVALID "Invalid null syntax" |
| JsonLexer.ScanNumber | app2/parser.py:103-111 | a NUMBER exactly when a digit follows the optional `-`; otherwise INVALID "Invalid number format"; a number matches at least one character |
| JsonLexer.ScanNumberLexeme | app2/parser.py:105-108 | the matched text fits `-?\d+(\.\d+)?`; the payload is `int` of the text when it has no `.`, otherwise the text itself |
| JsonLexer.NumberIsLongest | app2/parser.py:105 | no longer prefix of the rest of the input fits the number pattern (greedy match) |
| JsonLexer.ScanScalar | app2/parser.py:59-68 | the helper chosen by the current character never yields EOF, and a non-INVALID token consumes at least one character |
| JsonLexer.Step | app2/parser.py:38-73 | a pass of the loop that does not return moves `pos` forward and stays inside the text |
| JsonLexer.StepShape | app2/parser.py:38-73 | a pass yields at most one token, and it returns exactly when that token is INVALID |
| JsonLexer.LexStep | app2/parser.py:38-75 | one pass appends its token to the stream and the stream goes on from the new position, unless the pass returned |
| JsonLexer.Lexer | app2/parser.py:18-75 | the `while` loop yields exactly the token stream `Tokenize(s)` |
| JsonLexer.LexTerminated | app2/parser.py:38-75 | the stream ends in exactly one EOF or INVALID token, with nothing after it |
| JsonLexer.EofIffNoInvalid | app2/parser.py:71-75 | the stream ends in EOF exactly when it holds no INVALID token |
| JsonLexer.LexStructuralText | app2/parser.py:38-70 | a text of structural characters and white space yields one token per structural character, then EOF |
| JsonLexer.LexUnknownCharacter | app2/parser.py:71-73 | a character that starts no token yields INVALID carrying it, and the stream ends |
| JsonLexer.WrittenStep | app2/parser.py:38-73 | one pass of the loop as written: at most one token; `pos` moves by one at a structural character or whitespace and stays put otherwise; the loop returns exactly at an unknown character, after yielding it as INVALID |
| JsonLexer.WrittenRun | app2/parser.py:38-75 | the generator as written, run for a bounded number of passes: at most one token per pass, and when it has finished its last token is EOF or INVALID |
| JsonLexer.WrittenRunRepeats | app2/parser.py:59-68 | as written, at a string, keyword or number the loop yields the same token on every pass and never finishes |
| JsonLexer.OneDigitInput | app2/parser.py:67-68 | for the input `1` the corrected lexer yields NUMBER 1 then EOF, and the loop as written never finishes |
| JsonParser.InsertSpec | app2/parser.py:183 | `obj[key] = value`: the key maps to the value, other keys keep theirs, a present key keeps its place, a new key goes last, keys stay unique |
| JsonParser.DuplicateKeyLastWins | app2/parser.py:183 | writing a key twice keeps one entry holding the later value |
| JsonParser.ValueAt | app2/parser.py:147-161 | a parsed value leaves the cursor past the token it started at |
| JsonParser.ArrayAt | app2/parser.py:113-122 | a parsed array leaves the cursor past the position it started at |
| JsonParser.ArrayItems | app2/parser.py:122-134 | the array loop, when it succeeds, leaves the cursor past its current token |
| JsonParser.ObjectAt | app2/parser.py:163-172 | a parsed object leaves the cursor past the position it started at |
| JsonParser.ObjectMembers | app2/parser.py:172-198 | the object loop, when it succeeds, leaves the cursor past its current token |
| JsonParser.ParseValue | app2/parser.py:136-161 | `parse_value` returns what the grammar function `ValueAt` defines |
| JsonParser.ParseArray | app2/parser.py:113-134 | `parse_array`, with its `while` loop, returns what `ArrayAt` defines |
| JsonParser.ParseObject | app2/parser.py:163-198 | `parse_object`, with its `while` loop and `break`, returns what `ObjectAt` defines |
| JsonParser.Parser | app2/parser.py:200-222 | `parser` lexes, parses one value and checks the next token, with the outcome `ParseText(s)` |
| JsonParser.ValueAtInBounds | app2/parser.py:147-161 | on a list ending in EOF or INVALID, `parse_value` never runs out of tokens and stops before the end |
| JsonParser.ArrayAtInBounds | app2/parser.py:113-122 | the same for `parse_array` |
| JsonParser.ArrayItemsInBounds | app2/parser.py:122-134 | the same for the array loop |
| JsonParser.ObjectAtInBounds | app2/parser.py:163-172 | the same for `parse_object` |
| JsonParser.ObjectMembersInBounds | app2/parser.py:172-198 | the same for the object loop |
| JsonParser.TopLevel | app2/parser.py:212-220 | on such a list the parse never runs out of tokens, and it succeeds exactly when the value parses and EOF follows it |
| JsonParser.ParseTextNeverRunsOut | app2/parser.py:207-220 | parsing any text never calls `next` on an exhausted iterator |
| JsonParser.ArrayTrailingComma | app2/parser.py:123-129 | in an array, a comma right before `]` is accepted: the element before it is the last one appended |
| JsonParser.ObjectTrailingComma | app2/parser.py:173-196 | in an object, a comma right before `}` is accepted: the member before it is the last one set |
| JsonParser.ValueAtScalars | app2/parser.py:147-161 | a STRING, BOOLEAN, NULL or NUMBER token is returned as its payload, one token consumed; a closer, colon, comma, EOF or INVALID is "Unexpected token" |
| JsonParser.OpenerTwice | app2/parser.py:116-118 | a successfully parsed array or object starts with its opener twice in a row, and the value has the opener's kind |
| JsonParser.ArrayItemsAppend | app2/parser.py:123-125 | the array loop only appends: the elements gathered so far begin the result |
| JsonParser.ObjectMembersIsObject | app2/parser.py:172-198 | the object loop, when it succeeds, yields an object |
| JsonParser.ValueAtWellFormed | app2/parser.py:183 | every object in a parsed value has unique keys, at every depth |
| JsonParser.ArrayAtWellFormed | app2/parser.py:113-134 | the same for `parse_array` |
| JsonParser.ArrayItemsWellFormed | app2/parser.py:122-134 | the same for the array loop, given well-formed elements so far |
| JsonParser.ObjectAtWellFormed | app2/parser.py:163-198 | the same for `parse_object` |
| JsonParser.ObjectMembersWellFormed | app2/parser.py:172-198 | the same for the object loop, given a well-formed dict so far |
| JsonParser.ParseTextWellFormed | app2/parser.py:200-222 | whatever text parses, its value is well formed |
| JsonRoundTrip.ParseEmit | app2/parser.py:212-220 | every well-formed value is read back from its tokens (`Emit`) followed by EOF: the parse after lexing (`ParseTokens`) is onto the well-formed values, Python's recursion limit aside (see Left out); from text only values whose strings hold no quote or newline and whose fractional payloads match the number pattern are reached |
| JsonRoundTrip.ReparseEmit | app2/parser.py:200-222 | a parsed value, written out and parsed again, gives the same outcome |
| JsonRoundTrip.EmitParses | app2/parser.py:136-161 | wherever the tokens of a well-formed value occur, `parse_value` reads exactly that value and stops right after its tokens |
| JsonRoundTrip.ValueAtOpen | app2/parser.py:113-122 | an opener written twice takes `parse_value` straight into the loop of `parse_array` or `parse_object` with nothing gathered |
| JsonRoundTrip.EmitItemsParse | app2/parser.py:122-134 | the array loop, with the first `i` elements gathered, reads the remaining elements and the closer and returns the whole array |
| JsonRoundTrip.EmitItemParse | app2/parser.py:123-132 | the same, from a pass over an element that is present |
| JsonRoundTrip.ArrayItemsStep | app2/parser.py:123-132 | one pass of the array loop: the element is appended, then a `]` ends the loop or a comma starts the next pass |
| JsonRoundTrip.ItemsJoin | app2/parser.py:124-129 | an element followed by a comma: the loop goes on with the element appended |
| JsonRoundTrip.ItemsClose | app2/parser.py:124-134 | the last element followed by `]`: the loop returns the array |
| JsonRoundTrip.EmitMembersParse | app2/parser.py:172-198 | the object loop, with the first `i` members set, reads the remaining members and the closer and returns the whole dict |
| JsonRoundTrip.EmitMemberParse | app2/parser.py:173-192 | the same, from a pass over a member that is present |
| JsonRoundTrip.ObjectMembersStep | app2/parser.py:173-192 | one pass of the object loop: the key is set to the value, then a `}` ends the loop or a comma starts the next pass |
| JsonRoundTrip.MemberStep | app2/parser.py:182-189 | for a dict with unique keys, the pass over member `i` extends the dict by exactly that member |
| JsonRoundTrip.InsertNew | app2/parser.py:183 | setting a key that is not present appends its entry at the end |
| JsonRoundTrip.MemberIsNew | app2/parser.py:183 | setting the `i`-th key of a dict with unique keys onto its first `i` entries gives its first `i + 1` entries |
| JsonExamples.EmptyArrayRejected | app2/parser.py:116-120 | `[]` is rejected with "Expected opening bracket" |
| JsonExamples.EmptyObjectRejected | app2/parser.py:166-170 | `{}` is rejected with "Expected opening brace" |
| JsonExamples.NestedArray | app2/parser.py:113-134 | `[[1,2]` parses to the array `[1, 2]` |
| JsonExamples.TrailingCommaAccepted | app2/parser.py:127-129 | `[[1,]` parses to `[1]`: a comma before the closer is accepted |
| JsonExamples.MatchedClosersRejected | app2/parser.py:217-220 | `[[1]]` is rejected for the `]` left after the value |
| JsonExamples.OneMemberObject | app2/parser.py:163-198 | `{{"a":1}` parses to the object with one member `a: 1` |
| JsonExamples.MissingColonRejected | app2/parser.py:177-179 | `{{"a" 1}` is rejected with "Expected colon after key" |
| JsonExamples.ParseDuplicateKey | app2/parser.py:183 | on the tokens of `{{"a":1,"a":2}` the object has one member, `a: 2` |
| BraceChecker.BraceToken | json_parser/parser.py:27-32 | `{` gives LBRACE and `}` gives RBRACE |
| BraceChecker.BraceTokensShape | json_parser/parser.py:24-39 | one token per leading brace, then EOF if the text was all braces, or else INVALID carrying the first other character, and nothing after it |
| BraceChecker.Lex | json_parser/parser.py:10-39 | the generator, run to exhaustion, yields exactly `BraceTokens(s)` |
| BraceChecker.Check | json_parser/parser.py:43-61 | the verdict is Valid exactly when the tokens begin LBRACE, RBRACE, EOF, and OutOfTokens exactly when the stream is a proper beginning of those three |
| BraceChecker.CheckReadsThree | json_parser/parser.py:42-61 | the verdict depends on the first three tokens only |
| BraceChecker.NeverOutOfTokens | json_parser/parser.py:42-61 | the acceptor never calls `next` past the end of the stream |
| BraceChecker.AcceptsOnlyEmptyObject | json_parser/parser.py:42-61 | the verdict is "Valid JSON" exactly for the text `{}` |
| BraceChecker.Parser | json_parser/parser.py:42-61 | `parser` exits with 0 exactly for `{}` and with 1 otherwise, and never runs out of tokens |
| HuffmanTree.WeightIsLeafWeight | app3/custom_compression_tool.py:56 | in a tree whose inner nodes carry the sum of their children, the root carries the total frequency of the leaves |
| HuffmanTree.LeavesOutnumberMerges | app3/custom_compression_tool.py:53-59 | a tree has one more leaf than it has inner nodes |
| HuffmanTree.InitialLeaves | app3/custom_compression_tool.py:50 | the initial heap holds one leaf per table entry |
| HuffmanTree.InitialChars | app3/custom_compression_tool.py:50 | the initial heap's characters are the table's |
| HuffmanTree.InitialWeight | app3/custom_compression_tool.py:50 | the initial heap weighs the table's total and holds no inner node |
| HuffmanTree.MinIndex | app3/custom_compression_tool.py:54-55 | `heappop` takes a node of least frequency |
| HuffmanTree.MergeRoundLeaves | app3/custom_compression_tool.py:54-59 | one round of pop, pop, merge, push keeps every leaf and character |
| HuffmanTree.MergeRoundWeight | app3/custom_compression_tool.py:54-59 | one round keeps the total weight and adds exactly one inner node |
| HuffmanTree.MergeRoundWellWeighted | app3/custom_compression_tool.py:56-58 | the merged node carries the sum of its children, so every tree stays well weighted |
| HuffmanTree.RoundKeepsInvariant | app3/custom_compression_tool.py:53-59 | the building loop's invariant holds after every round |
| HuffmanTree.LastNode | app3/custom_compression_tool.py:61 | the one node left holds the table's leaves, the total frequency and one inner node per merge |
| HuffmanTree.BuildHuffmanTree | app3/custom_compression_tool.py:45-61 | the root's leaves are exactly the table's entries, every inner node weighs the sum of its children, the root weighs the total, and there are `n - 1` inner nodes for `n` entries |
| HuffmanCodes.CodesFrom | app3/custom_compression_tool.py:63-77 | the codebook gains exactly the tree's characters |
| HuffmanCodes.CodesFromKeeps | app3/custom_compression_tool.py:71-75 | entries for characters outside the subtree are left as they were |
| HuffmanCodes.CodesFromPaths | app3/custom_compression_tool.py:71-75 | each character of a subtree gets the prefix followed by its path from the subtree's root, and that path is written in `0` and `1` only |
| HuffmanCodes.CodesFromBinary | app3/custom_compression_tool.py:71-75 | from a binary prefix and a binary codebook every entry stays binary: a step left appends `0` and a step right appends `1` |
| HuffmanCodes.CodesArePaths | app3/custom_compression_tool.py:63-77 | with distinct leaves, the codes cover exactly the leaf characters, each code leads from the root to that character's leaf, and every code uses only `0` and `1` |
| HuffmanCodes.CodesPrefixFree | app3/custom_compression_tool.py:63-77 | no code begins another character's code |
| HuffmanCodes.CodesNonEmpty | app3/custom_compression_tool.py:74-75 | below an inner root no code is empty |
| HuffmanCodes.SingleLeafCode | app3/custom_compression_tool.py:71-73 | a tree that is one leaf gives its character the empty code |
| HuffmanCodes.LeafEndsPath | app3/custom_compression_tool.py:91-95 | a path that ends at a leaf cannot be extended to another leaf |
| HuffmanCodes.Codebook.Generate | app3/custom_compression_tool.py:63-77 | filling the shared dictionary in place leaves it as `CodesFrom` of its old contents |
| HuffmanCodes.GenerateCodes | app3/custom_compression_tool.py:63-77 | `generate_codes(root)` returns `Codes(root)`: one root-to-leaf path per character, every code using only `0` and `1` |
| HuffmanCodes.Encode | app3/custom_compression_tool.py:79-83 | the encoding is as long as the codes of the text's characters together (`CodeLengths`, summed independently) |
| HuffmanCodes.EncodeAppend | app3/custom_compression_tool.py:79-83 | encoding a concatenation concatenates the encodings |
| HuffmanCodes.EncodeBinary | app3/custom_compression_tool.py:79-83 | with binary codes the encoded string holds only `0` and `1` |
| HuffmanCodes.EncodeEmptyCodes | app3/custom_compression_tool.py:79-83 | with empty codes the encoding is empty |
| HuffmanCodes.Decode | app3/custom_compression_tool.py:85-97 | the `for` loop over the bits gives `DecodeSpec(bits, root)` |
| HuffmanCodes.DecodeFrom | app3/custom_compression_tool.py:89-97 | the loop of `decode` from a cursor: when it succeeds it emits at most one character per symbol |
| HuffmanCodes.DecodeFromInner | app3/custom_compression_tool.py:91-95 | below an inner root the walk never steps off a leaf |
| HuffmanCodes.DecodeFails | app3/custom_compression_tool.py:91-95 | decoding fails (AttributeError) exactly when the root is a leaf and there are bits |
| HuffmanCodes.DecodePath | app3/custom_compression_tool.py:91-95 | following a root-to-leaf path emits that leaf's character and resumes at the root |
| HuffmanCodes.DecodeEncode | app3/custom_compression_tool.py:79-97 | over an inner root with distinct leaves, `decode(encode(s))` is `s` |
| HuffmanCodes.SingleLeafLosesText | app3/custom_compression_tool.py:71-97 | over a one-leaf tree, a text of that character encodes to `""` and decodes to `""` |
| HuffmanMain.Distinct | app3/custom_compression_tool.py:108 | `set(input_string)`: each character of the text once, nothing else |
| HuffmanMain.CountsOf | app3/custom_compression_tool.py:108 | one entry per listed character, holding its count in the text |
| HuffmanMain.CountsSum | app3/custom_compression_tool.py:108 | the counts of all distinct characters add up to the text's length |
| HuffmanMain.CountsCover | app3/custom_compression_tool.py:108 | counted over any order of the distinct characters, the table lists each character of the text once, with `input_string.count(char)`, and the counts add up to its length |
| HuffmanMain.FrequenciesCount | app3/custom_compression_tool.py:108 | the table lists each character of the text once, with `input_string.count(char)`, and the counts add up to its length |
| HuffmanMain.TreeOfText | app3/custom_compression_tool.py:108-111 | the tree built from a text's table holds each character of the text at exactly one leaf |
| HuffmanMain.OneCharacterTree | app3/custom_compression_tool.py:108-111 | a text with one distinct character gives a one-leaf tree of that character |
| HuffmanMain.Compress | app3/custom_compression_tool.py:99-122 | for any order in which `set(input_string)` lists the distinct characters, decoding gives the text back exactly when it has two or more distinct characters; a text of one repeated character encodes to `""` and decodes to `""`; the encoded string holds only `0` and `1` |
| HuffmanMain.CompressText | app3/custom_compression_tool.py:99-122 | the same outcome in first-occurrence order, with a binary encoded string |

## Left out

- Console I/O (`input`, `print`) and `sys.exit` are left out. Exit statuses and messages are the verdict and error values.
- `float(value)` is left out: a fractional NUMBER keeps its text (`Fractional`), because floating point is not modelled.
- JsonLexer.IsDigit: `str.isdigit` and `\d` accept Unicode digits, but the model accepts only `0`-`9`. Python's `isspace` is listed character by character.
- The regular expressions of `parse_string` and `parse_number` are written out as scanning functions. The regex engine is not modelled.
- JsonLexer.Lexer: the generator is modelled as the whole list it yields. `parser` consumes that list at once, so laziness is not observable there.
- JsonLexer.Lexer stops after an INVALID token from a helper. In the source as written a helper's INVALID repeats forever (see "Findings"), so `list(tokens)` never returns and `parser` never sees a token. In the model the parser rejects INVALID.
- BraceChecker.Lex: its generator is modelled as the list it yields. `parser` reads at most three of its tokens.
- The `__main__` blocks, `Node.__str__` and the debugging prints are left out.
- HuffmanTree.MinIndex: `heapq` is modelled as a list from which the first node of least frequency is removed. `heapq`'s order among equal frequencies is not modelled. It changes which codes are chosen, but not the properties proved.
- HuffmanTree.BuildHuffmanTree: the optimality of the codes is not stated. The contract states what the tree holds, not that its weighted path length is minimal.
- HuffmanTree.BuildHuffmanTree, HuffmanMain.Compress and HuffmanMain.CompressText require a non-empty table and text. On an empty one the source raises IndexError at `heap[0]`.
- HuffmanTree.Node: nodes are values. The source creates a merged node and then assigns its children, and that is modelled as constructing the node with its children.
- HuffmanMain.Distinct: `set(input_string)` has no specified order. `HuffmanMain.Compress` takes that order as a parameter and is proved for every order without repeats that holds exactly the text's characters. `Distinct` gives one such order, first occurrence, and `CompressText` uses it.
- JsonParser.ValueAt: Python's recursion limit is not modelled. `parse_value` and `parse_array` (or `parse_object`) take two stack frames per level of nesting, so about 500 nested arrays or objects raise an uncaught RecursionError in the source, while the model parses any depth.
- HuffmanCodes.Encode: a character without a code (KeyError) cannot occur for a text whose table built the tree, so `Encode` requires every character to have a code.

## Findings

| source | as written | input that shows it | evidently intended | confidence | as-written member | corrected member |
|---|---|---|---|---|---|---|
| app2/parser.py:59-68 | `parse_string`, `parse_boolean`, `parse_null` and `parse_number` add the matched length to their own copy of `pos`, so the lexer's `pos` stays on the same character and the loop yields the same token forever | `1` | the lexer moves past the matched text: `1` gives NUMBER 1, then EOF | high; not executed | JsonLexer.WrittenRunRepeats | JsonLexer.Lexer |
