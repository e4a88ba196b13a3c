# A model of the ODBC driver's text engine, connection strings, savepoints and node balancer

The project models, and proves properties of, four parts of the driver:

* the rewriting of statements (`QueryParse`/`QueryBuild`: literals, comments, dollar quotes, `?` markers,
  ODBC escapes) and the conversions around it (128-bit numerics, bytea, timestamps, line feeds and SQLGetData in
  parts, string literals and LIKE patterns in multibyte encodings, quoted names);
* the connection string: brace-quoted and percent-encoded values, and the parser that cuts the string up in place;
* the savepoint protocol: the driver's flags and its one internal savepoint against a server with a stack of
  savepoints;
* the choice of coordinator nodes, whose probing loop ends for number-theoretic reasons.

Bytes are integers below 256, a C string is the sequence of its bytes without the terminator, and reading one
position past its end gives the terminator. Objects of the source are classes whose methods are tied by their
contracts to functions on the values they hold; the theorems are about these functions.

| file | content |
|---|---|
| `CBytes.dfy` | bytes, character classes, decimal printing and reading |
| `Multibyte.dfy` | `pg_CS_stat`, `encoded_str`, well-formed characters of each encoding |
| `QueryBuffer.dfy` | the growing output buffer |
| `LiteralQuoting.dfy` | parameter values as literals, and how the server reads literals |
| `LikePattern.dfy` | `adjustLikePattern` and the meaning of patterns on both sides |
| `NumericStruct.dfy` | SQL_NUMERIC_STRUCT to text and back, in base 256 |
| `HexBytea.dfy` | hexadecimal conversion in overlapping memory, bytea literals |
| `Timestamp.dfy` | timestamps to text and back, with the needed part of `sscanf` |
| `GetData.dfy` | line-feed conversion in two passes, delivery in parts |
| `QuotedNames.dfy` | `quote_table` and `eatTableIdentifiers` |
| `ConnectString.dfy` | printing, encoding and parsing connection strings |
| `Lexer.dfy` | the lexer's step on one byte, its modes |
| `Escapes.dfy` | the recursion `inner_process_tokens` / `convert_escape` / `processParameters` |
| `StatementTokens.dfy` | whole tokens, marker rewriting |
| `ServerTokens.dfy` | where the server reads comments and literals differently |
| `FunctionEscapes.dfy` | function escapes of any depth: their arguments and the expressions they fill |
| `EscapeStatements.dfy` | statements of tokens and escapes, marker numbers, parentheses |
| `StatementParser.dfy` | the same recursion on mutable objects |
| `Server.dfy`, `Savepoint.dfy`, `Statements.dfy`, `Connection.dfy` | server, savepoint protocol, statements and whole runs, and the connection object |
| `NodeBalancer.dfy` | `get_location` and `connect_random_IP` |

## What does not hold, and when it does

* A zero-length SQLGetData call while a value is partly read drops the rest of it. All chunks together are the
  whole value exactly when there is no such call (`DeliveryExact`). The SQL_C_BINARY path reserves one byte too
  few for line-feed conversion (`RoomOneShort`).
* `adjustLikePattern` loses a backslash that stands directly before a non-ASCII character; otherwise the pattern
  keeps its meaning (`LikeTranslation`).
* Lead bytes up to 0xa0 of BIG5 and JOHAB are not recognised as such (`HighLeadNeeded`).
* Numbers come back from their text exactly for scales up to 48 and values below 10^min(precision, 39)
  (`NumericRoundTrip`).
* The probing loop of `get_location` covers all nodes exactly for node counts that are powers of two
  (`ProbeCoverage`); for every other count and every start some node is never met (`ProbeMisses`). A call of
  `get_location` ends if and only if its probes meet a free node that is not WRONG, or mark the last node
  (`GetLocation`, `Stops`). With three nodes, the first two from the start WRONG and the third one usable, it goes on
  until its counter overflows, and `connect_random_IP` with it (`ThreeNodes`, `UsableNodeMissed`).
* A query string that commits and starts a new transaction leaves `internal_svp` set without a savepoint
  (`RestartBreaks`); that is the only way to lose the invariant (`SendInvariant`). A statement
  gets a savepoint if and only if the one before it was not read-only (`NextStatement`); the failure of one that
  follows a read-only statement rolls the whole transaction back (`FailingStatement`), as in `ReadOnlyLosesWork`.
* The lexer closes `/*/` at once where the server's comment goes on (`CommentsAgree`), forgets the `E` of a literal
  after a doubled quote, so that a `?` inside of `E'a''\'?'` becomes a marker (`MarkerInLiteral`; `LiteralsAgree`
  has the exact condition), and its marker counters are 16 bits wide (`CountersFit`).
* Markers inside of a function escape do not advance the number of the next marker outside: `{fn f(?)} ?` becomes
  `f($1) $1` (`NumbersCollide`). The numbers that are assigned to the markers, before the expression of a function is
  applied to its arguments, differ if and only if no function escape that holds a marker is followed by another
  marker (`MarkerNumbers`, `WritesNumbers`). An expression may then drop an argument or use it twice.
* A function without entry in the table gets one closing parenthesis too many if and only if more than one brace is
  open behind its arguments, or a brace outside of all others is opened in its arguments, or the last brace that was
  opened outside of all others before it, still open or not, had output before it (`ExtraParenthesis`):
  `x{oj {fn f(1)}}` becomes `x(f(1)))` (`ParenTooMany`), and `x{oj a} {fn f(1)}` becomes `x(a) f(1))`
  (`ParenLeftOver`), because closing a brace does not reset `parenthesize_the_first`.
* Percent encoding turns white space other than the space into spaces (`PercentRoundTrip`).

## Model

| member | source | states |
|---|---|---|
| `Multibyte.EncodedStr.NextChar` | multibyte.c:518-526 | the next byte is read and the state follows it; at the terminator nothing moves |
| `Multibyte.EncodedStr.ByteCheck` | multibyte.c:533-540 | the state follows the byte at an arbitrary position |
| `Multibyte.SegmentationExact` | multibyte.c:238-424 | in every text of well-formed characters of every encoding but JOHAB, a byte is flagged exactly when its character is not ASCII |
| `Multibyte.CharPasses` | multibyte.c:238-424 | from any boundary state a character's bytes get the right flags and end at a boundary |
| `Multibyte.HighLeadNeeded` | multibyte.c:307-340 | two-byte characters of BIG5, JOHAB, EUC_CN and EUC_KR are segmented correctly if and only if the lead is above 0xa0 or the trail lies in 0x80..0xa0 |
| `Multibyte.SegmentFlat` | multibyte.c:238-424 | the server's segmentation, by lead bytes, recovers the characters |
| `QueryBuffer.Buffer.Enlarge` | convert.c:2338-2362 | the first doubling of 4096 above the wanted size; the text is kept |
| `QueryBuffer.Buffer.AppendChar` | convert.c:2421-2425 | the text grows by one byte and stays below the allocated size |
| `QueryBuffer.Buffer.AppendData` | convert.c:2398-2406 | the text grows by the data and is terminated |
| `LiteralQuoting.ConvertSpecialChars` | convert.c:6278-6338 | the buffer grows by the escaped payload, always with room for the next three bytes |
| `LiteralQuoting.AppendLiteral` | convert.c:5624-5633 | a quoted value is the prefix, the quotes and the escaped payload |
| `LiteralQuoting.AppendParameter` | convert.c:5616-5642 | a value in a bind request, in parentheses, in quotes or plain, with its cast |
| `LiteralQuoting.EscapedChars` | convert.c:6296-6332 | the byte loop does on well-formed text what squeezing and doubling do on its characters; trail bytes are never doubled |
| `LiteralQuoting.LiteralRoundTrip` | convert.c:6278-6338 | the server reads the emitted literal, wherever it stands, as exactly the payload (CR-LF squeezed when conversion is on) and finds its end at the last quote |
| `LikePattern.AdjustLikePattern` | info.c:1580-1645 | null and negative lengths give nothing, other inputs the translated pattern within 4 * srclen + 1 bytes |
| `LikePattern.LikeOutputBound` | info.c:1597-1598 | the output is at most 4 * srclen bytes long |
| `LikePattern.PatternExact` | info.c:1600-1641 | the translated pattern has the same wildcards and literal characters if and only if no backslash stands directly before a non-ASCII character |
| `LikePattern.LikeTranslation` | info.c:1580-1667 | the same for the literal the server reads, with and without E, in both escape settings |
| `LikePattern.AsciiIsGood` | info.c:1600-1641 | ASCII patterns always keep their meaning |
| `NumericStruct.DivideByTen` | convert.c:4475-4493 | in-place base-256 division: old value = 10 * new value + remainder, remainder at most 9 |
| `NumericStruct.ExtractDigits` | convert.c:4466-4498 | the digits of the 16-byte value, at most `precision` of them |
| `NumericStruct.ResolveNumericParam` | convert.c:4448-4546 | the printed text: sign, integer digits, point and exactly `scale` fraction digits |
| `NumericStruct.MultiplyAdd` | convert.c:4607-4622 | times ten plus a digit on 16 bytes; the final carry is what does not fit |
| `NumericStruct.ParseToNumericStruct` | convert.c:4551-4631 | sign, precision, scale and value modulo 2^128; overflow exactly when digits were dropped or the number is not below 2^128 |
| `NumericStruct.ParseNumeral` | convert.c:4551-4603 | a numeral is read by position: leading zeros go, up to 48 digits stay, the scale is the number of fraction digits kept, or, with more integer digits, minus the number of those dropped |
| `NumericStruct.PrintedNumeral` | convert.c:4500-4546 | the printed text is a numeral with the digits' value and `scale` fraction digits |
| `NumericStruct.NumericRoundTrip` | convert.c:4448-4631 | parsing the printed text restores the sign, the scale iff it is at most 48, and then the value iff it is below 10^min(precision, 39), else modulo that |
| `NumericStruct.TextRoundTrip` | convert.c:4448-4631 | without overflow the stored number is printed as a numeral of the same rational value and scale |
| `HexBytea.BinToHex` | convert.c:6511-6555 | refused exactly when the digits would overtake unread bytes; otherwise the digits of the source as it was, for every overlap, and nothing else changes |
| `HexBytea.HexToBin` | convert.c:6557-6589 | the bytes of the digit pairs up to a NUL or the length, also in place |
| `HexBytea.HexRoundTrip` | convert.c:6511-6589 | `pg_hex2bin` inverts `pg_bin2hex` |
| `HexBytea.ConvToOctal` | convert.c:6424-6460 | an escape of four or five bytes with the three octal digits of the byte |
| `HexBytea.ConvertToPgbinary` | convert.c:6463-6506 | the bytea text, within the reserved 2 * used + 4 or 5 * used bytes |
| `HexBytea.AppendBinary` | convert.c:2432-2445 | the buffer grows by the bytea text |
| `HexBytea.ConvertFromPgbinary` | convert.c:6353-6421 | the decoded bytes, or only their number when there is no buffer |
| `HexBytea.BinaryDoubled` | convert.c:6463-6506 | doubling backslashes while encoding is exactly what the literal needs |
| `HexBytea.ByteaRoundTrip` | convert.c:6340-6506 | the server reads the literal as a text that decodes to the bytes, for every byte string, both formats and both escape settings |
| `HexBytea.BindRoundTrip` | convert.c:6463-6506 | in a bind request the text decodes without a literal around it |
| `HexBytea.ServerFormsDecode` | convert.c:6353-6421 | every output form of the server decodes to the bytes: escape format, hexadecimal, and hexadecimal without prefix under binary_rawout |
| `Timestamp.SimpleTime.FromText` | convert.c:284-382 | the structure after `timestamp2stime` with zones off; fields that are not read keep their values |
| `Timestamp.SimpleTime.ReadFraction` | convert.c:363-371 | the digits after the point, cut or filled to nine |
| `Timestamp.SimpleTime.PrintFraction` | convert.c:450-466 | the fraction with at most `precision` digits and no trailing zeros |
| `Timestamp.SimpleTime.ToText` | convert.c:433-498 | the text of `stime2timestamp` without a zone |
| `Timestamp.FractionRoundTrip` | convert.c:363-466 | trimming zeros and filling up to nine digits cancel: the fraction is truncated to the precision |
| `Timestamp.TimestampRoundTrip` | convert.c:284-498 | for years -9999..9999 the printed text restores every field, the fraction truncated to the precision, whatever the structure held before |
| `GetData.ConvertLinefeeds` | convert.c:6227-6270 | the counting pass and the writing pass give the same size, also when room runs out |
| `GetData.RoomEnough` | convert.c:920-1136 | a pass with room for the value produces all of it |
| `GetData.RoomOneShort` | convert.c:6245-6262 | one byte less loses exactly the last byte unless the value ends with an added carriage return and its line feed |
| `GetData.GetDataClass.Setup` | convert.c:920-1136 | the internal buffer holds the converted value |
| `GetData.GetDataClass.GetData` | convert.c:1148-1319 | one call writes a terminated chunk, reports what remained and updates `data_left` as the specification says |
| `GetData.PartOfRemaining` | convert.c:1148-1262 | each call reports the length that remained before it, and its chunk is the start of that |
| `GetData.DeliveryExact` | convert.c:920-1319 | over any sequence of calls the chunks are a prefix of the value; at the end they are the whole value if and only if no zero-length call dropped a partly read one |
| `GetData.GetDataClass.ReadParts` | convert.c:920-1319 | any sequence of calls on the object delivers what the specification says: a beginning of the value, and all of it at the end if and only if nothing was dropped |
| `GetData.EndIsSticky` | convert.c:2031-2036 | the end is reported again by every call with a buffer; a zero-length call starts over |
| `GetData.EndIsReached` | convert.c:1148-1319 | calls with room for a byte reach the end |
| `QuotedNames.QuoteTableInto` | misc.c:304-336 | the bounded buffer holds the quoted names, cut where room ends, and its terminator |
| `QuotedNames.FindIdentifierIn` | convert.c:3261-3327 | the length of the identifier and the next byte that is no space |
| `QuotedNames.LowerOrRemoveDquote` | convert.c:3330-3377 | the name without its quotes, doubled ones made single, or in lower case |
| `QuotedNames.EatTableIdentifiers` | convert.c:3379-3420 | up to three identifiers; the last is the table, the one before it the schema |
| `QuotedNames.ReadsQuoted` | convert.c:3261-3377 | a quoted name is one identifier, and removing its quotes gives the name |
| `QuotedNames.FitsExactly` | misc.c:312-330 | a name is copied completely if and only if its last character is met below the limit |
| `QuotedNames.QuotedNameRoundTrip` | convert.c:3261-3420 | names that fit the buffer of `quote_table` are read back exactly, embedded double quotes included, in every encoding but JOHAB and before any text that does not start with a quote or a dot |
| `ConnectString.MakeBracketConnectString` | dlg_specific.c:222-256 | the braced attribute with doubled closing braces, or nothing for an empty value |
| `ConnectString.StrTok` | drvconn.c:525-525 | the token at the position, cut off in the buffer |
| `ConnectString.FindCloseIn` | drvconn.c:566-611 | the search for the closing brace gives what it gives on the unchanged string, and leaves the buffer cut only at the value's end |
| `ConnectString.DconnGetAttributes` | drvconn.c:486-623 | overwriting and restoring delimiters never shows: the pairs handed over are those of the parse of the unchanged string, malformed strings included |
| `ConnectString.ConnectStringRoundTrip` | drvconn.c:486-623 | any list of printed attributes is parsed into exactly its pairs, whatever bytes the braced values contain |
| `ConnectString.BracedRoundTrip` | dlg_specific.c:1817-1847 | a value printed between braces is recovered |
| `ConnectString.EncodedRoundTrip` | dlg_specific.c:1718-1815 | a percent-encoded value survives parsing and decoding |
| `ConnectString.Encode` | dlg_specific.c:1718-1754 | the encoding of an ASCII name that fits the buffer |
| `ConnectString.ConvFromHex` | dlg_specific.c:1756-1776 | the byte of two digits |
| `ConnectString.Decode` | dlg_specific.c:1778-1811 | the decoded text up to a NUL; nothing for an empty text |
| `ConnectString.DecodeOrRemoveBraces` | dlg_specific.c:1817-1847 | the text between braces with doubled ones made single, or the decoded text |
| `ConnectString.PercentRoundTrip` | dlg_specific.c:1718-1811 | an ASCII text comes back if and only if its only white space is the space |
| `Lexer.PlainKeepsModes` | convert.c:3586-3900 | one byte keeps at most one mode (plus an escape in a literal), the comment level and the dollar tag in step with it, moves on inside the statement and never fails |
| `Escapes.StepInOrder` | convert.c:3526-4047 | the same for every step of the recursion, whatever the statement contains |
| `Escapes.ProcessInOrder` | convert.c:2787-2797 | every state the loop reaches is in order, and the "not idle" error is unreachable |
| `StatementTokens.SourcesAll` | convert.c:2787-2797 | replacing the markers by `?` and restoring dropped carriage returns recovers the statement |
| `StatementTokens.MarkerRewriting` | convert.c:3526-4047 | for ASCII statements with braces only inside of other tokens, each marker between tokens becomes `$k`, counted from the last semicolon, and literals, quoted identifiers, nested comments and dollar quotes are copied; token by token this holds if and only if the counters of markers fit |
| `StatementTokens.CountersFit` | convert.c:4846-4860 | all markers get their numbers if and only if there are at most 32768 of them and at most 32767 between two semicolons |
| `ServerTokens.CommentsAgree` | convert.c:3828-3836 | the driver's comment is the server's if and only if its opening is not followed by a slash that is not the last byte |
| `ServerTokens.LexedLiteral` | convert.c:3811-3822 | the consecutive literals the lexer finds from a quote on span exactly the driver's reading of the literal |
| `ServerTokens.LiteralsAgree` | convert.c:3811-3822 | the driver's literal is the server's if and only if it has no escapes, all literals have them, or no escaped quote follows the first doubled one (unless only quotes follow it) |
| `ServerTokens.MarkerInLiteral` | convert.c:3811-3822 | in `E'a''\'?'` the question mark is inside of the server's literal and becomes `$1` |
| `FunctionEscapes.ArgsRun` | convert.c:5677-5742 | the recorded positions are those of the translated arguments between commas and parentheses at depth one |
| `FunctionEscapes.ParametersRun` | convert.c:5677-5767 | for a balanced list of up to 15 arguments the buffer up to `param_consumed` is the parenthesized list of translated arguments, delimited by `param_pos` |
| `FunctionEscapes.ExpandIsSubstitute` | convert.c:6022-6060 | `$i` and `$*` stand for exactly the i-th and all arguments |
| `FunctionEscapes.FunctionEscape` | convert.c:5930-6079 | the output grows by the meaning of the call on the translated arguments; the parameter count goes on, the marker number does not |
| `FunctionEscapes.SimpleElement` | convert.c:5874-5927 | date, time, timestamp and escape-character escapes and function names without arguments become their text |
| `FunctionEscapes.ElementRun` | convert.c:5773-6086 | every token and every escape, calls and outer joins included, to any depth and with any markers in it, is translated in place, in arguments and in statements |
| `FunctionEscapes.OpenElement` | convert.c:2461-2482 | the start of a call or an outer join puts a parenthesis, unless nothing is put out yet, and sets the flag at level 0 |
| `FunctionEscapes.BareElement` | convert.c:5802-5850 | a call without parentheses gets empty ones and is closed at once |
| `FunctionEscapes.FunctionElement` | convert.c:5930-6079 | a function escape reached with `k` markers numbered becomes its meaning on the arguments translated from `k` on, its markers are counted, and `k` stays |
| `EscapeStatements.StatementTranslated` | convert.c:2787-2797 | a statement of tokens and escapes of any depth, calls and outer joins included, becomes the translation of its pieces |
| `EscapeStatements.WritesNumbers` | convert.c:5930-6079 | the translation is the text that writes the assigned numbers marker by marker, inside of arguments too |
| `EscapeStatements.MarkerNumbers` | convert.c:6073-6077 | the numbers assigned to the markers of a command (before expressions of the function table are applied) differ, and are then consecutive, if and only if no function escape that holds a marker is followed by another marker |
| `EscapeStatements.StatementNumbers` | convert.c:2787-2797 | the output writes to the markers the numbers of their commands, and these differ within a command exactly under that condition |
| `EscapeStatements.NumbersCollide` | convert.c:6073-6077 | `{fn f(?)} ?` becomes `f($1) $1` |
| `EscapeStatements.UnknownCall` | convert.c:2485-2500 | a call of an unknown function is its name, the translated arguments and white space, and one closing parenthesis more if and only if, behind the arguments, `brace_level` is above 1 or `parenthesize_the_first` is set |
| `EscapeStatements.FlagAfter` | convert.c:2461-2500 | the flag `parenthesize_the_first` says whether there was output before the last brace opened at level 0, closed or not |
| `EscapeStatements.ExtraParenthesis` | convert.c:2461-2500 | in a statement the additional parenthesis appears if and only if more than one brace is open behind the arguments, one is opened at level 0 in them, or the last one opened at level 0 before the call had output before it |
| `EscapeStatements.ParenTooMany` | convert.c:2485-2500 | `x{oj {fn f(1)}}` becomes `x(f(1)))` |
| `EscapeStatements.ParenLeftOver` | convert.c:2485-2500 | `x{oj a} {fn f(1)}` becomes `x(a) f(1))`, with no brace open around the call |
| `StatementParser.QueryBuild.ResolveOneParam` | convert.c:4769-4860 | prepare mode appends the next marker and counts it |
| `StatementParser.QueryBuild.BeginBrace` | convert.c:2461-2482 | an opening parenthesis unless the output is empty |
| `StatementParser.QueryBuild.FinishBrace` | convert.c:2485-2500 | a closing parenthesis when one was opened |
| `StatementParser.FindTagIn` | convert.c:3232-3259 | the length of a dollar tag, 0 when there is none |
| `StatementParser.InnerProcessTokens` | convert.c:3526-4047 | one step updates both objects as the lexer's step says, or fails as it does |
| `StatementParser.ConvertEscapeIn` | convert.c:5773-6086 | an escape is rewritten as specified |
| `StatementParser.ProcessParametersIn` | convert.c:5677-5767 | the loop over parameters and the positions it records |
| `StatementParser.LookUp` | convert.c:5652-5670 | the first entry of the function table that fits name and number of arguments |
| `StatementParser.ExpandInto` | convert.c:6022-6060 | the expression is appended with its arguments filled in |
| `StatementParser.ProcessStatement` | convert.c:2787-2798 | the whole rewritten statement or an error, never the "not idle" one |
| `Server.StepsProper` | connection.c:2561-2837 | no savepoints outside a transaction, and nothing stays of a failed one |
| `Server.RunView` | execute.c:711-736 | the driver's savepoints are invisible to the application: running its commands commutes with forgetting them |
| `SavepointProtocol.TransmitInvariant` | connection.c:2673-2837 | after a query string a set `internal_svp` has its savepoint on top of the stack, if and only if the string did not restart the transaction underneath it |
| `SavepointProtocol.TransmitTransparent` | connection.c:2673-2837 | without the driver's savepoints the server ends where the application's commands take it |
| `SavepointProtocol.SendInvariant` | connection.c:2561-2837 | the invariant over one query of the application, exactly |
| `SavepointProtocol.SendTransparent` | connection.c:2561-2837 | transparency of one query of the application |
| `SavepointProtocol.RestartBreaks` | connection.c:2782-2837 | COMMIT and START TRANSACTION in one query string leave the flag stale, and the next RELEASE fails |
| `SavepointProtocol.ReleaseSafe` | execute.c:711-736 | a driver-issued RELEASE removes the driver's savepoint and nothing else |
| `SavepointProtocol.TransmitPerQuery` | connection.c:2479-2543 | a driver query with its own savepoint takes effect as a whole or not at all |
| `StatementProtocol.SendMarks` | execute.c:742-810 | a statement is marked as started exactly when it got a savepoint |
| `StatementProtocol.StatementRollbackRestores` | connection.c:2479-2543 | rolling back a failed statement restores the data of the driver's savepoint, or ends the transaction without one |
| `StatementProtocol.StatementAtomicity` | execute.c:812-886 | a statement takes full effect, or leaves what the application sees unchanged if it got a savepoint and kept it, or else the transaction is rolled back |
| `StatementProtocol.FailingStatement` | execute.c:812-886 | the open transaction survives a failing ordinary statement if and only if the statement got a savepoint |
| `StatementProtocol.NextStatement` | execute.c:812-886 | after a successful statement the next one gets a savepoint if and only if the former was not read-only |
| `StatementProtocol.ReadOnlyLosesWork` | execute.c:742-886 | a write, a read-only statement and a failing one in a transaction: the write is lost |
| `StatementProtocol.DiscardKeeps` | execute.c:812-886 | `DiscardStatementSvp` keeps the invariant in every case |
| `StatementProtocol.AbortEnds` | connection.c:1052-1080 | `CC_abort` ends the transaction and keeps the invariant |
| `StatementProtocol.AppendKeeps` | connection.c:2561-2710 | a query with an appended one, sent along or by itself, keeps the invariant |
| `StatementProtocol.ActKeeps` | connection.c:1008-1080 | every action on a connection keeps the invariant |
| `StatementProtocol.SafeRuns` | connection.c:2561-2837 | over all runs the in-transaction and error flags agree with the server, and a RELEASE the driver may issue takes away nothing the application can see |
| `ConnectionObject.Connection.UpdateTransactionStatus` | connection.c:3477-3520 | the flags after the server's reported status |
| `ConnectionObject.Connection.HandleError` | connection.c:1525-1640 | the flags after an error that leaves the connection usable |
| `ConnectionObject.Connection.HandleResult` | connection.c:2782-2837 | one turn of the result loop on the connection's fields |
| `ConnectionObject.Connection.RollbackStatement` | connection.c:2479-2543 | the rollback to the savepoint or of the transaction |
| `ConnectionObject.Connection.Assemble` | connection.c:2673-2709 | the query string with BEGIN and savepoint commands in front |
| `ConnectionObject.Connection.Transmit` | connection.c:2673-2837 | the query string is executed and the flags follow its results |
| `ConnectionObject.Connection.SetStatementSvp` | execute.c:742-810 | the savepoint of a statement is taken or scheduled |
| `ConnectionObject.Connection.Send` | connection.c:2561-2837 | one query of the application |
| `ConnectionObject.Connection.SendQueryAppend` | connection.c:2561-2710 | one query with an appended one |
| `ConnectionObject.Connection.DiscardStatementSvp` | execute.c:812-886 | the end of a statement |
| `ConnectionObject.Connection.Perform` | connection.c:1008-1080 | one action on the connection has exactly the effect the protocol says |
| `ConnectionObject.Connection.Replay` | connection.c:2561-2837 | after any sequence of admissible actions the object is where the protocol takes it, with the invariant |
| `NodeBalancer.ProbeReaches` | connection.c:424-472 | for a power of two of nodes every node is met in fewer than 2n probes, from any start and stride, with the wrap-around of the counters |
| `NodeBalancer.ProbeMisses` | connection.c:424-472 | for any other number of nodes and any start, some node is never met before the stride overflows |
| `NodeBalancer.SomeNeverEnds` | connection.c:424-472 | for such a number of nodes and any start there are statuses, with a usable node and nothing visited, for which a call does not end before its counter overflows |
| `NodeBalancer.PowerEnds` | connection.c:424-472 | with a power of two of nodes every call ends within 2n probes in all |
| `NodeBalancer.ThreeNodes` | connection.c:424-472 | with three nodes, the first two from the start WRONG, the usable third one is not found |
| `NodeBalancer.ProbeCoverage` | connection.c:424-472 | 2n probes cover all nodes if and only if n is a power of two |
| `NodeBalancer.ProbeForFree` | connection.c:440-458 | the inner loop follows the probe sequence over marked nodes and ends at a free one |
| `NodeBalancer.GetLocation` | connection.c:424-472 | the call ends if and only if its probes meet a free node that is not WRONG or mark the last node; the index returned was free and is not WRONG, and the count is that of the marked entries |
| `NodeBalancer.ConnectRandomIp` | connection.c:474-512 | no node is tried twice, WRONG nodes never, failure means that every other node was tried, and it does not end when its first draw does not |
| `NodeBalancer.UsableNodeMissed` | connection.c:474-512 | the run on three nodes that does not end although one is usable |

## Left out

- GetLocation: the number of probes of a call is bounded by a parameter; a run that uses it up stands for the endless loop of the source (until its counter, an `int`, overflows). The results of `rand` are parameters.
- ConnectRandomIp: the outcomes of the reachability check and of the connection attempts are parameters; locks are taken to succeed.
- SegmentationExact: JOHAB is not covered, because its low lead bytes are not recognised (`HighLeadNeeded`); the same holds for the round trips in client encodings.
- LiteralRoundTrip: the server's numeric backslash escapes are not decoded by the reader; the driver never emits them.
- ResolveNumericParam: a negative scale makes the source read before its array and is not modelled.
- BinToHex: only the byte variant, not the one for wide characters.
- ConvertFromPgbinary: octal escapes are required to be complete, because the source reads their digits unchecked; the same goes for percent signs.
- CountersFit: once `param_number` has wrapped around it is negative, and the source reads the parameter descriptor before its array; the model drops such a marker.
- DecodeOrRemoveBraces: as for `Decode`.
- Decode: percent signs are required to be followed by two bytes, which the source reads unchecked.
- HexToBin: a destination that starts inside of the source range, where the loop would read its own output, is left out.
- AppendLiteral: values that were converted to bytea (`final_binary_convert`) are those of `AppendBinary`.
- AppendParameter: the choice of the cast and of the parentheses by type is a parameter.
- Setup: only the conversion to SQL_C_CHAR from text that needs no change of encoding.
- ConvertLinefeeds: the SQL_C_BINARY and wide-character targets of SQLGetData are modelled only as far as `RoomOneShort`.
- QuotedNameRoundTrip: names that do not fit are cut by `quote_table`, and nothing is claimed of the names then read.
- EatTableIdentifiers: at the end of the text the source computes its result from a null pointer; the model returns a separate value.
- Encode: names that do not fit the buffer, and bytes from 0x80 on (printed with their sign), are not modelled.
- MakeBracketConnectString: attribute names are at most 25 bytes long, for which the source reserves room.
- FromText: converting between time zones is left out.
- ToText: the buffer size of `snprintf` is left out.
- MarkerRewriting: `@@identity`, the rewriting of `INSERT ... ()`, cursor declarations, keyset columns and the MS Access hack are left out of the lexer (they need catalog lookups or only change statements of their kind), and with them the tracking of finished tokens, which has no other effect on the output.
- ResolveOneParam: only prepare mode, without casts and parameter descriptors; values in the other modes appear as the converters above.
- InnerProcessTokens: the same, as for `MarkerRewriting`.
- FunctionEscape: lists of more than 15 arguments overrun the source's array `param_pos` and are excluded.
- StatementTranslated: a call with a return value (`{? = call ...}`) is not among the pieces, and at most 32767 markers are counted.
- MarkerNumbers: semicolons inside of the arguments of a function, which start the numbering again within the call only, are translated (`StatementTranslated`) but excluded from the statements on distinct numbers, here and in `StatementNumbers`.
- ConvertEscapeIn: a key word missing at the very end of the statement leaves the source's buffer unset; the model treats it as unknown.
- SafeRuns: cursors, marked objects, `result_uncommitted`, the extension-connector mode and a lost connection are left out; names of user savepoints are not the driver's.
- UpdateTransactionStatus: the statuses "active" and "unknown" cannot occur once all results have been read, and the cursor handling of a partial abort is left out.
- HandleError: errors that end the connection, and the texts of messages, are left out.
- Perform: the commands of `libpq_bind_and_exec` are not modelled separately.
- Failure of memory allocation, locales other than "C", large objects, intervals, floating-point text, catalog functions, descriptors, handles and DSN storage.
