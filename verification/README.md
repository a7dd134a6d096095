# Verified model of clickhouse-go

A Dafny model of the stateful cores of clickhouse-go, the ClickHouse driver for Go, with proofs of
what they promise. `dafny verify dfyconfig.toml` checks everything.

| file | models |
|---|---|
| `ExceptionScanner.dfy` | the reader that separates result bytes from an in-band exception frame |
| `Json.dfy`, `JsonRuns.dfy` | JSON columns: objects taken apart by path, rows as text, nulls that wait for a mode; and whole runs of blocks |
| `NestedArray.dfy` | nested arrays as offset columns over one value column |
| `Dynamic.dfy`, `DynamicV1.dfy`, `Variant.dfy`, `Demux.dfy`, `Sorting.dfy` | columns that spread rows over sub-columns by a discriminator, with the older format that sorts and renumbers them |
| `LowCardinality.dfy` | dictionary columns and their key widths |
| `Native.dfy` | the column stream as a sequence of primitives |
| `Lexer.dfy`, `Regions.dfy` | the quote and comment lexer, and where its comments and quotes end in the text |
| `Bind.dfy`, `BindNames.dfy`, `Parts.dfy`, `NameParts.dfy`, `Quoting.dfy` | the three bind styles, what they do to the parts of a query, string literals |
| `ConnPool.dfy`, `Circular.dfy` | the connection limit, the idle pool and the ring buffer under it |
| `Batch.dfy` | the life of a native batch and of its connection leases |
| `SendData.dfy` | block fragmentation with per-chunk compression |
| `BigInt.dfy`, `Churl.dfy`, `Enum.dfy`, `Epoch.dfy`, `Decimals.dfy` | two's complement on bytes, percent-encoding, enum membership, epoch text and its decimal digits |

Objects of the source are classes whose methods change their fields; a ghost field of each class keeps
what the caller put in (rows, cells, stream), and `Valid()` ties the real fields to it. The main
results are methods that take a whole run (all chunks, all rows, all operations) on new objects and
state what comes out of it, and lemmas over every reachable state.

Leaf columns are append-only logs: a function gives what the column stores for a value, or None if it
refuses. Writing and reading one primitive are inverse, so a stream is a sequence of primitives; an
unsigned key carries its width. The network, the compressor, the clock and the server's answers are
parameters, so every result holds for all of them. Byte strings are `seq<byte>` where bytes are
computed with and `string`, one character a byte, where they are only compared.

## What turned out not to hold

Each line names the members that state exactly when the code does what one would expect, or show an
input where it does not.

- A flush that answers nil, or a Send that gets past its write, puts its block on the wire exactly if the
  lease is new or nothing spoilt it before: an INSERT refused on it, or a write that failed and was not
  taken for a broken pipe. Otherwise the rows are lost (`Batch.IntactIff`, `Batch.FlushedAfterFailure`).
- A batch keeps its last block: every further Send that gets past its write puts the block on the wire
  again, whether the Send before succeeded or failed at its end (`Batch.SentAgain`, `Batch.SentTwice`).
- An INSERT that cannot be parsed loses its connection lease (`Batch.PrepareBatch`); as many lost leases
  as the limit leave nobody able to acquire one (`ConnPool.Exhausted`).
- A flush with `closeOnFlush` answers nil also if closing the INSERT fails (`Batch.CloseErrorDropped`,
  `Batch.FlushedUnclosed`).
- Sending a block that fails to encode, to compress or to write a fragment before the last leaves the
  connection open with the unfinished block in front of the next one (`SendData.Connect.SendData`,
  `SendData.SendAgain`).
- `bigIntToRaw` is wrong for negative numbers of odd byte length (`BigInt.RoundTrip`).
- `formatEpoch` fails exactly for the times of the smallest int64 second whose fraction is zero in the
  digits asked for, if any are (`Epoch.FormatEpoch`).
- A Dynamic column that is decoded into twice counts the types of both. Rows of the second decoding
  are read exactly if that keeps the width of the discriminators, and then the null ones, and only those,
  index past the sub-columns (`Dynamic.Column.DecodeFlat`).
- Enum appends accept integers out of range that wrap to a declared value (`Enum.Enum8.AppendInt`).
- Escaping round-trips in the host and zone modes exactly for bytes that survive (`Churl.RoundTrip`).
- Rows appended to a LowCardinality column after Encode and before Reset are not written
  (`LowCardinality.AppendAfterEncode`); a stream that asks for a global dictionary is read as if it did
  not (`LowCardinality.GlobalDictionaryIgnored`, `LowCardinality.GlobalDictionaryAccepted`); a value that
  does not equal itself, such as NaN, comes back as null in a nullable column and as the default in
  another (`LowCardinality.RoundTrip`).
- The older Dynamic format panics exactly if two sub-columns have one type name, as rows of type Bool and
  of type Boolean make them; otherwise the rows come back exactly if their types are among the first 255
  in the order of the names (`DynamicV1.RoundTrip`, `DynamicV1.BoolAndBoolean`).
- The rows of a Variant column come back exactly if none lies in the 256th sub-column, none has the byte of
  another sub-column, and nulls come with at most 255 types (`Variant.RoundTrip`, `Variant.Overfull`).
- Binding strings keeps the lexer's context around the markers exactly if no marker stands directly before
  a single quote; each literal stays apart from others exactly if besides no marker stands directly behind
  another one or behind the closing quote of a literal (`Quoting.Surroundings`, `Quoting.Apart`).

## Model

| member | source | states |
|---|---|---|
| ExceptionScanner.ReadResponse | conn_http_format.go:98-223 | for every chunking, tag, end of the source and sequence of buffer sizes, the bytes served are a prefix of the data before the first genuine frame, and all of it once a terminal result comes, which is the exception, else the source error, else EOF; the text kept of an exception is what follows its frame, no longer than two scan limits and the bytes withheld |
| ExceptionScanner.Reader.Read | conn_http_format.go:98-129 | one read serves at most the buffer, never a byte of a genuine frame, makes progress, and ends only with the right terminal result after exactly the data |
| ExceptionScanner.Reader.Pull | conn_http_format.go:98-129 | more input is asked for only while at most the frame's, the tag's and one more byte are withheld |
| ExceptionScanner.Reader.Scan | conn_http_format.go:135-179 | leaves a state in which every complete candidate is decided or waits for its tag |
| ExceptionScanner.Reader.ScanNext | conn_http_format.go:135-179 | the next candidate is an exception, dismissed as data or parked, and the scan moves on |
| ExceptionScanner.Reader.SafeLen | conn_http_format.go:185-205 | the bytes safe to serve: none in which a frame could begin, and no fewer than possible |
| ExceptionScanner.Reader.CaptureException | conn_http_format.go:209-223 | what remains pending is exactly the data before the frame, and the exception is kept |
| ExceptionScanner.DataLen | conn_http_format.go:135-179 | the first genuine frame, or the end of the stream |
| ExceptionScanner.VerdictRight | conn_http_format.go:150-175 | what is decided on the part of the stream seen so far is right of the whole stream |
| ExceptionScanner.ServedClear | conn_http_format.go:185-205 | serving safe bytes never serves the start of a frame |
| ExceptionScanner.WithholdBound | conn_http_format.go:98-129 | when nothing can be served, at most the frame, the tag and one byte are held back |
| ExceptionScanner.SafePrefix | conn_http_format.go:185-205 | the split is before a candidate or before the longest tail that begins a frame |
| JsonRuns.Run | lib/column/json.go:571-951 | blocks of rows through one column, reset after each: values that cannot be classified or are of the other mode are rejected and change nothing, and each block gives back exactly the rows taken, each object with the stored value of every path it has, null for the known paths it lacks and no dynamic entry for a typed or skipped path, each text as it was, and a block of nulls as text; the known paths are those of the objects taken so far, with an entry a row; the run ends early exactly if a column refuses a row |
| Json.Column.AppendRow | lib/column/json.go:636-663 | exactly which values are rejected, conflict, fail or are appended; a rejection and a conflict change nothing; nulls before the mode wait |
| Json.Column.ReconcileMode | lib/column/json.go:571-596 | the first row with a mode latches it and flushes the waiting nulls; a later row of the other mode is a conflict that changes nothing |
| Json.Column.FlushPendingNulls | lib/column/json.go:602-624 | the waiting nulls become rows of the latched backing, in place |
| Json.Column.AppendRowObject | lib/column/json.go:665-785 | every typed column gets the value or null, every known path its value or null, every new path a column filled back with nulls; it fails exactly if a leaf refuses |
| Json.AppendPaths | lib/column/json.go:747-781 | whatever the order of the map, all columns end with the row |
| Json.AppendPath | lib/column/json.go:747-781 | a path is skipped, appended to or added with nulls for all earlier rows |
| Json.Column.AppendRowString | lib/column/json.go:787-804 | a text, or the literal null for null |
| Json.Column.WriteStatePrefix | lib/column/json.go:869-900 | a column of waiting nulls becomes a text column; the header names the version and the paths |
| Json.Column.Reset | lib/column/json.go:928-951 | no mode, no rows, and both backings empty whichever was in use; known paths stay |
| Json.Column.RowAsJson | lib/column/json.go:235-249 | a row read back shows each dynamic path's value or null and each typed path's value |
| Json.BackFilled | lib/column/json.go:758-770 | a column of nulls is right for the rows before its path was first seen |
| JsonRuns.RunBlock | lib/column/json.go:571-951 | one block on a column of any earlier runs: the same, with the paths known before |
| JsonRuns.TakenUnset | lib/column/json.go:571-663 | row by row the column takes exactly those of the mode of the first one with a mode, and the nulls; or it fails, exactly if one of these does not fit |
| NestedArray.RoundTrip | lib/column/array.go:121-369 | for every depth and every list of values, appending succeeds exactly if each is, through pointers, a list of lists of that depth with storable leaves, and scanning gives each back element by element with its leaves as stored, directly and after encoding and decoding |
| NestedArray.ConvertIs | lib/column/array.go:178-207 | what is kept of a value is the list of lists that stands for it, and there is one exactly if the value is storable |
| NestedArray.SamePath | lib/column/array.go:121-160 | the flat path at depth one and the recursive path build the same columns |
| NestedArray.HoldsShape | lib/column/array.go:178-214 | offsets never decrease, and the last offset of a level is the length of the next |
| NestedArray.HoldsUnique | lib/column/array.go:178-214 | the rows determine the offsets of every level and the values |
| NestedArray.Array.Append | lib/column/array.go:178-207 | one element at any level adds exactly its list there and below, and leaves the levels above alone |
| NestedArray.Array.AppendOffset | lib/column/array.go:209-214 | the new offset is the last one plus the length |
| NestedArray.Array.AppendRowPlain | lib/column/array.go:152-160 | the flat path adds the list that the recursive one would |
| NestedArray.Array.AppendRow | lib/column/array.go:121-150 | a row is added exactly if the value is a list of lists of the right depth |
| NestedArray.Array.Encode | lib/column/array.go:231-236 | all offset columns from the outermost in, then the values |
| NestedArray.Array.Decode | lib/column/array.go:216-229 | accepts exactly the streams with columns at their front each of whose levels is as long as the last offset of the level above says, and holds those columns |
| NestedArray.Array.ScanSlice | lib/column/array.go:290-369 | rebuilds the list at a row of any level |
| NestedArray.RowSpan | lib/column/array.go:290-310 | a row's elements lie between the end of the row before and its own |
| DynamicV1.RoundTrip | lib/column/dynamic_deprecated.go:15-180 | encoding appended rows in the older format and decoding them fails exactly if a row finds no sub-column and panics exactly if two sub-columns have one type name; otherwise every row comes back under the type it was routed to exactly if all types of rows are among the first 255 in the order of the names, and then a null as null and a value as a sub-column of its type keeps it |
| DynamicV1.BoolAndBoolean | lib/column/column_gen.go:82-83 | a row of type Bool and one of type Boolean come back as two of type Bool from the flat format; the older one panics |
| DynamicV1.MisreadShows | lib/column/dynamic_deprecated.go:146-180 | a row past the first 255 sub-columns comes back as null or under another type |
| DynamicV1.SortColumns | lib/column/dynamic_deprecated.go:15-41 | names sorted, and index, columns and discriminators moved by one permutation, so every row keeps its type and value; all slots are filled exactly if no name repeats |
| DynamicV1.Encode | lib/column/dynamic_deprecated.go:43-84 | sorts, or panics if a type name repeats; the header has version 1, the limit, the number of types, their names without the shared variant and version 0; the data has for each row the low byte of its sub-column, or 255 for null, and then the columns |
| DynamicV1.DecodeHeader | lib/column/dynamic_deprecated.go:86-144 | adding the shared variant and sorting again gives the writer's column order |
| DynamicV1.DecodeData | lib/column/dynamic_deprecated.go:146-180 | discriminators as written, offsets counting earlier rows of the type, columns of the counted lengths |
| DynamicV1.CompleteIff | lib/column/dynamic_deprecated.go:15-41 | every slot gets a column exactly if the names are distinct |
| DynamicV1.SharedReturns | lib/column/dynamic_deprecated.go:86-120 | leaving the shared variant out, adding it and sorting is the identity on sorted names |
| DynamicV1.CodesFaithful | lib/column/dynamic_deprecated.go:72-84 | one-byte discriminators are read back exactly if all rows lie in the first 255 columns |
| DynamicV1.MovedShown | lib/column/dynamic_deprecated.go:15-41 | a renumbered row shows the same type and value |
| Sorting.SortSorted | lib/column/dynamic_deprecated.go:15-41 | the sorted names are in byte order |
| Sorting.LeqFirst | lib/column/dynamic_deprecated.go:15-41 | byte order: the first difference decides, and a beginning comes before the whole |
| Sorting.SortPermutes | lib/column/dynamic_deprecated.go:15-41 | they are the same names |
| Sorting.SortCanonical | lib/column/dynamic_deprecated.go:86-110 | the same names in any order sort alike |
| Dynamic.RoundTripFlat | lib/column/dynamic.go:225-452 | appended rows, encoded and decoded in the flat format, come back each under the type it was routed to, for any number of types, a null as null and a value as a sub-column of its type keeps it; appending succeeds exactly if every row finds a column |
| Dynamic.RoutingKept | lib/column/dynamic.go:225-290 | wherever the rows are routed one after the other, each shows its value as a column of its type stores it, of the requested type if one was asked for |
| Dynamic.Column.AppendRow | lib/column/dynamic.go:225-290 | the row goes where the routing says, whose laws are RouteUntyped and RouteRequested, and an error leaves the rows as they were |
| Dynamic.RouteUntyped | lib/column/dynamic.go:225-290 | without a requested type a value goes to the sub-column of least index that takes it, the shared variant excepted, and nothing else changes; if none does, where a request for the guessed type would send it; the answer is that no type is compatible exactly if none takes it and there is no guess |
| Dynamic.RouteRequested | lib/column/dynamic.go:225-290 | a requested type that is there adds no sub-column and takes the value or refuses it; another one gets a sub-column at the end, or the answer that it cannot be parsed |
| Dynamic.Column.AddColumn | lib/column/dynamic.go:82-92 | a new empty column, indexed under its name |
| Dynamic.RouteKept | lib/column/dynamic.go:225-290 | a routed row shows its value as a column of its type stores it, of the requested type if one was asked for |
| Dynamic.Column.EncodeFlat | lib/column/dynamic.go:292-337 | version 3, the number of types and their names in order; then for each row a key that is its sub-column, or the number of types for null, and the columns, in the form that the flat decoder is proved to read back |
| Dynamic.Column.DecodeFlat | lib/column/dynamic.go:368-452 | a written stream is read back exactly if it has no rows or the types counted before do not change the width of the discriminators; then the column holds the names, discriminators, offsets and columns, and a row indexes past the sub-columns exactly if it is null and types were counted before |
| Dynamic.ReadFlat | lib/column/dynamic.go:401-452 | each offset counts the earlier rows of the same type; a discriminator past null, and only that, indexes out of bounds |
| Dynamic.WidthHoldsNull | lib/column/dynamic.go:311-323 | the width that writer and reader pick holds every type and the null discriminator |
| Dynamic.WidthNarrowest | lib/column/dynamic.go:311-323 | it is the narrowest width that holds the null discriminator |
| Demux.ProjectCount | lib/column/dynamic.go:425-452 | a sub-column has as many rows as its discriminator occurs |
| Demux.ProjectAt | lib/column/dynamic.go:106-129 | a row's value stands at the number of earlier rows of its type |
| Demux.ReadDiscriminators | lib/column/variant.go:304-333 | offsets and counts of one-byte discriminators |
| Variant.RoundTrip | lib/column/variant.go:201-333 | for any number of types: appending succeeds exactly if every row resolves; the column can be read exactly if no other sub-column has the byte of a row; every row comes back under its type exactly if moreover none lies in the 256th sub-column; a null that survives comes back as null, and a value as a sub-column keeps it, under the requested type if there is one |
| Variant.ResolveUntyped | lib/column/variant.go:201-247 | without a requested type a value goes to the sub-column of least index that takes it, and is refused exactly if none does |
| Variant.ResolveRequested | lib/column/variant.go:220-235 | a requested type decides by the last sub-column of its name, as a byte; the answer is that it is not present exactly if no sub-column has the name |
| Variant.RequestedKept | lib/column/variant.go:220-235 | a row that survives lies in a sub-column of the requested type, though the index of types wraps at 256 |
| Variant.ReadableCounts | lib/column/variant.go:304-333 | every sub-column has the rows its byte counts exactly if each row lies in one of the first 256, none lies 256 further on, and a null comes with at most 255 types |
| Variant.FewTypes | lib/column/variant.go:201-333 | up to 255 types every row survives |
| Variant.Column.AppendRow | lib/column/variant.go:201-247 | exactly where a row goes, and that an error changes nothing |
| Variant.Column.Decode | lib/column/variant.go:304-333 | offsets and sub-columns by the counts of the bytes; a stream that was written is read back exactly if no byte counts more rows than its sub-column has |
| Variant.Overfull | lib/column/variant.go:201-333 | a value of the 256th type reads as null with up to 511 types, and with more the column cannot be read |
| LowCardinality.RoundTrip | lib/column/lowcardinality.go:95-240 | for any number of distinct values: a second Encode writes the same; on the stream stand flags 0x600 with the key width, the dictionary and a key a row; the dictionary is the default in the reserved slots and then the value of each row that brings a new one, in order and none twice, and a key is 0 for null and else the entry of the row's value; every row comes back as stored, null as null or as the default |
| LowCardinality.AfterBuilt | lib/column/lowcardinality.go:128-155 | after any rows the dictionary has exactly one entry for every value that equals itself, in the order of first appearance, and the keys point at them |
| LowCardinality.WidthHolds | lib/column/lowcardinality.go:201-240 | the chosen key width holds every index of the dictionary and its reserved slots |
| LowCardinality.WidthNarrowest | lib/column/lowcardinality.go:201-240 | it is the narrowest that holds the last key of a nullable column |
| LowCardinality.WidthTight | lib/column/lowcardinality.go:201-240 | at 254, 65534 and 2^32-2 values of a nullable column the last key is the largest of its width |
| LowCardinality.Column.AppendRow | lib/column/lowcardinality.go:128-155 | one key more that means the row, or none; the dictionary grows exactly by a value it does not have |
| LowCardinality.Column.Encode | lib/column/lowcardinality.go:201-240 | keys in the narrowest width, or the keys already there again |
| LowCardinality.Column.Decode | lib/column/lowcardinality.go:157-199 | accepts exactly the readable streams with a known width and the bit for additional keys, whatever the other flags; then it holds what stands on the stream; which others are refused with which error |
| LowCardinality.FrameUnique | lib/column/lowcardinality.go:157-199 | there is one way to read a stream |
| LowCardinality.Column.Reset | lib/column/lowcardinality.go:56-65 | ready for appends again, without rows |
| LowCardinality.AppendAfterEncode | lib/column/lowcardinality.go:201-240 | rows appended after Encode are counted, but what is written next and read back is exactly the first batch; they are written exactly if that was empty |
| LowCardinality.GlobalDictionaryIgnored | lib/column/lowcardinality.go:174-186 | a stream with the global dictionary bit is accepted or refused as its other flags and its contents say, and answered and read like the same stream without the bit |
| LowCardinality.GlobalDictionaryAccepted | lib/column/lowcardinality.go:174-186 | flags 0x700 are accepted |
| Lexer.QuoteState.Update | bind.go:153-214 | one token of the lexer, in the steps whose laws are those of Regions |
| Lexer.IsEscaped | bind.go:216-222 | an odd run of backslashes |
| Lexer.QuoteState.InProtectedContext | bind.go:134-136 | everything but raw text |
| Lexer.QuoteState.InIdentifierOrComment | bind.go:144-146 | everything but raw and single-quoted text |
| Lexer.StepsLex | bind.go:153-214 | tokens advance, plain bytes never change the context, two-byte tokens hold no plain byte |
| Regions.LineComment | bind.go:153-214 | from two dashes or a hash sign in raw text, not behind an odd run of backslashes, the lexer stays in a line comment up to the first newline, and is in raw text right behind it, or still inside if there is none |
| Regions.QuotedText | bind.go:153-214 | from such a quote, double quote or backtick it stays inside up to the first of its kind that is neither doubled nor behind an odd run of backslashes, and is in raw text right behind that |
| Regions.BlockComment | bind.go:153-214 | from such an opening of a block comment it stays inside up to the first place where openings and closings balance, and is in raw text right behind it; at every token the depth is the openings less the closings so far |
| Regions.RawByte | bind.go:153-214 | any other byte of raw text, and any behind an odd run of backslashes, leaves it in raw text |
| Bind.BindPositional | bind.go:256-330 | for every query and arguments the reference rewriting: the k-th marker in raw text becomes the k-th literal, escaped markers are unescaped only in raw and single-quoted text, all else verbatim; an error exactly if a needed argument cannot be rendered or is missing |
| Parts.BoundParts | bind.go:256-330 | the same without the lexer: cut at the ends of quotes and comments as the text has them, markers outside them become the literals in order, escaped markers lose their backslash in raw and single-quoted text, and comments and identifiers stay byte by byte |
| Parts.BindBehindComment | bind.go:256-330 | a marker on the line behind a line comment is bound |
| BindNames.Substitute | bind.go:346-380 | the longest names in raw text become their parameters, all else verbatim; an error exactly if one has none |
| NameParts.SubstitutedParts | bind.go:346-380 | the same for names: cut at the ends of quotes and comments, each longest name outside becomes its parameter, all else stays, and the error comes exactly if one has none |
| BindNames.BindNumeric | bind.go:332-380 | all arguments rendered first, then the rewriting of numbered markers |
| BindNames.BindNamed | bind.go:382-444 | all arguments rendered first, then the rewriting of named markers |
| BindNames.NumericLookup | bind.go:341-353 | a number names exactly the argument of that position, written without leading zeros |
| BindNames.TableLookup | bind.go:391-413 | of several arguments of a name the last counts |
| BindNames.ParamsFormats | bind.go:237-254 | a style is reported exactly if the rewriting has such a marker |
| NameParts.FormatsParts | bind.go:237-254 | the numbered names and the number of positional markers that decide the style are those of the parts outside quotes and comments |
| BindNames.HasNameIff | bind.go:237-254 | stepping through a marker byte by byte or as a whole finds the same markers |
| BindNames.CheckAllNamed | bind.go:95-113 | mixed exactly if there are named and unnamed arguments |
| BindNames.BindArgs | bind.go:68-93 | which rewriting applies, and which mixtures are errors |
| NameParts.ArgsParts | bind.go:68-93 | what binding any arguments makes of a query, by its parts: which style applies, which mixtures are errors, and the text |
| Quoting.QuoteRoundTrip | bind.go:486-525 | unescaping the literal of a string gives the string |
| Quoting.EscapeTextIs | bind.go:486-525 | bytes other than quotes and backslashes stand for themselves, and every quote inside the literal has a backslash before it |
| Quoting.LiteralAlone | bind.go:153-222 | the lexer enters a literal with its first byte, stays inside, and is in raw text after its last |
| Quoting.Surroundings | bind.go:256-330 | after binding strings, the lexer is in the same context at every token of the query that is no marker, and at its end, exactly if no marker stands directly before a single quote |
| Quoting.Apart | bind.go:153-214 | each literal begins in raw text and joins no other exactly if besides no marker stands directly behind another or behind the closing quote of a literal |
| Quoting.BindStrings | bind.go:256-330 | binding strings succeeds exactly if there are enough; then exactly when contexts and literals are kept |
| Quoting.WalkRewrites | bind.go:256-330 | the places compared are those of the rewriting |
| Quoting.Joined | bind.go:153-214 | whatever is bound, `?'` loses a context, and `''?` and `??` keep all contexts but join literals |
| Quoting.Joins | bind.go:153-214 | a quote right behind the closing quote of a literal is never a token start |
| ConnPool.Safe | clickhouse.go:317-416 | after any interleaving of acquires, releases, idle gets and puts and drains: tokens equal loans and acquisitions in flight and stay within the limit, the idle queue within its capacity and without duplicates, and every connection is in exactly one place |
| ConnPool.StepInv | clickhouse.go:317-416 | every step of every caller and every drain keeps the invariant |
| ConnPool.HeldAlone | clickhouse.go:376-416 | a borrowed connection is not idle, not closed and nobody else's |
| ConnPool.IdleSound | clickhouse.go:376-416 | in every run each idle connection was given back by a caller whose use of it did not fail, unexpired and healthy |
| ConnPool.LentSound | clickhouse.go:317-374 | each borrowed connection came to its caller by a health check that an idle one passed, or by a dial that succeeded |
| ConnPool.HandedOut | conn_pool.go:52-87 | in every run a get hands out the first idle connection that has not expired and closes those before it |
| ConnPool.UnfitClosed | conn_pool.go:89-115 | a connection given back after a failure, expired or unhealthy, or to a full queue, and an idle one that fails its check, is closed and not kept; any other one given back is kept |
| ConnPool.Exhausted | clickhouse.go:317-374 | once as many callers as the limit hold a connection and take no further step, no step of the others ever lets anybody acquire one |
| ConnPool.IdlePool.Get | conn_pool.go:52-87 | hands out the first idle connection that has not expired, closes exactly the expired ones before it and keeps the rest in order; nothing exactly if all have expired or the caller cancels first |
| ConnPool.IdlePool.Put | conn_pool.go:89-115 | an expired or unhealthy connection, and any if the queue is full, is closed and the queue stays; another one goes to the end of the queue |
| ConnPool.IdlePool.Drain | conn_pool.go:166-182 | closes exactly the expired ones and keeps the order of the rest |
| ConnPool.GetSound | conn_pool.go:52-87 | a get keeps limits and flags |
| ConnPool.GetLoopMeans | conn_pool.go:52-87 | the loop over idle connections, by its results alone |
| ConnPool.PutBalanced | conn_pool.go:89-115 | a put moves each connection to exactly one new place |
| Circular.RunQueue | internal/circular/queue.go:42-153 | every run answers as a bounded FIFO sequence does |
| Circular.FirstInFirstOut | internal/circular/queue.go:42-66 | in every run of pushes and pulls values come out in the order they went in, each once; a push is refused exactly if as many as the capacity are inside, and a pull finds one exactly if there is one |
| Circular.Queue.Push | internal/circular/queue.go:42-51 | appends unless full |
| Circular.Queue.Pull | internal/circular/queue.go:55-66 | takes the first, or the zero value if empty |
| Circular.Queue.DeleteFunc | internal/circular/queue.go:89-127 | in place and across the wrap, the contents become those kept in order; the consumer sees the removed ones up to where it stops, and the removal is complete; slots outside the contents are zero |
| Circular.Queue.Clear | internal/circular/queue.go:131-153 | empty, with the contents given in order |
| Circular.Queue.constructor | internal/circular/queue.go:16-18 | an empty queue of the capacity |
| Circular.Partition | internal/circular/queue.go:89-127 | nothing is lost or doubled between kept and removed |
| Circular.YieldedPrefix | internal/circular/queue.go:89-127 | the consumer sees a prefix, up to its first refusal |
| Circular.KeptFilters | internal/circular/queue.go:89-127 | exactly the elements that pass the test go |
| Circular.KeptInOrder | internal/circular/queue.go:89-127 | exactly the elements that do not pass stay, in their order |
| Circular.RemovedInOrder | internal/circular/queue.go:89-127 | the removed ones are those kept under the opposite test, so in order too |
| Batch.RunBatch | conn_batch.go:95-334 | every run of operations answers and ends as the reference steps say; a lease is outstanding exactly if the batch is not released, and each other one was returned exactly once |
| Batch.RunConserved | conn_batch.go:95-334 | up to the first delivered Send, as many rows as were accepted are on the wire, astray or buffered while the batch has not failed, and with none astray wire and buffer are exactly the accepted rows in order |
| Batch.AfterClose | conn_batch.go:324-334 | in every run a Close leaves the lease returned and the blocks as they were; on a batch with a lease it ends the batch and answers nil exactly if the connection is open and the INSERT could be closed, else it does nothing |
| Batch.AfterAbort | conn_batch.go:102-111 | an Abort ends the batch, leaves the lease returned and the blocks as they were; it answers that the batch was sent exactly if so |
| Batch.AfterBadColumn | conn_batch.go:180-201 | a column out of range leaves the lease returned and changes nothing else |
| Batch.DoneForGood | conn_batch.go:95-334 | once a batch is done it stays so, whatever follows, and every later append, flush and abort is answered with that |
| Batch.FlushAnswers | conn_batch.go:271-297 | exactly when a flush answers nil and when which error, whether the lease is given back, and when a new one is taken |
| Batch.SendAnswers | conn_batch.go:203-240 | the same for a Send, after which the batch is always done and its lease returned |
| Batch.FirstDelivery | conn_batch.go:203-240 | at the first delivered Send the wire holds exactly the accepted rows in order exactly if no block has gone astray |
| Batch.IntactIff | conn_batch.go:203-297 | a flush that answers nil or a delivered Send puts its block on the wire exactly if its lease is new or no earlier operation on it spoilt it |
| Batch.ReadyIff | conn_batch.go:242-297 | an outstanding lease waits for blocks exactly if no refused INSERT and no failed write but a broken pipe came before on it |
| Batch.FailedForGood | conn_batch.go:113-133 | after an append that failed nothing is delivered and nothing written, whatever follows |
| Batch.LiveAppend | conn_batch.go:113-133 | before the first Send, Close, Abort or failed append every row that the columns take is taken |
| Batch.SentAgain | conn_batch.go:203-240 | after a delivered Send the last block stays buffered, and every further delivered Send puts it on the wire again |
| Batch.SentTwice | conn_batch.go:203-240 | two Sends of one row put it on the wire twice, whether the first succeeds or fails at its end |
| Batch.FlushedAfterFailure | conn_batch.go:271-297 | a flush after one that failed and left the connection open answers nil, and its row is lost |
| Batch.CloseErrorDropped | conn_batch.go:283-295 | a flush with closeOnFlush answers nil exactly when a Send would get past its write, whatever closing the INSERT answers, with the same blocks on the wire |
| Batch.FlushedUnclosed | conn_batch.go:291-293 | such a flush answers nil and gives the lease back although closing fails |
| Batch.SendBlock | conn.go:284-371 | on the connection itself: the outcome of sending a block decides the next link; a ready link has nothing but whole packets written and nothing buffered, one astray has more bytes than those, and the whole packets grow by the block exactly if the link is ready and the sending succeeds |
| Batch.PrepareBatch | conn_batch.go:22-79 | a batch is made exactly if every step succeeds; a lease is outstanding that no batch holds exactly if a connection was acquired and the INSERT does not parse |
| Batch.Batch.Send | conn_batch.go:203-240 | always released afterwards, with the answer and state of the reference; past its write the block is on the wire exactly if the lease was given back before or is still waiting for blocks, else nothing changes there |
| Batch.Batch.Flush | conn_batch.go:271-297 | the buffered rows are written and dropped, or kept on an error; they are on the wire exactly if the lease was given back before or is still waiting for blocks |
| Batch.Batch.Append | conn_batch.go:113-133 | a row is taken, or the batch fails for good and is released |
| Batch.Batch.Abort | conn_batch.go:102-111 | done, with the lease returned once |
| Batch.Batch.Close | conn_batch.go:324-334 | nothing if sent or released, else done with the lease returned, as AfterClose says over runs |
| Batch.Batch.Release | conn_batch.go:95-100 | returns the lease at most once |
| Batch.Batch.ResetConnection | conn_batch.go:242-269 | a new lease that stays outstanding even if the query on it fails |
| Batch.Batch.ColumnOutOfRange | conn_batch.go:180-201 | returns the lease and says which column is missing |
| Batch.Batch.ColumnAppendFailed | conn_batch.go:343-369 | a failed column append fails the batch |
| SendData.Transmit | conn.go:273-371 | whatever the limit, on success a receiver reads back the pending bytes, the packet header and the whole block; with a compressor and a socket that work, success is certain |
| SendData.SendOne | conn.go:284-371 | a block is cut behind exactly those columns at which the buffer, filled since the last cut, reaches the limit, and the rest is one more chunk; the answer is the first trouble in the order of columns and cuts: a column that does not encode, a chunk that is not compressed, one that is not taken, and for the last one the failure that marks the connection |
| SendData.FateFirst | conn.go:284-371 | the outcome of sending is the first trouble, for every limit, block, compressor and socket |
| SendData.ChunksExist | conn.go:304-319 | every block can be cut so |
| SendData.SendAgain | conn.go:284-371 | a second block is sent without an error exactly if the first succeeded or failed without marking the connection; before it stands what the first attempt wrote and left buffered, at least its packet and at most that and chunks of its own payload, and what follows is read back as the second block |
| SendData.ReliableFate | conn.go:284-371 | with a compressor and a socket that work no limit and no columns make sending fail |
| SendData.Connect.SendData | conn.go:284-371 | the chunks written make up the header and all columns, cut where the buffer reaches the limit; after a failure a prefix of that was written; which failure comes, from the limit, the columns, the compressor and the socket; the connection is marked closed exactly by a failed last write |
| SendData.Connect.SendColumns | conn.go:305-330 | each column is encoded once and a chunk is cut whenever the limit is reached; what was written and is buffered makes up the columns so far, up to the column that fails |
| SendData.Connect.CompressBuffer | conn.go:273-282 | only the part behind the offset is compressed |
| SendData.Connect.Flush | conn.go:437-454 | all of the buffer is written, or some of it and the buffer is kept |
| SendData.Invisible | conn.go:273-325 | chunks that make up the block decode to the block |
| SendData.ReceiveFrames | conn.go:273-282 | a receiver decodes frame by frame |
| BigInt.RoundTrip | lib/column/bigint.go:219-256 | storing and reading back gives the number exactly if it is in range and, if negative, of even length; unsigned, exactly if it is not negative |
| BigInt.BigIntToRaw | lib/column/bigint.go:219-228 | little-endian two's complement, for a negative number exactly if the length is even |
| BigInt.RawToBigInt | lib/column/bigint.go:230-246 | the signed or unsigned little-endian value of the bytes |
| BigInt.EndianSwap | lib/column/bigint.go:248-256 | the reversed bytes, complemented except in the middle of an odd length |
| BigInt.SwappedNot | lib/column/bigint.go:248-256 | complementing through the swap is right exactly for even lengths |
| BigInt.RightImage | lib/column/bigint.go:219-246 | an image stands for a number exactly if it is the number modulo 256^n |
| Churl.RoundTripAll | lib/churl/churl.go:303-429 | escaping and unescaping gives every byte string back in path, segment, userinfo, query and fragment modes (section 2.1 of RFC 3986) |
| Churl.RoundTrip | lib/churl/churl.go:303-429 | in any mode exactly the texts whose bytes all survive |
| Churl.Escape | lib/churl/churl.go:376-429 | the escaped text, its buffer filled exactly |
| Churl.EscapedLength | lib/churl/churl.go:376-400 | the length allocated is the length needed |
| Churl.Unescape | lib/churl/churl.go:303-374 | the decoded text, or the first complaint |
| Churl.CheckEscapes | lib/churl/churl.go:303-350 | the first pass complains exactly about malformed texts and counts the escapes |
| Churl.DecodeEscapes | lib/churl/churl.go:351-374 | the second pass reads within bounds and decodes |
| Churl.Url.SetPath | lib/churl/churl.go:558-571 | the given text can be recovered from the two fields; the raw one is kept exactly if needed |
| Churl.Url.SetFragment | lib/churl/churl.go:543-556 | the same for the fragment |
| Churl.UnhexIff | lib/churl/churl.go:518-531 | a byte is a hex digit of a value exactly if it is that digit in capitals or small letters |
| Churl.ShouldEscapeIff | lib/churl/churl.go:431-506 | a byte is escaped in a part of a URL exactly if it is no letter or digit and not among the marks of that part |
| Churl.UnescapedOkIff | lib/churl/churl.go:303-350 | a text is decoded exactly if every percent sign has two hex digits behind it and, in hosts and zones, every escape and every other byte is one allowed there |
| Enum.Continuous | lib/column/enum.go:46-58 | in wrapping int16 arithmetic the flag says exactly that every value of the range is declared |
| Enum.Accepts8 | lib/column/enum8.go:167-195 | an int is accepted exactly if it wraps to a declared value |
| Enum.Accepts16 | lib/column/enum16.go:167-190 | an int16 is accepted exactly if it is declared |
| Enum.Enum8.AppendInt8 | lib/column/enum8.go:167-195 | the bit test is membership, negatives included |
| Enum.Enum8.AppendInt | lib/column/enum8.go:167-195 | the conversion decides, and is what is stored |
| Enum.Enum16.AppendInt16 | lib/column/enum16.go:167-190 | the range test is membership |
| Enum.Enum16.AppendInt | lib/column/enum16.go:167-190 | the conversion decides, and is what is stored |
| Enum.Enum8.constructor | lib/column/enum.go:21-58 | the bitset marks exactly the declared values |
| Enum.Enum16.constructor | lib/column/enum.go:21-58 | the summary fits the declared values |
| Epoch.FormatEpoch | query_parameters.go:109-133 | the text reads as the floor of the instant with exactly the given digits, before and after 1970, exactly unless the time is of the least int64 second with nanoseconds below one unit of the digits |
| Epoch.FormatTimeParam | query_parameters.go:141-152 | the text reads back as the same instant, for every time |
| Epoch.WidthShortest | query_parameters.go:141-152 | the width is the shortest of 0, 3, 6 and 9 that loses nothing |
| Epoch.FormatTimeWithScale | query_parameters.go:157-168 | the caller's scale decides the digits |
| Epoch.ExactIff | query_parameters.go:141-152 | a width loses nothing exactly if the nanoseconds are whole units of it |

## Left out

- Sockets, TLS, HTTP, timeouts, logging and the compressors: parameters and an inverse pair stand for them.
- The exception text parser of conn_http_format.go: the text is kept unparsed.
- Offsets and row counts as 64-bit numbers: they are unbounded here, so no wrap-around of a sum is modelled.
- Rows left behind by a failed append of a composite column: round trips are over successful appends.
- State prefixes of nested columns with a serialization of their own, inside Dynamic, Variant, JSON and arrays.
- Reflection: how a Go value is classified is an input; a string offered as a list counts as the list of its bytes; scanning into structs and maps.
- JSON: columnar Append; decoding and encoding of the columns themselves, which is the Dynamic model; the older object format; the entries of null that a row adds to the caller's own map.
- Type-name parsing: a function gives the canonical name of a type text, and names are stable under it.
- Enum type strings: the model starts from parsed names and indexes; Enum8's 256 bits are four sequences of 64 booleans.
- The key columns of LowCardinality: the four of the source, of which one is in use, are one sequence with its width.
- Pool shutdown, the dial strategies and liveness; each borrower releases at most once.
- Rendering of arguments other than strings, time zones and floats: a rendered text or a failure is given.
- NestedArray.Array.Decode: that decoding a leaf column replaces what it held is the codec's part and taken as given.
- Variant.RoundTrip: what a sub-column makes of another one's bytes when their discriminators collide is not modelled, since a value of any type is one primitive; the same holds of DynamicV1.RoundTrip.
- Json.Column.WriteStatePrefix: the prefixes of the sub-columns and the header of the older object format are not modelled.
- Batch: rows appended through a column handle when that succeeds, and `appendRowsBlocks` (conn_batch.go:138-163).
- LowCardinality: values that a Go map cannot hash, such as byte slices, on which the source panics.
- Transactions over several blocks, block headers and zero-row blocks of lib/proto.
