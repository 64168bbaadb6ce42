# address-analytics: the Dune-to-CSV extract loop, in Dafny

This project models the core of `dune_to_csv.py`. That script reads a list of
wallet addresses from a text file, one per line. It splits the list into
batches of `batch_size` addresses (50 by default) and sends each batch to a
saved Dune Analytics query as one comma-joined text parameter. It writes the
rows each query returns to the analysis's CSV file: the first batch truncates
the file and writes a header, and every later batch appends its rows without
one.

The modules follow the script's pieces:

- `Sequences`: `Flatten`, the concatenation of a list of lists, shared by the
  other modules.
- `Addresses`: `read_addresses`. Python's text-mode reading is written out:
  universal-newline translation (`Translate`), iteration over lines that keep
  their `"\n"` (`Lines`), and `str.strip()` with Python's own whitespace set
  (`Strip`). Blank lines become empty strings and stay in the list.
- `Batching`: the batches that `range(0, len(addresses), batch_size)` and
  `addresses[i:i+batch_size]` produce.
- `Query`: the two saved queries (`4140317` for token balances, `4140137`
  for DeFi trades), their output files, and the request `execute_dune_query`
  builds. Python's `",".join` and `str.split(",")` are modelled to state when
  the joined parameter gives the batch back.
- `CsvSink`: `write_to_csv`. The output file is a class `CsvFile` whose fields
  (`present`, `lines`) the method `Write` updates in place. Its lines are a
  header line or record lines. `AfterWrite` is the pure description of one
  write. `ReadTable` reads back a well-formed table (one header line, then
  records with its columns) as the rows under the header.
- `Pipeline`: the loop of `process_token_balances` and `process_defi_trades`
  as the method `ProcessAnalysis`, proved against the function `RunSpec`.
  The remote query service is a parameter: an oracle from request to response
  (`Rows(rows)` or `Failed`). A failed query ends the run, and the lines
  already written stay in the file.

One consequence of the code as written is proved, not corrected. When the
first batch returns no rows, no `'w'` write happens. The file then keeps
whatever it held before the run, and the later batches append their rows after
it with no header (`RunCompletedFirstEmpty`, `RunWritesWithoutHeader`).

## Model

| member | source | states |
|---|---|---|
| Addresses.IsSpace | dune_to_csv.py:17 | definition: the characters Python's `str.isspace` accepts, which are exactly what `line.strip()` removes from either end |
| Addresses.Strip | dune_to_csv.py:17 | `line.strip()` is the slice of the line that starts at its first non-whitespace character; only whitespace follows it, it has no whitespace at either end, and it is empty exactly when the line is all whitespace |
| Addresses.StripClean | dune_to_csv.py:17 | stripping a string with no whitespace at either end leaves it unchanged |
| Addresses.StripIdempotent | dune_to_csv.py:17 | stripping twice gives the same result as stripping once |
| Addresses.Translate | dune_to_csv.py:16 | reading in text mode leaves no `"\r"` and never lengthens the text |
| Addresses.TranslateNoReturn | dune_to_csv.py:16 | text that has no `"\r"` reads back exactly as written |
| Addresses.TranslatePlain | dune_to_csv.py:16 | text without `"\r"` passes through the translation unchanged, whatever follows it |
| Addresses.TranslateJoinLines | dune_to_csv.py:16 | lines ended by `"\r\n"` or by a lone `"\r"` translate to the same text as the same lines ended by `"\n"` |
| Addresses.Lines | dune_to_csv.py:16-17 | definition: the lines that iterating over the open file yields, each keeping its `"\n"`; characterised by `LinesFlatten`, `LinesShaped` and `LinesCount` |
| Addresses.LinesFlatten | dune_to_csv.py:16-17 | the lines that iterating over the file yields, concatenated in order, are the whole text, so nothing is lost or reordered |
| Addresses.LinesShaped | dune_to_csv.py:16-17 | no yielded line is empty, none has a `"\n"` before its last character, and every line but the last ends in `"\n"` |
| Addresses.LinesCount | dune_to_csv.py:16-17 | the file yields one line per `"\n"`, plus one for a final line without `"\n"` |
| Addresses.ReadAddresses | dune_to_csv.py:14-19 | `read_addresses` returns one element per line of the translated text; no element contains a line break or has whitespace at either end |
| Addresses.StripNewline | dune_to_csv.py:17 | the `"\n"` a line keeps is stripped along with its other whitespace: a line and its `"\n"` strip to the same address |
| Addresses.ReadAddressesStripped | dune_to_csv.py:14-19 | for a file of any lines ended by `"\n"`, `"\r\n"` or `"\r"`, element k of the result is line k stripped of whitespace at both ends |
| Addresses.ReadAddressesLineEnds | dune_to_csv.py:14-19 | a corollary for clean addresses: writing them one per line, each followed by `"\n"`, `"\r\n"` or `"\r"`, and reading the file back gives the same list, empty strings included |
| Addresses.PaddedLineRead | dune_to_csv.py:14-19 | `"  0xAA\t\r\n"` reads as `["0xAA"]` |
| Addresses.ReadAddressesLast | dune_to_csv.py:14-19 | a file whose last line has no line end: each `"\n"`-ended line is read stripped, and so is the last line, which is not dropped |
| Addresses.ReadAddressesLastClean | dune_to_csv.py:14-19 | clean addresses written with a `"\n"` after each but the last read back as the same list |
| Addresses.UnterminatedLastLine | dune_to_csv.py:17 | `"0xAA\n0xBB"` reads as `["0xAA", "0xBB"]` |
| Addresses.BlankLineKept | dune_to_csv.py:17 | a blank line between two addresses comes back as `""` in its place and is not skipped |
| Addresses.CrlfLinesRead | dune_to_csv.py:16-17 | a file with Windows line ends reads as one address per line, with no `"\r"` left over |
| Batching.Slice | dune_to_csv.py:56 | `addresses[i:i+B]` has B elements, or whatever is left after offset i, and its k-th element is `addresses[i+k]` |
| Batching.Batches | dune_to_csv.py:55-56 | definition: the slices `addresses[i:i+B]` for i in `range(0, n, B)`, in loop order; characterised by the four lemmas below |
| Batching.BatchesFlatten | dune_to_csv.py:55-56 | the batches of the loop, concatenated in order, are exactly the address list |
| Batching.BatchesSizes | dune_to_csv.py:55-56 | every batch has between 1 and B addresses |
| Batching.BatchesCount | dune_to_csv.py:55 | there are ceil(n / B) batches for n addresses |
| Batching.BatchesEmpty | dune_to_csv.py:55 | there are no batches exactly when the address list is empty |
| Batching.BatchesOfThree | dune_to_csv.py:55-56 | three addresses in batches of two give the batches `[a, b]` and `[c]` |
| Query.JoinComma | dune_to_csv.py:27 | definition: `",".join`, one `","` between neighbours; characterised by `JoinCommaLength`, `JoinSplit` and `SplitJoin` |
| Query.JoinCommaLength | dune_to_csv.py:27 | `",".join` of a non-empty list is as long as all addresses together plus one separator per pair of neighbours; joining none gives `""` |
| Query.SplitCommaPieces | dune_to_csv.py:27 | no piece of a split on `","` contains a comma |
| Query.JoinSplit | dune_to_csv.py:27 | joining the pieces of a split with `","` gives back the string |
| Query.SplitJoin | dune_to_csv.py:27 | splitting the joined parameter on `","` gives back a non-empty batch in which no address has a comma |
| Query.QueryId | dune_to_csv.py:57 | definition: the saved query of each analysis, `'4140317'` for token balances (line 57) and `'4140137'` for DeFi trades (line 64) |
| Query.OutputFile | dune_to_csv.py:58 | definition: the file each analysis writes, `'token_balances.csv'` (line 58) and `'defi_trades.csv'` (line 65) |
| Query.Request | dune_to_csv.py:23-29 | definition: the request for a batch, the analysis's query id with the batch joined by `","` as its `addresses` parameter; characterised by `RequestRoundTrip` |
| Query.RequestRoundTrip | dune_to_csv.py:21-29 | the request for a batch names the analysis's saved query, and its `addresses` parameter splits back into the batch |
| Query.CommaInAddressSplits | dune_to_csv.py:27 | an address that contains a comma does not survive the round trip: it comes back as two addresses |
| CsvSink.Columns | dune_to_csv.py:43 | definition: `data[0].keys()`, a row's keys in the row's own order, used as the field names |
| CsvSink.AfterWrite | dune_to_csv.py:37-49 | definition: the file after `write_to_csv`; characterised by the write lemmas below and implemented by `CsvFile.Write` |
| CsvSink.AfterWriteConsistent | dune_to_csv.py:38-49 | a write never leaves lines in a file that does not exist, and a write of rows always leaves the file existing |
| CsvSink.CsvFile.Write | dune_to_csv.py:37-49 | after `write_to_csv(data, name, mode)` the file is `AfterWrite` of the old file: unchanged when `data` is empty; for `'w'`, present and holding the first row's keys as header, then one record per row; for `'a'`, present and holding the old lines, then one record per row |
| CsvSink.WriteEmptyIsNoOp | dune_to_csv.py:38-40 | an empty write leaves the file as it was, in either mode, even a missing file |
| CsvSink.WriteTruncateReadBack | dune_to_csv.py:43-49 | a `'w'` write of rows with one key set leaves the file present, with exactly one header line, and it reads back as exactly those rows |
| CsvSink.WriteAppendKeepsContent | dune_to_csv.py:44-49 | an `'a'` write keeps every existing line in place, puts the new records after them, and adds no header line |
| CsvSink.WriteAppendReadBack | dune_to_csv.py:44-49 | appending rows with the header's keys to a table gives a table that reads back as the old rows followed by the new ones |
| CsvSink.AppendAfterWrite | dune_to_csv.py:37-49 | an `'a'` write after a write of rows has the effect of one write of both row lists in the first write's mode |
| Pipeline.ModeAt | dune_to_csv.py:58 | definition: `'a' if i > 0 else 'w'` |
| Pipeline.Plan | dune_to_csv.py:55-57 | definition: the request for each batch in loop order, and none for a negative step; characterised by `PlanCoversAddresses` |
| Pipeline.RunWrites | dune_to_csv.py:55-58 | definition: the file after one write per batch in order, the first with `'w'`, the others with `'a'`; characterised by `RunWritesAsOneWrite`, `RunWritesWithHeader` and `RunWritesWithoutHeader` |
| Pipeline.RunSpec | dune_to_csv.py:53-65 | definition: the result of one run: a zero step fails at once; otherwise the planned requests are sent until the first failure, and the rows of the earlier ones are written; implemented by `ProcessAnalysis` |
| Pipeline.ProcessAnalysis | dune_to_csv.py:53-65 | the loop sends exactly the requests `RunSpec` sends and leaves the file as `RunSpec` leaves it: batch k is written with `'w'` if its offset is 0 and with `'a'` otherwise; a zero batch size fails before anything is sent, and a negative one sends nothing; the first failed query ends the run after that request, with the earlier writes kept |
| Pipeline.ProcessTokenBalances | dune_to_csv.py:53-58 | `process_token_balances` is that loop for query `4140317` writing `token_balances.csv`, with batch size 50 by default |
| Pipeline.ProcessDefiTrades | dune_to_csv.py:60-65 | `process_defi_trades` is that loop for query `4140137` writing `defi_trades.csv`, with batch size 50 by default |
| Pipeline.RunWritesSnoc | dune_to_csv.py:58 | each further batch's write comes after the earlier ones, and is in `'a'` mode unless it is the first batch |
| Pipeline.RunSpecAborted | dune_to_csv.py:55-58 | when the query for batch k is the first to fail, the run ends with that failure after sending requests 0..k, and the file holds the writes of batches 0..k-1 |
| Pipeline.RunWritesAsOneWrite | dune_to_csv.py:55-58 | the writes of a whole run have the effect of one write of all rows in batch order: a `'w'` write if the first batch returned rows, otherwise an `'a'` write |
| Pipeline.RunWritesWithHeader | dune_to_csv.py:55-58 | if the first batch returned rows and all rows share its keys, the file ends with exactly one header line and reads back as every batch's rows in order |
| Pipeline.RunWritesWithoutHeader | dune_to_csv.py:55-58 | if the first batch returned no rows, the file keeps its old lines, every later row is appended after them, no header line is added, and the file exists afterwards only if it existed before or some row was written |
| Pipeline.PlanCoversAddresses | dune_to_csv.py:55-57 | a run with a positive batch size sends ceil(n / B) requests, all for the analysis's query; when no address has a comma, splitting their parameters and concatenating gives back the address list exactly |
| Pipeline.RunEmptyAddresses | dune_to_csv.py:55 | with no addresses and a non-zero batch size, the run sends nothing and leaves the file as it was |
| Pipeline.RunZeroBatchSize | dune_to_csv.py:55 | a batch size of 0 fails before any query or write, even with no addresses |
| Pipeline.RunFirstQueryFails | dune_to_csv.py:55-58 | if the first query fails, the run sends only that request and the file is untouched |
| Pipeline.RunCompletedWithHeader | dune_to_csv.py:53-58 | a completed run whose first batch returned rows, all sharing one key set, sent ceil(n / B) requests and leaves one header line and all rows of all batches in order |
| Pipeline.RunCompletedFirstEmpty | dune_to_csv.py:53-58 | a completed run whose first batch returned no rows keeps the file's old lines, appends all later rows after them, and adds no header line |

## Left out

- Addresses.ReadAddresses: its own contract gives the number of addresses and that each is clean. What each address is gets stated by `ReadAddressesStripped` for files whose lines all end in the same one of `"\n"`, `"\r\n"` or `"\r"`, and by `ReadAddressesLast` for `"\n"`-ended lines followed by a last line with no line end. A file that mixes line ends, or whose lines end in `"\r\n"` or `"\r"` while its last line has no line end, is covered only by the definition.
- Addresses.Translate: its own contract does not say what a `"\r"` becomes; `TranslateJoinLines` states it for files whose lines all end the same way, and a mix of line ends within one file is covered only by the definition.
- Reading the address file: a missing or unreadable file raises, and the bytes are decoded with the platform's encoding. The model starts from the file's text as a string.
- The progress messages the script prints (lines 15, 18, 22, 34, 39, 42, 51, 54, 61) are output only and are not modelled.
- Running the query (`DuneClient.from_env`, `run_query_dataframe`, `to_dict('records')`) is a remote call. It is the oracle parameter. The query's display name and the client's configuration are not modelled.
- Pipeline.ProcessAnalysis: the oracle is a function, so two identical requests in one run get identical answers. The real service could answer them differently.
- CsvSink.CsvFile.Write: requires every row of one write to have the first row's keys in order (`SameColumns`), and `ProcessAnalysis` requires this of every response (`UniformShape`). `csv.DictWriter` raises on a row with an extra key and writes an empty cell for a missing one; neither case is modelled.
- How `csv.DictWriter` renders a line as text (quoting, escaping, `\r\n` line ends, `newline=''`) is not modelled. Each line is a header line or a record line.
- Write failures (a full disk, permissions) are not modelled. Every write succeeds.
- Loading the environment and the API key (lines 8-12) and `main` (lines 67-78) are configuration and wiring, and are not modelled.
- `dune_to_clickhouse.py` is not part of this model.
