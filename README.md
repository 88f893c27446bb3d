# A forwarding DNS resolver, one query at a time

The resolver listens for DNS queries over UDP. For each datagram it reads the
question name from the message. It drops the datagram when the name is empty
or cannot be decoded. Otherwise it forwards the datagram unchanged to the
upstream server 8.8.8.8, port 53, and relays the answer to the client. The
logging variant (`PARTD/partd_custom_resolver.py`) also appends one row per
handled query to `dns_log.csv`. The starter variant (`PARTC/custom_resolver.py`)
only reports to the console.

The project models what both variants do with one datagram:

- `pybuiltins.dfy`: the Python built-ins the code relies on, with Python's
  semantics. These are `bytes` values, clamping slices, `bytes.find`,
  `str.join` and truthiness.
- `utf8.dfy`: strict `bytes.decode('utf-8')` and its encoder partner.
- `query_parser.dfy`: `parse_dns_query`. The two variants' parsers behave
  identically (PARTC lines 27-51, PARTD lines 37-55; PARTC only adds an
  unused `header = data[:12]`), so one model serves both.
  It has a declarative specification, the `while` loop as an imperative
  method proved against it, and lemmas about where the name is read from,
  round trips, truncation and failure. The parser is stated for any label
  decoder, and the resolver instantiates it with UTF-8.
- `upstream.dfy`: the upstream address and port, the datagram handed to
  `sendto` with its destination, and how the exchanges with the upstream
  server and with the client can end.
- `partd_resolver.dfy`: `handle` of the logging variant. It reassigns the log
  fields step by step and appends one row to the log file object. `Serve`
  runs the handler over a sequence of datagrams.
- `partc_resolver.dfy`: `handle` of the starter variant.
- `csv_log.dfy`: the text of `dns_log.csv`. It holds the line the resolver
  writes, a quoted line, and a reader that splits lines into fields as
  RFC 4180 (section 2) describes.

The code departs from the intended design of the name decoder in two places,
and the model follows the code:

- A length byte that runs past the end of the name does not make the decode
  fail. Python's slice clamps, so the last label comes out shortened
  (`TruncatedLastLabel`). The shortened label is then decoded like any
  other (`TruncatedNameParsed`). When it decodes and the name is not
  empty, the query is forwarded and logged under it. A name made only of
  an overrunning length byte reads as the empty name and is dropped
  (`LoneOverrunDropped`). A shortened label that cuts a multibyte
  character is refused, so the query is dropped as undecodable.
- A message of 12 bytes or fewer is not rejected as too short. It decodes to
  the empty name, which the handler then drops because it is falsy. The
  outcome is the same as a rejection: no forward, no reply, no row
  (`ShortMessageGivesEmptyName`, `ShortDatagramDropped`).

With no zero byte after the header, `find` returns -1 and the slice `[:-1]`
drops the last byte of the message (`UnterminatedDropsLastByte`).

## Model

| member | source | states |
|---|---|---|
| PyBuiltins.Find | PARTD/partd_custom_resolver.py:41 | the result is -1 exactly when the byte is absent; otherwise it is the index of its first occurrence |
| PyBuiltins.SliceFrom | PARTD/partd_custom_resolver.py:40 | `data[12:]` is the rest of the message after its first twelve bytes, and empty when the message is no longer than that |
| PyBuiltins.SliceTo | PARTD/partd_custom_resolver.py:42 | `s[:stop]` is a prefix of `s`; a negative stop counts from the end, and both ends clamp to the length |
| PyBuiltins.SliceClamps | PARTD/partd_custom_resolver.py:49 | `s[lo:hi]` is the exact span when it fits, the rest of `s` when `hi` runs past the end, and empty when `lo` is past the end or `hi <= lo` |
| PyBuiltins.JoinEmptyIff | PARTD/partd_custom_resolver.py:51 | a name joined with "." is empty exactly when there are no labels or one empty label |
| PyBuiltins.Truthy | PARTD/partd_custom_resolver.py:65 | `not domain` holds for exactly two values, `None` and the empty string |
| PyBuiltins.JoinStartsWithFirst | PARTD/partd_custom_resolver.py:51 | a joined name starts with its first label, so it is non-empty whenever that label is |
| Utf8.Decode | PARTD/partd_custom_resolver.py:49 | a decoded label never has more characters than bytes |
| Utf8.DecodeEncode | PARTD/partd_custom_resolver.py:49 | every text survives a trip through its UTF-8 encoding and the strict decoder |
| Utf8.EncodeDecode | PARTD/partd_custom_resolver.py:49 | every byte sequence the strict decoder accepts is the encoding of the decoded text, so the decoder accepts only canonical UTF-8 |
| Utf8.EncodeHasZero | PARTD/partd_custom_resolver.py:41 | an encoded text holds a zero byte exactly when the text holds U+0000 |
| QueryParser.QnameRaw | PARTD/partd_custom_resolver.py:41-42 | the encoded name cut at `find(b'\x00')` never holds a zero byte, whether or not the terminator was found |
| QueryParser.ParseQuery | PARTD/partd_custom_resolver.py:37-55 | `parse_dns_query` as a function: it equals the reference reading that cuts the name after the header at the first zero byte, cuts all its labels, decodes them and joins the texts with "."; `None` exactly when a label is refused |
| QueryParser.DomainFalsyIff | PARTC/custom_resolver.py:57-61 | the datagrams the handler drops as falsy are exactly those whose name fails to decode, has no label, or is one empty label |
| QueryParser.DecodeLabels | PARTD/partd_custom_resolver.py:49 | decoding the labels fails exactly when one label is refused; otherwise each decoded part is its label's text, in order |
| QueryParser.LoopStep | PARTD/partd_custom_resolver.py:46-50 | one turn of the loop either ends the parse with `None` (label refused) or appends the decoded label and moves past it |
| QueryParser.ParseDnsQuery | PARTD/partd_custom_resolver.py:37-55 | the `while` loop over the index returns exactly the specified result of parsing the datagram |
| QueryParser.DecodeFromIsDecodeLabels | PARTD/partd_custom_resolver.py:44-50 | the loop's label-by-label decoding equals decoding the list of labels it cuts |
| QueryParser.LabelsBounded | PARTD/partd_custom_resolver.py:46-50 | each turn consumes at least one byte, so there are no more labels than bytes, and no label is longer than 255 bytes |
| QueryParser.EncodeLabels | PARTD/partd_custom_resolver.py:44-50 | the length-prefixed wire form of well-formed labels holds no zero byte, so `find` stops at the terminator |
| QueryParser.LabelsOfEncoded | PARTD/partd_custom_resolver.py:44-50 | walking an encoded name gives back exactly its labels, followed by whatever the following bytes spell |
| QueryParser.TruncatedLastLabel | PARTC/custom_resolver.py:42-46 | a last length byte that promises more bytes than remain gives a shortened last label, not an error |
| QueryParser.TruncatedNameParsed | PARTC/custom_resolver.py:36-48 | a message whose last length byte overruns the name parses to its labels, the clamped last one included, decoded and joined with "."; it is `None` exactly when one of them is refused |
| QueryParser.ParseQnameByLabels | PARTD/partd_custom_resolver.py:44-52 | parsing a bare name is cutting its labels, decoding each and joining them with "."; it is `None` exactly when decoding the labels fails |
| QueryParser.ParseFailsIffLabelRefused | PARTD/partd_custom_resolver.py:49-55 | the parser returns `None` exactly when the decoder refuses one of the labels |
| QueryParser.ParseDecodedLabels | PARTD/partd_custom_resolver.py:44-52 | when every label decodes, the result is the decoded labels joined with "." |
| QueryParser.ShortMessageGivesEmptyName | PARTD/partd_custom_resolver.py:40-51 | a datagram of at most 12 bytes decodes to the empty name |
| QueryParser.HeaderIgnored | PARTC/custom_resolver.py:32-33 | the first 12 bytes never affect the result: it depends on the bytes after the header alone |
| QueryParser.NameEndsAtFirstZero | PARTD/partd_custom_resolver.py:41-42 | the name is read from the bytes after the header up to the first zero byte; everything after that zero is ignored |
| QueryParser.UnterminatedDropsLastByte | PARTC/custom_resolver.py:36-37 | with no zero byte after the header, the name is the rest of the message without its last byte |
| QueryParser.RoundTrip | PARTD/partd_custom_resolver.py:44-52 | header, length-prefixed labels of 1 to 255 non-zero bytes, a zero byte and any trailing bytes parse to the labels' texts joined with "." |
| QueryParser.ValidLabelTextIff | PARTC/custom_resolver.py:45 | the label texts that survive the trip are the non-empty ones free of U+0000 whose encoding fits 255 bytes |
| QueryParser.Utf8RoundTrip | PARTC/custom_resolver.py:40-48 | with the UTF-8 decoder, a question name encoded from label texts parses back to those texts joined with "." |
| PartDResolver.ErrorText | PARTD/partd_custom_resolver.py:140 | the `f"Error: {e}"` text never equals "Response Received" or "Forwarding Timed Out", so the response column tells the three endings apart |
| PartDResolver.ResponseText | PARTD/partd_custom_resolver.py:72-140 | the final `log_response`: "Response Received" exactly when a response came and the relay succeeded, "Forwarding Timed Out" exactly on timeout, and "Error: " with the exception's text after a failed upstream send, another socket error, or a failed relay |
| PartDResolver.RttMs | PARTD/partd_custom_resolver.py:73-124 | the final `log_rtt`: the measured seconds times 1000 whenever a response came, a failed relay to the client included; the placeholder 0 when no response arrived (failed upstream send, timeout or other error) |
| PartDResolver.Handle | PARTD/partd_custom_resolver.py:63-150 | a falsy domain means no forward, no reply and no row. Otherwise one row is produced whatever the outcome: server 8.8.8.8, step "Forwarded to Upstream", one server visited, cache status "MISS (Caching Disabled)", total time equal to the RTT. The received bytes go to 8.8.8.8 port 53 unless the upstream send itself raises. The client gets the upstream bytes unchanged exactly when a response came and the relay succeeded. The response column reads "Response Received" exactly then, and "Forwarding Timed Out" exactly on timeout. It reads "Error: " with the exception's text when the upstream send fails, when waiting fails otherwise, and when the relay to the client fails after a response |
| PartDResolver.HandleQuery | PARTD/partd_custom_resolver.py:57-150 | reassigning the log fields step by step gives exactly `Handle`'s outcome, and the log gains exactly that outcome's row |
| PartDResolver.LogFile.constructor | PARTD/partd_custom_resolver.py:22-27 | at start-up the log holds no rows, only its header |
| PartDResolver.LogFile.Append | PARTD/partd_custom_resolver.py:146-150 | a successful write appends one row and leaves the earlier rows unchanged |
| PartDResolver.Serve | PARTD/partd_custom_resolver.py:155-162 | handling datagrams one after the other appends their rows in arrival order and sends their replies in arrival order |
| PartDResolver.OneRowPerDecodedQuery | PARTD/partd_custom_resolver.py:146-150 | the log holds exactly one row per query whose domain is non-empty, in order, each naming that domain and recording the forwarding to 8.8.8.8, every write succeeding |
| PartDResolver.ShortDatagramDropped | PARTD/partd_custom_resolver.py:63-66 | a datagram no longer than the header is neither forwarded, answered nor logged |
| PartDResolver.LoneOverrunDropped | PARTD/partd_custom_resolver.py:44-66 | a name that is one length byte followed at once by the terminator clamps to one empty label, reads as the empty name, and is neither forwarded, answered nor logged |
| PartDResolver.WellFormedQueryLogged | PARTD/partd_custom_resolver.py:146-150 | a datagram with a well-formed question name is logged under that name, and forwarded exactly when the upstream send does not fail |
| CsvLog.RowLineAsWritten | PARTD/partd_custom_resolver.py:148-150 | the unquoted line the resolver writes; it equals the corrected quoted line whenever no field holds a comma, a quote or a line break |
| CsvLog.Fields | PARTD/partd_custom_resolver.py:148-150 | a row is written as ten fields, as many as the header has columns |
| CsvLog.ReadPlainOf | PARTD/partd_custom_resolver.py:148-150 | a field with no comma, quote or line break reads back unchanged, up to the separator after it |
| CsvLog.ReadQuotedOf | PARTD/partd_custom_resolver.py:148-150 | a field between quotes, with its quotes doubled, reads back as the field |
| CsvLog.ReadFieldOf | PARTD/partd_custom_resolver.py:148-150 | any field, quoted where needed, reads back as the field |
| CsvLog.ReadFieldsOf | PARTD/partd_custom_resolver.py:148-150 | a line of fields, each quoted where needed, reads back as exactly those fields |
| CsvLog.ReadRowLine | PARTD/partd_custom_resolver.py:146-150 | a quoted row line reads back as the row's ten fields in header order, whatever the domain or error text holds |
| CsvLog.ReadHeader | PARTD/partd_custom_resolver.py:27 | the header line reads back as the ten column names |
| CsvLog.ReadLines | PARTD/partd_custom_resolver.py:146-150 | row lines written by the quoted `RowLine` (the corrected line, not the line as written) read back as one record per row, in order |
| CsvLog.ReadLog | PARTD/partd_custom_resolver.py:22-27 | the log text with the header line and every row written by the quoted `RowLine` (the corrected file, not the file as written) reads back as the column names, then one ten-field record per row, in order |
| CsvLog.AsWrittenLineSplitsDomain | PARTD/partd_custom_resolver.py:148-150 | the line as written, for a domain that holds a comma, reads back as eleven fields with the domain split in two |
| PartCResolver.Handle | PARTC/custom_resolver.py:53-120 | a falsy domain means no forward and no reply. Otherwise the cache status is "MISS", so the miss is always reported, and the received bytes go to 8.8.8.8 port 53 unless the upstream send itself raises. The client gets the upstream bytes unchanged exactly when a response came and the relay succeeded; a failed send, a timeout or an error sends nothing |
| PartCResolver.HandleQuery | PARTC/custom_resolver.py:53-120 | the handler's `try`/`except` sequence gives exactly `Handle`'s outcome |

## Left out

- Sockets are not modelled: the UDP server, the forwarding socket, its
  2-second timeout and the 512-byte receive. How the upstream exchange ends
  (`Upstream.Outcome`) and how the reply to the client ends
  (`Upstream.SendOutcome`) are inputs. The client's address is not
  modelled; a reply is the datagram sent back to it.
- A timeout raised by the upstream `sendto` itself is not modelled apart:
  a send on a UDP socket does not wait for the peer. Every failure of that
  send is `Outcome.ForwardFailed`, logged as an error.
- A failure to create the forwarding socket (PARTD line 104, PARTC line 87)
  is not modelled. It happens outside the `try` and would end the handler
  with an exception.
- The clock is an input. The `isoformat()` timestamp is a string in the
  query, and the time between the two `time.time()` readings is a real
  number of seconds carried by the response.
- Console output (`print`) is left out. In PARTC the cache-miss report is
  kept as a boolean, because it is the one visible effect of the cache
  status.
- The log file object holds row values. The text of the file is modelled
  separately, in `CsvLog`. Left out are the file's deletion and
  recreation at start-up and the warning printed when a write fails
  (PARTD lines 151-152).
- A failed `open` or `write` of the log (PARTD lines 146-152) leaves the
  row out of the file. The model always appends it, so `HandleQuery`,
  `Serve` and `OneRowPerDecodedQuery` describe the log as if every write
  succeeds.
- The fixed-point formatting of the two times (`:.4f`) is a parameter of
  the line functions, not a definition. Python's rounding of binary floats
  is not modelled.
- `CsvLog.Header` is defined as the column names joined by commas. It is
  not written out as one literal; the text is the same as the literal at
  PARTD line 27.
- `DNS_CACHE` and `CACHE_ENABLED` are not modelled beyond the constant,
  because no caching code exists: only an empty dictionary and
  commented-out placeholders.
- Concurrency is left out: the UDP server handles one request at a time.
  `Serve` takes a finite sequence of datagrams in place of `serve_forever`.
- The benchmark, plotting and network-topology scripts are not part of this
  model.
- Utf8.Decode: its own contract states only a length bound. What it
  decodes is pinned down by the two round-trip lemmas, `DecodeEncode` and
  `EncodeDecode`.

## Findings

| source | as written | input that shows it | evidently intended | confidence | as-written member | corrected member |
|---|---|---|---|---|---|---|
| PARTD/partd_custom_resolver.py:148-150 | each log line joins its fields with commas and quotes none of them, and a label may hold any non-zero byte, comma included | a query whose question name is `03 61 2C 62 03 63 6F 6D 00` decodes to the domain `a,b.com`; its log line reads back as eleven fields, while the header and the `pd.read_csv` reader in `PARTD/plot_logs.py` assume ten per line | every row reads back as its ten fields (quote any field holding a comma, quote or line break, RFC 4180 section 2) | medium, not executed | CsvLog.AsWrittenLineSplitsDomain | CsvLog.ReadRowLine |
