# rzcf streaming core in Dafny

rzcf.py filters the Reddit comment archives, which are newline-delimited JSON
compressed with zstd. This project models the part of the script that turns
the decompressed byte stream into lines:

- `read_and_decode` (rzcf.py:26-37) reads chunks of decompressed bytes from a
  reader and decodes them strictly as UTF-8. After a failure it reads again,
  up to `max_attempts` times or until its counter of attempted bytes passes
  `max_window_size`.
- `read_lines_zst` (rzcf.py:40-52) appends every decoded fragment to a line
  buffer and splits the result on `"\n"`. It yields every piece but the last,
  stripped, and keeps the last piece as the new buffer. An empty or absent
  fragment ends the stream.

The model also covers the loop of `main` (rzcf.py:72-129) that consumes those
lines:

- the chain of `continue` tests that selects comments;
- the body-plus-link formatter;
- the output buffer, appended to the file once it holds 100 entries and once
  more at the end.

Modules, one per file:

- `Seqs` (seqs.dfy): two facts about sequence concatenation.
- `Wrappers` (wrappers.dfy): `Option`.
- `Utf8` (utf8.dfy): UTF-8 as in section 4 of RFC 3629, which is the syntax
  Python's strict `bytes.decode()` accepts. It defines a well-formedness
  predicate, `Decode` and `Encode`, and proves the round trips in both
  directions and that decoding distributes over concatenation.
- `Text` (text.dfy): `str.split("\n")`, `"\n".join`, the entries-each-followed-by-`"\n"`
  form the output file takes, `str.strip()` over Python's whitespace set, and
  substring containment.
- `Decoder` (decoder.dfy):
  - the reader, as a class whose `Read` advances a position over the bytes;
  - `ReadAndDecode`, the loop of rzcf.py:26-37, proved against the
    specification function `DecodeSpec`;
  - lemmas that characterise `DecodeSpec`.
- `Lines` (lines.dfy):
  - the reassembly step;
  - `ReadLines`, which drives `ReadAndDecode` just as `read_lines_zst` does
    and is proved against `ReadLinesSpec`;
  - stream-level lemmas: nothing is lost mid-stream, chunking does not matter
    when no read splits a character, the final unterminated line is dropped,
    and the worked examples.
- `Filter` (filter.dfy):
  - the selection predicate and its characterisation;
  - the link formatter;
  - the 100-entry output buffer, as a class;
  - `FilterComments`, the loop of `main`, proved against the function
    `Selected`;
  - `Run`, which feeds `ReadLines` into `FilterComments`.

The `previous_chunk` parameter (rzcf.py:26, 30-31) and the retry notice
(rzcf.py:37) read as if the undecodable bytes were meant to be put in front of
the next read, so that a character split by a chunk boundary is repaired. The
model follows the code as written. `previous_chunk` is never reassigned inside
`read_and_decode`, and `read_lines_zst` never passes one (rzcf.py:45). A failed
read is therefore thrown away, and the next attempt decodes the next read by
itself. `Decoder.SplitCharacterLost` and `Lines.AccentedLineLost` show, on
concrete bytes, a two-byte character lost this way. Suppose a call's first
read ends inside a character and its second read is the last non-empty one.
Then both reads fail, the third read is empty and decodes to the
end-of-stream text, and their bytes are lost without an error.
`Lines.TrailingSplitLostSilently` shows this for a whole well-formed line.
With one more failed read before those two, the third attempt fails instead,
and the call raises (rzcf.py:35-36).

## Model

| member | source | states |
|---|---|---|
| Decoder.Reader.Read | rzcf.py:28 | `reader.read(n)` returns the next at most `n` bytes, fewer only at the end of the stream, and advances past exactly those |
| Decoder.AttemptFrom | rzcf.py:27-37 | definition (the attempts from number `a` on); characterised by `Decoder.AttemptFromShape` |
| Decoder.DecodeSpec | rzcf.py:26-37 | definition (one call, from attempt 0); characterised by `Decoder.DecodeSpecCharacterized` |
| Decoder.ReadAndDecode | rzcf.py:26-37 | the loop returns the result `DecodeSpec` gives for the bytes the reader still held, and leaves the reader past exactly the reads made |
| Decoder.DecodeSpecCharacterized | rzcf.py:27-36 | no read when `max_attempts <= 0`, otherwise 1 to `max_attempts` reads; every attempt but the last failed without raising; the last returns the decoding of its own bytes (the `previous_chunk` argument plus that one read) exactly when they are well-formed, or else raises exactly when the raise condition holds, reporting the counter and the attempt number |
| Decoder.AttemptFromShape | rzcf.py:27-37 | the same characterisation for the attempts from any attempt number on |
| Decoder.ShippedWindowNeverFires | rzcf.py:7-8 | with the shipped constants and a zero counter the window test never fires (3 × 2^27 ≤ 2^30), so an error is raised only after the third attempt |
| Decoder.NonEmptyTextConsumes | rzcf.py:28-33 | a non-empty decoded text was taken from bytes the call read from the stream |
| Decoder.EmptyTextOnlyAtEnd | rzcf.py:28-33 | with a positive chunk size, the empty text (the end-of-stream signal of rzcf.py:46-47) is returned only after every byte has been read |
| Decoder.EmptySourceGivesEmptyText | rzcf.py:28-33 | with `max_attempts >= 1`, at the end of the stream the first read decodes to the empty text, which ends `read_lines_zst` |
| Decoder.FirstReadDecodes | rzcf.py:28-33 | with `max_attempts >= 1`, a first read that is well-formed by itself is returned decoded after one read |
| Decoder.SplitCharacterLost | rzcf.py:30-31 | the two bytes of U+00E9, read one at a time, both fail and the third read returns the empty text, although the two bytes together decode to U+00E9 |
| Lines.Reassemble | rzcf.py:44-51 | definition (the pieces and buffer after feeding fragments in order); characterised by `Lines.ReassembleWrites` and `Lines.ReassembleIsSplit` |
| Lines.ReadLinesSpec | rzcf.py:40-52 | definition (the stripped pieces of the fragments, and the error); characterised by `Lines.ReadLinesDropsTail`, `Lines.LinesAreStripped` and `Lines.CleanStreamLines` |
| Lines.Step | rzcf.py:48-51 | defined as `(buffer + chunk).split("\n")` cut into all parts but the last (the pieces) and the last (the new buffer); its contract states that the pieces and the new buffer hold no separator, there is one piece per separator in `buffer + chunk`, and the pieces, each followed by "\n", then the new buffer give back `buffer + chunk` |
| Lines.ReassembleWrites | rzcf.py:44-51 | after any number of fragments, the completed pieces, each followed by "\n", then the buffer are exactly the fragments concatenated; no piece and no buffer holds a separator |
| Lines.ReassembleIsSplit | rzcf.py:44-51 | feeding fragments one at a time gives the same pieces and buffer as splitting their concatenation once |
| Lines.StreamFragments | rzcf.py:44-47 | the fragments the loop processes are all non-empty |
| Lines.Feed | rzcf.py:48-51 | one iteration yields the stripped pieces of `Step(buffer, chunk)` and keeps its buffer |
| Lines.StripEach | rzcf.py:49-50 | the yielded lines are the pieces, stripped one by one, in order |
| Lines.ReadLines | rzcf.py:40-52 | the lines yielded, and the error raised after them if any, are those `ReadLinesSpec` gives for the bytes the reader held; when no error is raised, the chunk size is positive and `max_attempts >= 1`, the whole stream has been read |
| Lines.ReadLinesDropsTail | rzcf.py:46-52 | the lines are the stripped pieces of the concatenated fragments up to the last separator; the text after it is never yielded |
| Lines.LinesAreStripped | rzcf.py:50 | every yielded line is unchanged by a second strip and holds no separator |
| Lines.CleanStream | rzcf.py:44-47 | with `max_attempts >= 1`, when no read splits a character, the fragments concatenate to the decoding of the whole stream and nothing is raised |
| Lines.CleanStreamLines | rzcf.py:40-52 | under the same conditions, the lines are the stripped pieces of the whole decoding, split once |
| Lines.AsciiChunksWellFormed | rzcf.py:28-33 | for ASCII bytes, every read of any positive size decodes by itself |
| Lines.AsciiChunkingIrrelevant | rzcf.py:26-52 | for ASCII input, among configurations with a positive chunk size and `max_attempts >= 1`, the chunk size, the window and the attempt limit do not change the lines, and nothing is raised |
| Lines.CleanStreamOf | rzcf.py:40-52 | with `max_attempts >= 1`, a clean stream that decodes to the lines `pieces`, each followed by "\n", then a separator-free tail, yields exactly the stripped `pieces` |
| Lines.TwoRecordsAnyChunkSize | rzcf.py:40-52 | `{"a":1}\n{"a":2}\n` yields those two records as lines under every positive chunk size with `max_attempts >= 1`; without the final "\n", only the first is yielded |
| Lines.TrailingSplitLostSilently | rzcf.py:26-52 | `aé\n`, read two bytes at a time, fails on both reads, and the third read is empty, so no line is yielded and no error is raised, although the bytes are well-formed |
| Lines.AccentedLineLost | rzcf.py:26-52 | `é\na\n`, read one byte at a time, yields the lines "" and "a", not "é" and "a" |
| Utf8.WellFormed | rzcf.py:33 | definition (the bytes strict `decode()` accepts); characterised by `Utf8.DecodeEncode`, `Utf8.EncodeDecode` and `Utf8.CharRoundTrip` |
| Utf8.Decode | rzcf.py:33 | decoding never lengthens the input, and yields the empty text exactly for empty input |
| Utf8.CodePoint | rzcf.py:33 | each encoded character decodes to a Unicode scalar value in the range its length allows (no overlong forms) |
| Utf8.EncodeChar | rzcf.py:33 | every character encodes to one well-formed character with that code point |
| Utf8.CharRoundTrip | rzcf.py:33 | each well-formed character is the encoding of its code point |
| Utf8.DecodeEncode | rzcf.py:33 | encoding any text gives well-formed bytes that decode back to that text |
| Utf8.EncodeDecode | rzcf.py:33 | decoding well-formed bytes and encoding the result gives the bytes back |
| Utf8.DecodeAppend | rzcf.py:31-33 | the concatenation of two well-formed byte strings is well-formed and decodes to the concatenation of their decodings |
| Utf8.AsciiDecode | rzcf.py:33 | ASCII bytes are well-formed and decode character for character |
| Text.Split | rzcf.py:48 | `split("\n")` gives one more part than there are separators, and no part holds one |
| Text.Join | rzcf.py:48 | definition (`"\n".join`); characterised by `Text.JoinSplit` and `Text.SplitJoin` |
| Text.JoinSplit | rzcf.py:48 | joining the parts of a split with "\n" gives the string back |
| Text.SplitJoin | rzcf.py:48 | splitting the join of at least one separator-free part gives the parts back |
| Text.SplitOfTerminated | rzcf.py:48-51 | splitting separator-free parts, each followed by "\n", then a separator-free tail gives the parts, then the tail |
| Text.Terminated | rzcf.py:120 | definition (every entry followed by "\n", as the file holds them); characterised by `Text.JoinThenNewline` and `Text.TerminatedConcat` |
| Text.JoinThenNewline | rzcf.py:120 | a non-empty batch joined by "\n", plus one more "\n", is every entry followed by "\n" |
| Text.TerminatedConcat | rzcf.py:120 | writing two batches one after the other is writing their concatenation |
| Text.Strip | rzcf.py:50 | the stripped string is no longer than the input, and neither begins nor ends with whitespace |
| Text.StripIsSlice | rzcf.py:50 | the stripped string is a contiguous slice of the input, with only whitespace before and after it |
| Text.StripIdempotent | rzcf.py:75 | stripping twice is stripping once |
| Text.StripKeepsNoNewline | rzcf.py:50 | stripping never introduces a separator |
| Text.Contains | rzcf.py:96 | `needle in hay` holds exactly when `needle` occurs at some position of `hay` |
| Filter.Tombstone | rzcf.py:78 | definition (a body that is "[deleted]" or "[removed]"); characterised by `Filter.KeepExactly` |
| Filter.Keep | rzcf.py:78-97 | definition (the `continue` chain, in the code's order); characterised by `Filter.KeepExactly` |
| Filter.KeepExactly | rzcf.py:78-97 | a comment is kept exactly when it passes every test: its author does not lower to "automoderator"; its body is not "[deleted]" or "[removed]"; the user, subreddit and date match when given; it is within both range bounds, inclusive, when both are given; and the lowered keyword occurs in the lowered body when a keyword is given |
| Filter.NoFilterKeepsAllOthers | rzcf.py:78-97 | with no option given, only automoderator comments and deleted or removed comments are skipped |
| Filter.HalfRangeIgnored | rzcf.py:93 | a date range with only one bound filters nothing |
| Filter.CriteriaOnlyNarrow | rzcf.py:83-97 | dropping any one option keeps every comment kept before |
| Filter.KeywordCaseInsensitive | rzcf.py:96 | the keyword test depends on the keyword and the body only through their lowered forms |
| Filter.LinkSuffix | rzcf.py:101-109 | the link appended is empty or begins with "\nLink: https://www.reddit.com" |
| Filter.LinkSuffixCases | rzcf.py:102-109 | a non-empty permalink is appended to the site address; otherwise a `link_id` of the form `t3_<id>` gives `/comments/<id>/`; nothing is appended exactly when neither applies |
| Filter.Entry | rzcf.py:99-116 | definition (with `--comment_only` the body, followed by `LinkSuffix(c)` when `--link` is given; otherwise `dumps` of the record); the link's content is characterised by `Filter.LinkSuffixCases` |
| Filter.OutputBuffer.Add | rzcf.py:110-121 | appending keeps fewer than 100 entries buffered; the 100th entry writes the whole batch, joined by "\n" and followed by "\n", and empties the buffer; every entry appended so far is either in the file or buffered, in order |
| Filter.OutputBuffer.Flush | rzcf.py:119-121 | the buffered entries are written joined by "\n" and followed by "\n", and the buffer is emptied |
| Filter.OutputBuffer.Finish | rzcf.py:127-129 | after the final write the file holds every entry appended, in order, each followed by "\n" |
| Filter.Selected | rzcf.py:74-121 | no more entries are stored than there are lines |
| Filter.FilterComments | rzcf.py:72-129 | the file holds the entries `Selected` gives, each followed by "\n"; the count is their number, and `found` holds exactly when there is one |
| Filter.FailureEndsLoop | rzcf.py:73-124 | a line the code fails on ends the loop: the stored entries are those of the lines before it |
| Filter.Run | rzcf.py:72-129 | over an archive, the file holds the entries selected from the lines `read_lines_zst` yields with the shipped constants; a decoding error raised after them changes nothing in the file, and one raised before the first line leaves it empty |

## Left out

- zstd decompression is left out. The reader is the decompressed bytes, so the decompressor's own rejection of frames with a window above `MAX_WINDOW_SIZE` (rzcf.py:43) is not modelled.
- Opening and closing the archive (rzcf.py:41, 52) and the output file (rzcf.py:119, 128) are left out. The file is modelled as the text written to it.
- Argument parsing (rzcf.py:12-23) is left out. Its result is the `Criteria` datatype, with "" standing for an option not given.
- JSON is not modelled. `raw_decode` (rzcf.py:75) becomes the `parse` parameter, and `json.dumps(..., ensure_ascii=False)` (rzcf.py:114) the `dumps` parameter. `dumps` sees the whole record through the `record` field of `Comment`, which holds the line the comment was parsed from. What the serialised text looks like is not modelled.
- Dates are day numbers. `strptime` (rzcf.py:64-67) and `utcfromtimestamp` (rzcf.py:89) are not modelled.
- `str.lower` is the `lower` parameter, not interpreted, since Unicode case mapping is not modelled.
- Logging (rzcf.py:37, 124) and the closing messages (rzcf.py:131-134) are I/O and are left out. The decoding error is returned rather than logged.
- Filter.Run: a decoding error raised before the first line is yielded is not modelled as a crash. In the code, `line` is still unbound at rzcf.py:124, so the handler raises `NameError` and `main` stops before rzcf.py:127-134. Nothing is written, and the closing messages of rzcf.py:131-134 are not printed. The model's output is the empty file, with no message, which matches the file contents only.
- The timestamped output file name (rzcf.py:69-70) depends on the clock and is left out.
- `read_lines_zst` is a generator. `ReadLines` returns all its lines at once, and `Run` reads the whole stream before filtering. The file contents are the same either way, but the order in which reading and filtering are interleaved is not modelled.
- Decoder.Config: `chunk_size` is a natural number. The reader's behaviour for a negative read size is foreign code and is not modelled.
- Filter.Selected: every way a line can make the loop raise is one case, `parse` returning `None`. `parse` stands for `raw_decode` together with the field reads that can raise, so it must be chosen for the given criteria, and it returns `None` exactly where the code would raise:
  - bad JSON, or a missing author (rzcf.py:75, 78);
  - a missing body only when `--keyword` or `--comment_only` reads it (rzcf.py:96, 100). rzcf.py:78 reads it with `.get`, so with neither option a record without a body is kept and serialised;
  - a missing `created_utc` only once the tests of rzcf.py:78-87 have passed (rzcf.py:89).
- Filter.Keep: the records are typed. Non-string field values, and falsy values other than "" and `None`, are not modelled.
- The unreachable second `continue` at rzcf.py:81 has no effect and is not modelled.
