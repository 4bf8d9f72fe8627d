# hexembed in Dafny

hexembed turns a binary file into C source: a comment naming the file, a
`const int <name>_size` constant, and an aligned `const unsigned char
<name>[]` array holding every byte as a `0x%02x` literal, sixteen to a row.
Everything happens in one `main` (hexembed.c). This project models that
function in its own imperative form and proves what its output means.

- `format.dfy`, module `Format`: the two printf conversions the output
  relies on. `Hex2` is `%02x` on a byte and `Decimal` is `%i` on a count.
  Each has its inverse (`HexValue`, `ParseDecimal`) and a round trip.
- `args.dfy`, module `Args`: the argument loop. `Scan` is a pure
  description of what the loop does to `outfile`, `varname` and the
  warnings. `ParseArgs` is the loop as written, with `i` stepping over a
  flag and then over its value, and it is proved against `Scan`. The
  lemmas state the rules for `-o` and `-n`: the last one wins, a flag's
  value is taken whatever it is, a final flag without a value only warns,
  and an unknown token only warns. Warnings are returned as tags.
- `emitter.dfy`, module `Emitter`: the header, the per-byte loop and the
  footer. `Emitted(bytes, k)` is the text that `k` turns of the loop have
  written, and `Body` is the whole array body. `EmitEntries` and
  `EmitDocument` append to the output text step by step and are proved
  against these. The lemmas give the exact length of the body, where each
  entry and separator stands, where the line breaks fall, and that the
  body is the input cut into rows of 16 (`Rows`, a separate definition).
- `decode.dfy`, module `Decode`: the inverse of the array body. Decoding
  the emitted entries gives the input back exactly, and the declared size
  reads back as the number of entries.
- `hexembed.dfy`, module `HexEmbed`: `main` from start to end. The file
  system is a parameter: `files` maps each path that can be opened for
  reading to its contents, and `writable` is the set of paths
  `fopen(.., "wb")` accepts. The output is opened, and so emptied, before
  the input is opened. So `-o` giving the input's own path string embeds an
  empty array. `Execute` is the method and `Run` is its specification.

## Model

| member | source | states |
|---|---|---|
| `Format.HexDigit` | hexembed.c:95-96 | the digit written for a nibble is a lower-case hex digit that reads back as that nibble |
| `Format.Hex2` | hexembed.c:95-96 | `%02x` of a byte is exactly two lower-case hex digits, high nibble first, whose value is the byte |
| `Format.Decimal` | hexembed.c:91 | `%i` of a count is a non-empty run of decimal digits with no leading zero |
| `Format.DecimalRoundTrip` | hexembed.c:91 | the printed size reads back as the same number |
| `Args.ParseArgs` | hexembed.c:39-66 | the argument loop computes the same result as the token-by-token description `Parse`; usage exactly when there are fewer than two argv entries; the input path is `argv[1]` |
| `Args.ScanConcat` | hexembed.c:48-66 | a run of tokens that does not end on a value-less flag can be scanned on its own and the scan continued from its result |
| `Args.ScanWarningsGrow` | hexembed.c:48-66 | warnings are only ever added, never removed |
| `Args.ScanIgnoresWarnings` | hexembed.c:48-66 | the outfile and varname a scan ends with do not depend on the warnings written before it |
| `Args.ScanKeepsOutfile` | hexembed.c:49-55 | tokens with no `-o` among them never change the output path |
| `Args.ScanKeepsVarName` | hexembed.c:56-62 | tokens with no `-n` among them never change the variable name |
| `Args.ScanWithoutFlags` | hexembed.c:63-65 | without `-o`/`-n` tokens the scan changes nothing but the warnings, one `UnexpectedArgument` per token in order |
| `Args.ParseDefaults` | hexembed.c:45-47 | with no flags the input is `argv[1]`, the output is standard output and the name is `"file"` |
| `Args.LastOutfileWins` | hexembed.c:49-55 | the last `-o` read as a flag sets the output path to the token after it, whatever that token is |
| `Args.LastVarNameWins` | hexembed.c:56-62 | the last `-n` read as a flag sets the variable name to the token after it, whatever that token is |
| `Args.TrailingOutfileFlag` | hexembed.c:49-53 | a final `-o` adds a `MissingOutfile` warning and changes nothing else |
| `Args.TrailingVarNameFlag` | hexembed.c:56-60 | a final `-n` adds a `MissingVarName` warning and changes nothing else |
| `Args.ScanWarningsShift` | hexembed.c:48-66 | the warnings a scan writes depend on the tokens alone and are appended after those already written |
| `Args.ScanSkipsUnexpected` | hexembed.c:63-65 | among the tokens after the input path, an unrecognised token leaves the output path and name as if it were absent and inserts one `UnexpectedArgument` warning where it stood |
| `Args.UnexpectedArgumentIgnored` | hexembed.c:63-65 | an unrecognised token leaves the output path and name exactly as if it were absent, and the warnings are those of the run without it with one `UnexpectedArgument` inserted at its place |
| `Args.FlagValueMayBeFlag` | hexembed.c:49-62 | `-o -n` sets the output path to `-n`, and `-n -o` sets the name to `-o` |
| `Emitter.EmitEntries` | hexembed.c:94-98 | the per-byte loop appends exactly `Body(bytes)` to what was written before it |
| `Emitter.EmitDocument` | hexembed.c:90-100 | the header prints, the loop and the footer print write exactly `Document(path, name, bytes)` |
| `Emitter.EmittedLength` | hexembed.c:94-97 | after `k` entries that are not the last, `5k + 2*(k/16)` characters have been written |
| `Emitter.BodyLength` | hexembed.c:94-97 | the body is `5N - 1 + 2*((N-1)/16)` characters for `N >= 1` and empty for `N = 0`, and it ends right after the last entry |
| `Emitter.EmittedPrefix` | hexembed.c:94-98 | what the loop has written is never changed by later turns, only extended |
| `Emitter.EntryAt` | hexembed.c:95-97 | entry `i` stands at `Offset(i)`, spells `0x` and the two digits of `bytes[i]`, and is followed by its separator; so entries appear in input order |
| `Emitter.WrapAt` | hexembed.c:97 | after each entry but the last comes a comma, and a newline follows it exactly after every 16th entry |
| `Emitter.NoTrailingComma` | hexembed.c:97 | a non-empty body ends with the last byte's second hex digit, not a separator |
| `Emitter.EmittedThenFrom` | hexembed.c:94-98 | the loop's text so far followed by the rest, built front to back, is the whole body |
| `Emitter.RowSingleLine` | hexembed.c:95-97 | a row of comma-joined entries holds no newline and no tab |
| `Emitter.FromRow` | hexembed.c:97 | from any entry the text runs to the end of its row of 16, then breaks the line only if bytes remain |
| `Emitter.FromRows` | hexembed.c:94-97 | from the start of any row the text is the rows of 16 built from the remaining bytes |
| `Emitter.BodyIsRows` | hexembed.c:94-97 | the body is the input cut into rows of 16 entries joined by `,\n\t` |
| `Emitter.EmptyInput` | hexembed.c:90-100 | an empty input gives an empty body, the size line `const int <name>_size = 0;`, alignment `4` in the opener, and a document that is the header followed directly by the footer, so the array text is `{\n\t\n};\n` |
| `Emitter.TwoByteExample` | hexembed.c:90-100 | bytes `0x41 0x42` give size 2 and the body `0x41,0x42` |
| `Decode.DecodeNextEntry` | hexembed.c:95-97 | an entry followed by either separator and more entries decodes to its byte, then the rest |
| `Decode.DecodeFrom` | hexembed.c:94-98 | the entries from position `i` on decode to `bytes[i..]` |
| `Decode.DecodeBodyRoundTrip` | hexembed.c:94-98 | decoding the emitted body gives back exactly the input bytes, in order, also when the input is empty |
| `Decode.DeclaredSizeMatchesEntries` | hexembed.c:91-98 | the size in the header reads back as the number of entries the array decodes to |
| `HexEmbed.Execute` | hexembed.c:38-104 | `main` computes `Run`; usage exactly when argv has fewer than two entries; status 0 exactly when the arguments parse, the output (if any) can be opened for writing, and the input can then be opened for reading |
| `HexEmbed.UsageOpensNothing` | hexembed.c:39-43 | fewer than two argv entries: status -1, the usage text on standard output, and no file opened |
| `HexEmbed.OutputFailureSkipsInput` | hexembed.c:68-77 | an output path that cannot be opened ends the run with status -1 before the input is opened |
| `HexEmbed.InputOpenFails` | hexembed.c:79-83 | an input that cannot be opened once the output is open ends the run with status -1, after the output path (if any) and then the input path were opened |
| `HexEmbed.EmbedsInput` | hexembed.c:68-100 | a readable input whose path is a different path string from the output gives status 0 and the document of its full contents at the chosen destination |
| `HexEmbed.SameFileEmbedsNothing` | hexembed.c:72-98 | `-o` naming the input empties it before it is read, so the run declares an empty array |
| `HexEmbed.DefaultRun` | hexembed.c:45-100 | `hexembed <path>` alone writes the array named `file` for the whole file to standard output |

## Left out

- File I/O: `fopen`, `fseek`/`ftell`, `fgetc` and `fclose` (hexembed.c:68-88, 102) are replaced by the `files` map and the `writable` set. The input is taken as already read. Its length is `fsize`.
- Message texts: warnings are the tags `MissingOutfile`, `MissingVarName` and `UnexpectedArgument(arg)`, in the order they are written. The error messages on stderr are not modelled. The message for an output that cannot be opened (hexembed.c:74) names the input path instead of the output path.
- Standard output and standard error as streams: the model returns the text written and where it goes (`Destination`, `StdoutText`). It does not model stream buffering.
- A read that fails part-way: `fgetc` would return EOF and `%02x` would print `ffffffff` (hexembed.c:96). Every read yields a byte in the model.
- Widths: `fsize` and the loop counter are C `int`s. `ftell`'s result is truncated to `int` for very large files, and `ftell` returns -1 on a stream it cannot measure (hexembed.c:86). The model takes the size as a natural number equal to the length of the contents.
- Resource release: the output file is never closed (only the input is, at hexembed.c:102). When the input cannot be opened, the output file is left behind, empty. The model records only the order of the `fopen` calls (`Opened`).
- `HexEmbed.EmbedsInput`: paths name files one to one. Two different path strings are taken to be two different files, with no `./`, `..`, symbolic-link or hard-link aliases. `hexembed f -o ./f` empties `f` before reading it, like `-o f`, but the model embeds the full contents.
- `HexEmbed.SameFileEmbedsNothing`: assumes that a path accepted by `fopen(.., "wb")` can then be opened for reading, as empty. A write-only file named as both input and output would in fact fail the input open (hexembed.c:79-83) and end with -1.
- `Args.LastOutfileWins`: shows last-wins for an `-o` with no later `-o` token. A later `-o` that is only the value of `-n` also leaves the path alone, but the lemma does not cover it.
- `Args.LastVarNameWins`: the same narrowing for `-n`.
- Where the program's documented intent and the code differ, the model follows the code. The warnings for a final `-o` or `-n` say "assuming stdout" and "assuming 'file'" (hexembed.c:52, 59), but an earlier `-o` or `-n` value is kept, as `Args.TrailingOutfileFlag` and `Args.TrailingVarNameFlag` show. The output-open error names the input path. Neither file is closed on the error paths. The size is measured after the output has been opened, so the size and contents are read from the emptied file when both paths are the same.
