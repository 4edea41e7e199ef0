# ebpf-ssh-guardian capture core, in Dafny

The Go program `main.go` attaches a uretprobe to `pam_get_authtok` in libpam
and reads the credentials the kernel-side handler captures from a ring
buffer. This project models the sequential logic under the eBPF plumbing and
proves its properties:

- **Record decoding** (`record.dfy`, `bytes.dfy`). `binary.Read` decodes a
  ring-buffer sample into the 180-byte `eventT` record, reading little-endian:
  - `Pid` is an `int32` in bytes 0..3.
  - `Comm` is bytes 4..19.
  - `Username` is bytes 20..99.
  - `Password` is bytes 100..179.

  A sample shorter than 180 bytes is an error: `io.EOF` when the sample is
  empty, `io.ErrUnexpectedEOF` otherwise. These are the errors of
  `io.ReadFull`, which `binary.Read` uses. Bytes past 180 are not read. The
  record is a datatype. `Decode` is a pure function, and `Encode` writes the
  bytes the probe would write, so the round trip can be stated in both
  directions.
- **C-string extraction** (`cstring.dfy`). `byteArrayToString` is an
  imperative method with a `for` loop and an early `break`. It is proved
  equal to the pure function `CString`: the bytes before the first
  zero byte, or the whole buffer if there is none. Three properties fix the
  result uniquely, and the proofs show this.
- **ldconfig output parsing** (`ldconfig.dfy`). `findLibraryPath` takes the
  captured stdout and parses it:
  - It keeps the first token of `bufio.ScanLines`: text up to the first
    `\n`, with one trailing `\r` dropped.
  - On that line it finds the last `>` with `strings.LastIndex`.
  - It returns what follows, after `strings.TrimSpace`. White space here
    means Unicode's White_Space set, the same set as `unicode.IsSpace`.
  - Otherwise it fails with "library not found".

  These are pure functions. The pipeline's run status is a parameter
  (`CommandOutcome`).
- **Consume loop** (`consume.dfy`). The loop at the end of `main` is a method
  over the sequence of results that successive `rd.Read()` calls return:
  - `Closed` ends the loop.
  - Any other read error is logged and skipped.
  - A sample that `binary.Read` rejects is logged and skipped.
  - A decoded sample overwrites the reused `event` variable and logs one
    line with the pid, the user name and the password.

  The method is proved against the function `Run`. Lemmas about `Run` state
  where the loop stops and which event lines it emits.

`wrappers.dfy` holds `Option`/`Result`. `seqs.dfy` holds four small
sequence facts that the larger proofs use.

Two behaviours of the code are worth stating plainly:

- A sample longer than 180 bytes is accepted and its tail ignored
  (`Record.DecodeIgnoresTrailing`); only a shorter sample is an error.
- An empty `grep` result makes the shell pipeline exit non-zero, so it
  arrives as `RunFailed`; `LibraryNotFound` comes only from a first line
  without `>` or from empty output.

## Model

| member | source | states |
|---|---|---|
| Bytes.DecodeInt32LE | main.go:139 | Four little-endian bytes read as `int32`. The result is congruent mod 2^32 to the unsigned value, and negative exactly when the sign bit of byte 3 is set. |
| Bytes.DecodeEncodeInt32 | main.go:139 | Decoding the four-byte little-endian encoding of an `int32` gives it back. |
| Bytes.EncodeDecodeInt32 | main.go:139 | Re-encoding the `int32` decoded from four bytes gives the same four bytes. |
| CStrings.FirstZero | main.go:35-41 | The scan's stopping index is at most `len(b)`. Every byte before it is non-zero, and the byte at it, if any, is zero. |
| CStrings.CString | main.go:34-46 | The extracted text is a prefix of the buffer with no zero byte. It ends at the buffer's end or at a zero byte. |
| CStrings.CStringUnique | main.go:34-46 | Those three properties determine the result: any prefix that has them is the extracted text. |
| CStrings.CStringAtFirstZero | main.go:36-40 | If the first zero byte is at `k`, the text is exactly `b[:k]`. |
| CStrings.CStringWhole | main.go:42-44 | If the buffer has no zero byte, the text is the whole buffer. |
| CStrings.ByteArrayToString | main.go:34-46 | The loop with its early break returns exactly `CString(b)`. |
| Record.ZeroEvent | main.go:126 | The zero `eventT` that `var event eventT` declares has pid 0 and all bytes zero. |
| Record.Encode | main.go:27-32 | An event takes 180 bytes: the pid's little-endian bytes at 0..3, then Comm, Username and Password at 4..19, 20..99 and 100..179. |
| Record.Decode | main.go:139 | Decoding succeeds exactly when the sample has at least 180 bytes. It fails with EOF exactly when the sample is empty. The pid agrees mod 2^32 with bytes 0..3. |
| Record.DecodeFields | main.go:27-32 | Field by field, a sample of at least 180 bytes decodes as the little-endian two's-complement pid of bytes 0..3 and the raw bytes 4..19, 20..99 and 100..179. |
| Record.DecodeShort | main.go:139-142 | Every sample shorter than 180 bytes is rejected: EOF if it is empty, ErrUnexpectedEOF otherwise. |
| Record.DecodeEncode | main.go:139 | Decoding an encoded event returns the same event. |
| Record.DecodeEncodeTrailing | main.go:139 | Trailing bytes after an encoded event do not change the decoded event. |
| Record.EncodeDecode | main.go:139 | A decoded sample re-encodes to exactly its first 180 bytes. |
| Record.DecodeIgnoresTrailing | main.go:139 | Appending bytes to a sample of at least 180 bytes does not change its decoding. |
| Record.DecodeZeroRecord | main.go:139 | 180 zero bytes decode to the zero event. |
| Ldconfig.LineEnd | main.go:60-61 | The line ends at the first `\n`, or at the end of the output if there is none. |
| Ldconfig.DropCR | main.go:62 | A token ending in `\r` loses exactly that one `\r`; any other token is unchanged. |
| Ldconfig.FirstLine | main.go:60-62 | There is no first line exactly when the output is empty. The first line is a prefix of the output and contains no `\n`. |
| Ldconfig.LastIndex | main.go:64 | The result is -1 exactly when the character does not occur. Otherwise it is an index of the character with no occurrence after it. |
| Ldconfig.TrimLeft | main.go:65 | Removes a prefix made only of white space. The result is empty or starts with a non-space. |
| Ldconfig.TrimRight | main.go:65 | Removes a suffix made only of white space. The result is empty or ends with a non-space. |
| Ldconfig.TrimSpace | main.go:65 | The trimmed text neither starts nor ends with white space. |
| Ldconfig.TrimSpaceSplit | main.go:65 | The input is white space, then the trimmed text, then white space. |
| Ldconfig.TrimSpaceKeepsOut | main.go:65 | Trimming never adds a character. |
| Ldconfig.TrimLeftOf | main.go:65 | Left-trimming white space followed by a text that does not start with a space gives exactly that text. |
| Ldconfig.TrimRightOf | main.go:65 | Right-trimming a text that does not end with a space, followed by white space, gives exactly that text. |
| Ldconfig.TrimSpaceOf | main.go:65 | For white space, then a core that neither starts nor ends with a space, then white space, trimming gives exactly the core. |
| Ldconfig.TrimSpaceAppendSpace | main.go:65 | Appending a white-space character does not change the trimmed result. |
| Ldconfig.ParseLine | main.go:64-67 | A path is found exactly when the line contains `>`. The path contains no `>` and has no leading or trailing white space. Otherwise the error is "library not found". |
| Ldconfig.ParseLdconfigOutput | main.go:59-70 | Success exactly when the output is non-empty and its first line contains `>`. Every failure is "library not found". |
| Ldconfig.FindLibraryPath | main.go:48-71 | The run error is returned exactly when the command failed. Otherwise the captured stdout is parsed. |
| Ldconfig.FirstLineTerminated | main.go:60-62 | A line ended by `\n` is the first token, less a trailing `\r`, whatever follows it. |
| Ldconfig.FirstLineUnterminated | main.go:60-62 | Non-empty output with no `\n` is one token, less a trailing `\r`. |
| Ldconfig.ParseOnlyFirstLine | main.go:59-70 | Nothing after the first newline changes the result of parsing. |
| Ldconfig.ParseFindsPath | main.go:61-66 | For a first line `pre>post` with no `>` in `post`, the result is `post` with its white space trimmed. |
| Ldconfig.DropCRAfterArrow | main.go:62 | Dropping the `\r` from a line `pre>post` drops it from `post`. |
| Ldconfig.TrimSpaceDropCR | main.go:62-65 | The `\r` that the scanner drops would have been trimmed anyway. |
| Ldconfig.ParseLineAt | main.go:64-66 | For a line `pre>post` with no `>` in `post`, the line's result is `TrimSpace(post)`. |
| Ldconfig.ParseFindsPathUnterminated | main.go:60-66 | For output that is one line `pre>post` with no newline and no `>` in `post`, the result is `post` with its white space trimmed. |
| Ldconfig.IsSpace | main.go:65 | The white space `strings.TrimSpace` removes is the Unicode White_Space set of `unicode.IsSpace`. No printable ASCII character belongs to it. |
| Ldconfig.ParseNoArrow | main.go:61-70 | If the first line has no `>`, the result is "library not found", even when a later line has one. |
| Consume.Step | main.go:128-143 | Each read result is logged as exactly one line. It is an event line exactly when the result is a sample of at least 180 bytes, and the exit line exactly when the reader was closed. Any other read error is logged as the read-error line. |
| Consume.Run | main.go:127-144 | The log has at most one line per read result. It holds the exit line exactly when a `Closed` was read, and then that line is last. With no `Closed`, every result gets a line. |
| Consume.BeforeClose | main.go:127-133 | The results read before the first `Closed`: a prefix with no `Closed`, ended by `Closed` or by the end of the input. |
| Consume.LineFor | main.go:143 | The line for a well-formed sample, read directly from the layout, is an event line. Its user name and password are zero-free prefixes of bytes 20..99 and 100..179. |
| Consume.ExpectedEvents | main.go:139-143 | The reference list of expected event lines: only event lines, at most one per read result, and none when no result is a sample. |
| Consume.StepWellFormed | main.go:139-143 | A sample of at least 180 bytes is logged as its event line: the pid of bytes 0..3 and the text of bytes 20..99 and 100..179. |
| Consume.StepShort | main.go:139-142 | A shorter sample is logged as a parse error, with no event line. |
| Consume.RunStopsAtClose | main.go:128-133 | The loop logs the lines for the results before the first `Closed`, then the exit line. Nothing after that `Closed` is logged. |
| Consume.EventsOfRun | main.go:127-144 | The event lines match, one to one and in order, the samples of at least 180 bytes read before the first `Closed`. |
| Consume.RunWellFormed | main.go:127-144 | N well-formed samples followed by a close produce exactly N event lines in order, then the exit line. |
| Consume.MalformedThenWellFormed | main.go:139-143 | A malformed sample is logged as a parse error. The well-formed sample after it is still logged as its event. |
| Consume.ConsumeLoop | main.go:126-144 | The loop logs exactly `Run(results)`. It exits exactly when a `Closed` is read, having consumed the results up to and including the first `Closed` and none after it. |

## Left out

- eBPF setup is not modelled: `rlimit.RemoveMemlock`, `loadGuardObjects`, `link.OpenExecutable` and `ex.Uretprobe` (main.go:78-106). These call into the kernel through library code that is not part of this model. guard.c and the bpf2go output are not part of this model either.
- The ring-buffer reader is reduced to the sequence of results its `Read` calls return. `ringbuf.NewReader` and `rd.Close` (main.go:109-113) are not modelled.
- The signal goroutine and `signal.Notify` (main.go:74-75, 117-123) are left out because they are about concurrency. Their only effect on the loop is a later `Closed` result.
- The `sh -c "ldconfig -p | grep ..."` subprocess (main.go:49-57) is left out. Its outcome is the `CommandOutcome` parameter, so the filtering by `grep` and the exit status are not modelled.
- `bufio.Scanner`'s 64 KiB token limit is not modelled. A first line longer than that would make `Scan` fail and give "library not found".
- Ldconfig.TrimSpace: works on Unicode characters (Dafny `char`), so invalid UTF-8 bytes in the ldconfig output are not modelled. Go treats them as non-space runes.
- Ldconfig.FirstLine: the scanner's `\n` and `\r` handling is modelled, but the guard against too many empty tokens is not. That guard cannot matter for the first token.
- Log formatting, the log lines outside the loop (including main.go:93, which prints `defaultBinPath` rather than the resolved path), and the exit codes of `log.Fatal` are not modelled.
- The release order of the `defer`s is not modelled.
- Consume.ConsumeLoop: when the read results run out without a `Closed`, the method returns. The real loop would block in `Read`. The method's `consumed` output says how many results were read.
