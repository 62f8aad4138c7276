# bin2c, modelled in Dafny

`tools/bin2c.c` turns a file into C source text. It takes one argument, a
path. It prints `char a[] = {` and a newline. Then, for every byte of the
file, it prints `0x`, the byte's two upper-case hexadecimal digits and a
comma, with a newline after every tenth such literal. It ends with `};`
and a newline. A wrong argument count exits with -1, and a path that fails
the existence check (`access` with `F_OK`) exits with -2. Otherwise it exits with 0.

The project has two modules:

- `CArrayFormat` (`format.dfy`) is the output format as pure functions.
  `HexDigit` and `HexValue` are one hexadecimal digit and its value.
  `Literal` is the five characters of one byte. `Body` is the literals
  with their line breaks. `Render` is the whole output. `LiteralValue`,
  `ParseBody` and `Parse` read the text back. The lemmas give the layout
  (where each literal and each newline sits), the newline count, the
  length, the round trip and a worked twelve-byte example.
- `Bin2C` (`bin2c.dfy`) is `main`. `ExitCode` is the three-way decision on
  the arguments. `EmitArray` is the read loop, written as a loop with the
  counter `n` and an output buffer, and proved to produce exactly
  `Render` of the bytes it read. `Run` puts the two together.

The file and standard output are modelled as values. Standard output is
the string the methods return; each `printf` appends to it. The file is its
content (`seq<Byte>`) plus `readable`, the number of one-byte reads that
succeed before one fails. The `access(…, F_OK)` check is the boolean
`pathExists`. The program name `argv[0]` is the string `progName`.

## Model

| member | source | states |
|---|---|---|
| `CArrayFormat.HexValue` | tools/bin2c.c:23 | only `0`-`9` and upper-case `A`-`F` have a value, and every value is below 16 |
| `CArrayFormat.HexDigit` | tools/bin2c.c:23 | the digit written for a value below 16 reads back as that value; it is a decimal digit for values below 10 and an upper-case letter `A`-`F` otherwise |
| `CArrayFormat.HexDigitUnique` | tools/bin2c.c:23 | a character has value d exactly when it is the digit written for d |
| `CArrayFormat.Literal` | tools/bin2c.c:23 | a byte is written as exactly five characters: `0`, `x`, the high nibble's digit, the low nibble's digit, `,`; it holds no newline |
| `CArrayFormat.LiteralValue` | tools/bin2c.c:23 | whatever five characters read back as a byte are exactly that byte's literal |
| `CArrayFormat.LiteralRoundTrip` | tools/bin2c.c:23 | reading a byte's literal back gives that byte |
| `CArrayFormat.Body` | tools/bin2c.c:19-27 | the text between the tokens for N bytes has length 5·N + floor(N/10) |
| `CArrayFormat.NewlineCount` | tools/bin2c.c:24-26 | the text between the tokens holds exactly floor(N/10) newlines |
| `CArrayFormat.Render` | tools/bin2c.c:17-29 | the output starts with exactly `char a[] = {\n`, ends with exactly `};\n`, holds the literals and line breaks in between, and has length 13 + 5·N + floor(N/10) + 3 |
| `CArrayFormat.RenderEmpty` | tools/bin2c.c:17-29 | empty input gives exactly `char a[] = {\n};\n` |
| `CArrayFormat.BodyPrefix` | tools/bin2c.c:19-27 | the text for a prefix of the bytes is a prefix of the text for all of them, so the output only grows by appending |
| `CArrayFormat.LiteralAt` | tools/bin2c.c:19-27 | the literal of byte k (0-based) is the five characters at offset 5·k + floor(k/10), so literals appear in input order |
| `CArrayFormat.NewlineAfter` | tools/bin2c.c:24-26 | a newline follows the k-th literal (1-based) exactly when k is a multiple of ten; none follows the last literal unless N is a multiple of ten |
| `CArrayFormat.Parse` | tools/bin2c.c:17-29 | only text that opens with `char a[] = {\n` and closes with `};\n` reads back |
| `CArrayFormat.ParseBodyOfBody` | tools/bin2c.c:19-27 | reading the literals between the tokens back, skipping newlines, gives the input bytes in order |
| `CArrayFormat.ParseRender` | tools/bin2c.c:17-29 | round trip: reading the whole output back gives the input bytes exactly |
| `CArrayFormat.RenderInjective` | tools/bin2c.c:17-29 | two inputs give the same output exactly when they are equal |
| `CArrayFormat.RenderTwelve` | tools/bin2c.c:17-29 | bytes 0x00..0x0B give one line of ten literals ending in a newline, then `0x0A,0x0B,` with no newline before `};\n` |
| `Bin2C.ExitCode` | tools/bin2c.c:8-30 | the status is -1 exactly when the argument count is not 2, whatever the file; -2 exactly when it is 2 and the existence check on the path fails; 0 exactly when it is 2 and the check succeeds |
| `Bin2C.UsageText` | tools/bin2c.c:9-10 | the usage text is `usage:` and a newline, two spaces, the program name, ` fname` and a newline |
| `Bin2C.MissingText` | tools/bin2c.c:13 | the text for a failed existence check is `file `, the program name (`argv[0]`, not the path) and ` doesn't exists!` with a newline |
| `Bin2C.Delivered` | tools/bin2c.c:19-22 | the loop obtains at most the file's length and at most the number of reads that succeed, and it stops only at one of those two bounds |
| `Bin2C.EmitArray` | tools/bin2c.c:16-29 | the loop with counter `n` writes exactly the rendering of the bytes it read: the whole file when no read fails, and otherwise the prefix before the failed read, still closed by `};\n` |
| `Bin2C.Run` | tools/bin2c.c:7-32 | the status is `ExitCode`; with a wrong argument count the output is the usage text; when the existence check fails it is the "doesn't exists" text; otherwise it is the rendering of the bytes read |

## Left out

- `access`, `fopen`, `feof`, `fread` and `fclose` are libc calls. The file is a byte sequence plus a count of successful reads. The existence check is a boolean.
- `Bin2C.Run`: when the existence check succeeds but `fopen` fails and returns NULL, the source passes NULL to `feof`. That is undefined behaviour, so the model does not cover it. A path that passes the check is always read.
- `printf` is modelled only for the strings the program writes. For `%.2X` that means the two digits of one byte, not the general conversion.
- Text-mode (`"r"`) newline translation is not modelled. Neither is the way the operating system turns the returns -1 and -2 into exit codes.
- The counter `n` is an `unsigned long` in the source and a `nat` here, so the model assumes a 64-bit `unsigned long`, whose wrap-around would need a file of 2^64 bytes. Where `unsigned long` has 32 bits, `++n` wraps after 2^32 bytes (a 4 GiB file): the counter is then 0, `n % 10 == 0` writes an extra newline after byte 2^32, and the newline cadence stays shifted from there on. That platform behaviour is not modelled.
- An `argc` of 0, where `argv[0]` is NULL and line 10 prints it with `%s`, is not modelled; `progName` is always a string.
- The message on line 13 names the program (`argv[0]`), not the path. The model writes it as the code does.
- Releasing the file handle on every exit path, and a separate status for an open failure, are hardenings the source does not have. They are not modelled.
