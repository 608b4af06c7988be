# aocmd-dl day resolver and markdown assembly, in Dafny

aocmd-dl downloads one Advent of Code puzzle page and writes it out as
markdown. This project models the two parts of the program that hold logic:

- `convert_day_to_url`, which turns the `--day` argument into the
  `(year, day)` pair of strings that the page address is built from. The
  argument is either the word `latest` or an explicit `YYYY/D` or `YYYY/DD`
  string. The function returns one of four kinds of `ParseDayError`.
- The loop in `main` that builds the output text. For each `<article>`
  element on the page, in document order, it appends the element's markdown
  and then three newlines to a buffer.

Files:

- `wrappers.dfy` defines `Option` and `Result`.
- `text.dfy` models Rust strings as their UTF-8 bytes. Rust's `len()` counts
  bytes, and `split_once("/")` splits at the first `/` byte, so a byte
  sequence is the faithful model. It also defines `to_string()` of integers
  (`NatToDecimal`, `IntToDecimal`) and an independent parser
  (`DecimalValue`, `SignedValue`) to read the digits back.
- `day_resolver.dfy` defines `Resolve` (the function), `ParseDayError` (one
  variant per error return) and the lemmas about them.
- `markdown.dfy` defines `AssembleMarkdown`, the loop as a method. It is
  proved against the specification function `Rendered`, and lemmas state the
  properties of that function.

`Resolve` does not read the clock. It takes the date of "now" as parameters:
the year (chrono's `i32`), the month, and the day of the month (both `u32`).
In the program this is the date at the fixed offset built at
src/main.rs:82, `FixedOffset::east_opt(5 * 3600)`. That offset is UTC+05:00,
even though the variable is named `eastern_time`. The model does not depend
on the offset.

Consequences of the checks as the code writes them:

- "202/1" (5 bytes) and "2020/100" (8 bytes) are both refused by the length
  check at src/main.rs:96-97 (`LengthErrorExamples`).
- The day-length error at src/main.rs:105 can never be returned
  (`DayCheckUnreachable`, and the `r != Err(BadDay)` clause of `Resolve`).

## Model

| member | source | states |
|---|---|---|
| `Text.SplitOnce` | src/main.rs:99 | `split_once("/")`: None exactly when there is no `/`; otherwise the input is `before + "/" + after` with no `/` in `before` |
| `Text.SplitOnceUnique` | src/main.rs:99 | the split is unique: any decomposition around a `/`-free prefix is the one `split_once` returns |
| `Text.NatToDecimal` | src/main.rs:91 | `dom.to_string()` is a non-empty string of decimal digits with no leading zero |
| `Text.IntToDecimal` | src/main.rs:89-94 | `year.to_string()` is non-empty and contains no `/` |
| `Text.NatToDecimalRoundTrip` | src/main.rs:91 | reading the digits of `to_string()` back gives the number |
| `Text.IntToDecimalRoundTrip` | src/main.rs:89-94 | reading a signed `to_string()` back, with its optional minus sign, gives the number |
| `Text.NatToDecimalLength` | src/main.rs:86-94 | `to_string()` writes 1 digit below 10, 2 below 100, 3 below 1000, 4 below 10000 |
| `DayResolver.Resolve` | src/main.rs:81-113 | `latest` never fails; on explicit input, success returns a 4-byte year without `/` and a 1-2 byte day that rebuild the input as `year + "/" + day`; the day-length error is never returned |
| `DayResolver.LastDayIsTwentyFive` | src/main.rs:84 | the constant last day is the decimal rendering of 25 |
| `DayResolver.LatestEarlyDecember` | src/main.rs:85-91 | `latest` in December up to the 25th gives this year and today |
| `DayResolver.LatestLateDecember` | src/main.rs:87-89 | `latest` in December after the 25th gives this year and "25" |
| `DayResolver.LatestOutsideDecember` | src/main.rs:92-94 | `latest` outside December gives last year and "25" |
| `DayResolver.LatestValues` | src/main.rs:85-95 | read back as numbers, `latest` gives year (December) or year - 1 (otherwise), and day min(today, 25) in December, 25 otherwise |
| `DayResolver.LatestIsExplicit` | src/main.rs:85-107 | for years 1001 to 9999, the pair `latest` gives, joined by `/`, is accepted unchanged as explicit input |
| `DayResolver.ExplicitIgnoresDate` | src/main.rs:96-112 | the explicit path's result does not depend on the date |
| `DayResolver.WrongLengthRefused` | src/main.rs:96-98 | any non-`latest` input whose length is not 6 or 7 gives the length error, whatever its contents |
| `DayResolver.MissingSlashRefused` | src/main.rs:109-111 | a 6- or 7-byte input other than `latest` without `/` gives the "expect year/day" error |
| `DayResolver.MisplacedSlashRefused` | src/main.rs:99-103 | a 6- or 7-byte input whose first `/` is not at index 4 gives the year error |
| `DayResolver.DayCheckUnreachable` | src/main.rs:104-106 | with total length 6 or 7 and a 4-byte year, the day is 1 or 2 bytes, so that error branch is dead |
| `DayResolver.ExplicitAcceptance` | src/main.rs:96-107 | explicit input succeeds exactly when it is 6 or 7 bytes with its first `/` at index 4, with no digit or range check, and then splits at that `/` |
| `DayResolver.ExplicitRoundTrip` | src/main.rs:99-107 | resolving `year + "/" + day`, for a 4-byte year without `/` and a 1-2 byte day, gives back `(year, day)` |
| `DayResolver.AcceptedExamples` | src/main.rs:96-107 | "2020/1" gives ("2020", "1") and "2015/25" gives ("2015", "25") |
| `DayResolver.NonDigitExample` | src/main.rs:96-107 | "abcd/x" is accepted, because digits are not checked |
| `DayResolver.LengthErrorExamples` | src/main.rs:96-98 | "20201", "202/1" and "2020/100" all give the length error |
| `DayResolver.ShapeErrorExamples` | src/main.rs:99-111 | "20/2015" gives the year error and "2020-01" the "expect year/day" error |
| `MarkdownAssembly.AssembleMarkdown` | src/main.rs:68-75 | the buffer after the loop is every article's markdown followed by three newlines, in document order, and its length is the sum of the markdown lengths plus 3 per article |
| `MarkdownAssembly.RenderedLength` | src/main.rs:68-75 | the output length is the total markdown length plus 3 bytes per article |
| `MarkdownAssembly.RenderedConcat` | src/main.rs:72-75 | rendering a concatenation of article lists is the concatenation of their renderings |
| `MarkdownAssembly.BlockInPlace` | src/main.rs:72-75 | the k-th article's markdown and separator sit in the output right after the blocks of the articles before it |
| `MarkdownAssembly.TwoArticles` | src/main.rs:72-75 | two articles give two markdown blocks, in order, each followed by blank lines |

## Left out

- HTTP request building and execution (src/main.rs:47-64): network I/O through the reqwest library.
- Command-line parsing (src/main.rs:29-38, 42): done by the clap library. The model takes the `--day` string as a parameter.
- The tokio runtime (src/main.rs:40-41): it only awaits the one request.
- HTML parsing, the `article` selector and the conversion to markdown (src/main.rs:66, 69, 72-73): these are foreign calls. The page is modelled as its sequence of articles in document order, and the converter as a function parameter. The selector-parse error at line 69 is not modelled.
- Reading the clock and the time-zone conversion (src/main.rs:82-83): the date is a parameter.
- Writing README.md and all console output (src/main.rs:44, 56-57, 62, 65, 71, 76-77): file and console I/O.
- The text of the error messages and the `Display`/`Error` implementations (src/main.rs:13-27): the model keeps the error kind. The length error also keeps the rejected input, which the message quotes.
- `DayResolver.Resolve`: `year - 1` is unbounded. In the program it is `i32` arithmetic, which cannot overflow for the years chrono represents.
