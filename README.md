# HTTP/1.x request parser, modelled in Dafny

This project models the request-parsing pipeline of a small Go HTTP server
(`main.go`). The pipeline turns a raw byte buffer into a `Request` record
(`main.go:30-38`):

- `parseHTTPReq` cuts the buffer into CRLF-delimited lines. It cuts the
  first line into space-separated fields: method, target and protocol.
  It hands the target to `url.Parse` and decodes the protocol with
  `parseHTTPVer`. It then finds the end of the header section with
  `calculateHeaderLen` and parses that section with `parseHeaders`.
- `parseHTTPVer` decodes a version token such as `HTTP/1.1`.
- `calculateHeaderLen` finds the first empty line after the request line.
- `parseHeaders` builds a map from each header name to its comma-separated,
  trimmed list of values.

Modules:

- `Wrappers` (`wrappers.dfy`): `Option` and `Result`.
- `ByteStrings` (`bytes.dfy`): byte strings and the parts of Go's `bytes`
  and `strings` packages the parser uses (`Split`, `SplitN(_, ":", 2)`,
  `Index`, `HasPrefix`, `TrimSpace`), with their round trips.
- `Version` (`version.dfy`): `parseHTTPVer`.
- `Headers` (`headers.dfy`): `calculateHeaderLen` and `parseHeaders`. Both
  are imperative methods. `CalculateHeaderLen` is shown correct against the
  predicate `IsFirstEmpty` (the line it points past is empty and every line
  before it is not), and `ParseHeaders` against the specification function
  `HeaderMapOf`.
- `HttpRequest` (`request.dfy`): the `Request` record and `parseHTTPReq`.

The Go code crashes on four kinds of malformed input. The model turns each
crash into its own error outcome (`ParseError`):

- fewer than two request-line fields: `ln1[1]`, `main.go:88`;
- exactly two fields when the URL is accepted: `ln1[2]`, `main.go:94`;
- no empty line after the request line: `splits[1:-1]`, `main.go:103`;
- a header line without a colon: `splits[1]`, `main.go:151`.

These outcomes are checked in the same order as the source runs. The target
field is read before the URL is parsed, and the protocol field is read only
after the URL has been accepted. The two errors the source really returns
are `InvalidTarget` and `InvalidVersion`.

Two readings that the code does not bear out:

- One might expect only the literal `HTTP/1.1` to give `(1, 1, true)` and
  only `HTTP/1.0` to give `(1, 0, true)`, since `parseHTTPVer` singles them
  out. They are not the only inputs that do. The general path never looks
  at offset 6, so `HTTP/1x1` decodes to `(1, 1, true)` as well
  (`Version.Samples`, `Version.DotIsIgnored`).
- One might expect header names to be trimmed and repeated names to be
  merged. Neither happens: a name is the bytes before the first colon,
  untouched, and a repeated name keeps the values of its last line only.

## Model

| member | source | states |
|---|---|---|
| ByteStrings.IndexOf | main.go:149 | the first position of a byte in a string; None exactly when the byte does not occur |
| ByteStrings.Split | main.go:85-86 | its own contract says only that there is at least one piece; SplitThenJoin, SplitPiecesAvoidSep, SplitOnByte and JoinThenSplit describe it fully |
| ByteStrings.SplitThenJoin | main.go:85-86 | joining the pieces of `bytes.Split` with the separator gives back the input |
| ByteStrings.SplitFirstIsPrefix | main.go:86-87 | the first piece of a split (the request line, the method) is a prefix of what was split |
| ByteStrings.SplitPiecesAvoidSep | main.go:85-86 | no piece returned by a split contains the separator |
| ByteStrings.SplitOnByte | main.go:151 | splitting on one byte gives one more piece than there are occurrences of the byte, and no piece contains it |
| ByteStrings.SplitWithoutSep | main.go:85 | a string without the separator is returned whole, as a single piece |
| ByteStrings.SplitAfterPiece | main.go:85 | a separator-free piece followed by the separator is cut off first; the rest is split on its own |
| ByteStrings.JoinThenSplit | main.go:86 | splitting separator-free pieces that were joined with a one-byte or two-distinct-byte separator gives the pieces back |
| ByteStrings.JoinThenSplitAppend | main.go:85 | the same with a separator and arbitrary bytes after the join: the pieces, then the split of the rest |
| ByteStrings.JoinAvoidsByte | main.go:85-86 | a byte absent from every piece and from the separator is absent from their join |
| ByteStrings.NoCRNoCRLF | main.go:85 | a string without '\r' contains no CRLF |
| ByteStrings.LeadingSpacesShape | main.go:151 | the leading white-space count covers a maximal run of ASCII white space |
| ByteStrings.TrailingSpacesShape | main.go:151 | the trailing white-space count covers a maximal run of ASCII white space |
| ByteStrings.TrimSpace | main.go:151-153 | its own contract says only that the result is no longer than the input; TrimSpaceShape and TrimmedCoreUnique describe it fully |
| ByteStrings.TrimSpaceShape | main.go:151 | `TrimSpace` keeps a trimmed infix, and everything it drops on either side is white space |
| ByteStrings.TrimmedCoreUnique | main.go:151 | a string has only one trimmed infix with white space on both sides |
| ByteStrings.TrimSpaceOfPadded | main.go:151 | trimming a trimmed string padded with white space gives the string back |
| ByteStrings.TrimSpaceIdempotent | main.go:153 | trimming the already-trimmed value again changes nothing |
| ByteStrings.TrimSpaceDropsLeading | main.go:151 | white space in front of a string does not change its trimmed form |
| ByteStrings.TrimSpaceDropsTrailing | main.go:151 | white space behind a string does not change its trimmed form |
| Version.ParseDigit | main.go:125-132 | `ParseUint` on one byte succeeds exactly on a decimal digit and returns its value in 0..9 |
| Version.ParseHTTPVer | main.go:112-134 | success exactly on 8-byte tokens that start with "HTTP/" and hold digits at offsets 5 and 7; those digits are the result; every other token gives (0, 0, false) |
| Version.FormatThenParse | main.go:119-133 | every token "HTTP/" + digit + any byte + digit decodes to its two digits |
| Version.ParseThenFormat | main.go:119-133 | every token that decodes is the formatted form of its result |
| Version.DotIsIgnored | main.go:125-129 | the byte at offset 6 never changes the result |
| Version.Samples | main.go:113-118 | the fast-path tokens give (1,1,true) and (1,0,true); "HTTP/2.0" and "HTTP/1x1" decode; "HTTP/1" and "http/1.1" fail |
| Headers.FirstEmpty | main.go:136-143 | the index of the first empty line; None exactly when no line is empty |
| Headers.FirstEmptyUnique | main.go:137-140 | a line that is empty, with only non-empty lines before it, is the one `FirstEmpty` finds |
| Headers.CalculateHeaderLen | main.go:136-143 | -1 exactly when no line is empty; otherwise one past the first empty line, so between 1 and the number of lines |
| Headers.SplitAtColon | main.go:149-150 | None exactly when the line has no colon; otherwise a colon-free name and a raw value that reassemble the line |
| Headers.SplitAtColonOfLine | main.go:149-150 | `name:raw` with a colon-free name splits into exactly that name and raw value, whatever colons the value holds |
| Headers.HeaderMapOfSnoc | main.go:147-156 | one more header line stores its value list under its name on top of the map of the earlier lines |
| Headers.TrimInPlace | main.go:152-154 | every element of the array is replaced in place by its trimmed form |
| Headers.ParseHeaders | main.go:145-158 | succeeds exactly when every line has a colon, and then returns the map of the lines in order, a later line overwriting an earlier one |
| Headers.HeaderValues | main.go:151-154 | the value list stored for one header line is never empty; HeaderValuesShape and HeaderValuesOfPieces describe it fully |
| Headers.HeaderMapOf | main.go:146-156 | the map built by the loop of `parseHeaders` is empty exactly when there are no header lines; HeaderMapOfSnoc, HeaderMapKeys and HeaderMapLastWins describe the rest |
| Headers.HeaderValuesShape | main.go:151-154 | a value list has one element more than the commas in the trimmed value, its elements are trimmed and comma-free, and a blank value gives [""] |
| Headers.HeaderValuesOfPieces | main.go:151-154 | for a raw value made of comma-free pieces joined by commas, the value list is exactly those pieces, each trimmed; trimming the whole value first changes nothing |
| Headers.HeaderValuesRoundTrip | main.go:151-154 | values that are trimmed and comma-free, joined by commas with any white space (a different run for each) before and after each value, are parsed back to the same list |
| Headers.HeaderMapKeys | main.go:145-157 | the map's keys are exactly the names of the lines (none for no lines), and no key holds a colon |
| Headers.HeaderMapLastWins | main.go:155 | a name maps to the values of the last line that carries it |
| HttpRequest.Lines | main.go:85 | the buffer always has at least one line |
| HttpRequest.Fields | main.go:86 | the request line always has at least one field |
| HttpRequest.HeaderSection | main.go:101-103 | the header section exists exactly when some line after the request line is empty; it is then the lines strictly between the request line and the first such line, none of them empty |
| HttpRequest.ParseHTTPReq | main.go:82-110 | each error outcome exactly when its cause is the first in source order; on success the method, URL, protocol and version come from the first three fields, and the headers are the map of the lines between the request line and the first empty line |
| HttpRequest.RequestLineFields | main.go:86-94 | a request line joined from space-free fields splits back into exactly those fields |
| HttpRequest.LinesOfSections | main.go:85 | lines without '\r', each followed by CRLF, split back into those lines ahead of the lines of what follows |
| HttpRequest.SectionBeforeEmpty | main.go:101-103 | non-empty header lines followed by an empty line are exactly the header section sliced out |
| HttpRequest.RequestSections | main.go:85-103 | a buffer made of space-free fields, non-empty header lines, an empty line and any body is cut back into those fields and that header section |

## Left out

- `main`, `readReq` and `handleConn` (socket I/O, logging, the canned
  response) are not part of this model.
- `url.Parse`: the `net/url` package is not part of this model. The parser
  is a parameter `parseUrl` that accepts or rejects the target, and `Request`
  is generic in the URL type it produces. The Go error value is reduced to
  the tag `InvalidTarget`.
- The error message strings are reduced to the tags of `ParseError`.
- The unused `entityBody` (`main.go:106-108`) is not computed.
- `TrimSpace` treats only ASCII white space as space. Go's
  `strings.TrimSpace` also trims multi-byte UTF-8 spaces such as U+0085 and
  U+00A0. Bytes are characters below 256, and no UTF-8 decoding is modelled.
- `Version.ParseDigit` covers `strconv.ParseUint` only for the one-byte
  strings that `parseHTTPVer` gives it.
- `HttpRequest.ParseHTTPReq` is a method rather than a function because it
  calls the loop methods `CalculateHeaderLen` and `ParseHeaders`.
- No lemma evaluates a concrete request buffer. The general lemmas
  `HttpRequest.RequestSections`, `Headers.HeaderValuesOfPieces` and
  `Headers.HeaderValuesRoundTrip` cover every buffer of that shape.
