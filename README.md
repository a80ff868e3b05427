# finding: UTF-8-safe string helpers, in Dafny

`finding` is a command-line tool that scans a directory tree. It looks either for huge files
or for lines of text that contain a search string. The directory walker, the size parser, the
path helpers and the message printer come from the external `rust_util` crate. The tool's own
logic lives in `src/local_util.rs`, and that file is what this project models:

- `find_char_boundary(s, index)` moves a byte offset forward to the next UTF-8 character
  boundary of `s`. Offsets at or past the end are returned unchanged.
- `get_term_width_message(message, left)` cuts a message whose byte length is at least the
  terminal width `w` (the test ignores `left`). It keeps a head that ends on a character
  boundary, then the marker `[...]`, then a tail of at most ten bytes that starts on a
  character boundary. It panics when `w` is below `15 + left`.
- `read_file_content(file, large_file_len)` refuses a path that does not exist, a path that is
  not a regular file, and a file longer than the limit, in that order. A file exactly at the limit is read:
  src/local_util.rs:54 rejects only `file_len > large_file_len`. Otherwise it reads the file
  into a string.

Strings are byte sequences (`seq<byte>`); all indices are byte offsets, as in Rust.
`RustStr` models the two properties of Rust's `str` that the code relies on. The first is
`is_char_boundary`. The second is that a `str` is always well-formed UTF-8, as defined in
Table 3-7 of the Unicode Standard (`ValidUtf8`). `LocalUtil` models the three functions.
`find_char_boundary` is a method with a loop. Its specification is the function
`NextCharBoundary`. `get_term_width_message` is a method that builds its result by appending,
with `TermWidthMessage` as its specification. `read_file_content` is a method of early returns.

The terminal width is a parameter `width: Option<nat>`, where `None` means no terminal.
The file system is a parameter too: a `FileEntry` record saying whether the path exists,
whether it is a regular file, what `metadata()` reports and what a read returns.

## Model

| member | source | states |
|---|---|---|
| `LocalUtil.NextCharBoundary` | src/local_util.rs:18-27 | an offset at or past the end comes back unchanged; otherwise the result is a character boundary between `index` and the end, with no boundary between `index` and the result (the least boundary at or after `index`) |
| `LocalUtil.FindCharBoundary` | src/local_util.rs:18-27 | the byte-by-byte loop returns exactly `NextCharBoundary(s, index)`; it ends because the end of the string is a boundary |
| `LocalUtil.NextCharBoundaryMonotone` | src/local_util.rs:18-27 | a later starting offset never yields an earlier boundary |
| `LocalUtil.NextCharBoundaryIdempotent` | src/local_util.rs:18-27 | starting from a returned offset returns that same offset |
| `LocalUtil.NextCharBoundaryWithinThree` | src/local_util.rs:22-25 | on well-formed UTF-8 the loop advances at most three bytes |
| `LocalUtil.TermWidthMessage` | src/local_util.rs:29-44 | the message comes back whole when the width is unknown or larger than the message's length; the call panics exactly when `width <= len` and `width < 15 + left` (the usize subtraction `w-10-5-left` underflows) |
| `LocalUtil.GetTermWidthMessage` | src/local_util.rs:29-44 | appending head, `[...]` and tail to an empty string gives exactly `TermWidthMessage(message, left, width)`, panic included |
| `LocalUtil.TruncationPoints` | src/local_util.rs:37-41 | when cut, the result is `message[..h] + "[...]" + message[t..]` with `h` and `t` character boundaries, `w-15-left <= h <= t <= len` (head and tail never overlap), and the tail at most 10 bytes long |
| `LocalUtil.TruncatedIsValidUtf8` | src/local_util.rs:37-41 | whatever the width, a well-formed UTF-8 message gives a well-formed UTF-8 result: no character is ever split |
| `LocalUtil.TruncatedAsciiLength` | src/local_util.rs:38-40 | for ASCII text the cut result is exactly `w - left` bytes long |
| `LocalUtil.TruncatedLengthBound` | src/local_util.rs:38-40 | for well-formed UTF-8 the cut result is between `w - left - 3` and `w - left + 3` bytes long |
| `LocalUtil.ReadFileContent` | src/local_util.rs:46-62 | "not exists" exactly when the path is missing; "not a file" exactly when it exists but is not a regular file; "too large", carrying the length, exactly when it is a regular file whose length exceeds the limit (a file at the limit is read); an I/O error exactly when `metadata()` fails after the first two checks, or the read fails after all three; "not UTF-8" exactly when every check passes and the bytes read are not UTF-8; success exactly when every check passes and the bytes read are UTF-8, and then the content is those bytes |
| `RustStr.IsCharBoundary` | src/local_util.rs:23 | `str::is_char_boundary`: offsets 0 and `len` are always boundaries, an offset past the end never is |
| `RustStr.SplitValid` | src/local_util.rs:38-40 | slicing well-formed UTF-8 at a character boundary leaves both halves well-formed |
| `RustStr.ConcatValid` | src/local_util.rs:37-41 | appending well-formed UTF-8 to well-formed UTF-8 (`push_str`) stays well-formed |
| `RustStr.AsciiValid` | src/local_util.rs:39 | ASCII text, such as the `[...]` marker, is well-formed UTF-8 |
| `RustStr.BoundaryWithinThree` | src/local_util.rs:22-25 | in well-formed UTF-8 every offset has a character boundary at most three bytes ahead |

## Left out

- `get_term_width` (src/local_util.rs:10-15) queries the terminal through the `term_size` crate. It is replaced by the `width` parameter.
- `TermWidthMessage`: the usize underflow in `w-10-5-left` is modelled as a panic, which is debug-build behaviour. In a release build the value wraps around. The slice at line 38 then still panics, unless `left` is so close to `usize::MAX` that the wrapped offset falls below the message length; that corner is not modelled.
- `get_term_width_message` compares terminal columns with byte lengths, as the source does. The display width of characters is not modelled.
- `ReadFileContent`: the error messages' text, with the path's `Debug` formatting, is not modelled; only which error is returned. Opening and reading the file are I/O: the outcome is an input (`FileEntry.bytes`). Failures of `metadata()`, `File::open` and the read itself all become one `Io` error; content that is not UTF-8 is the separate `InvalidUtf8` error.
- `src/main.rs` and `src/opt.rs`: command-line parsing, the version banner, the huge-file callback and the debug printing are plumbing around calls into `rust_util`.
- The directory walker, the size parser, the path helpers and the printing are in the `rust_util` crate. That crate is not part of this model.
