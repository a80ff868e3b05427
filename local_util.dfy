/**
  The UTF-8-safe string handling of `src/local_util.rs`: finding the next character
  boundary, cutting a message down to the terminal width, and the checks made before a
  text file is read. The terminal width, the file system and the file contents are inputs.
 */
module LocalUtil {
  import opened RustTypes
  import opened RustStr

  // ---------------------------------------------------------------------------------------
  // find_char_boundary

  /** What `find_char_boundary(s, index)` returns: `index` itself when it is at or past the
      end, otherwise the least character boundary at or after `index`. */
  function NextCharBoundary(s: seq<byte>, index: nat): (r: nat)
    decreases |s| - index
    ensures |s| <= index ==> r == index
    ensures index < |s| ==> index <= r <= |s| && IsCharBoundary(s, r)
    ensures forall k :: index <= k < r ==> !IsCharBoundary(s, k)
  {
    if |s| <= index then index
    else if IsCharBoundary(s, index) then index
    else NextCharBoundary(s, index + 1)
  }

  /** `find_char_boundary`: step forward one byte at a time until a boundary is reached.
      The loop stops at the latest at the end of `s`, which is always a boundary. */
  method FindCharBoundary(s: seq<byte>, index: nat) returns (r: nat)
    ensures r == NextCharBoundary(s, index)
  {
    if |s| <= index {
      return index;
    }
    r := index;
    while !IsCharBoundary(s, r)
      invariant index <= r <= |s|
      invariant NextCharBoundary(s, r) == NextCharBoundary(s, index)
      decreases |s| - r
    {
      r := r + 1;
    }
  }

  /** A later starting offset never gives an earlier boundary. */
  lemma NextCharBoundaryMonotone(s: seq<byte>, i: nat, j: nat)
    requires i <= j
    ensures NextCharBoundary(s, i) <= NextCharBoundary(s, j)
  {
    // follows from NextCharBoundary's contract: the result for j is a boundary at or after i
  }

  /** Starting from a boundary goes nowhere, so applying it twice is applying it once. */
  lemma NextCharBoundaryIdempotent(s: seq<byte>, i: nat)
    ensures NextCharBoundary(s, NextCharBoundary(s, i)) == NextCharBoundary(s, i)
  {
  }

  /** In well-formed text the search advances at most three bytes. */
  lemma NextCharBoundaryWithinThree(s: seq<byte>, i: nat)
    requires ValidUtf8(s) && i <= |s|
    ensures NextCharBoundary(s, i) <= i + 3
  {
    var b := BoundaryWithinThree(s, i);
  }

  // ---------------------------------------------------------------------------------------
  // get_term_width_message

  /** The marker put where the middle of a long message is cut out: the ASCII text "[...]". */
  const Ellipsis: seq<byte> := [0x5B, 0x2E, 0x2E, 0x2E, 0x5D]

  /** Bytes kept from the end of the message (before rounding up to a boundary). */
  const TailBytes: nat := 10

  /** Columns reserved by the kept tail plus the marker, as in the source's `w-10-5-left`. */
  const Reserved: nat := 10 + 5

  /** Where the kept head ends: the boundary at or after `w-10-5-left`. */
  function HeadEnd(message: seq<byte>, left: nat, w: nat): (r: nat)
    requires Reserved + left <= w <= |message|
  {
    NextCharBoundary(message, w - 10 - 5 - left)
  }

  /** Where the kept tail starts: the boundary at or after `len-10`. */
  function TailStart(message: seq<byte>): (r: nat)
    requires TailBytes <= |message|
  {
    NextCharBoundary(message, |message| - TailBytes)
  }

  /** What `get_term_width_message(message, left)` produces when the terminal reports width
      `width` (`None` when there is no terminal). A message narrower than the terminal, or any
      message when the width is unknown, is returned whole; otherwise the usize subtraction
      `w-10-5-left` panics when `w < 15 + left`, and else the message keeps its head and its
      last ten bytes around the marker. */
  function TermWidthMessage(message: seq<byte>, left: nat, width: Option<nat>): (r: Exit<seq<byte>>)
    ensures r.Panics? <==> width.Some? && width.value <= |message| && width.value < Reserved + left
    ensures width.None? || width.value > |message| ==> r == Returns(message)
  {
    match width
    case None => Returns(message)
    case Some(w) =>
      if w > |message| then Returns(message)
      else if w < Reserved + left then Panics
      else Returns(message[..HeadEnd(message, left, w)] + Ellipsis + message[TailStart(message)..])
  }

  /** `get_term_width_message`, building the result the way the source does, by pushing the
      head, the marker and the tail onto an initially empty string. */
  method GetTermWidthMessage(message: seq<byte>, left: nat, width: Option<nat>) returns (r: Exit<seq<byte>>)
    ensures r == TermWidthMessage(message, left, width)
  {
    match width {
      case None =>
        return Returns(message);
      case Some(w) =>
        var len := |message|;
        if w > len {
          return Returns(message);
        }
        if w < 10 + 5 + left {
          // `w-10-5-left` underflows usize
          return Panics;
        }
        var s: seq<byte> := [];
        var head := FindCharBoundary(message, w - 10 - 5 - left);
        // slicing is only allowed on a boundary
        assert IsCharBoundary(message, head);
        s := s + message[0..head];
        s := s + Ellipsis;
        var tail := FindCharBoundary(message, len - 10);
        assert IsCharBoundary(message, tail);
        s := s + message[tail..];
        assert s == message[..head] + Ellipsis + message[tail..];
        return Returns(s);
    }
  }

  /** When the message is cut, both cuts fall on character boundaries (so neither slice
      panics), the head ends no earlier than `w-15-left` and no later than the tail starts,
      and the tail is at most the last ten bytes. */
  lemma TruncationPoints(message: seq<byte>, left: nat, w: nat)
    requires Reserved + left <= w <= |message|
    ensures IsCharBoundary(message, HeadEnd(message, left, w))
    ensures IsCharBoundary(message, TailStart(message))
    ensures w - Reserved - left <= HeadEnd(message, left, w) <= TailStart(message) <= |message|
    ensures |message| - TailStart(message) <= TailBytes
    ensures TermWidthMessage(message, left, Some(w))
         == Returns(message[..HeadEnd(message, left, w)] + Ellipsis + message[TailStart(message)..])
  {
    // h <= t is NextCharBoundaryMonotone, which Dafny finds from NextCharBoundary's contract
  }

  /** Cutting never breaks a character: a well-formed message gives a well-formed result. */
  lemma TruncatedIsValidUtf8(message: seq<byte>, left: nat, width: Option<nat>)
    requires ValidUtf8(message)
    requires TermWidthMessage(message, left, width).Returns?
    ensures ValidUtf8(TermWidthMessage(message, left, width).value)
  {
    if width.Some? && width.value <= |message| {
      var w := width.value;
      var h, t := HeadEnd(message, left, w), TailStart(message);
      SplitValid(message, h);
      SplitValid(message, t);
      AsciiValid(Ellipsis);
      ConcatValid(message[..h], Ellipsis);
      ConcatValid(message[..h] + Ellipsis, message[t..]);
    }
  }

  /** For ASCII text the cut result is exactly `w - left` bytes long. */
  lemma TruncatedAsciiLength(message: seq<byte>, left: nat, w: nat)
    requires IsAscii(message)
    requires Reserved + left <= w <= |message|
    ensures |TermWidthMessage(message, left, Some(w)).value| == w - left
  {
  }

  /** For well-formed text the cut result is within three bytes of `w - left` either way:
      rounding the head end up can add up to three bytes, rounding the tail start up can
      drop up to three. */
  lemma TruncatedLengthBound(message: seq<byte>, left: nat, w: nat)
    requires ValidUtf8(message)
    requires Reserved + left <= w <= |message|
    ensures w - left - 3 <= |TermWidthMessage(message, left, Some(w)).value| <= w - left + 3
  {
    NextCharBoundaryWithinThree(message, w - Reserved - left);
    NextCharBoundaryWithinThree(message, |message| - TailBytes);
    TruncationPoints(message, left, w);
  }

  // ---------------------------------------------------------------------------------------
  // read_file_content

  /** Why `read_file_content` gives up. */
  datatype ReadError =
    | NotExists       // "File not exists"
    | NotFile         // "File is not file"
    | TooLarge(len: nat) // "File too large", with the file's length
    | Io              // `metadata()`, `File::open` or the read failed
    | InvalidUtf8     // `read_to_string` found bytes that are not UTF-8

  /** What the file system says about a path: whether it exists, whether it is a regular
      file, its length (`None` when `metadata()` fails) and its bytes (`None` when opening or
      reading fails). */
  datatype FileEntry = FileEntry(present: bool, isFile: bool, metadata: Option<nat>, bytes: Option<seq<byte>>)

  /** `read_file_content(file, large_file_len)`: the checks in the source's order, each
      returning early, then the file read into an empty string. A file exactly at the limit
      is read. */
  method ReadFileContent(file: FileEntry, largeFileLen: nat) returns (r: Result<seq<byte>, ReadError>)
    ensures r == Err(NotExists) <==> !file.present
    ensures r == Err(NotFile) <==> file.present && !file.isFile
    ensures r.Err? && r.error.TooLarge? <==>
              file.present && file.isFile && file.metadata.Some? && file.metadata.value > largeFileLen
    ensures r.Err? && r.error.TooLarge? ==> r.error.len == file.metadata.value
    ensures r == Err(Io) <==>
              file.present && file.isFile
              && (file.metadata.None? || (file.metadata.value <= largeFileLen && file.bytes.None?))
    ensures r == Err(InvalidUtf8) <==>
              file.present && file.isFile && file.metadata.Some? && file.metadata.value <= largeFileLen
              && file.bytes.Some? && !ValidUtf8(file.bytes.value)
    ensures r.Ok? <==>
              file.present && file.isFile && file.metadata.Some? && file.metadata.value <= largeFileLen
              && file.bytes.Some? && ValidUtf8(file.bytes.value)
    ensures r.Ok? ==> r.value == file.bytes.value && ValidUtf8(r.value)
  {
    if !file.present {
      return Err(NotExists);
    }
    if !file.isFile {
      return Err(NotFile);
    }
    if file.metadata.None? {
      return Err(Io);
    }
    var fileLen := file.metadata.value;
    if fileLen > largeFileLen {
      return Err(TooLarge(fileLen));
    }
    if file.bytes.None? {
      return Err(Io);
    }
    var content: seq<byte> := [];
    if !ValidUtf8(file.bytes.value) {
      return Err(InvalidUtf8);
    }
    content := content + file.bytes.value;
    return Ok(content);
  }
}
