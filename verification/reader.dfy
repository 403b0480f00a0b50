/**
 * Reading the assembly file line by line, as `readAndParse` does with
 * `fgets(line, MAX_LINE_LENGTH, inFilePtr)` (assemble.c). The file is the
 * sequence of characters not yet read, one `char` per byte of the file, so
 * the buffer size counts bytes; each call consumes one `fgets` chunk.
 */
module Reader {
  import opened Lines

  /** MAX_LINE_LENGTH: the size of the line buffer, so `fgets` stores at most 999 characters. */
  const MaxLineLength: nat := 1000

  /**
   * The number of characters `fgets` takes from `input`, counting from
   * position `i`: it stops after a newline, at the end of the file, or when
   * the buffer holds MaxLineLength - 1 characters.
   */
  function ChunkEnd(input: String, i: nat): (n: nat)
    requires i <= |input| && i < MaxLineLength
    ensures i <= n <= |input| && n < MaxLineLength
    ensures forall k | i <= k < n - 1 :: input[k] != '\n'
    ensures n == |input| || n == MaxLineLength - 1 || (n > i && input[n - 1] == '\n')
    decreases |input| - i
  {
    if i == |input| || i == MaxLineLength - 1 then i
    else if input[i] == '\n' then i + 1
    else ChunkEnd(input, i + 1)
  }

  /** The chunk one `fgets` call stores: up to and including the first newline, at most 999 characters. */
  function Fgets(input: String): (chunk: String)
    requires |input| > 0
    ensures 0 < |chunk| < MaxLineLength && chunk <= input
    ensures forall k | 0 <= k < |chunk| - 1 :: chunk[k] != '\n'
    ensures chunk[|chunk| - 1] == '\n' || |chunk| == |input| || |chunk| == MaxLineLength - 1
  {
    input[..ChunkEnd(input, 0)]
  }

  /** The outcome of one `readAndParse` call: end of file, the fatal "line too long", or a parsed line. */
  datatype ReadResult = EndOfFile | TooLong | Line(fields: Fields, rest: String)

  /**
   * `readAndParse` on the unread part of the file: 0 at end of file, exit on a
   * chunk whose C string holds no newline, otherwise the fields of the line
   * and what remains of the file.
   */
  function ReadAndParse(input: String): (r: ReadResult)
    ensures r.EndOfFile? <==> |input| == 0
    ensures r.Line? ==> |r.rest| < |input| && r.rest == input[|input| - |r.rest|..]
    ensures r.Line? ==> input[|input| - |r.rest| - 1] == '\n'
    ensures r.Line? ==> forall k | 0 <= k < |input| - |r.rest| - 1 :: input[k] != '\n' && input[k] != '\0'
  {
    if |input| == 0 then EndOfFile
    else
      var chunk := Fgets(input);
      match ParseLine(chunk)
      case LineTooLong => TooLong
      case Parsed(f) =>
        ParsedChunk(chunk);
        Line(f, input[|chunk|..])
  }

  /**
   * A chunk that parses is a whole line: its C string is all of it, so it
   * holds no NUL, and it ends at its only newline.
   */
  lemma ParsedChunk(chunk: String)
    requires 0 < |chunk|
    requires forall k | 0 <= k < |chunk| - 1 :: chunk[k] != '\n'
    requires ParseLine(chunk).Parsed?
    ensures chunk[|chunk| - 1] == '\n'
    ensures forall k | 0 <= k < |chunk| - 1 :: chunk[k] != '\0'
  {
    var n := StrLen(chunk, 0);
    var k :| 0 <= k < n && chunk[..n][k] == '\n';
    assert chunk[k] == '\n';
    assert k == |chunk| - 1 == n - 1;
  }

  /** A line of fewer than 999 characters, free of NUL, ending in a newline, is read whole in one call. */
  lemma ReadsWholeLine(input: String, k: nat)
    requires k < |input| && k < MaxLineLength - 1
    requires input[k] == '\n'
    requires forall j | 0 <= j < k :: input[j] != '\n' && input[j] != '\0'
    ensures ParseLine(input[..k + 1]).Parsed?
    ensures ReadAndParse(input) == Line(ParseLine(input[..k + 1]).fields, input[k + 1..])
  {
    var chunk := Fgets(input);
    assert |chunk| == k + 1;
    assert CString(chunk) == chunk by {
      assert StrLen(chunk, 0) == |chunk|;
    }
    assert chunk[k] == '\n';
  }

  /**
   * With no newline among the next 999 characters (a line too long for the
   * buffer, or a last line without its newline), reading is fatal.
   */
  lemma TooLongWithoutNewline(input: String)
    requires |input| > 0
    requires forall j | 0 <= j < |input| && j < MaxLineLength - 1 :: input[j] != '\n'
    ensures ReadAndParse(input) == TooLong
  {
    var chunk := Fgets(input);
    assert '\n' !in chunk;
    assert '\n' !in CString(chunk);
  }

  /** A NUL before the newline hides the newline from `strchr`, so reading is fatal as well. */
  lemma TooLongWithNul(input: String, k: nat)
    requires k < |input| && k < MaxLineLength - 1
    requires input[k] == '\0'
    requires forall j | 0 <= j < k :: input[j] != '\n'
    ensures ReadAndParse(input) == TooLong
  {
    var chunk := Fgets(input);
    assert chunk[k] == '\0';
    assert |CString(chunk)| <= k;
    assert '\n' !in CString(chunk);
  }

  /** All lines read until end of file, and whether reading stopped at a line too long. */
  datatype Listing = Listing(lines: seq<Fields>, tooLong: bool)

  /** Calling `readAndParse` until it returns 0 (or the program exits on a line too long). */
  function ReadAll(input: String): (l: Listing)
    decreases |input|
  {
    match ReadAndParse(input)
    case EndOfFile => Listing([], false)
    case TooLong => Listing([], true)
    case Line(f, rest) =>
      var l := ReadAll(rest);
      Listing([f] + l.lines, l.tooLong)
  }

  /** Reading a line leaves the rest of the listing to the remaining input. */
  lemma ReadAllLine(input: String)
    requires ReadAndParse(input).Line?
    ensures ReadAll(input) == Listing([ReadAndParse(input).fields] + ReadAll(ReadAndParse(input).rest).lines,
                                      ReadAll(ReadAndParse(input).rest).tooLong)
  {
  }
}
