/**
 * What the downloader reads out of a response it has received as a sequence of text lines:
 * the success test on the status line, the size announced by Content-Length, and the text
 * written to the local file.
 */
module HttpResponse {
  import opened Wrappers
  import opened JavaText

  const STATUS_OK := "200 OK"
  const CONTENT_LENGTH := "Content-Length:"

  /** The size the scan starts from, and keeps when no line announces one. */
  const UNKNOWN_SIZE: Int32 := -1

  /** CheckResponseCode: the status line contains the literal, case-sensitive text "200 OK". */
  function CheckResponseCode(statusLine: string): (r: bool)
    ensures r <==> exists i :: OccursAt(statusLine, STATUS_OK, i)
  {
    Contains(statusLine, STATUS_OK)
  }

  /** A status line without the character '2' is never a success, e.g. "HTTP/1.1 404 Not Found". */
  lemma NoTwoNoSuccess(statusLine: string)
    requires '2' !in statusLine
    ensures !CheckResponseCode(statusLine)
  {
    LacksFirstChar(statusLine, STATUS_OK);
  }

  /** The success test finds "200 OK" wherever it stands in the line. */
  lemma SuccessAnywhere(before: string, after: string)
    ensures CheckResponseCode(before + STATUS_OK + after)
  {
    var s := before + STATUS_OK + after;
    assert s[|before|..|before| + |STATUS_OK|] == STATUS_OK;
    assert OccursAt(s, STATUS_OK, |before|);
  }

  // ---------------------------------------------------------------------------------------------
  // Content-Length

  /** `Integer.parseInt(line.split(":")[1].trim())`: the number between the first and second ':'. */
  function HeaderNumber(line: string): (r: Result<Int32, Exception>)
    ensures ':' !in line ==> r == Err(ArrayIndexOutOfBounds(1, 1))
    ensures r.Ok? ==> ':' in line
    ensures r.Err? ==> r.error.NumberFormat? || r.error.ArrayIndexOutOfBounds?
  {
    var fields := Split(line, ':');
    if |fields| < 2 then Err(ArrayIndexOutOfBounds(1, |fields|))
    else ParseInt(Trim(fields[1]))
  }

  /**
   * The size the scan of a HEAD response ends with: every line containing "Content-Length:"
   * overwrites it, starting from UNKNOWN_SIZE; the first such line that does not parse
   * throws, and the scan ends with that exception.
   */
  function ContentLength(lines: seq<string>): (r: Result<Int32, Exception>)
    ensures r.Err? ==> r.error.NumberFormat? || r.error.ArrayIndexOutOfBounds?
    decreases |lines|
  {
    if lines == [] then Ok(UNKNOWN_SIZE)
    else
      match ContentLength(lines[..|lines| - 1])
      case Err(e) => Err(e)
      case Ok(size) =>
        var line := lines[|lines| - 1];
        if Contains(line, CONTENT_LENGTH) then HeaderNumber(line) else Ok(size)
  }

  /** The loop of DownloadFile that looks for Content-Length, overwriting `size` at each match. */
  method ScanContentLength(response: seq<string>) returns (r: Result<Int32, Exception>)
    ensures r == ContentLength(response)
  {
    var size: Int32 := UNKNOWN_SIZE;
    var i := 0;
    while i < |response|
      invariant 0 <= i <= |response|
      invariant ContentLength(response[..i]) == Ok(size)
    {
      var element := response[i];
      ContentLengthStep(response, i, size);
      if Contains(element, CONTENT_LENGTH) {
        var parsed := HeaderNumber(element);
        if parsed.Err? {
          ContentLengthErrorStays(response, i + 1);
          return parsed;
        }
        size := parsed.value;
      }
      i := i + 1;
    }
    assert response[..|response|] == response;
    return Ok(size);
  }

  /** The scan's step: a Content-Length line replaces the size, any other line keeps it. */
  lemma ContentLengthStep(lines: seq<string>, i: nat, size: Int32)
    requires i < |lines| && ContentLength(lines[..i]) == Ok(size)
    ensures Contains(lines[i], CONTENT_LENGTH) ==> ContentLength(lines[..i + 1]) == HeaderNumber(lines[i])
    ensures !Contains(lines[i], CONTENT_LENGTH) ==> ContentLength(lines[..i + 1]) == Ok(size)
  {
    assert lines[..i + 1][..i] == lines[..i];
  }

  /** Once a line has thrown, the lines after it are never looked at. */
  lemma {:induction false} ContentLengthErrorStays(lines: seq<string>, k: nat)
    requires k <= |lines| && ContentLength(lines[..k]).Err?
    ensures ContentLength(lines) == ContentLength(lines[..k])
    decreases |lines| - k
  {
    if k < |lines| {
      var next := lines[..k + 1];
      assert next[..|next| - 1] == lines[..k];
      ContentLengthErrorStays(lines, k + 1);
    } else {
      assert lines[..k] == lines;
    }
  }

  /** Without any Content-Length line the size stays at the sentinel. */
  lemma {:induction false} NoContentLengthLine(lines: seq<string>)
    requires forall k :: 0 <= k < |lines| ==> !Contains(lines[k], CONTENT_LENGTH)
    ensures ContentLength(lines) == Ok(UNKNOWN_SIZE)
    decreases |lines|
  {
    if lines != [] {
      NoContentLengthLine(lines[..|lines| - 1]);
    }
  }

  /** When several lines carry Content-Length, the last one decides the size. */
  lemma {:induction false} LastContentLengthWins(lines: seq<string>, k: nat)
    requires k < |lines| && Contains(lines[k], CONTENT_LENGTH)
    requires forall j :: k < j < |lines| ==> !Contains(lines[j], CONTENT_LENGTH)
    requires ContentLength(lines[..k]).Ok?
    ensures ContentLength(lines) == HeaderNumber(lines[k])
    decreases |lines|
  {
    if k == |lines| - 1 {
      assert lines[..|lines| - 1] == lines[..k];
    } else {
      var init := lines[..|lines| - 1];
      assert init[..k] == lines[..k];
      LastContentLengthWins(init, k);
    }
  }

  /** The scan throws exactly when some Content-Length line does not hold a number. */
  lemma {:induction false} ContentLengthFails(lines: seq<string>)
    ensures ContentLength(lines).Err?
        <==> exists k :: 0 <= k < |lines| && Contains(lines[k], CONTENT_LENGTH) && HeaderNumber(lines[k]).Err?
    decreases |lines|
  {
    if lines != [] {
      var init := lines[..|lines| - 1];
      ContentLengthFails(init);
      if ContentLength(lines).Err? {
        if ContentLength(init).Err? {
          var k :| 0 <= k < |init| && Contains(init[k], CONTENT_LENGTH) && HeaderNumber(init[k]).Err?;
          assert lines[k] == init[k];
        } else {
          assert HeaderNumber(lines[|lines| - 1]).Err?;
        }
      } else {
        forall k | 0 <= k < |lines| && Contains(lines[k], CONTENT_LENGTH)
          ensures HeaderNumber(lines[k]).Ok?
        {
          if k < |init| {
            assert init[k] == lines[k];
          }
        }
      }
    }
  }

  /** The field split out of `name:value` or `name:value:...` is `value`. */
  lemma HeaderNumberField(name: string, value: string, rest: string)
    requires ':' !in name && ':' !in value && value != ""
    requires rest == "" || rest[0] == ':'
    ensures HeaderNumber(name + ":" + value + rest) == ParseInt(Trim(value))
  {
    var line := name + ":" + value + rest;
    assert line == name + [':'] + (value + rest);
    PiecesAppend(name, value + rest, ':');
    SinglePiece(name, ':');
    var tail := Pieces(value + rest, ':');
    if rest == "" {
      assert value + rest == value;
      SinglePiece(value, ':');
    } else {
      assert value + rest == value + [':'] + rest[1..];
      PiecesAppend(value, rest[1..], ':');
      SinglePiece(value, ':');
    }
    assert tail[0] == value;
    var ps := Pieces(line, ':');
    assert ps[1] == value;
    assert ':' in line by { assert line[|name|] == ':'; }
    var fields := Split(line, ':');
    assert |fields| >= 2;
    assert fields[1] == value;
  }

  /**
   * A line whose first ':' is followed by nothing but more ':', such as "Content-Length:",
   * splits into its name alone, so reading field 1 throws.
   */
  lemma HeaderNumberNoValue(name: string, colons: string)
    requires name != "" && ':' !in name
    requires forall i :: 0 <= i < |colons| ==> colons[i] == ':'
    ensures HeaderNumber(name + ":" + colons) == Err(ArrayIndexOutOfBounds(1, 1))
  {
    var line := name + ":" + colons;
    assert line == name + [':'] + colons;
    PiecesAppend(name, colons, ':');
    SinglePiece(name, ':');
    PiecesAllEmpty(colons, ':');
    var rest := Pieces(colons, ':');
    var ps := Pieces(line, ':');
    assert ps == [name] + rest;
    assert ':' in line by { assert line[|name|] == ':'; }
    var fields := Split(line, ':');
    assert fields == DropTrailingEmpty(ps);
    assert ps[0] == name;
    assert forall j :: 1 <= j < |ps| ==> ps[j] == rest[j - 1] == "";
    assert |fields| == 1;
  }

  /** The header line a server sends for a size `n` reads back as `n`. */
  lemma ContentLengthLine(n: Int32)
    ensures HeaderNumber(CONTENT_LENGTH + " " + IntToString(n)) == Ok(n)
  {
    var digits := IntToString(n);
    assert ':' !in digits by {
      forall k | 0 <= k < |digits| ensures digits[k] != ':' { }
    }
    assert ':' !in " " + digits;
    assert CONTENT_LENGTH + " " + digits == "Content-Length" + ":" + (" " + digits) + "";
    HeaderNumberField("Content-Length", " " + digits, "");
    IntToStringUnpadded(n);
    TrimUnpadded(" ", digits, "");
    assert " " + digits + "" == " " + digits;
    ParseIntToString(n);
  }

  // ---------------------------------------------------------------------------------------------
  // The saved file

  /** What SaveAsFile writes: every received line, in order, each followed by "\n". */
  function Saved(lines: seq<string>): (r: string)
    ensures |r| >= |lines|
    ensures lines != [] ==> r[|r| - 1] == '\n'
    decreases |lines|
  {
    if lines == [] then "" else lines[0] + "\n" + Saved(lines[1..])
  }

  /** The StringBuilder loop of SaveAsFile. */
  method SaveAsFile(received: seq<string>) returns (content: string)
    ensures content == Saved(received)
  {
    content := "";
    var i := 0;
    while i < |received|
      invariant 0 <= i <= |received|
      invariant content == Saved(received[..i])
    {
      SavedAppend(received[..i], received[i]);
      assert received[..i + 1] == received[..i] + [received[i]];
      content := content + received[i] + "\n";
      i := i + 1;
    }
    assert received[..|received|] == received;
  }

  lemma {:induction false} SavedAppend(lines: seq<string>, line: string)
    ensures Saved(lines + [line]) == Saved(lines) + line + "\n"
    decreases |lines|
  {
    if lines == [] {
      assert Saved([line]) == line + "\n" + Saved([]);
    } else {
      assert (lines + [line])[1..] == lines[1..] + [line];
      SavedAppend(lines[1..], line);
    }
  }

  /** Splitting the saved text at "\n" gives back every received line, then the empty tail. */
  lemma {:induction false} SavedSplitsBack(lines: seq<string>)
    requires forall k :: 0 <= k < |lines| ==> '\n' !in lines[k]
    ensures Pieces(Saved(lines), '\n') == lines + [""]
    decreases |lines|
  {
    if lines != [] {
      var rest := lines[1..];
      SavedSplitsBack(rest);
      var tail := Saved(rest);
      assert Saved(lines) == lines[0] + ['\n'] + tail;
      PiecesAppend(lines[0], tail, '\n');
      SinglePiece(lines[0], '\n');
      assert Pieces(Saved(lines), '\n') == [lines[0]] + (rest + [""]);
      assert lines == [lines[0]] + rest;
    } else {
      assert Saved(lines) == "";
    }
  }
}
