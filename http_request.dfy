/**
 * The three requests the downloader writes to a fresh connection: the HEAD probe, a plain GET
 * and a GET carrying a byte range. Each wire form is built the way the Java code prints it,
 * piece by piece, and is proved equal to the general serialisation of a structured request.
 */
module HttpRequest {
  import opened JavaText

  const CRLF := "\r\n"

  datatype Header = Header(name: string, value: string)

  /** A request: the method, the path written after a leading '/', and the header lines in order. */
  datatype Request = Request(verb: string, path: string, headers: seq<Header>)

  /** The request line: method, a '/', the path as given, and the protocol version. */
  function RequestLine(verb: string, path: string): string {
    verb + " /" + path + " HTTP/1.1" + CRLF
  }

  function HeaderLine(h: Header): string {
    h.name + ": " + h.value + CRLF
  }

  /** The header lines in order. */
  function HeaderLines(hs: seq<Header>): string
    decreases |hs|
  {
    if hs == [] then "" else HeaderLines(hs[..|hs| - 1]) + HeaderLine(hs[|hs| - 1])
  }

  /** The request line, one line per header, and the empty line that ends the request head. */
  function Serialize(r: Request): string {
    RequestLine(r.verb, r.path) + HeaderLines(r.headers) + CRLF
  }

  /** The headers of the HEAD probe, in the order they are written. */
  function ProbeHeaders(host: string): seq<Header> {
    [ Header("Host", host),
      Header("User-Agent", "Console Http Client"),
      Header("Accept", "text/html"),
      Header("Accept-Language", "en-US"),
      Header("Connection", "close") ]
  }

  /** The value of the Range header asking for bytes `lower` to `upper`, both inclusive. */
  function RangeValue(lower: int, upper: int): string {
    "bytes=" + IntToString(lower) + "-" + IntToString(upper)
  }

  /** The HEAD probe written by GetHead, one print per line. */
  function HeadRequest(path: string, host: string): (w: string)
    ensures w == Serialize(Request("HEAD", path, ProbeHeaders(host)))
  {
    HeadShape(path, host);
    ("HEAD /" + path + " HTTP/1.1\r\n")
    + ("Host: " + host + "\r\n")
    + "User-Agent: Console Http Client\r\n"
    + "Accept: text/html\r\n"
    + "Accept-Language: en-US\r\n"
    + "Connection: close\r\n"
    + "\r\n"
  }

  /** The plain GET written by SetupGetRequest, one print per line. */
  function GetRequest(path: string, host: string): (w: string)
    ensures w == Serialize(Request("GET", path, [Header("Host", host)]))
  {
    assert HeaderLines([Header("Host", host)]) == "Host: " + host + "\r\n" by { assert [Header("Host", host)][..0] == []; }
    ("GET /" + path + " HTTP/1.1\r\n")
    + ("Host: " + host + "\r\n")
    + "\r\n"
  }

  /** The ranged GET written by SetupGetRangeRequest, one print per line. */
  function RangeGetRequest(path: string, host: string, lower: int, upper: int): (w: string)
    ensures w == Serialize(Request("GET", path, [Header("Host", host), Header("Range", RangeValue(lower, upper))]))
  {
    RangeGetShape(path, host, IntToString(lower), IntToString(upper));
    ("GET /" + path + " HTTP/1.1\r\n")
    + ("Host: " + host + "\r\n")
    + ("Range: bytes=" + IntToString(lower) + "-" + IntToString(upper) + "\r\n")
    + "\r\n"
  }

  lemma HeadShape(path: string, host: string)
    ensures ("HEAD /" + path + " HTTP/1.1\r\n")
      + ("Host: " + host + "\r\n")
      + "User-Agent: Console Http Client\r\n"
      + "Accept: text/html\r\n"
      + "Accept-Language: en-US\r\n"
      + "Connection: close\r\n"
      + "\r\n"
      == Serialize(Request("HEAD", path, ProbeHeaders(host)))
  {
    var hs := ProbeHeaders(host);
    FiveHeaderLines(hs[0], hs[1], hs[2], hs[3], hs[4]);
    assert hs == [hs[0], hs[1], hs[2], hs[3], hs[4]];
    var request := RequestLine("HEAD", path);
    var l1, l2, l3, l4, l5 := HeaderLine(hs[0]), HeaderLine(hs[1]), HeaderLine(hs[2]), HeaderLine(hs[3]), HeaderLine(hs[4]);
    assert request == "HEAD /" + path + " HTTP/1.1\r\n";
    assert l1 == "Host: " + host + "\r\n";
    assert l2 == "User-Agent: Console Http Client\r\n";
    assert l3 == "Accept: text/html\r\n";
    assert l4 == "Accept-Language: en-US\r\n";
    assert l5 == "Connection: close\r\n";
    RegroupFive(request, l1, l2, l3, l4, l5, CRLF);
  }

  /** Moving the header lines out of their own group. */
  lemma RegroupFive(a: string, l1: string, l2: string, l3: string, l4: string, l5: string, e: string)
    ensures a + (l1 + l2 + l3 + l4 + l5) + e == a + l1 + l2 + l3 + l4 + l5 + e
  {
    assert a + (l1 + l2 + l3 + l4 + l5) == a + (l1 + l2 + l3 + l4) + l5;
    assert a + (l1 + l2 + l3 + l4) == a + (l1 + l2 + l3) + l4;
    assert a + (l1 + l2 + l3) == a + (l1 + l2) + l3;
    assert a + (l1 + l2) == a + l1 + l2;
  }

  lemma FiveHeaderLines(h1: Header, h2: Header, h3: Header, h4: Header, h5: Header)
    ensures HeaderLines([h1, h2, h3, h4, h5])
      == HeaderLine(h1) + HeaderLine(h2) + HeaderLine(h3) + HeaderLine(h4) + HeaderLine(h5)
  {
    var hs := [h1, h2, h3, h4, h5];
    assert hs[..4][..3][..2][..1][..0] == [];
    assert HeaderLines(hs[..1]) == HeaderLine(h1);
    assert HeaderLines(hs[..2]) == HeaderLines(hs[..1]) + HeaderLine(h2) by { assert hs[..2][..1] == hs[..1]; }
    assert HeaderLines(hs[..3]) == HeaderLines(hs[..2]) + HeaderLine(h3) by { assert hs[..3][..2] == hs[..2]; }
    assert HeaderLines(hs[..4]) == HeaderLines(hs[..3]) + HeaderLine(h4) by { assert hs[..4][..3] == hs[..3]; }
    assert HeaderLines(hs) == HeaderLines(hs[..4]) + HeaderLine(h5);
  }

  lemma RangeGetShape(path: string, host: string, lo: string, hi: string)
    ensures ("GET /" + path + " HTTP/1.1\r\n") + ("Host: " + host + "\r\n")
      + ("Range: bytes=" + lo + "-" + hi + "\r\n") + "\r\n"
      == Serialize(Request("GET", path, [Header("Host", host), Header("Range", "bytes=" + lo + "-" + hi)]))
  {
    TwoHeaderLines(Header("Host", host), Header("Range", "bytes=" + lo + "-" + hi));
    assert RequestLine("GET", path) == "GET /" + path + " HTTP/1.1\r\n";
    assert HeaderLine(Header("Host", host)) == "Host: " + host + "\r\n";
    assert HeaderLine(Header("Range", "bytes=" + lo + "-" + hi)) == "Range: bytes=" + lo + "-" + hi + "\r\n";
  }

  lemma TwoHeaderLines(h1: Header, h2: Header)
    ensures HeaderLines([h1, h2]) == HeaderLine(h1) + HeaderLine(h2)
  {
    assert HeaderLines([h1]) == HeaderLine(h1) by { assert [h1][..0] == []; }
    assert HeaderLines([h2]) == HeaderLine(h2) by { assert [h2][..0] == []; }
    assert [h1, h2] == [h1] + [h2];
    HeaderLinesAppend([h1], [h2]);
  }

  /** Every request begins with its method name, a '/', and the path exactly as given. */
  lemma RequestLineKeepsPath(r: Request)
    ensures StartsWith(Serialize(r), r.verb + " /" + r.path + " HTTP/1.1\r\n")
  {
    var line := r.verb + " /" + r.path + " HTTP/1.1\r\n";
    assert Serialize(r) == line + (HeaderLines(r.headers) + CRLF);
    assert Serialize(r)[..|line|] == line;
  }

  /** Every header line ends with CRLF, so every request ends with an empty line. */
  lemma RequestEndsWithBlankLine(r: Request)
    ensures |Serialize(r)| >= 4 && Serialize(r)[|Serialize(r)| - 4..] == CRLF + CRLF
  {
    var w := Serialize(r);
    if r.headers == [] {
      var line := RequestLine(r.verb, r.path);
      assert w == line + CRLF;
      assert w[|w| - 4..] == line[|line| - 2..] + CRLF;
    } else {
      var rest := HeaderLines(r.headers[..|r.headers| - 1]);
      var last := HeaderLine(r.headers[|r.headers| - 1]);
      assert w == RequestLine(r.verb, r.path) + rest + last + CRLF;
      assert w[|w| - 4..] == last[|last| - 2..] + CRLF;
    }
  }

  /** Headers are written in order: the lines of `hs1 + hs2` are those of `hs1` followed by those of `hs2`. */
  lemma {:induction false} HeaderLinesAppend(hs1: seq<Header>, hs2: seq<Header>)
    ensures HeaderLines(hs1 + hs2) == HeaderLines(hs1) + HeaderLines(hs2)
    decreases |hs2|
  {
    if hs2 == [] {
      assert hs1 + hs2 == hs1;
    } else {
      var hs := hs1 + hs2;
      assert hs[..|hs| - 1] == hs1 + hs2[..|hs2| - 1];
      HeaderLinesAppend(hs1, hs2[..|hs2| - 1]);
    }
  }

  /**
   * The ranged GET is the plain GET with one more header line, `Range: bytes=lower-upper`,
   * inserted before the empty line that closes the request head.
   */
  lemma RangeGetInsertsRange(path: string, host: string, lower: int, upper: int)
    ensures var get := GetRequest(path, host);
      RangeGetRequest(path, host, lower, upper)
      == get[..|get| - 2] + "Range: " + RangeValue(lower, upper) + CRLF + CRLF
  {
    var get := GetRequest(path, host);
    var head := "GET /" + path + " HTTP/1.1\r\n" + ("Host: " + host + "\r\n");
    assert get == head + CRLF;
    assert get[..|get| - 2] == head;
  }
}
