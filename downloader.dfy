/**
 * The download orchestration of FileDownloader: the size policy fixed by the constructor,
 * the index listing filtered down to this host's entries, and, per entry, the decision taken
 * on the HEAD response and the follow-up request it leads to.
 *
 * Every request is written to a fresh connection, and the answer is the sequence of text
 * lines read back from it; what the server answers to each request is the parameter `server`.
 */
module Downloader {
  import opened Wrappers
  import opened JavaText
  import opened HttpRequest
  import opened HttpResponse

  /** The size window; when unbounded, both bounds are 0 and never consulted. */
  datatype Policy = Policy(bounded: bool, lowerBound: int, upperBound: int)

  /** What is done with one index entry. */
  datatype Decision =
    | NotFound
    | RangeDownload(lower: int, upper: int)
    | SkippedTooSmall
    | FullDownload

  /**
   * The GET sent after the probe, the local file its answer is written to, and the text written
   * there: every line of the answer, the status line and headers included.
   */
  datatype FollowUp = FollowUp(request: string, fileName: string, content: string)

  /** One entry's exchange: the HEAD probe sent, the decision, and the follow-up GET if any. */
  datatype Exchange = Exchange(probe: string, decision: Decision, followUp: Option<FollowUp>)

  /** A run: the exchanges completed, in index order, and the exception that ended it, if any. */
  datatype RunResult = RunResult(done: seq<Exchange>, error: Option<Exception>)

  // ---------------------------------------------------------------------------------------------
  // The decision

  /** The branch chain of DownloadFile, tested in this order. */
  function Decide(statusLine: string, size: int, p: Policy): (d: Decision)
    ensures d != NotFound ==> CheckResponseCode(statusLine) && size != UNKNOWN_SIZE
    ensures d.RangeDownload? ==> p.bounded && d == RangeDownload(p.lowerBound, p.upperBound)
    ensures d == SkippedTooSmall ==> p.bounded && size < p.lowerBound
  {
    if !CheckResponseCode(statusLine) || size == UNKNOWN_SIZE then NotFound
    else if p.upperBound < size && p.bounded then RangeDownload(p.lowerBound, p.upperBound)
    else if size < p.lowerBound && p.bounded then SkippedTooSmall
    else FullDownload
  }

  /** Each decision and the exact conditions that lead to it. */
  lemma DecideCases(statusLine: string, size: int, p: Policy)
    ensures var d := Decide(statusLine, size, p);
      var found := CheckResponseCode(statusLine) && size != UNKNOWN_SIZE;
      && (d == NotFound <==> !found)
      && (d.RangeDownload? <==> found && p.bounded && p.upperBound < size)
      && (d.RangeDownload? ==> d.lower == p.lowerBound && d.upper == p.upperBound)
      && (d == SkippedTooSmall <==> found && p.bounded && size <= p.upperBound && size < p.lowerBound)
      && (d == FullDownload <==> found && (!p.bounded || p.lowerBound <= size <= p.upperBound))
  {
  }

  /** The range test comes first: a size above the window wins even when it is also below it. */
  lemma RangeBeforeSkip(statusLine: string, size: int, p: Policy)
    requires CheckResponseCode(statusLine) && size != UNKNOWN_SIZE
    requires p.bounded && p.upperBound < size && size < p.lowerBound
    ensures Decide(statusLine, size, p) == RangeDownload(p.lowerBound, p.upperBound)
  {
  }

  /** Without a size window every found file is downloaded whole. */
  lemma UnboundedNeverPartial(statusLine: string, size: int, p: Policy)
    requires !p.bounded
    ensures Decide(statusLine, size, p) in {NotFound, FullDownload}
  {
  }

  // ---------------------------------------------------------------------------------------------
  // The local file name

  /** The last element of `path.split("/")`; an empty split throws on `get(-1)`. */
  function FileName(path: string): (r: Result<string, Exception>)
    ensures r.Ok? ==> '/' !in r.value
  {
    var segments := Split(path, '/');
    if |segments| == 0 then Err(IndexOutOfBounds(-1, 0))
    else Ok(segments[|segments| - 1])
  }

  /** The split is empty, and the name lookup throws, exactly for a non-empty path of slashes only. */
  lemma FileNameFails(path: string)
    ensures FileName(path).Err? <==> path != "" && forall i :: 0 <= i < |path| ==> path[i] == '/'
  {
    if '/' in path {
      var ps := Pieces(path, '/');
      var segments := DropTrailingEmpty(ps);
      assert Split(path, '/') == segments;
      PiecesAllEmpty(path, '/');
      if segments != [] {
        assert ps[|segments| - 1] == segments[|segments| - 1] != "";
        assert FileName(path).Ok?;
      } else {
        assert forall k :: 0 <= k < |ps| ==> ps[k] == "";
        assert FileName(path).Err?;
      }
    } else {
      assert Split(path, '/') == [path];
      if path != "" {
        assert path[0] in path;
      }
    }
  }

  /** The name is what follows the last '/'. */
  lemma FileNameLastSegment(dir: string, name: string)
    requires name != "" && '/' !in name
    ensures FileName(dir + "/" + name) == Ok(name)
  {
    var path := dir + "/" + name;
    assert path == dir + ['/'] + name;
    assert path[|dir|] == '/';
    PiecesAppend(dir, name, '/');
    SinglePiece(name, '/');
    var ps := Pieces(path, '/');
    assert ps[|ps| - 1] == name;
    assert DropTrailingEmpty(ps) == ps;
  }

  /** Trailing slashes are dropped by split, so they do not change the name. */
  lemma FileNameTrailingSlash(path: string)
    requires path != ""
    ensures FileName(path + "/") == FileName(path)
  {
    assert path + "/" == path + ['/'] + "";
    PiecesAppend(path, "", '/');
    var ps := Pieces(path, '/');
    assert Pieces("", '/') == [""];
    assert Pieces(path + "/", '/') == ps + [""];
    assert (ps + [""])[..|ps|] == ps;
    assert DropTrailingEmpty(ps + [""]) == DropTrailingEmpty(ps);
    assert '/' in path + "/" by { assert (path + "/")[|path|] == '/'; }
    assert Split(path + "/", '/') == DropTrailingEmpty(ps);
    if '/' !in path {
      SinglePiece(path, '/');
      assert DropTrailingEmpty([path]) == [path];
      assert Split(path, '/') == [path];
    } else {
      assert Split(path, '/') == DropTrailingEmpty(ps);
    }
  }

  // ---------------------------------------------------------------------------------------------
  // One entry

  /** The GET sent after a download decision and what is saved of its answer; none after NotFound or SkippedTooSmall. */
  function FollowUpFor(d: Decision, path: string, host: string, name: string, server: string -> seq<string>): (r: Option<FollowUp>)
    ensures r.None? <==> d == NotFound || d == SkippedTooSmall
    ensures r.Some? ==> r.value.fileName == name && r.value.content == Saved(server(r.value.request))
  {
    match d
    case NotFound => None
    case SkippedTooSmall => None
    case RangeDownload(lower, upper) =>
      var request := RangeGetRequest(path, host, lower, upper);
      Some(FollowUp(request, name, Saved(server(request))))
    case FullDownload =>
      var request := GetRequest(path, host);
      Some(FollowUp(request, name, Saved(server(request))))
  }

  /**
   * DownloadFile: probe with HEAD; an empty answer is NotFound; otherwise scan for the size,
   * take the file name, decide, and save the answer of the follow-up GET. The scan and the name
   * lookup can throw.
   */
  function DownloadOutcome(p: Policy, host: string, path: string, response: seq<string>, server: string -> seq<string>): (r: Result<Exchange, Exception>)
    ensures r.Ok? ==> r.value.probe == HeadRequest(path, host)
    ensures r.Ok? && r.value.decision == NotFound ==> r.value.followUp == None
  {
    var head := HeadRequest(path, host);
    if response == [] then Ok(Exchange(head, NotFound, None))
    else
      match ContentLength(response)
      case Err(e) => Err(e)
      case Ok(size) =>
        match FileName(path)
        case Err(e) => Err(e)
        case Ok(name) =>
          var d := Decide(response[0], size, p);
          Ok(Exchange(head, d, FollowUpFor(d, path, host, name, server)))
  }

  /** An empty HEAD response is NotFound under every policy, with no follow-up request. */
  lemma EmptyResponseNotFound(p: Policy, host: string, path: string, server: string -> seq<string>)
    ensures DownloadOutcome(p, host, path, [], server) == Ok(Exchange(HeadRequest(path, host), NotFound, None))
  {
  }

  /** A status line without "200 OK", or a response without any Content-Length, is NotFound. */
  lemma UnsuccessfulResponseNotFound(p: Policy, host: string, path: string, response: seq<string>, server: string -> seq<string>)
    requires response != [] && FileName(path).Ok?
    requires !CheckResponseCode(response[0]) || forall k :: 0 <= k < |response| ==> !Contains(response[k], CONTENT_LENGTH)
    requires ContentLength(response).Ok?
    ensures DownloadOutcome(p, host, path, response, server) == Ok(Exchange(HeadRequest(path, host), NotFound, None))
  {
    if CheckResponseCode(response[0]) {
      NoContentLengthLine(response);
    }
  }

  /** The entry fails exactly when the scan throws or the path has no name, on a non-empty response. */
  lemma DownloadOutcomeFails(p: Policy, host: string, path: string, response: seq<string>, server: string -> seq<string>)
    ensures DownloadOutcome(p, host, path, response, server).Err?
        <==> response != [] && (ContentLength(response).Err? || FileName(path).Err?)
  {
  }

  /**
   * The follow-up matches the decision: none for NotFound and SkippedTooSmall, a ranged GET for
   * the policy's bounds, or a plain GET; the file named by the path receives every line of that
   * GET's answer, each followed by "\n".
   */
  lemma FollowUpMatchesDecision(p: Policy, host: string, path: string, response: seq<string>, server: string -> seq<string>)
    requires DownloadOutcome(p, host, path, response, server).Ok?
    ensures var x := DownloadOutcome(p, host, path, response, server).value;
      && x.probe == HeadRequest(path, host)
      && (x.followUp.None? <==> x.decision == NotFound || x.decision == SkippedTooSmall)
      && (x.decision.RangeDownload? ==>
            var get := RangeGetRequest(path, host, p.lowerBound, p.upperBound);
            && x.decision == RangeDownload(p.lowerBound, p.upperBound)
            && x.followUp == Some(FollowUp(get, FileName(path).value, Saved(server(get)))))
      && (x.decision == FullDownload ==>
            var get := GetRequest(path, host);
            x.followUp == Some(FollowUp(get, FileName(path).value, Saved(server(get)))))
  {
  }

  /** A path without '/' names its file itself. */
  lemma FileNamePlain(name: string)
    requires '/' !in name
    ensures FileName(name) == Ok(name)
  {
  }

  // ---------------------------------------------------------------------------------------------
  // The index listing

  /** The listing lines that start with the host prefix, in their original order. */
  function Kept(index: string, listing: seq<string>): (r: seq<string>)
    ensures |r| <= |listing|
    ensures forall x :: x in r <==> x in listing && StartsWith(x, index)
    decreases |listing|
  {
    if listing == [] then []
    else
      var init := Kept(index, listing[..|listing| - 1]);
      var line := listing[|listing| - 1];
      assert listing == listing[..|listing| - 1] + [line];
      if StartsWith(line, index) then init + [line] else init
  }

  /** Filtering keeps the order: the kept lines of two parts are the kept lines of each, in turn. */
  lemma {:induction false} KeptAppend(index: string, a: seq<string>, b: seq<string>)
    ensures Kept(index, a + b) == Kept(index, a) + Kept(index, b)
    decreases |b|
  {
    if b == [] {
      assert a + b == a;
    } else {
      var ab := a + b;
      assert ab[..|ab| - 1] == a + b[..|b| - 1];
      KeptAppend(index, a, b[..|b| - 1]);
    }
  }

  /** One more listing line is kept exactly when it starts with the prefix. */
  lemma KeptStep(index: string, listing: seq<string>, i: nat)
    requires i < |listing|
    ensures Kept(index, listing[..i + 1])
      == if StartsWith(listing[i], index) then Kept(index, listing[..i]) + [listing[i]] else Kept(index, listing[..i])
  {
    assert listing[..i + 1][..i] == listing[..i];
  }

  /** `substring(n)` of every line: each line is its first `n` characters followed by its entry. */
  function Stripped(n: nat, lines: seq<string>): (r: seq<string>)
    requires forall k :: 0 <= k < |lines| ==> n <= |lines[k]|
    ensures |r| == |lines|
    ensures forall k :: 0 <= k < |r| ==> |r[k]| == |lines[k]| - n && lines[k] == lines[k][..n] + r[k]
  {
    seq(|lines|, k requires 0 <= k < |lines| => lines[k][n..])
  }

  lemma StrippedAppend(n: nat, lines: seq<string>, line: string)
    requires forall k :: 0 <= k < |lines| ==> n <= |lines[k]|
    requires n <= |line|
    ensures Stripped(n, lines + [line]) == Stripped(n, lines) + [line[n..]]
  {
  }

  /**
   * RetrieveIndexList: the kept lines lose the prefix and one more character. A line equal to
   * the prefix itself makes `substring` run past its end.
   */
  function IndexEntries(index: string, listing: seq<string>): (r: Result<seq<string>, Exception>)
    ensures r.Err? <==> index in listing
    ensures r.Ok? ==> |r.value| == |Kept(index, listing)|
  {
    if index in listing then Err(StringIndexOutOfBounds(|index| + 1, |index|, |index|))
    else
      KeptLonger(index, listing);
      Ok(Stripped(|index| + 1, Kept(index, listing)))
  }

  /** The filtering loop's step: one more line adds its entry when it is kept. */
  lemma IndexEntriesStep(index: string, listing: seq<string>, i: nat)
    requires i < |listing| && IndexEntries(index, listing[..i]).Ok?
    requires StartsWith(listing[i], index) ==> |index| + 1 <= |listing[i]|
    ensures StartsWith(listing[i], index) ==>
      IndexEntries(index, listing[..i + 1]) == Ok(IndexEntries(index, listing[..i]).value + [listing[i][|index| + 1..]])
    ensures !StartsWith(listing[i], index) ==> IndexEntries(index, listing[..i + 1]) == IndexEntries(index, listing[..i])
  {
    var line := listing[i];
    assert listing[..i + 1] == listing[..i] + [line];
    assert index[..|index|] == index;
    assert line != index;
    assert index !in listing[..i + 1];
    KeptStep(index, listing, i);
    KeptLonger(index, listing[..i]);
    if StartsWith(line, index) {
      StrippedAppend(|index| + 1, Kept(index, listing[..i]), line);
      assert IndexEntries(index, listing[..i + 1]) == Ok(Stripped(|index| + 1, Kept(index, listing[..i]) + [line]));
    } else {
      assert IndexEntries(index, listing[..i + 1]) == Ok(Stripped(|index| + 1, Kept(index, listing[..i])));
    }
  }

  /** A kept line with nothing after the prefix makes the whole listing throw. */
  lemma IndexLineTooShort(index: string, listing: seq<string>, i: nat)
    requires i < |listing| && StartsWith(listing[i], index) && |listing[i]| < |index| + 1
    ensures IndexEntries(index, listing) == Err(StringIndexOutOfBounds(|index| + 1, |listing[i]|, |listing[i]|))
  {
    assert listing[i] == listing[i][..|index|];
    assert listing[i] in listing;
  }

  /** Without a line equal to the prefix, every kept line is longer than it. */
  lemma KeptLonger(index: string, listing: seq<string>)
    requires index !in listing
    ensures forall k :: 0 <= k < |Kept(index, listing)| ==> |index| + 1 <= |Kept(index, listing)[k]|
  {
    var kept := Kept(index, listing);
    forall k | 0 <= k < |kept| ensures |index| + 1 <= |kept[k]| {
      assert kept[k] in listing;
      assert kept[k] != index && kept[k][..|index|] == index;
      assert kept[k][..|kept[k]|] == kept[k];
    }
  }

  /** Each entry is a kept line without its prefix and the separator after it; never more entries than lines. */
  lemma IndexEntriesStrip(index: string, listing: seq<string>)
    requires IndexEntries(index, listing).Ok?
    ensures var entries := IndexEntries(index, listing).value;
      var kept := Kept(index, listing);
      && |entries| == |kept| <= |listing|
      && forall k :: 0 <= k < |kept| ==> |kept[k]| > |index| && kept[k] == index + [kept[k][|index|]] + entries[k]
  {
    var entries := IndexEntries(index, listing).value;
    var kept := Kept(index, listing);
    KeptLonger(index, listing);
    forall k | 0 <= k < |kept|
      ensures |kept[k]| > |index| && kept[k] == index + [kept[k][|index|]] + entries[k]
    {
      assert kept[k] in listing;
      assert entries[k] == kept[k][|index| + 1..];
      assert kept[k][..|index|] == index;
      assert kept[k] == kept[k][..|index|] + [kept[k][|index|]] + kept[k][|index| + 1..];
    }
  }

  /** The listing example: lines of other hosts are dropped, the rest keep their order. */
  lemma IndexExample()
    ensures IndexEntries("index1.txt", ["index1.txt/a.txt", "other/b.txt", "index1.txt/sub/c.txt"])
      == Ok(["a.txt", "sub/c.txt"])
  {
    var listing := ["index1.txt/a.txt", "other/b.txt", "index1.txt/sub/c.txt"];
    assert !StartsWith("other/b.txt", "index1.txt") by { assert "other/b.txt"[0] != "index1.txt"[0]; }
    assert StartsWith("index1.txt/a.txt", "index1.txt");
    assert StartsWith("index1.txt/sub/c.txt", "index1.txt");
    assert listing[..1][..0] == [];
    assert listing[..2][..1] == listing[..1];
    assert listing[..2] == listing[..|listing| - 1];
    assert Kept("index1.txt", listing[..1]) == ["index1.txt/a.txt"];
    assert Kept("index1.txt", listing[..2]) == ["index1.txt/a.txt"];
    var kept := ["index1.txt/a.txt", "index1.txt/sub/c.txt"];
    assert Kept("index1.txt", listing) == kept;
    assert "index1.txt" !in listing;
    assert kept[0][11..] == "a.txt";
    assert kept[1][11..] == "sub/c.txt";
    assert Stripped(11, kept) == ["a.txt", "sub/c.txt"];
  }

  // ---------------------------------------------------------------------------------------------
  // The whole run

  /** What handling one index entry gives: the outcome of DownloadFile with the server's HEAD answer. */
  function EntryHandler(p: Policy, host: string, server: string -> seq<string>): string -> Result<Exchange, Exception> {
    path => DownloadOutcome(p, host, path, server(HeadRequest(path, host)), server)
  }

  /**
   * The entries in index order, each handled by `handle`; the first exception stops the run.
   * The exchanges completed before it stay in the result, as their files stay written.
   */
  function DownloadAll(entries: seq<string>, handle: string -> Result<Exchange, Exception>): (r: RunResult)
    ensures |r.done| <= |entries|
    ensures r.error.None? ==> |r.done| == |entries|
    ensures r.error.Some? ==> |r.done| < |entries|
    decreases |entries|
  {
    if entries == [] then RunResult([], None)
    else
      var prev := DownloadAll(entries[..|entries| - 1], handle);
      if prev.error.Some? then prev
      else
        match handle(entries[|entries| - 1])
        case Err(e) => RunResult(prev.done, Some(e))
        case Ok(x) => RunResult(prev.done + [x], None)
  }

  /** One more entry handled without an exception extends the run by its exchange. */
  lemma DownloadAllStep(entries: seq<string>, handle: string -> Result<Exchange, Exception>, i: nat, done: seq<Exchange>, x: Exchange)
    requires i < |entries|
    requires DownloadAll(entries[..i], handle) == RunResult(done, None)
    requires handle(entries[i]) == Ok(x)
    ensures DownloadAll(entries[..i + 1], handle) == RunResult(done + [x], None)
  {
    assert entries[..i + 1][..i] == entries[..i];
  }

  /** An entry that throws ends the run with its exception and the exchanges before it. */
  lemma DownloadAllStepFails(entries: seq<string>, handle: string -> Result<Exchange, Exception>, i: nat, done: seq<Exchange>)
    requires i < |entries|
    requires DownloadAll(entries[..i], handle) == RunResult(done, None)
    requires handle(entries[i]).Err?
    ensures DownloadAll(entries, handle) == RunResult(done, Some(handle(entries[i]).error))
  {
    assert entries[..i + 1][..i] == entries[..i];
    DownloadAllErrorStays(entries, handle, i + 1);
  }

  /** Run: fetch and filter the index, then handle every entry in order. */
  function RunOutcome(p: Policy, host: string, initialPath: string, server: string -> seq<string>): (r: RunResult)
    ensures IndexEntries(host, server(GetRequest(initialPath, host))).Err? ==> r.done == [] && r.error.Some?
    ensures IndexEntries(host, server(GetRequest(initialPath, host))).Ok? ==>
      |r.done| <= |IndexEntries(host, server(GetRequest(initialPath, host))).value|
    ensures r.error.None? ==> |r.done| == |IndexEntries(host, server(GetRequest(initialPath, host))).value|
  {
    match IndexEntries(host, server(GetRequest(initialPath, host)))
    case Err(e) => RunResult([], Some(e))
    case Ok(entries) => DownloadAll(entries, EntryHandler(p, host, server))
  }

  /** Once an entry has thrown, no later entry is handled. */
  lemma {:induction false} DownloadAllErrorStays(entries: seq<string>, handle: string -> Result<Exchange, Exception>, k: nat)
    requires k <= |entries| && DownloadAll(entries[..k], handle).error.Some?
    ensures DownloadAll(entries, handle) == DownloadAll(entries[..k], handle)
    decreases |entries| - k
  {
    if k < |entries| {
      var next := entries[..k + 1];
      assert next[..|next| - 1] == entries[..k];
      DownloadAllErrorStays(entries, handle, k + 1);
    } else {
      assert entries[..k] == entries;
    }
  }

  /**
   * The exchanges of a run are the outcomes of its first entries, one each and in order; a run
   * that stopped did so at the entry right after them, with that entry's exception.
   */
  lemma {:induction false} DownloadAllEntries(entries: seq<string>, handle: string -> Result<Exchange, Exception>)
    ensures var r := DownloadAll(entries, handle);
      && (forall i :: 0 <= i < |r.done| ==> handle(entries[i]) == Ok(r.done[i]))
      && (r.error.Some? ==> handle(entries[|r.done|]) == Err(r.error.value))
    decreases |entries|
  {
    if entries != [] {
      var init := entries[..|entries| - 1];
      DownloadAllEntries(init, handle);
      forall i | 0 <= i < |init| ensures entries[i] == init[i] { }
    }
  }

  /** The run stops with an exception exactly when some entry throws. */
  lemma {:induction false} DownloadAllFails(entries: seq<string>, handle: string -> Result<Exchange, Exception>)
    ensures DownloadAll(entries, handle).error.Some?
        <==> exists i :: 0 <= i < |entries| && handle(entries[i]).Err?
    decreases |entries|
  {
    if entries != [] {
      var init := entries[..|entries| - 1];
      DownloadAllFails(init, handle);
      if DownloadAll(entries, handle).error.Some? {
        if DownloadAll(init, handle).error.Some? {
          var i :| 0 <= i < |init| && handle(init[i]).Err?;
          assert entries[i] == init[i];
        } else {
          var last := |entries| - 1;
          assert handle(entries[last]).Err?;
        }
      } else {
        forall i | 0 <= i < |entries|
          ensures handle(entries[i]).Ok?
        {
          if i < |init| {
            assert entries[i] == init[i];
          }
        }
      }
    }
  }

  // ---------------------------------------------------------------------------------------------
  // The client object

  class FileDownloader {
    const index: string
    const initialPath: string
    const lowerBound: Int32
    const upperBound: Int32
    const bounded: bool

    /** Both bounds -1 means no size window; the bounds are then stored as 0. */
    constructor (index: string, initialPath: string, lowerBound: Int32, upperBound: Int32)
      ensures this.index == index && this.initialPath == initialPath
      ensures bounded <==> !(upperBound == -1 && lowerBound == -1)
      ensures bounded ==> this.lowerBound == lowerBound && this.upperBound == upperBound
      ensures !bounded ==> this.lowerBound == 0 && this.upperBound == 0
    {
      this.index := index;
      this.initialPath := initialPath;
      if upperBound == -1 && lowerBound == -1 {
        this.bounded := false;
        this.lowerBound := 0;
        this.upperBound := 0;
      } else {
        this.bounded := true;
        this.lowerBound := lowerBound;
        this.upperBound := upperBound;
      }
    }

    function SizePolicy(): Policy {
      Policy(bounded, lowerBound, upperBound)
    }

    /** The index GET and the filtering loop over the lines of its answer. */
    method RetrieveIndexList(server: string -> seq<string>) returns (r: Result<seq<string>, Exception>)
      ensures r == IndexEntries(index, server(GetRequest(initialPath, index)))
    {
      var listing := server(GetRequest(initialPath, index));
      var response: seq<string> := [];
      var i := 0;
      assert listing[..0] == [];
      assert Stripped(|index| + 1, []) == [];
      while i < |listing|
        invariant 0 <= i <= |listing|
        invariant IndexEntries(index, listing[..i]) == Ok(response)
      {
        var element := listing[i];
        if StartsWith(element, index) {
          if |element| < |index| + 1 {
            IndexLineTooShort(index, listing, i);
            return Err(StringIndexOutOfBounds(|index| + 1, |element|, |element|));
          }
          IndexEntriesStep(index, listing, i);
          response := response + [element[|index| + 1..]];
        } else {
          IndexEntriesStep(index, listing, i);
        }
        i := i + 1;
      }
      assert listing[..|listing|] == listing;
      return Ok(response);
    }

    /** One index entry: probe with HEAD, scan, name, decide, and save the answer of the GET. */
    method DownloadFile(path: string, server: string -> seq<string>) returns (r: Result<Exchange, Exception>)
      ensures r == DownloadOutcome(SizePolicy(), index, path, server(HeadRequest(path, index)), server)
    {
      var head := HeadRequest(path, index);
      var response := server(head);
      if |response| == 0 {
        return Ok(Exchange(head, NotFound, None));
      }
      var scanned := ScanContentLength(response);
      if scanned.Err? {
        return Err(scanned.error);
      }
      var size := scanned.value;
      var named := FileName(path);
      if named.Err? {
        return Err(named.error);
      }
      var fileName := named.value;
      var decision: Decision;
      var followUp: Option<FollowUp> := None;
      if !CheckResponseCode(response[0]) || size == UNKNOWN_SIZE {
        decision := NotFound;
      } else if upperBound < size && bounded {
        decision := RangeDownload(lowerBound, upperBound);
        var request := RangeGetRequest(path, index, lowerBound, upperBound);
        var content := SaveAsFile(server(request));
        followUp := Some(FollowUp(request, fileName, content));
        assert followUp == FollowUpFor(decision, path, index, fileName, server);
      } else if size < lowerBound && bounded {
        decision := SkippedTooSmall;
      } else {
        decision := FullDownload;
        var request := GetRequest(path, index);
        var content := SaveAsFile(server(request));
        followUp := Some(FollowUp(request, fileName, content));
        assert followUp == FollowUpFor(decision, path, index, fileName, server);
      }
      assert decision == Decide(response[0], size, SizePolicy());
      return Ok(Exchange(head, decision, followUp));
    }

    /** Fetch and filter the index, then handle each entry in index order. */
    method Run(server: string -> seq<string>) returns (r: RunResult)
      ensures r == RunOutcome(SizePolicy(), index, initialPath, server)
    {
      var entries := RetrieveIndexList(server);
      if entries.Err? {
        return RunResult([], Some(entries.error));
      }
      var paths := entries.value;
      var exchanges: seq<Exchange> := [];
      var i := 0;
      while i < |paths|
        invariant 0 <= i <= |paths|
        invariant DownloadAll(paths[..i], EntryHandler(SizePolicy(), index, server)) == RunResult(exchanges, None)
      {
        var exchange := DownloadFile(paths[i], server);
        if exchange.Err? {
          DownloadAllStepFails(paths, EntryHandler(SizePolicy(), index, server), i, exchanges);
          return RunResult(exchanges, Some(exchange.error));
        }
        DownloadAllStep(paths, EntryHandler(SizePolicy(), index, server), i, exchanges, exchange.value);
        exchanges := exchanges + [exchange.value];
        i := i + 1;
      }
      assert paths[..|paths|] == paths;
      return RunResult(exchanges, None);
    }
  }
}
