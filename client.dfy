/**
 * The selection and formatting logic of `main` and `get_ipv6_addrstr` in
 * src/client.c: which host to fetch, which resolved address to use, what to
 * do with the response, and the output file's name. Name resolution, the
 * socket calls and the file write are foreign calls and are not modelled;
 * their outcomes are inputs here.
 */
module Client {
  import opened Wrappers
  import opened Transport
  import Destinations
  import Splitter

  /** The host buffer: `calloc(64, sizeof(char))`, filled by strcpy and extended by strcat. */
  const HostBufferSize: nat := 64

  const DefaultHost: string := "google.com"

  /** The extension strcat appends to the host to name the output file. */
  const FileSuffix: string := ".html"

  /** The host `main` settles on, and whether it reported an invalid index. */
  datatype Selection = Selection(host: string, invalidIndex: bool)

  /**
   * Host selection in `main`: the default host unless an index argument in
   * [0, DEST_MAX] picks a destination; an out-of-range index is reported
   * and the default kept. `arg` is the already-parsed `atoi(argv[1])`, or
   * None when there is no argument.
   */
  function SelectHost(arg: Option<int>): (sel: Selection)
    ensures sel.invalidIndex <==> arg.Some? && !(0 <= arg.value < Destinations.DestMax + 1)
    ensures arg.None? || sel.invalidIndex ==> sel.host == DefaultHost
    ensures arg.Some? && !sel.invalidIndex ==> sel.host == Destinations.Table[arg.value]
  {
    if arg.Some? then
      if 0 <= arg.value < Destinations.DestMax + 1 then Selection(Destinations.Table[arg.value], false)
      else Selection(DefaultHost, true)
    else Selection(DefaultHost, false)
  }

  /** The output file's name, `strcat(host, ".html")`. */
  function OutputFileName(host: string): (name: string)
    ensures |name| == |host| + |FileSuffix|
    ensures name[..|host|] == host && name[|host|..] == FileSuffix
  {
    host + FileSuffix
  }

  /** Different hosts are saved to different files. */
  lemma OutputFileNameInjective(a: string, b: string)
    requires OutputFileName(a) == OutputFileName(b)
    ensures a == b
  {
    assert |a| == |b|;
    assert a == OutputFileName(a)[..|a|];
  }

  /**
   * Whatever the argument, the selected host is a hostname known to the
   * program, and the host followed by ".html" and its terminating NUL fits
   * the 64-byte buffer that strcpy and strcat write into.
   */
  lemma SelectedHostFitsBuffer(arg: Option<int>)
    ensures var host := SelectHost(arg).host;
      && (host == DefaultHost || host in Destinations.Table)
      && Destinations.IsHostname(host)
      && |OutputFileName(host)| + 1 <= HostBufferSize
  {
    Destinations.EntriesAreHostnames();
    var host := SelectHost(arg).host;
    if host == DefaultHost {
      assert Destinations.IsHostname("google.com");
    }
  }

  datatype AddrError = NoValidAddress

  /**
   * `get_ipv6_addrstr`: walk the resolver's results in order and keep the
   * text of the first address that converts. `results[i]` is the outcome of
   * `inet_ntop` on the i-th result (None when it fails). `examined` counts
   * the conversions attempted. No convertible address is the source's fatal
   * "Could not find a valid IPv6 address!" exit.
   */
  method GetIpv6AddrStr(results: seq<Option<string>>) returns (r: Result<string, AddrError>, examined: nat)
    ensures r.Err? <==> forall i :: 0 <= i < |results| ==> results[i].None?
    ensures r.Err? ==> examined == |results|
    ensures r.Ok? ==>
      && 0 < examined <= |results|
      && results[examined - 1] == Some(r.value)
      && forall i :: 0 <= i < examined - 1 ==> results[i].None?
  {
    var hostaddr: string := "";
    var addrFound := false;
    var p := 0;
    examined := 0;
    while p < |results| && !addrFound
      invariant 0 <= p <= |results| && examined == p
      invariant addrFound ==> p > 0 && results[p - 1] == Some(hostaddr)
      invariant forall i :: 0 <= i < (if addrFound then p - 1 else p) ==> results[i].None?
    {
      var ptr := results[p];
      examined := examined + 1;
      if ptr.Some? {
        hostaddr := ptr.value;
        addrFound := true;
      }
      p := p + 1;
    }
    if !addrFound {
      return Err(NoValidAddress), examined;
    }
    r := Ok(hostaddr);
  }

  /**
   * What `strlen(buf)` computes on the buffer `receive` hands back, as the
   * source writes it: the position of the first NUL among the received
   * bytes, or None when they hold none, in which case strlen runs past
   * them into bytes recv never wrote (or past the allocation when the
   * buffer is full), since `receive` does not terminate its buffer.
   */
  function MeasuredLength(received: seq<byte>): (r: Option<nat>)
    ensures r.Some? <==> Splitter.Nul in received
    ensures r.Some? ==>
      r.value < |received| && received[r.value] == Splitter.Nul && Splitter.Nul !in received[..r.value]
  {
    if Splitter.Nul in received then Some(Splitter.StrLen(received)) else None
  }

  /**
   * The "Empty response!" test of lines 110 and 119 as written: None when
   * the received bytes do not decide it, otherwise whether the measured
   * length is 0, which is whether the first received byte is NUL.
   */
  function ReportsEmptyAsWritten(received: seq<byte>): (r: Option<bool>)
    ensures r.None? <==> Splitter.Nul !in received
    ensures r == Some(true) <==> |received| > 0 && received[0] == Splitter.Nul
  {
    match MeasuredLength(received)
    case None => None
    case Some(length) => Some(length == 0)
  }

  /**
   * The guard as written is not decided by the response: a plain "HTTP"
   * leaves the measured length to memory outside the received bytes, and a
   * response that starts with a NUL byte measures 0 and is reported empty
   * although two bytes arrived, where the corrected guard does not.
   */
  lemma MeasuredLengthCounterexamples()
    ensures MeasuredLength([72, 84, 84, 80]).None?
    ensures ReportsEmptyAsWritten([72, 84, 84, 80]).None?
    ensures MeasuredLength([0, 72]) == Some(0)
    ensures ReportsEmptyAsWritten([0, 72]) == Some(true)
    ensures HandleResponse(DefaultHost, [0, 72]) != Err(EmptyResponse)
  {
    var nonEmpty: seq<byte> := [0, 72];
    assert nonEmpty[0] == Splitter.Nul;
  }

  /** How the client's handling of a response ends when it fails. */
  datatype FetchError =
    | EmptyResponse      // main's "Empty response!" before splitting
    | MalformedResponse  // split_http_response's "Empty response!": no "\r\n\r\n"

  /** The headers to print, the content to save, and the file to save it to. */
  datatype Saved = Saved(headers: seq<byte>, content: seq<byte>, fileName: string)

  /**
   * The rest of `main` after `receive` (lines 110-131), with its guard
   * corrected: the response is empty exactly when no byte was received,
   * and the received bytes are read as a string ending after the last of
   * them. An empty response is reported before any split is attempted;
   * otherwise the response is split at its first empty line and the
   * content goes to the host's ".html" file.
   */
  function HandleResponse(host: string, received: seq<byte>): (r: Result<Saved, FetchError>)
    ensures r == Err(EmptyResponse) <==> |received| == 0
    ensures r == Err(MalformedResponse) <==>
      |received| > 0 && !Splitter.HasEmptyLine(Splitter.Text(received + [Splitter.Nul]))
    ensures r.Ok? ==>
      && r.value.fileName == OutputFileName(host)
      && r.value.headers + Splitter.EmptyLine + r.value.content == Splitter.Text(received + [Splitter.Nul])
      && !Splitter.HasEmptyLine(r.value.headers)
      // the cut is the first empty line of the response
      && (forall j: nat :: j < |r.value.headers| ==>
            !Splitter.EmptyLineAt(Splitter.Text(received + [Splitter.Nul]), j))
      && Splitter.Split(Splitter.Text(received + [Splitter.Nul])) == Ok((r.value.headers, r.value.content))
  {
    if |received| == 0 then Err(EmptyResponse)
    else
      match Splitter.Split(Splitter.Text(received + [Splitter.Nul]))
      case Err(_) => Err(MalformedResponse)
      case Ok((headers, content)) => Ok(Saved(headers, content, OutputFileName(host)))
  }

  /** For a response without NUL bytes the split covers every received byte. */
  lemma HandleResponseCoversAll(host: string, received: seq<byte>)
    requires Splitter.Nul !in received
    ensures HandleResponse(host, received).Ok? ==>
      var saved := HandleResponse(host, received).value;
      saved.headers + Splitter.EmptyLine + saved.content == received
  {
    var text := Splitter.Text(received + [Splitter.Nul]);
    Splitter.StrLenUnique(received + [Splitter.Nul], |received|) by {
      assert (received + [Splitter.Nul])[..|received|] == received;
    }
    assert text == received;
  }
}
