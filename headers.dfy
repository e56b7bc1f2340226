/**
 * The header interpreter `parse_headers` (chap8/code/fsm/fsm.cpp:127-141).
 *
 * The empty line ends the header section and completes the request.  Every
 * other line is accepted: a `Host:` header (any case) has its value, after the
 * tabs that follow the colon, reported; any other header is ignored.
 */
module Headers {
  import opened Wrappers
  import opened CStrings
  import opened Http

  /** The classification and, for a `Host:` line, the value the program prints. */
  datatype Result = Result(code: HttpCode, host: Option<seq<char>>)

  function ParseHeaders(line: seq<char>): (r: Result)
    ensures r.code == GetRequest <==> line == []
    ensures r.code == NoRequest <==> line != []
    ensures r.host.Some? <==> StartsWithIgnoreCase(line, "Host:")
    ensures r.host.Some? ==> |r.host.value| <= |line| - 5 && r.host.value == line[|line| - |r.host.value|..]
    ensures r.host.Some? && r.host.value != [] ==> r.host.value[0] != '\t'
  {
    if line == [] then Result(GetRequest, None)
    else if StartsWithIgnoreCase(line, "Host:") then Result(NoRequest, Some(line[Span(line, '\t', 5)..]))
    else Result(NoRequest, None)
  }

  /** Between the colon and the reported value there are only tabs. */
  lemma {:induction false} HostValueAfterTabs(line: seq<char>)
    requires ParseHeaders(line).host.Some?
    ensures var v := ParseHeaders(line).host.value;
      forall x :: 5 <= x < |line| - |v| ==> line[x] == '\t'
  {
    SpanRun(line, '\t', 5);
  }

  /**
   * Building a `Host:` line from its parts and parsing it gives the value back:
   * the name in any case, any number of tabs, and a value that does not itself
   * start with a tab.
   */
  lemma {:induction false} HostRoundTrip(name: seq<char>, tabs: seq<char>, value: seq<char>)
    requires EqualsIgnoreCase(name, "Host:")
    requires forall x :: 0 <= x < |tabs| ==> tabs[x] == '\t'
    requires value == [] || value[0] != '\t'
    ensures ParseHeaders(name + tabs + value) == Result(NoRequest, Some(value))
  {
    var line := name + tabs + value;
    assert line[..5] == name;
    forall x | 5 <= x < 5 + |tabs| ensures line[x] == '\t' {
      assert line[x] == tabs[x - 5];
    }
    if value != [] {
      assert line[5 + |tabs|] == value[0];
    }
    SpanIs(line, '\t', 5, 5 + |tabs|);
    assert line[5 + |tabs|..] == value;
  }

  /** A header other than `Host:` is accepted and ignored. */
  lemma {:induction false} OtherHeaderIgnored()
    ensures ParseHeaders("Accept:\t*/*") == Result(NoRequest, None)
  {
    assert ToLower("Accept:\t*/*"[..5][0]) != ToLower("Host:"[0]);
  }

  lemma {:induction false} HostExample()
    ensures ParseHeaders("Host:\texample.com") == Result(NoRequest, Some("example.com"))
  {
    assert "Host:\texample.com" == "Host:" + "\t" + "example.com";
    HostRoundTrip("Host:", "\t", "example.com");
  }
}
