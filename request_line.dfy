/**
 * The request-line interpreter `parse_requestline` (chap8/code/fsm/fsm.cpp:81-124).
 *
 * The line is the NUL-terminated text the driver hands over, as a NUL-free
 * sequence.  The accepted shape is `GET<TAB>+<url><TAB>+HTTP/1.1`, with the
 * method and the version compared without regard to ASCII case.  The C code
 * cuts the line in place by writing NUL over the first tab (line 88) and over
 * the tab that ends the URL (line 102); the result records where those two
 * writes land, as offsets into the line, so that the driver can apply them to
 * the buffer.
 */
module RequestLine {
  import opened Wrappers
  import opened CStrings
  import opened Http

  /**
   * The classification, the new CHECK_STATE, the normalised URL (meaningful
   * on acceptance; the program only prints it) and the offsets of the NUL
   * writes at lines 88 and 102, when they happen.
   */
  datatype Result = Result(
    code: HttpCode,
    state: CheckState,
    url: seq<char>,
    methodEnd: Option<nat>,
    urlEnd: Option<nat>)

  /**
   * The URL check of lines 108-117: an `http://` prefix (any case) is dropped
   * together with everything up to the first '/', and what is left must start
   * with '/'.  `None` stands for the rejected URL.
   */
  function Target(url: seq<char>): (r: Option<seq<char>>)
    ensures r.Some? ==> |r.value| > 0 && r.value[0] == '/'
    ensures r.Some? ==> |r.value| <= |url| && r.value == url[|url| - |r.value|..]
  {
    if StartsWithIgnoreCase(url, "http://") then
      match Find(url, '/', 7)
      case None => None
      case Some(p) => Some(url[p..])
    else if |url| > 0 && url[0] == '/' then assert url[0..] == url; Some(url)
    else None
  }

  /**
   * Exactly what lines 109-116 do with a URL.  With an `http://` prefix (any
   * case) the URL is rejected when no '/' follows the prefix, and otherwise
   * becomes its suffix from the first '/' after the prefix.  Without the prefix
   * it is rejected unless it starts with '/', and is then kept whole.
   */
  lemma {:induction false} TargetCases(url: seq<char>)
    ensures var r := Target(url);
      if StartsWithIgnoreCase(url, "http://") then
        && (r.None? <==> '/' !in url[7..])
        && (r.Some? ==> 7 <= |url| - |r.value| && '/' !in url[7..|url| - |r.value|])
      else
        && (r.None? <==> url == [] || url[0] != '/')
        && (r.Some? ==> r.value == url)
  {
    if StartsWithIgnoreCase(url, "http://") {
      FindFirst(url, '/', 7);
      match Find(url, '/', 7)
      case None =>
        assert '/' !in url[7..] by {
          forall x | 0 <= x < |url[7..]| ensures url[7..][x] != '/' {
            assert url[7..][x] == url[7 + x];
          }
        }
      case Some(p) =>
        assert url[p] == url[7..][p - 7];
        assert '/' in url[7..];
        assert |url| - |url[p..]| == p;
        assert '/' !in url[7..p] by {
          forall x | 0 <= x < p - 7 ensures url[7..p][x] != '/' {
            assert url[7..p][x] == url[7 + x];
          }
        }
    }
  }

  /** Lines 84-95: split off the method at the first tab and check it. */
  function ParseRequestLine(line: seq<char>, state: CheckState): (r: Result)
    ensures r.code == NoRequest || r.code == BadRequest
    ensures r.state == if r.code == NoRequest then CheckHeader else state
    ensures r.code == NoRequest ==> |r.url| > 0 && r.url[0] == '/'
    ensures r.code == NoRequest ==> r.methodEnd.Some? && r.urlEnd.Some?
    ensures r.methodEnd.Some? ==> r.methodEnd.value < |line| && line[r.methodEnd.value] == '\t'
    ensures r.urlEnd.Some? ==> r.methodEnd.Some? && r.methodEnd.value < r.urlEnd.value < |line|
                               && line[r.urlEnd.value] == '\t'
  {
    match Find(line, '\t', 0)
    case None => Result(BadRequest, state, [], None, None)
    case Some(t1) =>
      if !EqualsIgnoreCase(line[..t1], "GET") then Result(BadRequest, state, [], Some(t1), None)
      else ParseUrl(line, t1, state)
  }

  /** Lines 97-102: skip the tabs after the method and find the tab that ends the URL. */
  function ParseUrl(line: seq<char>, t1: nat, state: CheckState): (r: Result)
    requires t1 < |line| && line[t1] == '\t'
    ensures r.code == NoRequest || r.code == BadRequest
    ensures r.state == if r.code == NoRequest then CheckHeader else state
    ensures r.code == NoRequest ==> |r.url| > 0 && r.url[0] == '/' && r.urlEnd.Some?
    ensures r.methodEnd == Some(t1)
    ensures r.urlEnd.Some? ==> t1 < r.urlEnd.value < |line| && line[r.urlEnd.value] == '\t'
  {
    var u := Span(line, '\t', t1 + 1);
    match Find(line, '\t', u)
    case None => Result(BadRequest, state, [], Some(t1), None)
    case Some(t2) => ParseVersion(line, t1, u, t2, state)
  }

  /** Lines 103-123: skip the tabs after the URL, check the version, then the URL. */
  function ParseVersion(line: seq<char>, t1: nat, u: nat, t2: nat, state: CheckState): (r: Result)
    requires t1 < u <= t2 < |line| && line[t2] == '\t'
    ensures r.code == NoRequest || r.code == BadRequest
    ensures r.state == if r.code == NoRequest then CheckHeader else state
    ensures r.code == NoRequest ==> |r.url| > 0 && r.url[0] == '/'
    ensures r.methodEnd == Some(t1) && r.urlEnd == Some(t2)
  {
    var v := Span(line, '\t', t2 + 1);
    if !EqualsIgnoreCase(line[v..], "HTTP/1.1") then
      Result(BadRequest, state, [], Some(t1), Some(t2))
    else
      match Target(line[u..t2])
      case None => Result(BadRequest, state, [], Some(t1), Some(t2))
      case Some(path) => Result(NoRequest, CheckHeader, path, Some(t1), Some(t2))
  }

  /**
   * The grammar as a split of the line into five fields: the method
   * `line[..i]`, a run of tabs `line[i..j]`, the URL `line[j..k]` (no tab),
   * a run of tabs `line[k..l]` and the version `line[l..]`.
   */
  predicate Fields(line: seq<char>, i: nat, j: nat, k: nat, l: nat) {
    && i < j < k < l <= |line|
    && EqualsIgnoreCase(line[..i], "GET")
    && (forall x :: i <= x < j ==> line[x] == '\t')
    && (forall x :: j <= x < k ==> line[x] != '\t')
    && (forall x :: k <= x < l ==> line[x] == '\t')
    && EqualsIgnoreCase(line[l..], "HTTP/1.1")
  }

  /** A well-formed request line: the five fields exist and the URL passes the check. */
  ghost predicate WellFormed(line: seq<char>) {
    exists i: nat, j: nat, k: nat, l: nat :: Fields(line, i, j, k, l) && Target(line[j..k]).Some?
  }

  /** A text equal to `t` up to case holds a tab only where `t` does. */
  lemma {:induction false} NoTabWhereNoneExpected(s: seq<char>, t: seq<char>)
    requires EqualsIgnoreCase(s, t)
    requires forall x :: 0 <= x < |t| ==> ToLower(t[x]) != '\t'
    ensures forall x :: 0 <= x < |s| ==> s[x] != '\t'
  {
    forall x | 0 <= x < |s| ensures s[x] != '\t' {
      assert ToLower(s[x]) == ToLower(t[x]);
    }
  }

  lemma {:induction false} GetHasNoTab(s: seq<char>)
    requires EqualsIgnoreCase(s, "GET")
    ensures forall x :: 0 <= x < |s| ==> s[x] != '\t'
  {
    var t := "GET";
    forall x | 0 <= x < |t| ensures ToLower(t[x]) != '\t' {
      assert x == 0 || x == 1 || x == 2;
    }
    NoTabWhereNoneExpected(s, t);
  }

  lemma {:induction false} VersionStartsWithoutTab(s: seq<char>)
    requires EqualsIgnoreCase(s, "HTTP/1.1")
    ensures |s| == 8 && s[0] != '\t'
  {
    assert ToLower(s[0]) == ToLower("HTTP/1.1"[0]);
  }

  lemma {:induction false} MethodStage(line: seq<char>, state: CheckState)
    requires ParseRequestLine(line, state).code == NoRequest
    ensures Find(line, '\t', 0).Some?
    ensures var t1 := Find(line, '\t', 0).value;
      EqualsIgnoreCase(line[..t1], "GET") && ParseRequestLine(line, state) == ParseUrl(line, t1, state)
  {
  }

  lemma {:induction false} UrlStage(line: seq<char>, t1: nat, state: CheckState)
    requires t1 < |line| && line[t1] == '\t'
    requires ParseUrl(line, t1, state).code == NoRequest
    ensures var u := Span(line, '\t', t1 + 1);
      && Find(line, '\t', u).Some?
      && ParseUrl(line, t1, state) == ParseVersion(line, t1, u, Find(line, '\t', u).value, state)
  {
  }

  lemma {:induction false} VersionStage(line: seq<char>, t1: nat, u: nat, t2: nat, state: CheckState)
    requires t1 < u <= t2 < |line| && line[t2] == '\t'
    requires ParseVersion(line, t1, u, t2, state).code == NoRequest
    ensures EqualsIgnoreCase(line[Span(line, '\t', t2 + 1)..], "HTTP/1.1")
    ensures Target(line[u..t2]) == Some(ParseVersion(line, t1, u, t2, state).url)
  {
  }

  /** The tab at `t` and the tabs that `Span` skips after it form one run. */
  lemma {:induction false} TabRun(line: seq<char>, t: nat)
    requires t < |line| && line[t] == '\t'
    ensures forall x :: t <= x < Span(line, '\t', t + 1) ==> line[x] == '\t'
  {
    SpanRun(line, '\t', t + 1);
  }

  /** Accepted lines are well formed; the split is the one the C code finds. */
  lemma {:induction false} AcceptedHasFields(line: seq<char>, state: CheckState)
    requires ParseRequestLine(line, state).code == NoRequest
    ensures var r := ParseRequestLine(line, state);
      exists i: nat, j: nat, k: nat, l: nat ::
        Fields(line, i, j, k, l) && Target(line[j..k]) == Some(r.url)
  {
    var r := ParseRequestLine(line, state);
    MethodStage(line, state);
    var t1 := Find(line, '\t', 0).value;
    FindFirst(line, '\t', 0);
    var u := Span(line, '\t', t1 + 1);
    TabRun(line, t1);
    UrlStage(line, t1, state);
    var t2 := Find(line, '\t', u).value;
    FindFirst(line, '\t', u);
    VersionStage(line, t1, u, t2, state);
    var v := Span(line, '\t', t2 + 1);
    TabRun(line, t2);
    VersionStartsWithoutTab(line[v..]);
    assert Fields(line, t1, u, t2, v) && Target(line[u..t2]) == Some(r.url);
  }

  /** Every well-formed split is accepted, with the URL check's result as the URL. */
  lemma {:induction false} FieldsAccepted(line: seq<char>, state: CheckState, i: nat, j: nat, k: nat, l: nat)
    requires Fields(line, i, j, k, l) && Target(line[j..k]).Some?
    ensures ParseRequestLine(line, state)
         == Result(NoRequest, CheckHeader, Target(line[j..k]).value, Some(i), Some(k))
  {
    GetHasNoTab(line[..i]);
    forall x | 0 <= x < i ensures line[x] != '\t' {
      assert line[..i][x] == line[x];
    }
    FindIs(line, '\t', 0, i);
    SpanIs(line, '\t', i + 1, j);
    FindIs(line, '\t', j, k);
    VersionStartsWithoutTab(line[l..]);
    SpanIs(line, '\t', k + 1, l);
  }

  /** `parse_requestline` returns NO_REQUEST exactly on well-formed lines. */
  lemma {:induction false} AcceptsExactlyWellFormed(line: seq<char>, state: CheckState)
    ensures ParseRequestLine(line, state).code == NoRequest <==> WellFormed(line)
  {
    if ParseRequestLine(line, state).code == NoRequest {
      AcceptedHasFields(line, state);
    }
    if WellFormed(line) {
      var i: nat, j: nat, k: nat, l: nat :| Fields(line, i, j, k, l) && Target(line[j..k]).Some?;
      FieldsAccepted(line, state, i, j, k, l);
    }
  }

  /**
   * The interpreter accepts the line.  Its verdict does not depend on the
   * CHECK_STATE it is handed, which only comes back unchanged on rejection.
   */
  predicate Accepts(line: seq<char>) {
    forall st: CheckState :: ParseRequestLine(line, st).code == NoRequest
  }

  /** Acceptance in one state is acceptance in every state. */
  lemma {:induction false} AcceptsInAnyState(line: seq<char>, state: CheckState)
    ensures Accepts(line) <==> ParseRequestLine(line, state).code == NoRequest
  {
    forall st: CheckState
      ensures ParseRequestLine(line, st).code == NoRequest <==> WellFormed(line)
    {
      AcceptsExactlyWellFormed(line, st);
    }
  }

  /** With an absolute URL, the scheme and the host go and the path stays. */
  lemma {:induction false} TargetStripsScheme(scheme: seq<char>, host: seq<char>, path: seq<char>)
    requires EqualsIgnoreCase(scheme, "http://")
    requires forall x :: 0 <= x < |host| ==> host[x] != '/'
    requires |path| > 0 && path[0] == '/'
    ensures Target(scheme + host + path) == Some(path)
  {
    var url := scheme + host + path;
    assert url[..7] == scheme;
    forall x | 7 <= x < 7 + |host| ensures url[x] != '/' {
      assert url[x] == host[x - 7];
    }
    FindIs(url, '/', 7, 7 + |host|);
    assert url[7 + |host|..] == path;
  }

  /** A path URL is kept as it is. */
  lemma {:induction false} TargetKeepsPath(path: seq<char>)
    requires |path| > 0 && path[0] == '/'
    ensures Target(path) == Some(path)
  {
    if |path| >= 7 {
      assert ToLower(path[..7][0]) != ToLower("http://"[0]);
    }
  }

  /**
   * The common shape with single tabs, `m TAB url TAB v`, where neither the
   * method nor the URL holds a tab and the version does not start with one.
   */
  lemma {:induction false} SingleTabLine(m: seq<char>, url: seq<char>, v: seq<char>, state: CheckState)
    requires forall x :: 0 <= x < |m| ==> m[x] != '\t'
    requires |url| > 0 && forall x :: 0 <= x < |url| ==> url[x] != '\t'
    requires v == [] || v[0] != '\t'
    ensures var i, k := |m|, |m| + 1 + |url|;
      ParseRequestLine(m + "\t" + url + "\t" + v, state)
      == if !EqualsIgnoreCase(m, "GET") then Result(BadRequest, state, [], Some(i), None)
         else if !EqualsIgnoreCase(v, "HTTP/1.1") || Target(url).None? then
           Result(BadRequest, state, [], Some(i), Some(k))
         else Result(NoRequest, CheckHeader, Target(url).value, Some(i), Some(k))
  {
    var line := m + "\t" + url + "\t" + v;
    var i, k := |m|, |m| + 1 + |url|;
    forall x | 0 <= x < i ensures line[x] != '\t' {
      assert line[x] == m[x];
    }
    FindIs(line, '\t', 0, i);
    assert line[..i] == m;
    SpanIs(line, '\t', i + 1, i + 1);
    forall x | i + 1 <= x < k ensures line[x] != '\t' {
      assert line[x] == url[x - i - 1];
    }
    FindIs(line, '\t', i + 1, k);
    SpanIs(line, '\t', k + 1, k + 1);
    assert line[i + 1..k] == url;
    assert line[k + 1..] == v;
  }

  /**
   * An absolute URL on a GET line, with the method and the version in any
   * case: the request is accepted and the URL reduced to its path.
   */
  lemma {:induction false} AbsoluteUrlAccepted(m: seq<char>, scheme: seq<char>, host: seq<char>, path: seq<char>, v: seq<char>)
    requires EqualsIgnoreCase(m, "GET") && EqualsIgnoreCase(scheme, "http://") && EqualsIgnoreCase(v, "HTTP/1.1")
    requires '/' !in host && '\t' !in host
    requires |path| > 0 && path[0] == '/' && '\t' !in path
    ensures ParseRequestLine(m + "\t" + (scheme + host + path) + "\t" + v, CheckRequestLine)
         == Result(NoRequest, CheckHeader, path, Some(3), Some(11 + |host| + |path|))
  {
    var url := scheme + host + path;
    TargetStripsScheme(scheme, host, path);
    AbsoluteUrlHasNoTab(scheme, host, path);
    SingleTabAccepted(m, url, v);
  }

  /** `SingleTabLine` on a GET line with an HTTP/1.1 version and a URL that passes the check. */
  lemma {:induction false} SingleTabAccepted(m: seq<char>, url: seq<char>, v: seq<char>)
    requires EqualsIgnoreCase(m, "GET") && EqualsIgnoreCase(v, "HTTP/1.1")
    requires |url| > 0 && '\t' !in url && Target(url).Some?
    ensures ParseRequestLine(m + "\t" + url + "\t" + v, CheckRequestLine)
         == Result(NoRequest, CheckHeader, Target(url).value, Some(|m|), Some(|m| + 1 + |url|))
  {
    GetHasNoTab(m);
    VersionStartsWithoutTab(v);
    SingleTabLine(m, url, v, CheckRequestLine);
  }

  /** `http://` followed by tab-free parts holds no tab. */
  lemma {:induction false} AbsoluteUrlHasNoTab(scheme: seq<char>, host: seq<char>, path: seq<char>)
    requires EqualsIgnoreCase(scheme, "http://") && '\t' !in host && '\t' !in path
    ensures '\t' !in scheme + host + path
  {
    var url := scheme + host + path;
    forall x | 0 <= x < |url| ensures url[x] != '\t' {
      if x >= 7 + |host| {
        assert url[x] == path[x - 7 - |host|];
      } else if x >= 7 {
        assert url[x] == host[x - 7];
      } else {
        assert url[x] == scheme[x];
        assert ToLower(scheme[x]) == ToLower("http://"[x]);
      }
    }
  }

  lemma {:induction false} PostRejected()
    ensures ParseRequestLine("POST\t/\tHTTP/1.1", CheckRequestLine).code == BadRequest
  {
    assert "POST\t/\tHTTP/1.1" == "POST" + "\t" + "/" + "\t" + "HTTP/1.1";
    SingleTabLine("POST", "/", "HTTP/1.1", CheckRequestLine);
  }

  lemma {:induction false} Http10Rejected()
    ensures ParseRequestLine("GET\t/\tHTTP/1.0", CheckRequestLine).code == BadRequest
  {
    assert "GET\t/\tHTTP/1.0" == "GET" + "\t" + "/" + "\t" + "HTTP/1.0";
    SingleTabLine("GET", "/", "HTTP/1.0", CheckRequestLine);
    assert ToLower("HTTP/1.0"[7]) != ToLower("HTTP/1.1"[7]);
  }
}
