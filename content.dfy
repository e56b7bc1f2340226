/**
 * The grammar driver `parse_content` (chap8/code/fsm/fsm.cpp:144-184) as a
 * function.
 *
 * `b` is the received part of the buffer, `c` the scan cursor
 * `checked_index`, `s` the start of the current line `start_line` and `st`
 * the CHECK_STATE.  Each complete line -- the NUL-terminated text at `s` once
 * the scanner has overwritten its CR LF -- goes to the request-line or the
 * header interpreter; the request-line interpreter's two NUL writes are
 * applied to the buffer.  The loop stops at the first incomplete line
 * (NO_REQUEST), the first malformed one (BAD_REQUEST), a rejected request
 * line (BAD_REQUEST) or the empty header line (GET_REQUEST).
 */
module Content {
  import opened Wrappers
  import opened CStrings
  import opened Http
  import opened LineScanner
  import RequestLine
  import Headers

  /**
   * The result code together with the whole new parser state; the buffer's
   * type is a parameter, always `seq<char>` (see `Parsed`), for the reason
   * given at `LineScanner.ScanOf`.
   */
  datatype ParsedOf<Buffer> = Parsed(code: HttpCode, buf: Buffer, checked: nat, start: nat, state: CheckState)
  type Parsed = ParsedOf<seq<char>>

  /** The write `*p = '\0'` at offset `at` of the line that starts at `s`, when it happens. */
  function Cut(b: seq<char>, s: nat, at: Option<nat>): (r: seq<char>)
    requires at.Some? ==> s + at.value < |b|
    ensures |r| == |b|
    ensures at.Some? ==> r[s + at.value] == '\0'
  {
    if at.Some? then b[s + at.value := '\0'] else b
  }

  /** `Cut` changes no byte but the one it writes; without a write it changes nothing. */
  lemma {:induction false} CutOnly(b: seq<char>, s: nat, at: Option<nat>)
    requires at.Some? ==> s + at.value < |b|
    ensures forall k :: 0 <= k < |b| && (at.None? || k != s + at.value) ==> Cut(b, s, at)[k] == b[k]
    ensures at.None? ==> Cut(b, s, at) == b
  {
  }

  /** A request line cuts itself only inside its own text, which ends before the NUL at `z`. */
  lemma {:induction false} RequestLineCutsInside(b: seq<char>, s: nat, z: nat, st: CheckState)
    requires s <= z < |b| && b[z] == '\0'
    ensures var rl := RequestLine.ParseRequestLine(CString(b, s), st);
      && (rl.methodEnd.Some? ==> s + rl.methodEnd.value < z)
      && (rl.urlEnd.Some? ==> s + rl.urlEnd.value < z)
  {
    CStringStopsAtNul(b, s, z);
  }

  /**
   * One pass of the loop body (lines 154-176) over the complete line that
   * starts at `s`, the scanner having left the cursor at `checked` with a NUL
   * just before it.  NO_REQUEST means "go on scanning"; the next line starts
   * at `checked`.
   */
  function Step(b: seq<char>, checked: nat, s: nat, st: CheckState): (r: Parsed)
    requires s < checked <= |b| && b[checked - 1] == '\0'
    ensures r.code == NoRequest || r.code == GetRequest || r.code == BadRequest
    ensures r.checked == checked && r.start == checked && |r.buf| == |b|
    ensures r.code == GetRequest ==> st == CheckHeader
    ensures st == CheckHeader ==> r.buf == b
    ensures r.buf[checked - 1] == '\0'
    ensures r.state == if st == CheckRequestLine && r.code == NoRequest then CheckHeader else st
  {
    var line := CString(b, s);
    match st
    case CheckRequestLine =>
      var rl := RequestLine.ParseRequestLine(line, st);
      RequestLineCutsInside(b, s, checked - 1, st);
      Parsed(rl.code, Cut(Cut(b, s, rl.methodEnd), s, rl.urlEnd), checked, checked, rl.state)
    case CheckHeader =>
      Parsed(Headers.ParseHeaders(line).code, b, checked, checked, st)
  }

  /**
   * The loop of lines 153-183 from scan cursor `c`, line start `s` and state
   * `st`: the code it returns and the state it leaves behind.  A GET_REQUEST
   * is only ever produced right after a complete header line.
   */
  function Drive(b: seq<char>, c: nat, s: nat, st: CheckState): (r: Parsed)
    requires s <= c <= |b|
    ensures r.code == NoRequest || r.code == GetRequest || r.code == BadRequest
    ensures s <= r.start <= r.checked <= |b| && c <= r.checked
    ensures |r.buf| == |b|
    ensures r.code == GetRequest ==> r.state == CheckHeader && r.start == r.checked && c < r.checked
    ensures st == CheckHeader ==> r.state == CheckHeader
    decreases |b| - c
  {
    var sc := ScanLine(b, c);
    match sc.status
    case LineOpen => Parsed(NoRequest, sc.buf, sc.checked, s, st)
    case LineBad => Parsed(BadRequest, sc.buf, sc.checked, s, st)
    case LineOk =>
      var t := Step(sc.buf, sc.checked, s, st);
      if t.code == NoRequest then Drive(t.buf, t.checked, t.start, t.state) else t
  }

  /** One turn of the loop after a complete line, as a rewriting step for the proofs below. */
  lemma {:induction false} DriveContinues(b: seq<char>, c: nat, s: nat, st: CheckState)
    requires s <= c <= |b| && ScanLine(b, c).status == LineOk
    ensures var sc := ScanLine(b, c);
      var t := Step(sc.buf, sc.checked, s, st);
      Drive(b, c, s, st) == if t.code == NoRequest then Drive(t.buf, t.checked, t.start, t.state) else t
  {
  }

  /** Without a complete line the loop stops at once, with the scanner's verdict and cursor. */
  lemma {:induction false} DriveStops(b: seq<char>, c: nat, s: nat, st: CheckState)
    requires s <= c <= |b| && ScanLine(b, c).status != LineOk
    ensures var sc := ScanLine(b, c);
      Drive(b, c, s, st) == Parsed(if sc.status == LineOpen then NoRequest else BadRequest, b, sc.checked, s, st)
  {
  }

  /** The request-line writes commute with appending bytes after the buffer. */
  lemma {:induction false} CutThenAppend(b: seq<char>, e: seq<char>, s: nat, at: Option<nat>)
    requires at.Some? ==> s + at.value < |b|
    ensures Cut(b + e, s, at) == Cut(b, s, at) + e
  {
    if at.Some? {
      UpdateThenAppend(b, e, s + at.value, '\0');
    }
  }

  /** A line that is complete in `b` is interpreted the same way in `b + e`. */
  lemma {:induction false} StepExtend(b: seq<char>, e: seq<char>, checked: nat, s: nat, st: CheckState)
    requires s < checked <= |b| && b[checked - 1] == '\0'
    ensures var t := Step(b, checked, s, st);
      Step(b + e, checked, s, st) == Parsed(t.code, t.buf + e, t.checked, t.start, t.state)
  {
    CStringExtend(b, e, s, checked - 1);
    var rl := RequestLine.ParseRequestLine(CString(b, s), st);
    RequestLineCutsInside(b, s, checked - 1, st);
    CutThenAppend(b, e, s, rl.methodEnd);
    CutThenAppend(Cut(b, s, rl.methodEnd), e, s, rl.urlEnd);
  }

  /**
   * Bytes received later do not change what has been decided: a BAD_REQUEST
   * or GET_REQUEST stays as it is (the new bytes are not looked at), and a
   * NO_REQUEST resumes from the saved cursors, so that driving the longer
   * buffer once equals driving the saved state over it.
   */
  lemma {:induction false} DriveExtend(b: seq<char>, e: seq<char>, c: nat, s: nat, st: CheckState)
    requires s <= c <= |b|
    ensures var r := Drive(b, c, s, st);
      if r.code == NoRequest then Drive(b + e, c, s, st) == Drive(r.buf + e, r.checked, r.start, r.state)
      else Drive(b + e, c, s, st) == Parsed(r.code, r.buf + e, r.checked, r.start, r.state)
    decreases |b| - c, 1
  {
    var sc := ScanLine(b, c);
    ScanLineExtend(b, e, c);
    if sc.status == LineOk {
      DriveExtendLine(b, e, c, s, st);
    } else {
      DriveStops(b, c, s, st);
      if sc.status == LineBad {
        DriveStops(b + e, c, s, st);
      }
    }
  }

  /** `DriveExtend` when the first scan completes a line. */
  lemma {:induction false} DriveExtendLine(b: seq<char>, e: seq<char>, c: nat, s: nat, st: CheckState)
    requires s <= c <= |b| && ScanLine(b, c).status == LineOk
    ensures var r := Drive(b, c, s, st);
      if r.code == NoRequest then Drive(b + e, c, s, st) == Drive(r.buf + e, r.checked, r.start, r.state)
      else Drive(b + e, c, s, st) == Parsed(r.code, r.buf + e, r.checked, r.start, r.state)
    decreases |b| - c, 0
  {
    var sc := ScanLine(b, c);
    ScanLineExtend(b, e, c);
    CStringExtend(sc.buf, e, s, sc.checked - 1);
    StepExtend(sc.buf, e, sc.checked, s, st);
    DriveContinues(b, c, s, st);
    DriveContinues(b + e, c, s, st);
    var t := Step(sc.buf, sc.checked, s, st);
    if t.code == NoRequest {
      DriveExtend(t.buf, e, t.checked, t.start, t.state);
    }
  }

  /** A NO_REQUEST run ends at an incomplete line: scanning again from the final cursor finds it still open. */
  lemma {:induction false} DriveEndsOpen(b: seq<char>, c: nat, s: nat, st: CheckState)
    requires s <= c <= |b| && Drive(b, c, s, st).code == NoRequest
    ensures var r := Drive(b, c, s, st);
      ScanLine(r.buf, r.checked) == Scan(LineOpen, r.checked, r.buf)
    decreases |b| - c
  {
    var sc := ScanLine(b, c);
    if sc.status == LineOk {
      var t := Step(sc.buf, sc.checked, s, st);
      DriveContinues(b, c, s, st);
      if t.code == NoRequest {
        DriveEndsOpen(t.buf, t.checked, t.start, t.state);
      }
    } else {
      DriveStops(b, c, s, st);
      ScanLineOpenIdle(b, c);
    }
  }

  /** A NO_REQUEST state is at rest: driving it again changes nothing. */
  lemma {:induction false} DriveIdle(b: seq<char>, c: nat, s: nat, st: CheckState)
    requires s <= c <= |b| && Drive(b, c, s, st).code == NoRequest
    ensures var r := Drive(b, c, s, st);
      ScanLine(r.buf, r.checked) == Scan(LineOpen, r.checked, r.buf)
      && Drive(r.buf, r.checked, r.start, r.state) == r
  {
    var r := Drive(b, c, s, st);
    DriveEndsOpen(b, c, s, st);
    DriveStops(r.buf, r.checked, r.start, r.state);
  }

  /**
   * How the loop ended with BAD_REQUEST: at a malformed line, which scanning
   * again reports as such, or right after a rejected request line.
   */
  lemma {:induction false} DriveBadOutcome(b: seq<char>, c: nat, s: nat, st: CheckState)
    requires s <= c <= |b| && Drive(b, c, s, st).code == BadRequest
    ensures var r := Drive(b, c, s, st);
      || ScanLine(r.buf, r.checked) == Scan(LineBad, r.checked, r.buf)
      || (r.state == CheckRequestLine && r.start == r.checked && c < r.checked)
    decreases |b| - c
  {
    var sc := ScanLine(b, c);
    if sc.status == LineOk {
      DriveContinues(b, c, s, st);
      var t := Step(sc.buf, sc.checked, s, st);
      if t.code == NoRequest {
        DriveBadOutcome(t.buf, t.checked, t.start, t.state);
      }
    } else {
      DriveStops(b, c, s, st);
      ScanLineBad(b, c);
      assert ScanLine(b, sc.checked) == sc;
    }
  }

  /** A line's interpretation writes only inside that line. */
  lemma {:induction false} StepFrame(b: seq<char>, checked: nat, s: nat, st: CheckState)
    requires s < checked <= |b| && b[checked - 1] == '\0'
    ensures var r := Step(b, checked, s, st);
      forall k :: 0 <= k < |b| && (k < s || checked - 1 <= k) ==> r.buf[k] == b[k]
  {
    RequestLineCutsInside(b, s, checked - 1, st);
  }

  /**
   * The driver writes only from just before the line it started in up to its
   * final cursor: the bytes in front of earlier lines and the bytes it has not
   * yet scanned are left alone.
   */
  lemma {:induction false} DriveFrame(b: seq<char>, c: nat, s: nat, st: CheckState)
    requires s <= c <= |b|
    ensures var r := Drive(b, c, s, st);
      forall k :: 0 <= k < |b| && (k + 1 < s || r.checked <= k) ==> r.buf[k] == b[k]
    decreases |b| - c
  {
    var sc := ScanLine(b, c);
    ScanLineFrame(b, c);
    if sc.status == LineOk {
      var t := Step(sc.buf, sc.checked, s, st);
      StepFrame(sc.buf, sc.checked, s, st);
      if t.code == NoRequest {
        DriveFrame(t.buf, t.checked, t.start, t.state);
      }
    }
  }
}
