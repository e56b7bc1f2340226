/**
 * The line scanner `parse_line` (chap8/code/fsm/fsm.cpp:40-76) as a function.
 *
 * `b` is the received part of the buffer, `buffer[0 .. read_index)`, and `c`
 * the scan cursor `checked_index`.  The scanner looks for CR LF from `c` on;
 * on success it overwrites both terminator bytes with NUL and moves the
 * cursor past them.  It never reads or writes at or beyond `read_index`.
 */
module LineScanner {
  import opened Http

  /**
   * The scanner's report, its new cursor and the buffer after its NUL writes.
   * The buffer's type is a parameter, always `seq<char>` (see `Scan`): a field
   * of a sequence type would make the verifier relate every byte read from
   * the buffer to the rank of the result.
   */
  datatype ScanOf<Buffer> = Scan(status: LineStatus, checked: nat, buf: Buffer)
  type Scan = ScanOf<seq<char>>

  predicate IsBreak(ch: char) {
    ch == '\r' || ch == '\n'
  }

  /** No CR and no LF among `b[lo .. hi)`. */
  predicate NoBreak(b: seq<char>, lo: nat, hi: nat)
    requires hi <= |b|
  {
    forall k :: lo <= k < hi ==> !IsBreak(b[k])
  }

  function ScanLine(b: seq<char>, c: nat): (r: Scan)
    requires c <= |b|
    ensures c <= r.checked <= |b| && |r.buf| == |b|
    ensures r.status == LineOk ==> c < r.checked
    ensures r.status != LineOk ==> r.buf == b
    ensures r.status == LineOk ==> 2 <= r.checked && r.buf[r.checked - 2] == '\0' && r.buf[r.checked - 1] == '\0'
    decreases |b| - c
  {
    if c == |b| then Scan(LineOpen, c, b)
    else if b[c] == '\r' then
      if c + 1 == |b| then Scan(LineOpen, c, b)
      else if b[c + 1] == '\n' then Scan(LineOk, c + 2, b[c := '\0'][c + 1 := '\0'])
      else Scan(LineBad, c, b)
    else if b[c] == '\n' then
      if c > 1 && b[c - 1] == '\r' then Scan(LineOk, c + 1, b[c - 1 := '\0'][c := '\0'])
      else Scan(LineBad, c, b)
    else ScanLine(b, c + 1)
  }

  /** The scanner writes only inside the window from just before `c` up to its new cursor. */
  lemma {:induction false} ScanLineFrame(b: seq<char>, c: nat)
    requires c <= |b|
    ensures var r := ScanLine(b, c);
      forall k :: 0 <= k < |b| && (k + 1 < c || r.checked <= k) ==> r.buf[k] == b[k]
    decreases |b| - c
  {
    if c < |b| && !IsBreak(b[c]) {
      ScanLineFrame(b, c + 1);
    }
  }

  /**
   * A complete line: either the scan met CR LF at `i` after only ordinary bytes,
   * and both are now NUL with the cursor at `i + 2`; or the cursor itself sat on
   * an LF that follows a CR (and `c > 1`), and those two are now NUL with the
   * cursor one past the LF.  No other byte changes.
   */
  lemma {:induction false} ScanLineOk(b: seq<char>, c: nat)
    requires c <= |b| && ScanLine(b, c).status == LineOk
    ensures var r := ScanLine(b, c);
      || (var i := r.checked - 2;
          c <= i && NoBreak(b, c, i) && b[i] == '\r' && b[i + 1] == '\n'
          && r.buf == b[i := '\0'][i + 1 := '\0'])
      || (r.checked == c + 1 && c > 1 && b[c] == '\n' && b[c - 1] == '\r'
          && r.buf == b[c - 1 := '\0'][c := '\0'])
    decreases |b| - c
  {
    if c < |b| && !IsBreak(b[c]) {
      ScanLineOk(b, c + 1);
    }
  }

  /**
   * An incomplete line leaves the buffer alone: either every byte from `c` to
   * the end was ordinary, or the last received byte is a CR that the cursor
   * stays on, so that the next call looks at it again.
   */
  lemma {:induction false} ScanLineOpen(b: seq<char>, c: nat)
    requires c <= |b| && ScanLine(b, c).status == LineOpen
    ensures var r := ScanLine(b, c);
      && r.buf == b && NoBreak(b, c, r.checked)
      && (r.checked == |b| || (r.checked + 1 == |b| && b[r.checked] == '\r'))
    decreases |b| - c
  {
    if c < |b| && !IsBreak(b[c]) {
      ScanLineOpen(b, c + 1);
    }
  }

  /**
   * A malformed line: the cursor stops on the first CR or LF, which is either a
   * CR followed by a byte other than LF, or an LF that is not preceded by a CR
   * at an index above 0 (the test is `checked_index > 1`, so position 1 counts
   * as "not preceded").  The buffer is unchanged.
   */
  lemma {:induction false} ScanLineBad(b: seq<char>, c: nat)
    requires c <= |b| && ScanLine(b, c).status == LineBad
    ensures var r := ScanLine(b, c);
      && r.buf == b && r.checked < |b| && NoBreak(b, c, r.checked)
      && (|| (b[r.checked] == '\r' && r.checked + 1 < |b| && b[r.checked + 1] != '\n')
          || (b[r.checked] == '\n' && !(r.checked > 1 && b[r.checked - 1] == '\r')))
    decreases |b| - c
  {
    if c < |b| && !IsBreak(b[c]) {
      ScanLineBad(b, c + 1);
    }
  }

  /** Conversely, ordinary bytes up to a CR LF at `i` make a complete line ending there. */
  lemma {:induction false} ScanLineCompletes(b: seq<char>, c: nat, i: nat)
    requires c <= i && i + 1 < |b| && NoBreak(b, c, i) && b[i] == '\r' && b[i + 1] == '\n'
    ensures ScanLine(b, c) == Scan(LineOk, i + 2, b[i := '\0'][i + 1 := '\0'])
    decreases i - c
  {
    if c < i {
      ScanLineCompletes(b, c + 1, i);
    }
  }

  /** Conversely, ordinary bytes up to an LF at `i` that does not follow a CR make a malformed line. */
  lemma {:induction false} ScanLineBareLf(b: seq<char>, c: nat, i: nat)
    requires c <= i < |b| && NoBreak(b, c, i) && b[i] == '\n' && !(i > 1 && b[i - 1] == '\r')
    ensures ScanLine(b, c) == Scan(LineBad, i, b)
    decreases i - c
  {
    if c < i {
      ScanLineBareLf(b, c + 1, i);
    }
  }

  /** Conversely, ordinary bytes up to the end make an incomplete line. */
  lemma {:induction false} ScanLineNoBreak(b: seq<char>, c: nat)
    requires c <= |b| && NoBreak(b, c, |b|)
    ensures ScanLine(b, c) == Scan(LineOpen, |b|, b)
    decreases |b| - c
  {
    if c < |b| {
      ScanLineNoBreak(b, c + 1);
    }
  }

  /** Scanning again from where an incomplete scan stopped reports the same thing. */
  lemma {:induction false} ScanLineOpenIdle(b: seq<char>, c: nat)
    requires c <= |b| && ScanLine(b, c).status == LineOpen
    ensures ScanLine(b, ScanLine(b, c).checked) == ScanLine(b, c)
  {
    ScanLineOpen(b, c);
  }

  lemma {:induction false} UpdateThenAppend(b: seq<char>, e: seq<char>, k: nat, x: char)
    requires k < |b|
    ensures (b + e)[k := x] == b[k := x] + e
  {
  }

  /**
   * More bytes after the received ones do not change a complete or malformed
   * line, and an incomplete scan resumes from its saved cursor: scanning the
   * longer buffer from `c` equals scanning it from where the short scan stopped.
   */
  lemma {:induction false} ScanLineExtend(b: seq<char>, e: seq<char>, c: nat)
    requires c <= |b|
    ensures var r := ScanLine(b, c);
      if r.status == LineOpen then ScanLine(b + e, c) == ScanLine(b + e, r.checked)
      else ScanLine(b + e, c) == Scan(r.status, r.checked, r.buf + e)
    decreases |b| - c
  {
    if c < |b| {
      assert (b + e)[c] == b[c];
      if b[c] == '\r' {
        if c + 1 < |b| {
          assert (b + e)[c + 1] == b[c + 1];
          if b[c + 1] == '\n' {
            UpdateThenAppend(b, e, c, '\0');
            UpdateThenAppend(b[c := '\0'], e, c + 1, '\0');
          }
        }
      } else if b[c] == '\n' {
        if c > 1 && b[c - 1] == '\r' {
          assert (b + e)[c - 1] == b[c - 1];
          UpdateThenAppend(b, e, c - 1, '\0');
          UpdateThenAppend(b[c - 1 := '\0'], e, c, '\0');
        } else if c > 1 {
          assert (b + e)[c - 1] == b[c - 1];
        }
      } else {
        ScanLineExtend(b, e, c + 1);
      }
    }
  }

  /** Line 63 tests `checked_index > 1`: an LF at index 1 after a CR at index 0 is malformed. */
  lemma {:induction false} LfAtIndexOneIsBad()
    ensures ScanLine("\r\n", 1) == Scan(LineBad, 1, "\r\n")
  {
  }

  /** From index 2 on, a cursor resting on the LF of a CR LF completes the line. */
  lemma {:induction false} LfAtIndexTwoCompletes()
    ensures ScanLine("a\r\n", 2) == Scan(LineOk, 3, "a\0\0")
  {
    assert "a\r\n"[1 := '\0'][2 := '\0'] == "a\0\0";
  }
}
