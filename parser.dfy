/**
 * The parser's state as the program keeps it: the fixed 4096-byte buffer and
 * the cursors `read_index`, `checked_index` and `start_line` with the
 * CHECK_STATE (chap8/code/fsm/fsm.cpp:219-226), updated in place by
 * `parse_line` and `parse_content`.  Each method is proved to do what the
 * corresponding function of `LineScanner` or `Content` says on the received
 * bytes `buffer[..readIndex]`, and never to touch the bytes after them.
 */
module Parser {
  import opened Http
  import opened CStrings
  import opened LineScanner
  import opened RequestLine
  import opened Headers
  import opened Content
  import Connection

  /** `BUFFER_SIZE` (line 17). */
  const BufferSize: nat := 4096

  class RequestParser {
    const buffer: array<char>
    var readIndex: nat
    var checkedIndex: nat
    var startLine: nat
    var state: CheckState

    /** The cursor ordering the program keeps: `start_line <= checked_index <= read_index <= BUFFER_SIZE`. */
    ghost predicate Valid()
      reads this
    {
      buffer.Length == BufferSize && startLine <= checkedIndex <= readIndex <= buffer.Length
    }

    /** The bytes received so far, as the parser has left them. */
    function Received(): seq<char>
      reads this, buffer
      requires readIndex <= buffer.Length
    {
      buffer[..readIndex]
    }

    /** Lines 219-226: a zero-filled buffer, all cursors at 0, expecting the request line. */
    constructor()
      ensures Valid() && fresh(buffer)
      ensures buffer[..] == seq(BufferSize, _ => '\0')
      ensures readIndex == 0 && checkedIndex == 0 && startLine == 0 && state == CheckRequestLine
      ensures Parsed(NoRequest, Received(), checkedIndex, startLine, state) == Connection.Fresh
    {
      buffer := new char[BufferSize](_ => '\0');
      readIndex, checkedIndex, startLine := 0, 0, 0;
      state := CheckRequestLine;
    }

    /**
     * What `recv(fd, buffer + read_index, BUFFER_SIZE - read_index, 0)` and
     * `read_index += data_read` do to the state (lines 228, 237): `recv` is
     * never given more room than the buffer has left.
     */
    method Receive(data: seq<char>)
      requires Valid() && readIndex + |data| <= BufferSize
      modifies this`readIndex, buffer
      ensures Valid() && readIndex == old(readIndex) + |data|
      ensures Received() == old(Received()) + data
      ensures buffer[readIndex..] == old(buffer[..])[readIndex..]
    {
      forall i | 0 <= i < |data| {
        buffer[readIndex + i] := data[i];
      }
      readIndex := readIndex + |data|;
    }

    /** The scanner's two NUL writes over a CR LF at `j` (lines 53-54 and 65-66). */
    method Terminate(j: nat)
      requires Valid() && j + 1 < readIndex
      modifies buffer
      ensures Received() == old(Received())[j := '\0'][j + 1 := '\0']
      ensures buffer[readIndex..] == old(buffer[readIndex..])
    {
      buffer[j] := '\0';
      buffer[j + 1] := '\0';
    }

    /** `parse_line` (lines 40-76). */
    method ParseLine() returns (status: LineStatus)
      requires Valid()
      modifies this`checkedIndex, buffer
      ensures Valid()
      ensures Scan(status, checkedIndex, Received()) == ScanLine(old(Received()), old(checkedIndex))
      ensures status == LineOk ==> old(checkedIndex) < checkedIndex && Received()[checkedIndex - 1] == '\0'
      ensures buffer[readIndex..] == old(buffer[readIndex..])
    {
      ghost var b, c0 := Received(), checkedIndex;
      while checkedIndex < readIndex
        invariant c0 <= checkedIndex <= readIndex
        invariant unchanged(buffer) && Received() == b
        invariant ScanLine(b, checkedIndex) == ScanLine(b, c0)
        decreases readIndex - checkedIndex
      {
        var temp := buffer[checkedIndex];
        if temp == '\r' {
          if checkedIndex + 1 == readIndex {
            return LineOpen;
          } else if buffer[checkedIndex + 1] == '\n' {
            Terminate(checkedIndex);
            checkedIndex := checkedIndex + 2;
            return LineOk;
          } else {
            return LineBad;
          }
        } else if temp == '\n' {
          if checkedIndex > 1 && buffer[checkedIndex - 1] == '\r' {
            Terminate(checkedIndex - 1);
            checkedIndex := checkedIndex + 1;
            return LineOk;
          } else {
            return LineBad;
          }
        }
        checkedIndex := checkedIndex + 1;
      }
      return LineOpen;
    }

    /**
     * One pass of the loop body of `parse_content` (lines 154-165): the line
     * starting at `start_line`, up to its NUL, goes to the interpreter for the
     * current state, and the next line starts at the cursor.  A request line's
     * two NUL writes (lines 88, 102) land in the buffer.
     */
    method InterpretLine() returns (retcode: HttpCode)
      requires Valid() && startLine < checkedIndex && Received()[checkedIndex - 1] == '\0'
      modifies this`startLine, this`state, buffer
      ensures Valid()
      ensures Parsed(retcode, Received(), checkedIndex, startLine, state)
           == Step(old(Received()), checkedIndex, old(startLine), old(state))
      ensures buffer[readIndex..] == old(buffer[readIndex..])
    {
      ghost var b := Received();
      var temp := startLine;
      startLine := checkedIndex;
      var line := CString(buffer[..readIndex], temp);
      match state
      case CheckRequestLine =>
        var rl := ParseRequestLine(line, state);
        RequestLineCutsInside(b, temp, checkedIndex - 1, state);
        if rl.methodEnd.Some? {
          buffer[temp + rl.methodEnd.value] := '\0';
        }
        assert buffer[..readIndex] == Cut(b, temp, rl.methodEnd);
        if rl.urlEnd.Some? {
          buffer[temp + rl.urlEnd.value] := '\0';
        }
        assert buffer[..readIndex] == Cut(Cut(b, temp, rl.methodEnd), temp, rl.urlEnd);
        state := rl.state;
        retcode := rl.code;
      case CheckHeader =>
        retcode := ParseHeaders(line).code;
    }

    /**
     * `parse_content` (lines 144-184).  The interpreters return only
     * NO_REQUEST, GET_REQUEST and BAD_REQUEST; every result other than
     * NO_REQUEST ends the loop at once, as lines 160-171 do.
     */
    method ParseContent() returns (code: HttpCode)
      requires Valid()
      modifies this`checkedIndex, this`startLine, this`state, buffer
      ensures Valid()
      ensures Parsed(code, Received(), checkedIndex, startLine, state)
           == Drive(old(Received()), old(checkedIndex), old(startLine), old(state))
      ensures buffer[readIndex..] == old(buffer[readIndex..])
    {
      ghost var b, c := Received(), checkedIndex;
      ghost var goal := Drive(b, c, startLine, state);
      var status := ParseLine();
      while status == LineOk
        invariant Valid() && buffer[readIndex..] == old(buffer[readIndex..])
        invariant startLine <= c <= |b| == readIndex
        invariant Scan(status, checkedIndex, Received()) == ScanLine(b, c)
        invariant status == LineOk ==> c < checkedIndex && Received()[checkedIndex - 1] == '\0'
        invariant Drive(b, c, startLine, state) == goal
        decreases readIndex - c
      {
        ghost var s, st, b1 := startLine, state, Received();
        var retcode := InterpretLine();
        DriveContinues(b, c, s, st);
        if retcode != NoRequest {
          return retcode;
        }
        b, c := Received(), checkedIndex;
        status := ParseLine();
      }
      DriveStops(b, c, startLine, state);
      if status == LineOpen {
        code := NoRequest;
      } else {
        code := BadRequest;
      }
    }

    /** Lines 228-238 for one chunk: append what `recv` returned and run the parser. */
    method Feed(data: seq<char>) returns (code: HttpCode)
      requires Valid() && readIndex + |data| <= BufferSize
      modifies this`readIndex, this`checkedIndex, this`startLine, this`state, buffer
      ensures Valid() && readIndex == old(readIndex) + |data|
      ensures Parsed(code, Received(), checkedIndex, startLine, state)
           == Drive(old(Received()) + data, old(checkedIndex), old(startLine), old(state))
    {
      Receive(data);
      code := ParseContent();
    }
  }
}
