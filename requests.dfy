/**
 * What the driver of chap8/code/fsm/fsm.cpp:144-184 decides on whole
 * requests: a request line, header lines and the empty line, each ended by
 * CR LF.  These lemmas run the driver over the shape of the input rather than
 * over a particular text.
 *
 * Each interpreter sees the C string at the start of its line, which ends at
 * the first NUL: a line may hold NULs, and only the bytes in front of the
 * first one count.  The empty line the header interpreter waits for is
 * therefore any line whose first byte is NUL, or that has no bytes at all.
 */
module Requests {
  import opened Wrappers
  import opened CStrings
  import opened Http
  import opened LineScanner
  import opened RequestLine
  import opened Headers
  import opened Content
  import opened Connection

  /** The text of one line: no CR, no LF, and no NUL (the C string would end there). */
  predicate IsLine(l: seq<char>) {
    forall x :: 0 <= x < |l| ==> l[x] != '\r' && l[x] != '\n' && l[x] != '\0'
  }

  /** The bytes of a line in front of its CR LF: no CR and no LF, NULs allowed. */
  predicate LineText(l: seq<char>) {
    NoBreak(l, 0, |l|)
  }

  /** What an interpreter sees of a line: the C string of its bytes, cut at the terminator's NUL. */
  function Seen(l: seq<char>): seq<char> {
    CString(l + "\0", 0)
  }

  /** A line the header interpreter sees as a header: it starts with a byte other than NUL. */
  predicate HeaderText(h: seq<char>) {
    LineText(h) && h != [] && h[0] != '\0'
  }

  /** A line the header interpreter sees as the empty line. */
  predicate BlankText(e: seq<char>) {
    LineText(e) && (e == [] || e[0] == '\0')
  }

  /** Header lines, each ended by CR LF. */
  function Lines(hs: seq<seq<char>>): (r: seq<char>)
    ensures hs == [] ==> r == []
    ensures hs != [] ==> r == hs[0] + "\r\n" + Lines(hs[1..])
  {
    if hs == [] then [] else hs[0] + "\r\n" + Lines(hs[1..])
  }

  predicate HeaderLines(hs: seq<seq<char>>) {
    forall x :: 0 <= x < |hs| ==> HeaderText(hs[x])
  }

  /**
   * A complete request followed by `rest`: a request line whose C string the
   * request-line interpreter accepts, header lines, and a line that the header
   * interpreter sees as empty, each ended by CR LF.
   */
  predicate RequestShape(b: seq<char>, l: seq<char>, hs: seq<seq<char>>, e: seq<char>, rest: seq<char>) {
    && LineText(l) && Accepts(Seen(l))
    && HeaderLines(hs) && BlankText(e)
    && b == l + "\r\n" + Lines(hs) + e + "\r\n" + rest
  }

  /** The received bytes start with a complete request. */
  ghost predicate CompleteRequest(b: seq<char>) {
    exists l, hs, e, rest :: RequestShape(b, l, hs, e, rest)
  }

  /** `p` is what the buffer holds from offset `c` on, byte by byte. */
  predicate HasAt(b: seq<char>, c: nat, p: seq<char>)
    ensures HasAt(b, c, p) ==> c + |p| <= |b|
    decreases |p|
  {
    if p == [] then c <= |b| else c < |b| && b[c] == p[0] && HasAt(b, c + 1, p[1..])
  }

  /** `HasAt` is the slice of the buffer at `c` being `p`. */
  lemma {:induction false} HasAtSlice(b: seq<char>, c: nat, p: seq<char>)
    ensures HasAt(b, c, p) <==> c + |p| <= |b| && b[c..c + |p|] == p
    decreases |p|
  {
    if p != [] {
      HasAtSlice(b, c + 1, p[1..]);
      if c + |p| <= |b| {
        assert b[c..c + |p|] == [b[c]] + b[c + 1..c + 1 + |p[1..]|];
        assert p == [p[0]] + p[1..];
      }
    }
  }

  /** The interpreter sees nothing of a line exactly when it is empty or starts with NUL. */
  lemma {:induction false} SeenEmpty(l: seq<char>)
    ensures Seen(l) == [] <==> (l == [] || l[0] == '\0')
  {
    assert (l + "\0")[0] == if l == [] then '\0' else l[0];
  }

  /** A line without NUL is seen whole. */
  lemma {:induction false} SeenWhole(l: seq<char>)
    requires IsLine(l)
    ensures LineText(l) && Seen(l) == l
  {
    var p := l + "\0";
    forall k | 0 <= k < |l| ensures p[k] != '\0' {
      assert p[k] == l[k];
    }
    CStringIs(p, 0, |l|);
    assert p[0..|l|] == l;
  }

  /**
   * A line and its CR LF at offset `c`: the scanner completes it, and the C
   * string at `c` is what the interpreter sees of the line.
   */
  lemma {:induction false} LineAt(b: seq<char>, c: nat, l: seq<char>)
    requires LineText(l) && HasAt(b, c, l + "\r\n")
    ensures var i := c + |l|;
      && ScanLine(b, c) == Scan(LineOk, i + 2, b[i := '\0'][i + 1 := '\0'])
      && CString(b[i := '\0'][i + 1 := '\0'], c) == Seen(l)
  {
    HasAtSlice(b, c, l + "\r\n");
    var i := c + |l|;
    var w := b[c..i + 2];
    assert w == l + "\r\n";
    forall x | c <= x < i ensures !IsBreak(b[x]) {
      assert b[x] == w[x - c];
      assert w[x - c] == l[x - c];
    }
    assert NoBreak(b, c, i);
    assert b[i] == w[|l|] == '\r';
    assert b[i + 1] == w[|l| + 1] == '\n';
    ScanLineCompletes(b, c, i);
    var b1 := b[i := '\0'][i + 1 := '\0'];
    var p := l + "\0";
    forall x | 0 <= x <= |l| ensures b1[c + x] == p[x] {
      if x < |l| {
        assert b[c + x] == w[x];
      }
    }
    assert b1[c..i + 1] == p;
    SeenAt(b1, c, l);
  }

  /** Where the buffer holds the line and a NUL at `c`, the C string at `c` is what the interpreter sees of the line. */
  lemma {:induction false} SeenAt(b: seq<char>, c: nat, l: seq<char>)
    requires c + |l| < |b| && b[c..c + |l| + 1] == l + "\0"
    ensures CString(b, c) == Seen(l)
  {
    var p := l + "\0";
    var n := |Seen(l)|;
    CStringStopsAtNul(p, 0, |l|);
    forall k | c <= k < c + n ensures b[k] != '\0' {
      assert b[k] == p[k - c] == Seen(l)[k - c];
    }
    assert b[c + n] == p[n];
    CStringIs(b, c, n);
    assert b[c..c + n] == p[0..n];
  }

  /** A split of what the buffer holds at `c` into two consecutive parts. */
  lemma {:induction false} HasAtSplit(b: seq<char>, c: nat, p: seq<char>, q: seq<char>)
    requires HasAt(b, c, p + q)
    ensures HasAt(b, c, p) && HasAt(b, c + |p|, q)
    decreases |p|
  {
    if p == [] {
      assert p + q == q;
    } else {
      assert (p + q)[0] == p[0] && (p + q)[1..] == p[1..] + q;
      HasAtSplit(b, c + 1, p[1..], q);
    }
  }

  /** Two consecutive parts of what the buffer holds at `c` join up. */
  lemma {:induction false} HasAtJoin(b: seq<char>, c: nat, p: seq<char>, q: seq<char>)
    requires HasAt(b, c, p) && HasAt(b, c + |p|, q)
    ensures HasAt(b, c, p + q)
    decreases |p|
  {
    if p == [] {
      assert p + q == q;
    } else {
      assert (p + q)[0] == p[0] && (p + q)[1..] == p[1..] + q;
      HasAtJoin(b, c + 1, p[1..], q);
    }
  }

  /** The first two parts of a concatenation are at offsets 0 and `|p|`. */
  lemma {:induction false} ConcatAt(p: seq<char>, q: seq<char>, rest: seq<char>)
    ensures HasAt(p + q + rest, 0, p) && HasAt(p + q + rest, |p|, q)
  {
    var b := p + q + rest;
    HasAtSlice(b, 0, p);
    HasAtSlice(b, |p|, q);
    assert b[0..|p|] == p;
    assert b[|p|..|p| + |q|] == q;
  }

  /** Writes in front of offset `c` do not disturb what the buffer holds from `c` on. */
  lemma {:induction false} HasAtKept(b: seq<char>, b1: seq<char>, c: nat, p: seq<char>)
    requires HasAt(b, c, p) && |b1| == |b| && b1[c..] == b[c..]
    ensures HasAt(b1, c, p)
  {
    HasAtSlice(b, c, p);
    HasAtSlice(b1, c, p);
    assert b1[c..c + |p|] == b1[c..][..|p|];
    assert b[c..c + |p|] == b[c..][..|p|];
  }

  /** A header line at `c` is accepted and the driver goes on after its CR LF, at `c1`. */
  lemma {:induction false} HeaderLineStep(b: seq<char>, c: nat, l: seq<char>) returns (b1: seq<char>, c1: nat)
    requires HeaderText(l) && HasAt(b, c, l + "\r\n")
    ensures c1 == c + |l| + 2 && |b1| == |b| && b1[c1 - 1] == '\0' && b1[c1..] == b[c1..]
    ensures Drive(b, c, c, CheckHeader) == Drive(b1, c1, c1, CheckHeader)
  {
    LineAt(b, c, l);
    SeenEmpty(l);
    var i := c + |l|;
    b1, c1 := b[i := '\0'][i + 1 := '\0'], i + 2;
    HeaderAccepted(b1, c1, c, Seen(l));
    DriveContinues(b, c, c, CheckHeader);
    assert b1[c1..] == b[c1..];
  }

  /** A non-empty header line, cut off by the NUL before `z`, is accepted and changes nothing. */
  lemma {:induction false} HeaderAccepted(b: seq<char>, z: nat, s: nat, l: seq<char>)
    requires s < z <= |b| && b[z - 1] == '\0' && CString(b, s) == l && l != []
    ensures Step(b, z, s, CheckHeader) == Parsed(NoRequest, b, z, z, CheckHeader)
  {
  }

  /** A line the header interpreter sees as empty, at `c`, completes the request. */
  lemma {:induction false} BlankLineStep(b: seq<char>, c: nat, e: seq<char>)
    requires BlankText(e) && HasAt(b, c, e + "\r\n")
    ensures Drive(b, c, c, CheckHeader).code == GetRequest
  {
    LineAt(b, c, e);
    SeenEmpty(e);
    DriveContinues(b, c, c, CheckHeader);
  }

  lemma {:induction false} HeaderLinesTail(hs: seq<seq<char>>, e: seq<char>)
    requires HeaderLines(hs) && hs != []
    ensures HeaderLines(hs[1..]) && HeaderText(hs[0])
    ensures Lines(hs) + e + "\r\n" == (hs[0] + "\r\n") + (Lines(hs[1..]) + e + "\r\n")
  {
    forall x | 0 <= x < |hs[1..]| ensures HeaderText(hs[1..][x]) {
      assert hs[1..][x] == hs[x + 1];
    }
  }

  /** The first of several header lines: the driver goes on after it, where the rest of them are. */
  lemma {:induction false} FirstHeader(b: seq<char>, c: nat, hs: seq<seq<char>>, e: seq<char>) returns (b1: seq<char>, c1: nat)
    requires HeaderLines(hs) && hs != [] && HasAt(b, c, Lines(hs) + e + "\r\n")
    ensures HeaderLines(hs[1..]) && HasAt(b1, c1, Lines(hs[1..]) + e + "\r\n")
    ensures Drive(b, c, c, CheckHeader) == Drive(b1, c1, c1, CheckHeader)
  {
    HeaderLinesTail(hs, e);
    var l, more := hs[0], Lines(hs[1..]) + e + "\r\n";
    HasAtSplit(b, c, l + "\r\n", more);
    b1, c1 := HeaderLineStep(b, c, l);
    HasAtKept(b, b1, c1, more);
  }

  /** In the header state, header lines followed by a line seen as empty complete the request. */
  lemma {:induction false} HeadersThenBlank(b: seq<char>, c: nat, hs: seq<seq<char>>, e: seq<char>)
    requires HeaderLines(hs) && BlankText(e) && HasAt(b, c, Lines(hs) + e + "\r\n")
    ensures Drive(b, c, c, CheckHeader).code == GetRequest
    decreases |hs|
  {
    if hs == [] {
      assert Lines(hs) + e + "\r\n" == e + "\r\n";
      BlankLineStep(b, c, e);
    } else {
      var b1, c1 := FirstHeader(b, c, hs, e);
      HeadersThenBlank(b1, c1, hs[1..], e);
    }
  }

  /**
   * A line the scanner completed from a cursor that does not follow a CR: it
   * ended at a CR LF, and the bytes in front of it are a line of text.
   */
  lemma {:induction false} ScannedLine(b: seq<char>, c: nat) returns (l: seq<char>)
    requires c <= |b| && ScanLine(b, c).status == LineOk && !(c > 1 && b[c - 1] == '\r')
    ensures LineText(l) && HasAt(b, c, l + "\r\n")
    ensures var i := c + |l|;
      && ScanLine(b, c) == Scan(LineOk, i + 2, b[i := '\0'][i + 1 := '\0'])
      && CString(b[i := '\0'][i + 1 := '\0'], c) == Seen(l)
  {
    ScanLineOk(b, c);
    var i := ScanLine(b, c).checked - 2;
    l := b[c..i];
    assert HasAt(b, c, l + "\r\n") by {
      HasAtSlice(b, c, l + "\r\n");
      assert b[c..i + 2] == l + "\r\n";
    }
    forall x | 0 <= x < |l| ensures !IsBreak(l[x]) {
      assert l[x] == b[c + x];
    }
    LineAt(b, c, l);
  }

  /**
   * Conversely, a GET_REQUEST from the header state, with the NUL of the
   * previous terminator just before `c`, was header lines followed by a line
   * seen as empty.
   */
  lemma {:induction false} HeadersShape(b: seq<char>, c: nat) returns (hs: seq<seq<char>>, e: seq<char>)
    requires 0 < c <= |b| && b[c - 1] == '\0'
    requires Drive(b, c, c, CheckHeader).code == GetRequest
    ensures HeaderLines(hs) && BlankText(e) && HasAt(b, c, Lines(hs) + e + "\r\n")
    decreases |b| - c
  {
    var l, b1, c1 := HeaderNext(b, c);
    if l == [] || l[0] == '\0' {
      hs, e := BlankShape(b, c, l);
    } else {
      var hs1;
      hs1, e := HeadersShape(b1, c1);
      hs := HeaderCons(b, b1, c, l, c1, hs1, e);
    }
  }

  /**
   * The header line `l` at `c` has been consumed: the driver goes on at `c1`,
   * just after its CR LF, in the rewritten buffer `b1`, which agrees with `b`
   * from `c1` on.
   */
  predicate Consumed(b: seq<char>, c: nat, l: seq<char>, b1: seq<char>, c1: nat) {
    && HeaderText(l) && HasAt(b, c, l + "\r\n")
    && c1 == c + |l| + 2 && |b1| == |b| && c1 <= |b| && b1[c1..] == b[c1..]
  }

  /** The first line of a GET_REQUEST run in the header state: the line seen as empty, or a header after which the run goes on. */
  lemma {:induction false} HeaderNext(b: seq<char>, c: nat) returns (l: seq<char>, b1: seq<char>, c1: nat)
    requires 0 < c <= |b| && b[c - 1] == '\0'
    requires Drive(b, c, c, CheckHeader).code == GetRequest
    ensures LineText(l) && HasAt(b, c, l + "\r\n")
    ensures l != [] && l[0] != '\0' ==>
      && Consumed(b, c, l, b1, c1) && |b1| - c1 < |b| - c
      && 0 < c1 <= |b1| && b1[c1 - 1] == '\0' && Drive(b1, c1, c1, CheckHeader).code == GetRequest
  {
    assert ScanLine(b, c).status == LineOk;
    l := ScannedLine(b, c);
    SeenEmpty(l);
    b1, c1 := b, c;
    if l != [] && l[0] != '\0' {
      b1, c1 := HeaderLineStep(b, c, l);
    }
  }

  /** A line seen as empty at `c` is a header block with no headers. */
  lemma {:induction false} BlankShape(b: seq<char>, c: nat, l: seq<char>) returns (hs: seq<seq<char>>, e: seq<char>)
    requires LineText(l) && (l == [] || l[0] == '\0') && HasAt(b, c, l + "\r\n")
    ensures HeaderLines(hs) && BlankText(e) && HasAt(b, c, Lines(hs) + e + "\r\n")
  {
    hs, e := [], l;
    assert Lines(hs) + e + "\r\n" == l + "\r\n";
  }

  /** A header line at `c`, then header lines and a blank line in the rewritten `b1` after it, make one longer header block at `c`. */
  lemma {:induction false} HeaderCons(b: seq<char>, b1: seq<char>, c: nat, l: seq<char>, c1: nat, hs1: seq<seq<char>>, e: seq<char>)
      returns (hs: seq<seq<char>>)
    requires Consumed(b, c, l, b1, c1)
    requires HeaderLines(hs1) && HasAt(b1, c1, Lines(hs1) + e + "\r\n")
    ensures hs == [l] + hs1 && HeaderLines(hs) && HasAt(b, c, Lines(hs) + e + "\r\n")
  {
    var q := Lines(hs1) + e + "\r\n";
    HasAtKept(b1, b, c1, q);
    HasAtJoin(b, c, l + "\r\n", q);
    hs := [l] + hs1;
    LinesCons(l, hs1, e);
    forall x | 0 <= x < |hs| ensures HeaderText(hs[x]) {
      if x > 0 {
        assert hs[x] == hs1[x - 1];
      }
    }
  }

  lemma {:induction false} LinesCons(l: seq<char>, hs: seq<seq<char>>, e: seq<char>)
    ensures Lines([l] + hs) + e + "\r\n" == (l + "\r\n") + (Lines(hs) + e + "\r\n")
  {
    assert ([l] + hs)[1..] == hs;
  }

  /** `HeadersThenBlank` after writes in front of the header section. */
  lemma {:induction false} HeadersKept(b: seq<char>, b2: seq<char>, c: nat, hs: seq<seq<char>>, e: seq<char>)
    requires HeaderLines(hs) && BlankText(e) && HasAt(b, c, Lines(hs) + e + "\r\n")
    requires |b2| == |b| && c <= |b| && b2[c..] == b[c..]
    ensures Drive(b2, c, c, CheckHeader).code == GetRequest
  {
    HasAtKept(b, b2, c, Lines(hs) + e + "\r\n");
    HeadersThenBlank(b2, c, hs, e);
  }

  /** The interpretation of an accepted request line that ends before the NUL at `z - 1`. */
  lemma {:induction false} AcceptedStep(b: seq<char>, z: nat, l: seq<char>)
    requires 0 < z <= |b| && b[z - 1] == '\0' && CString(b, 0) == l
    requires Accepts(l)
    ensures var t := Step(b, z, 0, CheckRequestLine);
      t.code == NoRequest && t.state == CheckHeader
  {
  }

  /** `LineAt` at offset 0, with the scanned buffer as a value of its own. */
  lemma {:induction false} FirstLine(b: seq<char>, l: seq<char>) returns (b1: seq<char>)
    requires LineText(l) && HasAt(b, 0, l + "\r\n")
    ensures ScanLine(b, 0) == Scan(LineOk, |l| + 2, b1)
    ensures |b1| == |b| && b1[|l| + 1] == '\0' && CString(b1, 0) == Seen(l)
    ensures b1[|l| + 2..] == b[|l| + 2..]
  {
    LineAt(b, 0, l);
    var i := |l|;
    b1 := b[i := '\0'][i + 1 := '\0'];
    assert b1[i + 2..] == b[i + 2..];
  }

  /**
   * An accepted request line at offset 0 moves the driver to the header state
   * after its CR LF, with the bytes after the line as they were.
   */
  lemma {:induction false} RequestLineStep(b: seq<char>, l: seq<char>) returns (b2: seq<char>)
    requires LineText(l) && Accepts(Seen(l))
    requires HasAt(b, 0, l + "\r\n")
    ensures |b2| == |b| && b2[|l| + 1] == '\0' && b2[|l| + 2..] == b[|l| + 2..]
    ensures Drive(b, 0, 0, CheckRequestLine) == Drive(b2, |l| + 2, |l| + 2, CheckHeader)
  {
    var b1 := FirstLine(b, l);
    var z := |l| + 2;
    AcceptedStep(b1, z, Seen(l));
    StepFrame(b1, z, 0, CheckRequestLine);
    DriveContinues(b, 0, 0, CheckRequestLine);
    b2 := Step(b1, z, 0, CheckRequestLine).buf;
    assert b2[z..] == b1[z..];
  }

  /** At the end of the received bytes the driver waits. */
  lemma {:induction false} DriveAtEnd(b: seq<char>, s: nat, st: CheckState)
    requires s <= |b|
    ensures Drive(b, |b|, s, st) == Parsed(NoRequest, b, |b|, s, st)
  {
  }

  /** An accepted request line at offset 0, then header lines and a line seen as empty: GET_REQUEST. */
  lemma {:induction false} RequestAt(b: seq<char>, l: seq<char>, hs: seq<seq<char>>, e: seq<char>)
    requires LineText(l) && Accepts(Seen(l)) && HeaderLines(hs) && BlankText(e)
    requires HasAt(b, 0, l + "\r\n") && HasAt(b, |l| + 2, Lines(hs) + e + "\r\n")
    ensures Drive(b, 0, 0, CheckRequestLine).code == GetRequest
  {
    var b2 := RequestLineStep(b, l);
    HeadersKept(b, b2, |l| + 2, hs, e);
  }

  /** A complete request is recognised, whatever follows it. */
  lemma {:induction false} ShapeAccepted(b: seq<char>, l: seq<char>, hs: seq<seq<char>>, e: seq<char>, rest: seq<char>)
    requires RequestShape(b, l, hs, e, rest)
    ensures Drive(b, 0, 0, CheckRequestLine).code == GetRequest
  {
    var p, q := l + "\r\n", Lines(hs) + e + "\r\n";
    assert b == p + q + rest;
    ConcatAt(p, q, rest);
    RequestAt(b, l, hs, e);
  }

  /**
   * A GET_REQUEST from the initial cursors started with a request line that
   * the interpreter accepted; after it the driver is in the header state.
   */
  lemma {:induction false} RequestLineShape(b: seq<char>) returns (l: seq<char>, b2: seq<char>)
    requires Drive(b, 0, 0, CheckRequestLine).code == GetRequest
    ensures LineText(l) && Accepts(Seen(l)) && HasAt(b, 0, l + "\r\n")
    ensures |b2| == |b| && b2[|l| + 1] == '\0' && b2[|l| + 2..] == b[|l| + 2..]
    ensures Drive(b, 0, 0, CheckRequestLine) == Drive(b2, |l| + 2, |l| + 2, CheckHeader)
  {
    assert ScanLine(b, 0).status == LineOk;
    l := ScannedLine(b, 0);
    var b1 := FirstLine(b, l);
    DriveContinues(b, 0, 0, CheckRequestLine);
    assert Step(b1, |l| + 2, 0, CheckRequestLine).code == NoRequest;
    AcceptsInAnyState(Seen(l), CheckRequestLine);
    b2 := RequestLineStep(b, l);
  }

  /**
   * Conversely, a GET_REQUEST from the initial cursors was a complete request:
   * the received bytes split into an accepted request line, header lines, a
   * line seen as empty and whatever follows.
   */
  lemma {:induction false} GetShape(b: seq<char>) returns (l: seq<char>, hs: seq<seq<char>>, e: seq<char>, rest: seq<char>)
    requires Drive(b, 0, 0, CheckRequestLine).code == GetRequest
    ensures RequestShape(b, l, hs, e, rest)
  {
    var b2;
    l, b2 := RequestLineShape(b);
    hs, e := HeadersShape(b2, |l| + 2);
    rest := RequestJoin(b, b2, l, hs, e);
  }

  /** The request line found in `b` and the header block found after it in the rewritten `b2` together start `b`. */
  lemma {:induction false} RequestJoin(b: seq<char>, b2: seq<char>, l: seq<char>, hs: seq<seq<char>>, e: seq<char>)
      returns (rest: seq<char>)
    requires |l| + 2 <= |b2| == |b| && b2[|l| + 2..] == b[|l| + 2..]
    requires HasAt(b, 0, l + "\r\n") && HasAt(b2, |l| + 2, Lines(hs) + e + "\r\n")
    ensures b == l + "\r\n" + Lines(hs) + e + "\r\n" + rest
  {
    var q := Lines(hs) + e + "\r\n";
    HasAtKept(b2, b, |l| + 2, q);
    HasAtJoin(b, 0, l + "\r\n", q);
    var p := l + "\r\n" + q;
    HasAtSlice(b, 0, p);
    rest := b[|p|..];
    assert b == b[0..|p|] + rest;
    assert p + rest == l + "\r\n" + Lines(hs) + e + "\r\n" + rest;
  }

  /** `parse_content` from the initial cursors returns GET_REQUEST exactly on a complete request. */
  lemma {:induction false} GetExactlyComplete(b: seq<char>)
    ensures Drive(b, 0, 0, CheckRequestLine).code == GetRequest <==> CompleteRequest(b)
  {
    if Drive(b, 0, 0, CheckRequestLine).code == GetRequest {
      var l, hs, e, rest := GetShape(b);
    }
    if CompleteRequest(b) {
      var l, hs, e, rest :| RequestShape(b, l, hs, e, rest);
      ShapeAccepted(b, l, hs, e, rest);
    }
  }

  /** A line that starts with NUL is the empty line to the header interpreter: it completes the request at once. */
  lemma {:induction false} NulLineEndsHeaders(l: seq<char>, e: seq<char>, rest: seq<char>)
    requires IsLine(l) && Accepts(l) && LineText(e)
    ensures Drive(l + "\r\n" + ("\0" + e) + "\r\n" + rest, 0, 0, CheckRequestLine).code == GetRequest
  {
    SeenWhole(l);
    var b := l + "\r\n" + ("\0" + e) + "\r\n" + rest;
    assert LineText("\0" + e) by {
      forall x | 0 <= x < |"\0" + e| ensures !IsBreak(("\0" + e)[x]) {
        if x > 0 {
          assert ("\0" + e)[x] == e[x - 1];
        }
      }
    }
    assert b == l + "\r\n" + Lines([]) + ("\0" + e) + "\r\n" + rest;
    ShapeAccepted(b, l, [], "\0" + e, rest);
  }

  /**
   * `ShapeAccepted` for lines without NUL: an accepted request line, any
   * number of non-empty header lines and the empty line give GET_REQUEST,
   * whatever follows.
   */
  lemma {:induction false} CompleteRequestAccepted(b: seq<char>, l: seq<char>, hs: seq<seq<char>>, rest: seq<char>)
    requires IsLine(l) && Accepts(l)
    requires HeaderLines(hs)
    requires b == l + "\r\n" + Lines(hs) + "\r\n" + rest
    ensures Drive(b, 0, 0, CheckRequestLine).code == GetRequest
  {
    SeenWhole(l);
    assert b == l + "\r\n" + Lines(hs) + [] + "\r\n" + rest;
    ShapeAccepted(b, l, hs, [], rest);
  }

  /** An accepted request line on its own: the driver waits in the header state at the end of the bytes. */
  lemma {:induction false} RequestLineWaits(b: seq<char>, l: seq<char>)
    requires IsLine(l) && Accepts(l)
    requires b == l + "\r\n"
    ensures var r := Drive(b, 0, 0, CheckRequestLine);
      r.code == NoRequest && r.state == CheckHeader && r.checked == r.start == |b|
  {
    SeenWhole(l);
    HasAtSlice(b, 0, b);
    assert b[0..|b|] == b;
    var b2 := RequestLineStep(b, l);
    DriveAtEnd(b2, |l| + 2, CheckHeader);
  }

  /** A complete request line whose C string is rejected gives BAD_REQUEST, whatever follows. */
  lemma {:induction false} RejectedRequestLine(l: seq<char>, rest: seq<char>)
    requires LineText(l) && ParseRequestLine(Seen(l), CheckRequestLine).code == BadRequest
    ensures Drive(l + "\r\n" + rest, 0, 0, CheckRequestLine).code == BadRequest
  {
    var b := l + "\r\n" + rest;
    assert HasAt(b, 0, l + "\r\n") by {
      HasAtSlice(b, 0, l + "\r\n");
      assert b[0..|l| + 2] == l + "\r\n";
    }
    LineAt(b, 0, l);
  }

  /** A line ended by LF alone is malformed, in either state. */
  lemma {:induction false} BareLfRejected(l: seq<char>, rest: seq<char>, st: CheckState)
    requires forall x :: 0 <= x < |l| ==> !IsBreak(l[x])
    ensures Drive(l + "\n" + rest, 0, 0, st) == Parsed(BadRequest, l + "\n" + rest, |l|, 0, st)
  {
    var b := l + "\n" + rest;
    forall x | 0 <= x < |l| ensures !IsBreak(b[x]) {
      assert b[x] == l[x];
    }
    ScanLineBareLf(b, 0, |l|);
  }

  /**
   * An unfinished first line leaves everything waiting, with the cursor at the
   * end, or on a trailing CR that the next call looks at again.
   */
  lemma {:induction false} UnfinishedLineWaits(l: seq<char>, st: CheckState)
    requires forall x :: 0 <= x < |l| ==> !IsBreak(l[x])
    ensures Drive(l, 0, 0, st) == Parsed(NoRequest, l, |l|, 0, st)
    ensures Drive(l + "\r", 0, 0, st) == Parsed(NoRequest, l + "\r", |l|, 0, st)
  {
    ScanLineNoBreak(l, 0);
    var b := l + "\r";
    forall x | 0 <= x < |l| ensures !IsBreak(b[x]) {
      assert b[x] == l[x];
    }
    ScanLineOpenAtCr(b, 0);
  }

  /** Helper for `UnfinishedLineWaits`: ordinary bytes and a final CR. */
  lemma {:induction false} ScanLineOpenAtCr(b: seq<char>, c: nat)
    requires 0 < |b| && c < |b| && NoBreak(b, c, |b| - 1) && b[|b| - 1] == '\r'
    ensures ScanLine(b, c) == Scan(LineOpen, |b| - 1, b)
    decreases |b| - c
  {
    if c < |b| - 1 {
      ScanLineOpenAtCr(b, c + 1);
    }
  }

  /** A GET line for a path URL is accepted with the path as its URL. */
  lemma {:induction false} PathRequestLine(line: seq<char>, path: seq<char>)
    requires |path| > 0 && path[0] == '/' && forall x :: 0 <= x < |path| ==> path[x] != '\t'
    requires line == "GET" + "\t" + path + "\t" + "HTTP/1.1"
    ensures ParseRequestLine(line, CheckRequestLine)
         == RequestLine.Result(NoRequest, CheckHeader, path, Some(3), Some(4 + |path|))
  {
    TargetKeepsPath(path);
    SingleTabLine("GET", path, "HTTP/1.1", CheckRequestLine);
  }

  /** Two lines side by side make one line. */
  lemma {:induction false} IsLineJoin(a: seq<char>, b: seq<char>)
    requires IsLine(a) && IsLine(b)
    ensures IsLine(a + b)
  {
    forall x | 0 <= x < |a + b| ensures (a + b)[x] != '\r' && (a + b)[x] != '\n' && (a + b)[x] != '\0' {
      if x < |a| {
        assert (a + b)[x] == a[x];
      } else {
        assert (a + b)[x] == b[x - |a|];
      }
    }
  }

  /** The words of the example requests contain no CR, LF or NUL, and the paths no tab. */
  lemma {:induction false} ExampleWords()
    ensures IsLine("GET") && IsLine("\t") && IsLine("HTTP/1.1")
    ensures IsLine("Host:") && IsLine("example.com")
    ensures IsLine("/index.html") && forall x :: 0 <= x < |"/index.html"| ==> "/index.html"[x] != '\t'
    ensures IsLine("/") && forall x :: 0 <= x < |"/"| ==> "/"[x] != '\t'
  {
  }

  /** A GET line for a path URL is a line and is accepted. */
  lemma {:induction false} GetLine(l: seq<char>, path: seq<char>)
    requires |path| > 0 && path[0] == '/' && IsLine(path) && forall x :: 0 <= x < |path| ==> path[x] != '\t'
    requires l == "GET" + "\t" + path + "\t" + "HTTP/1.1"
    ensures IsLine(l) && Accepts(l)
  {
    ExampleWords();
    PathRequestLine(l, path);
    AcceptsInAnyState(l, CheckRequestLine);
    IsLineJoin("GET", "\t");
    IsLineJoin("GET" + "\t", path);
    IsLineJoin("GET" + "\t" + path, "\t");
    IsLineJoin("GET" + "\t" + path + "\t", "HTTP/1.1");
  }

  /** The request line `GET TAB /index.html TAB HTTP/1.1` is a line and is accepted. */
  lemma {:induction false} ExampleLine(l: seq<char>)
    requires l == "GET" + "\t" + "/index.html" + "\t" + "HTTP/1.1"
    ensures IsLine(l) && Accepts(l)
  {
    ExampleWords();
    GetLine(l, "/index.html");
  }

  /** The header line `Host: TAB example.com` is a non-empty line. */
  lemma {:induction false} ExampleHeader(h: seq<char>)
    requires h == "Host:" + "\t" + "example.com"
    ensures HeaderLines([h])
  {
    ExampleWords();
    IsLineJoin("Host:", "\t");
    IsLineJoin("Host:" + "\t", "example.com");
  }

  /**
   * The request `GET TAB /index.html TAB HTTP/1.1`, `Host: TAB example.com`
   * and the empty line is recognised however the peer splits it.
   */
  lemma {:induction false} ExampleRequestAnySplit(chunks: seq<seq<char>>)
    requires NonEmpty(chunks)
    requires Concat(chunks) == "GET" + "\t" + "/index.html" + "\t" + "HTTP/1.1" + "\r\n"
                             + "Host:" + "\t" + "example.com" + "\r\n" + "\r\n"
    ensures Session(Fresh, chunks).code == GetRequest
  {
    var l := "GET" + "\t" + "/index.html" + "\t" + "HTTP/1.1";
    var h := "Host:" + "\t" + "example.com";
    ExampleLine(l);
    ExampleHeader(h);
    ExampleShape(l, h, Concat(chunks));
    CompleteRequestAccepted(Concat(chunks), l, [h], []);
    SessionFromFresh(chunks);
  }

  /** The example request is a request line, one header line and the empty line. */
  lemma {:induction false} ExampleShape(l: seq<char>, h: seq<char>, b: seq<char>)
    requires l == "GET" + "\t" + "/index.html" + "\t" + "HTTP/1.1"
    requires h == "Host:" + "\t" + "example.com"
    requires b == "GET" + "\t" + "/index.html" + "\t" + "HTTP/1.1" + "\r\n"
                + "Host:" + "\t" + "example.com" + "\r\n" + "\r\n"
    ensures b == l + "\r\n" + Lines([h]) + "\r\n" + []
  {
    assert Lines([h]) == h + "\r\n" + Lines([]);
  }

  /** The request line `GET TAB / TAB HTTP/1.1` and its CR LF alone: the driver waits for headers. */
  lemma {:induction false} RequestLineAloneWaits(first: seq<char>)
    requires first == "GET" + "\t" + "/" + "\t" + "HTTP/1.1" + "\r\n"
    ensures Drive(first, 0, 0, CheckRequestLine).code == NoRequest
    ensures Drive(first, 0, 0, CheckRequestLine).state == CheckHeader
  {
    var l := "GET" + "\t" + "/" + "\t" + "HTTP/1.1";
    ExampleWords();
    GetLine(l, "/");
    RequestLineWaits(first, l);
  }

  /** An accepted request line in one chunk and the empty line in a later one complete the request. */
  lemma {:induction false} LineThenBlank(l: seq<char>)
    requires IsLine(l) && Accepts(l)
    ensures Session(Fresh, [l + "\r\n", "\r\n"]).code == GetRequest
  {
    var chunks := [l + "\r\n", "\r\n"];
    assert NonEmpty(chunks);
    assert Concat(chunks) == l + "\r\n" + Lines([]) + "\r\n" + [];
    CompleteRequestAccepted(Concat(chunks), l, [], []);
    SessionFromFresh(chunks);
  }

  /** `LineThenBlank` for `GET TAB / TAB HTTP/1.1`. */
  lemma {:induction false} RequestLineThenBlank(first: seq<char>)
    requires first == "GET" + "\t" + "/" + "\t" + "HTTP/1.1" + "\r\n"
    ensures Session(Fresh, [first, "\r\n"]).code == GetRequest
  {
    var l := "GET" + "\t" + "/" + "\t" + "HTTP/1.1";
    ExampleWords();
    GetLine(l, "/");
    LineThenBlank(l);
  }

  /** A bare LF after the request line is rejected. */
  lemma {:induction false} BareLfExample()
    ensures Drive("GET\t/\tHTTP/1.1\n", 0, 0, CheckRequestLine).code == BadRequest
  {
    BareLfRejected("GET\t/\tHTTP/1.1", [], CheckRequestLine);
    assert "GET\t/\tHTTP/1.1" + "\n" + [] == "GET\t/\tHTTP/1.1\n";
  }
}
