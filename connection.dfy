/**
 * The receive loop of chap8/code/fsm/fsm.cpp:219-250 reduced to what it does
 * with the parser: start from an empty, zero-filled buffer with all cursors
 * at 0, append each chunk the peer sends to the received bytes, run the driver
 * again, and stop at the first result other than NO_REQUEST or when the peer
 * has nothing more to send.  The chunks stand for what `recv` returns.
 */
module Connection {
  import opened Http
  import opened LineScanner
  import opened Content

  /** The state before the first byte arrives (lines 220-225). */
  const Fresh: Parsed := Parsed(NoRequest, [], 0, 0, CheckRequestLine)

  /** A state the driver has come to rest in: NO_REQUEST, and driving it again changes nothing. */
  predicate Idle(p: Parsed) {
    && p.code == NoRequest
    && p.start <= p.checked <= |p.buf|
    && Drive(p.buf, p.checked, p.start, p.state) == p
  }

  function Concat(chunks: seq<seq<char>>): (r: seq<char>)
    ensures chunks == [] ==> r == []
    ensures chunks != [] ==> r == chunks[0] + Concat(chunks[1..])
  {
    if chunks == [] then [] else chunks[0] + Concat(chunks[1..])
  }

  predicate NonEmpty(chunks: seq<seq<char>>) {
    forall i :: 0 <= i < |chunks| ==> chunks[i] != []
  }

  /**
   * The loop at lines 227-250: an empty chunk is `recv` returning 0 (the peer
   * closed the connection); the loop also ends when the chunks run out.
   */
  function Session(p: Parsed, chunks: seq<seq<char>>): (r: Parsed)
    requires p.start <= p.checked <= |p.buf|
    ensures r.start <= r.checked <= |r.buf|
    decreases |chunks|
  {
    if chunks == [] || chunks[0] == [] then p
    else
      var q := Drive(p.buf + chunks[0], p.checked, p.start, p.state);
      if q.code == NoRequest then Session(q, chunks[1..]) else q
  }

  lemma {:induction false} FreshIsIdle()
    ensures Idle(Fresh)
  {
    assert ScanLine([], 0) == Scan(LineOpen, 0, []);
  }

  /**
   * Chunking does not change the outcome: feeding the chunks one by one to an
   * idle state ends with the code, cursors and state of one run over all the
   * bytes at once.  The session may stop before the last chunks, so its
   * buffer is a prefix of the one-shot buffer, and equal to it if the session
   * is still waiting for more.
   */
  lemma {:induction false} SessionMatchesOneShot(p: Parsed, chunks: seq<seq<char>>)
    requires Idle(p) && NonEmpty(chunks)
    ensures var r := Session(p, chunks);
      var o := Drive(p.buf + Concat(chunks), p.checked, p.start, p.state);
      && r.code == o.code && r.checked == o.checked && r.start == o.start && r.state == o.state
      && r.buf <= o.buf
      && (r.code == NoRequest ==> r == o)
    decreases |chunks|
  {
    if chunks != [] {
      var rest := Concat(chunks[1..]);
      var b := p.buf + chunks[0];
      assert p.buf + Concat(chunks) == b + rest;
      DriveExtend(b, rest, p.checked, p.start, p.state);
      var q := Drive(b, p.checked, p.start, p.state);
      if q.code == NoRequest {
        DriveIdle(b, p.checked, p.start, p.state);
        assert NonEmpty(chunks[1..]) by {
          forall i | 0 <= i < |chunks[1..]| ensures chunks[1..][i] != [] {
            assert chunks[1..][i] == chunks[i + 1];
          }
        }
        SessionMatchesOneShot(q, chunks[1..]);
      }
    } else {
      assert p.buf + Concat(chunks) == p.buf;
    }
  }

  /** Two ways of splitting the same bytes into non-empty chunks give the same outcome. */
  lemma {:induction false} SplitDoesNotMatter(xs: seq<seq<char>>, ys: seq<seq<char>>)
    requires NonEmpty(xs) && NonEmpty(ys) && Concat(xs) == Concat(ys)
    ensures var rx, ry := Session(Fresh, xs), Session(Fresh, ys);
      rx.code == ry.code && rx.checked == ry.checked && rx.start == ry.start && rx.state == ry.state
  {
    FreshIsIdle();
    SessionMatchesOneShot(Fresh, xs);
    SessionMatchesOneShot(Fresh, ys);
  }

  /** From the fresh state, a session over non-empty chunks ends with the code of one run over their concatenation. */
  lemma {:induction false} SessionFromFresh(chunks: seq<seq<char>>)
    requires NonEmpty(chunks)
    ensures Session(Fresh, chunks).code == Drive(Concat(chunks), 0, 0, CheckRequestLine).code
  {
    FreshIsIdle();
    SessionMatchesOneShot(Fresh, chunks);
    assert [] + Concat(chunks) == Concat(chunks);
  }
}
