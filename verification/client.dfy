/**
 The per-connection message loop of the TCP server.

 The scanner over the connection is a finite sequence of lines, already
 split and stripped of their line terminators (a newline and one carriage
 return before it), followed by either the end of
 the stream or a read error. The connection records what was written to it
 and how many times it was closed. The loop compares each line with the two
 exact spellings of the quit command; it does no decryption and no case
 folding.
 */
module Client {

  /** A client's connection: nil, or a live one that has had `written`
      written to it and has been closed `closes` times. */
  datatype Conn = NilConn | Live(written: seq<string>, closes: nat)

  /** How the scanner stopped, when it was not stopped by a quit line. */
  datatype Ending = EndOfStream | ReadError

  const EchoPrefix: string := "Mensaje recibido: "
  const Farewell: string := "Conexión finalizada. Adiós!\n"

  /** The two spellings that end the session; matching is exact. */
  predicate IsQuit(line: string)
  {
    line == "quit" || line == "Quit"
  }

  /** The reply to an ordinary line. */
  function Echo(line: string): string
  {
    EchoPrefix + line + "\n"
  }

  /** Index of the first quit line, or |lines| if there is none. */
  function FirstQuit(lines: seq<string>): (q: nat)
    ensures q <= |lines|
    ensures forall k :: 0 <= k < q ==> !IsQuit(lines[k])
    ensures q < |lines| ==> IsQuit(lines[q])
  {
    if |lines| == 0 then 0
    else if IsQuit(lines[0]) then 0
    else 1 + FirstQuit(lines[1..])
  }

  /** Number of lines the loop reads: up to and including the first quit. */
  function Consumed(lines: seq<string>): (n: nat)
    ensures n <= |lines|
  {
    if FirstQuit(lines) < |lines| then FirstQuit(lines) + 1 else |lines|
  }

  /** Everything the loop writes, in order, for the given input lines. */
  function Respond(lines: seq<string>): seq<string>
  {
    if |lines| == 0 then []
    else if IsQuit(lines[0]) then [Farewell]
    else [Echo(lines[0])] + Respond(lines[1..])
  }

  /** `Close`: a nil connection is left alone; a live one is closed once
      more, with nothing written. */
  function Close(c: Conn): (r: Conn)
    ensures c.NilConn? ==> r == NilConn
    ensures c.Live? ==> r.Live? && r.written == c.written && r.closes == c.closes + 1
  {
    match c
    case NilConn => NilConn
    case Live(written, closes) => Live(written, closes + 1)
  }

  /** Reading past a prefix with no quit line: its echoes, then the rest. */
  lemma {:induction false} RespondAppend(a: seq<string>, b: seq<string>)
    requires forall k :: 0 <= k < |a| ==> !IsQuit(a[k])
    ensures Respond(a + b) == Respond(a) + Respond(b)
  {
    if |a| == 0 {
      assert a + b == b;
    } else {
      assert (a + b)[0] == a[0] && !IsQuit(a[0]);
      assert (a + b)[1..] == a[1..] + b;
      RespondAppend(a[1..], b);
    }
  }

  /** Every line before the first quit line gets exactly its echo, in input
      order; the first quit line gets the farewell; nothing after it is
      answered. So the writes are one per consumed line. */
  lemma {:induction false} RespondShape(lines: seq<string>)
    ensures |Respond(lines)| == Consumed(lines)
    ensures forall k :: 0 <= k < FirstQuit(lines) ==> Respond(lines)[k] == Echo(lines[k])
    ensures FirstQuit(lines) < |lines| ==> Respond(lines)[FirstQuit(lines)] == Farewell
  {
    if |lines| > 0 && !IsQuit(lines[0]) {
      RespondShape(lines[1..]);
    }
  }

  /** Lines after the first quit line are never read. */
  lemma {:induction false} RespondStopsAtQuit(lines: seq<string>, rest: seq<string>)
    requires FirstQuit(lines) < |lines|
    ensures Respond(lines + rest) == Respond(lines)
  {
    if !IsQuit(lines[0]) {
      assert (lines + rest)[1..] == lines[1..] + rest;
      RespondStopsAtQuit(lines[1..], rest);
    }
  }

  /** An echo can never be mistaken for the farewell. */
  lemma EchoIsNotFarewell(line: string)
    ensures Echo(line) != Farewell
  {
    assert Echo(line)[0] == 'M';
  }

  /** Input that ends without a quit line: one echo per line, no farewell. */
  lemma {:induction false} NoQuitEchoesAll(lines: seq<string>)
    requires forall k :: 0 <= k < |lines| ==> !IsQuit(lines[k])
    ensures Respond(lines) == seq(|lines|, k requires 0 <= k < |lines| => Echo(lines[k]))
    ensures Farewell !in Respond(lines)
  {
    if |lines| > 0 {
      NoQuitEchoesAll(lines[1..]);
      EchoIsNotFarewell(lines[0]);
    }
  }

  /** A single line ends the session exactly when it is one of the two
      exact spellings; any other line, whatever its casing or padding, is
      echoed. */
  lemma QuitIffExactSpelling(line: string)
    ensures Respond([line]) == (if line == "quit" || line == "Quit" then [Farewell] else [Echo(line)])
  {
  }

  /** Examples: other casings and padded forms are echoed like any data
      line. The lines are the scanner's tokens, after it has stripped the
      newline and one carriage return before it. */
  lemma QuitMatchIsExact(line: string)
    requires line in ["QUIT", " quit", "quit ", "qUIT"]
    ensures Respond([line]) == [Echo(line)]
  {
  }

  /** `HandleMessages`: read lines until the first quit line or the end of
      the input, echoing each ordinary line and answering the quit line with
      the farewell, then close the connection. A read error ends the loop
      exactly like the end of the stream; it is only logged. A nil
      connection is not allowed: the scanner would read from it and panic. */
  method HandleMessages(c: Conn, lines: seq<string>, ending: Ending) returns (r: Conn, consumed: nat)
    requires c.Live?
    ensures r.Live?
    ensures r.written == c.written + Respond(lines)
    ensures r.closes == c.closes + 1
    ensures consumed == Consumed(lines)
    ensures |r.written| == |c.written| + consumed
  {
    var written := c.written;
    var i := 0;
    while i < |lines|
      invariant 0 <= i <= |lines|
      invariant forall k :: 0 <= k < i ==> !IsQuit(lines[k])
      invariant written == c.written + Respond(lines[..i])
    {
      var message := lines[i];
      if message == "quit" || message == "Quit" {
        written := written + [Farewell];
        RespondAppend(lines[..i], lines[i..]);
        assert lines[..i] + lines[i..] == lines;
        i := i + 1;
        break;
      }
      written := written + [Echo(message)];
      RespondAppend(lines[..i], [message]);
      assert lines[..i + 1] == lines[..i] + [message];
      i := i + 1;
    }
    assert written == c.written + Respond(lines) by {
      if i == |lines| && (i == 0 || !IsQuit(lines[i - 1])) {
        assert lines[..i] == lines;
      }
    }
    RespondShape(lines);
    r := Close(Live(written, c.closes));
    consumed := i;
  }
}
