/** The reverse USB/IP tunnel: a one-line handshake with the host, then two bounded byte pumps
    between the host and the local USB/IP server. Each socket is an input and an output queue,
    and each Qt signal is one step; the JSON reply is a predicate on its line. */
module UsbTunnel {
  import opened BitCodes

  const MAX_HANDSHAKE_BYTES := 4 * 1024
  const HIGH_WATER_MARK := 4 * 1024 * 1024
  const CHUNK := 64 * 1024
  const NEWLINE: byte := 10

  // ----- the handshake, as a function of the host's byte stream -----

  datatype Reason =
    | Clean
    | TimedOut
    | BadCertificate
    | HostLost
    | LocalLost
    | InvalidResponse
    | Refused
    | ClosedEarly

  datatype Signal = Forwarding | Finished(reason: Reason)

  datatype Verdict = Pending | Rejected(reason: Reason) | Accepted(residual: seq<byte>)

  /** The index of the first newline, or the length if there is none. */
  function NewlineIndex(s: seq<byte>): (k: nat)
    ensures k <= |s|
    ensures k < |s| ==> s[k] == NEWLINE
    ensures forall i :: 0 <= i < k ==> s[i] != NEWLINE
  {
    if s == [] || s[0] == NEWLINE then 0 else 1 + NewlineIndex(s[1..])
  }

  /** What the host's bytes so far mean. */
  function Decide(s: seq<byte>, isReady: seq<byte> -> bool): Verdict {
    var k := NewlineIndex(s);
    if k == |s| then
      if |s| > MAX_HANDSHAKE_BYTES then Rejected(InvalidResponse) else Pending
    else if k > MAX_HANDSHAKE_BYTES then Rejected(InvalidResponse)
    else if isReady(s[..k]) then Accepted(s[k + 1..])
    else Rejected(Refused)
  }

  lemma NewlineIndexUnique(s: seq<byte>, k: nat)
    requires k < |s| && s[k] == NEWLINE && forall i :: 0 <= i < k ==> s[i] != NEWLINE
    ensures NewlineIndex(s) == k
  {
    var n := NewlineIndex(s);
    assert !(n < k) && !(k < n);
  }

  /** A verdict is final: more bytes only add to the residual payload. */
  lemma VerdictStable(s: seq<byte>, t: seq<byte>, isReady: seq<byte> -> bool)
    requires !Decide(s, isReady).Pending?
    ensures Decide(s + t, isReady) ==
      match Decide(s, isReady)
      case Accepted(residual) => Accepted(residual + t)
      case v => v
  {
    var k := NewlineIndex(s);
    if k < |s| {
      assert (s + t)[k] == NEWLINE;
      NewlineIndexUnique(s + t, k);
      assert (s + t)[..k] == s[..k] && (s + t)[k + 1..] == s[k + 1..] + t;
    } else {
      assert forall i :: 0 <= i < |s| ==> (s + t)[i] != NEWLINE;
    }
  }

  /** The handler's view: bytes are judged chunk by chunk, and nothing is judged again after a
      verdict. */
  function Feed(v: Verdict, seen: seq<byte>, chunks: seq<seq<byte>>, isReady: seq<byte> -> bool): Verdict
    decreases |chunks|
  {
    if chunks == [] then v
    else
      var v' := match v
        case Pending => Decide(seen + chunks[0], isReady)
        case Accepted(residual) => Accepted(residual + chunks[0])
        case Rejected(_) => v;
      Feed(v', seen + chunks[0], chunks[1..], isReady)
  }

  function Joined(chunks: seq<seq<byte>>): seq<byte> {
    if chunks == [] then [] else chunks[0] + Joined(chunks[1..])
  }

  /** The outcome of the handshake and the payload behind it depend on the host's bytes alone,
      not on how they were split into reads. */
  lemma {:induction false} ChunkIndependence(seen: seq<byte>, chunks: seq<seq<byte>>, isReady: seq<byte> -> bool)
    ensures Feed(Decide(seen, isReady), seen, chunks, isReady) == Decide(seen + Joined(chunks), isReady)
    decreases |chunks|
  {
    if chunks == [] {
      assert seen + Joined(chunks) == seen;
    } else {
      if !Decide(seen, isReady).Pending? {
        VerdictStable(seen, chunks[0], isReady);
      }
      ChunkIndependence(seen + chunks[0], chunks[1..], isReady);
      assert seen + Joined(chunks) == (seen + chunks[0]) + Joined(chunks[1..]);
    }
  }

  /** The handshake in bytes. The reply is what comes before the first byte 10. It counts up to 4096
      bytes; a ready line is accepted and what follows it is the payload, any other is refused, and
      more than 4096 bytes without a byte 10 are invalid. */
  lemma ReplyLine(line: seq<byte>, rest: seq<byte>, isReady: seq<byte> -> bool)
    requires 10 !in line
    ensures Decide(line, isReady) == if |line| <= 4096 then Pending else Rejected(InvalidResponse)
    ensures Decide(line + [10] + rest, isReady) ==
      if |line| > 4096 then Rejected(InvalidResponse)
      else if isReady(line) then Accepted(rest)
      else Rejected(Refused)
  {
    var s := line + [10] + rest;
    assert s[..|line|] == line && s[|line|] == 10 && s[|line| + 1..] == rest;
    NewlineIndexUnique(s, |line|);
  }

  /** The same for a whole stream, whose first byte 10 is at index k or missing. */
  lemma VerdictByBytes(s: seq<byte>, isReady: seq<byte> -> bool)
    ensures 10 !in s ==> Decide(s, isReady) == if |s| <= 4096 then Pending else Rejected(InvalidResponse)
    ensures forall k :: 0 <= k < |s| && s[k] == 10 && 10 !in s[..k] ==>
      Decide(s, isReady) ==
        if k > 4096 then Rejected(InvalidResponse)
        else if isReady(s[..k]) then Accepted(s[k + 1..])
        else Rejected(Refused)
  {
    hide Decide;
    if 10 !in s {
      ReplyLine(s, [], isReady);
    }
    forall k | 0 <= k < |s| && s[k] == 10 && 10 !in s[..k]
      ensures Decide(s, isReady) ==
        if k > 4096 then Rejected(InvalidResponse)
        else if isReady(s[..k]) then Accepted(s[k + 1..])
        else Rejected(Refused)
    {
      ReplyLine(s[..k], s[k + 1..], isReady);
      assert s == s[..k] + [10] + s[k + 1..];
    }
  }

  /** The boundary is exact: a newline at index 4096 is in time, one later byte is not. */
  lemma VerdictBoundary(s: seq<byte>, isReady: seq<byte> -> bool)
    ensures Decide(s, isReady).Pending? <==> 10 !in s && |s| <= 4096
    ensures Decide(s, isReady).Accepted? <==>
      exists k :: 0 <= k < |s| && s[k] == 10 && 10 !in s[..k] && k <= 4096 && isReady(s[..k])
  {
    var n := NewlineIndex(s);
    assert n < |s| ==> 10 !in s[..n];
    forall k | 0 <= k < |s| && s[k] == 10 && 10 !in s[..k] ensures n == k {
      assert forall i :: 0 <= i < k ==> s[i] == s[..k][i] != 10;
      NewlineIndexUnique(s, k);
    }
  }

  /** The three tests of the handler. */
  lemma DecideParts(s: seq<byte>, isReady: seq<byte> -> bool)
    ensures var k := NewlineIndex(s);
      Decide(s, isReady) ==
        if k == |s| && k <= MAX_HANDSHAKE_BYTES then Pending
        else if k > MAX_HANDSHAKE_BYTES then Rejected(InvalidResponse)
        else if isReady(s[..k]) then Accepted(s[k + 1..])
        else Rejected(Refused)
  {
  }

  // ----- the pump, as a function of the queue lengths -----

  /** How many of avail bytes a pump moves, chunk by chunk, to a queue that holds queued bytes. */
  function PumpCount(avail: nat, queued: nat): (n: nat)
    ensures n <= avail
    ensures n == avail || queued + n >= 4194304
    ensures n > 0 ==> queued + n < 4194304 + 65536
    decreases avail
  {
    if avail == 0 || queued >= HIGH_WATER_MARK then 0
    else
      var c := if avail < CHUNK then avail else CHUNK;
      c + PumpCount(avail - c, queued + c)
  }

  lemma PumpStep(avail: nat, queued: nat, size: nat)
    requires 0 < avail && queued < 4194304 && size == if avail < 65536 then avail else 65536
    ensures PumpCount(avail, queued) == size + PumpCount(avail - size, queued + size)
  {
  }

  lemma PumpDone(avail: nat, queued: nat)
    requires avail == 0 || queued >= 4194304
    ensures PumpCount(avail, queued) == 0
  {
  }

  // ----- the ledger of what the host sends -----

  /** Where the host's bytes are: received = taken + unread, and what was taken is the handshake
      line, what was written to the local socket, and the handshake buffer. */
  datatype HostSide = HostSide(
    done: bool,
    received: seq<byte>,
    taken: seq<byte>,
    unread: seq<byte>,
    buffer: seq<byte>,
    written: seq<byte>,
    queued: seq<byte>,
    delivered: seq<byte>)
  {
    /** Every byte received is handshake line, newline, delivered, queued for the local server, in
        the handshake buffer or unread, in this order. After the end, what is queued, buffered
        or unread is what the aborted sockets have dropped. */
    ghost predicate Balanced(isReady: seq<byte> -> bool) {
      && received == taken + unread
      && (done ==> Decide(taken, isReady) == Accepted(written + buffer))
      && (!done ==> written == [])
      && written == delivered + queued
    }

    ghost function Receive(bytes: seq<byte>): HostSide {
      this.(received := received + bytes, unread := unread + bytes)
    }

    /** The whole input goes to the handshake buffer. */
    ghost function TakeAll(): HostSide {
      this.(taken := taken + unread, unread := [], buffer := buffer + unread)
    }

    ghost function Accept(residual: seq<byte>): HostSide {
      this.(done := true, buffer := residual)
    }

    ghost function PumpBuffer(n: nat): HostSide
      requires n <= |buffer|
    {
      this.(buffer := buffer[n..], written := written + buffer[..n], queued := queued + buffer[..n])
    }

    ghost function PumpSocket(n: nat): HostSide
      requires n <= |unread|
    {
      this.(taken := taken + unread[..n], unread := unread[n..],
            written := written + unread[..n], queued := queued + unread[..n])
    }

    /** The whole pump. */
    ghost function Pumped(): HostSide {
      var n := PumpCount(|buffer|, |queued|);
      PumpBuffer(n).PumpSocket(PumpCount(|unread|, |queued| + n))
    }

    ghost function Deliver(n: nat): HostSide
      requires n <= |queued|
    {
      this.(queued := queued[n..], delivered := delivered + queued[..n])
    }
  }

  lemma HostReceives(h: HostSide, isReady: seq<byte> -> bool, bytes: seq<byte>)
    requires h.Balanced(isReady)
    ensures h.Receive(bytes).Balanced(isReady)
  {
    Associate(h.taken, h.unread, bytes);
  }

  lemma HostTakesAll(h: HostSide, isReady: seq<byte> -> bool)
    requires !h.done && h.Balanced(isReady)
    ensures h.TakeAll().Balanced(isReady)
    ensures h.TakeAll().taken == h.received
  {
    assert h.received == (h.taken + h.unread) + [];
  }

  lemma HandshakeAccepted(h: HostSide, isReady: seq<byte> -> bool, residual: seq<byte>)
    requires !h.done && h.Balanced(isReady) && Decide(h.taken, isReady) == Accepted(residual)
    ensures h.Accept(residual).Balanced(isReady)
  {
    assert h.written + residual == residual;
  }

  /** Before the handshake is done, the buffer does not matter. */
  lemma HostForgets(h: HostSide, isReady: seq<byte> -> bool, buffer: seq<byte>)
    requires !h.done && h.Balanced(isReady)
    ensures h.(buffer := buffer).Balanced(isReady)
  {
  }

  lemma HostPumpsBuffer(h: HostSide, isReady: seq<byte> -> bool, n: nat)
    requires n <= |h.buffer| && h.done && h.Balanced(isReady)
    ensures h.PumpBuffer(n).Balanced(isReady)
    ensures var t := h.PumpBuffer(n); t.queued + t.buffer + t.unread == h.queued + h.buffer + h.unread
  {
    hide Decide;
    var chunk, rest := h.buffer[..n], h.buffer[n..];
    assert h.buffer == chunk + rest;
    Associate(h.written, chunk, rest);
    Associate(h.delivered, h.queued, chunk);
    Associate(h.queued, chunk, rest);
  }

  /** Once the buffer is empty, chunks come from the socket. */
  lemma HostPumpsSocket(h: HostSide, isReady: seq<byte> -> bool, n: nat)
    requires n <= |h.unread| && h.done && h.buffer == [] && h.Balanced(isReady)
    ensures h.PumpSocket(n).Balanced(isReady)
    ensures var t := h.PumpSocket(n); t.queued + t.buffer + t.unread == h.queued + h.buffer + h.unread
  {
    hide Decide;
    var chunk, rest := h.unread[..n], h.unread[n..];
    VerdictStable(h.taken, chunk, isReady);
    assert h.unread == chunk + rest;
    assert (h.written + []) + chunk == (h.written + chunk) + [];
    assert h.queued + [] == h.queued && (h.queued + chunk) + [] == h.queued + chunk;
    Associate(h.taken, chunk, rest);
    Associate(h.delivered, h.queued, chunk);
    Associate(h.queued, chunk, rest);
  }

  lemma PumpedDone(h: HostSide)
    requires (h.buffer == [] && h.unread == []) || |h.queued| >= 4194304
    ensures h.Pumped() == h
  {
  }

  /** A chunk from the buffer is what the whole pump begins with, */
  lemma PumpedBuffer(h: HostSide, size: nat)
    requires h.buffer != [] && |h.queued| < 4194304 && size == if |h.buffer| < 65536 then |h.buffer| else 65536
    ensures h.PumpBuffer(size).Pumped() == h.Pumped()
    ensures var t := h.PumpBuffer(size); t.queued == h.queued + h.buffer[..size] && |t.buffer| == |h.buffer| - size
    ensures h.PumpBuffer(size).unread == h.unread
  {
    hide HostSide.Balanced, PumpCount;
    var n := PumpCount(|h.buffer|, |h.queued|);
    PumpStep(|h.buffer|, |h.queued|, size);
    BufferAgain(h, size, n - size);
  }

  /** and when that is empty, a chunk from the socket. */
  lemma PumpedSocket(h: HostSide, size: nat)
    requires h.buffer == [] && h.unread != [] && |h.queued| < 4194304
    requires size == if |h.unread| < 65536 then |h.unread| else 65536
    ensures h.PumpSocket(size).Pumped() == h.Pumped()
    ensures var t := h.PumpSocket(size); t.queued == h.queued + h.unread[..size] && |t.unread| == |h.unread| - size
    ensures h.PumpSocket(size).buffer == []
  {
    hide HostSide.Balanced, PumpCount;
    var m := PumpCount(|h.unread|, |h.queued|);
    PumpDone(0, |h.queued|);
    PumpDone(0, |h.queued| + size);
    PumpStep(|h.unread|, |h.queued|, size);
    NothingFromBuffer(h);
    NothingFromBuffer(h.PumpSocket(size));
    SocketAgain(h, size, m - size);
  }

  lemma NothingFromBuffer(h: HostSide)
    ensures h.PumpBuffer(0) == h
  {
  }

  /** Two chunks are one longer chunk. */
  lemma BufferAgain(h: HostSide, n: nat, size: nat)
    requires n + size <= |h.buffer|
    ensures h.PumpBuffer(n).PumpBuffer(size) == h.PumpBuffer(n + size)
  {
    hide HostSide.Balanced;
    var first, second := h.buffer[..n], h.buffer[n..][..size];
    assert h.buffer[..n + size] == first + second;
    Associate(h.written, first, second);
    Associate(h.queued, first, second);
  }

  lemma SocketAgain(h: HostSide, m: nat, size: nat)
    requires m + size <= |h.unread|
    ensures h.PumpSocket(m).PumpSocket(size) == h.PumpSocket(m + size)
  {
    hide HostSide.Balanced;
    var first, second := h.unread[..m], h.unread[m..][..size];
    assert h.unread[..m + size] == first + second;
    Associate(h.taken, first, second);
    Associate(h.written, first, second);
    Associate(h.queued, first, second);
  }

  lemma PumpedParts(h: HostSide, n: nat, m: nat)
    requires n <= |h.buffer| && m <= |h.unread|
    ensures var t := h.PumpBuffer(n).PumpSocket(m);
      && t.queued == h.queued + h.buffer[..n] + h.unread[..m] && |t.queued| == |h.queued| + n + m
      && t.buffer == h.buffer[n..] && t.unread == h.unread[m..]
    ensures n == |h.buffer| ==> h.buffer[n..] == []
    ensures m == |h.unread| ==> h.unread[m..] == []
  {
  }

  lemma NothingLost(q: seq<byte>, b: seq<byte>, u: seq<byte>, n: nat, m: nat)
    requires n <= |b| && m <= |u| && (m > 0 ==> n == |b|)
    ensures (q + b[..n] + u[..m]) + b[n..] + u[m..] == q + b + u
  {
    assert u == u[..m] + u[m..];
    if m > 0 {
      assert b[..n] == b && b[n..] == [];
      Associate(q + b, u[..m], u[m..]);
    } else {
      assert b == b[..n] + b[n..];
      Associate(q, b[..n], b[n..]);
    }
  }

  /** What the whole pump does: it moves as much of the buffer as the queue takes, then as much of
      the socket's input, drains both or reaches the mark of 4 MiB, and loses nothing. */
  lemma WhatIsPumped(h: HostSide, n: nat, m: nat)
    requires n == PumpCount(|h.buffer|, |h.queued|) && m == PumpCount(|h.unread|, |h.queued| + n)
    ensures var t := h.Pumped();
      && t.queued == h.queued + h.buffer[..n] + h.unread[..m]
      && t.buffer == h.buffer[n..] && t.unread == h.unread[m..]
    ensures var t := h.Pumped(); (t.buffer == [] && t.unread == []) || |t.queued| >= 4194304
    ensures |h.queued| >= 4194304 ==> h.Pumped() == h
    ensures var t := h.Pumped(); t.queued + t.buffer + t.unread == h.queued + h.buffer + h.unread
  {
    hide HostSide.Balanced, PumpCount, HostSide.PumpBuffer, HostSide.PumpSocket;
    if |h.queued| >= 4194304 {
      PumpDone(|h.buffer|, |h.queued|);
      PumpDone(|h.unread|, |h.queued|);
      PumpedDone(h);
    }
    if n < |h.buffer| {
      PumpDone(|h.unread|, |h.queued| + n);
    }
    PumpedParts(h, n, m);
    NothingLost(h.queued, h.buffer, h.unread, n, m);
  }

  lemma HostDelivers(h: HostSide, isReady: seq<byte> -> bool, n: nat)
    requires n <= |h.queued| && h.Balanced(isReady)
    ensures h.Deliver(n).Balanced(isReady)
  {
    assert h.queued == h.queued[..n] + h.queued[n..];
    Associate(h.delivered, h.queued[..n], h.queued[n..]);
  }

  lemma TakenAndUnread(h: HostSide, isReady: seq<byte> -> bool)
    requires h.Balanced(isReady)
    ensures h.received == h.taken + h.unread
  {
  }

  // ----- the ledger of what the local server sends -----

  datatype LocalSide = LocalSide(
    done: bool,
    request: seq<byte>,
    received: seq<byte>,
    unread: seq<byte>,
    written: seq<byte>,
    queued: seq<byte>,
    delivered: seq<byte>)
  {
    /** The host gets the request line first, then every local byte, delivered, queued or unread. */
    ghost predicate Balanced() {
      && received == written + unread
      && request + written == delivered + queued
      && (!done ==> written == [])
    }

    ghost function Receive(bytes: seq<byte>): LocalSide {
      this.(received := received + bytes, unread := unread + bytes)
    }

    ghost function SendRequest(line: seq<byte>): LocalSide {
      this.(request := line, queued := queued + line)
    }

    ghost function Pump(n: nat): LocalSide
      requires n <= |unread|
    {
      this.(unread := unread[n..], written := written + unread[..n], queued := queued + unread[..n])
    }

    ghost function Deliver(n: nat): LocalSide
      requires n <= |queued|
    {
      this.(queued := queued[n..], delivered := delivered + queued[..n])
    }
  }

  lemma LocalReceives(l: LocalSide, bytes: seq<byte>)
    requires l.Balanced()
    ensures l.Receive(bytes).Balanced()
  {
    Associate(l.written, l.unread, bytes);
  }

  /** The request line is the first thing the host is sent. */
  lemma RequestSent(l: LocalSide, line: seq<byte>)
    requires !l.done && l.request == [] && l.Balanced()
    ensures l.queued == [] && l.SendRequest(line).Balanced()
  {
    assert [] + l.written == [];
    assert line + l.written == line && l.delivered + (l.queued + line) == line;
  }

  lemma LocalPumps(l: LocalSide, n: nat)
    requires n <= |l.unread| && l.done && l.Balanced()
    ensures l.Pump(n).Balanced()
  {
    var chunk, rest := l.unread[..n], l.unread[n..];
    assert l.unread == chunk + rest;
    Associate(l.written, chunk, rest);
    Associate(l.request, l.written, chunk);
    Associate(l.delivered, l.queued, chunk);
  }

  lemma PumpPump(l: LocalSide, n: nat, size: nat)
    requires n + size <= |l.unread|
    ensures l.Pump(n).Pump(size) == l.Pump(n + size)
    ensures l.Pump(0) == l
  {
    hide LocalSide.Balanced;
    assert l.unread[..n + size] == l.unread[..n] + l.unread[n..][..size];
    Associate(l.written, l.unread[..n], l.unread[n..][..size]);
    Associate(l.queued, l.unread[..n], l.unread[n..][..size]);
  }

  lemma LocalDelivers(l: LocalSide, n: nat)
    requires n <= |l.queued| && l.Balanced()
    ensures l.Deliver(n).Balanced()
  {
    assert l.queued == l.queued[..n] + l.queued[n..];
    Associate(l.delivered, l.queued[..n], l.queued[n..]);
  }

  lemma LocalAllowed(l: LocalSide)
    requires l.Balanced()
    ensures l.(done := true).Balanced()
  {
  }

  /** Before the first byte, both ledgers balance and nothing is decided. */
  lemma NothingYet(isReady: seq<byte> -> bool)
    ensures HostSide(false, [], [], [], [], [], [], []).Balanced(isReady)
    ensures LocalSide(false, [], [], [], [], [], []).Balanced()
    ensures Decide([], isReady) == Pending
  {
  }

  // ----- the tunnel -----

  datatype Event =
    | Start
    | Stop
    | Encrypted(certificateMatches: bool)
    | SslErrors(certificateMatches: bool)
    | LocalConnected
    | HostSends(bytes: seq<byte>)
    | LocalSends(bytes: seq<byte>)
    | HostAccepts(count: nat)
    | LocalAccepts(count: nat)
    | Disconnected
    | HostError
    | LocalError
    | Timeout

  class Tunnel {
    const configValid: bool
    const certificatePinned: bool
    const requestLine: seq<byte>
    const isReady: seq<byte> -> bool
    /** Whether the receiver of the forwarding signal calls stop(). */
    const stopsOnForwarding: bool

    /** Both sockets exist. */
    var open: bool
    var localConnected: bool
    var timerActive: bool
    var localIn: seq<byte>
    var localOut: seq<byte>
    var remoteIn: seq<byte>
    var remoteOut: seq<byte>
    var handshakeBuffer: seq<byte>
    var handshakeDone: bool
    var peerVerified: bool
    var finished: bool

    // What has happened since the last start.
    ghost var hostBytes: seq<byte>      // received from the host
    ghost var taken: seq<byte>          // read from the remote socket
    ghost var toLocal: seq<byte>        // written to the local socket
    ghost var localDelivered: seq<byte> // of these, accepted by the local server
    ghost var localBytes: seq<byte>     // received from the local server
    ghost var toHost: seq<byte>         // pumped to the remote socket
    ghost var hostDelivered: seq<byte>  // accepted by the host, with the request line
    ghost var signals: seq<Signal>

    constructor (configValid: bool, certificatePinned: bool, requestLine: seq<byte>, isReady: seq<byte> -> bool,
                 stopsOnForwarding: bool)
      ensures Inv() && !open && signals == []
    {
      this.configValid, this.certificatePinned := configValid, certificatePinned;
      this.requestLine, this.isReady, this.stopsOnForwarding := requestLine, isReady, stopsOnForwarding;
      open, localConnected, timerActive, handshakeDone, peerVerified, finished := false, false, false, false, false, false;
      localIn, localOut, remoteIn, remoteOut, handshakeBuffer := [], [], [], [], [];
      hostBytes, taken, toLocal, localDelivered, localBytes, toHost, hostDelivered := [], [], [], [], [], [], [];
      signals := [];
    }

    ghost function Verdict(): Verdict
      reads this`taken
    {
      Decide(taken, isReady)
    }

    ghost function Request(): seq<byte>
      reads this`peerVerified
    {
      if peerVerified then requestLine else []
    }

    ghost function Host(): HostSide
      reads this
    {
      HostSide(handshakeDone, hostBytes, taken, remoteIn, handshakeBuffer, toLocal, localOut, localDelivered)
    }

    ghost function Local(): LocalSide
      reads this
    {
      LocalSide(handshakeDone, Request(), localBytes, localIn, toHost, remoteOut, hostDelivered)
    }

    ghost predicate HostConserved()
      reads this
    {
      Host().Balanced(isReady)
    }

    ghost predicate LocalConserved()
      reads this
    {
      Local().Balanced()
    }

    /** A handshake in progress is undecided, and all bytes taken are in its buffer. */
    ghost predicate HandshakeOk()
      reads this`handshakeDone, this`peerVerified, this`timerActive, this`open, this`taken, this`handshakeBuffer
    {
      && (handshakeDone ==> peerVerified && !timerActive)
      && (open && !handshakeDone ==> Verdict() == Pending && handshakeBuffer == taken && timerActive)
    }

    /** At most forwarding, then at most one finished; a clean one only after forwarding, a
        handshake failure only on a stream that deserves it. */
    ghost predicate SignalsOk()
      reads this`open, this`signals, this`handshakeDone, this`taken
    {
      && (open ==> signals == if handshakeDone then [Forwarding] else [])
      && (!open ==>
            || signals == (if handshakeDone then [Forwarding] else [])
            || exists r :: signals == (if handshakeDone then [Forwarding, Finished(r)] else [Finished(r)])
                 && (r == Clean ==> handshakeDone)
                 && (r == InvalidResponse || r == Refused ==> Verdict() == Rejected(r)))
    }

    ghost predicate QueuesBounded()
      reads this`localOut, this`remoteOut
    {
      && |localOut| < HIGH_WATER_MARK + CHUNK
      && (|remoteOut| < HIGH_WATER_MARK + CHUNK || |remoteOut| <= |requestLine|)
    }

    ghost predicate Base()
      reads this
    {
      && HostConserved() && LocalConserved() && HandshakeOk() && SignalsOk() && QueuesBounded()
      && (open ==> !finished)
    }

    /** While forwarding, each direction has drained its source or waits for a queue at or above
        the mark, which is not empty, so that its bytesWritten signal will come. */
    ghost predicate PumpsRun()
      reads this`open, this`handshakeDone, this`localConnected, this`handshakeBuffer, this`remoteIn, this`localIn,
        this`localOut, this`remoteOut
    {
      open && handshakeDone ==>
        && localConnected
        && ((handshakeBuffer == [] && remoteIn == []) || |localOut| >= HIGH_WATER_MARK)
        && (localIn == [] || |remoteOut| >= HIGH_WATER_MARK || |localOut| >= HIGH_WATER_MARK)
    }

    /** The host's bytes are judged as soon as they can be; none arrive on an unverified socket. */
    ghost predicate HandshakeRuns()
      reads this`open, this`handshakeDone, this`peerVerified, this`localConnected, this`remoteIn
    {
      open && !handshakeDone && (!peerVerified || localConnected) ==> remoteIn == []
    }

    ghost predicate Inv()
      reads this
    {
      Base() && PumpsRun() && HandshakeRuns()
    }

    // ----- consequences of the invariant -----

    /** Once every received byte has been taken, the handshake's state is what the host's byte
        stream says, whatever the reads were. */
    lemma OutcomeFollowsStream()
      requires Inv()
      ensures handshakeDone ==> peerVerified && Decide(hostBytes, isReady).Accepted?
      ensures open && !handshakeDone && (remoteIn == [] || localConnected) ==> Decide(hostBytes, isReady) == Pending
      ensures forall r :: Finished(r) in signals && (r == InvalidResponse || r == Refused) ==>
                Decide(hostBytes, isReady) == Rejected(r)
    {
      assert hostBytes == taken + hostBytes[|taken|..];
      if Verdict() != Pending {
        VerdictStable(taken, hostBytes[|taken|..], isReady);
      }
    }

    /** Nothing but the request reaches the host before the handshake is done, and nothing at all
        before the certificate has been verified. */
    lemma NothingBeforeHandshake()
      requires Inv()
      ensures !handshakeDone ==> hostDelivered + remoteOut == Request() && localDelivered + localOut == []
      ensures !peerVerified ==> hostDelivered == [] && remoteOut == []
    {
      assert Request() + [] == Request();
    }

    /** Once forwarding has begun, also after the end, all bytes are accounted for, in order. */
    lemma ForwardingConserves()
      requires Inv() && handshakeDone
      ensures Decide(hostBytes, isReady) == Accepted(localDelivered + localOut + handshakeBuffer + remoteIn)
      ensures requestLine + localBytes == hostDelivered + remoteOut + localIn
    {
      VerdictStable(taken, remoteIn, isReady);
      assert requestLine + localBytes == (requestLine + toHost) + localIn;
    }

    ghost predicate AllDelivered()
      reads this`hostBytes, this`localDelivered, this`hostDelivered, this`localBytes
    {
      Decide(hostBytes, isReady) == Accepted(localDelivered) && hostDelivered == requestLine + localBytes
    }

    ghost predicate NothingHeld()
      reads this`localIn, this`localOut, this`remoteIn, this`remoteOut, this`handshakeBuffer
    {
      localOut == [] && remoteOut == [] && handshakeBuffer == [] && remoteIn == [] && localIn == []
    }

    /** Both peers have everything exactly when both sockets and the buffer are empty. */
    lemma DeliveredExactly()
      requires Inv() && handshakeDone
      ensures AllDelivered() <==> NothingHeld()
    {
      hide HostSide.Balanced, LocalSide.Balanced, Decide;
      ForwardingConserves();
      assert |localDelivered + localOut + handshakeBuffer + remoteIn| ==
             |localDelivered| + |localOut| + |handshakeBuffer| + |remoteIn|;
      assert |hostDelivered + remoteOut + localIn| == |hostDelivered| + |remoteOut| + |localIn|;
    }

    /** A forwarding tunnel with empty output queues has delivered everything it received. */
    lemma QuiescentMeansDelivered()
      requires Inv() && open && handshakeDone && localOut == [] && remoteOut == []
      ensures AllDelivered()
    {
      hide HostSide.Balanced, LocalSide.Balanced, Decide;
      DeliveredExactly();
    }

    // ----- the object's methods -----

    method Start() returns (ok: bool)
      requires Inv()
      modifies this
      ensures Inv()
      ensures ok == (configValid && certificatePinned && !old(open))
      ensures ok ==>
        && open && !peerVerified && !handshakeDone && !localConnected && signals == []
        && hostBytes == [] && localBytes == [] && hostDelivered == [] && localDelivered == []
      ensures !ok ==>
        && open == old(open) && signals == old(signals) && handshakeDone == old(handshakeDone)
        && hostBytes == old(hostBytes) && localBytes == old(localBytes)
    {
      hide Decide, HostSide.Balanced, LocalSide.Balanced;
      if !configValid {
        return false;
      }
      if open {
        return false;
      }
      if !certificatePinned {
        return false;
      }
      OpenSockets();
      ok := true;
    }

    method OpenSockets()
      modifies this
      ensures Inv() && open && !peerVerified && !handshakeDone && !localConnected && signals == []
      ensures hostBytes == [] && localBytes == [] && hostDelivered == [] && localDelivered == []
    {
      hide Decide, HostSide.Balanced, LocalSide.Balanced;
      NewHistory();
      NewSockets();
      finished, handshakeDone, peerVerified, timerActive := false, false, false, true;
      NothingYet(isReady);
      assert Host() == HostSide(false, [], [], [], [], [], [], []);
      assert Local() == LocalSide(false, [], [], [], [], [], []);
    }

    method NewSockets()
      modifies this`open, this`localConnected, this`localIn, this`localOut, this`remoteIn, this`remoteOut,
        this`handshakeBuffer
      ensures open && !localConnected
      ensures localIn == [] && localOut == [] && remoteIn == [] && remoteOut == [] && handshakeBuffer == []
    {
      open, localConnected := true, false;
      localIn, localOut, remoteIn, remoteOut, handshakeBuffer := [], [], [], [], [];
    }

    ghost method NewHistory()
      modifies this`hostBytes, this`taken, this`toLocal, this`localDelivered, this`localBytes, this`toHost,
        this`hostDelivered, this`signals
      ensures hostBytes == [] && taken == [] && toLocal == [] && localDelivered == []
      ensures localBytes == [] && toHost == [] && hostDelivered == [] && signals == []
    {
      hostBytes, taken, toLocal, localDelivered := [], [], [], [];
      localBytes, toHost, hostDelivered, signals := [], [], [], [];
    }

    method StopTunnel()
      requires HostConserved() && LocalConserved()
      modifies this`finished, this`timerActive, this`open
      ensures finished && !timerActive && !open
      ensures HostConserved() && LocalConserved()
    {
      hide HostSide.Balanced, LocalSide.Balanced;
      finished := true;
      timerActive := false;
      open := false;
    }

    /** Ends the tunnel with a message, once. */
    method FailWith(reason: Reason)
      requires HostConserved() && LocalConserved() && QueuesBounded() && reason != Clean
      requires handshakeDone ==> peerVerified && !timerActive
      requires !finished ==> open && signals == (if handshakeDone then [Forwarding] else [])
      requires reason == InvalidResponse || reason == Refused ==> Verdict() == Rejected(reason)
      modifies this`finished, this`timerActive, this`open, this`signals
      ensures old(!finished) ==> Inv() && finished && !open && signals == old(signals) + [Finished(reason)]
      ensures old(finished) ==> finished && open == old(open) && timerActive == old(timerActive) && signals == old(signals)
    {
      hide HostSide.Balanced, LocalSide.Balanced, Decide;
      if finished {
        return;
      }
      StopTunnel();
      signals := signals + [Finished(reason)];
      assert signals == if handshakeDone then [Forwarding, Finished(reason)] else [Finished(reason)];
    }

    method FinishCleanly()
      requires Inv() && (open || finished)
      modifies this`finished, this`timerActive, this`open, this`signals
      ensures Inv() && !open && finished
      ensures signals ==
        if old(finished) then old(signals) else old(signals) + [Finished(if handshakeDone then Clean else ClosedEarly)]
      ensures handshakeDone ==> (AllDelivered() <==> old(NothingHeld()))
    {
      hide HostSide.Balanced, LocalSide.Balanced, Decide, AllDelivered;
      if handshakeDone {
        DeliveredExactly();
      }
      if finished {
        return;
      }
      if !handshakeDone {
        FailWith(ClosedEarly);
        return;
      }
      StopTunnel();
      signals := signals + [Finished(Clean)];
      assert signals == [Forwarding, Finished(Clean)];
    }

    method MoveFromLocal(size: nat)
      requires size <= |localIn|
      modifies this`localIn, this`remoteOut, this`toHost
      ensures Local() == old(Local().Pump(size))
    {
      var chunk := localIn[..size];
      localIn := localIn[size..];
      remoteOut := remoteOut + chunk;
      toHost := toHost + chunk;
    }

    method MoveFromBuffer(size: nat)
      requires size <= |handshakeBuffer|
      modifies this`handshakeBuffer, this`localOut, this`toLocal
      ensures Host() == old(Host().PumpBuffer(size))
    {
      var chunk := handshakeBuffer[..size];
      handshakeBuffer := handshakeBuffer[size..];
      localOut := localOut + chunk;
      toLocal := toLocal + chunk;
    }

    method MoveFromRemote(size: nat)
      requires size <= |remoteIn|
      modifies this`remoteIn, this`taken, this`localOut, this`toLocal
      ensures Host() == old(Host().PumpSocket(size))
    {
      var chunk := remoteIn[..size];
      remoteIn := remoteIn[size..];
      taken := taken + chunk;
      localOut := localOut + chunk;
      toLocal := toLocal + chunk;
    }

    method ReadAllRemote()
      modifies this`handshakeBuffer, this`taken, this`remoteIn
      ensures Host() == old(Host().TakeAll())
    {
      handshakeBuffer := handshakeBuffer + remoteIn;
      taken := taken + remoteIn;
      remoteIn := [];
    }

    /** How many bytes the local pump moves when it runs now. */
    ghost function Pumped(): (n: nat)
      reads this`open, this`handshakeDone, this`localIn, this`remoteOut
      ensures n <= |localIn|
    {
      if open && handshakeDone then PumpCount(|localIn|, |remoteOut|) else 0
    }

    /** Local to host, up to the high-water mark. */
    method HandleLocalReadyRead()
      requires Base()
      modifies this`localIn, this`remoteOut, this`toHost
      ensures Base() && Local() == old(Local().Pump(Pumped()))
    {
      hide Decide, HostSide.Balanced, LocalSide.Balanced, HandshakeOk, SignalsOk, PumpCount;
      ghost var n, start, goal := 0, Local(), Pumped();
      PumpPump(start, 0, 0);
      if !open || !handshakeDone {
        return;
      }
      while !finished && open && |localIn| > 0 && |remoteOut| < HIGH_WATER_MARK
        invariant 0 <= n <= |start.unread| && Local() == start.Pump(n)
        invariant n + PumpCount(|localIn|, |remoteOut|) == goal
        invariant LocalConserved() && QueuesBounded()
        decreases |localIn|
      {
        var size := if |localIn| < CHUNK then |localIn| else CHUNK;
        LocalPumps(Local(), size);
        PumpPump(start, n, size);
        PumpStep(|localIn|, |remoteOut|, size);
        MoveFromLocal(size);
        n := n + size;
      }
      PumpDone(|localIn|, |remoteOut|);
    }

    /** Host to local, up to the high-water mark: the handshake buffer first, then the socket. */
    method PumpToLocal()
      requires Base() && open && handshakeDone
      modifies this`handshakeBuffer, this`remoteIn, this`localOut, this`taken, this`toLocal
      ensures Base() && Host() == old(Host().Pumped())
      ensures var n := PumpCount(old(|handshakeBuffer|), old(|localOut|));
        var m := PumpCount(old(|remoteIn|), old(|localOut|) + n);
        && localOut == old(localOut) + old(handshakeBuffer)[..n] + old(remoteIn)[..m]
        && handshakeBuffer == old(handshakeBuffer)[n..] && remoteIn == old(remoteIn)[m..]
      ensures (handshakeBuffer == [] && remoteIn == []) || |localOut| >= 4194304
      ensures localOut + handshakeBuffer + remoteIn == old(localOut + handshakeBuffer + remoteIn)
    {
      hide HostSide.Balanced, LocalSide.Balanced, Decide, PumpCount;
      hide HostSide.Pumped, HostSide.PumpBuffer, HostSide.PumpSocket;
      ghost var goal, n := Host().Pumped(), PumpCount(|handshakeBuffer|, |localOut|);
      WhatIsPumped(Host(), n, PumpCount(|remoteIn|, |localOut| + n));
      while !finished && open && |localOut| < HIGH_WATER_MARK
        invariant HostConserved() && QueuesBounded()
        invariant Host().Pumped() == goal
        decreases |handshakeBuffer| + |remoteIn|
      {
        if handshakeBuffer != [] {
          var size := if |handshakeBuffer| < CHUNK then |handshakeBuffer| else CHUNK;
          HostPumpsBuffer(Host(), isReady, size);
          PumpedBuffer(Host(), size);
          MoveFromBuffer(size);
        } else if |remoteIn| > 0 {
          var size := if |remoteIn| < CHUNK then |remoteIn| else CHUNK;
          HostPumpsSocket(Host(), isReady, size);
          PumpedSocket(Host(), size);
          MoveFromRemote(size);
        } else {
          break;
        }
      }
      PumpedDone(Host());
    }

    /** Judges the bytes that have arrived; true means that forwarding has begun. */
    method Handshake() returns (goOn: bool)
      requires Base() && open && peerVerified && localConnected && !handshakeDone
      modifies this`handshakeBuffer, this`taken, this`remoteIn, this`handshakeDone, this`timerActive, this`signals,
        this`finished, this`open
      ensures Base() && (!goOn ==> PumpsRun())
      ensures taken == old(taken + remoteIn) && remoteIn == []
      ensures Outcome(taken) && (goOn <==> open && handshakeDone)
      ensures match Verdict()
        case Accepted(residual) => handshakeBuffer == residual
        case _ => true
    {
      hide HostSide.Balanced, LocalSide.Balanced, Decide;
      HostTakesAll(Host(), isReady);
      ReadAllRemote();
      goOn := JudgeBuffer();
    }

    method JudgeBuffer() returns (goOn: bool)
      requires HostConserved() && LocalConserved() && QueuesBounded() && handshakeBuffer == taken && remoteIn == []
      requires open && !finished && peerVerified && localConnected && !handshakeDone && timerActive && signals == []
      modifies this`handshakeBuffer, this`handshakeDone, this`timerActive, this`signals, this`finished, this`open
      ensures Base() && (!goOn ==> PumpsRun())
      ensures Outcome(taken) && (goOn <==> open && handshakeDone)
      ensures match Verdict()
        case Accepted(residual) => handshakeBuffer == residual
        case _ => true
    {
      hide HostSide.Balanced, LocalSide.Balanced, Decide, NewlineIndex, QueuesBounded;
      DecideParts(taken, isReady);
      var newline := NewlineIndex(handshakeBuffer);
      if newline == |handshakeBuffer| {
        if |handshakeBuffer| > MAX_HANDSHAKE_BYTES {
          FailWith(InvalidResponse);
        }
        return false;
      }
      if newline > MAX_HANDSHAKE_BYTES {
        FailWith(InvalidResponse);
        return false;
      }
      goOn := JudgeLine(newline);
    }

    method JudgeLine(newline: nat) returns (goOn: bool)
      requires HostConserved() && LocalConserved() && QueuesBounded() && handshakeBuffer == taken
      requires newline == NewlineIndex(taken) < |taken| && newline <= MAX_HANDSHAKE_BYTES
      requires open && !finished && peerVerified && !handshakeDone && timerActive && signals == []
      modifies this`handshakeBuffer, this`handshakeDone, this`timerActive, this`signals, this`finished, this`open
      ensures Base() && (!goOn ==> PumpsRun())
      ensures Outcome(taken) && (goOn <==> open && handshakeDone)
      ensures match Verdict()
        case Accepted(residual) => handshakeBuffer == residual
        case _ => true
    {
      hide HostSide.Balanced, LocalSide.Balanced, Decide, NewlineIndex, QueuesBounded, SignalsOk;
      DecideParts(taken, isReady);
      var line := handshakeBuffer[..newline];
      ghost var all := handshakeBuffer;
      handshakeBuffer := handshakeBuffer[newline + 1..];
      if !isReady(line) {
        HostForgets(Host().(buffer := all), isReady, handshakeBuffer);
        FailWith(Refused);
        return false;
      }
      HandshakeAccepted(Host().(buffer := all), isReady, handshakeBuffer);
      BeginForwarding();
      goOn := !finished;
    }

    /** A slot of the forwarding signal may stop the tunnel. */
    method BeginForwarding()
      requires Host().Accept(handshakeBuffer).Balanced(isReady) && LocalConserved() && QueuesBounded()
      requires open && !finished && peerVerified && !handshakeDone && signals == []
      modifies this`handshakeDone, this`timerActive, this`signals, this`finished, this`open
      ensures Base() && handshakeDone && open == !stopsOnForwarding && finished == stopsOnForwarding
      ensures signals == [Forwarding]
    {
      hide HostSide.Balanced, LocalSide.Balanced, Decide, QueuesBounded;
      LocalAllowed(Local());
      handshakeDone := true;
      timerActive := false;
      signals := signals + [Forwarding];
      if stopsOnForwarding {
        StopTunnel();
      }
    }

    /** What a handshake on the given bytes comes to. */
    twostate predicate Outcome(bytes: seq<byte>)
      reads this
    {
      match Decide(bytes, isReady)
      case Pending => open && !handshakeDone && signals == old(signals)
      case Rejected(r) => !open && !handshakeDone && signals == old(signals) + [Finished(r)]
      case Accepted(_) => handshakeDone && open == !stopsOnForwarding && signals == old(signals) + [Forwarding]
    }

    /** Host to local: the handshake first, then the pump, then what the local server has queued. */
    method HandleRemoteReadyRead()
      requires Base() && (open && handshakeDone ==> localConnected) && (open && !peerVerified ==> remoteIn == [])
      modifies this`handshakeBuffer, this`taken, this`remoteIn, this`handshakeDone, this`timerActive, this`signals,
        this`finished, this`open, this`localOut, this`toLocal, this`localIn, this`remoteOut, this`toHost
      ensures Inv()
      ensures old(signals) <= signals
      ensures old(open && handshakeDone) ==> open && handshakeDone && signals == old(signals)
      // while forwarding: the whole host pump, then the local pump unless the host pump had to stop
      ensures old(open && handshakeDone && peerVerified && !finished) ==>
        && Host() == old(Host().Pumped())
        && Local() ==
           if handshakeBuffer == [] && |localOut| < 4194304 then old(Local().Pump(Pumped())) else old(Local())
      ensures old(open && !handshakeDone && peerVerified && localConnected) ==> Outcome(old(taken + remoteIn))
    {
      hide HostSide.Balanced, LocalSide.Balanced, Decide, SignalsOk, QueuesBounded;
      if finished || !peerVerified || !open || !localConnected {
        return;
      }
      if !handshakeDone {
        var goOn := Handshake();
        if !goOn {
          return;
        }
      }
      PumpBoth();
    }

    lemma LocalPumped()
      requires open && handshakeDone
      ensures var t := Local().Pump(Pumped()); t.unread == [] || |t.queued| >= 4194304
    {
      hide LocalSide.Balanced, PumpCount;
    }

    method PumpBoth()
      requires Base() && open && handshakeDone && localConnected
      modifies this`handshakeBuffer, this`taken, this`remoteIn, this`localOut, this`toLocal, this`localIn,
        this`remoteOut, this`toHost
      ensures Inv() && Host() == old(Host().Pumped())
      ensures Local() ==
        if handshakeBuffer == [] && |localOut| < 4194304 then old(Local().Pump(Pumped())) else old(Local())
    {
      hide HostSide.Balanced, LocalSide.Balanced, Decide, SignalsOk, QueuesBounded, PumpCount;
      hide HostSide.Pumped, LocalSide.Pump, Pumped;
      LocalPumped();
      PumpToLocal();
      if !finished && open && handshakeBuffer == [] && |localOut| < HIGH_WATER_MARK {
        HandleLocalReadyRead();
      }
    }

    // ----- the signals -----

    /** The certificate the host presents must be the pinned one; only then is the request sent. */
    method OnEncrypted(certificateMatches: bool)
      requires Inv() && open && !peerVerified
      modifies this`finished, this`timerActive, this`open, this`signals, this`peerVerified, this`remoteOut
      ensures Inv()
      ensures open == peerVerified == certificateMatches
      ensures certificateMatches ==> signals == old(signals) && remoteOut == requestLine
      ensures !certificateMatches ==> signals == old(signals) + [Finished(BadCertificate)]
    {
      hide HostSide.Balanced, LocalSide.Balanced, Decide;
      if !certificateMatches {
        FailWith(BadCertificate);
        return;
      }
      RequestSent(Local(), requestLine);
      peerVerified := true;
      remoteOut := remoteOut + requestLine;
    }

    /** The socket hands out no bytes before it is encrypted. */
    method OnHostSends(bytes: seq<byte>)
      requires Inv() && open && peerVerified
      modifies this
      ensures Inv() && hostBytes == old(hostBytes) + bytes && localBytes == old(localBytes)
      ensures localDelivered == old(localDelivered) && hostDelivered == old(hostDelivered) && old(signals) <= signals
      ensures peerVerified && localConnected == old(localConnected)
      ensures old(handshakeDone) ==> open && handshakeDone && signals == old(signals)
      ensures old(!handshakeDone && localConnected) ==> Outcome(hostBytes)
    {
      hide HostSide.Balanced, LocalSide.Balanced, Decide, SignalsOk, QueuesBounded, HandshakeOk, HandshakeRuns;
      HostReceives(Host(), isReady, bytes);
      remoteIn := remoteIn + bytes;
      hostBytes := hostBytes + bytes;
      TakenAndUnread(Host(), isReady);
      HandleRemoteReadyRead();
    }

    /** connected of the local socket */
    method OnLocalConnected()
      requires Inv() && open && !localConnected
      modifies this
      ensures Inv() && hostBytes == old(hostBytes) && localBytes == old(localBytes)
      ensures localDelivered == old(localDelivered) && hostDelivered == old(hostDelivered) && old(signals) <= signals
      ensures localConnected && peerVerified == old(peerVerified)
      ensures peerVerified ==> Outcome(hostBytes)
    {
      hide HostSide.Balanced, LocalSide.Balanced, Decide, SignalsOk, QueuesBounded;
      localConnected := true;
      TakenAndUnread(Host(), isReady);
      HandleRemoteReadyRead();
    }

    method OnLocalSends(bytes: seq<byte>)
      requires Inv() && open
      modifies this
      ensures Inv() && open && localBytes == old(localBytes) + bytes && hostBytes == old(hostBytes)
      ensures localDelivered == old(localDelivered) && hostDelivered == old(hostDelivered) && signals == old(signals)
    {
      hide HostSide.Balanced, LocalSide.Balanced, Decide, SignalsOk, QueuesBounded;
      LocalReceives(Local(), bytes);
      localIn := localIn + bytes;
      localBytes := localBytes + bytes;
      HandleLocalReadyRead();
    }

    /** bytesWritten of the remote socket */
    method OnHostAccepts(count: nat)
      requires Inv() && open && count <= |remoteOut|
      modifies this
      ensures Inv() && open && handshakeDone == old(handshakeDone) && signals == old(signals)
      ensures hostDelivered == old(hostDelivered + remoteOut[..count]) && localDelivered == old(localDelivered)
      ensures hostBytes == old(hostBytes) && localBytes == old(localBytes)
    {
      hide HostSide.Balanced, LocalSide.Balanced, Decide, SignalsOk, HandshakeOk, HandshakeRuns;
      LocalDelivers(Local(), count);
      hostDelivered := hostDelivered + remoteOut[..count];
      remoteOut := remoteOut[count..];
      HandleLocalReadyRead();
    }

    /** bytesWritten of the local socket */
    method OnLocalAccepts(count: nat)
      requires Inv() && open && count <= |localOut|
      modifies this
      ensures Inv() && old(signals) <= signals
      ensures old(handshakeDone) ==> open && handshakeDone && signals == old(signals)
      ensures localDelivered == old(localDelivered + localOut[..count]) && hostDelivered == old(hostDelivered)
      ensures hostBytes == old(hostBytes) && localBytes == old(localBytes)
    {
      hide HostSide.Balanced, LocalSide.Balanced, Decide, SignalsOk;
      HostDelivers(Host(), isReady, count);
      localDelivered := localDelivered + localOut[..count];
      localOut := localOut[count..];
      HandleRemoteReadyRead();
    }

    method OnFailure(reason: Reason)
      requires Inv() && open && reason in {TimedOut, BadCertificate, HostLost, LocalLost}
      modifies this`finished, this`timerActive, this`open, this`signals
      ensures Inv() && !open && signals == old(signals) + [Finished(reason)]
    {
      hide HostSide.Balanced, LocalSide.Balanced, Decide, QueuesBounded;
      FailWith(reason);
    }

    method OnStop()
      requires Inv()
      modifies this`finished, this`timerActive, this`open
      ensures Inv() && !open
    {
      hide HostSide.Balanced, LocalSide.Balanced, Decide;
      StopTunnel();
    }

    lemma OpenTunnel()
      requires Inv() && open
      ensures !finished && (timerActive <==> !handshakeDone)
    {
    }

    /** One event; a signal of a socket or timer that is not there does not come. */
    method Step(e: Event)
      requires Inv()
      modifies this
      ensures Inv()
      ensures !e.Start? ==>
        && old(signals) <= signals && old(hostBytes) <= hostBytes && old(localBytes) <= localBytes
        && old(localDelivered) <= localDelivered && old(hostDelivered) <= hostDelivered
      ensures !old(open) && !e.Start? ==> !open && signals == old(signals)
      // what an event does to a running tunnel
      ensures old(open) ==>
        match e
        case Start => open && signals == old(signals) && hostBytes == old(hostBytes)
        case Stop => !open && signals == old(signals)
        case Encrypted(matches) =>
          !old(peerVerified) ==>
            && open == peerVerified == matches
            && signals == (if matches then old(signals) else old(signals) + [Finished(BadCertificate)])
            && (matches ==> remoteOut == requestLine)
        case SslErrors(matches) =>
          open == matches && signals == if matches then old(signals) else old(signals) + [Finished(BadCertificate)]
        case LocalConnected =>
          !old(localConnected) ==> localConnected && (old(peerVerified) ==> Outcome(hostBytes))
        case HostSends(bytes) =>
          old(peerVerified) ==>
            && hostBytes == old(hostBytes) + bytes
            && (old(handshakeDone) ==> open && handshakeDone && signals == old(signals))
            && (old(!handshakeDone && localConnected) ==> Outcome(hostBytes))
        case LocalSends(bytes) => open && localBytes == old(localBytes) + bytes && signals == old(signals)
        case HostAccepts(count) =>
          count <= old(|remoteOut|) ==> hostDelivered == old(hostDelivered) + old(remoteOut)[..count]
        case LocalAccepts(count) =>
          count <= old(|localOut|) ==> localDelivered == old(localDelivered) + old(localOut)[..count]
        case Disconnected =>
          && !open && signals == old(signals) + [Finished(if old(handshakeDone) then Clean else ClosedEarly)]
          && (old(handshakeDone) ==> (AllDelivered() <==> old(NothingHeld())))
        case HostError => !open && signals == old(signals) + [Finished(HostLost)]
        case LocalError => !open && signals == old(signals) + [Finished(LocalLost)]
        case Timeout =>
          if old(handshakeDone) then open && signals == old(signals)
          else !open && signals == old(signals) + [Finished(TimedOut)]
    {
      hide Inv;
      if open {
        OpenTunnel();
      }
      match e
      case Start =>
        var ok := Start();
      case Stop =>
        OnStop();
      case Encrypted(matches) =>
        if open && !peerVerified {
          OnEncrypted(matches);
        }
      case SslErrors(matches) =>
        if open && !matches {
          OnFailure(BadCertificate);
        }
      case LocalConnected =>
        if open && !localConnected {
          OnLocalConnected();
        }
      case HostSends(bytes) =>
        if open && peerVerified {
          OnHostSends(bytes);
        }
      case LocalSends(bytes) =>
        if open {
          OnLocalSends(bytes);
        }
      case HostAccepts(count) =>
        if open && count <= |remoteOut| {
          OnHostAccepts(count);
        }
      case LocalAccepts(count) =>
        if open && count <= |localOut| {
          OnLocalAccepts(count);
        }
      case Disconnected =>
        if open {
          FinishCleanly();
        }
      case HostError =>
        if open {
          OnFailure(HostLost);
        }
      case LocalError =>
        if open {
          OnFailure(LocalLost);
        }
      case Timeout =>
        if timerActive && open {
          OnFailure(TimedOut);
        }
    }

    /** What holds after any run. Within one start, finished comes at most once, last, and a clean
        one only after forwarding; all bytes are accounted for, in order, also after the end, and
        both peers have got everything exactly when nothing is held; nothing but the request passes
        before the handshake, which is what the host's bytes say; the queues are bounded. */
    ghost predicate Safe()
      reads this
    {
      && |signals| <= 2
      && (forall i :: 0 <= i < |signals| && signals[i].Finished? ==> i == |signals| - 1 && !open)
      && (Finished(Clean) in signals ==> signals == [Forwarding, Finished(Clean)])
      && (handshakeDone ==>
            && peerVerified
            && Decide(hostBytes, isReady) == Accepted(localDelivered + localOut + handshakeBuffer + remoteIn)
            && requestLine + localBytes == hostDelivered + remoteOut + localIn
            && (AllDelivered() <==> NothingHeld()))
      && (!handshakeDone ==> hostDelivered + remoteOut == Request() && localDelivered + localOut == [])
      && (open && !handshakeDone && localConnected ==> Decide(hostBytes, isReady) == Pending)
      && |localOut| < 4194304 + 65536
      && (|remoteOut| < 4194304 + 65536 || |remoteOut| <= |requestLine|)
    }

    lemma InvIsSafe()
      requires Inv()
      ensures Safe()
    {
      hide HostSide.Balanced, LocalSide.Balanced, Decide;
      OutcomeFollowsStream();
      NothingBeforeHandshake();
      if handshakeDone {
        ForwardingConserves();
        DeliveredExactly();
      }
    }

    method Run(events: seq<Event>)
      requires Inv()
      modifies this
      ensures Inv() && Safe()
    {
      hide Inv, Safe;
      for i := 0 to |events|
        invariant Inv()
      {
        Step(events[i]);
      }
      InvIsSafe();
    }

    /** The object's handshake depends on the host's bytes, not on how they are split into reads:
        events after the end are ignored, and the verdict stays. */
    method Receive(chunks: seq<seq<byte>>)
      requires Inv() && open && peerVerified && localConnected && !handshakeDone
      modifies this
      ensures Inv()
      ensures Outcome(old(hostBytes) + Joined(chunks))
      ensures open ==> hostBytes == old(hostBytes) + Joined(chunks)
      ensures var all := old(hostBytes) + Joined(chunks);
        10 !in all ==>
          if |all| <= 4096 then open && !handshakeDone && signals == old(signals)
          else !open && signals == old(signals) + [Finished(InvalidResponse)]
      ensures var all := old(hostBytes) + Joined(chunks);
        forall k :: 0 <= k < |all| && all[k] == 10 && 10 !in all[..k] ==>
          if k > 4096 then !open && signals == old(signals) + [Finished(InvalidResponse)]
          else if !isReady(all[..k]) then !open && signals == old(signals) + [Finished(Refused)]
          else
            && handshakeDone && signals == old(signals) + [Forwarding] && open == !stopsOnForwarding
            && (open ==> localDelivered + localOut + handshakeBuffer + remoteIn == all[k + 1..])
    {
      hide HostSide.Balanced, LocalSide.Balanced, Decide, QueuesBounded, Inv;
      ghost var seen, v := hostBytes, Decide(hostBytes, isReady);
      InvIsSafe();
      for i := 0 to |chunks|
        invariant Inv() && (open ==> peerVerified && localConnected && hostBytes == seen)
        invariant Feed(v, seen, chunks[i..], isReady) == Feed(old(Decide(hostBytes, isReady)), old(hostBytes), chunks, isReady)
        invariant seen + Joined(chunks[i..]) == old(hostBytes) + Joined(chunks)
        invariant match v
          case Pending => open && !handshakeDone && signals == old(signals)
          case Rejected(r) => !open && !handshakeDone && signals == old(signals) + [Finished(r)]
          case Accepted(_) => handshakeDone && open == !stopsOnForwarding && signals == old(signals) + [Forwarding]
      {
        var chunk := chunks[i];
        assert chunks[i..][1..] == chunks[i + 1..];
        Associate(seen, chunk, Joined(chunks[i + 1..]));
        if open {
          OnHostSends(chunk);
        }
        seen := seen + chunk;
        v := match v
          case Pending => Decide(seen, isReady)
          case Accepted(residual) => Accepted(residual + chunk)
          case Rejected(_) => v;
      }
      ChunkIndependence(old(hostBytes), chunks, isReady);
      assert seen + [] == seen;
      VerdictByBytes(old(hostBytes) + Joined(chunks), isReady);
      if handshakeDone {
        ForwardingConserves();
      }
    }

    /** No pump is stalled: if nothing more arrives and both peers keep accepting what is queued,
        the forwarding tunnel delivers everything it has received. */
    method Flush()
      requires Inv() && open && handshakeDone
      modifies this
      ensures Inv() && open && handshakeDone && signals == old(signals)
      ensures hostBytes == old(hostBytes) && localBytes == old(localBytes)
      ensures AllDelivered()
    {
      ghost var payload := Decide(hostBytes, isReady);
      while localOut != [] || remoteOut != []
        invariant Inv() && open && handshakeDone && signals == old(signals)
        invariant hostBytes == old(hostBytes) && localBytes == old(localBytes)
        decreases Undelivered()
      {
        UndeliveredQueues();
        if localOut != [] {
          OnLocalAccepts(|localOut|);
        } else {
          OnHostAccepts(|remoteOut|);
        }
        UndeliveredQueues();
      }
      QuiescentMeansDelivered();
    }

    /** Received bytes that no peer has accepted yet. */
    ghost function Undelivered(): int
      reads this
    {
      match Decide(hostBytes, isReady)
      case Accepted(payload) => |payload| - |localDelivered| + |requestLine| + |localBytes| - |hostDelivered|
      case _ => 0
    }

    lemma UndeliveredQueues()
      requires Inv() && open && handshakeDone
      ensures Undelivered() == |localOut| + |handshakeBuffer| + |remoteIn| + |remoteOut| + |localIn|
    {
      ForwardingConserves();
    }
  }
}
