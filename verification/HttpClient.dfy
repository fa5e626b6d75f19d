/** Client::Do of src/http/http.cpp: one request out, one response in, over a socket that delivers as it likes. */
module HttpClient {
  import opened Core
  import opened HttpRequest
  import opened HttpResponse

  const REQUEST_BUFFER: nat := 1024

  /** The peer: a fixed text to receive, cut into pieces nobody controls, with a close or an error behind it. */
  class Socket {
    var incoming: string
    var sent: string
    const refuses: bool
    const breaks: bool

    constructor (incoming: string, refuses: bool, breaks: bool)
      ensures this.incoming == incoming && sent == "" && this.refuses == refuses && this.breaks == breaks
    {
      this.incoming, sent, this.refuses, this.breaks := incoming, "", refuses, breaks;
    }

    method Send(data: string) returns (ok: bool)
      modifies this`sent
      ensures ok == !refuses && sent == if ok then old(sent) + data else old(sent)
    {
      if refuses {
        return false;
      }
      sent := sent + data;
      return true;
    }

    /** Some of what is still to come, at least one character of it; nothing once all is delivered. */
    method Recv(buf: array<char>, at: nat) returns (n: Option<nat>)
      requires at < buf.Length
      modifies this`incoming, buf
      ensures old(incoming) == "" ==> n == (if breaks then None else Some(0))
      ensures old(incoming) != "" ==> n.Some? && 0 < n.value <= |old(incoming)|
      ensures var k := if n.Some? then n.value else 0;
              && at + k <= buf.Length
              && buf[..at + k] == old(buf[..at]) + old(incoming)[..k] && incoming == old(incoming)[k..]
    {
      if incoming == "" {
        return if breaks then None else Some(0);
      }
      var most := if |incoming| <= buf.Length - at then |incoming| else buf.Length - at;
      var k: nat :| 0 < k <= most;
      for i := 0 to k
        invariant incoming == old(incoming) && buf[..at + i] == old(buf[..at]) + incoming[..i]
      {
        buf[at + i] := incoming[i];
      }
      incoming := incoming[k..];
      return Some(k);
    }
  }

  /** However the socket cuts the stream, the result is that of the stream, cut to the buffer. */
  method Do(sock: Socket, req: Request, recvBuf: array<char>) returns (r: Result<Response, Code>)
    requires |req.body| < SIZE_LIMIT
    modifies sock, recvBuf
    ensures |Rendered(req)| > 1024 ==> r == Err(BufferTooSmall) && sock.sent == old(sock.sent)
    ensures |Rendered(req)| <= 1024 && sock.refuses ==> r == Err(SendFailed) && sock.sent == old(sock.sent)
    ensures |Rendered(req)| <= 1024 && !sock.refuses ==>
              var stream, room := old(sock.incoming), recvBuf.Length;
              && sock.sent == old(sock.sent) + Rendered(req)
              && (|stream| < room && sock.breaks ==> r == Err(RecvFailed))
              && (|stream| < room && !sock.breaks ==> r == Parsed(stream))
              && (|stream| >= room ==> r == Parsed(stream[..room]))
  {
    hide Rendered, Parsed;
    var reqBuf := new char[REQUEST_BUFFER];
    var built := BuildRequest(req, reqBuf);
    if built.Err? {
      return Err(built.error);
    }
    assert reqBuf[..built.value] == Rendered(req);
    var ok := sock.Send(reqBuf[..built.value]);
    if !ok {
      return Err(SendFailed);
    }
    var total := Receive(sock, recvBuf);
    if total.None? {
      return Err(RecvFailed);
    }
    assert recvBuf[..recvBuf.Length] == recvBuf[..];
    r := ParseResponse(recvBuf[..total.value]);
  }

  /** Reads until the peer closes or the buffer is full. */
  method Receive(sock: Socket, recvBuf: array<char>) returns (total: Option<nat>)
    modifies sock`incoming, recvBuf
    ensures var stream, room := old(sock.incoming), recvBuf.Length;
            if |stream| >= room then total == Some(room) && recvBuf[..] == stream[..room]
            else if sock.breaks then total == None
            else total == Some(|stream|) && recvBuf[..|stream|] == stream
  {
    ghost var stream := sock.incoming;
    var have := 0;
    while have < recvBuf.Length
      invariant have <= recvBuf.Length && have <= |stream|
      invariant recvBuf[..have] == stream[..have] && sock.incoming == stream[have..]
      decreases recvBuf.Length - have
    {
      var n := sock.Recv(recvBuf, have);
      if n.None? {
        return None;
      }
      if n.value == 0 {
        break;
      }
      have := have + n.value;
    }
    return Some(have);
  }
}
