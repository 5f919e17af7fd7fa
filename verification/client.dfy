/**
 * The completion-driven client of `src/client.rs`.  A client is a record
 * threaded through pure transitions: the socket it owns, the bump index
 * into the caller's read buffer, the log of submissions it has pushed to
 * the ring and the queue of completions the ring has delivered.  The
 * ring itself, the socket syscall, the websocket codec, the HTTP response
 * parser, the random handshake key, URL parsing and name resolution are
 * parameters.  A failed `unwrap`/`expect` is the outcome `Panic`.
 */
module Client {
  import opened Wrappers
  import Frame

  type Byte = Frame.Byte

  /** The tag attached to every submission and handed back with its completion. */
  datatype Operation = ReadOp | WriteOp | ConnectOp | CloseOp | HandshakeOp

  /** An address from name resolution; `NoAddr` is what an empty result list turns into. */
  datatype SockAddr = NoAddr | Addr(id: nat)

  /** What a submission asks the kernel to do. */
  datatype Request =
    | Recv(offset: nat, len: nat)     // receive into the user buffer from `offset`
    | Send(bytes: seq<Byte>)          // the bytes as they stand at submission
    | ConnectTo(addr: SockAddr)
    | CloseFd

  datatype Submission = Submission(op: Operation, fd: int, req: Request)

  /** A completion queue entry: the tag of the finished submission and its `i32` result. */
  datatype Completion = Completion(op: Operation, result: int)

  datatype Client = Client(
    addr: SockAddr,
    host: string,
    sockfd: Option<int>,
    bumpIndex: nat,
    submitted: seq<Submission>,
    completions: seq<Completion>)

  datatype ClientError =
    | IO(code: int)
    | Disconnected
    | InvalidUrl
    | NoHost
    | ResolveHost
    | OOM
    | Handshake(reason: string)

  /** What `step` reports; `M` is the websocket codec's message type. */
  datatype State<M> = Idle | Read(msg: Option<M>) | Connect

  /** The result of a transition: a value, an error (with the state as the error left it), or a panic. */
  datatype Outcome<T> = Ok(value: T, client: Client) | Err(error: ClientError, client: Client) | Panic

  // ------------------------------------------------------------------
  // Submissions
  // ------------------------------------------------------------------

  /** A string of ASCII characters only, for which `as_bytes` gives one byte per character. */
  predicate Ascii(s: string) {
    forall k :: 0 <= k < |s| ==> s[k] < 128 as char
  }

  /** The low byte of a character's code. */
  function LowByte(ch: char): Byte {
    ch as int % 256
  }

  /**
   * `as_bytes`, for the ASCII text the client sends: one byte per
   * character, holding the character's code.
   */
  function AsciiBytes(s: string): (r: seq<Byte>)
    ensures |r| == |s| && forall k :: 0 <= k < |s| ==> r[k] as int == s[k] as int % 256
    ensures Ascii(s) ==> forall k :: 0 <= k < |s| ==> r[k] as int == s[k] as int
  {
    seq(|s|, k requires 0 <= k < |s| => LowByte(s[k]))
  }

  /** Pushes one submission; submission is assumed to succeed. */
  function Push(c: Client, op: Operation, fd: int, req: Request): Client {
    c.(submitted := c.submitted + [Submission(op, fd, req)])
  }

  /** `issue_write_underlying`: a Write-tagged send of `bytes` on the owned socket. */
  function IssueWriteUnderlying(c: Client, bytes: seq<Byte>): (r: Outcome<()>)
    ensures c.sockfd.None? <==> r.Panic?
    ensures c.sockfd.Some? ==>
              r == Ok((), c.(submitted := c.submitted + [Submission(WriteOp, c.sockfd.value, Send(bytes))]))
  {
    match c.sockfd
    case None => Panic
    case Some(fd) => Ok((), Push(c, WriteOp, fd, Send(bytes)))
  }

  /**
   * `issue_write`: encodes `text` as a websocket text message and sends
   * it.  `encode` stands for the websocket codec; `None` is an encoder
   * error, which is unwrapped.
   */
  function IssueWrite(c: Client, text: string, encode: string -> Option<seq<Byte>>): (r: Outcome<()>)
    ensures r.Ok? <==> c.sockfd.Some? && encode(text).Some?
    ensures r.Ok? ==> r.client.submitted == c.submitted + [Submission(WriteOp, c.sockfd.value, Send(encode(text).value))]
    ensures r.Ok? ==> r.client.sockfd == c.sockfd && r.client.bumpIndex == c.bumpIndex
  {
    match encode(text)
    case None => Panic
    case Some(payload) => IssueWriteUnderlying(c, payload)
  }

  /** The `as i32` conversion of a `usize`: the low 32 bits read as two's complement. */
  function AsI32(x: nat): (r: int)
    ensures -0x8000_0000 <= r < 0x8000_0000
    ensures x < 0x8000_0000 ==> r == x
  {
    var m := x % 0x1_0000_0000;
    if m >= 0x8000_0000 then m - 0x1_0000_0000 else m
  }

  /** Wrap-around of an `i32` subtraction. */
  function WrapI32(x: int): (r: int)
    ensures -0x8000_0000 <= r < 0x8000_0000
    ensures -0x8000_0000 <= x < 0x8000_0000 ==> r == x
  {
    var m := x % 0x1_0000_0000;
    if m >= 0x8000_0000 then m - 0x1_0000_0000 else m
  }

  /** The `assert!(rb.len() as i32 - self.bump_index as i32 >= 0)` of the receive paths. */
  predicate LengthCheckPasses(bufLen: nat, bump: nat)
    ensures bufLen < 0x8000_0000 && bump < 0x8000_0000 ==> (LengthCheckPasses(bufLen, bump) <==> bump <= bufLen)
  {
    WrapI32(AsI32(bufLen) - AsI32(bump)) >= 0
  }

  /** For buffers shorter than 2^31 bytes the length assertion holds whenever the bump index is inside the buffer. */
  lemma LengthCheckSmallBuffers(bufLen: nat, bump: nat)
    requires bump < bufLen < 0x8000_0000
    ensures LengthCheckPasses(bufLen, bump)
  {
  }

  /**
   * The receive shared by `issue_read` and `issue_handshake`: `OOM` when
   * the bump index has reached the end of the buffer, otherwise a recv
   * into the rest of the buffer, its length cut to 32 bits, tagged `op`.
   */
  function IssueRecv(c: Client, bufLen: nat, op: Operation): (r: Outcome<()>)
    ensures c.bumpIndex >= bufLen ==> r == Err(OOM, c)
    ensures r.Ok? ==> c.bumpIndex < bufLen && c.sockfd.Some?
    ensures r.Ok? ==> r.client == c.(submitted := c.submitted +
              [Submission(op, c.sockfd.value, Recv(c.bumpIndex, (bufLen - c.bumpIndex) % 0x1_0000_0000))])
    ensures c.bumpIndex < bufLen ==>
              (r.Ok? <==> LengthCheckPasses(bufLen, c.bumpIndex) && c.sockfd.Some?)
  {
    if c.bumpIndex >= bufLen then Err(OOM, c)
    else if !LengthCheckPasses(bufLen, c.bumpIndex) then Panic
    else match c.sockfd
      case None => Panic
      case Some(fd) => Ok((), Push(c, op, fd, Recv(c.bumpIndex, (bufLen - c.bumpIndex) % 0x1_0000_0000)))
  }

  /** `issue_read`: a Read-tagged receive into the caller's buffer of `bufLen` bytes. */
  function IssueRead(c: Client, bufLen: nat): (r: Outcome<()>)
    ensures c.bumpIndex >= bufLen ==> r == Err(OOM, c)
    ensures r.Ok? ==> |r.client.submitted| == |c.submitted| + 1
    ensures r.Ok? ==> r.client.submitted[..|c.submitted|] == c.submitted
    ensures r.Ok? ==> r.client.submitted[|c.submitted|].op == ReadOp
  {
    IssueRecv(c, bufLen, ReadOp)
  }

  /**
   * For a buffer shorter than 2^31 bytes and an owned socket, a read covers
   * exactly the unfilled rest of the buffer, from the bump index to the
   * end, and changes nothing else.
   */
  lemma IssueReadCoversRest(c: Client, bufLen: nat)
    requires c.bumpIndex < bufLen < 0x8000_0000 && c.sockfd.Some?
    ensures var r := IssueRead(c, bufLen);
            && r.Ok?
            && r.client.submitted == c.submitted + [Submission(ReadOp, c.sockfd.value, Recv(c.bumpIndex, bufLen - c.bumpIndex))]
            && r.client.sockfd == c.sockfd && r.client.bumpIndex == c.bumpIndex
            && r.client.completions == c.completions
  {
    LengthCheckSmallBuffers(bufLen, c.bumpIndex);
  }

  /** `issue_close`: a Close-tagged submission for the owned socket, which the client then no longer owns. */
  function IssueClose(c: Client): (r: Outcome<()>)
    ensures c.sockfd.None? <==> r.Panic?
    ensures r.Ok? ==> r.client.sockfd.None?
    ensures r.Ok? ==> r.client.submitted == c.submitted + [Submission(CloseOp, c.sockfd.value, CloseFd)]
    ensures r.Ok? ==> r.client.bumpIndex == c.bumpIndex && r.client.completions == c.completions
  {
    match c.sockfd
    case None => Panic
    case Some(fd) => Ok((), Push(c, CloseOp, fd, CloseFd).(sockfd := None))
  }

  /**
   * `issue_connect`: closes the socket the client owns, if any, then owns
   * the fresh socket `newFd` (what `socket(2)` returned) and submits a
   * connect to the resolved address.  The bump index is left as it was.
   */
  function IssueConnect(c: Client, newFd: int): (r: Outcome<()>)
    ensures r.Ok?
    ensures r.client.sockfd == Some(newFd) && r.client.bumpIndex == c.bumpIndex
    ensures r.client.completions == c.completions
    ensures |r.client.submitted| >= 1 && r.client.submitted[|r.client.submitted| - 1] == Submission(ConnectOp, newFd, ConnectTo(c.addr))
    ensures c.sockfd.None? ==> r.client.submitted == c.submitted + [Submission(ConnectOp, newFd, ConnectTo(c.addr))]
    ensures c.sockfd.Some? ==>
              r.client.submitted ==
              c.submitted + [Submission(CloseOp, c.sockfd.value, CloseFd), Submission(ConnectOp, newFd, ConnectTo(c.addr))]
  {
    var closed := if c.sockfd.Some? then IssueClose(c).client else c;
    Ok((), Push(closed.(sockfd := Some(newFd)), ConnectOp, newFd, ConnectTo(c.addr)))
  }

  /**
   * `create_request`: the HTTP/1.1 upgrade request for `host` carrying
   * the handshake key `key`.
   */
  function CreateRequest(host: string, key: string): (r: string)
    ensures |r| == |RequestHead| + |host| + |RequestMiddle| + |key| + 4
    ensures r[..|RequestHead|] == RequestHead
    ensures r[|RequestHead|..|RequestHead| + |host|] == host
    ensures r[|r| - 4 - |key|..|r| - 4] == key && r[|r| - 4..] == "\r\n\r\n"
  {
    RequestHead + host + RequestMiddle + key + "\r\n\r\n"
  }

  /** The request line and the start of the `Host` header. */
  const RequestHead: string := "GET / HTTP/1.1\r\nHost: "

  /** The headers between the host and the key. */
  const RequestMiddle: string :=
    "\r\nUpgrade: websocket" + "\r\nConnection: Upgrade" + "\r\ncontent-length: 0"
    + "\r\nsec-websocket-version: 13" + "\r\nsec-websocket-key: "


  /** Converting to bytes works piece by piece. */
  lemma AsciiBytesConcat(a: string, b: string)
    ensures AsciiBytes(a + b) == AsciiBytes(a) + AsciiBytes(b)
  {
    assert forall k :: 0 <= k < |b| ==> (a + b)[|a| + k] == b[k];
  }

  /** `create_request(host).as_bytes()`: the upgrade request as the client sends it. */
  function UpgradeRequest(host: string, key: string): (r: seq<Byte>)
    ensures |r| == |RequestHead| + |host| + |RequestMiddle| + |key| + 4
  {
    AsciiBytes(CreateRequest(host, key))
  }

  /** The request bytes are the fixed header text with the host's and the key's bytes in their places. */
  lemma UpgradeRequestLayout(host: string, key: string)
    ensures UpgradeRequest(host, key)
            == AsciiBytes(RequestHead) + AsciiBytes(host) + AsciiBytes(RequestMiddle) + AsciiBytes(key) + AsciiBytes("\r\n\r\n")
  {
    AsciiBytesConcat(RequestHead, host);
    AsciiBytesConcat(RequestHead + host, RequestMiddle);
    AsciiBytesConcat(RequestHead + host + RequestMiddle, key);
    AsciiBytesConcat(RequestHead + host + RequestMiddle + key, "\r\n\r\n");
  }

  /**
   * `issue_handshake`: sends the upgrade request, then receives the
   * response with a Handshake-tagged recv.  The send is submitted before
   * the buffer check, so an `OOM` error leaves it submitted.
   */
  function IssueHandshake(c: Client, bufLen: nat, request: seq<Byte>): (r: Outcome<()>)
    ensures c.sockfd.None? ==> r.Panic?
    ensures r.Ok? <==> c.sockfd.Some? && c.bumpIndex < bufLen && LengthCheckPasses(bufLen, c.bumpIndex)
    ensures r.Ok? ==> r.client.(submitted := c.submitted) == c
    ensures c.sockfd.Some? && c.bumpIndex >= bufLen ==>
              r == Err(OOM, c.(submitted := c.submitted + [Submission(WriteOp, c.sockfd.value, Send(request))]))
    ensures r.Ok? ==>
              r.client.submitted ==
              c.submitted + [Submission(WriteOp, c.sockfd.value, Send(request)),
                             Submission(HandshakeOp, c.sockfd.value, Recv(c.bumpIndex, (bufLen - c.bumpIndex) % 0x1_0000_0000))]
  {
    match IssueWriteUnderlying(c, request)
    case Ok(_, written) => IssueRecv(written, bufLen, HandshakeOp)
    case Err(e, written) => Err(e, written)
    case Panic => Panic
  }

  // ------------------------------------------------------------------
  // Completions
  // ------------------------------------------------------------------

  /** The status code and reason phrase httparse reads from a response; `None` where it found none. */
  datatype Response = Response(code: Option<nat>, reason: Option<string>)

  /** The handshake succeeded: status 101 with the reason "Switching Protocols". */
  predicate Upgraded(resp: Response) {
    resp.code == Some(101) && resp.reason == Some("Switching Protocols")
  }

  /**
   * A Read completion of `res >= 0` bytes, with the entry already taken
   * off the queue: end of stream resets the bump index and reports no
   * message; data advances the bump index and the whole filled prefix of
   * the buffer must decode to a message, or the unwraps panic.
   */
  function OnRead<M>(c: Client, res: nat, buf: seq<Byte>, decode: seq<Byte> -> Option<Option<M>>): (r: Outcome<State<M>>)
    ensures res == 0 ==> r == Ok(Read(None), c.(bumpIndex := 0))
    ensures res > 0 ==>
              var filled := c.bumpIndex + res;
              && (r.Ok? <==> filled <= |buf| && decode(buf[..filled]).Some? && decode(buf[..filled]).value.Some?)
              && (r.Ok? ==> r == Ok(Read(decode(buf[..filled]).value), c.(bumpIndex := 0)))
              && (r.Ok? || r.Panic?)
  {
    if res == 0 then Ok(Read(None), c.(bumpIndex := 0))
    else
      var filled := c.bumpIndex + res;
      if filled > |buf| then Panic
      else match decode(buf[..filled])
        case Some(Some(m)) => Ok(Read(Some(m)), c.(bumpIndex := 0))
        case _ => Panic
  }

  /**
   * A Connect completion: sends the upgrade request for the client's host
   * with handshake key `key`, posts the handshake receive and reports
   * `Idle`; any error on the way is unwrapped.
   */
  function OnConnect<M>(c: Client, buf: seq<Byte>, key: string): (r: Outcome<State<M>>)
    ensures r.Ok? <==> c.sockfd.Some? && c.bumpIndex < |buf| && LengthCheckPasses(|buf|, c.bumpIndex)
    ensures r.Ok? || r.Panic?
    ensures r.Ok? ==> r.value == Idle && r.client.(submitted := c.submitted) == c
    ensures r.Ok? ==>
              r.client.submitted == c.submitted + [
                Submission(WriteOp, c.sockfd.value, Send(UpgradeRequest(c.host, key))),
                Submission(HandshakeOp, c.sockfd.value, Recv(c.bumpIndex, (|buf| - c.bumpIndex) % 0x1_0000_0000))]
  {
    match IssueHandshake(c, |buf|, UpgradeRequest(c.host, key))
    case Ok(_, next) => Ok(Idle, next)
    case _ => Panic
  }

  /**
   * A Handshake completion of `res` bytes: the response in the first
   * `res` bytes of the buffer must parse; the client is connected exactly
   * when it is "101 Switching Protocols".
   */
  function OnHandshake<M>(c: Client, res: nat, buf: seq<Byte>, parse: seq<Byte> -> Option<Response>): (r: Outcome<State<M>>)
    ensures r.Panic? <==> res > |buf| || parse(buf[..res]).None?
    ensures r.Ok? <==> res <= |buf| && parse(buf[..res]).Some? && Upgraded(parse(buf[..res]).value)
    ensures r.Ok? ==> r == Ok(Connect, c)
    ensures r.Err? ==> r == Err(Handshake("Switching protocol"), c)
  {
    if res > |buf| then Panic
    else match parse(buf[..res])
      case None => Panic
      case Some(resp) =>
        if Upgraded(resp) then Ok(Connect, c)
        else Err(Handshake("Switching protocol"), c)
  }

  /**
   * `step`: takes the next completion, if any, and acts on its tag.
   *  - `buf` is the caller's buffer.
   *  - `decode` is the websocket decoder: `None` is a decode error,
   *    `Some(None)` an incomplete frame, `Some(Some(m))` a message.
   *  - `parse` is httparse: `None` is a parse error.
   *  - `key` is the random handshake key used if a connect completes.
   */
  function Step<M>(c: Client, buf: seq<Byte>, decode: seq<Byte> -> Option<Option<M>>,
                   parse: seq<Byte> -> Option<Response>, key: string): (r: Outcome<State<M>>)
    ensures c.completions == [] ==> r == Ok(Idle, c)
    ensures c.completions != [] && c.completions[0].result < 0 ==>
              r == Err(IO(-c.completions[0].result), c.(completions := c.completions[1..]))
    ensures !r.Panic? && c.completions != [] ==> r.client.completions == c.completions[1..]
    ensures c.completions != [] && c.completions[0].op in {WriteOp, CloseOp} && c.completions[0].result >= 0 ==>
              r == Ok(Idle, c.(completions := c.completions[1..]))
    ensures c.completions != [] && c.completions[0].result >= 0 ==>
              var popped := c.(completions := c.completions[1..]);
              var res := c.completions[0].result;
              && (c.completions[0].op == ReadOp ==> r == OnRead(popped, res, buf, decode))
              && (c.completions[0].op == ConnectOp ==> r == OnConnect(popped, buf, key))
              && (c.completions[0].op == HandshakeOp ==> r == OnHandshake(popped, res, buf, parse))
  {
    if c.completions == [] then Ok(Idle, c)
    else
      var cqe := c.completions[0];
      var popped := c.(completions := c.completions[1..]);
      if cqe.result < 0 then Err(IO(-cqe.result), popped)
      else match cqe.op
        case ReadOp => OnRead(popped, cqe.result, buf, decode)
        case WriteOp => Ok(Idle, popped)
        case CloseOp => Ok(Idle, popped)
        case ConnectOp => OnConnect(popped, buf, key)
        case HandshakeOp => OnHandshake(popped, cqe.result, buf, parse)
  }

  /**
   * The bump index never carries over between steps: a step that does
   * not panic leaves it where it was or at 0, so a client that starts
   * with it at 0 keeps it there (a partial frame is never kept for a
   * later read).
   */
  lemma StepKeepsBumpAtZero<M>(c: Client, buf: seq<Byte>, decode: seq<Byte> -> Option<Option<M>>,
                               parse: seq<Byte> -> Option<Response>, key: string)
    requires c.bumpIndex == 0
    ensures var r := Step(c, buf, decode, parse, key);
            !r.Panic? ==> r.client.bumpIndex == 0
  {
  }

  // ------------------------------------------------------------------
  // Construction
  // ------------------------------------------------------------------

  /** What URL parsing yields: the scheme, the host if there is one, and the explicit port if there is one. */
  datatype Url = Url(scheme: string, host: Option<string>, port: Option<nat>)

  /**
   * The port `dns_lookup` connects to: the one `Url::port` reports, else
   * 443 for `https` and `wss`, else 80.  `Url::port` reports `None` when
   * the URL names no port or names its scheme's default one.
   */
  function DefaultPort(url: Url): (p: nat)
    ensures url.port.Some? ==> p == url.port.value
    ensures url.port.None? ==> (p == 443 <==> url.scheme == "https" || url.scheme == "wss")
    ensures url.port.None? ==> p == 443 || p == 80
  {
    match url.port
    case Some(p) => p
    case None => if url.scheme == "https" || url.scheme == "wss" then 443 else 80
  }

  /** What `dns_lookup` returns. */
  datatype Lookup = Resolved(addr: SockAddr, host: string, port: nat) | LookupFailed(error: ClientError)

  /**
   * `dns_lookup`: `parseUrl` stands for `Url::parse` and `resolve` for
   * `to_socket_addrs`, which yields a list of addresses or fails.  The
   * first address is taken; an empty list gives the empty address.
   */
  function DnsLookup(text: string, parseUrl: string -> Option<Url>,
                     resolve: (string, nat) -> Option<seq<SockAddr>>): (r: Lookup)
    ensures parseUrl(text).None? ==> r == LookupFailed(InvalidUrl)
    ensures parseUrl(text).Some? && parseUrl(text).value.host.None? ==> r == LookupFailed(NoHost)
    ensures r.Resolved? <==> parseUrl(text).Some? && parseUrl(text).value.host.Some?
                             && resolve(parseUrl(text).value.host.value, DefaultPort(parseUrl(text).value)).Some?
    ensures r.Resolved? ==> r.host == parseUrl(text).value.host.value && r.port == DefaultPort(parseUrl(text).value)
    ensures r.LookupFailed? ==> r.error in {InvalidUrl, NoHost, ResolveHost}
  {
    match parseUrl(text)
    case None => LookupFailed(InvalidUrl)
    case Some(url) =>
      match url.host
      case None => LookupFailed(NoHost)
      case Some(host) =>
        var port := DefaultPort(url);
        match resolve(host, port)
        case None => LookupFailed(ResolveHost)
        case Some(addrs) => Resolved(if addrs == [] then NoAddr else addrs[0], host, port)
  }

  datatype NewOutcome = Created(client: Client) | Failed(error: ClientError) | Panicked

  /**
   * `Client::new`: looks the URL up and refuses port 443 by panicking;
   * otherwise a client that owns no socket, with the bump index at 0 and
   * nothing submitted or completed.
   */
  function New(text: string, parseUrl: string -> Option<Url>,
               resolve: (string, nat) -> Option<seq<SockAddr>>): (r: NewOutcome)
    ensures var l := DnsLookup(text, parseUrl, resolve);
            && (r.Panicked? <==> l.Resolved? && l.port == 443)
            && (r.Failed? <==> l.LookupFailed?)
            && (r.Failed? ==> r.error == l.error)
            && (r.Created? ==> r.client == Client(l.addr, l.host, None, 0, [], []))
  {
    match DnsLookup(text, parseUrl, resolve)
    case LookupFailed(e) => Failed(e)
    case Resolved(addr, host, port) =>
      if port == 443 then Panicked else Created(Client(addr, host, None, 0, [], []))
  }

  /** A secure URL without an explicit port always ends in the port-443 panic, once it resolves. */
  lemma NewRejectsSecureDefault(text: string, parseUrl: string -> Option<Url>,
                                resolve: (string, nat) -> Option<seq<SockAddr>>, host: string)
    requires parseUrl(text) == Some(Url("wss", Some(host), None)) || parseUrl(text) == Some(Url("https", Some(host), None))
    requires resolve(host, 443).Some?
    ensures New(text, parseUrl, resolve) == Panicked
  {
  }

  /**
   * A whole handshake: a new client connects on socket `fd`; when the
   * connect completes it sends the upgrade request and posts a receive
   * over the whole buffer; when the response "101 Switching Protocols"
   * arrives in the first `n` bytes, the step reports `Connect`.
   */
  lemma HandshakeSession<M>(c: Client, fd: int, buf: seq<Byte>, n: nat,
                            decode: seq<Byte> -> Option<Option<M>>, parse: seq<Byte> -> Option<Response>, key: string)
    requires c.sockfd.None? && c.bumpIndex == 0 && c.submitted == [] && c.completions == []
    requires 0 < |buf| < 0x8000_0000 && n <= |buf|
    requires parse(buf[..n]) == Some(Response(Some(101), Some("Switching Protocols")))
    ensures var c1 := IssueConnect(c, fd).client;
            && c1.submitted == [Submission(ConnectOp, fd, ConnectTo(c.addr))]
            && var s1 := Step(c1.(completions := [Completion(ConnectOp, 0)]), buf, decode, parse, key);
               && s1.Ok? && s1.value == Idle
               && s1.client.submitted == c1.submitted + [
                    Submission(WriteOp, fd, Send(UpgradeRequest(c.host, key))),
                    Submission(HandshakeOp, fd, Recv(0, |buf|))]
               && Step(s1.client.(completions := [Completion(HandshakeOp, n)]), buf, decode, parse, key).value == Connect
  {
    var c1 := IssueConnect(c, fd).client;
    LengthCheckSmallBuffers(|buf|, 0);
    var c2 := c1.(completions := [Completion(ConnectOp, 0)]);
    assert c2.completions[1..] == [];
    var s1 := Step(c2, buf, decode, parse, key);
    assert s1 == OnConnect(c1.(completions := []), buf, key);
    var c3 := s1.client.(completions := [Completion(HandshakeOp, n)]);
    assert c3.host == c.host;
    assert Step(c3, buf, decode, parse, key) == OnHandshake(c3.(completions := []), n, buf, parse);
  }
}
