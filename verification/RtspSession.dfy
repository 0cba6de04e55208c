/** The client side of an RTSP connection: requests and responses sharing one byte stream with the
    interleaved media packets. */
module RtspSession {
  import opened Bytes
  import opened Options

  /** One interleaved media packet. */
  datatype RtpPacket = RtpPacket(channel: byte, payload: bytes)

  datatype SessionHeader = NoSession | UnreadableSession | SessionId(id: string)

  /** What the client reads of a response. */
  datatype Response = Response(status: nat, wwwAuthenticate: Option<string>, session: SessionHeader, body: bytes)

  datatype Message = Request | Reply(response: Response) | Data(packet: RtpPacket)

  datatype ParseOutcome = Parsed(message: Message, consumed: nat) | Incomplete | Malformed

  /** Parses the message at the front of a buffer. */
  type Parser = bytes -> ParseOutcome

  const OK_STATUS: nat := 200
  const UNAUTHORIZED_STATUS: nat := 401

  // ----- Messages in a byte stream

  /** A parsed message takes up bytes of the buffer. */
  ghost predicate Consumes(parse: Parser, b: bytes) {
    parse(b).Parsed? ==> 0 < parse(b).consumed <= |b|
  }

  /** Bytes that arrive after a parsed message do not change it. */
  ghost predicate Stable(parse: Parser, b: bytes, more: bytes) {
    parse(b).Parsed? ==> parse(b + more) == parse(b)
  }

  ghost predicate PrefixStable(parse: Parser) {
    && (forall b :: Consumes(parse, b))
    && (forall b, more :: Stable(parse, b, more))
  }

  /** The messages at the front of a byte stream, up to an incomplete or malformed one. */
  ghost function Decode(parse: Parser, b: bytes): seq<Message>
    requires PrefixStable(parse)
    decreases |b|
  {
    assert Consumes(parse, b);
    match parse(b)
    case Parsed(message, consumed) => [message] + Decode(parse, b[consumed..])
    case _ => []
  }

  ghost function Packets(message: Message): seq<RtpPacket> {
    if message.Data? then [message.packet] else []
  }

  /** The media packets among the messages, in order. */
  ghost function DataFrames(messages: seq<Message>): seq<RtpPacket> {
    if messages == [] then [] else Packets(messages[0]) + DataFrames(messages[1..])
  }

  ghost function Control(message: Message): seq<Message> {
    if message.Data? then [] else [message]
  }

  /** The messages that are not media packets, in order. */
  ghost function Controls(messages: seq<Message>): seq<Message> {
    if messages == [] then [] else Control(messages[0]) + Controls(messages[1..])
  }

  lemma FirstMessage(message: Message, rest: seq<Message>)
    ensures DataFrames([message] + rest) == Packets(message) + DataFrames(rest)
    ensures Controls([message] + rest) == Control(message) + Controls(rest)
  {
    assert ([message] + rest)[1..] == rest;
  }

  lemma {:induction false} DataFramesSplit(left: seq<Message>, right: seq<Message>)
    ensures DataFrames(left + right) == DataFrames(left) + DataFrames(right)
  {
    if left == [] {
      assert left + right == right;
    } else {
      DataFramesSplit(left[1..], right);
      assert (left + right)[0] == left[0] && (left + right)[1..] == left[1..] + right;
      Associate(Packets(left[0]), DataFrames(left[1..]), DataFrames(right));
    }
  }

  /** Bytes that arrive later only add messages at the end. */
  lemma {:induction false} DecodeGrows(parse: Parser, b: bytes, more: bytes)
    requires PrefixStable(parse)
    ensures Decode(parse, b) <= Decode(parse, b + more)
    decreases |b|
  {
    assert Consumes(parse, b) && Stable(parse, b, more);
    if parse(b).Parsed? {
      var consumed := parse(b).consumed;
      assert (b + more)[consumed..] == b[consumed..] + more;
      DecodeGrows(parse, b[consumed..], more);
    }
  }

  /** A parsed message comes first in the stream, before the messages of what follows it. */
  lemma DecodeFirst(parse: Parser, b: bytes, more: bytes)
    requires PrefixStable(parse) && parse(b).Parsed?
    ensures 0 < parse(b).consumed <= |b|
    ensures Decode(parse, b + more) == [parse(b).message] + Decode(parse, b[parse(b).consumed..] + more)
  {
    assert Consumes(parse, b) && Stable(parse, b, more);
    assert (b + more)[parse(b).consumed..] == b[parse(b).consumed..] + more;
  }

  // ----- Reading messages

  /** What one socket read gives; reads that are not listed give the end of the stream. */
  datatype SocketRead = Chunk(data: bytes) | ReadFailed

  datatype StreamError = ConnectionClosed | MalformedMessage | ReadIo

  datatype ReadOutcome = Got(message: Message) | Failed(error: StreamError) | Interrupted

  /** Bytes that arrive after a malformed message do not mend it. */
  ghost predicate MalformedStays(parse: Parser) {
    forall b, more :: MalformedStill(parse, b, more)
  }

  ghost predicate MalformedStill(parse: Parser, b: bytes, more: bytes) {
    parse(b).Malformed? ==> parse(b + more).Malformed?
  }

  /** A stream that ends in an incomplete message, or stops at a malformed one for good, holds no
      more messages. */
  lemma NothingLeft(parse: Parser, buffer: bytes, flow: bytes)
    requires PrefixStable(parse) && MalformedStays(parse)
    requires parse(buffer).Malformed? || (parse(buffer).Incomplete? && flow == [])
    ensures Decode(parse, buffer + flow) == []
  {
    assert MalformedStill(parse, buffer, flow);
    assert flow == [] ==> buffer + flow == buffer;
  }

  ghost function Flow(incoming: seq<SocketRead>): bytes {
    if incoming == [] then []
    else (if incoming[0].Chunk? then incoming[0].data else []) + Flow(incoming[1..])
  }

  /** The socket never fails and ends only where the listed reads do, and what the camera garbles
      stays garbled. */
  ghost predicate SteadyReads(parse: Parser, incoming: seq<SocketRead>) {
    MalformedStays(parse) && forall i :: 0 <= i < |incoming| ==> incoming[i].Chunk? && incoming[i].data != []
  }

  class MessageStream {
    const parse: Parser
    var buffer: bytes
    /** What the socket will give, read by read. */
    var incoming: seq<SocketRead>

    constructor (parse: Parser, incoming: seq<SocketRead>)
      ensures this.parse == parse && buffer == [] && this.incoming == incoming
    {
      this.parse, buffer, this.incoming := parse, [], incoming;
    }

    /** The bytes not yet turned into messages. */
    ghost function Unread(): bytes
      reads this
    {
      buffer + Flow(incoming)
    }

    ghost function Messages(): seq<Message>
      requires PrefixStable(parse)
      reads this
    {
      Decode(parse, Unread())
    }

    ghost predicate Steady()
      reads this
    {
      SteadyReads(parse, incoming)
    }

    /** Takes the first message off the stream. The read may be abandoned after `limit` socket
        reads; abandoned and failed reads leave every byte in place. */
    method ReadMessage(limit: Option<nat>) returns (outcome: ReadOutcome)
      requires PrefixStable(parse)
      modifies this
      ensures outcome.Got? ==> old(Messages()) == [outcome.message] + Messages() && |Unread()| < old(|Unread()|)
      ensures !outcome.Got? ==> Unread() == old(Unread())
      ensures old(Steady()) ==> Steady() && (outcome.Failed? ==> Messages() == [])
      ensures outcome.Interrupted? ==> limit.Some? && |incoming| + limit.value == old(|incoming|)
    {
      var taken := 0;
      while true
        invariant Unread() == old(Unread()) && (old(Steady()) ==> Steady())
        invariant |incoming| + taken == old(|incoming|)
        decreases |incoming|
      {
        assert Consumes(parse, buffer);
        match parse(buffer)
        case Parsed(message, consumed) =>
          DecodeFirst(parse, buffer, Flow(incoming));
          buffer := buffer[consumed..];
          return Got(message);
        case Malformed =>
          if Steady() {
            NothingLeft(parse, buffer, Flow(incoming));
          }
          return Failed(MalformedMessage);
        case Incomplete =>
          if limit == Some(taken) {
            return Interrupted;
          }
          if incoming == [] {
            if Steady() {
              NothingLeft(parse, buffer, Flow(incoming));
            }
            return Failed(ConnectionClosed);
          }
          var read := incoming[0];
          taken := taken + 1;
          incoming := incoming[1..];
          if read.ReadFailed? {
            return Failed(ReadIo);
          }
          if read.data == [] {
            return Failed(ConnectionClosed);
          }
          buffer := buffer + read.data;
      }
    }
  }

  // ----- Requests and responses

  datatype Challenge = Challenge(realm: string, nonce: string)

  datatype Verb = Describe | Setup | Play | GetParameter | Options

  /** A request; `answering` is the challenge its Digest authorization answers. */
  datatype SentRequest = SentRequest(verb: Verb, uri: string, cseq: nat, session: Option<string>,
                                     answering: Option<Challenge>)

  datatype SessionError =
    | WriteFailed
    | Stream(error: StreamError)
    | MissingAuthChallenge
    | UnusableChallenge
    | AuthenticationFailed
    | UnexpectedStatus(verb: Verb, status: nat)
    | NoVideoTrack
    | UnreadableSessionHeader
    | MissingSessionHeader
    | UnexpectedRequestFromServer

  datatype Result<+T> = Ok(value: T) | Err(error: SessionError)

  /** Reads a `WWW-Authenticate` header. */
  type ChallengeParser = string -> Option<Challenge>

  /** Requests carry the numbers 1, 2, 3, ... */
  ghost predicate Numbered(requests: seq<SentRequest>) {
    forall i :: 0 <= i < |requests| ==> requests[i].cseq == i + 1
  }

  /** The challenge a 401 response makes, if it is one the client can answer. */
  function Challenged(parseChallenge: ChallengeParser, response: Response): Option<Challenge> {
    if response.status == 401 && response.wwwAuthenticate.Some?
    then parseChallenge(response.wwwAuthenticate.value)
    else None
  }

  /** What becomes of an authenticated request: an answer, a refusal, or no answer yet; `rest` is
      what it leaves to be read. */
  datatype Exchanged =
    | Answer(response: Response, rest: seq<Message>)
    | Refused(error: SessionError, rest: seq<Message>)
    | Unanswered

  /** What the control messages to come make of an authenticated request: the first response unless
      it is a 401; else the second, provided the first made a usable challenge and the second is not
      a 401 again. */
  ghost function Exchange(parseChallenge: ChallengeParser, controls: seq<Message>): Exchanged {
    if controls == [] then Unanswered
    else if !controls[0].Reply? then Refused(UnexpectedRequestFromServer, controls[1..])
    else if controls[0].response.status != 401 then Answer(controls[0].response, controls[1..])
    else if controls[0].response.wwwAuthenticate.None? then Refused(MissingAuthChallenge, controls[1..])
    else if Challenged(parseChallenge, controls[0].response).None? then Refused(UnusableChallenge, controls[1..])
    else SecondExchange(controls[1..])
  }

  ghost function SecondExchange(controls: seq<Message>): Exchanged {
    if controls == [] then Unanswered
    else if !controls[0].Reply? then Refused(UnexpectedRequestFromServer, controls[1..])
    else if controls[0].response.status == 401 then Refused(AuthenticationFailed, controls[1..])
    else Answer(controls[0].response, controls[1..])
  }

  /** The challenge the first response to come makes. */
  ghost function FirstChallenge(parseChallenge: ChallengeParser, controls: seq<Message>): Option<Challenge> {
    if controls != [] && controls[0].Reply? then Challenged(parseChallenge, controls[0].response) else None
  }

  /** A response is the answer exactly when it is no 401 and comes first, or right after a 401 with a
      challenge that can be read. */
  lemma AnswerIs(parseChallenge: ChallengeParser, controls: seq<Message>, response: Response, rest: seq<Message>)
    ensures Exchange(parseChallenge, controls) == Answer(response, rest) <==>
            response.status != 401
            && (controls == [Reply(response)] + rest || AnswersChallenge(parseChallenge, controls, response, rest))
  {
    if controls != [] {
      assert controls == [controls[0]] + controls[1..];
      if |controls| > 1 {
        assert controls[1..] == [controls[1]] + controls[2..];
        assert controls == [controls[0], controls[1]] + controls[2..];
      }
    }
    if AnswersChallenge(parseChallenge, controls, response, rest) {
      assert controls[1..] == [Reply(response)] + rest && controls[1..][1..] == rest;
    }
  }

  /** The response follows a 401 that makes a challenge the client can read. */
  ghost predicate AnswersChallenge(parseChallenge: ChallengeParser, controls: seq<Message>, response: Response,
                                   rest: seq<Message>) {
    && |controls| > 1 && controls[0].Reply? && controls[1..] == [Reply(response)] + rest
    && controls[0].response.status == 401 && controls[0].response.wwwAuthenticate.Some?
    && parseChallenge(controls[0].response.wwwAuthenticate.value).Some?
  }

  /** An authenticated request is refused exactly when the camera sends a request instead, challenges
      with a 401 that cannot be read or answered, or answers the second request with a 401 too. */
  lemma RefusalIs(parseChallenge: ChallengeParser, controls: seq<Message>, error: SessionError)
    ensures Exchange(parseChallenge, controls).Refused? && Exchange(parseChallenge, controls).error == error <==>
            controls != []
            && if !controls[0].Reply? then error == UnexpectedRequestFromServer
               else
                 && controls[0].response.status == 401
                 && match controls[0].response.wwwAuthenticate
                    case None => error == MissingAuthChallenge
                    case Some(header) =>
                      if parseChallenge(header).None? then error == UnusableChallenge
                      else
                        && |controls| > 1
                        && if !controls[1].Reply? then error == UnexpectedRequestFromServer
                           else error == AuthenticationFailed && controls[1].response.status == 401
  {
  }

  /** The result is the exchange's; a socket error says nothing about it, except that a steady
      socket fails only when there is no answer. */
  ghost predicate ResultOf(exchanged: Exchanged, r: Result<Response>, rest: seq<Message>, steady: bool) {
    match r
    case Ok(response) => exchanged == Answer(response, rest)
    case Err(Stream(_)) => steady ==> exchanged.Unanswered?
    case Err(WriteFailed) => true
    case Err(error) => exchanged == Refused(error, rest)
  }

  /** A request is answered by the first control message; a stream that fails leaves them all, and
      a steady one fails only when there are none. */
  ghost predicate Received(r: Result<Response>, controls: seq<Message>, rest: seq<Message>, steady: bool) {
    match r
    case Ok(response) => controls == [Reply(response)] + rest
    case Err(UnexpectedRequestFromServer) => controls == [Request] + rest
    case Err(Stream(_)) => rest == controls && (steady ==> controls == [])
    case Err(error) => error.WriteFailed? && rest == controls
  }

  lemma PacketKept(pending: seq<RtpPacket>, packet: RtpPacket, rest: seq<Message>)
    ensures pending + DataFrames([Data(packet)] + rest) == pending + [packet] + DataFrames(rest)
    ensures Controls([Data(packet)] + rest) == Controls(rest)
  {
    FirstMessage(Data(packet), rest);
    Associate(pending, [packet], DataFrames(rest));
  }

  lemma FirstReceived(parseChallenge: ChallengeParser, r: Result<Response>, controls: seq<Message>, rest: seq<Message>,
                      steady: bool)
    requires Received(r, controls, rest, steady)
    ensures r.Err? || r.value.status != 401 ==>
              && ResultOf(Exchange(parseChallenge, controls), r, rest, steady)
              && (r.Ok? ==> FirstChallenge(parseChallenge, controls).None?)
    ensures r.Ok? ==> controls[0] == Reply(r.value) && rest == controls[1..]
  {
  }

  lemma SecondReceived(parseChallenge: ChallengeParser, controls: seq<Message>, between: seq<Message>,
                       r: Result<Response>, rest: seq<Message>, steady: bool)
    requires FirstChallenge(parseChallenge, controls).Some? && between == controls[1..]
    requires Received(r, between, rest, steady)
    ensures Exchange(parseChallenge, controls) == SecondExchange(between)
    ensures ResultOf(SecondExchange(between),
                     if r.Ok? && r.value.status == 401 then Err(AuthenticationFailed) else r,
                     rest, steady)
  {
  }

  /** One more request, or two, all alike but for their numbers and authorization. */
  ghost predicate SentOnceOrTwice(before: seq<SentRequest>, requests: seq<SentRequest>, verb: Verb, uri: string,
                                  session: Option<string>) {
    && before < requests && |requests| <= |before| + 2
    && forall i :: |before| <= i < |requests| ==>
         requests[i].verb == verb && requests[i].uri == uri && requests[i].session == session
  }

  class Connection {
    const reader: MessageStream
    const parseChallenge: ChallengeParser
    /** How many more requests the socket takes. */
    var writable: nat
    var cseq: nat
    var digest: Option<Challenge>
    /** Media packets read while awaiting a response. */
    var pendingData: seq<RtpPacket>
    /** Every request the client has tried to send. */
    var requests: seq<SentRequest>

    constructor (reader: MessageStream, parseChallenge: ChallengeParser, writable: nat)
      requires PrefixStable(reader.parse)
      ensures Valid() && this.reader == reader && this.parseChallenge == parseChallenge
      ensures pendingData == [] && requests == [] && digest == None && this.writable == writable
    {
      this.reader, this.parseChallenge, this.writable := reader, parseChallenge, writable;
      cseq, digest, pendingData, requests := 0, None, [], [];
    }

    ghost predicate Valid()
      reads this
    {
      PrefixStable(reader.parse) && cseq == |requests| && Numbered(requests)
    }

    /** The media packets not yet handed on: the buffered ones, then those still in the stream. */
    ghost function Frames(): seq<RtpPacket>
      requires PrefixStable(reader.parse)
      reads this, reader
    {
      pendingData + DataFrames(reader.Messages())
    }

    method Send(verb: Verb, uri: string, session: Option<string>) returns (sent: bool)
      requires Valid()
      modifies this`cseq, this`writable, this`requests
      ensures Valid()
      ensures requests == old(requests) + [SentRequest(verb, uri, old(cseq) + 1, session, digest)]
      ensures sent == (old(writable) > 0) && writable == if sent then old(writable) - 1 else 0
    {
      cseq := cseq + 1;
      requests := requests + [SentRequest(verb, uri, cseq, session, digest)];
      if writable == 0 {
        return false;
      }
      writable := writable - 1;
      return true;
    }

    /** Sends a request and waits for its response, the first control message that arrives; media
        packets that arrive first are kept, in order. */
    method SendAndReceive(verb: Verb, uri: string, session: Option<string>) returns (r: Result<Response>)
      requires Valid()
      modifies this`cseq, this`writable, this`requests, this`pendingData, reader
      ensures Valid() && Frames() == old(Frames())
      ensures requests == old(requests) + [SentRequest(verb, uri, old(cseq) + 1, session, digest)]
      ensures Received(r, old(Controls(reader.Messages())), Controls(reader.Messages()), old(reader.Steady()))
      ensures old(reader.Steady()) ==> reader.Steady()
      ensures r == Err(WriteFailed) <==> old(writable) == 0
      ensures writable == if old(writable) > 0 then old(writable) - 1 else 0
    {
      var sent := Send(verb, uri, session);
      if !sent {
        return Err(WriteFailed);
      }
      ghost var sentRequests := requests;
      while true
        invariant requests == sentRequests && cseq == old(cseq) + 1
        invariant writable == old(writable) - 1 && (old(reader.Steady()) ==> reader.Steady())
        invariant Frames() == old(Frames())
        invariant Controls(reader.Messages()) == old(Controls(reader.Messages()))
        decreases |reader.Unread()|
      {
        var outcome := reader.ReadMessage(None);
        if outcome.Failed? {
          return Err(Stream(outcome.error));
        }
        if outcome.message.Data? {
          PacketKept(pendingData, outcome.message.packet, reader.Messages());
          pendingData := pendingData + [outcome.message.packet];
        } else {
          FirstMessage(outcome.message, reader.Messages());
          return if outcome.message.Reply? then Ok(outcome.message.response) else Err(UnexpectedRequestFromServer);
        }
      }
    }

    /** Sends a request, and once more with an answer to the challenge when the first response
        makes one. No media packet is lost on the way. */
    method RequestAuthenticated(verb: Verb, uri: string, session: Option<string>) returns (r: Result<Response>)
      requires Valid()
      modifies this`cseq, this`writable, this`requests, this`pendingData, this`digest, reader
      ensures Valid() && Frames() == old(Frames())
      ensures SentOnceOrTwice(old(requests), requests, verb, uri, session)
      ensures requests[|old(requests)|].answering == old(digest) && requests[|requests| - 1].answering == digest
      ensures |requests| == |old(requests)| + 2 ==>
                digest.Some? && digest == old(FirstChallenge(parseChallenge, Controls(reader.Messages())))
      ensures r.Ok? ==>
                |requests| - |old(requests)|
                == if old(FirstChallenge(parseChallenge, Controls(reader.Messages()))).Some? then 2 else 1
      ensures ResultOf(old(Exchange(parseChallenge, Controls(reader.Messages()))), r, Controls(reader.Messages()),
                       old(reader.Steady()))
      ensures old(reader.Steady()) ==> reader.Steady()
      ensures writable + 2 >= old(writable) && (r == Err(WriteFailed) ==> old(writable) < 2)
    {
      ghost var controls, steady := Controls(reader.Messages()), reader.Steady();
      var first := SendAndReceive(verb, uri, session);
      ghost var between := Controls(reader.Messages());
      FirstReceived(parseChallenge, first, controls, between, steady);
      if first.Err? || first.value.status != UNAUTHORIZED_STATUS {
        return first;
      }
      if first.value.wwwAuthenticate.None? {
        return Err(MissingAuthChallenge);
      }
      var challenge := parseChallenge(first.value.wwwAuthenticate.value);
      if challenge.None? {
        return Err(UnusableChallenge);
      }
      digest := challenge;
      var retried := SendAndReceive(verb, uri, session);
      SecondReceived(parseChallenge, controls, between, retried, Controls(reader.Messages()), steady);
      if retried.Ok? && retried.value.status == UNAUTHORIZED_STATUS {
        return Err(AuthenticationFailed);
      }
      return retried;
    }
  }

  // ----- Playing

  /** When a keep-alive tick fires while the client waits for a message: before it looks at the
      stream, or once the wait has seen so many socket reads. Ticks that are not listed fire only
      after the message. */
  datatype Tick = BeforeMessage | AfterReads(count: nat)

  type KeepAliveVerb = verb: Verb | verb.GetParameter? || verb.Options? witness GetParameter

  ghost predicate IsKeepAlive(request: SentRequest, uri: string, sessionId: string) {
    (request.verb.GetParameter? || request.verb.Options?) && request.uri == uri && request.session == Some(sessionId)
  }

  /** The requests sent since: so many keep-alives. */
  ghost predicate KeepAlivesSince(before: seq<SentRequest>, requests: seq<SentRequest>, count: nat, uri: string,
                                  sessionId: string) {
    && before <= requests && |requests| == |before| + count
    && forall i :: |before| <= i < |requests| ==> IsKeepAlive(requests[i], uri, sessionId)
  }

  lemma OneMoreKeepAlive(before: seq<SentRequest>, requests: seq<SentRequest>, count: nat, uri: string,
                         sessionId: string, next: SentRequest)
    requires KeepAlivesSince(before, requests, count, uri, sessionId) && IsKeepAlive(next, uri, sessionId)
    ensures KeepAlivesSince(before, requests + [next], count + 1, uri, sessionId)
  {
  }

  const METHOD_NOT_ALLOWED_STATUS: nat := 405
  const PARAMETER_NOT_UNDERSTOOD_STATUS: nat := 451
  const NOT_IMPLEMENTED_STATUS: nat := 501

  /** The camera does not take the method of the keep-alive it answers. */
  ghost predicate TurnsDown(status: nat) {
    status == 405 || status == 451 || status == 501
  }

  ghost predicate AllReplies(messages: seq<Message>) {
    forall i :: 0 <= i < |messages| ==> messages[i].Reply?
  }

  /** The keep-alive method after some replies: `OPTIONS` once one has turned `GET_PARAMETER` down. */
  ghost function VerbAfter(verb: KeepAliveVerb, replies: seq<Message>): KeepAliveVerb {
    if exists i :: 0 <= i < |replies| && replies[i].Reply? && TurnsDown(replies[i].response.status)
    then Options
    else verb
  }

  lemma OneMoreReply(verb: KeepAliveVerb, replies: seq<Message>, reply: Message)
    requires AllReplies(replies) && reply.Reply?
    ensures AllReplies(replies + [reply])
    ensures VerbAfter(verb, replies + [reply])
         == if TurnsDown(reply.response.status) then Options else VerbAfter(verb, replies)
  {
    var more := replies + [reply];
    assert more[|replies|] == reply;
    if exists i :: 0 <= i < |replies| && replies[i].Reply? && TurnsDown(replies[i].response.status) {
      var i :| 0 <= i < |replies| && replies[i].Reply? && TurnsDown(replies[i].response.status);
      assert more[i] == replies[i];
    }
  }

  lemma {:induction false} RepliesHoldNoPackets(replies: seq<Message>, rest: seq<Message>)
    requires AllReplies(replies)
    ensures DataFrames(replies + rest) == DataFrames(rest)
  {
    if replies == [] {
      assert replies + rest == rest;
    } else {
      RepliesHoldNoPackets(replies[1..], rest);
      Associate([replies[0]], replies[1..], rest);
      assert replies == [replies[0]] + replies[1..];
      FirstMessage(replies[0], replies[1..] + rest);
      assert Packets(replies[0]) + DataFrames(replies[1..] + rest) == DataFrames(replies[1..] + rest);
    }
  }

  /** How waiting for a packet ends: with the first message that is not a reply, or with an error
      before any such message. */
  ghost predicate Waited(r: Result<RtpPacket>, replies: seq<Message>, before: seq<Message>, after: seq<Message>) {
    && AllReplies(replies)
    && match r
       case Ok(packet) => before == replies + ([Data(packet)] + after)
       case Err(UnexpectedRequestFromServer) => before == replies + ([Request] + after)
       case Err(error) => (error.WriteFailed? || error.Stream?) && before == replies + after
  }

  lemma WaitedPackets(r: Result<RtpPacket>, replies: seq<Message>, before: seq<Message>, after: seq<Message>)
    requires Waited(r, replies, before, after)
    ensures DataFrames(before) == (if r.Ok? then [r.value] else []) + DataFrames(after)
  {
    match r
    case Ok(packet) =>
      RepliesHoldNoPackets(replies, [Data(packet)] + after);
      FirstMessage(Data(packet), after);
    case Err(UnexpectedRequestFromServer) =>
      RepliesHoldNoPackets(replies, [Request] + after);
      FirstMessage(Request, after);
    case Err(_) =>
      RepliesHoldNoPackets(replies, after);
      EmptyFirst(DataFrames(after));
  }

  lemma EmptyFirst<T>(s: seq<T>)
    ensures [] + s == s
  {
  }

  lemma FirstHandedOn(delivered: seq<RtpPacket>, pending: seq<RtpPacket>, rest: seq<RtpPacket>)
    requires pending != []
    ensures delivered + (pending + rest) == delivered + [pending[0]] + (pending[1..] + rest)
  {
    assert pending == [pending[0]] + pending[1..];
  }

  class PlayingSession {
    const conn: Connection
    const streamUrl: string
    const sessionId: string
    /** The next keep-alive's method, and the last one's. */
    var keepAliveVerb: KeepAliveVerb
    var lastKeepAliveVerb: KeepAliveVerb
    /** Everything the camera sends over the connection, and the packets handed to the caller. */
    ghost const wire: bytes
    ghost var delivered: seq<RtpPacket>

    constructor (conn: Connection, streamUrl: string, sessionId: string, ghost wire: bytes)
      requires conn.Valid() && conn.Frames() == DataFrames(Decode(conn.reader.parse, wire))
      ensures Valid() && delivered == [] && this.conn == conn && this.wire == wire
      ensures this.streamUrl == streamUrl && this.sessionId == sessionId && keepAliveVerb == GetParameter
    {
      this.conn, this.streamUrl, this.sessionId, this.wire := conn, streamUrl, sessionId, wire;
      keepAliveVerb, lastKeepAliveVerb, delivered := GetParameter, GetParameter, [];
    }

    ghost function WireFrames(): seq<RtpPacket>
      requires PrefixStable(conn.reader.parse)
    {
      DataFrames(Decode(conn.reader.parse, wire))
    }

    /** The packets handed on, the buffered ones and those still in the stream make up exactly the
        media packets on the wire, in order. */
    ghost predicate Valid()
      reads this, conn, conn.reader
    {
      conn.Valid() && VerbsAgree() && delivered + conn.Frames() == WireFrames()
    }

    ghost predicate VerbsAgree()
      reads this
    {
      keepAliveVerb == GetParameter ==> lastKeepAliveVerb == GetParameter
    }

    /** The keep-alive request, `OPTIONS` once the camera has turned `GET_PARAMETER` down. */
    method SendKeepAlive() returns (sent: bool)
      requires conn.Valid()
      modifies this`lastKeepAliveVerb, conn`cseq, conn`writable, conn`requests
      ensures conn.Valid() && lastKeepAliveVerb == keepAliveVerb
      ensures conn.requests == old(conn.requests) + [SentRequest(keepAliveVerb, streamUrl, old(conn.cseq) + 1,
                                                                 Some(sessionId), conn.digest)]
      ensures sent == (old(conn.writable) > 0) && conn.writable == if sent then old(conn.writable) - 1 else 0
    {
      lastKeepAliveVerb := keepAliveVerb;
      sent := conn.Send(keepAliveVerb, streamUrl, Some(sessionId));
    }

    method ObserveResponse(status: nat)
      requires VerbsAgree()
      modifies this`keepAliveVerb
      ensures VerbsAgree() && keepAliveVerb == if TurnsDown(status) then Options else old(keepAliveVerb)
    {
      var rejected := status in {METHOD_NOT_ALLOWED_STATUS, NOT_IMPLEMENTED_STATUS, PARAMETER_NOT_UNDERSTOOD_STATUS};
      if lastKeepAliveVerb == GetParameter && rejected {
        keepAliveVerb := Options;
      }
    }

    /** Hands on the next media packet: the buffered ones first, then the first one in the stream,
        past the replies before it, sending a keep-alive for every tick that fires meanwhile.
        Whatever the ticks and the sizes of the socket reads, no packet is lost, repeated or
        reordered; a steady socket fails only when every packet has been handed on. */
    method NextPacket(ticks: seq<Tick>) returns (r: Result<RtpPacket>, ghost replies: seq<Message>, ghost fired: nat)
      requires Valid()
      modifies this`delivered, this`keepAliveVerb, this`lastKeepAliveVerb
      modifies conn`cseq, conn`writable, conn`requests, conn`pendingData, conn.reader
      ensures Valid()
      ensures delivered == if r.Ok? then old(delivered) + [r.value] else old(delivered)
      ensures old(conn.pendingData) != [] ==>
                && r == Ok(old(conn.pendingData)[0]) && conn.pendingData == old(conn.pendingData)[1..]
                && conn.reader.Messages() == old(conn.reader.Messages()) && replies == [] && fired == 0
      ensures old(conn.pendingData) == [] ==>
                && conn.pendingData == [] && Waited(r, replies, old(conn.reader.Messages()), conn.reader.Messages())
                && fired <= |ticks| && (r.Ok? && fired < |ticks| ==> ticks[fired].AfterReads?)
      ensures keepAliveVerb == VerbAfter(old(keepAliveVerb), replies)
      ensures KeepAlivesSince(old(conn.requests), conn.requests, fired, streamUrl, sessionId)
      ensures (r == Err(WriteFailed) <==> fired > old(conn.writable)) && fired <= old(conn.writable) + 1
      ensures conn.writable == if fired > old(conn.writable) then 0 else old(conn.writable) - fired
      ensures old(conn.reader.Steady()) ==> conn.reader.Steady()
      ensures r.Err? && r.error.Stream? && old(conn.reader.Steady()) ==> delivered == WireFrames()
    {
      if conn.pendingData != [] {
        var packet := conn.pendingData[0];
        FirstHandedOn(delivered, conn.pendingData, DataFrames(conn.reader.Messages()));
        conn.pendingData := conn.pendingData[1..];
        delivered := delivered + [packet];
        return Ok(packet), [], 0;
      }
      ghost var before := conn.reader.Messages();
      r, replies, fired := NextFromStream(ticks);
      ghost var after := conn.reader.Messages();
      WaitedPackets(r, replies, before, after);
      EmptyFirst(DataFrames(before));
      EmptyFirst(DataFrames(after));
      Associate(delivered, if r.Ok? then [r.value] else [], DataFrames(after));
      delivered := delivered + if r.Ok? then [r.value] else [];
    }

    method NextFromStream(ticks: seq<Tick>)
      returns (r: Result<RtpPacket>, ghost replies: seq<Message>, ghost fired: nat)
      requires conn.Valid() && VerbsAgree()
      modifies this`keepAliveVerb, this`lastKeepAliveVerb
      modifies conn`cseq, conn`writable, conn`requests, conn.reader
      ensures conn.Valid() && VerbsAgree()
      ensures Waited(r, replies, old(conn.reader.Messages()), conn.reader.Messages())
      ensures fired <= |ticks| && (r.Ok? && fired < |ticks| ==> ticks[fired].AfterReads?)
      ensures keepAliveVerb == VerbAfter(old(keepAliveVerb), replies)
      ensures KeepAlivesSince(old(conn.requests), conn.requests, fired, streamUrl, sessionId)
      ensures (r == Err(WriteFailed) <==> fired > old(conn.writable)) && fired <= old(conn.writable) + 1
      ensures conn.writable == if fired > old(conn.writable) then 0 else old(conn.writable) - fired
      ensures old(conn.reader.Steady()) ==> conn.reader.Steady()
      ensures r.Err? && r.error.Stream? && old(conn.reader.Steady()) ==> conn.reader.Messages() == []
    {
      ghost var before := conn.reader.Messages();
      var tick := 0;
      replies, fired := [], 0;
      EmptyFirst(before);
      while true
        invariant conn.Valid() && VerbsAgree()
        invariant AllReplies(replies) && before == replies + conn.reader.Messages()
        invariant tick == fired <= |ticks| && keepAliveVerb == VerbAfter(old(keepAliveVerb), replies)
        invariant KeepAlivesSince(old(conn.requests), conn.requests, fired, streamUrl, sessionId)
        invariant fired <= old(conn.writable) && conn.writable == old(conn.writable) - fired
        invariant old(conn.reader.Steady()) ==> conn.reader.Steady()
        decreases |ticks| - tick, |conn.reader.Unread()|
      {
        var outcome := AwaitMessage(if tick < |ticks| then Some(ticks[tick]) else None);
        if outcome.Interrupted? {
          OneMoreKeepAlive(old(conn.requests), conn.requests, fired, streamUrl, sessionId,
                           SentRequest(keepAliveVerb, streamUrl, conn.cseq + 1, Some(sessionId), conn.digest));
          tick, fired := tick + 1, fired + 1;
          var sent := SendKeepAlive();
          if !sent {
            return Err(WriteFailed), replies, fired;
          }
        } else if outcome.Failed? {
          return Err(Stream(outcome.error)), replies, fired;
        } else if outcome.message.Data? {
          return Ok(outcome.message.packet), replies, fired;
        } else if outcome.message.Request? {
          return Err(UnexpectedRequestFromServer), replies, fired;
        } else {
          OneMoreReply(old(keepAliveVerb), replies, outcome.message);
          Associate(replies, [outcome.message], conn.reader.Messages());
          replies := replies + [outcome.message];
          ObserveResponse(outcome.message.response.status);
        }
      }
    }

    /** Waits for a message until the next tick, if one is to come. */
    method AwaitMessage(tick: Option<Tick>) returns (outcome: ReadOutcome)
      requires PrefixStable(conn.reader.parse)
      modifies conn.reader
      ensures outcome.Got? ==> old(conn.reader.Messages()) == [outcome.message] + conn.reader.Messages()
      ensures outcome.Got? ==> |conn.reader.Unread()| < old(|conn.reader.Unread()|)
      ensures !outcome.Got? ==> conn.reader.Unread() == old(conn.reader.Unread())
      ensures outcome.Interrupted? ==> tick.Some?
      ensures tick == Some(BeforeMessage) ==> outcome.Interrupted?
      ensures old(conn.reader.Steady()) ==> conn.reader.Steady() && (outcome.Failed? ==> conn.reader.Messages() == [])
    {
      if tick == Some(BeforeMessage) {
        return Interrupted;
      }
      outcome := conn.reader.ReadMessage(if tick.Some? then Some(tick.value.count) else None);
    }
  }

  // ----- The handshake

  /** What becomes of one of the handshake's requests: what the next ones need, an error, or no
      answer yet. */
  datatype Stepped = Done(value: string, rest: seq<Message>) | Failing(error: SessionError) | Waiting

  /** DESCRIBE gives the video track's URL. */
  ghost function DescribeStep(parseChallenge: ChallengeParser, resolveTrack: Response -> Option<string>,
                              controls: seq<Message>): Stepped {
    match Exchange(parseChallenge, controls)
    case Unanswered => Waiting
    case Refused(error, _) => Failing(error)
    case Answer(response, rest) =>
      if response.status != 200 then Failing(UnexpectedStatus(Describe, response.status))
      else if resolveTrack(response).None? then Failing(NoVideoTrack)
      else Done(resolveTrack(response).value, rest)
  }

  /** SETUP gives the session's id. */
  ghost function SetupStep(parseChallenge: ChallengeParser, controls: seq<Message>): Stepped {
    match Exchange(parseChallenge, controls)
    case Unanswered => Waiting
    case Refused(error, _) => Failing(error)
    case Answer(response, rest) =>
      if response.status != 200 then Failing(UnexpectedStatus(Setup, response.status))
      else
        match response.session
        case UnreadableSession => Failing(UnreadableSessionHeader)
        case NoSession => Failing(MissingSessionHeader)
        case SessionId(id) => Done(id, rest)
  }

  ghost function PlayStep(parseChallenge: ChallengeParser, controls: seq<Message>): Stepped {
    match Exchange(parseChallenge, controls)
    case Unanswered => Waiting
    case Refused(error, _) => Failing(error)
    case Answer(response, rest) =>
      if response.status != 200 then Failing(UnexpectedStatus(Play, response.status)) else Done("", rest)
  }

  /** What becomes of a handshake: a session, an error, or no answer yet. */
  datatype Handshaken =
    | Established(trackUrl: string, sessionId: string, rest: seq<Message>)
    | Rejected(error: SessionError)
    | Unfinished

  /** What the control messages to come make of DESCRIBE, SETUP and PLAY. */
  ghost function Handshake(parseChallenge: ChallengeParser, resolveTrack: Response -> Option<string>,
                           controls: seq<Message>): Handshaken {
    match DescribeStep(parseChallenge, resolveTrack, controls)
    case Waiting => Unfinished
    case Failing(error) => Rejected(error)
    case Done(trackUrl, fromSetup) =>
      match SetupStep(parseChallenge, fromSetup)
      case Waiting => Unfinished
      case Failing(error) => Rejected(error)
      case Done(sessionId, fromPlay) =>
        match PlayStep(parseChallenge, fromPlay)
        case Waiting => Unfinished
        case Failing(error) => Rejected(error)
        case Done(_, rest) => Established(trackUrl, sessionId, rest)
  }

  /** A handshake is established exactly by three answers with status 200, the first of which
      describes the track and the second names the session. */
  lemma EstablishedIs(parseChallenge: ChallengeParser, resolveTrack: Response -> Option<string>,
                      controls: seq<Message>, trackUrl: string, sessionId: string, rest: seq<Message>)
    ensures Handshake(parseChallenge, resolveTrack, controls) == Established(trackUrl, sessionId, rest) <==>
            exists described: Response, fromSetup, setUp: Response, fromPlay, played: Response ::
              && Exchange(parseChallenge, controls) == Answer(described, fromSetup)
              && Exchange(parseChallenge, fromSetup) == Answer(setUp, fromPlay)
              && Exchange(parseChallenge, fromPlay) == Answer(played, rest)
              && described.status == 200 && setUp.status == 200 && played.status == 200
              && resolveTrack(described) == Some(trackUrl) && setUp.session == SessionId(sessionId)
  {
  }

  /** A request's result is its step's, unless the socket fails; a steady one fails only when there
      is no answer. */
  ghost predicate StepResult(stepped: Stepped, r: Result<string>, rest: seq<Message>, steady: bool, writable: nat) {
    match r
    case Ok(value) => stepped == Done(value, rest)
    case Err(Stream(_)) => steady ==> stepped.Waiting?
    case Err(WriteFailed) => writable < 2
    case Err(error) => stepped == Failing(error)
  }

  ghost predicate HandshakeFails(handshaken: Handshaken, error: SessionError, steady: bool, writable: nat) {
    match error
    case Stream(_) => steady ==> handshaken.Unfinished?
    case WriteFailed => writable < 6
    case _ => handshaken == Rejected(error)
  }

  method DescribeTrack(conn: Connection, resolveTrack: Response -> Option<string>, streamUrl: string)
    returns (r: Result<string>)
    requires conn.Valid()
    modifies conn, conn.reader
    ensures conn.Valid() && conn.Frames() == old(conn.Frames())
    ensures SentOnceOrTwice(old(conn.requests), conn.requests, Describe, streamUrl, None)
    ensures StepResult(old(DescribeStep(conn.parseChallenge, resolveTrack, Controls(conn.reader.Messages()))), r,
                       Controls(conn.reader.Messages()), old(conn.reader.Steady()), old(conn.writable))
    ensures (old(conn.reader.Steady()) ==> conn.reader.Steady()) && conn.writable + 2 >= old(conn.writable)
  {
    var describe := conn.RequestAuthenticated(Describe, streamUrl, None);
    if describe.Err? {
      return Err(describe.error);
    }
    if describe.value.status != OK_STATUS {
      return Err(UnexpectedStatus(Describe, describe.value.status));
    }
    var track := resolveTrack(describe.value);
    return if track.None? then Err(NoVideoTrack) else Ok(track.value);
  }

  method SetUpTrack(conn: Connection, trackUrl: string) returns (r: Result<string>)
    requires conn.Valid()
    modifies conn, conn.reader
    ensures conn.Valid() && conn.Frames() == old(conn.Frames())
    ensures SentOnceOrTwice(old(conn.requests), conn.requests, Setup, trackUrl, None)
    ensures StepResult(old(SetupStep(conn.parseChallenge, Controls(conn.reader.Messages()))), r,
                       Controls(conn.reader.Messages()), old(conn.reader.Steady()), old(conn.writable))
    ensures (old(conn.reader.Steady()) ==> conn.reader.Steady()) && conn.writable + 2 >= old(conn.writable)
  {
    var setup := conn.RequestAuthenticated(Setup, trackUrl, None);
    if setup.Err? {
      return Err(setup.error);
    }
    if setup.value.status != OK_STATUS {
      return Err(UnexpectedStatus(Setup, setup.value.status));
    }
    match setup.value.session
    case UnreadableSession => return Err(UnreadableSessionHeader);
    case NoSession => return Err(MissingSessionHeader);
    case SessionId(id) => return Ok(id);
  }

  method StartPlaying(conn: Connection, streamUrl: string, sessionId: string) returns (r: Result<string>)
    requires conn.Valid()
    modifies conn, conn.reader
    ensures conn.Valid() && conn.Frames() == old(conn.Frames())
    ensures SentOnceOrTwice(old(conn.requests), conn.requests, Play, streamUrl, Some(sessionId))
    ensures StepResult(old(PlayStep(conn.parseChallenge, Controls(conn.reader.Messages()))), r,
                       Controls(conn.reader.Messages()), old(conn.reader.Steady()), old(conn.writable))
    ensures old(conn.reader.Steady()) ==> conn.reader.Steady()
  {
    var play := conn.RequestAuthenticated(Play, streamUrl, Some(sessionId));
    if play.Err? {
      return Err(play.error);
    }
    return if play.value.status != OK_STATUS then Err(UnexpectedStatus(Play, play.value.status)) else Ok("");
  }

  /** DESCRIBE, SETUP and PLAY in this order, numbered from 1, each sent once, or twice after a
      challenge; only PLAY names the session, and only SETUP goes to the track. */
  ghost predicate HandshakeRequests(requests: seq<SentRequest>, streamUrl: string, trackUrl: string,
                                    sessionId: string) {
    Numbered(requests)
    && exists described, setUp ::
         && SentOnceOrTwice([], described, Describe, streamUrl, None)
         && SentOnceOrTwice(described, setUp, Setup, trackUrl, None)
         && SentOnceOrTwice(setUp, requests, Play, streamUrl, Some(sessionId))
  }

  /** Opens a session on a fresh connection. `resolveTrack` finds the video track's URL in a
      DESCRIBE response. Media packets that arrive during the handshake stay first in line. */
  method Connect(parse: Parser, incoming: seq<SocketRead>, parseChallenge: ChallengeParser, writable: nat,
                 resolveTrack: Response -> Option<string>, streamUrl: string) returns (r: Result<PlayingSession>)
    requires PrefixStable(parse)
    ensures r.Ok? ==> fresh(r.value) && fresh(r.value.conn) && fresh(r.value.conn.reader)
    ensures r.Ok? ==> r.value.Valid() && r.value.delivered == [] && r.value.wire == Flow(incoming)
    ensures r.Ok? ==> r.value.conn.reader.parse == parse
    ensures r.Ok? && SteadyReads(parse, incoming) ==> r.value.conn.reader.Steady()
    ensures var handshaken := Handshake(parseChallenge, resolveTrack, Controls(Decode(parse, Flow(incoming))));
      match r
      case Ok(session) =>
        && handshaken.Established? && session.sessionId == handshaken.sessionId
        && handshaken.rest == Controls(session.conn.reader.Messages())
        && HandshakeRequests(session.conn.requests, streamUrl, handshaken.trackUrl, handshaken.sessionId)
      case Err(error) => HandshakeFails(handshaken, error, SteadyReads(parse, incoming), writable)
  {
    var reader := new MessageStream(parse, incoming);
    EmptyFirst(Flow(incoming));
    EmptyFirst(DataFrames(Decode(parse, Flow(incoming))));
    var conn := new Connection(reader, parseChallenge, writable);
    var track := DescribeTrack(conn, resolveTrack, streamUrl);
    if track.Err? {
      return Err(track.error);
    }
    ghost var described := conn.requests;
    var sessionId := SetUpTrack(conn, track.value);
    if sessionId.Err? {
      return Err(sessionId.error);
    }
    ghost var setUp := conn.requests;
    var started := StartPlaying(conn, streamUrl, sessionId.value);
    if started.Err? {
      return Err(started.error);
    }
    var session := new PlayingSession(conn, streamUrl, sessionId.value, Flow(incoming));
    return Ok(session);
  }
}
