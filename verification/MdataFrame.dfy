/**
 * The V2 protocol of bin/rshyve/src/mdata.rs: framed requests and replies.
 * The checksum and the base64 coding come from other crates, so they are
 * parameters here, in `Coding`.
 */
module MdataFrame {
  import opened Prelude
  import opened MdataText

  const NO_REQID: string := "00000000"

  datatype Coding = Coding(crc: string -> nat, encode: string -> string, decode: string -> Option<string>)
  {
    ghost predicate Ok() { forall s: string :: crc(s) <= U32_MAX }

    ghost predicate Inverse() { forall s: string :: decode(encode(s)) == Some(s) }
  }

  datatype Frame = Frame(reqid: string, command: string, arg: Option<string>)

  datatype FrameError = Fields | Length | Crc | Reqid

  predicate IsReqid(s: string)
  {
    |s| == 8 && forall i :: 0 <= i < 8 ==> Digit(s[i], 16).Some?
  }

  function PartAt(parts: seq<string>, i: nat): Option<string>
  {
    if i < |parts| then Some(parts[i]) else None
  }

  function ParseBody(body: string): Result<Frame, FrameError>
  {
    var parts := SplitN(body, 3);
    if !IsReqid(parts[0]) then Err(Reqid)
    else Ok(Frame(parts[0], if |parts| > 1 then parts[1] else "", PartAt(parts, 2)))
  }

  /** `parse_v2_frame`. */
  function Parse(k: Coding, line: string): Result<Frame, FrameError>
  {
    var parts := SplitN(line, 4);
    if |parts| < 4 then Err(Fields)
    else if ParseUnsigned(parts[1], 10, U64_MAX) != Some(|parts[3]|) then Err(Length)
    else if ParseUnsigned(parts[2], 16, U32_MAX) != Some(k.crc(parts[3])) then Err(Crc)
    else ParseBody(parts[3])
  }

  /** The body of a reply; an empty payload is not sent. */
  function Body(k: Coding, reqid: string, status: string, data: Option<string>): string
  {
    if data.Some? && data.value != [] then reqid + " " + (status + " " + k.encode(data.value))
    else reqid + " " + status
  }

  function FrameText(k: Coding, body: string): string
  {
    "V2" + " " + (ToDecimal(|body|) + " " + (ToHex(k.crc(body), 8) + " " + body))
  }

  /** `build_v2_response`. */
  function Build(k: Coding, reqid: string, status: string, data: Option<string>): string
  {
    FrameText(k, Body(k, reqid, status, data))
  }

  // ----- what the parser accepts

  /** The line has a body behind three space-free fields, and the length and checksum are the body's. */
  ghost predicate Framed(k: Coding, line: string, v2: string, len: string, crc: string, body: string)
  {
    && line == v2 + " " + (len + " " + (crc + " " + body))
    && ' ' !in v2 && ' ' !in len && ' ' !in crc
    && ParseUnsigned(len, 10, U64_MAX) == Some(|body|)
    && ParseUnsigned(crc, 16, U32_MAX) == Some(k.crc(body))
  }

  lemma TwoParts(a: string, b: string)
    requires ' ' !in a
    ensures SplitN(a + " " + b, 2) == [a, b]
  {
    SplitHead(a, b, 2);
  }

  lemma ThreeParts(a: string, b: string, c: string)
    requires ' ' !in a && ' ' !in b
    ensures SplitN(a + " " + (b + " " + c), 3) == [a, b, c]
  {
    SplitHead(a, b + " " + c, 3);
    TwoParts(b, c);
  }

  lemma FourParts(v2: string, len: string, crc: string, body: string)
    requires ' ' !in v2 && ' ' !in len && ' ' !in crc
    ensures SplitN(v2 + " " + (len + " " + (crc + " " + body)), 4) == [v2, len, crc, body]
  {
    SplitHead(v2, len + " " + (crc + " " + body), 4);
    ThreeParts(len, crc, body);
  }

  lemma FramedParses(k: Coding, line: string, v2: string, len: string, crc: string, body: string)
    requires Framed(k, line, v2, len, crc, body)
    ensures Parse(k, line) == ParseBody(body)
  {
    FourParts(v2, len, crc, body);
  }

  lemma PartsJoin(line: string)
    requires |SplitN(line, 4)| == 4
    ensures var p := SplitN(line, 4);
            line == p[0] + " " + (p[1] + " " + (p[2] + " " + p[3])) && ' ' !in p[0] && ' ' !in p[1] && ' ' !in p[2]
  {
    var a := SplitTail(line, 4);
    var b := SplitTail(a, 3);
    var c := SplitTail(b, 2);
  }

  /** A line is accepted exactly when it frames a body that starts with a request id. */
  lemma AcceptedExactly(k: Coding, line: string)
    ensures Parse(k, line).Ok? <==>
            exists v2, len, crc, body :: Framed(k, line, v2, len, crc, body) && IsReqid(SplitN(body, 3)[0])
  {
    if Parse(k, line).Ok? {
      var p := SplitN(line, 4);
      PartsJoin(line);
      assert Framed(k, line, p[0], p[1], p[2], p[3]);
    }
    forall v2, len, crc, body | Framed(k, line, v2, len, crc, body)
      ensures Parse(k, line) == ParseBody(body)
    {
      FramedParses(k, line, v2, len, crc, body);
    }
  }

  // ----- the round trip

  lemma FrameTextParses(k: Coding, body: string)
    requires k.Ok() && |body| <= U64_MAX
    ensures Parse(k, FrameText(k, body)) == ParseBody(body)
  {
    LengthRoundTrip(|body|);
    ChecksumRoundTrip(k.crc(body));
    FramedParses(k, FrameText(k, body), "V2", ToDecimal(|body|), ToHex(k.crc(body), 8), body);
  }

  lemma ReqidPlain(reqid: string)
    requires IsReqid(reqid)
    ensures ' ' !in reqid
  {
    assert Digit(' ', 16).None?;
  }

  /** The payload as it travels: encoded, and absent when empty. */
  function Sent(k: Coding, data: Option<string>): Option<string>
  {
    if data.Some? && data.value != [] then Some(k.encode(data.value)) else None
  }

  /** Parsing undoes building, for every request id, space-free status and payload. */
  lemma RoundTrip(k: Coding, reqid: string, status: string, data: Option<string>)
    requires k.Ok() && IsReqid(reqid) && ' ' !in status && |Body(k, reqid, status, data)| <= U64_MAX
    ensures Parse(k, Build(k, reqid, status, data)) == Ok(Frame(reqid, status, Sent(k, data)))
  {
    FrameTextParses(k, Body(k, reqid, status, data));
    ReqidPlain(reqid);
    if data.Some? && data.value != [] {
      ThreeParts(reqid, status, k.encode(data.value));
    } else {
      SplitHead(reqid, status, 3);
    }
  }

  // ----- requests and replies

  /** The store's entries, and its keys in the order the store lists them. */
  datatype Store = Store(entries: map<string, string>, keys: seq<string>)

  function JoinLines(lines: seq<string>): string
  {
    if lines == [] then "" else if |lines| == 1 then lines[0] else lines[0] + "\n" + JoinLines(lines[1..])
  }

  datatype Reply = Reply(reqid: string, status: string, data: Option<string>)

  function Find(store: Store, key: string): Option<string>
  {
    if key in store.entries then Some(store.entries[key]) else None
  }

  /** The key a GET asks for. */
  function Asked(k: Coding, frame: Frame): Option<string>
  {
    if frame.arg.Some? then k.decode(frame.arg.value) else None
  }

  function AnswerGet(reqid: string, key: Option<string>, store: Store): Reply
  {
    if key.None? then Reply(reqid, "FAILURE", None) else
      match Find(store, key.value)
      case Some(value) => Reply(reqid, "SUCCESS", Some(value))
      case None => Reply(reqid, "NOTFOUND", None)
  }

  function AnswerFrame(k: Coding, frame: Frame, store: Store): Reply
  {
    if frame.command == "GET" then AnswerGet(frame.reqid, Asked(k, frame), store)
    else if frame.command == "KEYS" then Reply(frame.reqid, "SUCCESS", Some(JoinLines(store.keys)))
    else Reply(frame.reqid, "FAILURE", None)
  }

  /** What `process_v2_frame` answers. */
  function Answer(k: Coding, line: string, store: Store): Reply
  {
    match Parse(k, line)
    case Err(_) => Reply(NO_REQID, "FAILURE", None)
    case Ok(frame) => AnswerFrame(k, frame, store)
  }

  function Process(k: Coding, line: string, store: Store): string
  {
    var r := Answer(k, line, store);
    Build(k, r.reqid, r.status, r.data)
  }

  lemma ParsedReqid(k: Coding, line: string)
    requires Parse(k, line).Ok?
    ensures IsReqid(Parse(k, line).value.reqid)
  {
  }

  predicate Status(s: string) { s == "SUCCESS" || s == "NOTFOUND" || s == "FAILURE" }

  predicate Shaped(r: Reply, reqid: string)
  {
    Status(r.status) && (r.data.Some? ==> r.status == "SUCCESS") && r.reqid == reqid
  }

  lemma AnswerFrameShape(k: Coding, frame: Frame, store: Store)
    ensures Shaped(AnswerFrame(k, frame, store), frame.reqid)
  {
  }

  lemma AnswerShape(k: Coding, line: string, store: Store)
    ensures Shaped(Answer(k, line, store), if Parse(k, line).Ok? then Parse(k, line).value.reqid else NO_REQID)
  {
    var parsed := Parse(k, line);
    if parsed.Ok? {
      AnswerFrameShape(k, parsed.value, store);
    }
  }

  lemma ReplyFits(k: Coding, r: Reply)
    requires k.Ok() && Status(r.status) && IsReqid(r.reqid) && |Body(k, r.reqid, r.status, r.data)| <= U64_MAX
    ensures Parse(k, Build(k, r.reqid, r.status, r.data)) == Ok(Frame(r.reqid, r.status, Sent(k, r.data)))
  {
    RoundTrip(k, r.reqid, r.status, r.data);
  }

  /** Every reply is itself a well-formed frame under the request's id, or under the zero id for a refused line. */
  lemma ReplyParses(k: Coding, line: string, store: Store)
    requires k.Ok()
    requires var r := Answer(k, line, store); |Body(k, r.reqid, r.status, r.data)| <= U64_MAX
    ensures var reply := Parse(k, Process(k, line, store));
            && reply.Ok?
            && reply.value.reqid == (if Parse(k, line).Ok? then Parse(k, line).value.reqid else NO_REQID)
            && Status(reply.value.command)
            && (reply.value.arg.Some? ==> reply.value.command == "SUCCESS")
  {
    AnswerShape(k, line, store);
    if Parse(k, line).Ok? {
      ParsedReqid(k, line);
    }
    ReplyFits(k, Answer(k, line, store));
  }

  /** A GET for `key`, framed as a client frames it. */
  function GetRequest(k: Coding, reqid: string, key: string): string
  {
    FrameText(k, reqid + " " + ("GET" + " " + k.encode(key)))
  }

  lemma GetRequestParses(k: Coding, reqid: string, key: string)
    requires k.Ok() && IsReqid(reqid) && |k.encode(key)| <= U64_MAX - 13
    ensures Parse(k, GetRequest(k, reqid, key)) == Ok(Frame(reqid, "GET", Some(k.encode(key))))
  {
    var body := reqid + " " + ("GET" + " " + k.encode(key));
    FrameTextParses(k, body);
    ReqidPlain(reqid);
    ThreeParts(reqid, "GET", k.encode(key));
  }

  lemma GetAnswer(k: Coding, reqid: string, key: string, store: Store)
    requires k.Ok() && k.Inverse() && IsReqid(reqid) && |k.encode(key)| <= U64_MAX - 13
    ensures Answer(k, GetRequest(k, reqid, key), store) == AnswerGet(reqid, Some(key), store)
  {
    GetRequestParses(k, reqid, key);
  }

  /** A client that asks for a key reads back what the store holds for it, or that it holds nothing. */
  lemma GetAnswered(k: Coding, reqid: string, key: string, store: Store)
    requires k.Ok() && k.Inverse() && IsReqid(reqid) && |k.encode(key)| <= U64_MAX - 13
    requires key in store.entries ==> |k.encode(store.entries[key])| <= U64_MAX - 20
    ensures Parse(k, Process(k, GetRequest(k, reqid, key), store)) ==
            Ok(if key in store.entries then Frame(reqid, "SUCCESS", Sent(k, Some(store.entries[key])))
               else Frame(reqid, "NOTFOUND", None))
  {
    GetAnswer(k, reqid, key, store);
    ReplyFits(k, AnswerGet(reqid, Some(key), store));
  }
}
