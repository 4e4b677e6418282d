/**
 * The agent's side of the serial line in bin/rshyve/src/mdata.rs: bytes
 * gathered into request lines, and the unframed V1 replies, whose values are
 * sent line by line with a lone dot at the end.
 */
module MdataSession {
  import opened Prelude
  import opened MdataText
  import MdataFrame

  const MAX_LINE: nat := 4096

  // ----- request lines

  predicate Printable(c: char) { 0x20 <= c as int < 0x7F }

  function PrintableOf(s: string): (p: string)
    ensures |p| <= |s|
  {
    if s == [] then [] else
      var rest := PrintableOf(s[..|s| - 1]);
      if Printable(s[|s| - 1]) then rest + [s[|s| - 1]] else rest
  }

  function Cut(s: string): string { if |s| <= MAX_LINE then s else s[..MAX_LINE] }

  datatype Line = Line(text: string, overlong: bool)

  /** The request a stretch of bytes between newlines is. */
  function LineOf(s: string): Line
  {
    Line(Cut(PrintableOf(s)), |PrintableOf(s)| > MAX_LINE)
  }

  /** The requests of a stream: one per newline, of the bytes since the one before. */
  function LinesOf(stream: string): seq<Line>
    decreases |stream|
  {
    if '\n' !in stream then [] else
      [LineOf(stream[..IndexOf(stream, '\n')])] + LinesOf(stream[IndexOf(stream, '\n') + 1..])
  }

  lemma LinesOfCons(head: string, tail: string)
    requires '\n' !in head
    ensures LinesOf(head + ['\n'] + tail) == [LineOf(head)] + LinesOf(tail)
  {
    var s := head + ['\n'] + tail;
    IndexAfter(head, '\n', tail);
    assert s[..|head|] == head && s[|head| + 1..] == tail;
  }

  /** One byte off the front of what is still to come. */
  lemma LinesOfStep(seen: string, stream: string, i: nat)
    requires '\n' !in seen && i < |stream|
    ensures stream[i] == '\n' ==> LinesOf(seen + stream[i..]) == [LineOf(seen)] + LinesOf([] + stream[i + 1..])
    ensures stream[i] != '\n' ==> LinesOf(seen + stream[i..]) == LinesOf(seen + [stream[i]] + stream[i + 1..])
  {
    var rest := stream[i + 1..];
    assert seen + stream[i..] == seen + [stream[i]] + rest;
    assert [] + rest == rest;
    if stream[i] == '\n' {
      LinesOfCons(seen, rest);
    }
  }

  lemma LinesOwed(seen: string, stream: string, i: nat, done: seq<Line>)
    requires '\n' !in seen && i < |stream|
    ensures done + LinesOf(seen + stream[i..]) ==
            if stream[i] == '\n' then done + [LineOf(seen)] + LinesOf([] + stream[i + 1..])
            else done + LinesOf(seen + [stream[i]] + stream[i + 1..])
  {
    LinesOfStep(seen, stream, i);
    Regroup(done, LineOf(seen), LinesOf([] + stream[i + 1..]));
  }

  lemma Regroup<T>(a: seq<T>, x: T, b: seq<T>)
    ensures a + ([x] + b) == a + [x] + b
  {
  }

  lemma NothingOwed(seen: string, stream: string)
    requires '\n' !in seen
    ensures LinesOf(seen + stream[|stream|..]) == []
  {
    assert seen + stream[|stream|..] == seen;
  }

  lemma CutGrows(p: string, c: char)
    ensures |p| < MAX_LINE ==> Cut(p) + [c] == Cut(p + [c])
    ensures |p| >= MAX_LINE ==> Cut(p + [c]) == Cut(p) && |Cut(p)| == MAX_LINE
  {
    assert |p| >= MAX_LINE ==> (p + [c])[..MAX_LINE] == p[..MAX_LINE];
  }

  class Session {
    var line: string
    var overlong: bool
    var v2: bool
    /** The bytes since the last newline. */
    ghost var seen: string

    ghost predicate Valid()
      reads this
    {
      '\n' !in seen && Line(line, overlong) == LineOf(seen)
    }

    constructor ()
      ensures Valid() && seen == [] && !v2
    {
      line, overlong, v2 := [], false, false;
      seen := [];
    }

    /** One byte from the guest; a newline completes the request. */
    method Push(b: char) returns (out: Option<Line>)
      requires Valid()
      modifies this`line, this`overlong, this`seen
      ensures Valid()
      ensures b == '\n' ==> out == Some(LineOf(old(seen))) && seen == []
      ensures b != '\n' ==> out == None && seen == old(seen) + [b]
    {
      out := None;
      if b == '\n' {
        out := Some(Line(line, overlong));
        line, overlong := [], false;
        seen := [];
        return;
      }
      assert (seen + [b])[..|seen|] == seen;
      CutGrows(PrintableOf(seen), b);
      seen := seen + [b];
      if Printable(b) {
        if |line| < MAX_LINE {
          line := line + [b];
        } else {
          overlong := true;
        }
      }
    }

    /** Any stream yields exactly its requests, and leaves what follows its last newline pending. */
    method PushAll(stream: string) returns (lines: seq<Line>)
      requires Valid()
      modifies this`line, this`overlong, this`seen
      ensures Valid() && lines == LinesOf(old(seen) + stream)
    {
      lines := [];
      assert stream[0..] == stream;
      for i := 0 to |stream|
        invariant Valid()
        invariant lines + LinesOf(seen + stream[i..]) == LinesOf(old(seen) + stream)
      {
        LinesOwed(seen, stream, i, lines);
        var out := Push(stream[i]);
        if out.Some? {
          lines := lines + [out.value];
        }
      }
      NothingOwed(seen, stream);
    }

    /** The reply to one request. */
    method Answer(k: MdataFrame.Coding, request: Line, store: MdataFrame.Store) returns (reply: string)
      modifies this`v2
      ensures v2 <==> SpeaksV2(old(v2), request)
      ensures reply == ReplyTo(k, old(v2), request, store)
    {
      if request.overlong {
        if v2 {
          return MdataFrame.Build(k, MdataFrame.NO_REQID, "FAILURE", None);
        }
        return "invalid command";
      }
      if request.text == [] {
        return "invalid command";
      }
      if request.text == "NEGOTIATE V2" {
        v2 := true;
        return "V2_OK";
      }
      if v2 && "V2 " <= request.text {
        return MdataFrame.Process(k, request.text, store);
      }
      reply := ProcessV1(request.text, store);
    }

    /** One turn of the loop: a newline is answered, any other byte only kept. */
    method Take(k: MdataFrame.Coding, b: char, store: MdataFrame.Store) returns (reply: Option<string>)
      requires Valid()
      modifies this
      ensures Valid()
      ensures b == '\n' ==> reply == Some(ReplyTo(k, old(v2), LineOf(old(seen)), store))
                            && seen == [] && v2 == SpeaksV2(old(v2), LineOf(old(seen)))
      ensures b != '\n' ==> reply == None && seen == old(seen) + [b] && v2 == old(v2)
    {
      reply := None;
      var out := Push(b);
      if out.Some? {
        var text := Answer(k, out.value, store);
        reply := Some(text);
      }
    }

    /** The agent's loop: bytes in, and one reply for every request they complete. */
    method Serve(k: MdataFrame.Coding, stream: string, store: MdataFrame.Store) returns (replies: seq<string>)
      requires Valid()
      modifies this
      ensures Valid() && replies == RepliesTo(k, old(v2), LinesOf(old(seen) + stream), store)
    {
      replies := [];
      ghost var whole := RepliesTo(k, v2, LinesOf(seen + stream), store);
      assert stream[0..] == stream;
      for i := 0 to |stream|
        invariant Valid()
        invariant replies + RepliesTo(k, v2, LinesOf(seen + stream[i..]), store) == whole
      {
        ServeStep(k, v2, seen, stream, i, store, replies);
        var reply := Take(k, stream[i], store);
        if reply.Some? {
          replies := replies + [reply.value];
        }
      }
      NothingOwed(seen, stream);
    }
  }

  /** Whether a session speaks V2 after a request. */
  predicate SpeaksV2(v2: bool, request: Line)
  {
    v2 || (!request.overlong && request.text == "NEGOTIATE V2")
  }

  /** The replies to a list of requests. */
  function RepliesTo(k: MdataFrame.Coding, v2: bool, lines: seq<Line>, store: MdataFrame.Store): (out: seq<string>)
    ensures |out| == |lines|
    decreases |lines|
  {
    if lines == [] then []
    else [ReplyTo(k, v2, lines[0], store)] + RepliesTo(k, SpeaksV2(v2, lines[0]), lines[1..], store)
  }

  lemma RepliesStep(k: MdataFrame.Coding, v2: bool, request: Line, rest: seq<Line>, store: MdataFrame.Store,
                    done: seq<string>)
    ensures done + RepliesTo(k, v2, [request] + rest, store)
            == done + [ReplyTo(k, v2, request, store)] + RepliesTo(k, SpeaksV2(v2, request), rest, store)
  {
    assert ([request] + rest)[1..] == rest;
    Regroup(done, ReplyTo(k, v2, request, store), RepliesTo(k, SpeaksV2(v2, request), rest, store));
  }

  /** One byte of the loop: a newline owes the reply to its request, any other byte owes nothing yet. */
  lemma ServeStep(k: MdataFrame.Coding, v2: bool, seen: string, stream: string, i: nat, store: MdataFrame.Store,
                  done: seq<string>)
    requires '\n' !in seen && i < |stream|
    ensures stream[i] == '\n' ==>
              done + RepliesTo(k, v2, LinesOf(seen + stream[i..]), store)
              == done + [ReplyTo(k, v2, LineOf(seen), store)]
                 + RepliesTo(k, SpeaksV2(v2, LineOf(seen)), LinesOf([] + stream[i + 1..]), store)
    ensures stream[i] != '\n' ==> LinesOf(seen + stream[i..]) == LinesOf(seen + [stream[i]] + stream[i + 1..])
  {
    LinesOfStep(seen, stream, i);
    RepliesStep(k, v2, LineOf(seen), LinesOf([] + stream[i + 1..]), store, done);
  }

  // ----- V1 values

  function StripCr(s: string): string
  {
    if s != [] && s[|s| - 1] == '\r' then s[..|s| - 1] else s
  }

  /** The lines of a value, broken at each newline or carriage return and newline; the last may go without. */
  function ValueLines(v: string): seq<string>
    decreases |v|
  {
    if v == [] then []
    else if '\n' !in v then [v]
    else [StripCr(v[..IndexOf(v, '\n')])] + ValueLines(v[IndexOf(v, '\n') + 1..])
  }

  ghost predicate NoBreaks(lines: seq<string>)
  {
    forall i :: 0 <= i < |lines| ==> '\n' !in lines[i]
  }

  lemma {:induction false} ValueLinesNoBreaks(v: string)
    ensures NoBreaks(ValueLines(v))
    decreases |v|
  {
    if v != [] && '\n' in v {
      ValueLinesNoBreaks(v[IndexOf(v, '\n') + 1..]);
    }
  }

  /** A leading dot is doubled. */
  function Stuff(s: string): string { if s != [] && s[0] == '.' then "." + s else s }

  function Unstuff(s: string): string { if s != [] && s[0] == '.' then s[1..] else s }

  /** Lines, each closed by a newline. */
  function Closed(lines: seq<string>): string
  {
    if lines == [] then [] else Closed(lines[..|lines| - 1]) + (lines[|lines| - 1] + ['\n'])
  }

  function StuffAll(lines: seq<string>): (out: seq<string>)
    ensures |out| == |lines| && forall i :: 0 <= i < |lines| ==> out[i] == Stuff(lines[i])
  {
    seq(|lines|, i requires 0 <= i < |lines| => Stuff(lines[i]))
  }

  lemma ClosedSnoc(head: string, lines: seq<string>, last: string)
    ensures head + Closed(lines + [last]) == head + Closed(lines) + last + ['\n']
  {
    assert (lines + [last])[..|lines|] == lines;
    var c := Closed(lines);
    assert head + (c + (last + ['\n'])) == head + c + last + ['\n'];
  }

  lemma StuffedSnoc(head: string, lines: seq<string>, i: nat)
    requires i < |lines|
    ensures head + Closed(StuffAll(lines[..i + 1])) == head + Closed(StuffAll(lines[..i])) + Stuff(lines[i]) + ['\n']
  {
    assert StuffAll(lines[..i + 1]) == StuffAll(lines[..i]) + [Stuff(lines[i])];
    ClosedSnoc(head, StuffAll(lines[..i]), Stuff(lines[i]));
  }

  /** A line onto a reply, its leading dot doubled. */
  method PutLine(resp: string, line: string) returns (out: string)
    ensures out == resp + Stuff(line) + ['\n']
  {
    out := resp;
    if line != [] && line[0] == '.' {
      out := out + ".";
      assert out + line == resp + ("." + line);
    }
    out := out + line;
    out := out + ['\n'];
  }

  /** The reply to a GET of a value. */
  method GetReply(value: string) returns (resp: string)
    ensures resp == "SUCCESS\n" + Closed(StuffAll(ValueLines(value))) + "."
  {
    var lines := ValueLines(value);
    resp := "SUCCESS\n";
    for i := 0 to |lines|
      invariant resp == "SUCCESS\n" + Closed(StuffAll(lines[..i]))
    {
      StuffedSnoc("SUCCESS\n", lines, i);
      resp := PutLine(resp, lines[i]);
    }
    assert lines[..|lines|] == lines;
    resp := resp + ".";
  }

  /** The reply to KEYS: the keys as they are. */
  method KeysReply(keys: seq<string>) returns (resp: string)
    ensures resp == "SUCCESS\n" + Closed(keys) + "."
  {
    resp := "SUCCESS\n";
    for i := 0 to |keys|
      invariant resp == "SUCCESS\n" + Closed(keys[..i])
    {
      ClosedSnoc("SUCCESS\n", keys[..i], keys[i]);
      assert keys[..i + 1] == keys[..i] + [keys[i]];
      resp := resp + keys[i];
      resp := resp + ['\n'];
    }
    assert keys[..|keys|] == keys;
    resp := resp + ".";
  }

  function TrimStart(s: string): string
  {
    if s != [] && s[0] == ' ' then TrimStart(s[1..]) else s
  }

  /** Spaces off both ends; a request holds no other white space. */
  function Trim(s: string): string
  {
    if s != [] && s[|s| - 1] == ' ' then Trim(s[..|s| - 1]) else TrimStart(s)
  }

  function V1Reply(text: string, store: MdataFrame.Store): string
  {
    var parts := SplitN(text, 2);
    var (cmd, arg) := (parts[0], if |parts| > 1 then parts[1] else "");
    if cmd == "GET" then
      var key := Trim(arg);
      if key == [] then "invalid command"
      else match MdataFrame.Find(store, key)
        case Some(value) => "SUCCESS\n" + Closed(StuffAll(ValueLines(value))) + "."
        case None => "NOTFOUND"
    else if cmd == "KEYS" then "SUCCESS\n" + Closed(store.keys) + "."
    else "invalid command"
  }

  method ProcessV1(text: string, store: MdataFrame.Store) returns (resp: string)
    ensures resp == V1Reply(text, store)
  {
    var parts := SplitN(text, 2);
    var (cmd, arg) := (parts[0], if |parts| > 1 then parts[1] else "");
    if cmd == "GET" {
      var key := Trim(arg);
      if key == [] {
        return "invalid command";
      }
      match MdataFrame.Find(store, key)
      case Some(value) => resp := GetReply(value);
      case None => resp := "NOTFOUND";
    } else if cmd == "KEYS" {
      resp := KeysReply(store.keys);
    } else {
      resp := "invalid command";
    }
  }

  /** The reply to a request, in a session that has or has not agreed on V2. */
  function ReplyTo(k: MdataFrame.Coding, v2: bool, request: Line, store: MdataFrame.Store): string
  {
    if request.overlong then
      if v2 then MdataFrame.Build(k, MdataFrame.NO_REQID, "FAILURE", None) else "invalid command"
    else if request.text == [] then "invalid command"
    else if request.text == "NEGOTIATE V2" then "V2_OK"
    else if v2 && "V2 " <= request.text then MdataFrame.Process(k, request.text, store)
    else V1Reply(request.text, store)
  }

  // ----- the guest's decoder

  /** The lines of a text in which a newline closes each. */
  function GuestLines(s: string): seq<string>
    decreases |s|
  {
    if '\n' !in s then [] else [s[..IndexOf(s, '\n')]] + GuestLines(s[IndexOf(s, '\n') + 1..])
  }

  /** The payload: lines up to the lone dot, a leading dot taken off. */
  function Payload(lines: seq<string>): Option<seq<string>>
  {
    if lines == [] then None
    else if lines[0] == "." then Some([])
    else match Payload(lines[1..])
      case None => None
      case Some(rest) => Some([Unstuff(lines[0])] + rest)
  }

  /** Decode a reply, newline and all. */
  function DecodeV1(text: string): Option<seq<string>>
  {
    var lines := GuestLines(text);
    if lines != [] && lines[0] == "SUCCESS" then Payload(lines[1..]) else None
  }

  lemma GuestCons(head: string, tail: string)
    requires '\n' !in head
    ensures GuestLines(head + ['\n'] + tail) == [head] + GuestLines(tail)
  {
    var s := head + ['\n'] + tail;
    IndexAfter(head, '\n', tail);
    assert s[..|head|] == head && s[|head| + 1..] == tail;
  }

  lemma ClosedTail(lines: seq<string>, tail: string)
    requires lines != []
    ensures Closed(lines) + tail == Closed(lines[..|lines| - 1]) + (lines[|lines| - 1] + ['\n'] + tail)
  {
    var (c, last) := (Closed(lines[..|lines| - 1]), lines[|lines| - 1] + ['\n']);
    assert c + last + tail == c + (last + tail);
  }

  lemma GuestSnoc(lines: seq<string>, last: string, tail: string, whole: string)
    requires '\n' !in last && GuestLines(whole) == lines + GuestLines(last + ['\n'] + tail)
    ensures GuestLines(whole) == lines + [last] + GuestLines(tail)
  {
    GuestCons(last, tail);
    assert lines + ([last] + GuestLines(tail)) == lines + [last] + GuestLines(tail);
  }

  /** Closed lines are read one by one. */
  lemma {:induction false} GuestClosed(lines: seq<string>, tail: string)
    requires NoBreaks(lines)
    ensures GuestLines(Closed(lines) + tail) == lines + GuestLines(tail)
  {
    if lines == [] {
      assert Closed(lines) + tail == tail;
    } else {
      var (init, last) := (lines[..|lines| - 1], lines[|lines| - 1]);
      assert lines == init + [last];
      ClosedTail(lines, tail);
      GuestClosed(init, last + ['\n'] + tail);
      GuestSnoc(init, last, tail, Closed(lines) + tail);
    }
  }

  lemma ReplyText(body: string, tail: string)
    requires tail == "." + ['\n'] + []
    ensures "SUCCESS\n" + body + "." + "\n" == "SUCCESS" + ['\n'] + (body + tail)
  {
    assert "SUCCESS\n" == "SUCCESS" + ['\n'];
  }

  /** A reply of these lines, as the guest reads it with the newline that is sent after it. */
  lemma ReplyLines(lines: seq<string>)
    requires NoBreaks(lines)
    ensures GuestLines("SUCCESS\n" + Closed(lines) + "." + "\n") == ["SUCCESS"] + lines + ["."]
  {
    var tail := "." + ['\n'] + [];
    ReplyText(Closed(lines), tail);
    GuestCons("SUCCESS", Closed(lines) + tail);
    GuestClosed(lines, tail);
    GuestCons(".", []);
  }

  lemma {:induction false} PayloadOf(lines: seq<string>, out: seq<string>)
    requires |out| == |lines| && forall i :: 0 <= i < |lines| ==> lines[i] != "." && out[i] == Unstuff(lines[i])
    ensures Payload(lines + ["."]) == Some(out)
  {
    if lines == [] {
      assert lines + ["."] == ["."];
    } else {
      assert (lines + ["."])[1..] == lines[1..] + ["."];
      PayloadOf(lines[1..], out[1..]);
      assert out == [out[0]] + out[1..];
    }
  }

  lemma StuffUndone(s: string)
    ensures Unstuff(Stuff(s)) == s && Stuff(s) != "."
    ensures '\n' !in s ==> '\n' !in Stuff(s)
  {
  }

  /** A GET reply decodes to the lines of the value, and only its last line is a lone dot. */
  lemma GetReplyDecodes(value: string)
    ensures var text := "SUCCESS\n" + Closed(StuffAll(ValueLines(value))) + "." + "\n";
            && DecodeV1(text) == Some(ValueLines(value))
            && (forall i :: 0 <= i < |GuestLines(text)| ==>
                  (GuestLines(text)[i] == "." <==> i == |GuestLines(text)| - 1))
  {
    var (lines, stuffed) := (ValueLines(value), StuffAll(ValueLines(value)));
    ValueLinesNoBreaks(value);
    forall i | 0 <= i < |lines|
      ensures '\n' !in stuffed[i] && stuffed[i] != "." && Unstuff(stuffed[i]) == lines[i]
    {
      StuffUndone(lines[i]);
    }
    ReplyLines(stuffed);
    PayloadOf(stuffed, lines);
    assert (["SUCCESS"] + stuffed + ["."])[1..] == stuffed + ["."];
  }

  // ----- keys are not stuffed

  predicate PlainKey(key: string) { '\n' !in key && !("." <= key) }

  lemma {:induction false} GuestNoBreaks(s: string)
    ensures NoBreaks(GuestLines(s))
    decreases |s|
  {
    if '\n' in s {
      GuestNoBreaks(s[IndexOf(s, '\n') + 1..]);
    }
  }

  /** What a payload holds comes from the lines before the dot. */
  lemma {:induction false} PayloadLines(lines: seq<string>)
    requires NoBreaks(lines) && Payload(lines).Some?
    ensures var out := Payload(lines).value;
            |out| < |lines| && NoBreaks(out)
            && forall i :: 0 <= i < |out| ==> lines[i] != "." && out[i] == Unstuff(lines[i])
  {
    if lines[0] != "." {
      assert forall i :: 0 <= i < |lines| - 1 ==> lines[1..][i] == lines[i + 1];
      PayloadLines(lines[1..]);
    }
  }

  /** A KEYS reply, as the guest reads it. */
  function KeysText(keys: seq<string>): string { "SUCCESS\n" + Closed(keys) + "." + "\n" }

  lemma PlainKeysDecode(keys: seq<string>)
    requires forall i :: 0 <= i < |keys| ==> PlainKey(keys[i])
    ensures DecodeV1(KeysText(keys)) == Some(keys)
  {
    assert (["SUCCESS"] + keys + ["."])[1..] == keys + ["."];
    ReplyLines(keys);
    forall i | 0 <= i < |keys|
      ensures keys[i] != "." && keys[i] == Unstuff(keys[i])
    {
      assert PlainKey(keys[i]);
    }
    PayloadOf(keys, keys);
  }

  lemma DecodedNoBreaks(text: string)
    requires DecodeV1(text).Some?
    ensures NoBreaks(DecodeV1(text).value)
  {
    GuestNoBreaks(text);
    var lines := GuestLines(text);
    assert forall i :: 0 <= i < |lines| - 1 ==> lines[1..][i] == lines[i + 1];
    PayloadLines(lines[1..]);
  }

  lemma DecodedKeysPlain(keys: seq<string>, i: nat)
    requires DecodeV1(KeysText(keys)) == Some(keys) && i < |keys|
    ensures PlainKey(keys[i])
  {
    DecodedNoBreaks(KeysText(keys));
    ReplyLines(keys);
    assert (["SUCCESS"] + keys + ["."])[1..] == keys + ["."];
    PayloadLines(keys + ["."]);
    assert keys[i] == Unstuff(keys[i]);
  }

  /** A KEYS reply decodes to the keys exactly when no key holds a newline or starts with a dot. */
  lemma KeysReplyExactly(keys: seq<string>)
    ensures DecodeV1(KeysText(keys)) == Some(keys) <==> forall i :: 0 <= i < |keys| ==> PlainKey(keys[i])
  {
    if forall i :: 0 <= i < |keys| ==> PlainKey(keys[i]) {
      PlainKeysDecode(keys);
    } else if DecodeV1(KeysText(keys)) == Some(keys) {
      var i :| 0 <= i < |keys| && !PlainKey(keys[i]);
      DecodedKeysPlain(keys, i);
    }
  }

  /** A limit of the interface: the one key ".a" would not come through. */
  lemma DotKeyLost()
    ensures DecodeV1(KeysText([".a"])) != Some([".a"])
  {
    KeysReplyExactly([".a"]);
    assert !PlainKey([".a"][0]);
  }

  // ----- the store rshyve builds

  /** `build_store_from_zone_config`, without the order of its keys. */
  function ZoneEntries(hostname: string, uuid: Option<string>, nics: Option<string>, resolvers: Option<string>,
                       sshKeys: Option<string>, rootPw: Option<string>): map<string, string>
  {
    ZoneNames(hostname, uuid)
    + Optional("sdc:nics", nics) + Optional("sdc:resolvers", resolvers)
    + Optional("root_authorized_keys", sshKeys) + Optional("root_pw", rootPw)
    + ZoneDefaults()
  }

  function ZoneNames(hostname: string, uuid: Option<string>): (m: map<string, string>)
    ensures forall key :: key in m ==> key == "sdc:hostname" || key == "sdc:uuid"
  {
    map["sdc:hostname" := hostname, "sdc:uuid" := if uuid.Some? then uuid.value else hostname]
  }

  function ZoneDefaults(): (m: map<string, string>)
    ensures forall key :: key in m ==> DefaultKey(key)
  {
    map["sdc:maintain_resolvers" := "true", "sdc:routes" := "[]", "sdc:dns_domain" := "", "user-script" := "",
        "user-data" := "", "sdc:vendor-data" := "", "sdc:operator-script" := ""]
  }

  predicate DefaultKey(key: string)
  {
    || key == "sdc:maintain_resolvers" || key == "sdc:routes" || key == "sdc:dns_domain" || key == "user-script"
    || key == "user-data" || key == "sdc:vendor-data" || key == "sdc:operator-script"
  }

  function Optional(key: string, value: Option<string>): map<string, string>
  {
    if value.Some? then map[key := value.value] else map[]
  }

  /** The keys such a store can hold. */
  predicate ZoneKey(key: string)
  {
    || key == "sdc:hostname" || key == "sdc:uuid" || key == "sdc:nics" || key == "sdc:resolvers"
    || key == "root_authorized_keys" || key == "root_pw" || DefaultKey(key)
  }

  lemma ZoneKeyPlain(key: string)
    requires ZoneKey(key)
    ensures PlainKey(key)
  {
    assert key[0] != '.';
  }


  lemma ZoneKeysOnly(hostname: string, uuid: Option<string>, nics: Option<string>, resolvers: Option<string>,
                     sshKeys: Option<string>, rootPw: Option<string>, key: string)
    requires key in ZoneEntries(hostname, uuid, nics, resolvers, sshKeys, rootPw)
    ensures ZoneKey(key)
  {
    var a := ZoneNames(hostname, uuid);
    var b := a + Optional("sdc:nics", nics);
    var c := b + Optional("sdc:resolvers", resolvers);
    var d := c + Optional("root_authorized_keys", sshKeys);
    var e := d + Optional("root_pw", rootPw);
    assert key in e || key in ZoneDefaults();
  }

  /** Whatever the zone configures, the store's KEYS reply decodes to its keys, in whatever order it lists them. */
  lemma ZoneKeysDecode(hostname: string, uuid: Option<string>, nics: Option<string>, resolvers: Option<string>,
                       sshKeys: Option<string>, rootPw: Option<string>, keys: seq<string>)
    requires forall key :: key in keys ==> key in ZoneEntries(hostname, uuid, nics, resolvers, sshKeys, rootPw)
    ensures DecodeV1(KeysText(keys)) == Some(keys)
  {
    forall i | 0 <= i < |keys|
      ensures PlainKey(keys[i])
    {
      ZoneKeysOnly(hostname, uuid, nics, resolvers, sshKeys, rootPw, keys[i]);
      ZoneKeyPlain(keys[i]);
    }
    KeysReplyExactly(keys);
  }

  // ----- what a conversation means

  /** A reply says what the store holds for a key. */
  predicate Tells(reply: string, key: string, store: MdataFrame.Store)
  {
    if key in store.entries then DecodeV1(reply + "\n") == Some(ValueLines(store.entries[key])) else reply == "NOTFOUND"
  }

  function GetText(key: string): string { "GET" + " " + key }

  /** A GET outside the V2 framing is answered from the store, whether or not the session speaks V2. */
  lemma V1GetAnswered(k: MdataFrame.Coding, v2: bool, key: string, store: MdataFrame.Store)
    requires key != [] && Trim(key) == key
    ensures Tells(ReplyTo(k, v2, Line(GetText(key), false), store), key, store)
  {
    var text := GetText(key);
    assert text[0] == 'G';
    MdataFrame.TwoParts("GET", key);
    assert ReplyTo(k, v2, Line(text, false), store) == V1Reply(text, store);
    if key in store.entries {
      GetReplyDecodes(store.entries[key]);
    }
  }

  /** A framed GET in a V2 session is answered by a frame that carries what the store holds. */
  lemma V2GetAnswered(k: MdataFrame.Coding, reqid: string, key: string, store: MdataFrame.Store)
    requires k.Ok() && k.Inverse() && MdataFrame.IsReqid(reqid) && |k.encode(key)| <= U64_MAX - 13
    requires key in store.entries ==> |k.encode(store.entries[key])| <= U64_MAX - 20
    ensures var request := Line(MdataFrame.GetRequest(k, reqid, key), false);
            MdataFrame.Parse(k, ReplyTo(k, true, request, store)) ==
            Ok(if key in store.entries
               then MdataFrame.Frame(reqid, "SUCCESS", MdataFrame.Sent(k, Some(store.entries[key])))
               else MdataFrame.Frame(reqid, "NOTFOUND", None))
  {
    FramedGoesToV2(k, MdataFrame.GetRequest(k, reqid, key), reqid + " " + ("GET" + " " + k.encode(key)), store);
    MdataFrame.GetAnswered(k, reqid, key, store);
  }

  lemma FramedGoesToV2(k: MdataFrame.Coding, text: string, body: string, store: MdataFrame.Store)
    requires text == MdataFrame.FrameText(k, body)
    ensures ReplyTo(k, true, Line(text, false), store) == MdataFrame.Process(k, text, store)
  {
    var rest := ToDecimal(|body|) + " " + (ToHex(k.crc(body), 8) + " " + body);
    assert text == "V2" + " " + rest;
    StartsV2(rest);
  }

  lemma StartsV2(rest: string)
    ensures "V2 " <= "V2" + " " + rest && "V2" + " " + rest != "NEGOTIATE V2" && "V2" + " " + rest != []
  {
    var text := "V2" + " " + rest;
    assert text[0] == 'V' && text[1] == '2' && text[2] == ' ';
  }

  /** An overlong request is refused in the protocol of the session, whatever its text begins like. */
  lemma OverlongRefused(k: MdataFrame.Coding, text: string, store: MdataFrame.Store)
    requires k.Ok()
    ensures ReplyTo(k, false, Line(text, true), store) == "invalid command"
    ensures MdataFrame.Parse(k, ReplyTo(k, true, Line(text, true), store)) ==
            Ok(MdataFrame.Frame(MdataFrame.NO_REQID, "FAILURE", None))
  {
    MdataFrame.RoundTrip(k, MdataFrame.NO_REQID, "FAILURE", None);
  }

  // ----- from bytes to answers

  /** A key a guest can ask for in one line as it is. */
  predicate Askable(key: string)
  {
    key != [] && Trim(key) == key && |key| <= MAX_LINE - 4 && forall i :: 0 <= i < |key| ==> Printable(key[i])
  }

  /** The bytes of a GET for each key in turn. */
  function Asking(keys: seq<string>): string
  {
    if keys == [] then [] else GetText(keys[0]) + ['\n'] + Asking(keys[1..])
  }

  lemma {:induction false} AllPrintable(s: string)
    requires forall i :: 0 <= i < |s| ==> Printable(s[i])
    ensures PrintableOf(s) == s && '\n' !in s
  {
    if s != [] {
      var init := s[..|s| - 1];
      AllPrintable(init);
      assert s == init + [s[|s| - 1]];
    }
  }

  lemma AskedLine(key: string)
    requires Askable(key)
    ensures LineOf(GetText(key)) == Line(GetText(key), false) && '\n' !in GetText(key)
  {
    var text := GetText(key);
    forall i | 0 <= i < |text|
      ensures Printable(text[i])
    {
      assert i >= 4 ==> text[i] == key[i - 4];
    }
    AllPrintable(text);
  }

  lemma {:induction false} AskedLines(keys: seq<string>)
    requires forall i :: 0 <= i < |keys| ==> Askable(keys[i])
    ensures |LinesOf(Asking(keys))| == |keys|
    ensures forall i :: 0 <= i < |keys| ==> LinesOf(Asking(keys))[i] == Line(GetText(keys[i]), false)
  {
    if keys != [] {
      AskedLine(keys[0]);
      LinesOfCons(GetText(keys[0]), Asking(keys[1..]));
      AskedLines(keys[1..]);
    }
  }

  /** Each reply is the one its request gets, in V2 or not. */
  lemma {:induction false} ReplyAt(k: MdataFrame.Coding, v2: bool, lines: seq<Line>, store: MdataFrame.Store, i: nat)
    returns (w: bool)
    requires i < |lines|
    ensures RepliesTo(k, v2, lines, store)[i] == ReplyTo(k, w, lines[i], store)
    decreases i
  {
    w := v2;
    if i > 0 {
      w := ReplyAt(k, SpeaksV2(v2, lines[0]), lines[1..], store, i - 1);
    }
  }

  lemma EachTold(k: MdataFrame.Coding, v2: bool, keys: seq<string>, lines: seq<Line>, store: MdataFrame.Store, i: nat)
    requires |lines| == |keys| && i < |keys| && Askable(keys[i]) && lines[i] == Line(GetText(keys[i]), false)
    ensures Tells(RepliesTo(k, v2, lines, store)[i], keys[i], store)
  {
    var w := ReplyAt(k, v2, lines, store, i);
    V1GetAnswered(k, w, keys[i], store);
  }

  /** A guest that sends a GET for each key reads one reply per key, and each says what the store holds. */
  method Ask(session: Session, k: MdataFrame.Coding, keys: seq<string>, store: MdataFrame.Store)
    returns (replies: seq<string>)
    requires session.Valid() && session.seen == [] && forall i :: 0 <= i < |keys| ==> Askable(keys[i])
    modifies session
    ensures session.Valid() && |replies| == |keys|
    ensures forall i :: 0 <= i < |keys| ==> Tells(replies[i], keys[i], store)
  {
    AskedLines(keys);
    assert [] + Asking(keys) == Asking(keys);
    forall i | 0 <= i < |keys|
      ensures Tells(RepliesTo(k, session.v2, LinesOf(Asking(keys)), store)[i], keys[i], store)
    {
      EachTold(k, session.v2, keys, LinesOf(Asking(keys)), store, i);
    }
    replies := session.Serve(k, Asking(keys), store);
  }
}
