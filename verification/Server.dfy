// log_time_server's server.cc: what a decoded request makes the server do.

module Server {
  import opened DelimiterCodec
  import opened HeaderCodec
  import opened Framing

  /** What one call of `dealMessage` does to the connection. */
  datatype Response = Silent | Reply(message: Message) | Drop

  /** The answers of the database: whether getOneConnect returned a connection (asked by the
      insert only), whether the insert went through, what the query put in its result. */
  datatype Database = Database(connected: bool, inserted: bool, queried: string)

  /** The dispatch on command and format, once the header is decoded. */
  function RespondTo(m: Message, db: Database): (response: Response)
    requires Fits(m)
    ensures response.Reply? ==> Fits(response.message)
  {
    if m.cmd == "RQUPJ" && m.format == "GZIP" then
      if !db.connected then Silent
      else Reply(m.(cmd := "RSUPJ", format := "TXT", body := if db.inserted then "SUCC" else "FAIL"))
    else if m.cmd == "RQDPJ" then
      if db.queried == "" then Silent
      else Reply(m.(cmd := "RSDPJ", format := if db.queried == "FAIL" then "TXT" else "GZIP", body := db.queried))
    else if m.cmd != "HBET" then Drop
    else Silent
  }

  /** No reply overflows a header field, whatever the request and the database say. */
  function Respond(msg: string, db: Database): (response: Response)
    ensures response.Reply? ==> Fits(response.message)
  {
    if |msg| < HEADER_LEN then Silent else RespondTo(Decode(msg), db)
  }

  type Connection = nat

  /** What the handlers make of these messages, the i-th of which gets the i-th answers of the
      database. */
  function Responses(messages: seq<string>, dbs: seq<Database>): (responses: seq<Response>)
    requires |messages| == |dbs|
    ensures |responses| == |messages|
    ensures forall r | r in responses && r.Reply? :: Fits(r.message)
  {
    seq(|messages|, i requires 0 <= i < |messages| => Respond(messages[i], dbs[i]))
  }

  /** The messages among the responses, in order. */
  function Replies(responses: seq<Response>): (replies: seq<Message>)
    ensures forall r | r in replies :: Reply(r) in responses
  {
    if responses == [] then []
    else if responses[0].Reply? then [responses[0].message] + Replies(responses[1..])
    else Replies(responses[1..])
  }

  /** The calls of send that hand these to a connection. */
  function Wires(conn: Connection, replies: seq<Message>): seq<(Connection, string)>
    requires forall r | r in replies :: Fits(r)
  {
    seq(|replies|, i requires 0 <= i < |replies| => (conn, Payload(replies[i]) + DELI))
  }

  /** The calls of shutdown that these responses make. */
  function Shutdowns(conn: Connection, responses: seq<Response>): seq<Connection> {
    if responses == [] then [] else (if responses[0].Drop? then [conn] else []) + Shutdowns(conn, responses[1..])
  }

  lemma {:induction false} ResponsesAppend(conn: Connection, responses: seq<Response>, last: Response)
    ensures Replies(responses + [last]) == Replies(responses) + if last.Reply? then [last.message] else []
    ensures Shutdowns(conn, responses + [last]) == Shutdowns(conn, responses) + if last.Drop? then [conn] else []
  {
    if responses != [] {
      assert (responses + [last])[1..] == responses[1..] + [last];
      ResponsesAppend(conn, responses[1..], last);
    }
  }

  /** What one more response adds to the logs of a connection. */
  lemma OneMore(conn: Connection, sent: seq<(Connection, string)>, shutdowns: seq<Connection>,
                responses: seq<Response>, i: nat)
    requires i < |responses| && forall r | r in responses && r.Reply? :: Fits(r.message)
    ensures sent + Wires(conn, Replies(responses[..i + 1])) ==
            sent + Wires(conn, Replies(responses[..i])) +
            if responses[i].Reply? then [(conn, Payload(responses[i].message) + DELI)] else []
    ensures shutdowns + Shutdowns(conn, responses[..i + 1]) ==
            shutdowns + Shutdowns(conn, responses[..i]) + if responses[i].Drop? then [conn] else []
    ensures Shutdowns(conn, responses[..i + 1]) == [] <==>
            Shutdowns(conn, responses[..i]) == [] && !responses[i].Drop?
  {
    assert responses[..i + 1] == responses[..i] + [responses[i]];
    ResponsesAppend(conn, responses[..i], responses[i]);
  }

  class ComServer {
    var connections: set<Connection>
    // The bytes handed to each connection's send, and the connections shut down, in order.
    var sent: seq<(Connection, string)>
    var shutdowns: seq<Connection>

    constructor (open: set<Connection>)
      ensures connections == open && sent == [] && shutdowns == []
    {
      connections, sent, shutdowns := open, [], [];
    }

    /** `codec_.send` on this connection. */
    method SendTo(conn: Connection, m: Message)
      requires Fits(m)
      modifies this`sent
      ensures sent == old(sent) + [(conn, Payload(m) + DELI)]
    {
      var wire := Send(m);
      sent := sent + [(conn, wire)];
    }

    /** The dispatch at the end of `dealMessage`, on the decoded header. */
    method Dispatch(conn: Connection, m: Message, db: Database)
      requires Fits(m)
      modifies this
      ensures sent == old(sent) +
              if RespondTo(m, db).Reply? then [(conn, Payload(RespondTo(m, db).message) + DELI)] else []
      ensures connections == if RespondTo(m, db).Drop? then old(connections) - {conn} else old(connections)
      ensures shutdowns == old(shutdowns) + if RespondTo(m, db).Drop? then [conn] else []
    {
      if m.cmd == "RQUPJ" && m.format == "GZIP" {
        if !db.connected {
          return;
        }
        var res := if db.inserted then "SUCC" else "FAIL";
        SendTo(conn, Message("RSUPJ", "TXT", m.userName, m.key, m.side, res));
      } else if m.cmd == "RQDPJ" {
        if |db.queried| <= 0 {
          return;
        }
        if db.queried == "FAIL" {
          SendTo(conn, Message("RSDPJ", "TXT", m.userName, m.key, m.side, db.queried));
        } else {
          SendTo(conn, Message("RSDPJ", "GZIP", m.userName, m.key, m.side, db.queried));
        }
      } else if m.cmd != "HBET" {
        connections := connections - {conn};
        shutdowns := shutdowns + [conn];
      }
    }

    method DealMessage(conn: Connection, msg: string, db: Database)
      modifies this
      ensures sent == old(sent) +
              if Respond(msg, db).Reply? then [(conn, Payload(Respond(msg, db).message) + DELI)] else []
      ensures connections == if Respond(msg, db).Drop? then old(connections) - {conn} else old(connections)
      ensures shutdowns == old(shutdowns) + if Respond(msg, db).Drop? then [conn] else []
    {
      if |msg| >= HEADER_LEN {
        var cmdBuf := msg[..CMD_WIDTH];
        var cmd := if FindBlank(cmdBuf) > 0 then Substr(cmdBuf, FindBlank(cmdBuf)) else cmdBuf;
        var formatBuf := msg[FORMAT_AT..FORMAT_AT + FORMAT_WIDTH];
        var format := if FindBlank(formatBuf) > 0 then Substr(formatBuf, FindBlank(formatBuf)) else formatBuf;
        var userNameBuf := msg[USER_AT..USER_AT + USER_WIDTH];
        var userName := if FindBlank(userNameBuf) > 0 then Substr(userNameBuf, FindBlank(userNameBuf)) else userNameBuf;
        var keyBuf := msg[KEY_AT..KEY_AT + KEY_WIDTH];
        var key := if FindBlank(keyBuf) > 0 then Substr(keyBuf, FindBlank(userNameBuf)) else keyBuf;
        var side := msg[SIDE_AT..SIDE_AT + SIDE_WIDTH];
        var body := msg[HEADER_LEN..];
        var request := Message(cmd, format, userName, key, side, body);
        assert request == Decode(msg);
        Dispatch(conn, request, db);
      }
    }

    /** The tasks of one connection, as the workers get to them: `dealMessage` on each. */
    method DealAll(conn: Connection, messages: seq<string>, dbs: seq<Database>)
      requires |messages| == |dbs|
      modifies this
      ensures var responses := Responses(messages, dbs);
              && sent == old(sent) + Wires(conn, Replies(responses))
              && shutdowns == old(shutdowns) + Shutdowns(conn, responses)
              && connections == if Shutdowns(conn, responses) == [] then old(connections) else old(connections) - {conn}
    {
      ghost var responses := Responses(messages, dbs);
      for i := 0 to |messages|
        invariant sent == old(sent) + Wires(conn, Replies(responses[..i]))
        invariant shutdowns == old(shutdowns) + Shutdowns(conn, responses[..i])
        invariant connections ==
                  if Shutdowns(conn, responses[..i]) == [] then old(connections) else old(connections) - {conn}
      {
        OneMore(conn, old(sent), old(shutdowns), responses, i);
        DealMessage(conn, messages[i], dbs[i]);
      }
      assert responses[..|messages|] == responses;
    }
  }

  /** The commands and formats of the replies, against the requests that cause them. */
  lemma ReplyVocabulary(msg: string, db: Database)
    requires Respond(msg, db).Reply?
    ensures |msg| >= HEADER_LEN
    ensures var r, q := Respond(msg, db).message, Decode(msg);
            && (r.cmd == "RSUPJ" || r.cmd == "RSDPJ")
            && (r.cmd == "RSUPJ" <==> q.cmd == "RQUPJ" && q.format == "GZIP")
            && (r.cmd == "RSDPJ" <==> q.cmd == "RQDPJ")
            && (r.cmd == "RSUPJ" ==> r.format == "TXT" && (r.body == "SUCC" || r.body == "FAIL"))
            && (r.cmd == "RSDPJ" ==> (r.format == "TXT" <==> r.body == "FAIL") && r.body == db.queried != "")
            && r.side == msg[SIDE_AT..HEADER_LEN]
            && r.userName == q.userName && r.key == q.key
  {
  }

  /** A command that leaves room in its field is recognised by its bytes and one blank; what
      follows them in the field is not looked at. */
  lemma CommandIff(msg: string, cmd: string)
    requires |msg| >= HEADER_LEN && 0 < |cmd| < CMD_WIDTH && ' ' !in cmd
    ensures Decode(msg).cmd == cmd <==> msg[..|cmd| + 1] == cmd + " "
  {
    var field := msg[..FORMAT_AT];
    TextOfIff(field, cmd);
    var start, n := msg[..|cmd| + 1], |cmd|;
    assert start[..n] == field[..n] && start[n] == field[n];
    assert (cmd + " ")[..n] == cmd && (cmd + " ")[n] == ' ';
    assert start == start[..n] + [start[n]] && " " == [' '];
  }

  lemma FormatIff(msg: string, format: string)
    requires |msg| >= HEADER_LEN && |format| == FORMAT_WIDTH && ' ' !in format
    ensures Decode(msg).format == format <==> msg[FORMAT_AT..USER_AT] == format
  {
    TextOfIff(msg[FORMAT_AT..USER_AT], format);
  }

  /** Exactly the bytes that are answered and exactly those that cost the sender the connection:
      an upload that is not GZIP is among the latter, a heartbeat and a message too short for a
      header are neither. */
  lemma ResponseIff(msg: string, db: Database)
    ensures Respond(msg, db).Reply? <==>
            && |msg| >= 49
            && ((msg[..6] == "RQUPJ " && msg[8..12] == "GZIP" && db.connected)
                || (msg[..6] == "RQDPJ " && db.queried != ""))
    ensures Respond(msg, db).Drop? <==>
            && |msg| >= 49
            && msg[..6] != "RQDPJ " && msg[..5] != "HBET "
            && !(msg[..6] == "RQUPJ " && msg[8..12] == "GZIP")
  {
    if |msg| >= HEADER_LEN {
      CommandIff(msg, "RQUPJ");
      CommandIff(msg, "RQDPJ");
      CommandIff(msg, "HBET");
      FormatIff(msg, "GZIP");
    }
  }

  /** What a reply says, by the bytes of the request and the answers of the database. */
  lemma ReplyContents(msg: string, db: Database, r: Message)
    requires Respond(msg, db) == Reply(r)
    ensures |msg| >= 49 && (msg[..6] == "RQUPJ " || msg[..6] == "RQDPJ ")
    ensures msg[..6] == "RQUPJ " ==>
              r.cmd == "RSUPJ" && r.format == "TXT" && r.body == if db.inserted then "SUCC" else "FAIL"
    ensures msg[..6] == "RQDPJ " ==>
              r.cmd == "RSDPJ" && r.format == (if db.queried == "FAIL" then "TXT" else "GZIP") && r.body == db.queried
  {
    ResponseIff(msg, db);
    CommandIff(msg, "RQUPJ");
    CommandIff(msg, "RQDPJ");
  }

  /** The user name comes back byte by byte, with blanks from its first one on. */
  lemma UserBytes(field: string, i: nat)
    requires i < |field| == USER_WIDTH
    ensures |TextOf(field)| <= USER_WIDTH
    ensures Pad(TextOf(field), USER_WIDTH)[i] == if field[0] == ' ' || ' ' !in field[..i + 1] then field[i] else ' '
  {
  }

  /** The key comes back byte by byte, with blanks from where the user name has its first. */
  lemma KeyBytes(keyField: string, userField: string, i: nat)
    requires i < |keyField| == KEY_WIDTH && |userField| == USER_WIDTH
    ensures |KeyOf(keyField, userField)| <= KEY_WIDTH
    ensures Pad(KeyOf(keyField, userField), KEY_WIDTH)[i] ==
            if keyField[0] == ' ' || ' ' !in userField[..i + 1] then keyField[i] else ' '
  {
  }

  lemma ReplyFields(msg: string, db: Database, r: Message)
    requires Respond(msg, db) == Reply(r)
    ensures |msg| >= 49
    ensures r.userName == TextOf(msg[12..44]) && r.key == KeyOf(msg[44..48], msg[12..44]) && r.side == msg[48..49]
  {
  }

  /** Where the bytes of the fields are in a payload. */
  lemma PayloadBytes(m: Message, j: nat)
    requires Fits(m)
    ensures |Payload(m)| == 49 + |m.body|
    ensures 12 <= j < 44 ==> Payload(m)[j] == Pad(m.userName, USER_WIDTH)[j - 12]
    ensures 44 <= j < 48 ==> Payload(m)[j] == Pad(m.key, KEY_WIDTH)[j - 44]
    ensures Payload(m)[48] == Pad(m.side, SIDE_WIDTH)[0]
  {
    PayloadFields(m);
    var p := Payload(m);
    assert 12 <= j < 44 ==> p[j] == p[12..44][j - 12];
    assert 44 <= j < 48 ==> p[j] == p[44..48][j - 44];
    assert p[48] == p[48..49][0];
  }

  lemma ReplyAddressBytes(msg: string, db: Database, r: Message, j: nat)
    requires Respond(msg, db) == Reply(r)
    ensures |msg| >= 49 && |Payload(r)| == 49 + |r.body|
    ensures 12 <= j < 44 ==> Payload(r)[j] == if msg[12] == ' ' || ' ' !in msg[12..j + 1] then msg[j] else ' '
    ensures 44 <= j < 48 ==> Payload(r)[j] == if msg[44] == ' ' || ' ' !in msg[12..j - 31] then msg[j] else ' '
    ensures Payload(r)[48] == msg[48]
  {
    ReplyFields(msg, db, r);
    PayloadBytes(r, j);
    if 12 <= j < 44 {
      UserBytes(msg[12..44], j - 12);
      assert msg[12..44][..j - 12 + 1] == msg[12..j + 1];
    }
    if 44 <= j < 48 {
      KeyBytes(msg[44..48], msg[12..44], j - 44);
      assert msg[12..44][..j - 44 + 1] == msg[12..j - 31];
    }
  }

  lemma ReplyFront(r: Message)
    requires Fits(r)
    ensures |Payload(r)| == 49 + |r.body|
    ensures r.cmd == "RSUPJ" ==> Payload(r)[..8] == "RSUPJ   "
    ensures r.cmd == "RSDPJ" ==> Payload(r)[..8] == "RSDPJ   "
    ensures r.format == "TXT" ==> Payload(r)[8..12] == "TXT "
    ensures r.format == "GZIP" ==> Payload(r)[8..12] == "GZIP"
    ensures Payload(r)[49..] == r.body
  {
    PayloadFields(r);
    assert Pad("RSUPJ", 8) == "RSUPJ   " && Pad("RSDPJ", 8) == "RSDPJ   ";
    assert Pad("TXT", 4) == "TXT " && Pad("GZIP", 4) == "GZIP";
  }

  /** The reply byte by byte from the bytes of the request; j is any position in the fields of
      user name and key. On the wire the delimiter follows, as DealMessage says. */
  lemma ReplyBytes(msg: string, db: Database, r: Message, j: nat)
    requires Respond(msg, db) == Reply(r)
    ensures |msg| >= 49 && |Payload(r)| == 49 + |r.body|
    ensures Payload(r)[..8] == if msg[..6] == "RQUPJ " then "RSUPJ   " else "RSDPJ   "
    ensures Payload(r)[8..12] == if msg[..6] == "RQUPJ " || r.body == "FAIL" then "TXT " else "GZIP"
    ensures 12 <= j < 44 ==> Payload(r)[j] == if msg[12] == ' ' || ' ' !in msg[12..j + 1] then msg[j] else ' '
    ensures 44 <= j < 48 ==> Payload(r)[j] == if msg[44] == ' ' || ' ' !in msg[12..j - 31] then msg[j] else ' '
    ensures Payload(r)[48] == msg[48] && Payload(r)[49..] == r.body
  {
    ReplyContents(msg, db, r);
    ReplyFront(r);
    ReplyAddressBytes(msg, db, r, j);
  }

  lemma ReplyIsClean(msg: string, db: Database)
    requires Respond(msg, db).Reply?
    ensures Clean(Respond(msg, db).message.cmd, CMD_WIDTH) && Clean(Respond(msg, db).message.format, FORMAT_WIDTH)
  {
  }

  /** Whether a message decodes to itself depends on user name, key and side only, once its
      command and format are clean. */
  lemma SameAddress(m: Message, r: Message)
    requires Fits(m) && Clean(m.cmd, CMD_WIDTH) && Clean(m.format, FORMAT_WIDTH)
    requires Fits(r) && Clean(r.cmd, CMD_WIDTH) && Clean(r.format, FORMAT_WIDTH)
    requires r.userName == m.userName && r.key == m.key && r.side == m.side
    ensures |Payload(m)| >= HEADER_LEN && |Payload(r)| >= HEADER_LEN
    ensures Decode(Payload(r)) == r <==> Decode(Payload(m)) == m
  {
    HeaderRoundTripIff(m);
    HeaderRoundTripIff(r);
  }

  /** A reply read back with the server's own decoder is the reply that was sent, unless the
      request's user field starts with a blank and its key field does not. */
  lemma ReplyRoundTripIff(msg: string, db: Database, r: Message)
    requires Respond(msg, db) == Reply(r)
    ensures |msg| >= HEADER_LEN && |Payload(r)| >= HEADER_LEN
    ensures Decode(Payload(r)) == r <==> !(msg[USER_AT] == ' ' && msg[KEY_AT] != ' ')
  {
    ReplyIsClean(msg, db);
    ReplyVocabulary(msg, db);
    TextOfIsClean(msg[..FORMAT_AT]);
    TextOfIsClean(msg[FORMAT_AT..USER_AT]);
    SameAddress(Decode(msg), r);
    DecodeIsStableIff(msg);
  }

  /** Messages that come out of a payload as they went in. */
  predicate Decodes(m: Message) {
    Fits(m) && |Payload(m)| >= HEADER_LEN && Decode(Payload(m)) == m
  }

  /** The reply to a request that decodes to itself carries its user name, key and side and decodes to itself;
      if it has no delimiter in it, it comes back over the wire as that one message. */
  lemma ReplyArrives(request: Message, db: Database, r: Message, chunks: seq<string>)
    requires Fits(request) && Decodes(request)
    requires Respond(Payload(request), db) == Reply(r)
    ensures r.userName == request.userName && r.key == request.key && r.side == request.side
    ensures Decodes(r)
    ensures DelimiterFree(Payload(r)) && Concat(chunks) == Payload(r) + DELI ==>
              Feed(Split, "", chunks) == Parsed([Payload(r)], "")
  {
    ReplyVocabulary(Payload(request), db);
    ReplyIsClean(Payload(request), db);
    HeaderRoundTripIff(request);
    SameAddress(request, r);
    if DelimiterFree(Payload(r)) && Concat(chunks) == Payload(r) + DELI {
      FramedOne(Frame, Payload(r));
      RoundTripIff([Payload(r)], chunks);
    }
  }

  // ---- a whole conversation ----

  function Payloads(messages: seq<Message>): seq<string>
    requires forall m | m in messages :: Fits(m)
  {
    seq(|messages|, i requires 0 <= i < |messages| => Payload(messages[i]))
  }

  /** What calls of send put on the wire, in order. */
  function Bytes(wires: seq<(Connection, string)>): string {
    Concat(seq(|wires|, i requires 0 <= i < |wires| => wires[i].1))
  }

  lemma {:induction false} WiresAreFrames(conn: Connection, replies: seq<Message>)
    requires forall r | r in replies :: Fits(r)
    ensures Bytes(Wires(conn, replies)) == Frames(Payloads(replies))
  {
    if replies != [] {
      var wires, rest := Wires(conn, replies), Wires(conn, replies[1..]);
      assert seq(|wires|, i requires 0 <= i < |wires| => wires[i].1)[1..] ==
             seq(|rest|, i requires 0 <= i < |rest| => rest[i].1);
      assert Payloads(replies)[1..] == Payloads(replies[1..]);
      WiresAreFrames(conn, replies[1..]);
    }
  }

  /** The elements at these places, in this order. */
  function Picked<T>(s: seq<T>, order: seq<nat>): seq<T>
    requires forall i | 0 <= i < |order| :: order[i] < |s|
  {
    seq(|order|, i requires 0 <= i < |order| => s[order[i]])
  }

  lemma RequestAnswered(request: Message, db: Database)
    requires Fits(request) && Decodes(request)
    ensures var response := Respond(Payload(request), db);
            response == RespondTo(request, db) && (response.Reply? ==> Decodes(response.message))
  {
    var response := Respond(Payload(request), db);
    if response.Reply? {
      ReplyArrives(request, db, response.message, []);
    }
  }

  lemma ResponsesMeant(requests: seq<Message>, order: seq<nat>, dbs: seq<Database>)
    requires forall m | m in requests :: Fits(m) && Decodes(m)
    requires |dbs| == |order| && forall i | 0 <= i < |order| :: order[i] < |requests|
    ensures var responses := Responses(Picked(Payloads(requests), order), dbs);
            && (forall i | 0 <= i < |order| :: responses[i] == RespondTo(requests[order[i]], dbs[i]))
            && (forall r | r in Replies(responses) :: Decodes(r))
  {
    var responses := Responses(Picked(Payloads(requests), order), dbs);
    forall i | 0 <= i < |order|
      ensures responses[i] == RespondTo(requests[order[i]], dbs[i])
      ensures responses[i].Reply? ==> Decodes(responses[i].message)
    {
      assert requests[order[i]] in requests;
      RequestAnswered(requests[order[i]], dbs[i]);
    }
    forall r | r in Replies(responses)
      ensures Decodes(r)
    {
      var i :| 0 <= i < |responses| && responses[i] == Reply(r);
    }
  }

  /** Requests of one connection without a delimiter in them, in any chunks, are delivered as
      they were sent. If they decode to themselves then, in whatever order the workers deal with
      them, each gets the response meant for it; all replies decode to themselves; and the bytes
      handed to send by DealAll, in any chunks, are delivered as just those replies exactly if none has a
      delimiter in it. */
  lemma Conversation(conn: Connection, requests: seq<Message>, chunks: seq<string>,
                     order: seq<nat>, dbs: seq<Database>, back: seq<string>)
    requires (forall m | m in requests :: Fits(m)) && AllDelimiterFree(Payloads(requests))
    requires Concat(chunks) == Frames(Payloads(requests))
    requires |dbs| == |order| && forall i | 0 <= i < |order| :: order[i] < |requests|
    ensures Feed(Split, "", chunks) == Parsed(Payloads(requests), "")
    ensures (forall m | m in requests :: Decodes(m)) ==>
              var responses := Responses(Picked(Feed(Split, "", chunks).messages, order), dbs);
              var replies := Replies(responses);
              && (forall i | 0 <= i < |order| :: responses[i] == RespondTo(requests[order[i]], dbs[i]))
              && (forall r | r in replies :: Decodes(r))
              && (Concat(back) == Bytes(Wires(conn, replies)) ==>
                   (Feed(Split, "", back) == Parsed(Payloads(replies), "") <==> AllDelimiterFree(Payloads(replies))))
  {
    RoundTripIff(Payloads(requests), chunks);
    if forall m | m in requests :: Decodes(m) {
      ResponsesMeant(requests, order, dbs);
      var replies := Replies(Responses(Picked(Payloads(requests), order), dbs));
      WiresAreFrames(conn, replies);
      if Concat(back) == Bytes(Wires(conn, replies)) {
        RoundTripIff(Payloads(replies), back);
      }
    }
  }
}
