// log_time_server's 49-byte header: written by `send` in codec.cc, read by `dealMessage`
// in server.cc. Bytes are C chars, one Dafny char each.

module HeaderCodec {
  import opened Buffers
  import opened DelimiterCodec

  const CMD_WIDTH: nat := 8
  const FORMAT_WIDTH: nat := 4
  const USER_WIDTH: nat := 32
  const KEY_WIDTH: nat := 4
  const SIDE_WIDTH: nat := 1
  const HEADER_LEN: nat := 49

  // Offsets of the fields in the packed struct
  const FORMAT_AT: nat := 8
  const USER_AT: nat := 12
  const KEY_AT: nat := 44
  const SIDE_AT: nat := 48

  datatype Message = Message(cmd: string, format: string, userName: string, key: string, side: string, body: string)

  /** Every field fits the array it is copied into. */
  predicate Fits(m: Message) {
    |m.cmd| <= CMD_WIDTH && |m.format| <= FORMAT_WIDTH && |m.userName| <= USER_WIDTH &&
    |m.key| <= KEY_WIDTH && |m.side| <= SIDE_WIDTH
  }

  /** A field as it lies in the header: the text, then the blanks of the memset. */
  function Pad(text: string, width: nat): (field: string)
    requires |text| <= width
    ensures |field| == width && field[..|text|] == text
    ensures forall i | |text| <= i < width :: field[i] == ' '
  {
    text + seq(width - |text|, _ => ' ')
  }

  function Header(m: Message): (header: string)
    requires Fits(m)
    ensures |header| == HEADER_LEN
  {
    Pad(m.cmd, CMD_WIDTH) + Pad(m.format, FORMAT_WIDTH) + Pad(m.userName, USER_WIDTH) +
    Pad(m.key, KEY_WIDTH) + Pad(m.side, SIDE_WIDTH)
  }

  function Payload(m: Message): string
    requires Fits(m)
  {
    Header(m) + m.body
  }

  /** memset and memcpy on the header struct, seen as the array of its bytes. */
  method Memset(head: array<char>, c: char)
    modifies head
    ensures forall j | 0 <= j < head.Length :: head[j] == c
  {
    for i := 0 to head.Length
      invariant forall j | 0 <= j < i :: head[j] == c
    {
      head[i] := c;
    }
  }

  method Memcpy(head: array<char>, at: nat, data: string)
    requires at + |data| <= head.Length
    modifies head
    ensures forall j | 0 <= j < head.Length :: head[j] == if at <= j < at + |data| then data[j - at] else old(head[j])
  {
    for i := 0 to |data|
      invariant forall j | 0 <= j < i :: head[at + j] == data[j]
      invariant forall j | 0 <= j < head.Length && !(at <= j < at + i) :: head[j] == old(head[j])
    {
      head[at + i] := data[i];
    }
  }

  /** The header struct after all five copies is the five padded fields side by side. */
  lemma HeaderLayout(m: Message, head: string)
    requires Fits(m) && |head| == HEADER_LEN
    requires forall i | 0 <= i < HEADER_LEN ::
               head[i] == if i < |m.cmd| then m.cmd[i]
                          else if FORMAT_AT <= i < FORMAT_AT + |m.format| then m.format[i - FORMAT_AT]
                          else if USER_AT <= i < USER_AT + |m.userName| then m.userName[i - USER_AT]
                          else if KEY_AT <= i < KEY_AT + |m.key| then m.key[i - KEY_AT]
                          else if SIDE_AT <= i < SIDE_AT + |m.side| then m.side[i - SIDE_AT]
                          else ' '
    ensures head == Header(m)
  {
  }

  method Send(m: Message) returns (wire: string)
    requires Fits(m)
    ensures wire == Payload(m) + DELI
    ensures |wire| == 49 + |m.body| + 4 && wire[49..] == m.body + "@%&)"
  {
    var buf := new Buffer<char>();
    var head := new char[HEADER_LEN];
    Memset(head, ' ');
    Memcpy(head, 0, m.cmd);
    Memcpy(head, FORMAT_AT, m.format);
    Memcpy(head, USER_AT, m.userName);
    Memcpy(head, KEY_AT, m.key);
    Memcpy(head, SIDE_AT, m.side);
    HeaderLayout(m, head[..]);
    buf.Append(head[..]);
    buf.Append(m.body);
    buf.Append(DELI);
    wire := buf.readable;
  }

  // `std::string::npos`
  const NPOS: nat := 0xffff_ffff_ffff_ffff

  /** `std::string::find(' ', i)` */
  function FindBlank(s: string, i: nat := 0): (pos: nat)
    requires i <= |s| < NPOS
    ensures pos == NPOS ==> forall j | i <= j < |s| :: s[j] != ' '
    ensures pos != NPOS ==> i <= pos < |s| && s[pos] == ' ' && forall j | i <= j < pos :: s[j] != ' '
    decreases |s| - i
  {
    if i == |s| then NPOS else if s[i] == ' ' then i else FindBlank(s, i + 1)
  }

  /** `std::string::substr(0, n)` */
  function Substr(s: string, n: nat): string {
    if n < |s| then s[..n] else s
  }

  /** How cmd, format and userName are cut out of their fields. The test `find(' ') > 0`
      is on an unsigned number, so it also holds of `npos`. */
  function TextOf(field: string): string
    requires |field| < NPOS
  {
    if FindBlank(field) > 0 then Substr(field, FindBlank(field)) else field
  }

  /** The key is cut where the *user name's* field has its first blank. */
  function KeyOf(keyField: string, userField: string): string
    requires |keyField| < NPOS && |userField| < NPOS
  {
    if FindBlank(keyField) > 0 then Substr(keyField, FindBlank(userField)) else keyField
  }

  function Decode(msg: string): (m: Message)
    requires |msg| >= HEADER_LEN
    ensures Fits(m)
  {
    var userField := msg[USER_AT..KEY_AT];
    Message(TextOf(msg[..FORMAT_AT]), TextOf(msg[FORMAT_AT..USER_AT]), TextOf(userField),
            KeyOf(msg[KEY_AT..SIDE_AT], userField), msg[SIDE_AT..HEADER_LEN], msg[HEADER_LEN..])
  }

  /** The texts a field of this width gives back: blank-free and not empty, or filling the
      field and starting with a blank. */
  predicate Clean(text: string, width: nat) {
    text != "" && if text[0] == ' ' then |text| == width else ' ' !in text
  }

  lemma FindBlankInPad(text: string, width: nat)
    requires |text| <= width < NPOS
    ensures ' ' !in text ==> FindBlank(Pad(text, width)) == if |text| == width then NPOS else |text|
    ensures ' ' in text ==> FindBlank(Pad(text, width)) == FindBlank(text) < |text|
  {
    var pos := FindBlank(Pad(text, width));
    if ' ' in text {
      var k :| 0 <= k < |text| && text[k] == ' ';
      assert forall i | 0 <= i < |text| :: Pad(text, width)[i] == text[i];
    } else {
      assert forall i | 0 <= i < |text| :: Pad(text, width)[i] == text[i];
      assert |text| < width ==> Pad(text, width)[|text|] == ' ';
    }
  }

  lemma TextRoundTripIff(text: string, width: nat)
    requires |text| <= width && 0 < width < NPOS
    ensures TextOf(Pad(text, width)) == text <==> Clean(text, width)
  {
    FindBlankInPad(text, width);
    var field := Pad(text, width);
    assert text != "" ==> field[0] == text[0];
  }

  lemma TextOfIsClean(field: string)
    requires 0 < |field| < NPOS
    ensures Clean(TextOf(field), |field|)
  {
  }

  /** The fields that a blank-free text is cut out of: what comes behind the blank that ends it
      makes no difference. */
  lemma TextOfIff(field: string, text: string)
    requires 0 < |text| <= |field| < NPOS && ' ' !in text
    ensures TextOf(field) == text <==> field[..|text|] == text && (|text| == |field| || field[|text|] == ' ')
  {
  }

  /** When the decoded key is the key that was sent: u is where the user name's field
      has its first blank. */
  predicate KeySurvives(key: string, u: nat) {
    if key == "" || key[0] == ' ' then |key| == KEY_WIDTH
    else |key| == if u < KEY_WIDTH then u else KEY_WIDTH
  }

  lemma KeyRoundTripIff(key: string, userField: string)
    requires |key| <= KEY_WIDTH && |userField| < NPOS
    ensures KeyOf(Pad(key, KEY_WIDTH), userField) == key <==> KeySurvives(key, FindBlank(userField))
  {
  }

  /** What the fields of a payload are, so that decoding can be read field by field. */
  lemma PayloadFields(m: Message)
    requires Fits(m)
    ensures var p := Payload(m);
            && |p| == 49 + |m.body|
            && p[..8] == Pad(m.cmd, 8)
            && p[8..12] == Pad(m.format, 4)
            && p[12..44] == Pad(m.userName, 32)
            && p[44..48] == Pad(m.key, 4)
            && p[48..49] == Pad(m.side, 1)
            && p[49..] == m.body
  {
  }

  /** Exactly which messages come out of `dealMessage` as they went into `send`. */
  lemma HeaderRoundTripIff(m: Message)
    requires Fits(m)
    ensures |Payload(m)| >= HEADER_LEN
    ensures Decode(Payload(m)) == m <==>
            && Clean(m.cmd, CMD_WIDTH) && Clean(m.format, FORMAT_WIDTH) && Clean(m.userName, USER_WIDTH)
            && KeySurvives(m.key, FindBlank(Pad(m.userName, USER_WIDTH)))
            && |m.side| == SIDE_WIDTH
  {
    PayloadFields(m);
    TextRoundTripIff(m.cmd, CMD_WIDTH);
    TextRoundTripIff(m.format, FORMAT_WIDTH);
    TextRoundTripIff(m.userName, USER_WIDTH);
    KeyRoundTripIff(m.key, Pad(m.userName, USER_WIDTH));
  }

  /** Blank-free, non-empty fields and a one-byte side decode to themselves, and the decoded
      key fills the header as the original did exactly when the user name is as long as it. */
  lemma OrdinaryRoundTrip(m: Message)
    requires Fits(m) && |m.side| == SIDE_WIDTH
    requires m.cmd != "" && m.format != "" && m.userName != "" && m.key != ""
    requires ' ' !in m.cmd && ' ' !in m.format && ' ' !in m.userName && ' ' !in m.key
    ensures |Payload(m)| >= HEADER_LEN
    ensures var d := Decode(Payload(m));
            && d == m.(key := d.key) && |d.key| <= KEY_WIDTH
            && (Pad(d.key, KEY_WIDTH) == Pad(m.key, KEY_WIDTH) <==> |m.userName| >= |m.key|)
            && (|m.userName| < |m.key| ==> d.key == m.key[..|m.userName|])
  {
    PayloadFields(m);
    TextRoundTripIff(m.cmd, CMD_WIDTH);
    TextRoundTripIff(m.format, FORMAT_WIDTH);
    TextRoundTripIff(m.userName, USER_WIDTH);
    OrdinaryKey(m.key, m.userName);
  }

  /** For every key and user field: the decoded key re-encodes to the original bytes exactly
      when the cut took nothing but blanks, or was not made. */
  lemma KeyReencodesIff(key: string, userField: string)
    requires |key| <= KEY_WIDTH && |userField| < NPOS
    ensures var d := KeyOf(Pad(key, KEY_WIDTH), userField);
            && |d| <= KEY_WIDTH
            && (Pad(d, KEY_WIDTH) == Pad(key, KEY_WIDTH) <==>
                key == "" || key[0] == ' ' || forall i | FindBlank(userField) <= i < |key| :: key[i] == ' ')
  {
  }

  lemma OrdinaryKey(key: string, userName: string)
    requires 0 < |key| <= KEY_WIDTH && 0 < |userName| <= USER_WIDTH
    requires ' ' !in key && ' ' !in userName
    ensures var d := KeyOf(Pad(key, KEY_WIDTH), Pad(userName, USER_WIDTH));
            && |d| <= KEY_WIDTH
            && (Pad(d, KEY_WIDTH) == Pad(key, KEY_WIDTH) <==> |userName| >= |key|)
            && (|userName| < |key| ==> d == key[..|userName|])
  {
    KeyReencodesIff(key, Pad(userName, USER_WIDTH));
    FindBlankInPad(userName, USER_WIDTH);
    FindBlankInPad(key, KEY_WIDTH);
    assert key[|key| - 1] != ' ';
  }

  /** What the server decodes is, sent on, decoded to the same message again, except when a
      user field that starts with a blank has emptied a key. */
  lemma DecodeIsStableIff(msg: string)
    requires |msg| >= HEADER_LEN
    ensures |Payload(Decode(msg))| >= HEADER_LEN
    ensures Decode(Payload(Decode(msg))) == Decode(msg) <==> !(msg[USER_AT] == ' ' && msg[KEY_AT] != ' ')
  {
    var m := Decode(msg);
    var userField := msg[USER_AT..KEY_AT];
    TextOfIsClean(msg[..FORMAT_AT]);
    TextOfIsClean(msg[FORMAT_AT..USER_AT]);
    TextOfIsClean(userField);
    HeaderRoundTripIff(m);
    FindBlankInPad(m.userName, USER_WIDTH);
    assert msg[KEY_AT..SIDE_AT][0] == msg[KEY_AT];
    assert userField[0] == msg[USER_AT];
  }
}
