/** Printed packets are read back, in one piece or in any pieces. */
module NatsPackets {
  import opened Options
  import opened Text
  import opened NatsSpec
  import opened NatsParser
  import opened NatsRefinement

  datatype Packet =
    | MsgPacket(subject: Bytes, subId: int, replyTo: Bytes, payload: Bytes)
    | ErrPacket(message: Bytes)
    | PingPacket
    | PongPacket
    | OkPacket

  /** What a server may send: words without white space, ids and sizes that fit 64 bits, texts on one line. */
  predicate Sendable(p: Packet) {
    match p
    case MsgPacket(subject, subId, replyTo, payload) =>
      && subject != "" && Solid(subject) && Solid(replyTo)
      && 0 <= subId <= MAX_INT64 && |payload| <= MAX_INT64
    case ErrPacket(message) => OneLine(message)
    case _ => true
  }

  predicate Solid(s: Bytes) {
    forall i :: 0 <= i < |s| ==> !White(s[i])
  }

  predicate OneLine(s: Bytes) {
    forall i :: 0 <= i < |s| ==> s[i] != '\r' && s[i] != '\n'
  }

  /** The argument line of a MSG packet. */
  function Line(p: Packet): Bytes
    requires p.MsgPacket? && Sendable(p)
  {
    p.subject + " " + Decimal(p.subId) + " " + (if p.replyTo != "" then p.replyTo + " " else "") + Decimal(|p.payload|)
  }

  function Encode(p: Packet): Bytes
    requires Sendable(p)
  {
    match p
    case MsgPacket(_, _, _, payload) => "MSG " + Line(p) + "\r\n" + payload + "\r\n"
    case ErrPacket(message) => "-ERR '" + message + "'\r\n"
    case PingPacket => "PING\r\n"
    case PongPacket => "PONG\r\n"
    case OkPacket => "+OK\r\n"
  }

  function Meaning(p: Packet): Event {
    match p
    case MsgPacket(subject, subId, replyTo, payload) => Message(subject, replyTo, subId, payload)
    case ErrPacket(message) => Fault("'" + message + "'")
    case PingPacket => Ping
    case PongPacket => Pong
    case OkPacket => Okay
  }

  // ---------- Numbers and words ----------

  lemma {:induction false} DigitsAppend(a: Bytes, c: char, n: int)
    requires forall i :: 0 <= i < |a| ==> '0' <= a[i] <= '9'
    requires '0' <= c <= '9'
    ensures Digits(a + [c], n) == Wrap64(Digits(a, n) * 10 + (c - '0') as int)
    decreases |a|
  {
    if a == [] {
      assert (a + [c])[1..] == [];
    } else {
      assert (a + [c])[1..] == a[1..] + [c];
      DigitsAppend(a[1..], c, Wrap64(n * 10 + (a[0] - '0') as int));
    }
  }

  lemma {:induction false} DecimalParses(n: nat)
    requires n <= MAX_INT64
    ensures ParseInt64(Decimal(n)) == n
    decreases n
  {
    if n >= 10 {
      DecimalParses(n / 10);
      DigitsAppend(Decimal(n / 10), ('0' as int + n % 10) as char, 0);
      WrapSmall(n);
    } else {
      WrapSmall(n);
      var d := Decimal(n);
      assert d[1..] == [] && (d[0] - '0') as int == n;
      assert Digits(d[1..], Wrap64(n)) == n;
    }
  }

  lemma WrapSmall(x: int)
    requires 0 <= x <= MAX_INT64
    ensures Wrap64(x) == x
  {
  }

  lemma DecimalSolid(n: nat)
    ensures Solid(Decimal(n))
  {
  }

  lemma WordThenMore(w: Bytes, rest: Bytes)
    requires w != "" && Solid(w)
    ensures Words(w + " " + rest) == [w] + Words(rest)
  {
    var line := w + " " + rest;
    WordsOfWord(line, |w|);
    assert line[..|w|] == w && line[|w|..][1..] == rest;
    WordsOfBlank(line[|w|..]);
  }

  lemma LastWord(w: Bytes)
    requires w != "" && Solid(w)
    ensures Words(w) == [w]
  {
    WordsOfWord(w, |w|);
    assert w[..|w|] == w && w[|w|..] == "";
  }

  lemma LineParses(p: Packet)
    requires p.MsgPacket? && Sendable(p)
    ensures ParseHeader(Line(p)) == Some(Header(p.subject, p.replyTo, p.subId, |p.payload|))
  {
    hide Words, ParseInt64, Decimal;
    var id, size := Decimal(p.subId), Decimal(|p.payload|);
    DecimalParses(p.subId);
    DecimalParses(|p.payload|);
    LineWords(p, id, size);
    var w := Words(Line(p));
    if p.replyTo != "" {
      assert w == [p.subject, id, p.replyTo, size];
    } else {
      assert w == [p.subject, id, size];
    }
  }

  lemma LineWords(p: Packet, id: Bytes, size: Bytes)
    requires p.MsgPacket? && Sendable(p) && id == Decimal(p.subId) && size == Decimal(|p.payload|)
    ensures Words(Line(p)) == [p.subject] + ([id] + ((if p.replyTo != "" then [p.replyTo] else []) + [size]))
  {
    hide Words, Decimal;
    var tail := (if p.replyTo != "" then p.replyTo + " " else "") + size;
    assert Line(p) == p.subject + " " + (id + " " + tail);
    DecimalSolid(p.subId);
    DecimalSolid(|p.payload|);
    WordThenMore(p.subject, id + " " + tail);
    WordThenMore(id, tail);
    LastWord(size);
    if p.replyTo != "" {
      WordThenMore(p.replyTo, size);
    } else {
      assert tail == size;
      assert [] + [size] == [size];
    }
  }

  // ---------- Runs that end well ----------

  /** `bytes` take `m` to `m'` without error, stray carriage return or control line over `limit`. */
  ghost predicate Leads(m: Machine, bytes: Bytes, m': Machine, limit: nat)
    decreases |bytes|
  {
    Short(m, limit) &&
    if bytes == [] then m == m'
    else NoStrayCr(m, bytes[0]) && Step(m, bytes[0]).Go? && Leads(Step(m, bytes[0]).m, bytes[1..], m', limit)
  }

  lemma {:induction false} LeadsIsRun(m: Machine, bytes: Bytes, m': Machine, limit: nat)
    requires Leads(m, bytes, m', limit)
    ensures Run(m, bytes) == Go(m') && Clean(m, bytes) && ShortLines(m, bytes, limit)
    decreases |bytes|
  {
    if bytes != [] {
      LeadsIsRun(Step(m, bytes[0]).m, bytes[1..], m', limit);
    }
  }

  lemma {:induction false} LeadsOn(m: Machine, a: Bytes, m': Machine, b: Bytes, m'': Machine, limit: nat)
    requires Leads(m, a, m', limit) && Leads(m', b, m'', limit)
    ensures Leads(m, a + b, m'', limit)
    decreases |a|
  {
    if a == [] {
      assert a + b == b;
    } else {
      assert (a + b)[1..] == a[1..] + b;
      LeadsOn(Step(m, a[0]).m, a[1..], m', b, m'', limit);
    }
  }

  /** One byte. */
  lemma Leads1(m: Machine, b: char, m': Machine, limit: nat)
    requires NoStrayCr(m, b) && Step(m, b) == Go(m') && Short(m, limit) && Short(m', limit)
    ensures Leads(m, [b], m', limit)
  {
    assert [b][1..] == [];
  }

  lemma {:induction false} ArgumentLeads(m: Machine, text: Bytes, limit: nat)
    requires InArg(m.st) && !m.cr && OneLine(text)
    ensures Leads(m, text, m.(line := m.line + text), limit)
    decreases |text|
  {
    if text == [] {
      assert m.line + text == m.line;
    } else {
      assert m.line + [text[0]] + text[1..] == m.line + text;
      ArgumentLeads(m.(line := m.line + [text[0]]), text[1..], limit);
    }
  }

  lemma {:induction false} PayloadLeads(m: Machine, bytes: Bytes, limit: nat)
    requires m.st == MsgPayload && |m.payload| + |bytes| <= m.header.size && Short(m, limit)
    ensures Leads(m, bytes, m.(payload := m.payload + bytes), limit)
    decreases |bytes|
  {
    if bytes == [] {
      assert m.payload + bytes == m.payload;
    } else {
      assert m.payload + [bytes[0]] + bytes[1..] == m.payload + bytes;
      PayloadLeads(m.(payload := m.payload + [bytes[0]]), bytes[1..], limit);
    }
  }

  /** A word of letters leads through the states that spell it. */
  lemma {:induction false} SpellingLeads(m: Machine, word: Bytes, sts: seq<St>, limit: nat)
    requires |sts| == |word| + 1 && sts[0] == m.st
    requires forall k :: 0 <= k < |word| ==> Spelling(sts[k]) && Letter(sts[k], word[k]) == Some(sts[k + 1])
    requires sts[|word|] != MsgPayload
    ensures Leads(m, word, m.(st := sts[|word|]), limit)
    decreases |word|
  {
    if word != [] {
      assert Step(m, word[0]) == Go(m.(st := sts[1]));
      SpellingLeads(m.(st := sts[1]), word[1..], sts[1..], limit);
    }
  }

  /** The machine after a packet. */
  ghost function After(m: Machine, p: Packet): Machine
    requires Sendable(p)
  {
    var logged := m.(log := m.log + [Meaning(p)]);
    match p
    case MsgPacket(subject, subId, replyTo, payload) =>
      logged.(line := Line(p), header := Header(subject, replyTo, subId, |payload|), payload := payload)
    case ErrPacket(message) => logged.(line := "'" + message + "'")
    case _ => logged
  }

  ghost predicate Idle(m: Machine) {
    m.st == OpStart && !m.cr
  }

  lemma LineSolid(p: Packet)
    requires p.MsgPacket? && Sendable(p)
    ensures OneLine(Line(p)) && Line(p) != "" && !White(Line(p)[0])
  {
    hide Decimal;
    DecimalSolid(p.subId);
    DecimalSolid(|p.payload|);
  }

  /** An argument line from its first byte to the carriage return. */
  lemma LineLeads(m: Machine, text: Bytes, arg: St, limit: nat)
    requires (m.st == OpMsgSpc && arg == MsgArg) || (m.st == OpMinusErrSpc && arg == MinusErrArg)
    requires !m.cr && text != "" && OneLine(text) && !Blank(text[0])
    ensures Leads(m, text + "\r", m.(st := arg, line := text, cr := true), limit)
  {
    hide Leads;
    var first := m.(st := arg, line := [text[0]], cr := false);
    Leads1(m, text[0], first, limit);
    ArgumentLeads(first, text[1..], limit);
    assert [text[0]] + text[1..] == text;
    LeadsOn(m, [text[0]], first, text[1..], first.(line := text), limit);
    Leads1(first.(line := text), '\r', m.(st := arg, line := text, cr := true), limit);
    LeadsOn(m, text, first.(line := text), "\r", m.(st := arg, line := text, cr := true), limit);
  }

  /** A payload with its line end, whatever bytes it has. */
  lemma BodyLeads(m: Machine, limit: nat, payload: Bytes)
    requires m.st == MsgPayload && !m.cr && m.payload == "" && m.header.size == |payload| && Short(m, limit)
    ensures var full := m.(payload := payload);
            Leads(m, payload + "\r\n", full.(st := OpStart, log := m.log + [Delivered(full)]), limit)
  {
    hide Leads;
    var full := m.(payload := payload);
    PayloadLeads(m, payload, limit);
    assert m.payload + payload == payload;
    var ended := full.(st := MsgEnd, log := m.log + [Delivered(full)]);
    Leads1(full, '\r', ended, limit);
    Leads1(ended, '\n', ended.(st := OpStart), limit);
    LeadsOn(full, "\r", ended, "\n", ended.(st := OpStart), limit);
    assert "\r" + "\n" == "\r\n";
    LeadsOn(m, payload, full, "\r\n", ended.(st := OpStart), limit);
  }

  /** The machine after the control line of a MSG packet. */
  ghost function Ready(m: Machine, p: Packet): Machine
    requires p.MsgPacket? && Sendable(p)
  {
    m.(st := MsgPayload, line := Line(p), header := Header(p.subject, p.replyTo, p.subId, |p.payload|), payload := "")
  }

  lemma HeadLeads(m: Machine, p: Packet, limit: nat)
    requires Idle(m) && p.MsgPacket? && Sendable(p) && |Line(p)| <= limit
    ensures Leads(m, "MSG " + Line(p) + "\r\n", Ready(m, p), limit)
  {
    hide Leads, Line, ParseHeader;
    var spaced := m.(st := OpMsgSpc);
    SpellingLeads(m, "MSG ", [OpStart, OpM, OpMs, OpMsg, OpMsgSpc], limit);
    LineSolid(p);
    LineLeads(spaced, Line(p), MsgArg, limit);
    var read := m.(st := MsgArg, line := Line(p), cr := true);
    LeadsOn(m, "MSG ", spaced, Line(p) + "\r", read, limit);
    LineParses(p);
    Leads1(read, '\n', Ready(m, p), limit);
    LeadsOn(m, "MSG " + (Line(p) + "\r"), read, "\n", Ready(m, p), limit);
    assert "MSG " + (Line(p) + "\r") + "\n" == "MSG " + Line(p) + "\r\n";
  }

  lemma MsgLeads(m: Machine, p: Packet, limit: nat)
    requires Idle(m) && p.MsgPacket? && Sendable(p) && |Line(p)| <= limit
    ensures Leads(m, Encode(p), After(m, p), limit)
  {
    hide Leads, Line;
    HeadLeads(m, p, limit);
    BodyLeads(Ready(m, p), limit, p.payload);
    LeadsOn(m, "MSG " + Line(p) + "\r\n", Ready(m, p), p.payload + "\r\n", After(m, p), limit);
    assert "MSG " + Line(p) + "\r\n" + (p.payload + "\r\n") == Encode(p);
  }

  /** A read that ends right behind a control line panics exactly when subject and reply outgrow the scratch area. */
  lemma HeadPanicsIff(p: Packet)
    requires p.MsgPacket? && Sendable(p)
    ensures ParseAll(NEW, ["MSG " + Line(p) + "\r\n"]) == Panic <==>
            |p.subject| + |p.replyTo| > MAX_CONTROL_LINE_SIZE
  {
    hide Leads, Line, Parse, Run;
    var head := "MSG " + Line(p) + "\r\n";
    HeadLeads(START, p, |Line(p)|);
    LeadsIsRun(START, head, Ready(START, p), |Line(p)|);
    OneReadPanicsIff(head);
    assert [head][1..] == [];
  }

  lemma ErrLeads(m: Machine, p: Packet, limit: nat)
    requires Idle(m) && p.ErrPacket? && Sendable(p)
    ensures Leads(m, Encode(p), After(m, p), limit)
  {
    hide Leads;
    var spaced, text := m.(st := OpMinusErrSpc), "'" + p.message + "'";
    SpellingLeads(m, "-ERR ", [OpStart, OpMinus, OpMinusE, OpMinusEr, OpMinusErr, OpMinusErrSpc], limit);
    LineLeads(spaced, text, MinusErrArg, limit);
    var read := m.(st := MinusErrArg, line := text, cr := true);
    LeadsOn(m, "-ERR ", spaced, text + "\r", read, limit);
    Leads1(read, '\n', After(m, p), limit);
    LeadsOn(m, "-ERR " + (text + "\r"), read, "\n", After(m, p), limit);
    assert "-ERR " + (text + "\r") + "\n" == Encode(p);
  }

  lemma PingLeads(m: Machine, limit: nat)
    requires Idle(m)
    ensures Leads(m, Encode(PingPacket), After(m, PingPacket), limit)
  {
    hide Leads;
    assert "PING\r\n" == "PING" + "\r\n";
    WordLeads(m, "PING", [OpStart, OpP, OpPi, OpPin, OpPing], After(m, PingPacket), limit);
  }

  lemma PongLeads(m: Machine, limit: nat)
    requires Idle(m)
    ensures Leads(m, Encode(PongPacket), After(m, PongPacket), limit)
  {
    hide Leads;
    assert "PONG\r\n" == "PONG" + "\r\n";
    WordLeads(m, "PONG", [OpStart, OpP, OpPo, OpPon, OpPong], After(m, PongPacket), limit);
  }

  lemma OkLeads(m: Machine, limit: nat)
    requires Idle(m)
    ensures Leads(m, Encode(OkPacket), After(m, OkPacket), limit)
  {
    hide Leads;
    assert "+OK\r\n" == "+OK" + "\r\n";
    WordLeads(m, "+OK", [OpStart, OpPlus, OpPlusO, OpPlusOk], After(m, OkPacket), limit);
  }

  lemma WordLeads(m: Machine, word: Bytes, sts: seq<St>, after: Machine, limit: nat)
    requires |sts| == |word| + 1 && sts[0] == m.st && !m.cr
    requires forall k :: 0 <= k < |word| ==> Spelling(sts[k]) && Letter(sts[k], word[k]) == Some(sts[k + 1])
    requires sts[|word|] in {OpPing, OpPong, OpPlusOk} && Step(m.(st := sts[|word|]), '\n') == Go(after)
    requires after.st == OpStart
    ensures Leads(m, word + "\r\n", after, limit)
  {
    hide Leads;
    var spelt := m.(st := sts[|word|]);
    SpellingLeads(m, word, sts, limit);
    Leads1(spelt, '\r', spelt, limit);
    Leads1(spelt, '\n', after, limit);
    LeadsOn(m, word, spelt, "\r", spelt, limit);
    LeadsOn(m, word + "\r", spelt, "\n", after, limit);
    assert word + "\r" + "\n" == word + "\r\n";
  }

  lemma PacketLeads(m: Machine, p: Packet, limit: nat)
    requires Idle(m) && Sendable(p) && (p.MsgPacket? ==> |Line(p)| <= limit)
    ensures Leads(m, Encode(p), After(m, p), limit)
  {
    match p
    case MsgPacket(_, _, _, _) => MsgLeads(m, p, limit);
    case ErrPacket(_) => ErrLeads(m, p, limit);
    case PingPacket => PingLeads(m, limit);
    case PongPacket => PongLeads(m, limit);
    case OkPacket => OkLeads(m, limit);
  }

  // ---------- Lists of packets ----------

  ghost function EncodeAll(ps: seq<Packet>): Bytes
    requires forall p :: p in ps ==> Sendable(p)
  {
    if ps == [] then "" else Encode(ps[0]) + EncodeAll(ps[1..])
  }

  ghost function Meanings(ps: seq<Packet>): seq<Event> {
    seq(|ps|, i requires 0 <= i < |ps| => Meaning(ps[i]))
  }

  ghost predicate LinesWithin(ps: seq<Packet>, limit: nat) {
    forall p :: p in ps ==> Sendable(p) && (p.MsgPacket? ==> |Line(p)| <= limit)
  }

  lemma {:induction false} PacketsLead(m: Machine, ps: seq<Packet>, limit: nat) returns (m': Machine)
    requires Idle(m) && LinesWithin(ps, limit)
    ensures Idle(m') && m'.log == m.log + Meanings(ps) && Leads(m, EncodeAll(ps), m', limit)
    decreases |ps|
  {
    hide Leads, Encode, Step, Line;
    if ps == [] {
      m' := m;
      NothingLeads(m, limit);
    } else {
      PacketLeads(m, ps[0], limit);
      m' := PacketsLead(After(m, ps[0]), ps[1..], limit);
      LeadsOn(m, Encode(ps[0]), After(m, ps[0]), EncodeAll(ps[1..]), m', limit);
      assert Meanings(ps) == [Meaning(ps[0])] + Meanings(ps[1..]);
    }
  }

  lemma NothingLeads(m: Machine, limit: nat)
    requires Idle(m)
    ensures Leads(m, "", m, limit)
  {
  }

  /** Any list of packets read in one piece is handed over as that list, whatever the payload bytes. */
  lemma RoundTripAtOnce(ps: seq<Packet>)
    requires forall p :: p in ps ==> Sendable(p)
    ensures var o := Parse(NEW, EncodeAll(ps));
            o.Continue? && o.ps.log == Meanings(ps) && o.ps.st == OpStart
  {
    hide Leads, Parse, Run, Line, Sendable;
    var limit := LongestLine(ps);
    var m := PacketsLead(START, ps, limit);
    LeadsIsRun(START, EncodeAll(ps), m, limit);
    OneReadRefines(EncodeAll(ps));
  }

  ghost function LongestLine(ps: seq<Packet>): (n: nat)
    requires forall p :: p in ps ==> Sendable(p)
    ensures LinesWithin(ps, n)
  {
    if ps == [] then 0
    else
      var rest := LongestLine(ps[1..]);
      var line := if ps[0].MsgPacket? then |Line(ps[0])| else 0;
      if line > rest then line else rest
  }

  /** With control lines that fit the scratch area, the same holds however the bytes arrive. */
  lemma RoundTripInPieces(ps: seq<Packet>, chunks: seq<Bytes>)
    requires LinesWithin(ps, MAX_CONTROL_LINE_SIZE) && Joined(chunks) == EncodeAll(ps)
    ensures var o := ParseAll(NEW, chunks);
            o.Continue? && o.ps.log == Meanings(ps) && o.ps.st == OpStart
  {
    hide Leads, ParseAll, Run, Line, Sendable;
    var m := PacketsLead(START, ps, MAX_CONTROL_LINE_SIZE);
    LeadsIsRun(START, EncodeAll(ps), m, MAX_CONTROL_LINE_SIZE);
    NewIsSettled();
    AnyCutRefines(NEW, START, chunks);
  }
}
