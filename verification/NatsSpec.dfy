/** What a NATS server stream means, one byte at a time and without any read buffer. */
module NatsSpec {
  import opened Options

  /** Bytes are written as characters. */
  type Bytes = string

  datatype Event =
    | Message(subject: Bytes, reply: Bytes, sid: int, payload: Bytes)
    | Okay
    | Fault(text: Bytes)
    | Ping
    | Pong

  datatype St =
    | OpStart
    | OpPlus | OpPlusO | OpPlusOk
    | OpMinus | OpMinusE | OpMinusEr | OpMinusErr | OpMinusErrSpc | MinusErrArg
    | OpC
    | OpM | OpMs | OpMsg | OpMsgSpc | MsgArg | MsgPayload | MsgEnd
    | OpP | OpPi | OpPin | OpPing | OpPo | OpPon | OpPong

  predicate Blank(b: char) {
    b == ' ' || b == '\t'
  }

  predicate White(b: char) {
    Blank(b) || b == '\r' || b == '\n'
  }

  /** States that spell out an operation name. */
  predicate Spelling(st: St) {
    st in {OpStart, OpC, OpM, OpMs, OpMsg, OpP, OpPi, OpPin, OpPo, OpPon,
           OpPlus, OpPlusO, OpMinus, OpMinusE, OpMinusEr, OpMinusErr}
  }

  /** The state after one more letter of an operation name; None is a parse error. */
  function Letter(st: St, b: char): Option<St> {
    match st
    case OpStart =>
      if b in "Mm" then Some(OpM) else if b in "Cc" then Some(OpC) else if b in "Pp" then Some(OpP)
      else if b == '+' then Some(OpPlus) else if b == '-' then Some(OpMinus) else None
    case OpM => if b in "Ss" then Some(OpMs) else None
    case OpMs => if b in "Gg" then Some(OpMsg) else None
    case OpMsg => if Blank(b) then Some(OpMsgSpc) else None
    case OpP => if b in "Ii" then Some(OpPi) else if b in "Oo" then Some(OpPo) else None
    case OpPi => if b in "Nn" then Some(OpPin) else None
    case OpPin => if b in "Gg" then Some(OpPing) else None
    case OpPo => if b in "Nn" then Some(OpPon) else None
    case OpPon => if b in "Gg" then Some(OpPong) else None
    case OpPlus => if b in "Oo" then Some(OpPlusO) else None
    case OpPlusO => if b in "Kk" then Some(OpPlusOk) else None
    case OpMinus => if b in "Ee" then Some(OpMinusE) else None
    case OpMinusE => if b in "Rr" then Some(OpMinusEr) else None
    case OpMinusEr => if b in "Rr" then Some(OpMinusErr) else None
    case OpMinusErr => if Blank(b) then Some(OpMinusErrSpc) else None
    case _ => None
  }

  // ---------- Control-line arguments ----------

  const MAX_INT64 := 0x7FFF_FFFF_FFFF_FFFF

  /** Two's-complement wrap-around of 64-bit arithmetic. */
  function Wrap64(x: int): int {
    (x + MAX_INT64 + 1) % (2 * (MAX_INT64 + 1)) - (MAX_INT64 + 1)
  }

  /** `parseInt64`: -1 for anything but digits. */
  function ParseInt64(d: Bytes): int {
    if d == [] then -1 else Digits(d, 0)
  }

  function Digits(d: Bytes, n: int): int {
    if d == [] then n
    else if d[0] < '0' || d[0] > '9' then -1
    else Digits(d[1..], Wrap64(n * 10 + (d[0] - '0') as int))
  }

  /** The non-white words of a line. */
  function Words(line: Bytes): (r: seq<Bytes>)
    decreases |line|
  {
    var w := WordLength(line);
    if line == [] then []
    else if w == 0 then Words(line[1..])
    else [line[..w]] + Words(line[w..])
  }

  /** How far the word at the front of a line reaches. */
  function WordLength(line: Bytes): (w: nat)
    ensures w <= |line|
    ensures forall i :: 0 <= i < w ==> !White(line[i])
    ensures w < |line| ==> White(line[w])
  {
    if line == [] || White(line[0]) then 0 else 1 + WordLength(line[1..])
  }

  datatype Header = Header(subject: Bytes, reply: Bytes, sid: int, size: int)

  /** The arguments of MSG; None is an error. */
  function ParseHeader(line: Bytes): (h: Option<Header>)
    ensures h.Some? ==> h.value.size >= 0
  {
    var w := Words(line);
    var h := if |w| == 3 then Some(Header(w[0], "", ParseInt64(w[1]), ParseInt64(w[2])))
             else if |w| == 4 then Some(Header(w[0], w[2], ParseInt64(w[1]), ParseInt64(w[3])))
             else None;
    if h.Some? && h.value.size < 0 then None else h
  }

  // ---------- The machine ----------

  /** `line` is the argument text read so far, without a final carriage return (`cr`). */
  datatype Machine = Machine(st: St, line: Bytes, cr: bool, header: Header, payload: Bytes, log: seq<Event>)

  const START := Machine(OpStart, "", false, Header("", "", 0, 0), "", [])

  datatype Result = Go(m: Machine) | Fail(log: seq<Event>)

  function Step(m: Machine, b: char): Result {
    if Spelling(m.st) then
      var next := Letter(m.st, b);
      if next == None then Fail(m.log) else Go(m.(st := next.value))
    else match m.st
      case OpMsgSpc => Go(if Blank(b) then m else m.(st := MsgArg, line := [b], cr := false))
      case OpMinusErrSpc => Go(if Blank(b) then m else m.(st := MinusErrArg, line := [b], cr := false))
      case MsgArg =>
        if b == '\r' then Go(m.(cr := true))
        else if b != '\n' then Go(m.(line := m.line + [b]))
        else
          var h := ParseHeader(m.line);
          if h == None then Fail(m.log)
          else Go(m.(st := MsgPayload, cr := false, header := h.value, payload := ""))
      case MinusErrArg =>
        if b == '\r' then Go(m.(cr := true))
        else if b != '\n' then Go(m.(line := m.line + [b]))
        else Go(m.(st := OpStart, cr := false, log := m.log + [Fault(m.line)]))
      case MsgPayload =>
        if |m.payload| < m.header.size then Go(m.(payload := m.payload + [b]))
        else Go(m.(st := MsgEnd, log := m.log + [Delivered(m)]))
      case MsgEnd => Go(if b == '\n' then m.(st := OpStart) else m)
      case OpPlusOk => Go(if b == '\n' then m.(st := OpStart, log := m.log + [Okay]) else m)
      case OpPing => Go(if b == '\n' then m.(st := OpStart, log := m.log + [Ping]) else m)
      case OpPong => Go(if b == '\n' then m.(st := OpStart, log := m.log + [Pong]) else m)
      case _ => Fail(m.log)
  }

  function Delivered(m: Machine): Event {
    Message(m.header.subject, m.header.reply, m.header.sid, m.payload)
  }

  function Run(m: Machine, bytes: Bytes): Result
    decreases |bytes|
  {
    if bytes == [] then Go(m)
    else match Step(m, bytes[0])
      case Fail(log) => Fail(log)
      case Go(m') => Run(m', bytes[1..])
  }

  /** Meaning is found piece by piece. */
  lemma {:induction false} RunConcat(m: Machine, a: Bytes, b: Bytes)
    ensures Run(m, a + b) == match Run(m, a) case Fail(log) => Fail(log) case Go(m') => Run(m', b)
    decreases |a|
  {
    if a == [] {
      assert a + b == b;
    } else {
      assert (a + b)[1..] == a[1..] + b;
      if Step(m, a[0]).Go? {
        RunConcat(Step(m, a[0]).m, a[1..], b);
      }
    }
  }
}
