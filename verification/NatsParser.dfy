/** The client's parser: a state machine over read buffers that are overwritten by the next read. */
module NatsParser {
  import opened Options
  import opened NatsSpec

  const MAX_CONTROL_LINE_SIZE := 1024

  /** A byte slice by where its memory is: the caller's read buffer, the scratch area, or its own. */
  datatype Slice = InBuf(lo: nat, hi: nat) | InScratch(lo: nat, hi: nat) | Own(bytes: Bytes)

  /** What a slice shows now; a slice past the end of the current read shows nothing. */
  function Deref(s: Slice, buf: Bytes, scratch: Bytes): Bytes {
    match s
    case InBuf(lo, hi) => if lo <= hi <= |buf| then buf[lo..hi] else ""
    case InScratch(lo, hi) => if lo <= hi <= |scratch| then scratch[lo..hi] else ""
    case Own(bytes) => bytes
  }

  function Sub(s: Slice, span: (nat, nat)): Slice {
    match s
    case InBuf(lo, _) => InBuf(lo + span.0, lo + span.1)
    case InScratch(lo, _) => InScratch(lo + span.0, lo + span.1)
    case Own(bytes) => Own(Cut(bytes, span))
  }

  function Cut(text: Bytes, span: (nat, nat)): Bytes {
    if span.0 <= span.1 <= |text| then text[span.0..span.1] else ""
  }

  /** Go's `append` onto a slice of the scratch area: in place while there is room, else a copy. */
  function Append(s: Slice, bytes: Bytes, buf: Bytes, scratch: Bytes): (Slice, Bytes) {
    if s.InScratch? && s.hi + |bytes| <= |scratch|
    then (InScratch(s.lo, s.hi + |bytes|), scratch[..s.hi] + bytes + scratch[s.hi + |bytes|..])
    else (Own(Deref(s, buf, scratch) + bytes), scratch)
  }

  datatype MsgArgs = MsgArgs(subject: Slice, reply: Option<Slice>, sid: int, size: int)

  datatype ParseState = ParseState(
    st: St, start: nat, drop: nat, ma: MsgArgs,
    argBuf: Option<Slice>, msgBuf: Option<Slice>, scratch: Bytes, log: seq<Event>)

  const NEW := ParseState(OpStart, 0, 0, MsgArgs(Own(""), None, 0, 0), None, None,
                          seq(MAX_CONTROL_LINE_SIZE, _ => '\0'), [])

  /** `Panic` is an index out of range. */
  datatype Outcome = Continue(ps: ParseState) | ParseError(log: seq<Event>) | Panic

  /** The loop that unrolls splitArgs: word spans found from position `i`, a word being open at `start`. */
  function Spans(arg: Bytes, i: nat, start: Option<nat>): seq<(nat, nat)>
    requires i <= |arg|
    decreases |arg| - i
  {
    if i == |arg| then if start.Some? then [(start.value, i)] else []
    else if White(arg[i]) then
      (if start.Some? then [(start.value, i)] else []) + Spans(arg, i + 1, None)
    else Spans(arg, i + 1, if start.Some? then start else Some(i))
  }

  function ProcessMsgArgs(arg: Slice, text: Bytes): Option<MsgArgs> {
    var spans := Spans(text, 0, None);
    var ma := if |spans| == 3 then
                Some(MsgArgs(Sub(arg, spans[0]), None,
                             ParseInt64(Cut(text, spans[1])), ParseInt64(Cut(text, spans[2]))))
              else if |spans| == 4 then
                Some(MsgArgs(Sub(arg, spans[0]), Some(Sub(arg, spans[2])),
                             ParseInt64(Cut(text, spans[1])), ParseInt64(Cut(text, spans[3]))))
              else None;
    if ma.Some? && ma.value.size < 0 then None else ma
  }

  /** The event that `processMsg` hands over. */
  function Deliver(ps: ParseState, msg: Slice, buf: Bytes): Event {
    Message(Deref(ps.ma.subject, buf, ps.scratch),
            if ps.ma.reply.Some? then Deref(ps.ma.reply.value, buf, ps.scratch) else "",
            ps.ma.sid,
            Deref(msg, buf, ps.scratch))
  }

  /** One byte inside a MSG or -ERR argument. */
  function OnArg(ps: ParseState, buf: Bytes, i: nat): Outcome
    requires i < |buf|
  {
    var b := buf[i];
    if b == '\r' then Continue(ps.(drop := 1))
    else if b != '\n' then
      if ps.argBuf == None then Continue(ps)
      else var (s, scratch) := Append(ps.argBuf.value, [b], buf, ps.scratch);
        Continue(ps.(argBuf := Some(s), scratch := scratch))
    else if ps.argBuf == None && (i < ps.drop || i - ps.drop < ps.start) then Panic
    else
      var arg := if ps.argBuf.Some? then ps.argBuf.value else InBuf(ps.start, i - ps.drop);
      var text := Deref(arg, buf, ps.scratch);
      if ps.st == MsgArg then
        var ma := ProcessMsgArgs(arg, text);
        if ma == None then ParseError(ps.log)
        else Continue(ps.(drop := 0, start := i + 1, st := MsgPayload, ma := ma.value))
      else
        Continue(ps.(argBuf := None, drop := 0, start := i + 1, st := OpStart, log := ps.log + [Fault(text)]))
  }

  function OnPayload(ps: ParseState, buf: Bytes, i: nat): Outcome
    requires i < |buf|
  {
    if ps.msgBuf.Some? then
      if |Deref(ps.msgBuf.value, buf, ps.scratch)| >= ps.ma.size then
        Continue(ps.(argBuf := None, msgBuf := None, st := MsgEnd, log := ps.log + [Deliver(ps, ps.msgBuf.value, buf)]))
      else
        var (s, scratch) := Append(ps.msgBuf.value, [buf[i]], buf, ps.scratch);
        Continue(ps.(msgBuf := Some(s), scratch := scratch))
    else if i - ps.start < ps.ma.size then Continue(ps)
    else if i < ps.start then Panic
    else
      var event := Deliver(ps, InBuf(ps.start, i), buf);
      Continue(ps.(argBuf := None, msgBuf := None, st := MsgEnd, log := ps.log + [event]))
  }

  /** The body of the parse loop. */
  function OnByte(ps: ParseState, buf: Bytes, i: nat): Outcome
    requires i < |buf|
  {
    var b := buf[i];
    if Spelling(ps.st) then
      var next := Letter(ps.st, b);
      if next == None then ParseError(ps.log) else Continue(ps.(st := next.value))
    else match ps.st
      case OpMsgSpc => Continue(if Blank(b) then ps else ps.(st := MsgArg, start := i))
      case OpMinusErrSpc => Continue(if Blank(b) then ps else ps.(st := MinusErrArg, start := i))
      case MsgArg => OnArg(ps, buf, i)
      case MinusErrArg => OnArg(ps, buf, i)
      case MsgPayload => OnPayload(ps, buf, i)
      case MsgEnd => Continue(if b == '\n' then ps.(drop := 0, start := i + 1, st := OpStart) else ps)
      case OpPlusOk => Continue(if b == '\n' then ps.(drop := 0, st := OpStart, log := ps.log + [Okay]) else ps)
      case OpPing => Continue(if b == '\n' then ps.(drop := 0, st := OpStart, log := ps.log + [Ping]) else ps)
      case OpPong => Continue(if b == '\n' then ps.(drop := 0, st := OpStart, log := ps.log + [Pong]) else ps)
      case _ => ParseError(ps.log)
  }

  /** `cloneMsgArg`: subject and reply move from the read buffer to the scratch area. */
  function CloneMsgArg(ps: ParseState, buf: Bytes): ParseState {
    var subject := Deref(ps.ma.subject, buf, ps.scratch);
    var (a, scratch) := Append(InScratch(0, 0), subject, buf, ps.scratch);
    var reply := if ps.ma.reply.Some? then Deref(ps.ma.reply.value, buf, scratch) else "";
    var (argBuf, scratch') := Append(a, reply, buf, scratch);
    var ma := ps.ma.(subject := Sub(argBuf, (0, |subject|)),
                     reply := if ps.ma.reply.Some? then Some(Sub(argBuf, (|subject|, |subject| + |reply|))) else None);
    ps.(argBuf := Some(argBuf), ma := ma, scratch := scratch')
  }

  /** The end of a read: whatever still lives in the read buffer is saved. */
  function EndOfRead(ps: ParseState, buf: Bytes): Outcome {
    if (ps.st == MsgArg || ps.st == MinusErrArg) && ps.argBuf == None then
      if |buf| < ps.drop || |buf| - ps.drop < ps.start then Panic
      else var (s, scratch) := Append(InScratch(0, 0), buf[ps.start..|buf| - ps.drop], buf, ps.scratch);
        Continue(ps.(argBuf := Some(s), scratch := scratch))
    else if ps.st == MsgPayload && ps.msgBuf == None then
      var ps' := if ps.argBuf == None then CloneMsgArg(ps, buf) else ps;
      var n := |Deref(ps'.argBuf.value, buf, ps'.scratch)|;
      if n > MAX_CONTROL_LINE_SIZE || ps.start > |buf| then Panic
      else var (s, scratch) := Append(InScratch(n, n), buf[ps.start..], buf, ps'.scratch);
        Continue(ps'.(msgBuf := Some(s), scratch := scratch))
    else Continue(ps)
  }

  function ParseFrom(ps: ParseState, buf: Bytes, i: nat): Outcome
    requires i <= |buf|
    decreases |buf| - i
  {
    if i == |buf| then EndOfRead(ps, buf)
    else match OnByte(ps, buf, i)
      case Continue(ps') => ParseFrom(ps', buf, i + 1)
      case other => other
  }

  /** One call of `parse`. */
  function Parse(ps: ParseState, buf: Bytes): Outcome {
    ParseFrom(ps, buf, 0)
  }

  /** The read loop: one call per read, until the first error. */
  function ParseAll(ps: ParseState, chunks: seq<Bytes>): Outcome
    decreases |chunks|
  {
    if chunks == [] then Continue(ps)
    else match Parse(ps, chunks[0])
      case Continue(ps') => ParseAll(ps', chunks[1..])
      case other => other
  }

  method SplitArgs(arg: Bytes) returns (spans: seq<(nat, nat)>)
    ensures spans == Spans(arg, 0, None)
  {
    spans := [];
    var start: Option<nat> := None;
    var i := 0;
    while i < |arg|
      invariant i <= |arg| && spans + Spans(arg, i, start) == Spans(arg, 0, None)
    {
      if White(arg[i]) {
        if start.Some? {
          spans := spans + [(start.value, i)];
          start := None;
        }
      } else if start == None {
        start := Some(i);
      }
      i := i + 1;
    }
    if start.Some? {
      spans := spans + [(start.value, |arg|)];
    }
  }

  method ReadInt64(d: Bytes) returns (n: int)
    ensures n == ParseInt64(d)
  {
    if |d| == 0 {
      return -1;
    }
    n := 0;
    var i := 0;
    while i < |d|
      invariant i <= |d| && Digits(d[i..], n) == Digits(d, 0)
    {
      if d[i] < '0' || d[i] > '9' {
        return -1;
      }
      n := Wrap64(n * 10 + (d[i] - '0') as int);
      assert d[i..][1..] == d[i + 1..];
      i := i + 1;
    }
  }

  /** `processMsgArgs`: the loops above, and the checks on what they find. */
  method ReadMsgArgs(arg: Slice, text: Bytes) returns (ma: Option<MsgArgs>)
    ensures ma == ProcessMsgArgs(arg, text)
  {
    var spans := SplitArgs(text);
    if |spans| != 3 && |spans| != 4 {
      return None;
    }
    var sid := ReadInt64(Cut(text, spans[1]));
    var size := ReadInt64(Cut(text, spans[|spans| - 1]));
    if size < 0 {
      return None;
    }
    var reply := if |spans| == 4 then Some(Sub(arg, spans[2])) else None;
    return Some(MsgArgs(Sub(arg, spans[0]), reply, sid, size));
  }

  class Conn {
    var ps: ParseState

    constructor ()
      ensures ps == NEW
    {
      ps := NEW;
    }

    /** One read: `buf` is the caller's buffer, which the next read overwrites. */
    method ParseRead(buf: Bytes) returns (r: Outcome)
      modifies this
      ensures r == Parse(old(ps), buf)
      ensures r.Continue? ==> ps == r.ps
    {
      hide OnByte, EndOfRead;
      var i := 0;
      while i < |buf|
        invariant i <= |buf| && ParseFrom(ps, buf, i) == Parse(old(ps), buf)
      {
        if ps.st == MsgArg && buf[i] == '\n' {
          r := EndMsgArg(buf, i);
        } else {
          r := OnByte(ps, buf, i);
        }
        if !r.Continue? {
          return;
        }
        ps := r.ps;
        i := i + 1;
      }
      r := EndOfRead(ps, buf);
      if r.Continue? {
        ps := r.ps;
      }
    }

    /** The line feed behind the arguments of a message. */
    method EndMsgArg(buf: Bytes, i: nat) returns (r: Outcome)
      requires i < |buf| && ps.st == MsgArg && buf[i] == '\n'
      ensures r == OnByte(ps, buf, i)
    {
      hide ProcessMsgArgs;
      if ps.argBuf == None && (i < ps.drop || i - ps.drop < ps.start) {
        return Panic;
      }
      var arg := if ps.argBuf.Some? then ps.argBuf.value else InBuf(ps.start, i - ps.drop);
      var ma := ReadMsgArgs(arg, Deref(arg, buf, ps.scratch));
      if ma == None {
        return ParseError(ps.log);
      }
      return Continue(ps.(drop := 0, start := i + 1, st := MsgPayload, ma := ma.value));
    }
  }
}
