/** The parser means what the byte machine means, wherever the reads are cut. */
module NatsRefinement {
  import opened Options
  import opened NatsSpec
  import opened NatsParser

  // ---------- Splitting a line into words ----------

  /** `spans` cuts `words` out of `arg`, in order. */
  ghost predicate Cuts(arg: Bytes, spans: seq<(nat, nat)>, words: seq<Bytes>) {
    |spans| == |words| &&
    forall k :: 0 <= k < |spans| ==> spans[k].0 <= spans[k].1 <= |arg| && words[k] == arg[spans[k].0..spans[k].1]
  }

  lemma WordsOfWord(line: Bytes, w: nat)
    requires 0 < w <= |line| && (forall j :: 0 <= j < w ==> !White(line[j])) && (w < |line| ==> White(line[w]))
    ensures Words(line) == [line[..w]] + Words(line[w..])
  {
    assert WordLength(line) == w;
  }

  lemma WordsOfBlank(line: Bytes)
    requires line != [] ==> White(line[0])
    ensures Words(line) == if line == [] then [] else Words(line[1..])
  {
  }

  lemma CutsCons(arg: Bytes, span: (nat, nat), spans: seq<(nat, nat)>, words: seq<Bytes>)
    requires Cuts(arg, spans, words) && span.0 <= span.1 <= |arg|
    ensures Cuts(arg, [span] + spans, [arg[span.0..span.1]] + words)
  {
  }

  lemma CutsNone(arg: Bytes)
    ensures Cuts(arg, [], []) && Words("") == []
  {
  }

  /** The in-place split finds the words of the line. */
  lemma {:induction false} SpansAreWords(arg: Bytes, i: nat, start: Option<nat>)
    requires i <= |arg|
    requires start.Some? ==> start.value < i && forall j :: start.value <= j < i ==> !White(arg[j])
    ensures Cuts(arg, Spans(arg, i, start), Words(arg[if start.Some? then start.value else i..]))
    decreases |arg| - i
  {
    hide Words, Cuts;
    var from := if start.Some? then start.value else i;
    if i == |arg| || White(arg[i]) {
      if i < |arg| {
        SpansAreWords(arg, i + 1, None);
        assert arg[i..][1..] == arg[i + 1..];
      }
      WordsOfBlank(arg[i..]);
      var rest := if i < |arg| then Spans(arg, i + 1, None) else [];
      CutsNone(arg);
      assert [] + rest == rest;
      if start.Some? {
        CutsCons(arg, (from, i), rest, Words(arg[i..]));
        assert Spans(arg, i, start) == [(from, i)] + rest;
        assert arg[from..][i - from..] == arg[i..] && arg[from..][..i - from] == arg[from..i];
        WordsOfWord(arg[from..], i - from);
      }
    } else {
      SpansAreWords(arg, i + 1, Some(from));
    }
  }

  ghost function Total(words: seq<Bytes>): nat {
    if words == [] then 0 else |words[0]| + Total(words[1..])
  }

  lemma {:induction false} WordsFit(line: Bytes)
    ensures Total(Words(line)) <= |line|
    decreases |line|
  {
    if line != [] {
      var w := WordLength(line);
      if w == 0 {
        WordsFit(line[1..]);
      } else {
        WordsFit(line[w..]);
        assert Words(line)[1..] == Words(line[w..]);
      }
    }
  }

  /** The parser accepts the lines the machine accepts and reads the same header from them. */
  lemma ProcessMsgArgsIsParseHeader(arg: Slice, text: Bytes)
    ensures var h, ma := ParseHeader(text), ProcessMsgArgs(arg, text);
            && (ma.Some? <==> h.Some?)
            && (h.Some? ==>
              && ma.value.sid == h.value.sid && ma.value.size == h.value.size
              && |h.value.subject| + |h.value.reply| <= |text|
              && IsCut(arg, text, ma.value.subject, h.value.subject)
              && (if ma.value.reply.Some? then IsCut(arg, text, ma.value.reply.value, h.value.reply)
                  else h.value.reply == ""))
  {
    var spans, w := Spans(text, 0, None), Words(text);
    SpansAreWords(text, 0, None);
    assert text[0..] == text;
    if |w| == 3 || |w| == 4 {
      WordsFit(text);
      TwoOfTotal(w);
      assert IsCut(arg, text, Sub(arg, spans[0]), w[0]);
      assert IsCut(arg, text, Sub(arg, spans[2]), w[2]);
    }
  }

  lemma TwoOfTotal(w: seq<Bytes>)
    requires |w| >= 3
    ensures |w[0]| + |w[2]| <= Total(w)
  {
    assert Total(w[1..]) == |w[1]| + Total(w[1..][1..]);
    assert w[1..][1..] == w[2..];
  }

  /** `part` is a piece of `arg` that shows `word` whenever `arg` shows `text`. */
  ghost predicate IsCut(arg: Slice, text: Bytes, part: Slice, word: Bytes) {
    exists span: (nat, nat) :: span.0 <= span.1 <= |text| && part == Sub(arg, span) && word == text[span.0..span.1]
  }

  // ---------- What the parser holds between two bytes ----------

  predicate InArg(st: St) {
    st == MsgArg || st == MinusErrArg
  }

  /** Argument text collected from earlier reads: at the front of the scratch area, or too long for it. */
  ghost predicate Collected(s: Slice, scratch: Bytes) {
    match s
    case InBuf(_, _) => false
    case InScratch(lo, hi) => lo == 0 && hi <= |scratch|
    case Own(bytes) => |bytes| > |scratch|
  }

  /** `s` shows `text`, and nothing written before the message is handed over can change that. */
  ghost predicate Shows(ps: ParseState, s: Slice, text: Bytes, buf: Bytes, i: nat) {
    && Deref(s, buf, ps.scratch) == text
    && match s
       case InBuf(lo, hi) => ps.argBuf == None && lo <= hi <= i <= |buf|
       case InScratch(lo, hi) => ps.argBuf.Some? && ps.argBuf.value.InScratch? && lo <= hi <= ps.argBuf.value.hi
       case Own(_) => true
  }

  ghost predicate ArgHeld(ps: ParseState, buf: Bytes, i: nat, m: Machine) {
    && ps.msgBuf == None
    && if ps.argBuf == None then ps.start + ps.drop <= i <= |buf| && m.line == buf[ps.start..i - ps.drop]
       else Collected(ps.argBuf.value, ps.scratch) && Deref(ps.argBuf.value, buf, ps.scratch) == m.line
  }

  ghost predicate HeaderHeld(ps: ParseState, buf: Bytes, i: nat, m: Machine) {
    && ps.ma.sid == m.header.sid && ps.ma.size == m.header.size
    && Shows(ps, ps.ma.subject, m.header.subject, buf, i)
    && (if ps.ma.reply.Some? then Shows(ps, ps.ma.reply.value, m.header.reply, buf, i) else m.header.reply == "")
    && |m.header.subject| + |m.header.reply| <= |m.line|
    && (ps.argBuf.Some? ==>
      Collected(ps.argBuf.value, ps.scratch) && |Deref(ps.argBuf.value, buf, ps.scratch)| <= |m.line|)
  }

  ghost predicate PayloadHeld(ps: ParseState, buf: Bytes, i: nat, m: Machine) {
    && |m.payload| <= m.header.size
    && match ps.msgBuf
       case None => ps.start <= i <= |buf| && m.payload == buf[ps.start..i]
       case Some(s) =>
         && ps.argBuf.Some?
         && Deref(s, buf, ps.scratch) == m.payload
         && match s
            case InBuf(_, _) => false
            case InScratch(lo, hi) =>
              ps.argBuf.value.InScratch? && ps.argBuf.value.hi <= lo <= hi <= |ps.scratch|
            case Own(_) => true
  }

  /** The parser, `i` bytes into the read `buf`, stands for the machine `m`. */
  ghost predicate Rep(ps: ParseState, buf: Bytes, i: nat, m: Machine) {
    && ps.st == m.st && ps.log == m.log && |ps.scratch| == MAX_CONTROL_LINE_SIZE
    && ps.drop == (if m.cr then 1 else 0)
    && (m.cr ==> InArg(m.st))
    && (InArg(m.st) ==> ArgHeld(ps, buf, i, m))
    && (m.st == MsgPayload ==> HeaderHeld(ps, buf, i, m) && PayloadHeld(ps, buf, i, m))
    && (!InArg(m.st) && m.st != MsgPayload ==> ps.argBuf == None && ps.msgBuf == None)
  }

  /** A carriage return inside an argument is followed by the line feed. */
  predicate NoStrayCr(m: Machine, b: char) {
    InArg(m.st) && m.cr ==> b == '\n'
  }

  ghost predicate Agrees(o: Outcome, r: Result, buf: Bytes, i: nat) {
    match r
    case Go(m) => o.Continue? && Rep(o.ps, buf, i, m)
    case Fail(log) => o == ParseError(log)
  }

  /** `append` shows the longer text, and leaves the scratch area in front of it alone. */
  lemma AppendShows(s: Slice, bytes: Bytes, buf: Bytes, scratch: Bytes)
    requires !s.InBuf? && (s.InScratch? ==> s.lo <= s.hi <= |scratch|)
    ensures var r := Append(s, bytes, buf, scratch);
            && Deref(r.0, buf, r.1) == Deref(s, buf, scratch) + bytes
            && |r.1| == |scratch|
            && (if s.InScratch? then r.1[..s.hi] == scratch[..s.hi] else r.1 == scratch)
            && (r.0.InScratch? ==> s.InScratch? && r.0.lo == s.lo && r.0.hi == s.hi + |bytes| <= |scratch|)
            && (r.0.Own? && s.InScratch? ==> s.hi + |bytes| > |scratch|)
            && !r.0.InBuf?
  {
  }

  /** Slices of the front of the scratch area show what they showed while that front is left alone. */
  lemma FrontShows(scratch: Bytes, later: Bytes, n: nat, buf: Bytes, next: Bytes)
    requires n <= |scratch| == |later| && later[..n] == scratch[..n]
    ensures forall s: Slice :: s.InScratch? && s.lo <= s.hi <= n ==> Deref(s, next, later) == Deref(s, buf, scratch)
  {
    forall s: Slice | s.InScratch? && s.lo <= s.hi <= n ensures Deref(s, next, later) == Deref(s, buf, scratch) {
      assert later[..n][s.lo..s.hi] == later[s.lo..s.hi];
      assert scratch[..n][s.lo..s.hi] == scratch[s.lo..s.hi];
    }
  }

  lemma SliceOfSlice(s: Bytes, lo: nat, hi: nat, a: nat, b: nat)
    requires lo <= hi <= |s| && a <= b <= hi - lo
    ensures s[lo..hi][a..b] == s[lo + a..lo + b]
  {
    var x, y := s[lo..hi][a..b], s[lo + a..lo + b];
    assert |x| == |y|;
    forall k | 0 <= k < |x| ensures x[k] == y[k] {
      assert x[k] == s[lo..hi][a + k] == s[lo + a + k];
    }
  }

  lemma CutShows(ps: ParseState, arg: Slice, text: Bytes, part: Slice, word: Bytes, buf: Bytes, i: nat)
    requires IsCut(arg, text, part, word) && Deref(arg, buf, ps.scratch) == text && i <= |buf|
    requires match arg
             case InBuf(lo, hi) => ps.argBuf == None && lo <= hi <= i
             case InScratch(lo, hi) => ps.argBuf == Some(arg) && lo <= hi <= |ps.scratch|
             case Own(_) => true
    ensures Shows(ps, part, word, buf, i)
  {
    var span: (nat, nat) :| span.0 <= span.1 <= |text| && part == Sub(arg, span) && word == text[span.0..span.1];
    match arg
    case InBuf(lo, hi) => SliceOfSlice(buf, lo, hi, span.0, span.1);
    case InScratch(lo, hi) => SliceOfSlice(ps.scratch, lo, hi, span.0, span.1);
    case Own(_) =>
  }

  lemma ArgChar(ps: ParseState, buf: Bytes, i: nat, m: Machine)
    requires i < |buf| && Rep(ps, buf, i, m) && InArg(m.st) && buf[i] != '\n'
    requires ps.argBuf.Some? || NoStrayCr(m, buf[i])
    ensures Agrees(OnArg(ps, buf, i), Step(m, buf[i]), buf, i + 1)
  {
    if ps.argBuf.Some? {
      AppendShows(ps.argBuf.value, [buf[i]], buf, ps.scratch);
    } else if buf[i] != '\r' {
      assert buf[ps.start..i + 1] == buf[ps.start..i] + [buf[i]];
    }
  }

  /** The argument that a line feed completes. */
  ghost function ArgSlice(ps: ParseState, i: nat): Slice
    requires ps.argBuf == None ==> ps.drop <= i
  {
    if ps.argBuf.Some? then ps.argBuf.value else InBuf(ps.start, i - ps.drop)
  }

  lemma MsgArgEnds(ps: ParseState, buf: Bytes, i: nat, m: Machine)
    requires i < |buf| && Rep(ps, buf, i, m) && m.st == MsgArg && buf[i] == '\n'
    ensures Agrees(OnArg(ps, buf, i), Step(m, buf[i]), buf, i + 1)
  {
    hide ProcessMsgArgs, ParseHeader, IsCut, Shows, HeaderHeld, PayloadHeld;
    var arg := ArgSlice(ps, i);
    assert Deref(arg, buf, ps.scratch) == m.line;
    ProcessMsgArgsIsParseHeader(arg, m.line);
    var h, ma := ParseHeader(m.line), ProcessMsgArgs(arg, m.line);
    if h.Some? {
      var ps' := ps.(drop := 0, start := i + 1, st := MsgPayload, ma := ma.value);
      CutShows(ps', arg, m.line, ma.value.subject, h.value.subject, buf, i + 1);
      if ma.value.reply.Some? {
        CutShows(ps', arg, m.line, ma.value.reply.value, h.value.reply, buf, i + 1);
      }
      BodyBegins(ps', buf, i + 1, m.(st := MsgPayload, cr := false, header := h.value, payload := ""));
    }
  }

  /** Behind a control line whose parts are shown. */
  lemma BodyBegins(ps: ParseState, buf: Bytes, i: nat, m: Machine)
    requires ps.ma.sid == m.header.sid && ps.ma.size == m.header.size >= 0 && i == ps.start <= |buf|
    requires Shows(ps, ps.ma.subject, m.header.subject, buf, i)
    requires if ps.ma.reply.Some? then Shows(ps, ps.ma.reply.value, m.header.reply, buf, i) else m.header.reply == ""
    requires |m.header.subject| + |m.header.reply| <= |m.line| && ps.msgBuf == None && m.payload == ""
    requires ps.argBuf.Some? ==>
      Collected(ps.argBuf.value, ps.scratch) && |Deref(ps.argBuf.value, buf, ps.scratch)| <= |m.line|
    ensures HeaderHeld(ps, buf, i, m) && PayloadHeld(ps, buf, i, m)
  {
    hide Shows;
  }

  lemma ErrArgEnds(ps: ParseState, buf: Bytes, i: nat, m: Machine)
    requires i < |buf| && Rep(ps, buf, i, m) && m.st == MinusErrArg && buf[i] == '\n'
    ensures Agrees(OnArg(ps, buf, i), Step(m, buf[i]), buf, i + 1)
  {
    hide ProcessMsgArgs, ParseHeader, Shows;
    assert Deref(ArgSlice(ps, i), buf, ps.scratch) == m.line;
  }

  lemma PayloadByte(ps: ParseState, buf: Bytes, i: nat, m: Machine)
    requires i < |buf| && Rep(ps, buf, i, m) && m.st == MsgPayload
    ensures Agrees(OnPayload(ps, buf, i), Step(m, buf[i]), buf, i + 1)
  {
    hide Append;
    if ps.msgBuf.Some? {
      AppendShows(ps.msgBuf.value, [buf[i]], buf, ps.scratch);
      if ps.msgBuf.value.InScratch? {
        var scratch := Append(ps.msgBuf.value, [buf[i]], buf, ps.scratch).1;
        FrontShows(ps.scratch, scratch, ps.msgBuf.value.hi, buf, buf);
      } else {
        assert Append(ps.msgBuf.value, [buf[i]], buf, ps.scratch).1 == ps.scratch;
      }
    } else {
      assert buf[ps.start..i + 1] == buf[ps.start..i] + [buf[i]];
    }
  }

  /** A stray carriage return does no harm once the argument has left the read buffer. */
  lemma ByteRefines(ps: ParseState, buf: Bytes, i: nat, m: Machine)
    requires i < |buf| && Rep(ps, buf, i, m) && (ps.argBuf.Some? || NoStrayCr(m, buf[i]))
    ensures Agrees(OnByte(ps, buf, i), Step(m, buf[i]), buf, i + 1)
  {
    hide OnArg, OnPayload, HeaderHeld, PayloadHeld, ParseHeader, ProcessMsgArgs;
    if InArg(m.st) {
      if buf[i] == '\n' {
        if m.st == MsgArg {
          MsgArgEnds(ps, buf, i, m);
        } else {
          ErrArgEnds(ps, buf, i, m);
        }
      } else {
        ArgChar(ps, buf, i, m);
      }
    } else if m.st == MsgPayload {
      PayloadByte(ps, buf, i, m);
    }
  }

  // ---------- The end of a read ----------

  /** Nothing is left in the read buffer: the parser stands for `m` whatever is read next. */
  ghost predicate Settled(ps: ParseState, m: Machine) {
    && Rep(ps, "", 0, m)
    && (InArg(m.st) ==> ps.argBuf.Some?)
    && (m.st == MsgPayload ==> ps.msgBuf.Some?)
  }

  lemma SettledForAnyRead(ps: ParseState, m: Machine, buf: Bytes)
    requires Settled(ps, m)
    ensures Rep(ps, buf, 0, m)
  {
  }

  /** The control line of the message being read has at most `limit` bytes; the scratch area holds that many. */
  predicate Short(m: Machine, limit: nat := MAX_CONTROL_LINE_SIZE) {
    m.st == MsgPayload ==> |m.line| <= limit
  }

  /** The clone lies at the front of the scratch area: the subject, then the reply. */
  lemma CloneIs(ps: ParseState, buf: Bytes, m: Machine)
    requires Rep(ps, buf, |buf|, m) && m.st == MsgPayload && ps.argBuf == None && Short(m)
    ensures var s, n := |m.header.subject|, |m.header.subject| + |m.header.reply|;
            var ps' := CloneMsgArg(ps, buf);
            && ps' == ps.(argBuf := Some(InScratch(0, n)), scratch := ps'.scratch,
                          ma := ps.ma.(subject := InScratch(0, s),
                                       reply := if ps.ma.reply.Some? then Some(InScratch(s, n)) else None))
            && |ps'.scratch| == |ps.scratch|
            && ps'.scratch[..s] == m.header.subject && ps'.scratch[s..n] == m.header.reply
  {
    var subject, reply := m.header.subject, m.header.reply;
    var scratch := Append(InScratch(0, 0), subject, buf, ps.scratch).1;
    assert scratch == subject + ps.scratch[|subject|..];
    var later := Append(InScratch(0, |subject|), reply, buf, scratch).1;
    assert later == subject + reply + scratch[|subject| + |reply|..];
  }

  lemma CloneSaves(ps: ParseState, buf: Bytes, m: Machine)
    requires Rep(ps, buf, |buf|, m) && m.st == MsgPayload && ps.argBuf == None && Short(m)
    ensures var ps' := CloneMsgArg(ps, buf);
            && Rep(ps', buf, |buf|, m)
            && ps'.argBuf.Some? && ps'.msgBuf == None && ps'.start == ps.start
  {
    hide CloneMsgArg;
    CloneIs(ps, buf, m);
  }

  /** Saving the payload behind the collected arguments leaves subject and reply as they are. */
  lemma PayloadSaved(ps: ParseState, buf: Bytes, m: Machine)
    requires Rep(ps, buf, |buf|, m) && m.st == MsgPayload && ps.argBuf.Some? && ps.msgBuf == None && Short(m)
    ensures var n := |Deref(ps.argBuf.value, buf, ps.scratch)|;
            var (s, scratch) := Append(InScratch(n, n), m.payload, buf, ps.scratch);
            Settled(ps.(msgBuf := Some(s), scratch := scratch), m)
  {
    hide Append;
    var n := |Deref(ps.argBuf.value, buf, ps.scratch)|;
    AppendShows(InScratch(n, n), m.payload, buf, ps.scratch);
    var scratch := Append(InScratch(n, n), m.payload, buf, ps.scratch).1;
    FrontShows(ps.scratch, scratch, n, buf, "");
  }

  lemma EndRefines(ps: ParseState, buf: Bytes, m: Machine)
    requires Rep(ps, buf, |buf|, m) && Short(m)
    ensures EndOfRead(ps, buf).Continue? && Settled(EndOfRead(ps, buf).ps, m)
  {
    hide Append, CloneMsgArg;
    if InArg(m.st) && ps.argBuf == None {
      AppendShows(InScratch(0, 0), m.line, buf, ps.scratch);
    } else if m.st == MsgPayload && ps.msgBuf == None {
      if ps.argBuf == None {
        CloneSaves(ps, buf, m);
      }
      PayloadSaved(if ps.argBuf == None then CloneMsgArg(ps, buf) else ps, buf, m);
      assert buf[ps.start..] == m.payload;
    }
  }

  // ---------- Whole streams ----------

  /** From `m` on, a stream has no stray carriage return in an argument. */
  ghost predicate Clean(m: Machine, bytes: Bytes)
    decreases |bytes|
  {
    bytes == [] ||
    (NoStrayCr(m, bytes[0]) && (Step(m, bytes[0]).Go? ==> Clean(Step(m, bytes[0]).m, bytes[1..])))
  }

  /** From `m` on, the control line of every message is short. */
  ghost predicate ShortLines(m: Machine, bytes: Bytes, limit: nat := MAX_CONTROL_LINE_SIZE)
    decreases |bytes|
  {
    Short(m, limit) && (bytes != [] && Step(m, bytes[0]).Go? ==> ShortLines(Step(m, bytes[0]).m, bytes[1..], limit))
  }

  /** The bytes `i..j` of a read; what is not saved yet stays unsaved. */
  lemma {:induction false} ReadReaches(ps: ParseState, buf: Bytes, i: nat, j: nat, m: Machine)
    returns (last: ParseState)
    requires i <= j <= |buf| && Rep(ps, buf, i, m) && Clean(m, buf[i..j]) && Run(m, buf[i..j]).Go?
    ensures Rep(last, buf, j, Run(m, buf[i..j]).m) && ParseFrom(ps, buf, i) == ParseFrom(last, buf, j)
    ensures ps.argBuf == None && ps.msgBuf == None ==> last.argBuf == None && last.msgBuf == None
    decreases j - i
  {
    hide OnByte, Step, EndOfRead, Rep;
    if i == j {
      last := ps;
    } else {
      ByteRefines(ps, buf, i, m);
      if ps.argBuf == None && ps.msgBuf == None {
        ByteSavesNothing(ps, buf, i);
      }
      assert buf[i..j][1..] == buf[i + 1..j];
      last := ReadReaches(OnByte(ps, buf, i).ps, buf, i + 1, j, Step(m, buf[i]).m);
    }
  }

  /** Only the end of a read starts a saved argument or a saved payload. */
  lemma ByteSavesNothing(ps: ParseState, buf: Bytes, i: nat)
    requires i < |buf| && ps.argBuf == None && ps.msgBuf == None && OnByte(ps, buf, i).Continue?
    ensures OnByte(ps, buf, i).ps.argBuf == None && OnByte(ps, buf, i).ps.msgBuf == None
  {
    hide ProcessMsgArgs, Deref, Letter;
  }

  /** The rest of a read, from byte `i`. */
  lemma {:induction false} ReadRefines(ps: ParseState, buf: Bytes, i: nat, m: Machine)
    requires i <= |buf| && Rep(ps, buf, i, m) && Clean(m, buf[i..])
    requires Run(m, buf[i..]).Go? ==> Short(Run(m, buf[i..]).m)
    ensures match Run(m, buf[i..])
            case Go(m') => ParseFrom(ps, buf, i).Continue? && Settled(ParseFrom(ps, buf, i).ps, m')
            case Fail(log) => ParseFrom(ps, buf, i) == ParseError(log)
    decreases |buf| - i
  {
    hide OnByte, Step, EndOfRead, Rep, Settled;
    if i == |buf| {
      EndRefines(ps, buf, m);
    } else {
      ByteRefines(ps, buf, i, m);
      assert buf[i..][1..] == buf[i + 1..];
      if Step(m, buf[i]).Go? {
        ReadRefines(OnByte(ps, buf, i).ps, buf, i + 1, Step(m, buf[i]).m);
      }
    }
  }

  ghost function Joined(chunks: seq<Bytes>): Bytes {
    if chunks == [] then "" else chunks[0] + Joined(chunks[1..])
  }

  lemma {:induction false} CleanPrefix(m: Machine, a: Bytes, b: Bytes)
    requires Clean(m, a + b) && ShortLines(m, a + b)
    ensures Clean(m, a)
    ensures Run(m, a).Go? ==>
              Short(Run(m, a).m) && Clean(Run(m, a).m, b) && ShortLines(Run(m, a).m, b)
    decreases |a|
  {
    hide Step;
    if a == [] {
      assert a + b == b;
    } else {
      assert (a + b)[1..] == a[1..] + b;
      if Step(m, a[0]).Go? {
        CleanPrefix(Step(m, a[0]).m, a[1..], b);
      }
    }
  }

  /** However a clean stream is cut into reads, the parser hands over what the stream means. */
  lemma {:induction false} AnyCutRefines(ps: ParseState, m: Machine, chunks: seq<Bytes>)
    requires Settled(ps, m) && Clean(m, Joined(chunks)) && ShortLines(m, Joined(chunks))
    ensures match Run(m, Joined(chunks))
            case Go(m') => ParseAll(ps, chunks).Continue? && Settled(ParseAll(ps, chunks).ps, m')
            case Fail(log) => ParseAll(ps, chunks) == ParseError(log)
    decreases |chunks|
  {
    hide Step, Settled, Rep, ParseFrom;
    if chunks != [] {
      var first, rest := chunks[0], Joined(chunks[1..]);
      CleanPrefix(m, first, rest);
      RunConcat(m, first, rest);
      SettledForAnyRead(ps, m, first);
      assert first[0..] == first;
      ReadRefines(ps, first, 0, m);
      if Run(m, first).Go? {
        AnyCutRefines(Parse(ps, first).ps, Run(m, first).m, chunks[1..]);
      }
    }
  }

  lemma NewIsSettled()
    ensures Settled(NEW, START)
  {
  }

  ghost function Handed(o: Outcome): seq<Event>
    requires !o.Panic?
  {
    if o.Continue? then o.ps.log else o.log
  }

  /** The same events, the same verdict, the same state to go on from. */
  ghost predicate Alike(a: Outcome, b: Outcome) {
    && !a.Panic? && !b.Panic? && Handed(a) == Handed(b)
    && (a.Continue? <==> b.Continue?)
    && (a.Continue? ==> exists m :: Settled(a.ps, m) && Settled(b.ps, m))
  }

  /** Two ways of cutting one stream. */
  lemma CutsDoNotMatter(chunks: seq<Bytes>, others: seq<Bytes>)
    requires Joined(chunks) == Joined(others)
    requires Clean(START, Joined(chunks)) && ShortLines(START, Joined(chunks))
    ensures Alike(ParseAll(NEW, chunks), ParseAll(NEW, others))
  {
    hide Clean, ShortLines, ParseAll, Joined, Settled;
    NewIsSettled();
    CutsDoNotMatterFrom(NEW, START, chunks, others);
  }

  lemma CutsDoNotMatterFrom(ps: ParseState, m: Machine, chunks: seq<Bytes>, others: seq<Bytes>)
    requires Settled(ps, m) && Joined(chunks) == Joined(others)
    requires Clean(m, Joined(chunks)) && ShortLines(m, Joined(chunks))
    ensures Alike(ParseAll(ps, chunks), ParseAll(ps, others))
  {
    hide Settled, Step, Run, Clean, ShortLines, ParseAll;
    AnyCutRefines(ps, m, chunks);
    AnyCutRefines(ps, m, others);
    var r := Run(m, Joined(chunks));
    if r.Go? {
      SettledLog(ParseAll(ps, chunks).ps, r.m);
      SettledLog(ParseAll(ps, others).ps, r.m);
    }
  }

  lemma SettledLog(ps: ParseState, m: Machine)
    requires Settled(ps, m)
    ensures ps.log == m.log
  {
  }

  /** A stream read at once needs no bound on its control lines if it does not end inside a payload. */
  lemma OneReadRefines(stream: Bytes)
    requires Clean(START, stream)
    requires Run(START, stream).Go? ==> Short(Run(START, stream).m)
    ensures var o := Parse(NEW, stream);
            match Run(START, stream)
            case Go(m) => o.Continue? && o.ps.log == m.log && o.ps.st == m.st
            case Fail(log) => o == ParseError(log)
  {
    NewIsSettled();
    SettledForAnyRead(NEW, START, stream);
    assert stream[0..] == stream;
    ReadRefines(NEW, stream, 0, START);
  }

  /** The end of a read panics exactly when it must save a payload behind more than the scratch area holds. */
  lemma EndPanicsIff(ps: ParseState, buf: Bytes, m: Machine)
    requires Rep(ps, buf, |buf|, m)
    ensures EndOfRead(ps, buf) == Panic <==>
              && m.st == MsgPayload && ps.msgBuf == None
              && MAX_CONTROL_LINE_SIZE <
                 if ps.argBuf == None then |m.header.subject| + |m.header.reply|
                 else |Deref(ps.argBuf.value, buf, ps.scratch)|
  {
    hide Append;
    if m.st == MsgPayload && ps.msgBuf == None && ps.argBuf == None {
      AppendShows(InScratch(0, 0), m.header.subject, buf, ps.scratch);
      var (a, scratch) := Append(InScratch(0, 0), m.header.subject, buf, ps.scratch);
      AppendShows(a, m.header.reply, buf, scratch);
    }
  }

  lemma AtTheEnd(ps: ParseState, buf: Bytes)
    ensures ParseFrom(ps, buf, |buf|) == EndOfRead(ps, buf)
  {
  }

  /** A stream read at once panics exactly when it ends in a message with too long a subject and reply. */
  lemma OneReadPanicsIff(stream: Bytes)
    requires Clean(START, stream)
    ensures Parse(NEW, stream) == Panic <==>
            match Run(START, stream)
            case Go(m) => m.st == MsgPayload && |m.header.subject| + |m.header.reply| > MAX_CONTROL_LINE_SIZE
            case Fail(_) => false
  {
    hide Rep, Run, Clean, ParseFrom, EndOfRead;
    NewIsSettled();
    SettledForAnyRead(NEW, START, stream);
    assert stream[0..] == stream && stream[0..|stream|] == stream;
    if Run(START, stream).Go? {
      var last := ReadReaches(NEW, stream, 0, |stream|, START);
      assert ParseFrom(last, stream, |stream|) == EndOfRead(last, stream) by { AtTheEnd(last, stream); }
      EndPanicsIff(last, stream, Run(START, stream).m);
    } else {
      ReadRefines(NEW, stream, 0, START);
    }
  }
}
