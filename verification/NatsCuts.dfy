/** Control lines with stray carriage returns: exactly when it matters where they are cut. */
module NatsCuts {
  import opened Options
  import opened NatsSpec
  import opened NatsParser
  import opened NatsRefinement
  import opened NatsPackets

  /** `text` without its carriage returns. */
  function NoCr(text: Bytes): (r: Bytes)
    ensures '\r' !in r && |r| <= |text|
    ensures '\r' !in text ==> r == text
  {
    if text == [] then [] else NoCr(text[..|text| - 1]) + (if text[|text| - 1] == '\r' then [] else [text[|text| - 1]])
  }

  /** An argument from its first byte up to the line feed. */
  predicate ArgText(text: Bytes) {
    text != "" && !Blank(text[0]) && '\n' !in text[1..]
  }

  /** How many bytes the parser leaves off at the end when the first read has got to `p`. */
  function Dropped(text: Bytes, p: nat): (d: nat)
    requires 1 <= p <= |text|
    ensures d < p
  {
    if '\r' in text[1..p] then 1 else 0
  }

  /** The argument the parser sees when the read it begins in ends at `p`. */
  function SeenArg(text: Bytes, p: nat): Bytes
    requires 1 <= p <= |text|
  {
    text[..p - Dropped(text, p)] + NoCr(text[p..])
  }

  predicate Waiting(st: St) {
    st == OpMsgSpc || st == OpMinusErrSpc
  }

  /** The machine whose line is what the parser has seen of `text` after `p` and then `q` bytes. */
  function Seen(m: Machine, text: Bytes, p: nat, q: nat): Machine
    requires Waiting(m.st) && 1 <= p <= q <= |text|
  {
    m.(st := if m.st == OpMsgSpc then MsgArg else MinusErrArg,
       line := text[..p - Dropped(text, p)] + NoCr(text[p..q]),
       cr := '\r' in text[1..q])
  }

  // ---------- The read in which the argument begins ----------

  lemma {:induction false} FirstRead(ps: ParseState, m: Machine, buf: Bytes, o: nat, j: nat) returns (last: ParseState)
    requires Waiting(m.st) && o < j <= |buf| && Rep(ps, buf, o, m) && ArgText(buf[o..j])
    ensures Rep(last, buf, j, Seen(m, buf[o..j], j - o, j - o)) && last.argBuf == None && last.start == o
    ensures ParseFrom(ps, buf, o) == ParseFrom(last, buf, j)
    decreases j
  {
    hide Rep, OnByte, Seen, EndOfRead;
    if j == o + 1 {
      FirstByte(ps, m, buf, o);
      last := OnByte(ps, buf, o).ps;
    } else {
      assert buf[o..j][1..] == buf[o..j - 1][1..] + [buf[j - 1]];
      var before := FirstRead(ps, m, buf, o, j - 1);
      NextByte(before, m, buf, o, j);
      last := OnByte(before, buf, j - 1).ps;
    }
  }

  lemma FirstByte(ps: ParseState, m: Machine, buf: Bytes, o: nat)
    requires Waiting(m.st) && o < |buf| && Rep(ps, buf, o, m) && !Blank(buf[o])
    ensures OnByte(ps, buf, o).Continue?
    ensures var last := OnByte(ps, buf, o).ps;
            Rep(last, buf, o + 1, Seen(m, buf[o..o + 1], 1, 1)) && last.argBuf == None && last.start == o
  {
    hide NoCr;
    var text := buf[o..o + 1];
    assert text == [buf[o]] && text[1..1] == "" && NoCr(text[1..1]) == "";
    assert text[..1] + "" == text;
  }

  lemma NextByte(before: ParseState, m: Machine, buf: Bytes, o: nat, j: nat)
    requires Waiting(m.st) && o + 2 <= j <= |buf| && buf[j - 1] != '\n' && before.start == o
    requires Rep(before, buf, j - 1, Seen(m, buf[o..j - 1], j - 1 - o, j - 1 - o)) && before.argBuf == None
    ensures OnByte(before, buf, j - 1).Continue?
    ensures var last := OnByte(before, buf, j - 1).ps;
            Rep(last, buf, j, Seen(m, buf[o..j], j - o, j - o)) && last.argBuf == None && last.start == o
  {
    hide NoCr, Seen, Dropped, Rep, OnByte;
    var n := j - o;
    var a, b := buf[o..j - 1], buf[o..j];
    SeenFirst(m, a);
    SeenFirst(m, b);
    assert b == a + [buf[j - 1]];
    DroppedNext(a, buf[j - 1]);
    var d := Dropped(b, n);
    SliceOfSlice(buf, o, j, 0, n - d);
    assert b[..n - d] == b[0..n - d] == buf[o..j - d];
    ArgByte(before, buf, j, Seen(m, a, n - 1, n - 1), Seen(m, b, n, n), d);
  }

  /** What has been seen when the first read has got to the end of `text`. */
  lemma SeenFirst(m: Machine, text: Bytes)
    requires Waiting(m.st) && text != ""
    ensures var n, d := |text|, Dropped(text, |text|);
            d <= 1 && Seen(m, text, n, n) == m.(st := if m.st == OpMsgSpc then MsgArg else MinusErrArg,
                                                line := text[..n - d], cr := d == 1)
  {
    hide NoCr;
    var n := |text|;
    assert text[n..n] == "" && NoCr("") == "";
    assert text[..n - Dropped(text, n)] + "" == text[..n - Dropped(text, n)];
  }

  lemma DroppedNext(text: Bytes, b: char)
    requires text != ""
    ensures Dropped(text + [b], |text| + 1) == if b == '\r' || Dropped(text, |text|) == 1 then 1 else 0
  {
    assert (text + [b])[1..|text| + 1] == text[1..|text|] + [b];
  }

  /** One more byte of an argument that is still in the read buffer. */
  lemma ArgByte(before: ParseState, buf: Bytes, j: nat, m: Machine, m': Machine, d: nat)
    requires 1 <= j <= |buf| && Rep(before, buf, j - 1, m) && InArg(m.st) && before.argBuf == None && buf[j - 1] != '\n'
    requires d <= 1 && before.start + d <= j && (d == 1 <==> buf[j - 1] == '\r' || m.cr)
    requires m' == m.(line := buf[before.start..j - d], cr := d == 1)
    ensures OnByte(before, buf, j - 1).Continue?
    ensures var last := OnByte(before, buf, j - 1).ps;
            Rep(last, buf, j, m') && last.argBuf == None && last.start == before.start
  {
  }

  // ---------- Later reads ----------

  lemma {:induction false} NoCrConcat(a: Bytes, b: Bytes)
    ensures NoCr(a + b) == NoCr(a) + NoCr(b)
    decreases |b|
  {
    if b == [] {
      assert a + b == a;
    } else {
      assert (a + b)[..|a + b| - 1] == a + b[..|b| - 1];
      NoCrConcat(a, b[..|b| - 1]);
    }
  }

  /** More of an argument that has left the read buffer. */
  function Held(m: Machine, more: Bytes): Machine {
    m.(line := m.line + NoCr(more), cr := m.cr || '\r' in more)
  }

  lemma {:induction false} HeldRead(ps: ParseState, m: Machine, buf: Bytes, j: nat) returns (last: ParseState)
    requires Settled(ps, m) && InArg(m.st) && j <= |buf| && '\n' !in buf[..j]
    ensures Rep(last, buf, j, Held(m, buf[..j])) && last.argBuf.Some?
    ensures ParseFrom(ps, buf, 0) == ParseFrom(last, buf, j)
    decreases j
  {
    hide Rep, OnByte, NoCr;
    if j == 0 {
      last := ps;
      SettledForAnyRead(ps, m, buf);
      assert Held(m, buf[..0]) == m by { HeldNothing(m, buf[..0]); }
    } else {
      assert buf[..j] == buf[..j - 1] + [buf[j - 1]];
      var before := HeldRead(ps, m, buf, j - 1);
      ByteRefines(before, buf, j - 1, Held(m, buf[..j - 1]));
      StillHeld(before, buf, j - 1, Held(m, buf[..j - 1]));
      HeldByte(m, buf[..j - 1], buf[j - 1]);
      last := OnByte(before, buf, j - 1).ps;
    }
  }

  lemma HeldNothing(m: Machine, none: Bytes)
    requires none == ""
    ensures Held(m, none) == m
  {
    assert m.line + [] == m.line;
  }

  lemma HeldByte(m: Machine, more: Bytes, b: char)
    requires InArg(m.st) && b != '\n'
    ensures Step(Held(m, more), b) == Go(Held(m, more + [b]))
  {
    hide NoCr;
    assert NoCr([b]) == if b == '\r' then [] else [b] by { NoCrOne(b); }
    NoCrConcat(more, [b]);
    assert m.line + NoCr(more) + [] == m.line + NoCr(more);
    assert m.line + (NoCr(more) + NoCr([b])) == m.line + NoCr(more) + NoCr([b]);
  }

  lemma NoCrOne(b: char)
    ensures NoCr([b]) == if b == '\r' then [] else [b]
  {
  }

  lemma StillHeld(ps: ParseState, buf: Bytes, i: nat, m: Machine)
    requires i < |buf| && Rep(ps, buf, i, m) && InArg(m.st) && ps.argBuf.Some? && buf[i] != '\n'
    ensures OnByte(ps, buf, i).Continue? && OnByte(ps, buf, i).ps.argBuf.Some?
  {
  }

  // ---------- Whole lines ----------

  /** The parser did what the machine did. */
  ghost predicate Meets(o: Outcome, r: Result) {
    match r
    case Go(m) => o.Continue? && Settled(o.ps, m)
    case Fail(log) => o == ParseError(log)
  }

  /** The line feed at the end of a read. */
  lemma LineFeed(ps: ParseState, m: Machine, buf: Bytes)
    requires |buf| > 0 && Rep(ps, buf, |buf| - 1, m) && InArg(m.st) && buf[|buf| - 1] == '\n'
    requires Step(m, '\n').Go? ==> Short(Step(m, '\n').m)
    ensures Meets(ParseFrom(ps, buf, |buf| - 1), Step(m, '\n'))
  {
    hide Rep, OnByte, EndOfRead, Settled;
    ByteRefines(ps, buf, |buf| - 1, m);
    if Step(m, '\n').Go? {
      EndRefines(OnByte(ps, buf, |buf| - 1).ps, buf, Step(m, '\n').m);
    }
  }

  /** Behind a message line that was saved and is too long, there is no room to save the payload. */
  lemma LongLineFeed(ps: ParseState, m: Machine, buf: Bytes)
    requires |buf| > 0 && Rep(ps, buf, |buf| - 1, m) && m.st == MsgArg && buf[|buf| - 1] == '\n' && ps.argBuf.Some?
    requires Step(m, '\n').Go? && |m.line| > MAX_CONTROL_LINE_SIZE
    ensures ParseFrom(ps, buf, |buf| - 1) == Panic
  {
    hide Rep, EndOfRead, ParseHeader, ProcessMsgArgs;
    ByteRefines(ps, buf, |buf| - 1, m);
    var last := OnByte(ps, buf, |buf| - 1).ps;
    LineKept(ps, m, buf);
    EndPanicsIff(last, buf, Step(m, '\n').m);
    AtTheEnd(last, buf);
  }

  lemma LineKept(ps: ParseState, m: Machine, buf: Bytes)
    requires |buf| > 0 && Rep(ps, buf, |buf| - 1, m) && m.st == MsgArg && buf[|buf| - 1] == '\n' && ps.argBuf.Some?
    requires OnByte(ps, buf, |buf| - 1).Continue?
    ensures var last := OnByte(ps, buf, |buf| - 1).ps;
            last.msgBuf == None && last.argBuf.Some? && Deref(last.argBuf.value, buf, last.scratch) == m.line
  {
    hide ProcessMsgArgs;
  }

  /** The reads after the first one. */
  function Onward(o: Outcome, rest: seq<Bytes>): Outcome {
    if o.Continue? then ParseAll(o.ps, rest) else o
  }

  /** Reads of nothing change nothing. */
  lemma NothingMore(o: Outcome, r: Result, rest: seq<Bytes>)
    requires Meets(o, r) && Joined(rest) == "" && (r.Go? ==> Short(r.m))
    ensures Meets(Onward(o, rest), r)
  {
    hide Settled, ParseAll, Joined;
    if r.Go? {
      AnyCutRefines(o.ps, r.m, rest);
    }
  }

  /** What the parser makes of the line if it sees the argument cut at `p`. */
  function Verdict(m: Machine, text: Bytes, p: nat): Result
    requires Waiting(m.st) && 1 <= p <= |text|
  {
    Step(Seen(m, text, p, |text|), '\n')
  }

  /** No message line of that length is left to be saved. */
  predicate Safe(m: Machine, text: Bytes, p: nat)
    requires Waiting(m.st) && 1 <= p <= |text|
  {
    Verdict(m, text, p).Go? ==> Short(Verdict(m, text, p).m)
  }

  lemma SeenMore(m: Machine, text: Bytes, p: nat, q: nat, q': nat)
    requires Waiting(m.st) && 1 <= p <= q <= q' <= |text|
    ensures Held(Seen(m, text, p, q), text[q..q']) == Seen(m, text, p, q')
  {
    hide NoCr;
    assert text[p..q'] == text[p..q] + text[q..q'];
    assert text[1..q'] == text[1..q] + text[q..q'];
    NoCrConcat(text[p..q], text[q..q']);
    var front := text[..p - Dropped(text, p)];
    assert front + NoCr(text[p..q]) + NoCr(text[q..q']) == front + NoCr(text[p..q']);
  }

  lemma {:induction false} LaterReads(ps: ParseState, m: Machine, text: Bytes, p: nat, q: nat, chunks: seq<Bytes>)
    requires Waiting(m.st) && 1 <= p <= q <= |text| && ArgText(text) && Safe(m, text, p)
    requires Settled(ps, Seen(m, text, p, q)) && Joined(chunks) == text[q..] + "\n"
    ensures Meets(ParseAll(ps, chunks), Verdict(m, text, p))
    decreases |chunks|
  {
    hide Settled, Rep, Seen, Step, ParseFrom, Meets;
    var c, rest := chunks[0], Joined(chunks[1..]);
    assert c + rest == text[q..] + "\n";
    if |c| <= |text| - q {
      CutLine(text, q, c, rest);
      LaterRead(ps, m, text, p, q, c);
      LaterReads(Parse(ps, c).ps, m, text, p, q + |c|, chunks[1..]);
    } else {
      LastCut(text, q, c, rest);
      LaterEnd(ps, m, text, p, q, c);
      NothingMore(Parse(ps, c), Verdict(m, text, p), chunks[1..]);
      MeetsCases(Parse(ps, c), Verdict(m, text, p));
    }
  }

  lemma MeetsCases(o: Outcome, r: Result)
    requires Meets(o, r)
    ensures !o.Panic?
  {
  }

  lemma CutLine(text: Bytes, q: nat, c: Bytes, rest: Bytes)
    requires q <= |text| && c + rest == text[q..] + "\n" && |c| <= |text| - q
    ensures c == text[q..q + |c|] && rest == text[q + |c|..] + "\n"
  {
    var all := text[q..] + "\n";
    assert c == (c + rest)[..|c|] == all[..|c|] == text[q..q + |c|];
    assert rest == (c + rest)[|c|..] == all[|c|..] == text[q + |c|..] + "\n";
  }

  lemma LastCut(text: Bytes, q: nat, c: Bytes, rest: Bytes)
    requires q <= |text| && c + rest == text[q..] + "\n" && |c| > |text| - q
    ensures c == text[q..] + "\n" && rest == ""
  {
    assert |c| + |rest| == |text| - q + 1;
    assert rest == [];
    assert c + [] == c;
  }

  lemma PlainPart(text: Bytes, p: nat, q: nat)
    requires ArgText(text) && 1 <= p <= q <= |text|
    ensures '\n' !in text[p..q]
  {
    assert forall i :: p <= i < q ==> text[i] == text[1..][i - 1];
  }

  lemma LaterRead(ps: ParseState, m: Machine, text: Bytes, p: nat, q: nat, c: Bytes)
    requires Waiting(m.st) && 1 <= p <= q <= q + |c| <= |text| && ArgText(text) && c == text[q..q + |c|]
    requires Settled(ps, Seen(m, text, p, q))
    ensures Parse(ps, c).Continue? && Settled(Parse(ps, c).ps, Seen(m, text, p, q + |c|))
  {
    hide Settled, Rep, EndOfRead, NoCr;
    PlainPart(text, q, q + |c|);
    assert c[..|c|] == c;
    var last := HeldRead(ps, Seen(m, text, p, q), c, |c|);
    SeenMore(m, text, p, q, q + |c|);
    EndRefines(last, c, Seen(m, text, p, q + |c|));
  }

  lemma LaterEnd(ps: ParseState, m: Machine, text: Bytes, p: nat, q: nat, c: Bytes)
    requires Waiting(m.st) && 1 <= p <= q <= |text| && ArgText(text) && Safe(m, text, p) && c == text[q..] + "\n"
    requires Settled(ps, Seen(m, text, p, q))
    ensures Meets(Parse(ps, c), Verdict(m, text, p))
  {
    hide Settled, Rep, Meets, Step, NoCr;
    PlainPart(text, q, |text|);
    assert c[..|c| - 1] == text[q..|text|] == text[q..];
    var last := HeldRead(ps, Seen(m, text, p, q), c, |c| - 1);
    SeenMore(m, text, p, q, |text|);
    LineFeed(last, Seen(m, text, p, |text|), c);
  }

  lemma SeenShort(text: Bytes, p: nat)
    requires 1 <= p <= |text|
    ensures |SeenArg(text, p)| <= |SeenArg(text, |text|)| <= |text|
  {
    var n := |text|;
    assert text[n..] == "";
    if '\r' in text[1..n] && '\r' !in text[1..p] {
      assert text[1..n] == text[1..p] + text[p..];
      NoCrShorter(text[p..]);
    }
  }

  lemma {:induction false} NoCrShorter(text: Bytes)
    requires '\r' in text
    ensures |NoCr(text)| < |text|
    decreases |text|
  {
    var n := |text| - 1;
    assert text == text[..n] + [text[n]];
    if text[n] != '\r' {
      NoCrShorter(text[..n]);
    }
  }

  /** A clean stream that leads up to an argument. */
  ghost predicate Leading(m: Machine, name: Bytes, named: Machine) {
    Clean(m, name) && ShortLines(m, name) && Run(m, name) == Go(named) && Waiting(named.st)
  }

  /** Where the read in which the argument begins ends, counted from the argument's first byte at `n`. */
  ghost function CutPoint(chunks: seq<Bytes>, n: nat, len: nat): (p: nat)
    requires len >= 1
    ensures 1 <= p <= len
  {
    if chunks == [] then len
    else if |chunks[0]| <= n then CutPoint(chunks[1..], n - |chunks[0]|, len)
    else if |chunks[0]| - n < len then |chunks[0]| - n else len
  }

  /** Of all the places where a line is cut, only the first one inside its argument counts. */
  lemma {:induction false} FirstCutDecides(ps: ParseState, m: Machine, name: Bytes, named: Machine, text: Bytes,
                                           chunks: seq<Bytes>)
    requires Settled(ps, m) && Leading(m, name, named) && ArgText(text) && Joined(chunks) == name + (text + "\n")
    requires Safe(named, text, CutPoint(chunks, |name|, |text|))
    ensures Meets(ParseAll(ps, chunks), Verdict(named, text, CutPoint(chunks, |name|, |text|)))
    decreases |chunks|
  {
    hide Settled, Verdict, Meets, Parse, Clean, ShortLines, Run, Safe;
    var c, rest, line := chunks[0], Joined(chunks[1..]), text + "\n";
    assert c + rest == name + line;
    if |c| <= |name| {
      assert c == name[..|c|] && rest == name[|c|..] + line by { Split(c, rest, name, line); }
      assert name == c + name[|c|..];
      LeadOn(ps, m, c, name[|c|..], named);
      FirstCutDecides(Parse(ps, c).ps, Run(m, c).m, name[|c|..], named, text, chunks[1..]);
    } else {
      assert name == c[..|name|] && line == c[|name|..] + rest by { Split(name, line, c, rest); }
      LeadIn(ps, m, name, named, text, c, rest, chunks[1..]);
    }
  }

  lemma Split(a: Bytes, b: Bytes, c: Bytes, d: Bytes)
    requires a + b == c + d && |a| <= |c|
    ensures a == c[..|a|] && b == c[|a|..] + d
  {
    assert a == (a + b)[..|a|] == (c + d)[..|a|];
    assert b == (a + b)[|a|..] == (c + d)[|a|..] == c[|a|..] + d;
  }

  /** A read that ends before the argument. */
  lemma LeadOn(ps: ParseState, m: Machine, c: Bytes, left: Bytes, named: Machine)
    requires Settled(ps, m) && Leading(m, c + left, named)
    ensures Parse(ps, c).Continue? && Run(m, c).Go?
    ensures Settled(Parse(ps, c).ps, Run(m, c).m) && Leading(Run(m, c).m, left, named)
  {
    hide Settled, Rep, ParseFrom, Run, Clean, ShortLines;
    CleanPrefix(m, c, left);
    RunConcat(m, c, left);
    SettledForAnyRead(ps, m, c);
    assert c[0..] == c;
    ReadRefines(ps, c, 0, m);
  }

  /** The read in which the argument begins, and the reads after it. */
  lemma LeadIn(ps: ParseState, m: Machine, name: Bytes, named: Machine, text: Bytes, c: Bytes, rest: Bytes,
               chunks: seq<Bytes>)
    requires Settled(ps, m) && Leading(m, name, named) && ArgText(text) && Joined(chunks) == rest
    requires |c| > |name| && name == c[..|name|] && text + "\n" == c[|name|..] + rest
    requires Safe(named, text, if |c| - |name| < |text| then |c| - |name| else |text|)
    ensures Meets(Onward(Parse(ps, c), chunks),
                  Verdict(named, text, if |c| - |name| < |text| then |c| - |name| else |text|))
  {
    hide Settled, Rep, Verdict, Meets, ParseFrom, Clean, ShortLines, Run, Safe, ParseAll;
    var o, c' := |name|, c[|name|..];
    var last := NameRead(ps, m, name, named, c);
    assert text[0..] == text;
    if |c'| <= |text| {
      assert c' == text[0..0 + |c'|] && rest == text[|c'|..] + "\n" by { CutLine(text, 0, c', rest); }
      BeginsHere(last, named, c, o, text);
      LaterReads(Parse(ps, c).ps, named, text, |c'|, |c'|, chunks);
    } else {
      assert c' == text + "\n" && rest == "" by { LastCut(text, 0, c', rest); }
      EndsHere(last, named, c, o, text);
      SafeShort(named, text, |text|);
      NothingMore(Parse(ps, c), Verdict(named, text, |text|), chunks);
    }
  }

  lemma SafeShort(m: Machine, text: Bytes, p: nat)
    requires Waiting(m.st) && 1 <= p <= |text| && Safe(m, text, p)
    ensures Verdict(m, text, p).Go? ==> Short(Verdict(m, text, p).m)
  {
  }

  lemma NameRead(ps: ParseState, m: Machine, name: Bytes, named: Machine, c: Bytes) returns (last: ParseState)
    requires Settled(ps, m) && Leading(m, name, named) && |name| <= |c| && name == c[..|name|]
    ensures Rep(last, c, |name|, named) && Parse(ps, c) == ParseFrom(last, c, |name|)
  {
    hide Settled, Rep, ParseFrom, Clean, ShortLines, Run;
    SettledForAnyRead(ps, m, c);
    assert c[0..|name|] == name;
    last := ReadReaches(ps, c, 0, |name|, m);
  }

  lemma BeginsHere(ps: ParseState, m: Machine, c: Bytes, o: nat, text: Bytes)
    requires Waiting(m.st) && o < |c| && Rep(ps, c, o, m)
    requires ArgText(text) && |c| - o <= |text| && c[o..] == text[..|c| - o]
    ensures ParseFrom(ps, c, o).Continue? && Settled(ParseFrom(ps, c, o).ps, Seen(m, text, |c| - o, |c| - o))
  {
    hide Settled, Rep, EndOfRead, NoCr;
    var p := |c| - o;
    assert c[o..|c|] == text[..p];
    assert text[..p][1..] == text[1..][..p - 1];
    var last := FirstRead(ps, m, c, o, |c|);
    SeenPrefix(m, text, p, c[o..|c|]);
    EndRefines(last, c, Seen(m, text, p, p));
    AtTheEnd(last, c);
  }

  lemma SeenPrefix(m: Machine, text: Bytes, p: nat, c: Bytes)
    requires Waiting(m.st) && 1 <= p <= |text| && c == text[..p]
    ensures Seen(m, c, p, p) == Seen(m, text, p, p)
  {
    hide NoCr;
    assert c[1..p] == text[1..p] && c[p..p] == text[p..p];
    assert c[..p - Dropped(text, p)] == text[..p - Dropped(text, p)];
  }

  lemma EndsHere(ps: ParseState, m: Machine, c: Bytes, o: nat, text: Bytes)
    requires Waiting(m.st) && o < |c| && Rep(ps, c, o, m)
    requires ArgText(text) && c[o..] == text + "\n" && Safe(m, text, |text|)
    ensures Meets(ParseFrom(ps, c, o), Verdict(m, text, |text|))
  {
    hide Settled, Rep, Meets, Step, NoCr;
    var j := |c| - 1;
    assert c[o..j] == c[o..][..j - o] == text;
    assert c[j] == c[o..][j - o];
    var last := FirstRead(ps, m, c, o, j);
    LineFeed(last, Seen(m, text, |text|, |text|), c);
  }

  // ---------- Exactly when the cut matters ----------

  ghost predicate AllCutsAgree(ps: ParseState, bytes: Bytes) {
    forall chunks, others :: Joined(chunks) == bytes && Joined(others) == bytes ==>
      Alike(ParseAll(ps, chunks), ParseAll(ps, others))
  }

  /** A carriage return after the first byte and before the last one. */
  predicate Stray(text: Bytes) {
    exists i :: 1 <= i < |text| - 1 && text[i] == '\r'
  }

  /** The header of the line, and the same header for every first cut. */
  ghost predicate SameHeader(text: Bytes) {
    forall p :: 1 <= p <= |text| ==> ParseHeader(SeenArg(text, p)) == ParseHeader(SeenArg(text, |text|))
  }

  /** The line is no message, or it fits the scratch area without its carriage return. */
  ghost predicate FitsOrFails(text: Bytes)
    requires text != ""
  {
    ParseHeader(SeenArg(text, |text|)) == None || |SeenArg(text, |text|)| <= MAX_CONTROL_LINE_SIZE
  }

  /** The stream in two pieces, cut inside the argument or right behind it. */
  ghost function TwoPieces(name: Bytes, text: Bytes, p: nat): (chunks: seq<Bytes>)
    requires 1 <= p <= |text|
    ensures Joined(chunks) == name + (text + "\n") && CutPoint(chunks, |name|, |text|) == p
  {
    var chunks := [name + text[..p], text[p..] + "\n"];
    assert chunks[1..] == [text[p..] + "\n"];
    assert chunks[1..][1..] == [];
    assert text == text[..p] + text[p..];
    assert Joined(chunks[1..]) == text[p..] + "\n" + "";
    chunks
  }

  lemma ErrVerdict(m: Machine, text: Bytes, p: nat)
    requires m.st == OpMinusErrSpc && 1 <= p <= |text|
    ensures var seen := SeenArg(text, p);
            Verdict(m, text, p) == Go(m.(st := OpStart, line := seen, cr := false, log := m.log + [Fault(seen)]))
    ensures Safe(m, text, p)
  {
    hide NoCr;
    assert text[p..|text|] == text[p..];
  }

  /** Without stray carriage returns the parser sees the line up to its carriage return, wherever it is cut. */
  lemma SeenPlain(text: Bytes, p: nat)
    requires 1 <= p <= |text| && !Stray(text)
    ensures SeenArg(text, p) == if |text| > 1 && text[|text| - 1] == '\r' then text[..|text| - 1] else text
  {
    hide NoCr;
    var n := |text|;
    NoStrayPart(text, p);
    if p < n {
      var y, l := text[p..n - 1], text[n - 1];
      assert text[p..] == y + [l];
      NoCrConcat(y, [l]);
      NoCrOne(l);
      assert NoCr(y) == y;
      assert text[..p] + y == text[..n - 1];
      assert text[..p] + (y + [l]) == text;
    } else {
      assert text[n..] == "" && NoCr(text[n..]) == "";
      if n > 1 {
        assert text[1..n] == text[1..n - 1] + [text[n - 1]];
        NoStrayPart(text, n);
      }
    }
  }

  lemma NoStrayPart(text: Bytes, p: nat)
    requires 1 <= p <= |text| && !Stray(text)
    ensures p < |text| ==> '\r' !in text[1..p] && '\r' !in text[p..|text| - 1]
    ensures p == |text| > 1 ==> '\r' !in text[1..p - 1]
  {
    assert forall i :: 1 <= i < |text| - 1 ==> text[i] != '\r';
  }

  lemma SeenWhole(text: Bytes, p: nat)
    requires 1 <= p <= |text| && !Stray(text)
    ensures SeenArg(text, p) == SeenArg(text, |text|)
  {
    hide SeenArg;
    SeenPlain(text, p);
    SeenPlain(text, |text|);
  }

  lemma SeenDiffers(text: Bytes, i: nat)
    requires 1 <= i < |text| - 1 && text[i] == '\r'
    ensures SeenArg(text, i + 1) != SeenArg(text, |text|)
  {
    var n := |text|;
    assert text[1..n][i - 1] == '\r' && text[1..i + 1][i - 1] == '\r';
    var a, b := SeenArg(text, i + 1), SeenArg(text, n);
    assert a == text[..i] + NoCr(text[i + 1..]) && b == text[..n - 1] + NoCr(text[n..]);
    assert b[i] == '\r';
    if |a| > i {
      assert a[i] == NoCr(text[i + 1..])[0];
    }
  }

  /** For the text of an error the cut matters exactly when there is a stray carriage return in it. */
  lemma ErrCutsIff(ps: ParseState, m: Machine, name: Bytes, named: Machine, text: Bytes)
    requires Settled(ps, m) && Leading(m, name, named) && named.st == OpMinusErrSpc && ArgText(text)
    ensures AllCutsAgree(ps, name + (text + "\n")) <==> !Stray(text)
  {
    hide Settled, ParseAll, SeenArg, Joined, Alike, CutPoint, Leading, Stray;
    var line := name + (text + "\n");
    if Stray(text) {
      var i := StrayAt(text);
      SeenDiffers(text, i);
      var a, b := TwoPieces(name, text, i + 1), TwoPieces(name, text, |text|);
      if Alike(ParseAll(ps, a), ParseAll(ps, b)) {
        ErrLogs(ps, m, name, named, text, a, b);
      }
    } else {
      forall chunks, others | Joined(chunks) == line && Joined(others) == line
        ensures Alike(ParseAll(ps, chunks), ParseAll(ps, others))
      {
        SeenWhole(text, CutPoint(chunks, |name|, |text|));
        SeenWhole(text, CutPoint(others, |name|, |text|));
        ErrLogs(ps, m, name, named, text, chunks, others);
      }
    }
  }

  lemma StrayAt(text: Bytes) returns (i: nat)
    requires Stray(text)
    ensures 1 <= i < |text| - 1 && text[i] == '\r'
  {
    i :| 1 <= i < |text| - 1 && text[i] == '\r';
  }

  /** Two cuttings of an error line agree exactly when they show the parser the same text. */
  lemma ErrLogs(ps: ParseState, m: Machine, name: Bytes, named: Machine, text: Bytes, a: seq<Bytes>, b: seq<Bytes>)
    requires Settled(ps, m) && Leading(m, name, named) && named.st == OpMinusErrSpc && ArgText(text)
    requires Joined(a) == name + (text + "\n") && Joined(b) == name + (text + "\n")
    ensures Alike(ParseAll(ps, a), ParseAll(ps, b)) <==>
            SeenArg(text, CutPoint(a, |name|, |text|)) == SeenArg(text, CutPoint(b, |name|, |text|))
  {
    hide Settled, ParseAll, SeenArg, Joined, Verdict, CutPoint, Leading, Safe;
    var p, q := CutPoint(a, |name|, |text|), CutPoint(b, |name|, |text|);
    ErrVerdict(named, text, p);
    ErrVerdict(named, text, q);
    FirstCutDecides(ps, m, name, named, text, a);
    FirstCutDecides(ps, m, name, named, text, b);
    SettledLog(ParseAll(ps, a).ps, Verdict(named, text, p).m);
    SettledLog(ParseAll(ps, b).ps, Verdict(named, text, q).m);
    var x, y := Fault(SeenArg(text, p)), Fault(SeenArg(text, q));
    assert (named.log + [x])[|named.log|] == x && (named.log + [y])[|named.log|] == y;
  }

  lemma MsgVerdict(m: Machine, text: Bytes, p: nat)
    requires m.st == OpMsgSpc && 1 <= p <= |text|
    ensures Verdict(m, text, p) ==
            match ParseHeader(SeenArg(text, p))
            case None => Fail(m.log)
            case Some(h) => Go(Begun(m, h, SeenArg(text, p)))
    ensures Safe(m, text, p) <==> ParseHeader(SeenArg(text, p)) == None || |SeenArg(text, p)| <= MAX_CONTROL_LINE_SIZE
  {
    hide NoCr, ParseHeader;
    assert text[p..|text|] == text[p..];
  }

  /** The machine at the start of a message body. */
  function Begun(m: Machine, h: Header, line: Bytes): Machine {
    m.(st := MsgPayload, line := line, cr := false, header := h, payload := "")
  }

  /** A settled parser state fixes the header of the message it is in. */
  lemma SettledHeader(ps: ParseState, m: Machine, m': Machine)
    requires Settled(ps, m) && Settled(ps, m') && m.st == MsgPayload
    ensures m'.header == m.header
  {
  }

  lemma SettledLine(ps: ParseState, m: Machine, line: Bytes)
    requires Settled(ps, m) && m.st == MsgPayload && |m.line| <= |line|
    ensures Settled(ps, m.(line := line))
  {
  }

  /**
   * For a message line the cut matters exactly when the lines seen for different first cuts have different headers,
   * or the line does not fit.
   */
  lemma MsgCutsIff(ps: ParseState, m: Machine, name: Bytes, named: Machine, text: Bytes)
    requires Settled(ps, m) && Leading(m, name, named) && named.st == OpMsgSpc && ArgText(text)
    ensures AllCutsAgree(ps, name + (text + "\n")) <==> SameHeader(text) && FitsOrFails(text)
  {
    hide Settled, ParseAll, SeenArg, ParseHeader, Joined, Alike, CutPoint, Leading;
    var line, n := name + (text + "\n"), |text|;
    if SameHeader(text) && FitsOrFails(text) {
      forall chunks, others | Joined(chunks) == line && Joined(others) == line
        ensures Alike(ParseAll(ps, chunks), ParseAll(ps, others))
      {
        var p, q := CutPoint(chunks, |name|, n), CutPoint(others, |name|, n);
        SeenShort(text, p);
        SeenShort(text, q);
        assert ParseHeader(SeenArg(text, p)) == ParseHeader(SeenArg(text, n)) == ParseHeader(SeenArg(text, q));
        HeadersAgree(ps, m, name, named, text, chunks, others);
      }
    }
    if AllCutsAgree(ps, line) {
      var b := TwoPieces(name, text, n);
      assert Alike(ParseAll(ps, b), ParseAll(ps, b));
      AlikeHeaders(ps, m, name, named, text, n);
      forall p | 1 <= p <= n ensures ParseHeader(SeenArg(text, p)) == ParseHeader(SeenArg(text, n)) {
        assert Alike(ParseAll(ps, TwoPieces(name, text, p)), ParseAll(ps, b));
        AlikeHeaders(ps, m, name, named, text, p);
      }
    }
  }

  /** Two pieces that agree: neither panics, and both show the same header. */
  lemma AlikeHeaders(ps: ParseState, m: Machine, name: Bytes, named: Machine, text: Bytes, p: nat)
    requires Settled(ps, m) && Leading(m, name, named) && named.st == OpMsgSpc && ArgText(text) && 1 <= p <= |text|
    requires Alike(ParseAll(ps, TwoPieces(name, text, p)), ParseAll(ps, TwoPieces(name, text, |text|)))
    ensures ParseHeader(SeenArg(text, p)) == ParseHeader(SeenArg(text, |text|)) && FitsOrFails(text)
  {
    hide Settled, ParseAll, SeenArg, ParseHeader, Joined, Verdict, CutPoint, Leading, Safe, TwoPieces;
    var n := |text|;
    var a, b := TwoPieces(name, text, p), TwoPieces(name, text, n);
    PanicUnlessSafe(ps, m, name, named, text, p);
    PanicUnlessSafe(ps, m, name, named, text, n);
    MsgVerdict(named, text, p);
    MsgVerdict(named, text, n);
    FirstCutDecides(ps, m, name, named, text, a);
    FirstCutDecides(ps, m, name, named, text, b);
    var h, h' := ParseHeader(SeenArg(text, p)), ParseHeader(SeenArg(text, n));
    if h.Some? {
      var x, y := ParseAll(ps, a).ps, ParseAll(ps, b).ps;
      var common :| Settled(x, common) && Settled(y, common);
      SettledHeader(x, Begun(named, h.value, SeenArg(text, p)), common);
      SettledHeader(y, Begun(named, h'.value, SeenArg(text, n)), common);
    }
  }

  /** A message line that is too long and saved in the middle ends in a panic. */
  lemma PanicUnlessSafe(ps: ParseState, m: Machine, name: Bytes, named: Machine, text: Bytes, p: nat)
    requires Settled(ps, m) && Leading(m, name, named) && named.st == OpMsgSpc && ArgText(text) && 1 <= p <= |text|
    ensures !Safe(named, text, p) ==> ParseAll(ps, TwoPieces(name, text, p)) == Panic
  {
    hide Settled, Rep, Seen, Leading, Parse;
    if !Safe(named, text, p) {
      var c, d := name + text[..p], text[p..] + "\n";
      assert [c, d][1..] == [d];
      assert c[..|name|] == name && c[|name|..] == text[..p];
      var last := NameRead(ps, m, name, named, c);
      BeginsHere(last, named, c, |name|, text);
      assert Parse(Parse(ps, c).ps, d) == Panic by { LongEnd(Parse(ps, c).ps, named, text, p, d); }
    }
  }

  lemma LongEnd(ps: ParseState, m: Machine, text: Bytes, p: nat, d: Bytes)
    requires m.st == OpMsgSpc && 1 <= p <= |text| && ArgText(text) && !Safe(m, text, p) && d == text[p..] + "\n"
    requires Settled(ps, Seen(m, text, p, p))
    ensures Parse(ps, d) == Panic
  {
    hide Settled, Rep, NoCr, ParseHeader;
    PlainPart(text, p, |text|);
    assert d[..|d| - 1] == text[p..|text|] == text[p..];
    var last := HeldRead(ps, Seen(m, text, p, p), d, |d| - 1);
    SeenMore(m, text, p, p, |text|);
    LongLineFeed(last, Seen(m, text, p, |text|), d);
  }

  lemma HeadersAgree(ps: ParseState, m: Machine, name: Bytes, named: Machine, text: Bytes,
                     a: seq<Bytes>, b: seq<Bytes>)
    requires Settled(ps, m) && Leading(m, name, named) && named.st == OpMsgSpc && ArgText(text)
    requires Joined(a) == name + (text + "\n") && Joined(b) == name + (text + "\n")
    requires var p, q := CutPoint(a, |name|, |text|), CutPoint(b, |name|, |text|);
             && ParseHeader(SeenArg(text, p)) == ParseHeader(SeenArg(text, q))
             && (ParseHeader(SeenArg(text, p)) == None ||
                 (|SeenArg(text, p)| <= MAX_CONTROL_LINE_SIZE && |SeenArg(text, q)| <= MAX_CONTROL_LINE_SIZE))
    ensures Alike(ParseAll(ps, a), ParseAll(ps, b))
  {
    hide Settled, ParseAll, SeenArg, ParseHeader, Joined, Verdict, CutPoint, Leading, Safe;
    var p, q := CutPoint(a, |name|, |text|), CutPoint(b, |name|, |text|);
    MsgVerdict(named, text, p);
    MsgVerdict(named, text, q);
    FirstCutDecides(ps, m, name, named, text, a);
    FirstCutDecides(ps, m, name, named, text, b);
    var h := ParseHeader(SeenArg(text, p));
    if h.Some? {
      var x, y, common := ParseAll(ps, a).ps, ParseAll(ps, b).ps, Begun(named, h.value, text);
      SeenShort(text, p);
      SeenShort(text, q);
      SettledLine(x, Begun(named, h.value, SeenArg(text, p)), text);
      SettledLine(y, Begun(named, h.value, SeenArg(text, q)), text);
      assert Settled(x, common) && Settled(y, common);
      SettledLog(x, common);
      SettledLog(y, common);
    }
  }

  // ---------- Lines between packets ----------

  /** The operation names, from any state between packets. */
  lemma NamesLead(ps: ParseState, m: Machine)
    requires Settled(ps, m) && m.st == OpStart
    ensures Leading(m, "MSG ", m.(st := OpMsgSpc)) && Leading(m, "-ERR ", m.(st := OpMinusErrSpc))
  {
    hide Leads, Clean, ShortLines, Run;
    var limit := MAX_CONTROL_LINE_SIZE;
    SpellingLeads(m, "MSG ", [OpStart, OpM, OpMs, OpMsg, OpMsgSpc], limit);
    LeadsIsRun(m, "MSG ", m.(st := OpMsgSpc), limit);
    SpellingLeads(m, "-ERR ", [OpStart, OpMinus, OpMinusE, OpMinusEr, OpMinusErr, OpMinusErrSpc], limit);
    LeadsIsRun(m, "-ERR ", m.(st := OpMinusErrSpc), limit);
  }

  lemma ErrLineCutsIff(ps: ParseState, m: Machine, text: Bytes)
    requires Settled(ps, m) && m.st == OpStart && ArgText(text)
    ensures AllCutsAgree(ps, "-ERR " + (text + "\n")) <==> !Stray(text)
  {
    hide Settled, Leading, AllCutsAgree, Stray;
    NamesLead(ps, m);
    ErrCutsIff(ps, m, "-ERR ", m.(st := OpMinusErrSpc), text);
  }

  lemma MsgLineCutsIff(ps: ParseState, m: Machine, text: Bytes)
    requires Settled(ps, m) && m.st == OpStart && ArgText(text)
    ensures AllCutsAgree(ps, "MSG " + (text + "\n")) <==> SameHeader(text) && FitsOrFails(text)
  {
    hide Settled, Leading, AllCutsAgree, SameHeader, FitsOrFails;
    NamesLead(ps, m);
    MsgCutsIff(ps, m, "MSG ", m.(st := OpMsgSpc), text);
  }

  // ---------- Stray, and yet harmless ----------

  lemma {:induction false} TrailingWhite(x: Bytes, w: char)
    requires White(w)
    ensures Words(x + [w]) == Words(x)
    decreases |x|
  {
    hide White;
    var n := WordLength(x);
    assert WordLength(x + [w]) == n by { WordLengthWhite(x, w); }
    if x == [] {
      assert (x + [w])[1..] == [];
    } else if n == 0 {
      assert (x + [w])[1..] == x[1..] + [w];
      TrailingWhite(x[1..], w);
    } else {
      assert (x + [w])[n..] == x[n..] + [w] && (x + [w])[..n] == x[..n];
      TrailingWhite(x[n..], w);
    }
  }

  lemma {:induction false} WordLengthWhite(x: Bytes, w: char)
    requires White(w)
    ensures WordLength(x + [w]) == WordLength(x)
    decreases |x|
  {
    if x != [] && !White(x[0]) {
      assert (x + [w])[1..] == x[1..] + [w];
      WordLengthWhite(x[1..], w);
    }
  }

  lemma BlankKeepsHeader(x: Bytes)
    requires x != "" && '\r' !in x
    ensures Stray(x + "\r ") && SameHeader(x + "\r ") && |SeenArg(x + "\r ", |x| + 2)| == |x| + 1
  {
    hide ParseHeader, Words, SeenArg;
    var text := x + "\r ";
    assert text[|x|] == '\r';
    SeenBlank(x, |x| + 2);
    forall p | 1 <= p <= |text| ensures ParseHeader(SeenArg(text, p)) == ParseHeader(x) {
      SeenBlank(x, p);
      TrailingWhite(x, ' ');
      TrailingWhite(x, '\r');
      SameWords(x, x + " ");
      SameWords(x, x + "\r");
    }
  }

  lemma SameWords(a: Bytes, b: Bytes)
    requires Words(a) == Words(b)
    ensures ParseHeader(a) == ParseHeader(b)
  {
  }

  lemma SeenBlank(x: Bytes, p: nat)
    requires x != "" && '\r' !in x && 1 <= p <= |x| + 2
    ensures SeenArg(x + "\r ", p) == if p == |x| + 2 then x + "\r" else x + " "
  {
    hide NoCr;
    var text := x + "\r ";
    if p <= |x| {
      var y := x[p..];
      assert text[p..] == y + "\r" + " ";
      NoCrConcat(y + "\r", " ");
      NoCrConcat(y, "\r");
      NoCrOne('\r');
      NoCrOne(' ');
      assert NoCr(y) == y;
      assert text[1..p] == x[1..p] && text[..p] == x[..p] && x[..p] + y == x;
    } else if p == |x| + 1 {
      assert text[1..p][|x| - 1] == '\r';
      assert text[p..] == " ";
      NoCrOne(' ');
      assert text[..p - 1] == x;
    } else {
      assert text[1..p][|x| - 1] == '\r';
      assert text[p..] == "";
      assert text[..p - 1] == x + "\r";
    }
  }

  /** A stray carriage return among the blanks that end a message line does no harm. */
  lemma HarmlessStray(ps: ParseState, m: Machine, x: Bytes)
    requires Settled(ps, m) && m.st == OpStart && ArgText(x) && '\r' !in x && |x| < MAX_CONTROL_LINE_SIZE
    ensures Stray(x + "\r ") && AllCutsAgree(ps, "MSG " + (x + "\r " + "\n"))
  {
    hide Settled, AllCutsAgree, SameHeader, SeenArg, Stray;
    var text := x + "\r ";
    assert text[1..] == x[1..] + "\r ";
    BlankKeepsHeader(x);
    MsgLineCutsIff(ps, m, text);
  }

  // ---------- Clean streams ----------

  /** The first control line that is too long: everything before its line feed is short. */
  lemma {:induction false} FirstLongLine(m: Machine, bytes: Bytes) returns (n: nat)
    requires Clean(m, bytes) && Short(m) && !ShortLines(m, bytes)
    ensures n < |bytes| && bytes[n] == '\n'
    ensures Clean(m, bytes[..n]) && ShortLines(m, bytes[..n]) && Run(m, bytes[..n]).Go?
    ensures var last := Run(m, bytes[..n]).m;
            last.st == MsgArg && |last.line| > MAX_CONTROL_LINE_SIZE && Step(last, '\n').Go?
    decreases |bytes|
  {
    var next := Step(m, bytes[0]).m;
    if Short(next) {
      var k := FirstLongLine(next, bytes[1..]);
      n := k + 1;
      assert bytes[..n][1..] == bytes[1..][..k];
    } else {
      n := 0;
      LongBegins(m, bytes[0]);
    }
  }

  lemma LongBegins(m: Machine, b: char)
    requires Short(m) && Step(m, b).Go? && !Short(Step(m, b).m)
    ensures m.st == MsgArg && b == '\n' && |m.line| > MAX_CONTROL_LINE_SIZE
  {
  }

  /** All cuttings of a clean stream agree exactly when the control lines of its messages are short. */
  lemma CleanCutsIff(ps: ParseState, m: Machine, stream: Bytes)
    requires Settled(ps, m) && Short(m) && Clean(m, stream)
    ensures AllCutsAgree(ps, stream) <==> ShortLines(m, stream)
  {
    hide Settled, Clean, ShortLines, ParseAll, Joined, Alike;
    if ShortLines(m, stream) {
      forall chunks, others | Joined(chunks) == stream && Joined(others) == stream
        ensures Alike(ParseAll(ps, chunks), ParseAll(ps, others))
      {
        CutsDoNotMatterFrom(ps, m, chunks, others);
      }
    } else {
      var chunks := PanickingCut(ps, m, stream);
      assert !Alike(ParseAll(ps, chunks), ParseAll(ps, chunks)) by { PanicIsUnlike(); }
    }
  }

  lemma PanickingCut(ps: ParseState, m: Machine, stream: Bytes) returns (chunks: seq<Bytes>)
    requires Settled(ps, m) && Short(m) && Clean(m, stream) && !ShortLines(m, stream)
    ensures Joined(chunks) == stream && ParseAll(ps, chunks) == Panic
  {
    hide Settled, Clean, ShortLines, ParseAll, Joined, Run, Step;
    var n := FirstLongLine(m, stream);
    var a, b := stream[..n], stream[n + 1..];
    chunks := [a, "\n", b];
    assert stream == a + ("\n" + b);
    ThreePieces(a, b);
    LongCutPanics(ps, m, a, b);
  }

  lemma PanicIsUnlike()
    ensures !Alike(Panic, Panic)
  {
  }

  lemma ThreePieces(a: Bytes, b: Bytes)
    ensures Joined([a, "\n", b]) == a + ("\n" + b)
  {
    assert [a, "\n", b][1..] == ["\n", b] && ["\n", b][1..] == [b] && [b][1..] == [];
    assert Joined([b]) == b + "" == b;
    assert Joined(["\n", b]) == "\n" + b;
  }

  /** Cut right before and right behind its line feed, a long message line ends in a panic. */
  lemma LongCutPanics(ps: ParseState, m: Machine, a: Bytes, b: Bytes)
    requires Settled(ps, m) && Clean(m, a) && ShortLines(m, a) && Run(m, a).Go? && Run(m, a).m.st == MsgArg
    requires |Run(m, a).m.line| > MAX_CONTROL_LINE_SIZE && Step(Run(m, a).m, '\n').Go?
    ensures ParseAll(ps, [a, "\n", b]) == Panic
  {
    hide Rep, Parse, Run, Clean, ShortLines, Step;
    SettledForAnyRead(ps, m, a);
    assert [a, "\n", b][1..] == ["\n", b] && a[0..] == a;
    assert a + "" == a;
    CleanPrefix(m, a, "");
    assert Parse(ps, a).Continue? && Settled(Parse(ps, a).ps, Run(m, a).m) by {
      ParseIs(ps, a);
      ReadRefines(ps, a, 0, m);
    }
    var ps' := Parse(ps, a).ps;
    SettledForAnyRead(ps', Run(m, a).m, "\n");
    ParseIs(ps', "\n");
    LongLineFeed(ps', Run(m, a).m, "\n");
  }

  lemma ParseIs(ps: ParseState, buf: Bytes)
    ensures Parse(ps, buf) == ParseFrom(ps, buf, 0)
  {
  }
}
