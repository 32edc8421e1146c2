/** The machine by its vocabulary: operation names, numbers, words, and what it passes over. */
module NatsNames {
  import opened Options
  import opened Text
  import opened NatsSpec
  import opened NatsPackets

  // ---------- Operation names ----------

  /** The text read in a state that spells or has just spelled an operation name. */
  function Name(st: St): Option<Bytes> {
    match st
    case OpStart => Some("")
    case OpC => Some("c")
    case OpM => Some("m")
    case OpMs => Some("ms")
    case OpMsg => Some("msg")
    case OpMsgSpc => Some("msg ")
    case OpP => Some("p")
    case OpPi => Some("pi")
    case OpPin => Some("pin")
    case OpPing => Some("ping")
    case OpPo => Some("po")
    case OpPon => Some("pon")
    case OpPong => Some("pong")
    case OpPlus => Some("+")
    case OpPlusO => Some("+o")
    case OpPlusOk => Some("+ok")
    case OpMinus => Some("-")
    case OpMinusE => Some("-e")
    case OpMinusEr => Some("-er")
    case OpMinusErr => Some("-err")
    case OpMinusErrSpc => Some("-err ")
    case _ => None
  }

  /** Letter case and the kind of blank play no part. */
  function Fold(b: char): char {
    if b == '\t' then ' ' else LowerChar(b)
  }

  function Folded(w: Bytes): (r: Bytes)
    ensures |r| == |w| && forall i :: 0 <= i < |w| ==> r[i] == Fold(w[i])
  {
    seq(|w|, i requires 0 <= i < |w| => Fold(w[i]))
  }

  /** The state before the last letter of a name. */
  function Before(st: St): (r: St)
    requires Name(st).Some? && st != OpStart
    ensures Spelling(r) && Name(r).Some? && Name(st).value == Name(r).value + [Name(st).value[|Name(st).value| - 1]]
  {
    match st
    case OpC => OpStart
    case OpM => OpStart
    case OpMs => OpM
    case OpMsg => OpMs
    case OpMsgSpc => OpMsg
    case OpP => OpStart
    case OpPi => OpP
    case OpPin => OpPi
    case OpPing => OpPin
    case OpPo => OpP
    case OpPon => OpPo
    case OpPong => OpPon
    case OpPlus => OpStart
    case OpPlusO => OpPlus
    case OpPlusOk => OpPlusO
    case OpMinus => OpStart
    case OpMinusE => OpMinus
    case OpMinusEr => OpMinusE
    case OpMinusErr => OpMinusEr
    case OpMinusErrSpc => OpMinusErr
  }

  function LastLetter(st: St): char
    requires Name(st).Some? && st != OpStart
  {
    Name(st).value[|Name(st).value| - 1]
  }

  /** A letter in either case. */
  lemma EitherCase(b: char, small: char, pair: string)
    requires 'a' <= small <= 'z' && |pair| == 2 && pair[1] == small && pair[0] == small - ' '
    ensures b in pair <==> Fold(b) == small
  {
    assert pair == [pair[0], pair[1]];
  }

  lemma EitherBlank(b: char)
    ensures Blank(b) <==> Fold(b) == ' '
  {
  }

  lemma LettersFold(b: char)
    ensures b in "Mm" <==> Fold(b) == 'm'
    ensures b in "Cc" <==> Fold(b) == 'c'
    ensures b in "Pp" <==> Fold(b) == 'p'
    ensures b in "Ss" <==> Fold(b) == 's'
    ensures b in "Gg" <==> Fold(b) == 'g'
    ensures b in "Ii" <==> Fold(b) == 'i'
    ensures b in "Oo" <==> Fold(b) == 'o'
    ensures b in "Nn" <==> Fold(b) == 'n'
    ensures b in "Kk" <==> Fold(b) == 'k'
    ensures b in "Ee" <==> Fold(b) == 'e'
    ensures b in "Rr" <==> Fold(b) == 'r'
    ensures b == '+' <==> Fold(b) == '+'
    ensures b == '-' <==> Fold(b) == '-'
    ensures Blank(b) <==> Fold(b) == ' '
  {
    hide Fold;
    EitherCase(b, 'm', "Mm");
    EitherCase(b, 'c', "Cc");
    EitherCase(b, 'p', "Pp");
    EitherCase(b, 's', "Ss");
    EitherCase(b, 'g', "Gg");
    EitherCase(b, 'i', "Ii");
    EitherCase(b, 'o', "Oo");
    EitherCase(b, 'n', "Nn");
    EitherCase(b, 'k', "Kk");
    EitherCase(b, 'e', "Ee");
    EitherCase(b, 'r', "Rr");
    EitherBlank(b);
    OtherFolds(b);
  }

  lemma OtherFolds(b: char)
    ensures b == '+' <==> Fold(b) == '+'
    ensures b == '-' <==> Fold(b) == '-'
  {
  }

  lemma ArrivesIff(next: St, b: char)
    requires Name(next).Some? && next != OpStart
    ensures Letter(Before(next), b) == Some(next) <==> Fold(b) == LastLetter(next)
  {
    hide Fold, Blank;
    LettersFold(b);
  }

  lemma LeavesFrom(st: St, b: char)
    requires Letter(st, b).Some?
    ensures var next := Letter(st, b).value; Name(next).Some? && next != OpStart && Before(next) == st
  {
  }

  /** A letter leads from one state to another exactly when it extends the one's name to the other's. */
  lemma LetterIff(st: St, b: char, next: St)
    requires Spelling(st) && Name(st).Some?
    ensures Letter(st, b) == Some(next) <==> Name(next).Some? && Name(next).value == Name(st).value + [Fold(b)]
  {
    hide Letter, Name, Before, Fold, Spelling;
    if Letter(st, b) == Some(next) {
      LeavesFrom(st, b);
      ArrivesIff(next, b);
    }
    if Name(next).Some? && Name(next).value == Name(st).value + [Fold(b)] {
      OnlyStart(next);
      var n := |Name(next).value| - 1;
      assert Name(Before(next)).value == Name(next).value[..n] == Name(st).value;
      SameName(st, Before(next));
      ArrivesIff(next, b);
    }
  }

  lemma SameName(a: St, b: St)
    requires Name(a).Some? && Name(a) == Name(b)
    ensures a == b
  {
    assert |Name(a).value| == |Name(b).value|;
    assert forall i :: 0 <= i < |Name(a).value| ==> Name(a).value[i] == Name(b).value[i];
  }

  /** An operation name goes wrong at the first letter that no name continues with. */
  lemma WrongLetterFails(m: Machine, b: char)
    requires Spelling(m.st) && Name(m.st).Some?
    ensures Step(m, b).Fail? <==> forall st :: Name(st) != Some(Name(m.st).value + [Fold(b)])
  {
    hide Name, Letter;
    if Step(m, b).Go? {
      LetterIff(m.st, b, Letter(m.st, b).value);
    }
    if st :| Name(st) == Some(Name(m.st).value + [Fold(b)]) {
      LetterIff(m.st, b, st);
    }
  }

  /** Spelling a text from the start of a line; None once it goes wrong or goes on after a name. */
  function Spelt(w: Bytes): Option<St> {
    if w == [] then Some(OpStart)
    else
      var st := Spelt(w[..|w| - 1]);
      if st.Some? && Spelling(st.value) then Letter(st.value, w[|w| - 1]) else None
  }

  /** The texts that lead to a state are the spellings of its name. */
  lemma {:induction false} SpeltIff(w: Bytes, st: St)
    ensures Spelt(w) == Some(st) <==> Name(st) == Some(Folded(w))
    decreases |w|
  {
    hide Letter, Name;
    if w == [] {
      assert Folded(w) == "";
      OnlyStart(st);
    } else {
      var n := |w| - 1;
      var front, b := w[..n], w[n];
      assert Folded(w) == Folded(front) + [Fold(b)];
      if Spelt(w) == Some(st) {
        SpeltIff(front, Spelt(front).value);
        LetterIff(Spelt(front).value, b, st);
      }
      if Name(st) == Some(Folded(w)) {
        OnlyStart(st);
        var was := Before(st);
        assert Name(was).value == Folded(w)[..n] == Folded(front);
        SpeltIff(front, was);
        LetterIff(was, b, st);
      }
    }
  }

  lemma OnlyStart(st: St)
    ensures Name(st) == Some("") <==> st == OpStart
  {
  }

  /** A spelt text takes the machine there, whatever else it holds. */
  lemma {:induction false} SpeltRuns(m: Machine, w: Bytes)
    requires m.st == OpStart && Spelt(w).Some?
    ensures Run(m, w) == Go(m.(st := Spelt(w).value))
    decreases |w|
  {
    hide Letter;
    if w != [] {
      var n := |w| - 1;
      SpeltRuns(m, w[..n]);
      assert w == w[..n] + [w[n]];
      RunConcat(m, w[..n], [w[n]]);
      RunOne(m.(st := Spelt(w[..n]).value), w[n]);
    }
  }

  lemma RunOne(m: Machine, b: char)
    ensures Run(m, [b]) == Step(m, b)
  {
    assert [b][1..] == [];
    if Step(m, b).Go? {
      assert Run(Step(m, b).m, []) == Go(Step(m, b).m);
    }
  }

  // ---------- Passed over ----------

  /** After a name or a body everything up to the line feed is passed over. */
  lemma {:induction false} RestOfLineSkipped(m: Machine, rest: Bytes)
    requires m.st in {OpPing, OpPong, OpPlusOk, MsgEnd} && '\n' !in rest
    ensures Run(m, rest) == Go(m)
    decreases |rest|
  {
    if rest != [] {
      assert rest[0] in rest;
      RestOfLineSkipped(m, rest[1..]);
    }
  }

  /** Any number of blanks stands between a name and its argument. */
  lemma {:induction false} BlanksSkipped(m: Machine, blanks: Bytes)
    requires m.st in {OpMsgSpc, OpMinusErrSpc} && forall i :: 0 <= i < |blanks| ==> blanks[i] in {' ', '\t'}
    ensures Run(m, blanks) == Go(m)
    decreases |blanks|
  {
    if blanks != [] {
      BlanksSkipped(m, blanks[1..]);
    }
  }

  // ---------- Words and numbers ----------

  /** Words end at a space, tab, carriage return or line feed. */
  lemma {:induction false} WordsSplit(a: Bytes, c: char, b: Bytes)
    requires c in {' ', '\t', '\r', '\n'}
    ensures Words(a + [c] + b) == Words(a) + Words(b)
    decreases |a|
  {
    var line := a + [c] + b;
    if a == [] {
      assert line[1..] == b;
    } else {
      var w := WordLength(a);
      assert WordLength(line) == w by { WordEnds(a, c, b); }
      if w == 0 {
        assert line[1..] == a[1..] + [c] + b;
        WordsSplit(a[1..], c, b);
      } else {
        assert line[..w] == a[..w] && line[w..] == a[w..] + [c] + b;
        WordsSplit(a[w..], c, b);
      }
    }
  }

  lemma {:induction false} WordEnds(a: Bytes, c: char, b: Bytes)
    requires White(c)
    ensures WordLength(a + [c] + b) == WordLength(a)
    decreases |a|
  {
    if a != [] && !White(a[0]) {
      assert (a + [c] + b)[1..] == a[1..] + [c] + b;
      WordEnds(a[1..], c, b);
    }
  }

  /** Between two of those there is one word, or none. */
  lemma OneWord(w: Bytes)
    requires forall i :: 0 <= i < |w| ==> w[i] !in {' ', '\t', '\r', '\n'}
    ensures Words(w) == if w == "" then [] else [w]
  {
    if w != "" {
      LastWord(w);
    }
  }

  /** A header is three or four words: subject, number, the reply if there is one, and a size that is not negative. */
  lemma HeaderIff(line: Bytes)
    ensures var w, h := Words(line), ParseHeader(line);
            && (h.Some? <==> 3 <= |w| <= 4 && ParseInt64(w[|w| - 1]) >= 0)
            && (h.Some? ==>
                  && h.value.subject == w[0] && h.value.sid == ParseInt64(w[1])
                  && w[2..|w| - 1] == (if h.value.reply == "" && |w| == 3 then [] else [h.value.reply])
                  && h.value.size == ParseInt64(w[|w| - 1]))
  {
  }

  const TWO64 := 0x1_0000_0000_0000_0000

  /** Wrapping around stays in range and keeps the value modulo 2^64. */
  lemma WrapKeeps(x: int)
    ensures -(MAX_INT64 + 1) <= Wrap64(x) <= MAX_INT64 && (x - Wrap64(x)) % TWO64 == 0
  {
  }

  lemma WrapOnce(x: int, c: int)
    ensures Wrap64(Wrap64(x) * 10 + c) == Wrap64(x * 10 + c)
  {
    WrapKeeps(x);
    var k := (x - Wrap64(x)) / TWO64;
    assert x * 10 + c == Wrap64(x) * 10 + c + (10 * k) * TWO64;
    WrapShift(Wrap64(x) * 10 + c, 10 * k);
  }

  lemma WrapShift(y: int, k: int)
    ensures Wrap64(y + k * TWO64) == Wrap64(y)
  {
  }

  lemma {:induction false} NoNumber(d: Bytes, n: int)
    requires !AllDigits(d)
    ensures Digits(d, n) == -1
    decreases |d|
  {
    if '0' <= d[0] <= '9' {
      NoNumber(d[1..], Wrap64(n * 10 + (d[0] - '0') as int));
    }
  }

  lemma {:induction false} DigitsWrap(d: Bytes)
    requires AllDigits(d)
    ensures Digits(d, 0) == Wrap64(Value(d))
    decreases |d|
  {
    hide Digits, Wrap64;
    if d == [] {
      assert Digits(d, 0) == 0 && Wrap64(0) == 0 by { ZeroDigits(); }
    } else {
      var n := |d| - 1;
      DigitsWrap(d[..n]);
      assert d == d[..n] + [d[n]];
      DigitsAppend(d[..n], d[n], 0);
      WrapOnce(Value(d[..n]), (d[n] - '0') as int);
    }
  }

  lemma ZeroDigits()
    ensures Digits("", 0) == 0 && Wrap64(0) == 0
  {
  }

  /** Only a row of digits is a number, and it is taken modulo 2^64 as a signed one; all else is -1. */
  lemma NumberIs(d: Bytes)
    ensures ParseInt64(d) == if d != "" && AllDigits(d) then Wrap64(Value(d)) else -1
  {
    hide Digits, Wrap64;
    if AllDigits(d) {
      DigitsWrap(d);
    } else {
      NoNumber(d, 0);
    }
  }
}
