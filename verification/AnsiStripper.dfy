/** The escape-sequence stripper of the command line (cmd/envoryx/cli_ansi.go).

    The stripper is an object whose `Write` walks over the bytes and keeps its state between
    writes. Its meaning is given by a grammar of tokens that knows nothing of states: every
    byte sequence is the print of exactly the tokens and the unfinished sequence that
    `Parse` finds, and the output is the text among them. */
module AnsiStripper {
  import opened Seqs

  const BEL: Byte := 0x07
  const ESC: Byte := 0x1b
  const OPEN_PAREN: Byte := 0x28
  const CLOSE_PAREN: Byte := 0x29
  const LOWER_E: Byte := 0x65
  const OPEN_BRACKET: Byte := 0x5b
  const BACKSLASH: Byte := 0x5c
  const CLOSE_BRACKET: Byte := 0x5d

  /** The byte that stands for each unfinished sequence (see `StateOf`): none for `Nothing`,
      the lower-case e for `AfterEsc`, the opening bracket for `InCsi`, the closing one for
      `InOsc`, the backslash for `InOscEsc`, the parenthesis for `InCharset`. */
  predicate IsState(state: Byte) {
    state in {0, LOWER_E, OPEN_BRACKET, CLOSE_BRACKET, BACKSLASH, OPEN_PAREN}
  }

  // ---- The automaton ----

  function Next(state: Byte, b: Byte): (n: Byte)
    ensures IsState(state) ==> IsState(n)
  {
    if state == 0 then
      (if b == ESC then LOWER_E else 0)
    else if state == LOWER_E then
      (if b == OPEN_BRACKET || b == CLOSE_BRACKET || b == OPEN_PAREN then b
       else if b == CLOSE_PAREN then OPEN_PAREN
       else 0)
    else if state == OPEN_BRACKET then
      (if 0x40 <= b <= 0x7e then 0 else state)
    else if state == CLOSE_BRACKET then
      (if b == BEL then 0 else if b == ESC then BACKSLASH else state)
    else 0
  }

  function Passed(state: Byte, b: Byte): Bytes {
    if state == 0 && b != ESC then [b] else []
  }

  function StateAfter(state: Byte, p: Bytes): (n: Byte)
    ensures IsState(state) ==> IsState(n)
    decreases |p|
  {
    if p == [] then state else StateAfter(Next(state, p[0]), p[1..])
  }

  function Stripped(state: Byte, p: Bytes): Bytes
    decreases |p|
  {
    if p == [] then [] else Passed(state, p[0]) + Stripped(Next(state, p[0]), p[1..])
  }

  lemma {:induction false} StrippedAppend(state: Byte, p: Bytes, q: Bytes)
    ensures Stripped(state, p + q) == Stripped(state, p) + Stripped(StateAfter(state, p), q)
    ensures StateAfter(state, p + q) == StateAfter(StateAfter(state, p), q)
    decreases |p|
  {
    if p == [] {
      assert p + q == q;
    } else {
      var next := Next(state, p[0]);
      assert (p + q)[0] == p[0] && (p + q)[1..] == p[1..] + q;
      StrippedAppend(next, p[1..], q);
      Assoc(Passed(state, p[0]), Stripped(next, p[1..]), Stripped(StateAfter(next, p[1..]), q));
    }
  }

  class Stripper {
    /** What the writer behind has received. */
    var sink: Bytes
    var state: Byte

    constructor ()
      ensures sink == [] && state == 0
    {
      sink := [];
      state := 0;
    }

    method Write(p: Bytes) returns (n: nat)
      modifies this
      ensures n == |p|
      ensures sink == old(sink) + Stripped(old(state), p)
      ensures state == StateAfter(old(state), p)
    {
      var out: Bytes := [];
      for i := 0 to |p|
        invariant sink == old(sink)
        invariant out + Stripped(state, p[i..]) == Stripped(old(state), p)
        invariant StateAfter(state, p[i..]) == StateAfter(old(state), p)
      {
        var b := p[i];
        ghost var was, before := state, out;
        assert p[i..][1..] == p[i + 1..];
        if state == 0 {
          if b == ESC {
            state := LOWER_E;
          } else {
            out := out + [b];
          }
        } else if state == LOWER_E {
          if b == OPEN_BRACKET || b == CLOSE_BRACKET || b == OPEN_PAREN {
            state := b;
          } else if b == CLOSE_PAREN {
            state := OPEN_PAREN;
          } else {
            state := 0;
          }
        } else if state == OPEN_BRACKET {
          if b >= 0x40 && b <= 0x7e {
            state := 0;
          }
        } else if state == CLOSE_BRACKET {
          if b == BEL {
            state := 0;
          } else if b == ESC {
            state := BACKSLASH;
          }
        } else {
          state := 0;
        }
        assert state == Next(was, b) && out == before + Passed(was, b);
        Assoc(before, Passed(was, b), Stripped(state, p[i + 1..]));
      }
      sink := sink + out;
      n := |p|;
    }
  }

  // ---- Splitting and stripping again ----

  /** The writes may be cut anywhere: output and final state are those of a single write. */
  lemma {:induction false} SplitDoesNotMatter(state: Byte, writes: seq<Bytes>)
    ensures WrittenOut(state, writes) == Stripped(state, Flatten(writes))
    ensures StateAfterAll(state, writes) == StateAfter(state, Flatten(writes))
    decreases |writes|
  {
    if writes != [] {
      StrippedAppend(state, writes[0], Flatten(writes[1..]));
      SplitDoesNotMatter(StateAfter(state, writes[0]), writes[1..]);
    }
  }

  function WrittenOut(state: Byte, writes: seq<Bytes>): Bytes
    decreases |writes|
  {
    if writes == [] then [] else Stripped(state, writes[0]) + WrittenOut(StateAfter(state, writes[0]), writes[1..])
  }

  function StateAfterAll(state: Byte, writes: seq<Bytes>): Byte
    decreases |writes|
  {
    if writes == [] then state else StateAfterAll(StateAfter(state, writes[0]), writes[1..])
  }

  lemma {:induction false} NoEscapeLeft(state: Byte, p: Bytes)
    ensures ESC !in Stripped(state, p)
    decreases |p|
  {
    if p != [] {
      NoEscapeLeft(Next(state, p[0]), p[1..]);
    }
  }

  /** Text without ESC passes unchanged. */
  lemma {:induction false} PlainPasses(p: Bytes)
    requires ESC !in p
    ensures Stripped(0, p) == p && StateAfter(0, p) == 0
    decreases |p|
  {
    if p != [] {
      assert p[0] in p;
      PlainPasses(p[1..]);
      assert p == [p[0]] + p[1..];
    }
  }

  /** The output of any input, in any state, holds no ESC and is not changed by stripping it
      again. */
  lemma StrippingTwice(state: Byte, p: Bytes)
    ensures ESC !in Stripped(state, p)
    ensures Stripped(0, Stripped(state, p)) == Stripped(state, p)
  {
    NoEscapeLeft(state, p);
    PlainPasses(Stripped(state, p));
  }

  // ---- What the sequences mean ----

  /** A byte of text, or one escape sequence. An OSC string ends with BEL or with ESC and one
      more byte (the standard's ESC \ among them). */
  datatype Token =
    | Text(b: Byte)
    | Csi(body: Bytes, final: Byte)
    | OscBel(body: Bytes)
    | OscEsc(body: Bytes, last: Byte)
    | Charset(intro: Byte, letter: Byte)
    | TwoByte(b: Byte)

  /** A sequence whose end has not come yet. */
  datatype Pending =
    | Nothing
    | AfterEsc
    | InCsi(body: Bytes)
    | InOsc(body: Bytes)
    | InOscEsc(body: Bytes)
    | InCharset(intro: Byte)

  predicate CsiBody(body: Bytes) {
    forall i :: 0 <= i < |body| ==> !(0x40 <= body[i] <= 0x7e)
  }

  predicate OscBody(body: Bytes) {
    0x07 !in body && 0x1b !in body
  }

  predicate Proper(t: Token) {
    match t
    case Text(b) => b != 0x1b
    case Csi(body, final) => CsiBody(body) && 0x40 <= final <= 0x7e
    case OscBel(body) => OscBody(body)
    case OscEsc(body, last) => OscBody(body)
    case Charset(intro, letter) => intro == 0x28 || intro == 0x29
    case TwoByte(b) => b != 0x5b && b != 0x5d && b != 0x28 && b != 0x29
  }

  predicate ProperPending(r: Pending) {
    match r
    case InCsi(body) => CsiBody(body)
    case InOsc(body) => OscBody(body)
    case InOscEsc(body) => OscBody(body)
    case InCharset(intro) => intro == 0x28 || intro == 0x29
    case _ => true
  }

  /** A CSI sequence as in section 5.4 of ECMA-48 is one of the tokens: its parameter bytes
      30-3F and intermediate bytes 20-2F are no final bytes. */
  lemma StandardCsiIsProper(parameters: Bytes, intermediates: Bytes, final: Byte)
    requires forall i :: 0 <= i < |parameters| ==> 0x30 <= parameters[i] <= 0x3f
    requires forall i :: 0 <= i < |intermediates| ==> 0x20 <= intermediates[i] <= 0x2f
    requires 0x40 <= final <= 0x7e
    ensures Proper(Csi(parameters + intermediates, final))
  {
    var body := parameters + intermediates;
    forall i | 0 <= i < |body| ensures !(0x40 <= body[i] <= 0x7e) {
      assert body[i] == if i < |parameters| then parameters[i] else intermediates[i - |parameters|];
    }
  }

  function Print(t: Token): Bytes {
    match t
    case Text(b) => [b]
    case Csi(body, final) => [0x1b, 0x5b] + body + [final]
    case OscBel(body) => [0x1b, 0x5d] + body + [0x07]
    case OscEsc(body, last) => [0x1b, 0x5d] + body + [0x1b, last]
    case Charset(intro, letter) => [0x1b, intro, letter]
    case TwoByte(b) => [0x1b, b]
  }

  function PrintPending(r: Pending): Bytes {
    match r
    case Nothing => []
    case AfterEsc => [0x1b]
    case InCsi(body) => [0x1b, 0x5b] + body
    case InOsc(body) => [0x1b, 0x5d] + body
    case InOscEsc(body) => [0x1b, 0x5d] + body + [0x1b]
    case InCharset(intro) => [0x1b, intro]
  }

  function PrintAll(tokens: seq<Token>): Bytes {
    if tokens == [] then [] else Print(tokens[0]) + PrintAll(tokens[1..])
  }

  function TextOf(tokens: seq<Token>): Bytes {
    if tokens == [] then [] else (if tokens[0].Text? then [tokens[0].b] else []) + TextOf(tokens[1..])
  }

  /** The state in which an unfinished sequence leaves the stripper. */
  function StateOf(r: Pending): Byte {
    match r
    case Nothing => 0
    case AfterEsc => LOWER_E
    case InCsi(_) => OPEN_BRACKET
    case InOsc(_) => CLOSE_BRACKET
    case InOscEsc(_) => BACKSLASH
    case InCharset(_) => OPEN_PAREN
  }

  lemma {:induction false} BodySwallowed(state: Byte, body: Bytes)
    requires (state == OPEN_BRACKET && CsiBody(body)) || (state == CLOSE_BRACKET && OscBody(body))
    ensures Stripped(state, body) == [] && StateAfter(state, body) == state
    decreases |body|
  {
    if body != [] {
      assert body[0] in body;
      BodySwallowed(state, body[1..]);
    }
  }

  lemma StripByte(state: Byte, b: Byte)
    ensures Stripped(state, [b]) == Passed(state, b) && StateAfter(state, [b]) == Next(state, b)
  {
    assert [b][1..] == [];
    assert Stripped(Next(state, b), []) == [];
  }

  lemma StripTwo(state: Byte, a: Byte, b: Byte)
    ensures Stripped(state, [a, b]) == Passed(state, a) + Passed(Next(state, a), b)
    ensures StateAfter(state, [a, b]) == Next(Next(state, a), b)
  {
    StripByte(state, a);
    StripByte(Next(state, a), b);
    StrippedAppend(state, [a], [b]);
    assert [a] + [b] == [a, b];
  }

  lemma PendingStripped(r: Pending)
    requires ProperPending(r)
    ensures Stripped(0, PrintPending(r)) == [] && StateAfter(0, PrintPending(r)) == StateOf(r)
  {
    StripByte(0, ESC);
    match r
    case Nothing =>
    case AfterEsc =>
    case InCsi(body) =>
      StripTwo(0, ESC, OPEN_BRACKET);
      StrippedAppend(0, [ESC, OPEN_BRACKET], body);
      BodySwallowed(OPEN_BRACKET, body);
    case InOsc(body) =>
      StripTwo(0, ESC, CLOSE_BRACKET);
      StrippedAppend(0, [ESC, CLOSE_BRACKET], body);
      BodySwallowed(CLOSE_BRACKET, body);
    case InOscEsc(body) =>
      StripTwo(0, ESC, CLOSE_BRACKET);
      StrippedAppend(0, [ESC, CLOSE_BRACKET], body);
      BodySwallowed(CLOSE_BRACKET, body);
      StripByte(CLOSE_BRACKET, ESC);
      StrippedAppend(0, [ESC, CLOSE_BRACKET] + body, [ESC]);
    case InCharset(intro) =>
      StripTwo(0, ESC, intro);
  }

  /** What was pending before the last byte of a sequence. */
  function Before(t: Token): (Pending, Byte)
    requires !t.Text?
  {
    match t
    case Csi(body, final) => (InCsi(body), final)
    case OscBel(body) => (InOsc(body), BEL)
    case OscEsc(body, last) => (InOscEsc(body), last)
    case Charset(intro, letter) => (InCharset(intro), letter)
    case TwoByte(b) => (AfterEsc, b)
  }

  lemma TokenStripped(t: Token)
    requires Proper(t)
    ensures Stripped(0, Print(t)) == (if t.Text? then [t.b] else []) && StateAfter(0, Print(t)) == 0
  {
    if t.Text? {
      StripByte(0, t.b);
    } else {
      var (r, b) := Before(t);
      assert Print(t) == PrintPending(r) + [b];
      PendingStripped(r);
      StripByte(StateOf(r), b);
      StrippedAppend(0, PrintPending(r), [b]);
    }
  }

  /** The meaning: of any text and escape sequences, and one that is not finished, exactly
      the text comes out, and the state says what is unfinished. */
  lemma {:induction false} StripperMeaning(tokens: seq<Token>, r: Pending)
    requires forall i :: 0 <= i < |tokens| ==> Proper(tokens[i])
    requires ProperPending(r)
    ensures Stripped(0, PrintAll(tokens) + PrintPending(r)) == TextOf(tokens)
    ensures StateAfter(0, PrintAll(tokens) + PrintPending(r)) == StateOf(r)
    decreases |tokens|
  {
    if tokens == [] {
      PendingStripped(r);
      assert [] + PrintPending(r) == PrintPending(r);
    } else {
      TokenStripped(tokens[0]);
      StripperMeaning(tokens[1..], r);
      var rest := PrintAll(tokens[1..]) + PrintPending(r);
      Assoc(Print(tokens[0]), PrintAll(tokens[1..]), PrintPending(r));
      StrippedAppend(0, Print(tokens[0]), rest);
    }
  }

  // ---- Every input has such a reading ----

  datatype Reading = Reading(tokens: seq<Token>, pending: Pending)

  /** Reading one more byte. */
  function ReadByte(x: Reading, b: Byte): Reading {
    match x.pending
    case Nothing => if b == ESC then x.(pending := AfterEsc) else x.(tokens := x.tokens + [Text(b)])
    case AfterEsc =>
      if b == OPEN_BRACKET then x.(pending := InCsi([]))
      else if b == CLOSE_BRACKET then x.(pending := InOsc([]))
      else if b == OPEN_PAREN || b == CLOSE_PAREN then x.(pending := InCharset(b))
      else Reading(x.tokens + [TwoByte(b)], Nothing)
    case InCsi(body) =>
      if 0x40 <= b <= 0x7e then Reading(x.tokens + [Csi(body, b)], Nothing) else x.(pending := InCsi(body + [b]))
    case InOsc(body) =>
      if b == BEL then Reading(x.tokens + [OscBel(body)], Nothing)
      else if b == ESC then x.(pending := InOscEsc(body))
      else x.(pending := InOsc(body + [b]))
    case InOscEsc(body) => Reading(x.tokens + [OscEsc(body, b)], Nothing)
    case InCharset(intro) => Reading(x.tokens + [Charset(intro, b)], Nothing)
  }

  function ReadAll(x: Reading, p: Bytes): Reading
    decreases |p|
  {
    if p == [] then x else ReadAll(ReadByte(x, p[0]), p[1..])
  }

  function Parse(p: Bytes): Reading {
    ReadAll(Reading([], Nothing), p)
  }

  lemma {:induction false} PrintAllAppend(tokens: seq<Token>, t: Token)
    ensures PrintAll(tokens + [t]) == PrintAll(tokens) + Print(t)
  {
    if tokens == [] {
      assert [t][1..] == [];
      assert PrintAll([t]) == Print(t) + PrintAll([]);
    } else {
      PrintAllAppend(tokens[1..], t);
      assert (tokens + [t])[1..] == tokens[1..] + [t];
      Assoc(Print(tokens[0]), PrintAll(tokens[1..]), Print(t));
    }
  }

  ghost predicate Reads(x: Reading, p: Bytes) {
    && (forall i :: 0 <= i < |x.tokens| ==> Proper(x.tokens[i]))
    && ProperPending(x.pending)
    && PrintAll(x.tokens) + PrintPending(x.pending) == p
  }

  /** One more byte lengthens the unfinished sequence or finishes one token. */
  lemma ReadByteShape(x: Reading, b: Byte)
    requires ProperPending(x.pending)
    ensures var y := ReadByte(x, b);
      if y.tokens == x.tokens then
        ProperPending(y.pending) && PrintPending(y.pending) == PrintPending(x.pending) + [b]
      else
        && y.pending == Nothing && |y.tokens| == |x.tokens| + 1 && y.tokens[..|x.tokens|] == x.tokens
        && Proper(y.tokens[|x.tokens|]) && Print(y.tokens[|x.tokens|]) == PrintPending(x.pending) + [b]
  {
  }

  /** Finishing a token. */
  lemma OneMoreToken(x: Reading, y: Reading)
    requires forall i :: 0 <= i < |x.tokens| ==> Proper(x.tokens[i])
    requires y.pending == Nothing && |y.tokens| == |x.tokens| + 1 && y.tokens[..|x.tokens|] == x.tokens
    requires Proper(y.tokens[|x.tokens|])
    ensures Reads(y, PrintAll(x.tokens) + Print(y.tokens[|x.tokens|]))
  {
    var t := y.tokens[|x.tokens|];
    assert y.tokens == x.tokens + [t];
    PrintAllAppend(x.tokens, t);
    assert PrintAll(y.tokens) + [] == PrintAll(y.tokens);
  }

  lemma ReadByteReads(x: Reading, p: Bytes, b: Byte)
    requires Reads(x, p)
    ensures Reads(ReadByte(x, b), p + [b])
  {
    var y := ReadByte(x, b);
    ReadByteShape(x, b);
    Assoc(PrintAll(x.tokens), PrintPending(x.pending), [b]);
    if y.tokens != x.tokens {
      OneMoreToken(x, y);
    }
  }

  lemma {:induction false} ReadAllReads(x: Reading, p: Bytes, q: Bytes)
    requires Reads(x, p)
    ensures Reads(ReadAll(x, q), p + q)
    decreases |q|
  {
    if q == [] {
      assert p + q == p;
    } else {
      ReadByteReads(x, p, q[0]);
      ReadAllReads(ReadByte(x, q[0]), p + [q[0]], q[1..]);
      Assoc(p, [q[0]], q[1..]);
      assert q == [q[0]] + q[1..];
    }
  }

  /** For any bytes at all, the output is the text of the tokens they are made of. */
  lemma EveryInputHasMeaning(p: Bytes)
    ensures var x := Parse(p);
      && Reads(x, p)
      && Stripped(0, p) == TextOf(x.tokens)
      && StateAfter(0, p) == StateOf(x.pending)
  {
    ReadAllReads(Reading([], Nothing), [], p);
    assert [] + p == p;
    StripperMeaning(Parse(p).tokens, Parse(p).pending);
  }

  // ---- There is only one reading ----

  lemma {:induction false} ReadAllAppend(x: Reading, p: Bytes, q: Bytes)
    ensures ReadAll(x, p + q) == ReadAll(ReadAll(x, p), q)
    decreases |p|
  {
    if p == [] {
      assert p + q == q;
    } else {
      assert (p + q)[1..] == p[1..] + q;
      ReadAllAppend(ReadByte(x, p[0]), p[1..], q);
    }
  }

  function InBody(state: Byte, body: Bytes): Pending {
    if state == OPEN_BRACKET then InCsi(body) else InOsc(body)
  }

  lemma {:induction false} BodyRead(tokens: seq<Token>, state: Byte, body: Bytes, more: Bytes)
    requires (state == OPEN_BRACKET && CsiBody(more)) || (state == CLOSE_BRACKET && OscBody(more))
    ensures ReadAll(Reading(tokens, InBody(state, body)), more) == Reading(tokens, InBody(state, body + more))
    decreases |more|
  {
    if more == [] {
      assert body + more == body;
    } else {
      assert more[0] in more;
      BodyRead(tokens, state, body + [more[0]], more[1..]);
      assert body + [more[0]] + more[1..] == body + more;
    }
  }

  lemma ReadTwo(x: Reading, a: Byte, b: Byte)
    ensures ReadAll(x, [a]) == ReadByte(x, a)
    ensures ReadAll(x, [a, b]) == ReadByte(ReadByte(x, a), b)
  {
    assert [a][1..] == [] && [b][1..] == [];
    assert [a, b][1..] == [b];
    assert ReadAll(ReadByte(x, a), [b]) == ReadAll(ReadByte(ReadByte(x, a), b), []);
  }

  lemma PendingRead(tokens: seq<Token>, r: Pending)
    requires ProperPending(r)
    ensures ReadAll(Reading(tokens, Nothing), PrintPending(r)) == Reading(tokens, r)
  {
    var x := Reading(tokens, Nothing);
    match r
    case Nothing =>
    case AfterEsc => ReadTwo(x, ESC, ESC);
    case InCsi(body) =>
      ReadTwo(x, ESC, OPEN_BRACKET);
      ReadAllAppend(x, [ESC, OPEN_BRACKET], body);
      BodyRead(tokens, OPEN_BRACKET, [], body);
      assert [] + body == body;
    case InOsc(body) =>
      ReadTwo(x, ESC, CLOSE_BRACKET);
      ReadAllAppend(x, [ESC, CLOSE_BRACKET], body);
      BodyRead(tokens, CLOSE_BRACKET, [], body);
      assert [] + body == body;
    case InOscEsc(body) =>
      ReadTwo(x, ESC, CLOSE_BRACKET);
      ReadAllAppend(x, [ESC, CLOSE_BRACKET], body);
      BodyRead(tokens, CLOSE_BRACKET, [], body);
      assert [] + body == body;
      ReadTwo(Reading(tokens, InOsc(body)), ESC, ESC);
      ReadAllAppend(x, [ESC, CLOSE_BRACKET] + body, [ESC]);
    case InCharset(intro) => ReadTwo(x, ESC, intro);
  }

  lemma TokenRead(tokens: seq<Token>, t: Token)
    requires Proper(t)
    ensures ReadAll(Reading(tokens, Nothing), Print(t)) == Reading(tokens + [t], Nothing)
  {
    if t.Text? {
      ReadTwo(Reading(tokens, Nothing), t.b, t.b);
    } else {
      var (r, b) := Before(t);
      assert Print(t) == PrintPending(r) + [b];
      PendingRead(tokens, r);
      ReadTwo(Reading(tokens, r), b, b);
      ReadAllAppend(Reading(tokens, Nothing), PrintPending(r), [b]);
    }
  }

  lemma {:induction false} TokensRead(before: seq<Token>, tokens: seq<Token>, r: Pending)
    requires forall i :: 0 <= i < |tokens| ==> Proper(tokens[i])
    requires ProperPending(r)
    ensures ReadAll(Reading(before, Nothing), PrintAll(tokens) + PrintPending(r)) == Reading(before + tokens, r)
    decreases |tokens|
  {
    if tokens == [] {
      PendingRead(before, r);
      assert [] + PrintPending(r) == PrintPending(r) && before + tokens == before;
    } else {
      var rest := PrintAll(tokens[1..]) + PrintPending(r);
      TokenRead(before, tokens[0]);
      TokensRead(before + [tokens[0]], tokens[1..], r);
      Assoc(Print(tokens[0]), PrintAll(tokens[1..]), PrintPending(r));
      ReadAllAppend(Reading(before, Nothing), Print(tokens[0]), rest);
      assert tokens == [tokens[0]] + tokens[1..];
      Assoc(before, [tokens[0]], tokens[1..]);
    }
  }

  /** Bytes have only one reading, so the text of `EveryInputHasMeaning` is the text. */
  lemma ReadingUnique(x: Reading, p: Bytes)
    requires Reads(x, p)
    ensures x == Parse(p)
  {
    TokensRead([], x.tokens, x.pending);
    assert [] + x.tokens == x.tokens;
  }
}
