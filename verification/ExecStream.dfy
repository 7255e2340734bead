/** The exec stream of the API (internal/api/exec.go): container output arrives in arbitrary
    chunks and leaves as frames that never cut a UTF-8 character in two.

    The stream and its writers are objects, as in the source; their methods are tied to the
    functions `Emit`, `Sent` and `Kept`. The theorems are about any interleaving of writes
    of any number of writers, over a connection that may break at any frame. */
module ExecStream {
  import opened Seqs

  // ---- Runes ----

  /** utf8.RuneStart: not a continuation byte 10xxxxxx. */
  predicate RuneStart(b: Byte) {
    !(0x80 <= b < 0xC0)
  }

  /** The number of bytes announced by a first byte: 110xxxxx, 1110xxxx, 11110xxx; any
      other byte counts as one. */
  function RuneLen(c: Byte): (n: nat)
    ensures 1 <= n <= 4
    ensures !RuneStart(c) ==> n == 1
  {
    if c < 0x80 then 1
    else if 0xC0 <= c < 0xE0 then 2
    else if 0xE0 <= c < 0xF0 then 3
    else if 0xF0 <= c < 0xF8 then 4
    else 1
  }

  /** The leading bits decide: 110, 1110 and 11110 announce two, three and four bytes, and 10
      begins no rune. */
  lemma LeadingBits(c: Byte)
    ensures RuneLen(c) == if c / 32 == 6 then 2 else if c / 16 == 14 then 3 else if c / 8 == 30 then 4 else 1
    ensures RuneStart(c) <==> c / 64 != 2
  {
  }

  /** At `i` starts a rune whose last bytes are still missing at the end of `b`. */
  ghost predicate CutRune(b: Bytes, i: nat) {
    && i < |b|
    && RuneStart(b[i])
    && (forall j :: i < j < |b| ==> !RuneStart(b[j]))
    && RuneLen(b[i]) > |b| - i
  }

  /** Where a rune that is cut at the end of `b` begins, else the length of `b`. */
  function CompleteRunesFrom(b: Bytes, i: int): (cut: nat)
    requires -1 <= i < |b|
    ensures cut <= |b|
    decreases i + 1
  {
    if i < 0 || i < |b| - 4 then |b|
    else if !RuneStart(b[i]) then CompleteRunesFrom(b, i - 1)
    else if RuneLen(b[i]) > |b| - i then i
    else |b|
  }

  function CompleteRunes(b: Bytes): (cut: nat)
    ensures cut <= |b|
  {
    CompleteRunesFrom(b, |b| - 1)
  }

  lemma {:induction false} CutFrom(b: Bytes, i: int)
    requires -1 <= i < |b|
    requires forall j :: i < j < |b| ==> !RuneStart(b[j])
    ensures var cut := CompleteRunesFrom(b, i);
      (cut < |b| ==> CutRune(b, cut)) && (cut == |b| ==> forall k: nat :: k <= i ==> !CutRune(b, k))
    decreases i + 1
  {
    if i >= 0 && i >= |b| - 4 {
      if !RuneStart(b[i]) {
        CutFrom(b, i - 1);
      } else {
        forall k: nat | k < i ensures !CutRune(b, k) {
          assert RuneStart(b[i]);
        }
      }
    }
  }

  /** The walk back finds the cut rune exactly when there is one: its first byte, or the
      whole length. */
  lemma CompleteRunesFindsCut(b: Bytes)
    ensures |b| - CompleteRunes(b) <= 3
    ensures forall i: nat :: CutRune(b, i) <==> i == CompleteRunes(b) && i < |b|
  {
    CutFrom(b, |b| - 1);
    var cut := CompleteRunes(b);
    forall i: nat | CutRune(b, i) ensures i == cut {
      if cut < |b| {
        assert CutRune(b, cut);
        assert RuneStart(b[cut]) && RuneStart(b[i]);
      }
    }
  }

  // ---- The stream ----

  datatype Frame = Frame(name: string, text: Bytes)

  /** What went out, and how many more frames the connection takes before it fails. */
  datatype Out = Out(frames: seq<Frame>, sent: bool, dead: bool, budget: nat)

  function Emit(o: Out, f: Frame): Out {
    if o.dead then o
    else if o.budget == 0 then o.(dead := true)
    else Out(o.frames + [f], true, false, o.budget - 1)
  }

  /** What a write sends on, and what it keeps for the next one. */
  function Sent(rest: Bytes, p: Bytes): Bytes {
    (rest + p)[..CompleteRunes(rest + p)]
  }

  function Kept(rest: Bytes, p: Bytes): Bytes {
    (rest + p)[CompleteRunes(rest + p)..]
  }

  function EmitText(o: Out, name: string, text: Bytes): Out {
    if text == [] then o else Emit(o, Frame(name, text))
  }

  class Stream {
    var frames: seq<Frame>
    var sent: bool
    var dead: bool
    /** How many more frames the connection takes. */
    var budget: nat
    var writers: seq<Writer>

    /** Every writer is there once. */
    ghost predicate Valid()
      reads this`writers
    {
      forall i, j :: 0 <= i < j < |writers| ==> writers[i] != writers[j]
    }

    constructor (budget: nat)
      ensures Valid()
      ensures State() == Out([], false, false, budget) && writers == []
    {
      frames, sent, dead := [], false, false;
      this.budget := budget;
      writers := [];
    }

    function State(): Out
      reads this`frames, this`sent, this`dead, this`budget
    {
      Out(frames, sent, dead, budget)
    }

    method Encode(f: Frame) returns (ok: bool)
      modifies this`frames, this`budget
      ensures ok <==> old(budget) > 0
      ensures frames == if ok then old(frames) + [f] else old(frames)
      ensures budget == if ok then old(budget) - 1 else old(budget)
    {
      if budget == 0 {
        return false;
      }
      frames := frames + [f];
      budget := budget - 1;
      return true;
    }

    method Write(f: Frame)
      modifies this`frames, this`sent, this`dead, this`budget
      ensures State() == Emit(old(State()), f)
    {
      if dead {
        return;
      }
      var ok := Encode(f);
      if !ok {
        dead := true;
        return;
      }
      sent := true;
    }

    method NewWriter(name: string) returns (w: Writer)
      requires Valid()
      modifies this`writers
      ensures Valid()
      ensures fresh(w) && w.name == name && w.stream == this && w.rest == []
      ensures writers == old(writers) + [w]
    {
      w := new Writer(this, name);
      writers := writers + [w];
    }

    /** Sends what the writers hold back, in their order. */
    method FlushPartial()
      requires Valid()
      modifies this`frames, this`sent, this`dead, this`budget, set i | 0 <= i < |writers| :: writers[i]
      ensures State() == EmitAll(old(State()), old(Rests(writers)))
      ensures forall i :: 0 <= i < |writers| ==> writers[i].rest == []
    {
      ghost var held, was := Rests(writers), State();
      var i := 0;
      while i < |writers|
        invariant 0 <= i <= |writers|
        invariant EmitAll(State(), held[i..]) == EmitAll(was, held)
        invariant forall j :: 0 <= j < i ==> writers[j].rest == []
        invariant forall j :: i <= j < |writers| ==> writers[j].rest == held[j].text && writers[j].name == held[j].name
      {
        var w := writers[i];
        EmitAllFirst(State(), held, i);
        FlushWriter(w);
        i := i + 1;
      }
    }

    /** The body of the loop of `flushPartial`. */
    method FlushWriter(w: Writer)
      modifies this`frames, this`sent, this`dead, this`budget, w`rest
      ensures State() == EmitText(old(State()), w.name, old(w.rest))
      ensures w.rest == []
    {
      if |w.rest| > 0 {
        Write(Frame(w.name, w.rest));
        w.rest := [];
      }
    }
  }

  function Rests(writers: seq<Writer>): (r: seq<Frame>)
    reads set i | 0 <= i < |writers| :: writers[i]
    ensures |r| == |writers|
    ensures forall i :: 0 <= i < |writers| ==> r[i] == Frame(writers[i].name, writers[i].rest)
  {
    if writers == [] then [] else [Frame(writers[0].name, writers[0].rest)] + Rests(writers[1..])
  }

  /** The non-empty ones of the frames, one after another. */
  function EmitAll(o: Out, held: seq<Frame>): Out
    decreases |held|
  {
    if held == [] then o else EmitAll(EmitText(o, held[0].name, held[0].text), held[1..])
  }

  lemma EmitAllFirst(o: Out, held: seq<Frame>, i: nat)
    requires i < |held|
    ensures EmitAll(o, held[i..]) == EmitAll(EmitText(o, held[i].name, held[i].text), held[i + 1..])
  {
    assert held[i..][1..] == held[i + 1..];
  }

  class Writer {
    const stream: Stream
    const name: string
    var rest: Bytes

    constructor (stream: Stream, name: string)
      ensures this.stream == stream && this.name == name && rest == []
    {
      this.stream := stream;
      this.name := name;
      rest := [];
    }

    method Write(p: Bytes) returns (n: nat)
      modifies this`rest, stream`frames, stream`sent, stream`dead, stream`budget
      ensures n == |p|
      ensures stream.State() == EmitText(old(stream.State()), name, Sent(old(rest), p))
      ensures rest == Kept(old(rest), p)
    {
      n := |p|;
      var buf := p;
      if |rest| > 0 {
        buf := rest + p;
        rest := [];
      }
      ghost var whole := old(rest) + p;
      assert buf == whole;
      CompleteRunesFindsCut(buf);
      var cut := CutLength(buf);
      if cut < |buf| {
        rest := buf[cut..];
        buf := buf[..cut];
      }
      assert whole[..|whole|] == whole;
      assert buf == Sent(old(rest), p) && rest == Kept(old(rest), p);
      if |buf| > 0 {
        stream.Write(Frame(name, buf));
      }
    }
  }

  method CutLength(b: Bytes) returns (cut: nat)
    ensures cut == CompleteRunes(b)
  {
    var i := |b| - 1;
    while i >= 0 && i >= |b| - 4
      invariant -1 <= i < |b|
      invariant CompleteRunesFrom(b, i) == CompleteRunes(b)
    {
      if RuneStart(b[i]) {
        if RuneLen(b[i]) > |b| - i {
          return i;
        }
        return |b|;
      }
      i := i - 1;
    }
    return |b|;
  }
}
