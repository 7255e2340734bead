/** What the exec stream guarantees over whole runs: nothing is lost or invented, the split
    into writes does not matter, and frames of valid UTF-8 are valid on their own. */
module ExecStreamLaws {
  import opened Seqs
  import opened ExecStream

  /** `Flush(w)` is one turn of the loop in `flushPartial`; `Other` is a frame of the stream
      itself (the exit code or an error). */
  datatype Event = Write(w: nat, p: Bytes) | Flush(w: nat) | Other(name: string)

  /** The stream and what each writer holds back. */
  datatype Machine = Machine(out: Out, rests: seq<Bytes>)

  function Step(names: seq<string>, m: Machine, e: Event): (n: Machine)
    requires |names| == |m.rests|
    ensures |n.rests| == |names|
  {
    match e
    case Write(w, p) =>
      if w >= |names| then m
      else Machine(EmitText(m.out, names[w], Sent(m.rests[w], p)), m.rests[w := Kept(m.rests[w], p)])
    case Flush(w) =>
      if w >= |names| then m
      else Machine(EmitText(m.out, names[w], m.rests[w]), m.rests[w := []])
    case Other(name) =>
      if name in names then m else m.(out := Emit(m.out, Frame(name, [])))
  }

  function Run(names: seq<string>, m: Machine, events: seq<Event>): (n: Machine)
    requires |names| == |m.rests|
    ensures |n.rests| == |names|
    decreases |events|
  {
    if events == [] then m else Run(names, Step(names, m, events[0]), events[1..])
  }

  function Fresh(names: seq<string>, budget: nat): Machine {
    Machine(Out([], false, false, budget), seq(|names|, i => []))
  }

  function Part(e: Event, w: nat): Bytes {
    if e.Write? && e.w == w then e.p else []
  }

  /** The bytes writer `w` was given. */
  function Given(events: seq<Event>, w: nat): Bytes
    decreases |events|
  {
    if events == [] then [] else Part(events[0], w) + Given(events[1..], w)
  }

  lemma GivenFirst(given: Bytes, events: seq<Event>, w: nat)
    requires events != []
    ensures given + Given(events, w) == (given + Part(events[0], w)) + Given(events[1..], w)
  {
  }

  function TextOf(frames: seq<Frame>, name: string): Bytes {
    if frames == [] then []
    else (if frames[0].name == name then frames[0].text else []) + TextOf(frames[1..], name)
  }

  ghost predicate Distinct(names: seq<string>) {
    forall i, j :: 0 <= i < j < |names| ==> names[i] != names[j]
  }

  lemma {:induction false} TextOfAppend(frames: seq<Frame>, f: Frame, name: string)
    ensures TextOf(frames + [f], name) == TextOf(frames, name) + if f.name == name then f.text else []
  {
    if frames == [] {
      assert [f][1..] == [];
    } else {
      TextOfAppend(frames[1..], f, name);
      assert (frames + [f])[1..] == frames[1..] + [f];
    }
  }

  // ---- Nothing lost, nothing invented ----

  /** What has gone out is what was given without what is still held, or, once the
      connection is broken, a beginning of that. */
  ghost predicate Accounted(text: Bytes, rest: Bytes, dead: bool, given: Bytes) {
    && |rest| <= 3
    && exists before: Bytes :: AccountedAt(text, rest, dead, given, before)
  }

  ghost predicate AccountedAt(text: Bytes, rest: Bytes, dead: bool, given: Bytes, before: Bytes) {
    given == before + rest && text <= before && (!dead ==> text == before)
  }

  ghost predicate WriterAccounted(names: seq<string>, m: Machine, w: nat, given: Bytes)
    requires |names| == |m.rests| && w < |names|
  {
    Accounted(TextOf(m.out.frames, names[w]), m.rests[w], m.out.dead, given)
  }

  /** One step of the account: `p` comes in, `sent` goes out, `kept` stays. */
  lemma AccountedMore(text: Bytes, rest: Bytes, dead: bool, given: Bytes, p: Bytes, sent: Bytes, kept: Bytes, text': Bytes, dead': bool)
    requires Accounted(text, rest, dead, given)
    requires rest + p == sent + kept && |kept| <= 3
    requires dead ==> dead'
    requires text' == if dead' then text else text + sent
    ensures Accounted(text', kept, dead', given + p)
  {
    var before: Bytes :| AccountedAt(text, rest, dead, given, before);
    assert given + p == before + (rest + p);
    assert given + p == (before + sent) + kept;
    assert AccountedAt(text', kept, dead', given + p, before + sent);
  }

  lemma TextEmitted(o: Out, name: string, text: Bytes, other: string)
    ensures var o' := EmitText(o, name, text);
      var t, t' := TextOf(o.frames, other), TextOf(o'.frames, other);
      && (o.dead ==> o'.dead)
      && (o'.dead ==> t' == t)
      && (!o'.dead ==> t' == t + if name == other then text else [])
  {
    TextOfAppend(o.frames, Frame(name, text), other);
  }

  /** What a step sends of writer `w`. */
  function Sends(rest: Bytes, e: Event, w: nat): Bytes {
    if e == Flush(w) then rest else if e.Write? && e.w == w then Sent(rest, e.p) else []
  }

  lemma StepSends(names: seq<string>, m: Machine, e: Event, w: nat)
    requires Distinct(names) && |names| == |m.rests| && w < |names|
    ensures var m' := Step(names, m, e);
      var sent := Sends(m.rests[w], e, w);
      && m.rests[w] + Part(e, w) == sent + m'.rests[w]
      && (|m.rests[w]| <= 3 ==> |m'.rests[w]| <= 3)
      && (m.out.dead ==> m'.out.dead)
      && TextOf(m'.out.frames, names[w]) == TextOf(m.out.frames, names[w]) + if m'.out.dead then [] else sent
  {
    match e {
      case Write(v, p) =>
        if v < |names| {
          CompleteRunesFindsCut(m.rests[w] + p);
          TextEmitted(m.out, names[v], Sent(m.rests[v], p), names[w]);
        }
      case Flush(v) =>
        if v < |names| {
          TextEmitted(m.out, names[v], m.rests[v], names[w]);
        }
      case Other(name) =>
        TextOfAppend(m.out.frames, Frame(name, []), names[w]);
    }
  }

  lemma StepAccounted(names: seq<string>, m: Machine, e: Event, w: nat, given: Bytes)
    requires Distinct(names) && |names| == |m.rests| && w < |names|
    requires WriterAccounted(names, m, w, given)
    ensures WriterAccounted(names, Step(names, m, e), w, given + Part(e, w))
  {
    var m' := Step(names, m, e);
    var r := m.rests[w];
    StepSends(names, m, e, w);
    AccountedMore(TextOf(m.out.frames, names[w]), r, m.out.dead, given, Part(e, w), Sends(r, e, w), m'.rests[w],
      TextOf(m'.out.frames, names[w]), m'.out.dead);
  }

  lemma {:induction false} RunAccounted(names: seq<string>, m: Machine, events: seq<Event>, w: nat, given: Bytes)
    requires Distinct(names) && |names| == |m.rests| && w < |names|
    requires WriterAccounted(names, m, w, given)
    ensures WriterAccounted(names, Run(names, m, events), w, given + Given(events, w))
    decreases |events|
  {
    if events == [] {
      assert given + [] == given;
    } else {
      StepAccounted(names, m, events[0], w, given);
      GivenFirst(given, events, w);
      RunAccounted(names, Step(names, m, events[0]), events[1..], w, given + Part(events[0], w));
    }
  }

  /** For any interleaving and any connection: while it holds, each writer's frames followed
      by what it holds back are exactly the bytes it was given; once it breaks, its frames
      are a beginning of them. At most three bytes are held back. */
  lemma {:induction false} NothingLost(names: seq<string>, budget: nat, events: seq<Event>, w: nat)
    requires Distinct(names) && w < |names|
    ensures var m := Run(names, Fresh(names, budget), events);
      var text := TextOf(m.out.frames, names[w]);
      && |m.rests[w]| <= 3
      && text <= Given(events, w)
      && (!m.out.dead ==> text + m.rests[w] == Given(events, w))
  {
    var m0 := Fresh(names, budget);
    assert AccountedAt(TextOf(m0.out.frames, names[w]), m0.rests[w], false, [], []);
    RunAccounted(names, m0, events, w, []);
    assert [] + Given(events, w) == Given(events, w);
  }

  // ---- flushPartial ----

  function Flushes(from: nat, n: nat): seq<Event>
    decreases n - from
  {
    if from >= n then [] else [Flush(from)] + Flushes(from + 1, n)
  }

  function Held(names: seq<string>, rests: seq<Bytes>): (held: seq<Frame>)
    requires |names| == |rests|
    ensures |held| == |names|
  {
    if names == [] then [] else [Frame(names[0], rests[0])] + Held(names[1..], rests[1..])
  }

  /** Flushing every writer in turn is what `FlushPartial` does, and empties them all. */
  lemma {:induction false} FlushEmpties(names: seq<string>, m: Machine, from: nat)
    requires |names| == |m.rests| && from <= |names|
    requires forall i :: 0 <= i < from ==> m.rests[i] == []
    ensures var m' := Run(names, m, Flushes(from, |names|));
      && m'.out == EmitAll(m.out, Held(names[from..], m.rests[from..]))
      && forall i :: 0 <= i < |names| ==> m'.rests[i] == []
    decreases |names| - from
  {
    if from < |names| {
      var n := Step(names, m, Flush(from));
      FlushEmpties(names, n, from + 1);
      assert n.rests[from + 1..] == m.rests[from + 1..];
      assert names[from..][1..] == names[from + 1..] && m.rests[from..][1..] == m.rests[from + 1..];
    }
  }

  // ---- The split into writes does not matter ----

  lemma CutShifts(pre: Bytes, b: Bytes, i: nat)
    ensures CutRune(b, i) <==> CutRune(pre + b, |pre| + i)
  {
    var all := pre + b;
    assert forall j :: 0 <= j < |b| ==> b[j] == all[|pre| + j];
    assert forall j :: |pre| <= j < |all| ==> all[j] == b[j - |pre|];
  }

  /** A rune that is cut at the end was cut before, where it had begun. */
  lemma CutBefore(whole: Bytes, p: Bytes, i: nat)
    requires CutRune(whole + p, i) && i < |whole|
    ensures CutRune(whole, i)
  {
    var all := whole + p;
    assert forall j :: 0 <= j < |whole| ==> whole[j] == all[j];
  }

  /** Cutting the beginning off at a cut rune does not change where the whole is cut. */
  lemma CutAfterCut(whole: Bytes, p: Bytes)
    ensures var cut := CompleteRunes(whole);
      CompleteRunes(whole + p) == cut + CompleteRunes(whole[cut..] + p)
  {
    var cut := CompleteRunes(whole);
    var pre, buf, all := whole[..cut], whole[cut..] + p, whole + p;
    assert all == pre + buf;
    CompleteRunesFindsCut(whole);
    CompleteRunesFindsCut(buf);
    CompleteRunesFindsCut(all);
    var c := CompleteRunes(all);
    if c < |all| {
      if c < |whole| {
        CutBefore(whole, p, c);
      }
      CutShifts(pre, buf, c - cut);
    } else if CompleteRunes(buf) < |buf| {
      CutShifts(pre, buf, CompleteRunes(buf));
    }
  }

  lemma CutsCompose(whole: Bytes, p: Bytes)
    ensures var cut := CompleteRunes(whole);
      var rest := whole[cut..];
      && Kept(rest, p) == (whole + p)[CompleteRunes(whole + p)..]
      && whole[..cut] + Sent(rest, p) == (whole + p)[..CompleteRunes(whole + p)]
  {
    var cut := CompleteRunes(whole);
    var pre, buf := whole[..cut], whole[cut..] + p;
    CutAfterCut(whole, p);
    assert whole + p == pre + buf;
    SlicesOf(pre, buf, CompleteRunes(buf));
  }

  lemma SlicesOf(pre: Bytes, buf: Bytes, n: nat)
    requires n <= |buf|
    ensures (pre + buf)[..|pre| + n] == pre + buf[..n] && (pre + buf)[|pre| + n..] == buf[n..]
  {
  }

  predicate NoFlush(events: seq<Event>, w: nat) {
    forall i :: 0 <= i < |events| ==> !(events[i] == Flush(w))
  }

  lemma {:induction false} RestOfWhole(names: seq<string>, m: Machine, events: seq<Event>, w: nat, given: Bytes)
    requires |names| == |m.rests| && w < |names| && NoFlush(events, w)
    requires m.rests[w] == given[CompleteRunes(given)..]
    ensures var g := given + Given(events, w);
      Run(names, m, events).rests[w] == g[CompleteRunes(g)..]
    decreases |events|
  {
    if events == [] {
      assert given + [] == given;
    } else {
      var e := events[0];
      assert events[0] != Flush(w);
      var g := Part(e, w);
      GivenFirst(given, events, w);
      CutsCompose(given, g);
      assert given + [] == given;
      RestOfWhole(names, Step(names, m, e), events[1..], w, given + g);
    }
  }

  /** However the bytes are cut into writes, the text that has gone out is the whole input up
      to its cut rune: the result is that of a single write. This holds for any bytes. */
  lemma {:induction false} SplitDoesNotMatter(names: seq<string>, budget: nat, events: seq<Event>, w: nat)
    requires Distinct(names) && w < |names| && NoFlush(events, w)
    ensures var m := Run(names, Fresh(names, budget), events);
      var g := Given(events, w);
      && m.rests[w] == Kept([], g)
      && (!m.out.dead ==> TextOf(m.out.frames, names[w]) == Sent([], g))
  {
    var g := Given(events, w);
    assert [] + g == g;
    RestOfWhole(names, Fresh(names, budget), events, w, []);
    NothingLost(names, budget, events, w);
    var m := Run(names, Fresh(names, budget), events);
    if !m.out.dead {
      var text := TextOf(m.out.frames, names[w]);
      var cut := CompleteRunes(g);
      assert g == g[..cut] + g[cut..];
      assert |text| == cut;
      assert text == g[..cut];
    }
  }

  // ---- Valid UTF-8 ----

  predicate Tail(b: Byte) {
    0x80 <= b <= 0xBF
  }

  /** The length of the character at the start of `b` in the syntax of section 4 of RFC 3629,
      0 when there is none. */
  function CharLen(b: Bytes): (n: nat)
    ensures n <= 4 && n <= |b|
  {
    if |b| >= 1 && b[0] <= 0x7F then 1
    else if |b| >= 2 && 0xC2 <= b[0] <= 0xDF && Tail(b[1]) then 2
    else if |b| >= 3 && Tail(b[2]) && (
      || (b[0] == 0xE0 && 0xA0 <= b[1] <= 0xBF)
      || (0xE1 <= b[0] <= 0xEC && Tail(b[1]))
      || (b[0] == 0xED && 0x80 <= b[1] <= 0x9F)
      || (0xEE <= b[0] <= 0xEF && Tail(b[1]))) then 3
    else if |b| >= 4 && Tail(b[2]) && Tail(b[3]) && (
      || (b[0] == 0xF0 && 0x90 <= b[1] <= 0xBF)
      || (0xF1 <= b[0] <= 0xF3 && Tail(b[1]))
      || (b[0] == 0xF4 && 0x80 <= b[1] <= 0x8F)) then 4
    else 0
  }

  predicate Utf8(b: Bytes)
    decreases |b|
  {
    b == [] || (CharLen(b) > 0 && Utf8(b[CharLen(b)..]))
  }

  lemma CharShape(v: Bytes)
    requires CharLen(v) > 0
    ensures RuneStart(v[0]) && RuneLen(v[0]) == CharLen(v)
    ensures forall i :: 1 <= i < CharLen(v) ==> !RuneStart(v[i])
  {
  }

  lemma CharStays(v: Bytes, b: Bytes)
    requires CharLen(v) > 0 && CharLen(v) <= |b|
    requires b <= v || v <= b
    ensures CharLen(b) == CharLen(v)
  {
  }

  /** A complete character in front only moves the cut. */
  lemma CutAfterChar(b: Bytes)
    requires CharLen(b) > 0
    ensures CompleteRunes(b) == CharLen(b) + CompleteRunes(b[CharLen(b)..])
  {
    var n := CharLen(b);
    var b' := b[n..];
    CharShape(b);
    CompleteRunesFindsCut(b);
    CompleteRunesFindsCut(b');
    assert b == b[..n] + b';
    var c := CompleteRunes(b);
    if c < |b| {
      assert CutRune(b, c);
      assert c == 0 || c >= n;
      assert c != 0;
      CutShifts(b[..n], b', c - n);
    } else if CompleteRunes(b') < |b'| {
      CutShifts(b[..n], b', CompleteRunes(b'));
    }
  }

  lemma CutInFirstChar(b: Bytes, v: Bytes)
    requires CharLen(v) > 0 && b <= v && 0 < |b| < CharLen(v)
    ensures CompleteRunes(b) == 0 && !Utf8(b)
  {
    CharShape(v);
    CompleteRunesFindsCut(b);
    assert CutRune(b, 0);
    if CharLen(b) > 0 {
      CharStays(b, v);
    }
  }

  /** Cutting off the last incomplete rune of a beginning of valid UTF-8 leaves valid UTF-8,
      and nothing is cut off when the beginning is itself valid. */
  lemma {:induction false} CutIsValid(b: Bytes, v: Bytes)
    requires Utf8(v) && b <= v
    ensures Utf8(b[..CompleteRunes(b)])
    ensures Utf8(b) ==> CompleteRunes(b) == |b|
    decreases |v|
  {
    if b != [] {
      var n := CharLen(v);
      if |b| < n {
        CutInFirstChar(b, v);
      } else {
        CharStays(v, b);
        CutIsValid(b[n..], v[n..]);
        CutLater(b, n);
      }
    }
  }

  lemma CutLater(b: Bytes, n: nat)
    requires 0 < n == CharLen(b)
    requires Utf8(b[n..][..CompleteRunes(b[n..])])
    requires Utf8(b[n..]) ==> CompleteRunes(b[n..]) == |b[n..]|
    ensures Utf8(b[..CompleteRunes(b)])
    ensures Utf8(b) ==> CompleteRunes(b) == |b|
  {
    CutAfterChar(b);
    var c := CompleteRunes(b);
    SliceTwice(b, n, c);
    CharStays(b, b[..c]);
  }

  lemma SliceTwice(b: Bytes, n: nat, c: nat)
    requires n <= c <= |b|
    ensures b[..c][n..] == b[n..][..c - n]
  {
    var x, y := b[..c][n..], b[n..][..c - n];
    forall i | 0 <= i < c - n ensures x[i] == y[i] {
      assert x[i] == b[n + i];
    }
  }

  lemma {:induction false} ValidRemainder(a: Bytes, b: Bytes)
    requires Utf8(a) && Utf8(a + b)
    ensures Utf8(b)
    decreases |a|
  {
    if a == [] {
      assert a + b == b;
    } else {
      CharStays(a, a + b);
      var n := CharLen(a);
      assert (a + b)[n..] == a[n..] + b;
      ValidRemainder(a[n..], b);
    }
  }

  ghost predicate FramesValid(frames: seq<Frame>, name: string) {
    forall i :: 0 <= i < |frames| && frames[i].name == name ==> Utf8(frames[i].text)
  }

  /** What a write sends between two beginnings of valid UTF-8 is valid. */
  lemma SentIsValid(given: Bytes, p: Bytes, v: Bytes)
    requires Utf8(v) && given + p <= v
    ensures Utf8(Sent(given[CompleteRunes(given)..], p))
  {
    assert given <= v;
    CutIsValid(given, v);
    CutIsValid(given + p, v);
    CutsCompose(given, p);
    ValidRemainder(given[..CompleteRunes(given)], Sent(given[CompleteRunes(given)..], p));
  }

  lemma StepValid(names: seq<string>, m: Machine, e: Event, w: nat)
    requires Distinct(names) && |names| == |m.rests| && w < |names| && e != Flush(w)
    requires e.Write? && e.w == w ==> Utf8(Sent(m.rests[w], e.p))
    requires FramesValid(m.out.frames, names[w])
    ensures FramesValid(Step(names, m, e).out.frames, names[w])
  {
  }

  lemma {:induction false} RunValid(names: seq<string>, m: Machine, events: seq<Event>, w: nat, given: Bytes, v: Bytes)
    requires Distinct(names) && |names| == |m.rests| && w < |names| && NoFlush(events, w)
    requires m.rests[w] == given[CompleteRunes(given)..]
    requires Utf8(v) && given + Given(events, w) <= v
    requires FramesValid(m.out.frames, names[w])
    ensures FramesValid(Run(names, m, events).out.frames, names[w])
    decreases |events|
  {
    if events != [] {
      var e := events[0];
      assert events[0] != Flush(w);
      var g := Part(e, w);
      GivenFirst(given, events, w);
      CutsCompose(given, g);
      assert given + [] == given;
      SentIsValid(given, g, v);
      StepValid(names, m, e, w);
      RunValid(names, Step(names, m, e), events[1..], w, given + g, v);
    }
  }

  /** While a writer's bytes are a beginning of valid UTF-8, each of its frames is valid on
      its own; once they are complete, nothing is held back. */
  lemma {:induction false} FramesAreUtf8(names: seq<string>, budget: nat, events: seq<Event>, w: nat, v: Bytes)
    requires Distinct(names) && w < |names| && NoFlush(events, w)
    requires Utf8(v) && Given(events, w) <= v
    ensures var m := Run(names, Fresh(names, budget), events);
      && FramesValid(m.out.frames, names[w])
      && (Utf8(Given(events, w)) ==> m.rests[w] == [])
  {
    var g := Given(events, w);
    assert [] + g == g;
    RunValid(names, Fresh(names, budget), events, w, [], v);
    RestOfWhole(names, Fresh(names, budget), events, w, []);
    CutIsValid(g, v);
  }

  // ---- What goes out ----

  /** What the writers hold back after an event. */
  function RestsAfter(rests: seq<Bytes>, e: Event): (n: seq<Bytes>)
    ensures |n| == |rests|
  {
    match e
    case Write(w, p) => if w < |rests| then rests[w := Kept(rests[w], p)] else rests
    case Flush(w) => if w < |rests| then rests[w := []] else rests
    case Other(_) => rests
  }

  /** How many frames an event hands over: one for a text that is not empty, and one for a frame
      of the stream itself. */
  function TriedNow(names: seq<string>, rests: seq<Bytes>, e: Event): nat
    requires |names| == |rests|
  {
    match e
    case Write(w, p) => if w < |rests| && Sent(rests[w], p) != [] then 1 else 0
    case Flush(w) => if w < |rests| && rests[w] != [] then 1 else 0
    case Other(name) => if name in names then 0 else 1
  }

  function Tried(names: seq<string>, rests: seq<Bytes>, events: seq<Event>): nat
    requires |names| == |rests|
    decreases |events|
  {
    if events == [] then 0
    else TriedNow(names, rests, events[0]) + Tried(names, RestsAfter(rests, events[0]), events[1..])
  }

  /** How many frames a connection still takes. */
  function Room(o: Out): nat {
    if o.dead then 0 else o.budget
  }

  predicate Delivers(o: Out, n: Out, tried: nat) {
    && |n.frames| == |o.frames| + Min(tried, Room(o))
    && (n.dead <==> o.dead || tried > o.budget)
    && (n.sent <==> o.sent || Min(tried, Room(o)) > 0)
    && (!n.dead ==> n.budget == o.budget - tried)
  }

  lemma StepDelivers(names: seq<string>, m: Machine, e: Event)
    requires |names| == |m.rests|
    ensures Delivers(m.out, Step(names, m, e).out, TriedNow(names, m.rests, e))
    ensures Step(names, m, e).rests == RestsAfter(m.rests, e)
  {
  }

  lemma DeliversTogether(o: Out, m: Out, n: Out, a: nat, b: nat)
    requires Delivers(o, m, a) && Delivers(m, n, b)
    ensures Delivers(o, n, a + b)
  {
  }

  lemma {:induction false} RunDelivers(names: seq<string>, m: Machine, events: seq<Event>)
    requires |names| == |m.rests|
    ensures Delivers(m.out, Run(names, m, events).out, Tried(names, m.rests, events))
    decreases |events|
  {
    if events != [] {
      var e := events[0];
      var next := Step(names, m, e);
      StepDelivers(names, m, e);
      RunDelivers(names, next, events[1..]);
      DeliversTogether(m.out, next.out, Run(names, m, events).out, TriedNow(names, m.rests, e), Tried(names, next.rests, events[1..]));
    }
  }

  /** Every frame that is handed over goes out while the connection takes frames. The stream
      dies exactly with the first one that it does not take, and has begun to answer exactly
      when one went out. */
  lemma {:induction false} DeliversExactly(names: seq<string>, budget: nat, events: seq<Event>)
    ensures var m := Fresh(names, budget);
      var n := Run(names, m, events).out;
      var tried := Tried(names, m.rests, events);
      && (n.dead <==> tried > budget)
      && |n.frames| == (if tried < budget then tried else budget)
      && (n.sent <==> n.frames != [])
  {
    RunDelivers(names, Fresh(names, budget), events);
  }

  // ---- Valid UTF-8 as what encodes characters ----

  /** A Unicode scalar value: no surrogate. */
  type Scalar = c: int | 0 <= c <= 0x10FFFF && !(0xD800 <= c <= 0xDFFF)

  /** The encoding of section 3 of RFC 3629. */
  function EncodeScalar(c: Scalar): (e: Bytes)
    ensures 1 <= |e| <= 4
  {
    if c < 0x80 then [c]
    else if c < 0x800 then [0xC0 + c / 64, 0x80 + c % 64]
    else if c < 0x10000 then [0xE0 + c / 64 / 64, 0x80 + c / 64 % 64, 0x80 + c % 64]
    else [0xF0 + c / 64 / 64 / 64, 0x80 + c / 64 / 64 % 64, 0x80 + c / 64 % 64, 0x80 + c % 64]
  }

  function EncodeText(text: seq<Scalar>): Bytes {
    if text == [] then [] else EncodeScalar(text[0]) + EncodeText(text[1..])
  }

  lemma ScalarIsChar(c: Scalar, rest: Bytes)
    ensures CharLen(EncodeScalar(c) + rest) == |EncodeScalar(c)|
  {
    var b := EncodeScalar(c) + rest;
    assert forall i :: 0 <= i < |EncodeScalar(c)| ==> b[i] == EncodeScalar(c)[i];
  }

  /** Six more bits. */
  function Six(hi: int, tail: Byte): int {
    hi * 64 + (tail as int - 0x80)
  }

  lemma SixApart(hi: int, tail: Byte)
    requires Tail(tail)
    ensures Six(hi, tail) / 64 == hi && 0x80 + Six(hi, tail) % 64 == tail
  {
  }

  function Decoded(b: Bytes): int
    requires CharLen(b) > 0
  {
    var n, first: int := CharLen(b), b[0];
    if n == 1 then first
    else if n == 2 then Six(first - 0xC0, b[1])
    else if n == 3 then Six(Six(first - 0xE0, b[1]), b[2])
    else Six(Six(Six(first - 0xF0, b[1]), b[2]), b[3])
  }

  lemma DecodedRange(b: Bytes)
    requires CharLen(b) > 0
    ensures var c := Decoded(b);
      && 0 <= c <= 0x10FFFF && !(0xD800 <= c <= 0xDFFF)
      && CharLen(b) == if c < 0x80 then 1 else if c < 0x800 then 2 else if c < 0x10000 then 3 else 4
  {
  }

  lemma CharIsScalar(b: Bytes)
    requires CharLen(b) > 0
    ensures 0 <= Decoded(b) <= 0x10FFFF && !(0xD800 <= Decoded(b) <= 0xDFFF)
    ensures EncodeScalar(Decoded(b)) == b[..CharLen(b)]
  {
    var n, first: int := CharLen(b), b[0];
    DecodedRange(b);
    if n == 2 {
      SixApart(first - 0xC0, b[1]);
    } else if n == 3 {
      SixApart(Six(first - 0xE0, b[1]), b[2]);
      SixApart(first - 0xE0, b[1]);
    } else if n == 4 {
      SixApart(Six(Six(first - 0xF0, b[1]), b[2]), b[3]);
      SixApart(Six(first - 0xF0, b[1]), b[2]);
      SixApart(first - 0xF0, b[1]);
    }
  }

  lemma {:induction false} TextIsUtf8(text: seq<Scalar>)
    ensures Utf8(EncodeText(text))
  {
    if text != [] {
      var e, rest := EncodeScalar(text[0]), EncodeText(text[1..]);
      ScalarIsChar(text[0], rest);
      TextIsUtf8(text[1..]);
      assert (e + rest)[|e|..] == rest;
    }
  }

  lemma EncodeTextCons(c: Scalar, text: seq<Scalar>)
    ensures EncodeText([c] + text) == EncodeScalar(c) + EncodeText(text)
  {
    assert ([c] + text)[1..] == text;
  }

  lemma CharThenText(b: Bytes, rest: seq<Scalar>)
    requires CharLen(b) > 0 && b[CharLen(b)..] == EncodeText(rest)
    ensures 0 <= Decoded(b) <= 0x10FFFF && !(0xD800 <= Decoded(b) <= 0xDFFF)
    ensures b == EncodeText([Decoded(b)] + rest)
  {
    CharIsScalar(b);
    EncodeTextCons(Decoded(b), rest);
    assert b == b[..CharLen(b)] + b[CharLen(b)..];
  }

  lemma {:induction false} Utf8IsText(b: Bytes) returns (text: seq<Scalar>)
    requires Utf8(b)
    ensures b == EncodeText(text)
    decreases |b|
  {
    if b == [] {
      text := [];
    } else {
      var rest := Utf8IsText(b[CharLen(b)..]);
      CharThenText(b, rest);
      text := [Decoded(b)] + rest;
    }
  }

  /** The bytes that are valid are exactly the encodings of sequences of characters. */
  lemma Utf8Exactly(b: Bytes)
    ensures Utf8(b) <==> exists text :: b == EncodeText(text)
  {
    if Utf8(b) {
      var text := Utf8IsText(b);
    }
    forall text | b == EncodeText(text) ensures Utf8(b) {
      TextIsUtf8(text);
    }
  }
}
