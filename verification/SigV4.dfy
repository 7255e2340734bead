/** The canonical strings of an AWS signature (internal/awssig/sign.go): percent-encoding as
    in sections 2.1 and 2.3 of RFC 3986, the canonical path and the canonical query.

    The methods build their results step by step, as the source does, and equal the
    functions beside them; the theorems are about those functions and an independent
    decoder. */
module SigV4 {
  import opened Seqs
  import opened Sorting

  const SPACE: Byte := 0x20
  const PERCENT: Byte := 0x25
  const AMP: Byte := 0x26
  const PLUS: Byte := 0x2b
  const SLASH: Byte := 0x2f
  const EQUALS: Byte := 0x3d

  // ---- Percent-encoding ----

  /** A-Z a-z 0-9 - _ . ~ */
  predicate Unreserved(c: Byte) {
    || 0x41 <= c <= 0x5a || 0x61 <= c <= 0x7a || 0x30 <= c <= 0x39
    || c == 0x2d || c == 0x5f || c == 0x2e || c == 0x7e
  }

  function HexDigit(n: int): (d: Byte)
    requires 0 <= n < 16
    ensures 0x30 <= d <= 0x39 || 0x41 <= d <= 0x46
  {
    if n < 10 then 0x30 + n else 0x41 + n - 10
  }

  function HexValue(c: Byte): (n: int)
    ensures -1 <= n < 16
  {
    if 0x30 <= c <= 0x39 then c - 0x30
    else if 0x41 <= c <= 0x46 then c - 0x41 + 10
    else if 0x61 <= c <= 0x66 then c - 0x61 + 10
    else -1
  }

  function EncodeByte(c: Byte): Bytes {
    if Unreserved(c) then [c] else [PERCENT, HexDigit(c / 16), HexDigit(c % 16)]
  }

  function Encode(s: Bytes): Bytes {
    if s == [] then [] else EncodeByte(s[0]) + Encode(s[1..])
  }

  method URIEncode(s: Bytes) returns (r: Bytes)
    ensures r == Encode(s)
  {
    r := [];
    for i := 0 to |s|
      invariant r + Encode(s[i..]) == Encode(s)
    {
      var ch := s[i];
      ghost var before := r;
      assert Encode(s[i..]) == EncodeByte(ch) + Encode(s[i + 1..]) by {
        assert s[i..][1..] == s[i + 1..];
      }
      if 0x41 <= ch <= 0x5a || 0x61 <= ch <= 0x7a || 0x30 <= ch <= 0x39 || ch == 0x2d || ch == 0x5f || ch == 0x2e || ch == 0x7e {
        r := r + [ch];
      } else {
        r := r + [PERCENT, HexDigit(ch / 16), HexDigit(ch % 16)];
      }
      assert r == before + EncodeByte(ch);
      Assoc(before, EncodeByte(ch), Encode(s[i + 1..]));
    }
  }

  /** Percent-decoding; with `plus`, also + for a blank, as in a query. None for a % without
      two hexadecimal digits. */
  function Decode(s: Bytes, plus: bool): Option<Bytes>
    decreases |s|
  {
    if s == [] then Some([])
    else if s[0] == PERCENT then
      if |s| < 3 || HexValue(s[1]) < 0 || HexValue(s[2]) < 0 then None
      else
        var rest := Decode(s[3..], plus);
        if rest.None? then None else Some([16 * HexValue(s[1]) + HexValue(s[2])] + rest.value)
    else
      var rest := Decode(s[1..], plus);
      if rest.None? then None else Some([if plus && s[0] == PLUS then SPACE else s[0]] + rest.value)
  }

  lemma HexRoundTrip(c: Byte)
    ensures 16 * HexValue(HexDigit(c / 16)) + HexValue(HexDigit(c % 16)) == c
    ensures HexValue(HexDigit(c / 16)) >= 0 && HexValue(HexDigit(c % 16)) >= 0
  {
  }

  /** Decoding undoes encoding, with either meaning of +. */
  lemma {:induction false} DecodeEncode(s: Bytes, plus: bool)
    ensures Decode(Encode(s), plus) == Some(s)
    decreases |s|
  {
    if s != [] {
      DecodeEncode(s[1..], plus);
      HexRoundTrip(s[0]);
      var e := EncodeByte(s[0]);
      assert Encode(s)[|e|..] == Encode(s[1..]);
      assert s == [s[0]] + s[1..];
    }
  }

  lemma EncodeInjective(s: Bytes, t: Bytes)
    requires Encode(s) == Encode(t)
    ensures s == t
  {
    DecodeEncode(s, false);
    DecodeEncode(t, false);
  }

  predicate UpperHex(c: Byte) {
    0x30 <= c <= 0x39 || 0x41 <= c <= 0x46
  }

  /** Only unreserved characters, and % with two uppercase hexadecimal digits for others. */
  predicate Encoded(s: Bytes)
    decreases |s|
  {
    || s == []
    || (Unreserved(s[0]) && Encoded(s[1..]))
    || (s[0] == PERCENT && |s| >= 3 && UpperHex(s[1]) && UpperHex(s[2])
        && !Unreserved(16 * HexValue(s[1]) + HexValue(s[2])) && Encoded(s[3..]))
  }

  lemma {:induction false} EncodeIsEncoded(s: Bytes)
    ensures Encoded(Encode(s))
    decreases |s|
  {
    if s != [] {
      EncodeIsEncoded(s[1..]);
      HexRoundTrip(s[0]);
      assert Encode(s)[|EncodeByte(s[0])|..] == Encode(s[1..]);
    }
  }

  lemma EncodeCons(c: Byte, rest: Bytes)
    ensures Encode([c] + rest) == EncodeByte(c) + Encode(rest)
  {
    assert ([c] + rest)[1..] == rest;
  }

  lemma HexDecoded(a: Byte, b: Byte)
    requires UpperHex(a) && UpperHex(b)
    ensures var c := 16 * HexValue(a) + HexValue(b);
      0 <= c < 256 && HexDigit(c / 16) == a && HexDigit(c % 16) == b
  {
    var c := 16 * HexValue(a) + HexValue(b);
    assert c / 16 == HexValue(a) && c % 16 == HexValue(b);
  }

  lemma HexPair(a: Byte, b: Byte, c: Byte)
    requires UpperHex(a) && UpperHex(b) && c == 16 * HexValue(a) + HexValue(b) && !Unreserved(c)
    ensures EncodeByte(c) == [PERCENT, a, b]
  {
    HexDecoded(a, b);
  }

  lemma DecodeTriple(s: Bytes, c: Byte)
    requires |s| >= 3 && s[0] == PERCENT && HexValue(s[1]) >= 0 && HexValue(s[2]) >= 0
    requires c == 16 * HexValue(s[1]) + HexValue(s[2]) && Decode(s[3..], false).Some?
    ensures Decode(s, false) == Some([c] + Decode(s[3..], false).value)
  {
  }

  lemma EncodedTriple(s: Bytes, c: Byte)
    requires |s| >= 3 && s[0] == PERCENT && EncodeByte(c) == [PERCENT, s[1], s[2]]
    requires Decode(s[3..], false).Some? && Encode(Decode(s[3..], false).value) == s[3..]
    ensures Encode([c] + Decode(s[3..], false).value) == s
  {
    EncodeCons(c, Decode(s[3..], false).value);
    assert s == [PERCENT, s[1], s[2]] + s[3..];
  }

  lemma {:induction false} EncodedIsEncode(s: Bytes)
    requires Encoded(s)
    ensures Decode(s, false).Some? && Encode(Decode(s, false).value) == s
    decreases |s|
  {
    if s != [] {
      if Unreserved(s[0]) && Encoded(s[1..]) {
        EncodedIsEncode(s[1..]);
        EncodeCons(s[0], Decode(s[1..], false).value);
        assert s == [s[0]] + s[1..];
      } else {
        EncodedIsEncode(s[3..]);
        var c := 16 * HexValue(s[1]) + HexValue(s[2]);
        HexPair(s[1], s[2], c);
        DecodeTriple(s, c);
        EncodedTriple(s, c);
      }
    }
  }

  /** Exactly the encoded strings are encodings of something. */
  lemma EncodedIffEncode(s: Bytes)
    ensures Encoded(s) <==> exists t :: s == Encode(t)
  {
    if Encoded(s) {
      EncodedIsEncode(s);
      assert s == Encode(Decode(s, false).value);
    }
    forall t | s == Encode(t) ensures Encoded(s) {
      EncodeIsEncoded(t);
    }
  }

  lemma {:induction false} EncodeHoldsNo(s: Bytes, c: Byte)
    requires c == AMP || c == EQUALS || c == SLASH || c == PLUS || c == SPACE
    ensures c !in Encode(s)
    decreases |s|
  {
    if s != [] {
      EncodeHoldsNo(s[1..], c);
    }
  }

  // ---- Paths ----

  function EncodeAll(segs: seq<Bytes>): (r: seq<Bytes>)
    ensures |r| == |segs|
    ensures forall i :: 0 <= i < |segs| ==> r[i] == Encode(segs[i])
  {
    seq(|segs|, i requires 0 <= i < |segs| => Encode(segs[i]))
  }

  function EncodedPath(p: Bytes): Bytes {
    if p == [] then [SLASH] else Join(EncodeAll(Split(p, SLASH)), SLASH)
  }

  method URIEncodePath(p: Bytes) returns (r: Bytes)
    ensures r == EncodedPath(p)
  {
    if p == [] {
      return [SLASH];
    }
    var parts := Split(p, SLASH);
    var segs := new Bytes[|parts|](i requires 0 <= i < |parts| => parts[i]);
    for i := 0 to |parts|
      invariant forall j :: 0 <= j < i ==> segs[j] == Encode(parts[j])
      invariant forall j :: i <= j < |parts| ==> segs[j] == parts[j]
    {
      segs[i] := URIEncode(segs[i]);
    }
    assert segs[..] == EncodeAll(parts);
    return Join(segs[..], SLASH);
  }

  /** A non-empty path keeps its segments, each of which decodes back. */
  lemma PathKeepsSegments(p: Bytes)
    requires p != []
    ensures var segs, encoded := Split(p, SLASH), Split(EncodedPath(p), SLASH);
      && |encoded| == |segs|
      && forall i :: 0 <= i < |segs| ==> encoded[i] == Encode(segs[i]) && Decode(encoded[i], false) == Some(segs[i])
  {
    var segs := Split(p, SLASH);
    var encoded := EncodeAll(segs);
    forall i | 0 <= i < |segs| ensures SLASH !in encoded[i] && Decode(encoded[i], false) == Some(segs[i]) {
      EncodeHoldsNo(segs[i], SLASH);
      DecodeEncode(segs[i], false);
    }
    SplitJoin(encoded, SLASH);
  }

  /** Two paths are encoded alike only when they are the same path, or the empty one and
      "/". */
  lemma PathAlmostInjective(p: Bytes, q: Bytes)
    ensures EncodedPath(p) == EncodedPath(q) <==> p == q || (p in {[], [SLASH]} && q in {[], [SLASH]})
  {
    SlashPath();
    if p != [] && q != [] && EncodedPath(p) == EncodedPath(q) {
      PathsEqual(p, q);
    } else if p == [] && q != [] && EncodedPath(q) == [SLASH] {
      PathsEqual([SLASH], q);
    } else if q == [] && p != [] && EncodedPath(p) == [SLASH] {
      PathsEqual([SLASH], p);
    }
  }

  lemma SlashPath()
    ensures EncodedPath([SLASH]) == [SLASH]
  {
    var s: Bytes := [SLASH];
    SplitHead([], SLASH, []);
    assert [] + s + [] == s;
    SplitWhole<Byte>([], SLASH);
    var e: Bytes := [];
    assert Split(s, SLASH) == [e, e];
    assert EncodeAll([e, e]) == [e, e];
    assert [e, e][1..] == [e];
    assert Join([e, e], SLASH) == e + [SLASH] + Join([e], SLASH);
  }

  lemma PathsEqual(p: Bytes, q: Bytes)
    requires p != [] && q != [] && EncodedPath(p) == EncodedPath(q)
    ensures p == q
  {
    PathKeepsSegments(p);
    PathKeepsSegments(q);
    var a, b := Split(p, SLASH), Split(q, SLASH);
    assert |a| == |b|;
    forall i | 0 <= i < |a| ensures a[i] == b[i] {
      EncodeInjective(a[i], b[i]);
    }
    assert a == b;
    JoinSplit(p, SLASH);
    JoinSplit(q, SLASH);
  }

  // ---- Queries ----

  datatype Pair = Pair(key: Bytes, value: Bytes)

  /** url.QueryUnescape, whose error the source drops: a malformed text reads as empty. */
  function Unescaped(s: Bytes): Bytes {
    var d := Decode(s, true);
    if d.None? then [] else d.value
  }

  /** A part up to its first =, and what follows. */
  function Cut(part: Bytes): Pair {
    var i := IndexOf(part, EQUALS);
    if i < |part| then Pair(part[..i], part[i + 1..]) else Pair(part, [])
  }

  function DecodedPair(part: Bytes): Pair {
    Pair(Unescaped(Cut(part).key), Unescaped(Cut(part).value))
  }

  function EncodedPair(p: Pair): Pair {
    Pair(Encode(p.key), Encode(p.value))
  }

  function Rendered(p: Pair): Bytes {
    p.key + [EQUALS] + p.value
  }

  function NonEmpty(parts: seq<Bytes>): seq<Bytes> {
    if parts == [] then [] else (if parts[0] == [] then [] else [parts[0]]) + NonEmpty(parts[1..])
  }

  function Parts(raw: Bytes): seq<Bytes> {
    NonEmpty(Split(raw, AMP))
  }

  /** What a query says: its pairs, decoded, in order. */
  function DecodedPairs(raw: Bytes): seq<Pair> {
    Map(DecodedPair, Parts(raw))
  }

  /** By key, then by value, in byte order. */
  predicate PairLeq(a: Pair, b: Pair) {
    if a.key != b.key then Less(a.key, b.key) else !Less(b.value, a.value)
  }

  /** The encoded pairs in order, joined. */
  function Listed(ds: seq<Pair>): Bytes {
    Join(Map(Rendered, Sort(PairLeq, Map(EncodedPair, ds))), AMP)
  }

  function Canonical(raw: Bytes): Bytes {
    Listed(DecodedPairs(raw))
  }

  /** sort.Slice: whatever the algorithm, the slice ends up in order. */
  method SortPairs(pairs: array<Pair>)
    modifies pairs
    ensures pairs[..] == Sort(PairLeq, old(pairs[..]))
  {
    ghost var was := pairs[..];
    PairLeqTotal();
    SortSorts(PairLeq, was);
    var sorted := Sort(PairLeq, pairs[..]);
    SortLength(PairLeq, was);
    forall i | 0 <= i < pairs.Length {
      pairs[i] := sorted[i];
    }
    assert pairs[..] == sorted;
  }

  lemma NonEmptyFirst(done: seq<Bytes>, parts: seq<Bytes>, i: nat)
    requires i < |parts|
    ensures done + NonEmpty(parts[i..]) == (if parts[i] == [] then done else done + [parts[i]]) + NonEmpty(parts[i + 1..])
  {
    assert parts[i..][1..] == parts[i + 1..];
    if parts[i] == [] {
      assert [] + NonEmpty(parts[i + 1..]) == NonEmpty(parts[i + 1..]);
    } else {
      Assoc(done, [parts[i]], NonEmpty(parts[i + 1..]));
    }
  }

  /** The first loop of `CanonicalQuery`. */
  method EncodeParts(parts: seq<Bytes>) returns (pairs: seq<Pair>)
    ensures pairs == Map(EncodedPair, Map(DecodedPair, NonEmpty(parts)))
  {
    pairs := [];
    ghost var done: seq<Bytes> := [];
    for i := 0 to |parts|
      invariant done + NonEmpty(parts[i..]) == NonEmpty(parts)
      invariant pairs == Map(EncodedPair, Map(DecodedPair, done))
    {
      var p := parts[i];
      NonEmptyFirst(done, parts, i);
      if p == [] {
        continue;
      }
      var c := Cut(p);
      var k := URIEncode(Unescaped(c.key));
      var v := URIEncode(Unescaped(c.value));
      assert Map(EncodedPair, Map(DecodedPair, done + [p])) == pairs + [Pair(k, v)];
      pairs := pairs + [Pair(k, v)];
      done := done + [p];
    }
  }

  method CanonicalQuery(raw: Bytes) returns (r: Bytes)
    ensures r == Canonical(raw)
  {
    if raw == [] {
      SplitWhole(raw, AMP);
      assert NonEmpty([raw]) == [];
      return [];
    }
    var encoded := EncodeParts(Split(raw, AMP));
    var pairs := new Pair[|encoded|](i requires 0 <= i < |encoded| => encoded[i]);
    assert pairs[..] == encoded;
    SortPairs(pairs);
    var out := RenderPairs(pairs);
    return Join(out[..], AMP);
  }

  /** The second loop of `CanonicalQuery`. */
  method RenderPairs(pairs: array<Pair>) returns (out: array<Bytes>)
    ensures fresh(out) && out[..] == Map(Rendered, pairs[..])
  {
    out := new Bytes[pairs.Length];
    for i := 0 to pairs.Length
      invariant forall j :: 0 <= j < i ==> out[j] == Rendered(pairs[j])
    {
      out[i] := pairs[i].key + [EQUALS] + pairs[i].value;
    }
  }

  lemma PairLeqTotal()
    ensures TotalOrder(PairLeq)
  {
    forall x: Pair, y: Pair
      ensures PairLeq(x, y) || PairLeq(y, x)
      ensures PairLeq(x, y) && PairLeq(y, x) ==> x == y
    {
      LessTrichotomy(x.key, y.key);
      LessTrichotomy(x.value, y.value);
    }
    forall x: Pair, y: Pair, z: Pair | PairLeq(x, y) && PairLeq(y, z) ensures PairLeq(x, z) {
      PairLeqTransitive(x, y, z);
    }
  }

  lemma PairLeqTransitive(x: Pair, y: Pair, z: Pair)
    requires PairLeq(x, y) && PairLeq(y, z)
    ensures PairLeq(x, z)
  {
    if x.key != y.key && y.key != z.key {
      LessTransitive(x.key, y.key, z.key);
      LessTrichotomy(x.key, z.key);
    } else if x.key == y.key == z.key {
      LessTrichotomy(x.value, y.value);
      LessTrichotomy(y.value, z.value);
      LessTrichotomy(x.value, z.value);
      if Less(z.value, x.value) {
        if Less(x.value, y.value) {
          LessTransitive(z.value, x.value, y.value);
        }
      }
    }
  }

  // ---- The canonical query is a canonical form ----

  /** A rendered encoded pair is cut back into itself. */
  lemma CutRendered(d: Pair)
    ensures Cut(Rendered(EncodedPair(d))) == EncodedPair(d)
    ensures DecodedPair(Rendered(EncodedPair(d))) == d
    ensures Rendered(EncodedPair(d)) != [] && AMP !in Rendered(EncodedPair(d))
  {
    var e := EncodedPair(d);
    var r := Rendered(e);
    EncodeHoldsNo(d.key, EQUALS);
    EncodeHoldsNo(d.key, AMP);
    EncodeHoldsNo(d.value, AMP);
    DecodeEncode(d.key, true);
    DecodeEncode(d.value, true);
    assert r[|e.key|] == EQUALS;
    assert forall j :: 0 <= j < |e.key| ==> r[j] == e.key[j];
    assert IndexOf(r, EQUALS) == |e.key|;
    assert r[..|e.key|] == e.key && r[|e.key| + 1..] == e.value;
  }

  lemma {:induction false} NonEmptyAll(parts: seq<Bytes>)
    requires forall i :: 0 <= i < |parts| ==> parts[i] != []
    ensures NonEmpty(parts) == parts
  {
    if parts != [] {
      NonEmptyAll(parts[1..]);
    }
  }

  /** Rendering encoded pairs and reading the query again gives the pairs back, in order. */
  lemma JoinedPairsReadBack(ds: seq<Pair>)
    ensures DecodedPairs(Join(Map(Rendered, Map(EncodedPair, ds)), AMP)) == ds
  {
    var rs := Map(Rendered, Map(EncodedPair, ds));
    forall i | 0 <= i < |ds| ensures rs[i] != [] && AMP !in rs[i] && DecodedPair(rs[i]) == ds[i] {
      CutRendered(ds[i]);
    }
    if ds == [] {
      SplitWhole<Byte>([], AMP);
      assert NonEmpty([[]]) == [];
    } else {
      SplitJoin(rs, AMP);
      NonEmptyAll(rs);
    }
  }

  lemma MultisetCons<T>(s: seq<T>)
    requires s != []
    ensures multiset(s) == multiset{s[0]} + multiset(s[1..])
  {
    assert s == [s[0]] + s[1..];
  }

  lemma MultisetWithout<T>(s: seq<T>, i: nat)
    requires i < |s|
    ensures multiset(s) == multiset{s[i]} + multiset(s[..i] + s[i + 1..])
  {
    assert s == s[..i] + [s[i]] + s[i + 1..];
  }

  /** The elements of Map(f, s). */
  ghost function Image<A, B>(f: A -> B, s: seq<A>): multiset<B> {
    if s == [] then multiset{} else multiset{f(s[0])} + Image(f, s[1..])
  }

  lemma {:induction false} ImageIsMap<A, B>(f: A -> B, s: seq<A>)
    ensures Image(f, s) == multiset(Map(f, s))
  {
    if s != [] {
      ImageIsMap(f, s[1..]);
      MultisetCons(Map(f, s));
      assert Map(f, s)[1..] == Map(f, s[1..]);
    }
  }

  lemma {:induction false} ImageWithout<A, B>(f: A -> B, s: seq<A>, i: nat)
    requires i < |s|
    ensures Image(f, s) == multiset{f(s[i])} + Image(f, s[..i] + s[i + 1..])
    decreases i
  {
    var rest := s[..i] + s[i + 1..];
    if i == 0 {
      assert rest == s[1..];
    } else {
      ImageWithout(f, s[1..], i - 1);
      assert rest[0] == s[0] && rest[1..] == s[1..][..i - 1] + s[1..][i..];
    }
  }

  lemma SameLength<T>(s: seq<T>, t: seq<T>)
    requires multiset(s) == multiset(t)
    ensures |s| == |t|
  {
    assert |multiset(s)| == |s| && |multiset(t)| == |t|;
  }

  /** Some element can be taken away on both sides. */
  lemma CommonElement<T>(s: seq<T>, t: seq<T>) returns (i: nat)
    requires s != [] && multiset(s) == multiset(t)
    ensures i < |t| && t[i] == s[0] && multiset(s[1..]) == multiset(t[..i] + t[i + 1..])
  {
    assert s[0] in multiset(t);
    i :| 0 <= i < |t| && t[i] == s[0];
    MultisetCons(s);
    MultisetWithout(t, i);
    assert multiset(s[1..]) == multiset(s) - multiset{s[0]};
  }

  lemma {:induction false} ImageRearranged<A, B>(f: A -> B, s: seq<A>, t: seq<A>)
    requires multiset(s) == multiset(t)
    ensures Image(f, s) == Image(f, t)
    decreases |s|
  {
    SameLength(s, t);
    if s != [] {
      var i := CommonElement(s, t);
      ImageRearranged(f, s[1..], t[..i] + t[i + 1..]);
      ImageWithout(f, t, i);
    }
  }

  /** Mapping respects rearrangement. */
  lemma MapRearranged<A, B>(f: A -> B, s: seq<A>, t: seq<A>)
    requires multiset(s) == multiset(t)
    ensures multiset(Map(f, s)) == multiset(Map(f, t))
  {
    ImageRearranged(f, s, t);
    ImageIsMap(f, s);
    ImageIsMap(f, t);
  }

  function DecodedBack(e: Pair): Pair {
    Pair(Unescaped(e.key), Unescaped(e.value))
  }

  lemma DecodedBackEncoded(ds: seq<Pair>)
    ensures Map(DecodedBack, Map(EncodedPair, ds)) == ds
  {
    forall i | 0 <= i < |ds| ensures DecodedBack(EncodedPair(ds[i])) == ds[i] {
      DecodeEncode(ds[i].key, true);
      DecodeEncode(ds[i].value, true);
    }
  }

  /** The sorted encoded pairs are the encodings of some rearrangement of the pairs. */
  lemma SortedEncodings(ds: seq<Pair>) returns (sorted: seq<Pair>)
    ensures Sort(PairLeq, Map(EncodedPair, ds)) == Map(EncodedPair, sorted)
    ensures multiset(sorted) == multiset(ds)
  {
    var es := Map(EncodedPair, ds);
    var order := Sort(PairLeq, es);
    PairLeqTotal();
    SortSorts(PairLeq, es);
    sorted := Map(DecodedBack, order);
    forall i | 0 <= i < |order| ensures EncodedPair(DecodedBack(order[i])) == order[i] {
      assert order[i] in multiset(order);
      var j :| 0 <= j < |es| && es[j] == order[i];
      DecodedBackEncoded(ds);
      assert DecodedBack(es[j]) == ds[j];
    }
    assert Map(EncodedPair, sorted) == order;
    MapRearranged(DecodedBack, order, es);
    DecodedBackEncoded(ds);
  }

  /** Reading a listing gives the pairs rearranged, in the ascending order of their
      encodings, and the listing is the rendering of just these. */
  lemma {:induction false} ListedReadsBack(ds: seq<Pair>)
    ensures var read := DecodedPairs(Listed(ds));
      && multiset(read) == multiset(ds)
      && Ascending(PairLeq, Map(EncodedPair, read))
      && Listed(ds) == Join(Map(Rendered, Map(EncodedPair, read)), AMP)
  {
    var sorted := SortedEncodings(ds);
    JoinedPairsReadBack(sorted);
    PairLeqTotal();
    SortSorts(PairLeq, Map(EncodedPair, ds));
  }

  /** Rearranged pairs have the same listing. */
  lemma {:induction false} ListedIgnoresOrder(ds: seq<Pair>, ds': seq<Pair>)
    requires multiset(ds) == multiset(ds')
    ensures Listed(ds) == Listed(ds')
  {
    var e, e' := Map(EncodedPair, ds), Map(EncodedPair, ds');
    MapRearranged(EncodedPair, ds, ds');
    PairLeqTotal();
    SortSorts(PairLeq, e);
    SortSorts(PairLeq, e');
    AscendingUnique(PairLeq, Sort(PairLeq, e), Sort(PairLeq, e'));
  }

  /** Two lists of pairs have the same listing exactly when they are rearrangements of each
      other. */
  lemma {:induction false} ListedExactly(ds: seq<Pair>, ds': seq<Pair>)
    ensures Listed(ds) == Listed(ds') <==> multiset(ds) == multiset(ds')
  {
    ListedReadsBack(ds);
    ListedReadsBack(ds');
    if multiset(ds) == multiset(ds') {
      ListedIgnoresOrder(ds, ds');
    }
  }

  /** The output lists the encoded pairs in ascending order, and decoding it gives a
      rearrangement of what the input said. */
  lemma {:induction false} CanonicalSaysTheSame(raw: Bytes)
    ensures var read := DecodedPairs(Canonical(raw));
      && multiset(read) == multiset(DecodedPairs(raw))
      && Ascending(PairLeq, Map(EncodedPair, read))
      && Canonical(raw) == Join(Map(Rendered, Map(EncodedPair, read)), AMP)
  {
    ListedReadsBack(DecodedPairs(raw));
  }

  /** The main theorem: two queries have the same canonical form exactly when they say the
      same, as multisets of decoded pairs. */
  lemma {:induction false} CanonicalForm(raw: Bytes, raw': Bytes)
    ensures Canonical(raw) == Canonical(raw') <==> multiset(DecodedPairs(raw)) == multiset(DecodedPairs(raw'))
  {
    ListedExactly(DecodedPairs(raw), DecodedPairs(raw'));
  }

  lemma {:induction false} CanonicalIdempotent(raw: Bytes)
    ensures Canonical(Canonical(raw)) == Canonical(raw)
  {
    CanonicalSaysTheSame(raw);
    CanonicalForm(Canonical(raw), raw);
  }

  lemma {:induction false} NonEmptyRearranged(s: seq<Bytes>, t: seq<Bytes>)
    requires multiset(s) == multiset(t)
    ensures multiset(NonEmpty(s)) == multiset(NonEmpty(t))
    decreases |s|
  {
    NonEmptyCounts(s);
    NonEmptyCounts(t);
  }

  lemma {:induction false} NonEmptyCounts(s: seq<Bytes>)
    ensures multiset(NonEmpty(s)) == multiset(s)[[] := 0]
  {
    if s != [] {
      NonEmptyCounts(s[1..]);
      MultisetCons(s);
      assert NonEmpty(s) == (if s[0] == [] then [] else [s[0]]) + NonEmpty(s[1..]);
    }
  }

  /** The order of the parts of a query does not matter. */
  lemma {:induction false} CanonicalIgnoresOrder(raw: Bytes, raw': Bytes)
    requires multiset(Split(raw, AMP)) == multiset(Split(raw', AMP))
    ensures Canonical(raw) == Canonical(raw')
  {
    NonEmptyRearranged(Split(raw, AMP), Split(raw', AMP));
    MapRearranged(DecodedPair, Parts(raw), Parts(raw'));
    CanonicalForm(raw, raw');
  }

  // ---- The canonical query spelled out ----

  /** The names in byte order, equal names by their values. */
  ghost predicate InByteOrder(key: Bytes, value: Bytes, key': Bytes, value': Bytes) {
    Before(key, key') || (key == key' && (Before(value, value') || value == value'))
  }

  function Spelled(read: seq<Pair>): (r: seq<Bytes>)
    ensures |r| == |read|
    ensures forall i :: 0 <= i < |read| ==> r[i] == Encode(read[i].key) + [0x3d] + Encode(read[i].value)
  {
    seq(|read|, i requires 0 <= i < |read| => Encode(read[i].key) + [0x3d] + Encode(read[i].value))
  }

  /** The canonical query is the encoded pairs, each with its =, joined by &, in ascending
      byte order; reading it gives exactly these pairs. */
  lemma {:induction false} CanonicalSpelledOut(raw: Bytes)
    ensures var read := DecodedPairs(Canonical(raw));
      && Canonical(raw) == Join(Spelled(read), 0x26)
      && forall i, j :: 0 <= i < j < |read| ==>
           InByteOrder(Encode(read[i].key), Encode(read[i].value), Encode(read[j].key), Encode(read[j].value))
  {
    CanonicalSaysTheSame(raw);
    var read := DecodedPairs(Canonical(raw));
    var es := Map(EncodedPair, read);
    assert Map(Rendered, es) == Spelled(read);
    forall i, j | 0 <= i < j < |read|
      ensures InByteOrder(Encode(read[i].key), Encode(read[i].value), Encode(read[j].key), Encode(read[j].value))
    {
      assert PairLeq(es[i], es[j]);
      PairLeqInByteOrder(es[i], es[j]);
    }
  }

  lemma PairLeqInByteOrder(a: Pair, b: Pair)
    requires PairLeq(a, b)
    ensures InByteOrder(a.key, a.value, b.key, b.value)
  {
    LessIsBefore(a.key, b.key);
    LessIsBefore(a.value, b.value);
    LessTrichotomy(a.value, b.value);
  }

  lemma {:induction false} NonEmptyAppend(a: seq<Bytes>, b: seq<Bytes>)
    ensures NonEmpty(a + b) == NonEmpty(a) + NonEmpty(b)
  {
    if a == [] {
      assert a + b == b;
    } else {
      assert (a + b)[1..] == a[1..] + b;
      NonEmptyAppend(a[1..], b);
    }
  }

  lemma SplitAfterHead(head: Bytes, tail: Bytes, b: Bytes)
    requires AMP !in head && Split(tail + [AMP] + b, AMP) == Split(tail, AMP) + Split(b, AMP)
    ensures Split((head + [AMP] + tail) + [AMP] + b, AMP) == Split(head + [AMP] + tail, AMP) + Split(b, AMP)
  {
    SplitHead(head, AMP, tail);
    SplitHead(head, AMP, tail + [AMP] + b);
    Assoc(head + [AMP], tail, [AMP] + b);
    Assoc(tail, [AMP], b);
    Assoc(head + [AMP] + tail, [AMP], b);
    Assoc([head], Split(tail, AMP), Split(b, AMP));
  }

  lemma {:induction false} SplitAppend(a: Bytes, b: Bytes)
    ensures Split(a + [AMP] + b, AMP) == Split(a, AMP) + Split(b, AMP)
    decreases |a|
  {
    var i := IndexOf(a, AMP);
    if i == |a| {
      SplitHead(a, AMP, b);
      SplitWhole(a, AMP);
    } else {
      AroundIndex(a, i);
      SplitAppend(a[i + 1..], b);
      SplitAfterHead(a[..i], a[i + 1..], b);
    }
  }

  lemma MapAppend<A, B>(f: A -> B, s: seq<A>, t: seq<A>)
    ensures Map(f, s + t) == Map(f, s) + Map(f, t)
  {
  }

  /** What a query says is what its parts between & say, in order; an empty part says
      nothing. */
  lemma QueryInParts(a: Bytes, b: Bytes)
    ensures DecodedPairs([]) == []
    ensures DecodedPairs(a + [0x26] + b) == DecodedPairs(a) + DecodedPairs(b)
    ensures a != [] && 0x26 !in a ==> DecodedPairs(a) == [DecodedPair(a)]
  {
    SplitAppend(a, b);
    NonEmptyAppend(Split(a, AMP), Split(b, AMP));
    MapAppend(DecodedPair, Parts(a), Parts(b));
    OnePart([]);
    OnePart(a);
  }

  lemma OnePart(part: Bytes)
    ensures 0x26 !in part ==> DecodedPairs(part) == if part == [] then [] else [DecodedPair(part)]
  {
    if AMP !in part {
      SplitWhole(part, AMP);
      if part != [] {
        NonEmptyAll([part]);
      } else {
        assert NonEmpty([part]) == [];
      }
    }
  }

  /** A part is cut at its first =; without one it is a key with an empty value. */
  lemma PartReads(key: Bytes, value: Bytes)
    requires 0x3d !in key
    ensures DecodedPair(key + [0x3d] + value) == Pair(Unescaped(key), Unescaped(value))
    ensures DecodedPair(key) == Pair(Unescaped(key), [])
  {
    var part := key + [EQUALS] + value;
    assert part[|key|] == EQUALS;
    assert forall j :: 0 <= j < |key| ==> part[j] == key[j];
    assert IndexOf(part, EQUALS) == |key|;
    assert part[..|key|] == key && part[|key| + 1..] == value;
  }

  /** The value of a hexadecimal digit: 0 to 9, and A to F in either case. */
  ghost predicate DigitOf(c: Byte, n: nat) {
    || (n < 10 && c == 0x30 + n)
    || (10 <= n < 16 && (c == 0x41 + (n - 10) || c == 0x61 + (n - 10)))
  }

  lemma HexDigits(c: Byte)
    ensures forall n: nat :: DigitOf(c, n) <==> HexValue(c) == n
  {
  }

  function Blanked(s: Bytes): (r: Bytes)
    ensures |r| == |s|
    ensures forall i :: 0 <= i < |s| ==> r[i] == if s[i] == 0x2b then 0x20 else s[i]
  {
    seq(|s|, i requires 0 <= i < |s| => if s[i] == 0x2b then 0x20 else s[i])
  }

  lemma {:induction false} DecodeAfterPlain(plain: Bytes, rest: Bytes)
    requires 0x25 !in plain
    ensures Decode(plain + rest, true) ==
      if Decode(rest, true).None? then None else Some(Blanked(plain) + Decode(rest, true).value)
    decreases |plain|
  {
    if plain == [] {
      assert plain + rest == rest;
      assert Decode(rest, true).Some? ==> Blanked(plain) + Decode(rest, true).value == Decode(rest, true).value;
    } else {
      assert plain[0] in plain && forall x :: x in plain[1..] ==> x in plain;
      assert (plain + rest)[0] == plain[0] && (plain + rest)[1..] == plain[1..] + rest;
      DecodeAfterPlain(plain[1..], rest);
      var first: Byte := if plain[0] == 0x2b then 0x20 else plain[0];
      assert Blanked(plain) == [first] + Blanked(plain[1..]);
      if Decode(rest, true).Some? {
        Assoc([first], Blanked(plain[1..]), Decode(rest, true).value);
      }
    }
  }

  /** Outside escapes + is read as a blank and every other character as itself. */
  lemma PlainReads(plain: Bytes)
    requires 0x25 !in plain
    ensures Unescaped(plain) == Blanked(plain)
  {
    DecodeAfterPlain(plain, []);
    assert plain + [] == plain && Blanked(plain) + [] == Blanked(plain);
  }

  lemma DecodeEscape(hi: Byte, lo: Byte, m: nat, n: nat, rest: Bytes)
    requires DigitOf(hi, m) && DigitOf(lo, n) && Decode(rest, true).Some?
    ensures Decode([0x25, hi, lo] + rest, true) == Some([16 * m + n] + Decode(rest, true).value)
  {
    HexDigits(hi);
    HexDigits(lo);
    var tail := [0x25, hi, lo] + rest;
    assert tail[1] == hi && tail[2] == lo && tail[3..] == rest;
  }

  /** An escape is read as its byte, in either case of its digits. */
  lemma EscapeReads(plain: Bytes, hi: Byte, lo: Byte, m: nat, n: nat, rest: Bytes)
    requires 0x25 !in plain && DigitOf(hi, m) && DigitOf(lo, n) && Decode(rest, true).Some?
    ensures Unescaped(plain + ([0x25, hi, lo] + rest)) == Blanked(plain) + ([16 * m + n] + Unescaped(rest))
  {
    DecodeEscape(hi, lo, m, n, rest);
    DecodeAfterPlain(plain, [0x25, hi, lo] + rest);
  }

  /** A % without two hexadecimal digits makes the whole text read as empty. */
  lemma MalformedReadsEmpty(plain: Bytes, rest: Bytes)
    requires 0x25 !in plain
    requires |rest| < 2 || (forall n :: !DigitOf(rest[0], n)) || (forall n :: !DigitOf(rest[1], n))
    ensures Unescaped(plain + [0x25] + rest) == []
  {
    var tail := [0x25] + rest;
    if |rest| >= 2 {
      HexDigits(rest[0]);
      HexDigits(rest[1]);
      assert tail[1] == rest[0] && tail[2] == rest[1];
      assert HexValue(rest[0]) >= 0 ==> DigitOf(rest[0], HexValue(rest[0]));
      assert HexValue(rest[1]) >= 0 ==> DigitOf(rest[1], HexValue(rest[1]));
    }
    DecodeAfterPlain(plain, tail);
    assert plain + [0x25] + rest == plain + tail;
  }

  /** The characters that stay (section 2.3 of RFC 3986); every other one becomes % and its
      two uppercase digits. */
  lemma EncodeSpelledOut(ch: char, rest: Bytes)
    requires ch < 256 as char
    ensures var c: Byte := ch as int;
      var stays := 'a' <= ch <= 'z' || 'A' <= ch <= 'Z' || '0' <= ch <= '9' || ch == '-' || ch == '.' || ch == '_' || ch == '~';
      && Encode([]) == []
      && (stays ==> Encode([c] + rest) == [c] + Encode(rest))
      && (!stays ==> exists hi: Byte, lo: Byte :: UpperDigits(c, hi, lo) && Encode([c] + rest) == [0x25, hi, lo] + Encode(rest))
  {
    var c: Byte := ch as int;
    EncodeCons(c, rest);
    assert UpperDigitOf(HexDigit(c / 16), c / 16) && UpperDigitOf(HexDigit(c % 16), c % 16);
    assert UpperDigits(c, HexDigit(c / 16), HexDigit(c % 16));
  }

  ghost predicate UpperDigits(c: Byte, hi: Byte, lo: Byte) {
    exists m: nat, n: nat :: UpperDigitOf(hi, m) && UpperDigitOf(lo, n) && c == 16 * m + n
  }

  predicate UpperDigitOf(c: Byte, n: nat) {
    (n < 10 && c == 0x30 + n) || (10 <= n < 16 && c == 0x41 + (n - 10))
  }
}
