/** Host names (internal/validate/validate.go), for ASCII: normalising and validating. */
module Hostnames {
  import opened Seqs

  const DOT := '.'

  predicate Blank(c: char) {
    c == ' ' || 9 <= c as int <= 13
  }

  function TrimLeft(s: string): string {
    if s != "" && Blank(s[0]) then TrimLeft(s[1..]) else s
  }

  function TrimRight(s: string): string {
    if s != "" && Blank(s[|s| - 1]) then TrimRight(s[..|s| - 1]) else s
  }

  function LowerChar(c: char): char {
    if 'A' <= c <= 'Z' then (c as int + 32) as char else c
  }

  function Lower(s: string): (r: string)
    ensures |r| == |s|
    ensures forall i :: 0 <= i < |s| ==> r[i] == LowerChar(s[i])
  {
    seq(|s|, i requires 0 <= i < |s| => LowerChar(s[i]))
  }

  /** NormalizeHostname: lower-cased, trimmed, without one trailing dot. */
  function Normalize(h: string): string {
    TrimSuffix(Lower(TrimRight(TrimLeft(h))), [DOT])
  }

  predicate Alnum(c: char) {
    'a' <= c <= 'z' || '0' <= c <= '9'
  }

  predicate Label(l: string) {
    && 1 <= |l| <= 63
    && Alnum(l[0]) && Alnum(l[|l| - 1])
    && forall i :: 0 <= i < |l| ==> Alnum(l[i]) || l[i] == '-'
  }

  /** The regular expression and the length of a host name. */
  predicate WellFormed(h: string) {
    && 1 <= |h| <= 253
    && forall i :: 0 <= i < |Split(h, DOT)| ==> Label(Split(h, DOT)[i])
  }

  /** validate.Hostname, which normalises its argument itself. */
  predicate Valid(h: string) {
    WellFormed(Normalize(h))
  }

  predicate HostChar(c: char) {
    Alnum(c) || c == '-' || c == DOT
  }

  lemma {:induction false} JoinedChars(parts: seq<string>)
    requires parts != [] && forall i :: 0 <= i < |parts| ==> Label(parts[i])
    ensures var h := Join(parts, DOT);
      h != "" && Alnum(h[0]) && Alnum(h[|h| - 1]) && forall i :: 0 <= i < |h| ==> HostChar(h[i])
    decreases |parts|
  {
    if |parts| > 1 {
      JoinedChars(parts[1..]);
    }
  }

  /** A well-formed host name ends with a letter or digit and is its own normal form. */
  lemma WellFormedIsNormal(h: string)
    requires WellFormed(h)
    ensures Normalize(h) == h
    ensures h != "" && Alnum(h[0]) && Alnum(h[|h| - 1]) && forall i :: 0 <= i < |h| ==> HostChar(h[i])
  {
    JoinSplit(h, DOT);
    JoinedChars(Split(h, DOT));
    assert TrimLeft(h) == h && TrimRight(h) == h;
    assert Lower(h) == h;
  }

  lemma TrimmedHost(x: string)
    requires x != "" && HostChar(x[0]) && HostChar(x[|x| - 1])
    ensures TrimRight(TrimLeft(x)) == x
  {
  }

  /** One trailing dot goes. */
  lemma DotNormalized(x: string)
    requires x != "" && forall i :: 0 <= i < |x| ==> HostChar(x[i])
    ensures Normalize(x + [DOT]) == x
  {
    var y := x + [DOT];
    TrimmedHost(y);
    assert Lower(y) == y;
    assert y[..|y| - 1] == x && y[|y| - 1..] == [DOT];
  }

  // ---- Normal forms and well-formed names spelled out ----

  lemma LowerCharExactly(c: char)
    ensures 'a' <= c <= 'z' ==> LowerChar((c as int - 'a' as int + 'A' as int) as char) == c
    ensures !('A' <= c <= 'Z') ==> LowerChar(c) == c
  {
  }

  /** A blank, tab, line feed, vertical tab, form feed or carriage return. */
  predicate White(c: char) {
    c == ' ' || c == '\t' || c == '\n' || c as int == 11 || c as int == 12 || c == '\r'
  }

  predicate AllWhite(s: string) {
    forall i :: 0 <= i < |s| ==> White(s[i])
  }

  lemma {:induction false} TrimmedLeft(a: string, s: string)
    requires AllWhite(a) && (s == "" || !White(s[0]))
    ensures TrimLeft(a + s) == s
  {
    if a == "" {
      assert a + s == s;
    } else {
      assert (a + s)[1..] == a[1..] + s;
      TrimmedLeft(a[1..], s);
    }
  }

  lemma {:induction false} TrimmedRight(s: string, b: string)
    requires AllWhite(b) && (s == "" || !White(s[|s| - 1]))
    ensures TrimRight(s + b) == s
    decreases |b|
  {
    if b == "" {
      assert s + b == s;
    } else {
      var n := |b| - 1;
      assert (s + b)[..|s + b| - 1] == s + b[..n];
      TrimmedRight(s, b[..n]);
    }
  }

  /** White space at either end goes, capitals become small, and one final dot goes. */
  lemma NormalExactly(a: string, s: string, b: string)
    requires AllWhite(a) && AllWhite(b)
    requires s != "" && !White(s[0]) && !White(s[|s| - 1])
    ensures Normalize(a + s + b) == Lower(if s[|s| - 1] == '.' then s[..|s| - 1] else s)
  {
    Assoc(a, s, b);
    TrimmedLeft(a, s + b);
    TrimmedRight(s, b);
    var l := Lower(s);
    assert HasSuffix(l, [DOT]) <==> s[|s| - 1] == '.';
    assert Lower(s[..|s| - 1]) == l[..|s| - 1];
  }

  // ---- Well-formed names without their labels ----

  /** Small letters, digits, hyphens and dots; letters or digits at both ends and beside every
      dot; and no 64 characters in a row without a dot. */
  ghost predicate NameShape(h: string) {
    && Ends(h)
    && (forall i :: 0 <= i < |h| ==> (LetterOrDigit(h[i]) || h[i] == '-' || h[i] == '.') && Beside(h, i))
    && (forall i :: 0 <= i && i + 64 <= |h| ==> DotWithin(h, i))
  }

  /** The ASCII codes of a to z and 0 to 9. */
  predicate LetterOrDigit(c: char) {
    97 <= c as int <= 122 || 48 <= c as int <= 57
  }

  predicate Ends(h: string) {
    h != "" && LetterOrDigit(h[0]) && LetterOrDigit(h[|h| - 1])
  }

  predicate Beside(h: string, i: nat)
    requires i < |h|
  {
    h[i] == '.' ==> 0 < i < |h| - 1 && LetterOrDigit(h[i - 1]) && LetterOrDigit(h[i + 1])
  }

  ghost predicate DotWithin(h: string, i: int)
    requires 0 <= i && i + 64 <= |h|
  {
    exists j :: i <= j < i + 64 && h[j] == '.'
  }

  predicate AllLabels(parts: seq<string>) {
    forall i :: 0 <= i < |parts| ==> Label(parts[i])
  }

  lemma OneLabelShape(h: string)
    requires DOT !in h
    ensures Label(h) <==> NameShape(h)
  {
    assert forall i :: 0 <= i < |h| ==> h[i] != '.';
    if |h| > 63 {
      assert 0 + 64 <= |h|;
      assert !DotWithin(h, 0);
    }
  }

  lemma HeadShape(head: string, tail: string)
    requires DOT !in head && NameShape(head + [DOT] + tail)
    ensures NameShape(head)
  {
    var h, n := head + [DOT] + tail, |head|;
    assert h[n] == '.' && Beside(h, n);
    forall i | 0 <= i < n ensures HostChar(head[i]) && Beside(head, i) {
      assert h[i] == head[i] && HostChar(h[i]);
    }
    assert head[0] == h[0] && head[n - 1] == h[n - 1];
    assert |h| >= 64 ==> DotWithin(h, 0);
    assert n < 64;
  }

  lemma TailShape(head: string, tail: string)
    requires NameShape(head + [DOT] + tail)
    ensures NameShape(tail)
  {
    var h, n := head + [DOT] + tail, |head| + 1;
    assert h[n - 1] == '.' && Beside(h, n - 1);
    assert tail[0] == h[n] && tail[|tail| - 1] == h[|h| - 1];
    forall i | 0 <= i < |tail| ensures HostChar(tail[i]) && Beside(tail, i) {
      assert h[n + i] == tail[i] && HostChar(h[n + i]) && Beside(h, n + i);
    }
    forall i | 0 <= i && i + 64 <= |tail| ensures DotWithin(tail, i) {
      assert DotWithin(h, n + i);
      var j :| n + i <= j < n + i + 64 && h[j] == '.';
      assert tail[j - n] == '.';
    }
  }

  lemma ShapeOfTwo(head: string, tail: string)
    requires DOT !in head && NameShape(head) && NameShape(tail)
    ensures NameShape(head + [DOT] + tail)
  {
    var h, n := head + [DOT] + tail, |head| + 1;
    OneLabelShape(head);
    forall i | 0 <= i < |h| ensures HostChar(h[i]) && Beside(h, i) {
      if i < n - 1 {
        assert h[i] == head[i] && HostChar(head[i]);
      } else if i >= n {
        assert h[i] == tail[i - n] && HostChar(tail[i - n]) && Beside(tail, i - n);
      }
    }
    forall i | 0 <= i && i + 64 <= |h| ensures DotWithin(h, i) {
      if i < n {
        assert h[n - 1] == '.';
      } else {
        assert DotWithin(tail, i - n);
        var j :| i - n <= j < i - n + 64 && tail[j] == '.';
        assert h[n + j] == '.';
      }
    }
  }

  lemma ShapeInTwo(head: string, tail: string)
    requires DOT !in head
    ensures NameShape(head + [DOT] + tail) <==> NameShape(head) && NameShape(tail)
  {
    if NameShape(head + [DOT] + tail) {
      HeadShape(head, tail);
      TailShape(head, tail);
    }
    if NameShape(head) && NameShape(tail) {
      ShapeOfTwo(head, tail);
    }
  }

  lemma AllLabelsCons(head: string, parts: seq<string>)
    ensures AllLabels([head] + parts) <==> Label(head) && AllLabels(parts)
  {
    var all := [head] + parts;
    assert all[0] == head && forall i :: 0 <= i < |parts| ==> all[i + 1] == parts[i];
  }

  lemma {:induction false} LabelsShape(h: string)
    ensures AllLabels(Split(h, DOT)) <==> NameShape(h)
    decreases |h|
  {
    var i := IndexOf(h, DOT);
    if i == |h| {
      OneLabelShape(h);
      SplitWhole(h, DOT);
      assert [h] == [h] + [];
      AllLabelsCons(h, []);
    } else {
      var head, tail := h[..i], h[i + 1..];
      AroundIndex(h, i);
      SplitHead(head, DOT, tail);
      LabelsShape(tail);
      OneLabelShape(head);
      AllLabelsCons(head, Split(tail, DOT));
      ShapeInTwo(head, tail);
    }
  }

  /** A host name is well-formed exactly when it has at most 253 characters and this shape. */
  lemma WellFormedExactly(h: string)
    ensures WellFormed(h) <==> |h| <= 253 && NameShape(h)
  {
    LabelsShape(h);
  }
}
