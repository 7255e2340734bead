/** The zones a challenge name may belong to (internal/acme/provider.go), for ASCII names. */
module ZoneNames {
  import opened Seqs
  import opened Hostnames

  function TrimDotsLeft(s: string): string {
    if s != "" && s[0] == DOT then TrimDotsLeft(s[1..]) else s
  }

  function TrimDotsRight(s: string): string {
    if s != "" && s[|s| - 1] == DOT then TrimDotsRight(s[..|s| - 1]) else s
  }

  /** strings.Trim(strings.ToLower(fqdn), "."). */
  function HostName(fqdn: string): string {
    TrimDotsRight(TrimDotsLeft(Lower(fqdn)))
  }

  function Candidates(labels: seq<string>, i: nat): seq<string>
    decreases |labels| - i
  {
    if i + 1 >= |labels| then [] else [Join(labels[i..], DOT)] + Candidates(labels, i + 1)
  }

  method ZoneCandidates(fqdn: string) returns (out: seq<string>)
    ensures out == Candidates(Split(HostName(fqdn), DOT), 1)
  {
    var labels := Split(HostName(fqdn), DOT);
    out := [];
    var i := 1;
    while i + 1 < |labels|
      invariant 1 <= i
      invariant out + Candidates(labels, i) == Candidates(labels, 1)
    {
      Assoc(out, [Join(labels[i..], DOT)], Candidates(labels, i + 1));
      out := out + [Join(labels[i..], DOT)];
      i := i + 1;
    }
  }

  function RelativeName(fqdn: string, zone: string): string {
    TrimSuffix(TrimSuffix(HostName(fqdn), Lower(zone)), [DOT])
  }

  // ---- What the candidates are ----

  lemma {:induction false} JoinAppend(a: seq<string>, b: seq<string>)
    requires a != [] && b != []
    ensures Join(a + b, DOT) == Join(a, DOT) + [DOT] + Join(b, DOT)
    decreases |a|
  {
    if |a| == 1 {
      JoinCons(a[0], b, DOT);
      assert a == [a[0]];
    } else {
      JoinAppend(a[1..], b);
      assert a + b == [a[0]] + (a[1..] + b);
      JoinCons(a[0], a[1..] + b, DOT);
      Assoc(a[0] + [DOT], Join(a[1..], DOT), [DOT] + Join(b, DOT));
      Assoc(a[0] + [DOT] + Join(a[1..], DOT), [DOT], Join(b, DOT));
      Assoc(Join(a[1..], DOT), [DOT], Join(b, DOT));
    }
  }

  /** The labels before and from `i` on make up the name. */
  lemma NameInTwo(name: string, i: nat)
    requires 1 <= i < |Split(name, DOT)|
    ensures var labels := Split(name, DOT);
      name == Join(labels[..i], DOT) + ([DOT] + Join(labels[i..], DOT))
  {
    var labels := Split(name, DOT);
    JoinSplit(name, DOT);
    assert labels == labels[..i] + labels[i..];
    JoinAppend(labels[..i], labels[i..]);
    Assoc(Join(labels[..i], DOT), [DOT], Join(labels[i..], DOT));
  }

  lemma {:induction false} CandidatesAt(labels: seq<string>, i: nat)
    requires i < |labels|
    ensures |Candidates(labels, i)| == |labels| - 1 - i
    ensures forall k :: 0 <= k < |labels| - 1 - i ==> Candidates(labels, i)[k] == Join(labels[i + k..], DOT)
    decreases |labels| - i
  {
    if i + 1 < |labels| {
      CandidatesAt(labels, i + 1);
      var first, rest := Join(labels[i..], DOT), Candidates(labels, i + 1);
      assert Candidates(labels, i) == [first] + rest;
      forall k | 0 <= k < |labels| - 1 - i ensures ([first] + rest)[k] == Join(labels[i + k..], DOT) {
        if k > 0 {
          assert ([first] + rest)[k] == rest[k - 1] == Join(labels[i + 1 + (k - 1)..], DOT);
        }
      }
    }
  }

  lemma LabelsDotless(name: string, i: nat)
    requires i < |Split(name, DOT)|
    ensures forall j :: 0 <= j < |Split(name, DOT)[i..]| ==> DOT !in Split(name, DOT)[i..][j]
  {
    var labels := Split(name, DOT);
    forall j | 0 <= j < |labels[i..]| ensures DOT !in labels[i..][j] {
      assert labels[i..][j] == labels[i + j] && labels[i + j] in labels;
    }
  }

  /** A name that begins at label `i` of the host name. */
  lemma SuffixFrom(name: string, i: nat)
    requires 1 <= i < |Split(name, DOT)|
    ensures var labels := Split(name, DOT);
      var zone := Join(labels[i..], DOT);
      Split(zone, DOT) == labels[i..] && HasSuffix(name, [DOT] + zone)
  {
    var labels := Split(name, DOT);
    var from := labels[i..];
    NameInTwo(name, i);
    LabelsDotless(name, i);
    SplitJoin(from, DOT);
    SuffixOf(Join(labels[..i], DOT), [DOT] + Join(from, DOT), name);
  }

  /** Beginning later gives a shorter suffix. */
  lemma LaterIsShorter(labels: seq<string>, i: nat, j: nat)
    requires i < j < |labels|
    ensures var a, b := Join(labels[i..], DOT), Join(labels[j..], DOT); |a| > |b| && HasSuffix(a, b)
  {
    var from := labels[i..];
    assert from == from[..j - i] + labels[j..];
    JoinAppend(from[..j - i], labels[j..]);
    SuffixOf(Join(from[..j - i], DOT) + [DOT], Join(labels[j..], DOT), Join(from, DOT));
  }

  /** `zone` is the end of the name that begins at label `i`, after a dot. */
  predicate SuffixAt(name: string, labels: seq<string>, zone: string, i: nat) {
    i <= |labels| && Split(zone, DOT) == labels[i..] && HasSuffix(name, [DOT] + zone)
  }

  lemma CandidateSuffix(name: string, k: nat)
    requires k < |Candidates(Split(name, DOT), 1)|
    ensures SuffixAt(name, Split(name, DOT), Candidates(Split(name, DOT), 1)[k], k + 1)
  {
    var labels := Split(name, DOT);
    if |labels| > 1 {
      CandidatesAt(labels, 1);
      SuffixFrom(name, k + 1);
    }
  }

  lemma CandidatesOrdered(labels: seq<string>, k: nat, l: nat)
    requires k < l < |Candidates(labels, 1)|
    ensures var zones := Candidates(labels, 1); |zones[k]| > |zones[l]| && HasSuffix(zones[k], zones[l])
  {
    if |labels| > 1 {
      CandidatesAt(labels, 1);
      LaterIsShorter(labels, k + 1, l + 1);
    }
  }

  /** The candidates are exactly the proper suffixes of the host name that begin at a label
      and have at least two, from the longest to the shortest. */
  lemma CandidatesAreSuffixes(fqdn: string)
    ensures var name := HostName(fqdn);
      var labels, zones := Split(name, DOT), Candidates(Split(name, DOT), 1);
      && |zones| == (if |labels| <= 2 then 0 else |labels| - 2)
      && (forall k :: 0 <= k < |zones| ==> SuffixAt(name, labels, zones[k], k + 1))
      && (forall k, l :: 0 <= k < l < |zones| ==> |zones[k]| > |zones[l]| && HasSuffix(zones[k], zones[l]))
  {
    var name := HostName(fqdn);
    var labels := Split(name, DOT);
    var zones := Candidates(labels, 1);
    if |labels| > 1 {
      CandidatesAt(labels, 1);
    }
    forall k | 0 <= k < |zones| ensures SuffixAt(name, labels, zones[k], k + 1) {
      CandidateSuffix(name, k);
    }
    forall k, l | 0 <= k < l < |zones| ensures |zones[k]| > |zones[l]| && HasSuffix(zones[k], zones[l]) {
      CandidatesOrdered(labels, k, l);
    }
  }

  lemma SuffixOf(a: string, b: string, s: string)
    requires s == a + b
    ensures HasSuffix(s, b)
  {
  }

  // ---- Names in a zone ----

  lemma TrimZone(r: string, z: string)
    ensures TrimSuffix(TrimSuffix(r + ([DOT] + z), z), [DOT]) == r
  {
    var name := r + ([DOT] + z);
    assert name[|r| + 1..] == z;
    assert name[..|r| + 1] == r + [DOT];
    assert (r + [DOT])[|r|..] == [DOT] && (r + [DOT])[..|r|] == r;
  }

  /** The relative name and the zone joined by a dot are the host name again, exactly when
      the zone is a suffix that begins at a label. */
  lemma RelativeNameRoundTrip(fqdn: string, zone: string)
    ensures RelativeName(fqdn, zone) + ([DOT] + Lower(zone)) == HostName(fqdn) <==>
      HasSuffix(HostName(fqdn), [DOT] + Lower(zone))
  {
    var name, z := HostName(fqdn), Lower(zone);
    var r := RelativeName(fqdn, zone);
    if HasSuffix(name, [DOT] + z) {
      var front := name[..|name| - |z| - 1];
      assert name == front + ([DOT] + z);
      TrimZone(front, z);
    }
    if r + ([DOT] + z) == name {
      SuffixOf(r, [DOT] + z, name);
    }
  }

  lemma LowerOnce(s: string)
    ensures Lower(Lower(s)) == Lower(s)
  {
  }

  lemma {:induction false} TrimKeepsLower(s: string)
    requires Lower(s) == s
    ensures Lower(TrimDotsLeft(s)) == TrimDotsLeft(s)
    decreases |s|
  {
    if s != "" && s[0] == DOT {
      assert forall i :: 0 <= i < |s[1..]| ==> LowerChar(s[1..][i]) == s[1..][i] by {
        assert forall i :: 0 <= i < |s| ==> LowerChar(s[i]) == s[i];
      }
      assert Lower(s[1..]) == s[1..];
      TrimKeepsLower(s[1..]);
    }
  }

  lemma {:induction false} TrimRightKeepsLower(s: string)
    requires Lower(s) == s
    ensures Lower(TrimDotsRight(s)) == TrimDotsRight(s)
    decreases |s|
  {
    if s != "" && s[|s| - 1] == DOT {
      var t := s[..|s| - 1];
      assert forall i :: 0 <= i < |t| ==> LowerChar(t[i]) == t[i] by {
        assert forall i :: 0 <= i < |s| ==> LowerChar(s[i]) == s[i];
      }
      assert Lower(t) == t;
      TrimRightKeepsLower(t);
    }
  }

  lemma SuffixKeepsLower(s: string, p: string)
    requires Lower(s) == s && HasSuffix(s, p)
    ensures Lower(p) == p
  {
    var n := |s| - |p|;
    assert forall i :: 0 <= i < |p| ==> p[i] == s[n + i];
    assert forall i :: 0 <= i < |s| ==> LowerChar(s[i]) == s[i];
  }

  /** In every zone the candidates name, the record's relative name is the right one. */
  lemma CandidateRoundTrip(fqdn: string, zone: string)
    requires zone in Candidates(Split(HostName(fqdn), DOT), 1)
    ensures RelativeName(fqdn, zone) + ([DOT] + zone) == HostName(fqdn)
  {
    var name := HostName(fqdn);
    CandidatesAreSuffixes(fqdn);
    var zones := Candidates(Split(name, DOT), 1);
    var k :| 0 <= k < |zones| && zones[k] == zone;
    assert SuffixAt(name, Split(name, DOT), zones[k], k + 1);
    LowerOnce(fqdn);
    TrimKeepsLower(Lower(fqdn));
    TrimRightKeepsLower(TrimDotsLeft(Lower(fqdn)));
    SuffixKeepsLower(name, [DOT] + zone);
    assert Lower([DOT] + zone)[1..] == Lower(zone);
    RelativeNameRoundTrip(fqdn, zone);
  }

  // ---- The host name and the relative name spelled out ----

  function Dots(n: nat): (s: string)
    ensures |s| == n && forall i :: 0 <= i < n ==> s[i] == '.'
  {
    if n == 0 then "" else ['.'] + Dots(n - 1)
  }

  lemma {:induction false} DotsTrimmedLeft(n: nat, s: string)
    requires s == "" || s[0] != '.'
    ensures TrimDotsLeft(Dots(n) + s) == s
  {
    if n == 0 {
      assert Dots(n) + s == s;
    } else {
      assert (Dots(n) + s)[1..] == Dots(n - 1) + s;
      DotsTrimmedLeft(n - 1, s);
    }
  }

  lemma {:induction false} DotsTrimmedRight(s: string, n: nat)
    requires s == "" || s[|s| - 1] != '.'
    ensures TrimDotsRight(s + Dots(n)) == s
  {
    if n == 0 {
      assert s + Dots(n) == s;
    } else {
      var t := s + Dots(n);
      assert t[..|t| - 1] == s + Dots(n - 1);
      assert t[|t| - 1] == DOT;
      DotsTrimmedRight(s, n - 1);
    }
  }

  /** All dots at either end go, and capitals become small. */
  lemma HostNameExactly(a: nat, s: string, b: nat)
    requires s != "" && s[0] != '.' && s[|s| - 1] != '.'
    ensures HostName(Dots(a) + s + Dots(b)) == Lower(s)
    ensures HostName(Dots(a)) == ""
  {
    LowerAppend(Dots(a) + s, Dots(b));
    LowerAppend(Dots(a), s);
    LowerDots(a);
    LowerDots(b);
    Assoc(Dots(a), Lower(s), Dots(b));
    DotsTrimmedLeft(a, Lower(s) + Dots(b));
    DotsTrimmedRight(Lower(s), b);
    assert Dots(a) == Dots(a) + "";
    DotsTrimmedLeft(a, "");
  }

  lemma LowerAppend(s: string, t: string)
    ensures Lower(s + t) == Lower(s) + Lower(t)
  {
  }

  lemma LowerDots(n: nat)
    ensures Lower(Dots(n)) == Dots(n)
  {
  }

  /** Outside the zone the relative name is the whole host name, and the zone itself has
      none. */
  lemma RelativeNameElse(fqdn: string, zone: string)
    requires zone != ""
    ensures !HasSuffix(HostName(fqdn), Lower(zone)) ==> RelativeName(fqdn, zone) == HostName(fqdn)
    ensures HostName(fqdn) == Lower(zone) ==> RelativeName(fqdn, zone) == ""
  {
    NoDotLast(TrimDotsLeft(Lower(fqdn)));
  }

  lemma {:induction false} NoDotLast(s: string)
    ensures var t := TrimDotsRight(s); t == "" || t[|t| - 1] != '.'
    decreases |s|
  {
    if s != "" && s[|s| - 1] == DOT {
      NoDotLast(s[..|s| - 1]);
    }
  }
}
