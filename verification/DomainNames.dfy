/**
 Domain names in their two written forms (components/net/udhcp/domain_codec.c):
 the dotted text a user types and the sequence of length-prefixed labels of
 section 3.1 of RFC 1035.
 */
module DomainNames {
  import opened Basics

  const MAX_LABEL := 63      // NS_MAXLABEL
  const MAX_CDNAME := 255    // NS_MAXCDNAME

  type Label = seq<byte>
  type Name = seq<Label>

  predicate ValidLabel(l: Label) {
    1 <= |l| <= MAX_LABEL
  }

  predicate ValidName(n: Name) {
    forall i :: 0 <= i < |n| ==> ValidLabel(n[i])
  }

  /** Octets a name takes on the wire, without its terminator. */
  function WireSize(n: Name): nat {
    if n == [] then 0 else |n[0]| + 1 + WireSize(n[1..])
  }

  /** The labels of a name, each behind its length octet, without the terminator. */
  function Wire(n: Name): (w: seq<byte>)
    requires ValidName(n)
    ensures |w| == WireSize(n)
  {
    if n == [] then [] else [|n[0]|] + n[0] + Wire(n[1..])
  }

  lemma Joined(a: seq<byte>, b: seq<byte>, c: seq<byte>)
    ensures a + (b + c) == a + b + c
  {
  }

  lemma {:induction false} WireConcat(a: Name, b: Name)
    requires ValidName(a) && ValidName(b)
    ensures ValidName(a + b) && Wire(a + b) == Wire(a) + Wire(b)
    ensures WireSize(a + b) == WireSize(a) + WireSize(b)
  {
    if a == [] {
      assert a + b == b;
    } else {
      WireConcat(a[1..], b);
      assert (a + b)[1..] == a[1..] + b && (a + b)[0] == a[0];
      Joined([|a[0]|] + a[0], Wire(a[1..]), Wire(b));
    }
  }

  lemma {:induction false} WireSizeConcat(a: Name, b: Name)
    ensures WireSize(a + b) == WireSize(a) + WireSize(b)
  {
    if a == [] {
      assert a + b == b;
    } else {
      WireSizeConcat(a[1..], b);
      assert (a + b)[1..] == a[1..] + b;
    }
  }

  /** The offset a two-octet pointer stands for. */
  function PointerTarget(hi: byte, lo: byte): nat {
    (hi % 64) * 256 + lo
  }

  // ----- dotted text -----

  function LowerByte(c: byte): byte {
    if 65 <= c <= 90 then c + 32 else c
  }

  function Lower(s: seq<byte>): (r: seq<byte>)
    ensures |r| == |s|
    ensures forall i :: 0 <= i < |s| ==> r[i] == LowerByte(s[i])
  {
    seq(|s|, i requires 0 <= i < |s| => LowerByte(s[i]))
  }

  /** A single trailing dot is not part of the name. */
  function Strip(s: seq<byte>): seq<byte> {
    if |s| > 0 && s[|s| - 1] == DOT then s[..|s| - 1] else s
  }

  /** `cur` is the part of the first label already read. */
  function Split(s: seq<byte>, cur: Label): (n: Name)
    ensures |n| > 0
  {
    if s == [] then [cur]
    else if s[0] == DOT then [cur] + Split(s[1..], [])
    else Split(s[1..], cur + [s[0]])
  }

  /** Labels with a dot after each but the last. */
  function Join(n: Name): seq<byte> {
    if n == [] then [] else if |n| == 1 then n[0] else n[0] + [DOT] + Join(n[1..])
  }

  lemma {:induction false} JoinSplit(s: seq<byte>, cur: Label)
    ensures Join(Split(s, cur)) == cur + s
  {
    if s == [] {
    } else if s[0] == DOT {
      var rest := Split(s[1..], []);
      JoinSplit(s[1..], []);
      assert ([cur] + rest)[1..] == rest;
      assert cur + [DOT] + ([] + s[1..]) == cur + s;
    } else {
      JoinSplit(s[1..], cur + [s[0]]);
      assert cur + [s[0]] + s[1..] == cur + s;
    }
  }

  /** What a user means by `src`: lower case, no trailing dot. */
  function Canonical(src: seq<byte>): seq<byte> {
    Lower(Strip(src))
  }

  function LabelsOf(src: seq<byte>): Name {
    Split(Canonical(src), [])
  }

  /** The names the encoder accepts. */
  predicate ValidSource(src: seq<byte>) {
    ValidName(LabelsOf(src)) && WireSize(LabelsOf(src)) < MAX_CDNAME
  }

  /** Splitting loses nothing: the labels of a name, joined by dots, spell the canonical name. */
  lemma LabelsSpellSource(src: seq<byte>)
    ensures Join(LabelsOf(src)) == Canonical(src)
  {
    JoinSplit(Canonical(src), []);
    assert [] + Canonical(src) == Canonical(src);
  }

  // ----- the same in figures -----

  /** Lower case: the letters 65 to 90 become 97 to 122, and one trailing dot (46) is dropped. */
  lemma CanonicalOctets(src: seq<byte>)
    ensures |Canonical(src)| == if src != [] && src[|src| - 1] == 46 then |src| - 1 else |src|
    ensures forall i :: 0 <= i < |Canonical(src)| ==>
      Canonical(src)[i] == if 65 <= src[i] <= 90 then src[i] + 32 else src[i]
  {
  }

  /** A name on the wire, without its terminator, is one octet longer than as text. */
  lemma {:induction false} WireSizeOfText(n: Name)
    requires n != []
    ensures WireSize(n) == |Join(n)| + 1
  {
    if |n| > 1 {
      WireSizeOfText(n[1..]);
    }
  }

  predicate Dotless(n: Name) {
    forall i :: 0 <= i < |n| ==> 46 !in n[i]
  }

  lemma {:induction false} SplitDotless(s: seq<byte>, cur: Label)
    requires 46 !in cur
    ensures Dotless(Split(s, cur))
  {
    if s == [] {
    } else if s[0] == DOT {
      SplitDotless(s[1..], []);
    } else {
      SplitDotless(s[1..], cur + [s[0]]);
    }
  }

  /** The labels of a name are what stands between its dots: no other labels without dots spell it. */
  lemma {:induction false} SplitUnique(n: Name, cur: Label, l: Label)
    requires n != [] && Dotless(n) && n[0] == cur + l
    ensures var s := l + (if |n| == 1 then [] else [46] + Join(n[1..])); Split(s, cur) == n
    decreases |n|, |l|
  {
    var rest: seq<byte> := if |n| == 1 then [] else [46] + Join(n[1..]);
    var s := l + rest;
    if l != [] {
      assert l[0] in n[0];
      SplitUnique(n, cur + [l[0]], l[1..]);
      assert s[1..] == l[1..] + rest;
    } else {
      assert cur + l == cur && s == rest;
      if |n| == 1 {
        assert n == [cur];
      } else {
        SplitUnique(n[1..], [], n[1]);
        JoinIs(n[1..]);
        assert s[1..] == Join(n[1..]);
        assert n == [cur] + n[1..];
      }
    }
  }

  lemma JoinIs(n: Name)
    requires n != []
    ensures Join(n) == n[0] + if |n| == 1 then [] else [46] + Join(n[1..])
  {
    if |n| > 1 {
      assert n[0] + [DOT] + Join(n[1..]) == n[0] + ([DOT] + Join(n[1..]));
    } else {
      assert n[0] + [] == n[0];
    }
  }

  lemma LabelsAreBetweenDots(src: seq<byte>, n: Name)
    requires n != [] && Dotless(n)
    ensures Dotless(LabelsOf(src))
    ensures Join(n) == Canonical(src) <==> n == LabelsOf(src)
  {
    SplitDotless(Canonical(src), []);
    LabelsSpellSource(src);
    if Join(n) == Canonical(src) {
      SplitUnique(n, [], n[0]);
      JoinIs(n);
    }
  }

  /** The names accepted: labels of 1 to 63 octets, and 253 octets of text at most. */
  lemma WhichNames(src: seq<byte>)
    ensures ValidSource(src) <==>
      |Canonical(src)| <= 253 && forall i :: 0 <= i < |LabelsOf(src)| ==> 1 <= |LabelsOf(src)[i]| <= 63
  {
    LabelsSpellSource(src);
    WireSizeOfText(LabelsOf(src));
  }
}
