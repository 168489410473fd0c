/**
 Buffers of compressed names (section 4.1.4 of RFC 1035), read and extended the way
 components/net/udhcp/domain_codec.c does: what a position spells, which positions the
 encoder searches, and the invariant every buffer it built satisfies.
 */
module CompressedNames {
  import opened Basics
  import opened DomainNames

  const POINTER_REACH := 16384  // offsets that fit in 14 bits

  // ----- reading -----

  function Target(c: seq<byte>, p: nat): nat
    requires p + 1 < |c|
  {
    PointerTarget(c[p], c[p + 1])
  }

  /** From `p`, where a label, a terminator or a pointer may stand, the buffer spells `name`. */
  predicate Reads(c: seq<byte>, p: nat, name: Name)
    decreases |name|, 1
  {
    && p < |c|
    && if c[p] >= 192 then p + 1 < |c| && Matches(c, Target(c, p), name) else Matches(c, p, name)
  }

  /** From `off`, where no pointer stands, the buffer spells `name`. */
  predicate Matches(c: seq<byte>, off: nat, name: Name)
    decreases |name|, 0
  {
    && off < |c|
    && if name == [] then c[off] == 0
       else
         && c[off] == |name[0]|
         && off + 1 + |name[0]| < |c|
         && c[off + 1..off + 1 + |name[0]|] == name[0]
         && Reads(c, off + 1 + |name[0]|, name[1..])
  }

  /** Pointers followed while `name` is read from `p`. */
  function ReadJumps(c: seq<byte>, p: nat, name: Name): nat
    requires Reads(c, p, name)
    decreases |name|, 1
  {
    if c[p] >= 192 then 1 + MatchJumps(c, Target(c, p), name) else MatchJumps(c, p, name)
  }

  function MatchJumps(c: seq<byte>, off: nat, name: Name): nat
    requires Matches(c, off, name)
    decreases |name|, 0
  {
    if name == [] then 0 else ReadJumps(c, off + 1 + |name[0]|, name[1..])
  }

  /** What was readable stays readable when octets are appended. */
  lemma {:induction false} ReadsExtend(c: seq<byte>, d: seq<byte>, p: nat, name: Name)
    requires Reads(c, p, name)
    ensures Reads(c + d, p, name) && ReadJumps(c + d, p, name) == ReadJumps(c, p, name)
    decreases |name|, 1
  {
    MatchesExtend(c, d, if c[p] >= 192 then Target(c, p) else p, name);
  }

  lemma {:induction false} MatchesExtend(c: seq<byte>, d: seq<byte>, off: nat, name: Name)
    requires Matches(c, off, name)
    ensures Matches(c + d, off, name) && MatchJumps(c + d, off, name) == MatchJumps(c, off, name)
    decreases |name|, 0
  {
    if name != [] {
      var n := |name[0]|;
      assert (c + d)[off + 1..off + 1 + n] == c[off + 1..off + 1 + n];
      ReadsExtend(c, d, off + 1 + n, name[1..]);
    }
  }

  // ----- the items of a buffer, from left to right -----

  function NextItem(c: seq<byte>, off: nat): nat
    requires off < |c|
  {
    if c[off] >= 192 then off + 2 else off + c[off] + 1
  }

  /** Items follow one another from `off` to the very end. */
  predicate Aligned(c: seq<byte>, off: nat)
    decreases |c| - off
  {
    off == |c| || (off < |c| && NextItem(c, off) <= |c| && Aligned(c, NextItem(c, off)))
  }

  /** `off` is where one of the items from `from` on starts. */
  predicate ItemAt(c: seq<byte>, from: nat, off: nat)
    decreases |c| - from
  {
    from < |c| && (from == off || ItemAt(c, NextItem(c, from), off))
  }

  predicate LabelAt(c: seq<byte>, from: nat, off: nat) {
    ItemAt(c, from, off) && off < |c| && 0 < c[off] < 192
  }

  predicate PointerAt(c: seq<byte>, from: nat, off: nat) {
    ItemAt(c, from, off) && off < |c| && c[off] >= 192
  }

  /** The first label from `from` on where the buffer spells `name`, or -1. */
  function FirstMatch(c: seq<byte>, from: nat, name: Name): int
    decreases |c| - from
  {
    if from >= |c| then -1
    else if 0 < c[from] < 192 && Matches(c, from, name) then from
    else FirstMatch(c, NextItem(c, from), name)
  }

  lemma {:induction false} FirstMatchIsFirst(c: seq<byte>, from: nat, name: Name)
    ensures var off := FirstMatch(c, from, name);
      if off < 0 then off == -1 && forall o: nat :: LabelAt(c, from, o) ==> !Matches(c, o, name)
      else LabelAt(c, from, off) && Matches(c, off, name) &&
           forall o: nat :: LabelAt(c, from, o) && o < off ==> !Matches(c, o, name)
    decreases |c| - from
  {
    if from < |c| {
      var next := NextItem(c, from);
      FirstMatchIsFirst(c, next, name);
      forall o: nat | ItemAt(c, next, o) ensures o >= next {
        ItemsAhead(c, next, o);
      }
    }
  }

  lemma {:induction false} ItemsAhead(c: seq<byte>, from: nat, off: nat)
    requires ItemAt(c, from, off)
    ensures from <= off < |c|
    decreases |c| - from
  {
    if from != off {
      ItemsAhead(c, NextItem(c, from), off);
    }
  }

  lemma {:induction false} ItemsConcat(c: seq<byte>, d: seq<byte>, from: nat, off: nat)
    requires Aligned(c, from)
    ensures ItemAt(c + d, from, off) <==> ItemAt(c, from, off) || ItemAt(c + d, |c|, off)
    decreases |c| - from
  {
    if from < |c| {
      ItemsConcat(c, d, NextItem(c, from), off);
    }
  }

  lemma {:induction false} AlignedConcat(c: seq<byte>, d: seq<byte>, from: nat)
    requires Aligned(c, from) && Aligned(c + d, |c|)
    ensures Aligned(c + d, from)
    decreases |c| - from
  {
    if from < |c| {
      AlignedConcat(c, d, NextItem(c, from));
    }
  }

  // ----- the encoder's invariant -----

  /** Some valid name is spelled at `off`, with at most `j` jumps. */
  ghost predicate Readable(c: seq<byte>, off: nat, j: int) {
    exists m :: ValidName(m) && Matches(c, off, m) && MatchJumps(c, off, m) <= j
  }

  ghost predicate LabelsReadable(c: seq<byte>, from: nat, j: int) {
    forall off: nat :: LabelAt(c, from, off) ==> Readable(c, off, j)
  }

  /** Every pointer targets a label, and one to its left. */
  ghost predicate PointersLand(c: seq<byte>, from: nat) {
    forall p: nat :: PointerAt(c, from, p) ==> p + 1 < |c| && Target(c, p) < p && LabelAt(c, 0, Target(c, p))
  }

  ghost predicate Sound(c: seq<byte>, j: int) {
    Aligned(c, 0) && LabelsReadable(c, 0, j) && PointersLand(c, 0)
  }

  function Pointer(off: nat): seq<byte> {
    [192 + (off / 256) % 64, off % 256]
  }

  /** What the encoder appends to `c` for `name`: a pointer to the first place its longest known suffix is spelled. */
  function Encode(c: seq<byte>, name: Name): seq<byte>
    requires ValidName(name)
  {
    if name == [] then [0]
    else
      var off := FirstMatch(c, 0, name);
      if off >= 0 then Pointer(off) else [|name[0]|] + name[0] + Encode(c, name[1..])
  }

  /** The encoder keeps labels in full exactly as far as no suffix is known, and points to the longest that is. */
  lemma {:induction false} LongestSuffixIsShared(c: seq<byte>, name: Name, k: nat)
    requires ValidName(name) && k <= |name|
    requires forall i :: 0 <= i < k ==> FirstMatch(c, 0, name[i..]) < 0
    ensures ValidName(name[..k]) && ValidName(name[k..])
    ensures Encode(c, name) == Wire(name[..k]) + Encode(c, name[k..])
    ensures k < |name| && FirstMatch(c, 0, name[k..]) >= 0 ==>
      Encode(c, name) == Wire(name[..k]) + Pointer(FirstMatch(c, 0, name[k..]))
    ensures k == |name| ==> Encode(c, name) == Wire(name) + [0]
    decreases k
  {
    hide FirstMatch, Pointer, WireSize;
    if k == 0 {
      assert name[..0] == [] && name[0..] == name;
    } else {
      assert name[0..] == name;
      forall i | 0 <= i < k - 1 ensures FirstMatch(c, 0, name[1..][i..]) < 0 {
        assert name[1..][i..] == name[i + 1..];
      }
      LongestSuffixIsShared(c, name[1..], k - 1);
      assert name[1..][k - 1..] == name[k..];
      assert name[..k][1..] == name[1..][..k - 1];
    }
    if k == |name| {
      assert name[..k] == name && name[k..] == [];
    }
  }

  /** A pointer keeps the low 14 bits of its offset. */
  lemma PointerTargets(b: seq<byte>, p: nat, off: nat)
    requires p + 1 < |b| && b[p..p + 2] == Pointer(off)
    ensures b[p] >= 192 && Target(b, p) == off % POINTER_REACH
  {
    assert b[p] == b[p..p + 2][0] && b[p + 1] == b[p..p + 2][1];
    LowFourteen(off);
  }

  lemma LowFourteen(off: nat)
    ensures (192 + (off / 256) % 64) % 64 * 256 + off % 256 == off % POINTER_REACH
  {
    var h, l := off / 256, off % 256;
    var q, r := h / 64, h % 64;
    Fourteen(q, r, l);
    assert off == 16384 * q + 256 * r + l;
    Sixty(r);
  }

  lemma Fourteen(q: nat, r: nat, l: nat)
    requires r < 64 && l < 256
    ensures (16384 * q + 256 * r + l) % 16384 == 256 * r + l
  {
  }

  lemma Sixty(r: nat)
    requires r < 64
    ensures (192 + r) % 64 == r
  {
  }

  /** The offset the encoder writes into a pointer for `name`, or -1 if it writes none. */
  function PointedTo(c: seq<byte>, name: Name): (r: int)
    ensures -1 <= r
    decreases |name|
  {
    if name == [] then -1
    else if FirstMatch(c, 0, name) >= 0 then FirstMatch(c, 0, name)
    else PointedTo(c, name[1..])
  }

  predicate InReach(c: seq<byte>, name: Name) {
    PointedTo(c, name) < POINTER_REACH
  }

  lemma {:induction false} ShortInReach(c: seq<byte>, name: Name)
    requires |c| <= POINTER_REACH
    ensures InReach(c, name)
    decreases |name|
  {
    if name != [] {
      FirstMatchIsFirst(c, 0, name);
      ShortInReach(c, name[1..]);
    }
  }

  lemma PointerAtEnd(c: seq<byte>, off: nat)
    ensures var b := c + Pointer(off);
      |b| == |c| + 2 && b[|c|] >= 192 && Target(b, |c|) == off % POINTER_REACH
  {
    var b := c + Pointer(off);
    assert b[|c|..|c| + 2] == Pointer(off);
    PointerTargets(b, |c|, off);
  }

  lemma EncodedHead(c: seq<byte>, name: Name)
    requires ValidName(name) && PointedTo(c, name) >= 0
    ensures name != [] && ValidName(name[1..]) && |name[0]| < 256
    ensures var off := FirstMatch(c, 0, name);
      if off >= 0 then Encode(c, name) == Pointer(off) && PointedTo(c, name) == off
      else
        && Encode(c, name) == [|name[0]|] + name[0] + Encode(c, name[1..])
        && PointedTo(c, name) == PointedTo(c, name[1..])
  {
  }

  lemma {:induction false} EncodedTarget(c: seq<byte>, w: seq<byte>, name: Name)
    requires ValidName(name) && PointedTo(c, name) >= 0
    ensures var b := c + w + Encode(c, name);
      |b| >= 2 && b[|b| - 2] >= 192 && Target(b, |b| - 2) == PointedTo(c, name) % POINTER_REACH
    decreases |name|
  {
    hide *;
    EncodedHead(c, name);
    if FirstMatch(c, 0, name) >= 0 {
      PointerAtEnd(c + w, FirstMatch(c, 0, name));
    } else {
      var w' := w + [|name[0]|] + name[0];
      EncodedTarget(c, w', name[1..]);
      Regroup(c, w, |name[0]|, name[0], Encode(c, name[1..]));
      assert c + w' + Encode(c, name[1..]) == c + w + Encode(c, name);
    }
  }

  lemma PointerInFigures(off: nat)
    requires off < 16384
    ensures |Pointer(off)| == 2 && Pointer(off)[0] >= 192
    ensures 256 * (Pointer(off)[0] as int - 192) + Pointer(off)[1] as int == off
  {
    assert off / 256 < 64;
  }

  /** If a pointer is written for a name, to an offset below 16384, it is the last two octets: the first is 192 more
      than the offset divided by 256, the second the remainder. */
  lemma {:induction false} EncodedOctets(c: seq<byte>, name: Name)
    requires ValidName(name) && 0 <= PointedTo(c, name) < 16384
    ensures var e := Encode(c, name);
      && |e| >= 2 && e[|e| - 2] >= 192
      && 256 * (e[|e| - 2] as int - 192) + e[|e| - 1] as int == PointedTo(c, name)
    decreases |name|
  {
    hide *;
    EncodedHead(c, name);
    if FirstMatch(c, 0, name) >= 0 {
      PointerInFigures(FirstMatch(c, 0, name));
    } else {
      EncodedOctets(c, name[1..]);
    }
  }

  /** A pointer leads to 256 times what its first octet exceeds 192 by, plus its second. */
  lemma ReadsThroughPointer(c: seq<byte>, p: nat, name: Name)
    requires p + 1 < |c| && c[p] >= 192
    ensures Reads(c, p, name) <==> Matches(c, 256 * (c[p] as int - 192) + c[p + 1] as int, name)
  {
  }

  /** The pointer written for a name targets the place found exactly if that is within the 14 bits a pointer has. */
  lemma PointerLandsInReach(c: seq<byte>, name: Name)
    requires ValidName(name) && PointedTo(c, name) >= 0
    ensures var b := c + Encode(c, name);
      |b| >= 2 && b[|b| - 2] >= 192 && (Target(b, |b| - 2) == PointedTo(c, name) <==> InReach(c, name))
  {
    hide Encode, PointedTo;
    EncodedTarget(c, [], name);
    assert c + [] == c;
    SmallRemainder(PointedTo(c, name));
  }

  lemma SmallRemainder(x: nat)
    ensures x % POINTER_REACH == x <==> x < POINTER_REACH
  {
  }

  lemma {:induction false} NothingInZeros(c: seq<byte>, from: nat, upTo: nat, name: Name)
    requires from <= upTo <= |c| && forall i :: from <= i < upTo ==> c[i] == 0
    ensures FirstMatch(c, from, name) == FirstMatch(c, upTo, name)
    decreases upTo - from
  {
    if from < upTo {
      NothingInZeros(c, from + 1, upTo, name);
    }
  }

  /** The name `a` behind 16384 ends of names: the pointer written to it targets octet 0. */
  lemma PointerOutOfReach()
    ensures var c: seq<byte> := seq(POINTER_REACH, _ => 0) + [1, 97, 0]; var name: Name := [[97]];
      && ValidName(name) && PointedTo(c, name) == POINTER_REACH && !InReach(c, name)
      && Target(c + Encode(c, name), |c|) == 0
  {
    var c: seq<byte> := seq(POINTER_REACH, _ => 0) + [1, 97, 0];
    var name: Name := [[97]];
    NothingInZeros(c, 0, POINTER_REACH, name);
    assert c[POINTER_REACH + 1..POINTER_REACH + 2] == [97] && name[1..] == [];
    assert Reads(c, POINTER_REACH + 2, []);
    assert Matches(c, POINTER_REACH, name);
    EncodedTarget(c, [], name);
    assert c + [] == c && |Encode(c, name)| == 2;
  }

  /** The invariant at `p` from the invariant behind the item there. */
  lemma OneItemMore(b: seq<byte>, p: nat, j: int)
    requires p < |b| && NextItem(b, p) <= |b| && Aligned(b, NextItem(b, p))
    requires LabelsReadable(b, NextItem(b, p), j) && PointersLand(b, NextItem(b, p))
    requires 0 < b[p] < 192 ==> Readable(b, p, j)
    requires b[p] >= 192 ==> p + 1 < |b| && Target(b, p) < p && LabelAt(b, 0, Target(b, p))
    ensures Aligned(b, p) && LabelsReadable(b, p, j) && PointersLand(b, p)
  {
    forall off: nat | LabelAt(b, p, off) ensures Readable(b, off, j) {
      assert off == p || LabelAt(b, NextItem(b, p), off);
    }
    forall q: nat | PointerAt(b, p, q) ensures q + 1 < |b| && Target(b, q) < q && LabelAt(b, 0, Target(b, q)) {
      assert q == p || PointerAt(b, NextItem(b, p), q);
    }
  }

  lemma NothingBehindEnd(b: seq<byte>, j: int)
    ensures Aligned(b, |b|) && LabelsReadable(b, |b|, j) && PointersLand(b, |b|)
  {
  }

  /** Encoding `name` after any `w` written since `c` spells `name` there and keeps the invariant there. */
  lemma {:induction false} EncodeReads(c: seq<byte>, w: seq<byte>, name: Name, j: int)
    requires Sound(c, j) && ValidName(name) && InReach(c, name) && j >= -1
    ensures var b := c + w + Encode(c, name);
      && Reads(b, |c + w|, name) && ReadJumps(b, |c + w|, name) <= j + 1
      && Aligned(b, |c + w|) && LabelsReadable(b, |c + w|, j + 1) && PointersLand(b, |c + w|)
    decreases |name|
  {
    hide Reads, Matches, ReadJumps, Aligned, ItemAt, LabelAt, PointersLand, LabelsReadable, FirstMatch;
    var b := c + w + Encode(c, name);
    var p := |c + w|;
    NothingBehindEnd(b, j + 1);
    if name == [] {
      assert b[p] == 0 && NextItem(b, p) == |b|;
      TerminatorReads(b, p);
    } else if FirstMatch(c, 0, name) >= 0 {
      EncodedPointer(c, w, name, j);
    } else {
      var l := name[0];
      var w' := w + [|l|] + l;
      EncodeReads(c, w', name[1..], j);
      Regroup(c, w, |l|, l, Encode(c, name[1..]));
      ReadsInside(b, p + 1 + |l|, name[1..]);
      LabelReads(b, p, name, j + 1);
    }
    OneItemMore(b, p, j + 1);
  }

  lemma Regroup(c: seq<byte>, w: seq<byte>, h: byte, l: seq<byte>, e: seq<byte>)
    ensures var b := c + w + ([h] + l + e); var p := |c + w|;
      b == c + (w + [h] + l) + e && b[p] == h && b[p + 1..p + 1 + |l|] == l
  {
  }

  lemma TerminatorReads(b: seq<byte>, p: nat)
    requires p < |b| && b[p] == 0
    ensures Reads(b, p, []) && ReadJumps(b, p, []) == 0
  {
  }

  lemma ReadsInside(b: seq<byte>, p: nat, name: Name)
    requires Reads(b, p, name)
    ensures p < |b|
  {
  }

  lemma LabelReads(b: seq<byte>, p: nat, name: Name, j: int)
    requires name != [] && ValidName(name)
    requires p + 1 + |name[0]| < |b| && b[p] == |name[0]| && b[p + 1..p + 1 + |name[0]|] == name[0]
    requires Reads(b, p + 1 + |name[0]|, name[1..]) && ReadJumps(b, p + 1 + |name[0]|, name[1..]) <= j
    ensures Reads(b, p, name) && ReadJumps(b, p, name) <= j
    ensures Readable(b, p, j) && 0 < b[p] < 192 && NextItem(b, p) == p + 1 + |name[0]|
  {
    assert Matches(b, p, name);
  }

  lemma EncodedPointer(c: seq<byte>, w: seq<byte>, name: Name, j: int)
    requires Sound(c, j) && ValidName(name) && 0 <= FirstMatch(c, 0, name) < POINTER_REACH && name != []
    ensures var b := c + w + Encode(c, name); var p := |c + w|;
      && |b| == p + 2 && b[p] >= 192 && Target(b, p) < p && LabelAt(b, 0, Target(b, p))
      && Reads(b, p, name) && ReadJumps(b, p, name) <= j + 1
  {
    hide Pointer, Matches, MatchJumps, Reads, ReadJumps, ItemAt, Readable, POINTER_REACH, FirstMatch, PointersLand;
    var off := FirstMatch(c, 0, name);
    var tail := w + Pointer(off);
    var b := c + w + Pointer(off);
    FirstMatchIsFirst(c, 0, name);
    ItemsAhead(c, 0, off);
    PointerBehind(c, w, off);
    EncodedAsPointer(c, name);
    MatchAmongReadable(c, off, name, j);
    MatchesExtend(c, tail, off, name);
    ItemsConcat(c, tail, 0, off);
    ItemsAhead(b, 0, off);
    PointerIsRead(b, |c + w|, name, j);
  }

  lemma EncodedAsPointer(c: seq<byte>, name: Name)
    requires ValidName(name) && FirstMatch(c, 0, name) >= 0 && name != []
    ensures Encode(c, name) == Pointer(FirstMatch(c, 0, name))
  {
  }

  lemma PointerBehind(c: seq<byte>, w: seq<byte>, off: nat)
    requires off < |c| && off < POINTER_REACH
    ensures var b := c + w + Pointer(off);
      && b == c + (w + Pointer(off)) && |b| == |c + w| + 2
      && b[|c + w|] >= 192 && Target(b, |c + w|) == off && b[off] == c[off]
  {
    PointerAtEnd(c + w, off);
  }

  lemma PointerIsRead(b: seq<byte>, p: nat, name: Name, j: int)
    requires p + 1 < |b| && b[p] >= 192 && Matches(b, Target(b, p), name) && MatchJumps(b, Target(b, p), name) <= j
    ensures Reads(b, p, name) && ReadJumps(b, p, name) <= j + 1
  {
  }

  lemma {:induction false} MatchesUnique(c: seq<byte>, off: nat, m: Name, n: Name)
    requires ValidName(m) && ValidName(n) && Matches(c, off, m) && Matches(c, off, n)
    ensures m == n
    decreases |m|
  {
    if m != [] && n != [] {
      var next := off + 1 + |m[0]|;
      MatchesUnique(c, if c[next] >= 192 then Target(c, next) else next, m[1..], n[1..]);
      assert m == [m[0]] + m[1..] && n == [n[0]] + n[1..];
    }
  }

  lemma MatchAmongReadable(c: seq<byte>, off: nat, name: Name, j: int)
    requires Sound(c, j) && LabelAt(c, 0, off) && ValidName(name) && Matches(c, off, name)
    ensures MatchJumps(c, off, name) <= j
  {
    var m :| ValidName(m) && Matches(c, off, m) && MatchJumps(c, off, m) <= j;
    MatchesUnique(c, off, m, name);
  }

  lemma OldLabelsReadable(c: seq<byte>, e: seq<byte>, off: nat, j: int)
    requires Sound(c, j) && ItemAt(c, 0, off) && LabelAt(c + e, 0, off)
    ensures Readable(c + e, off, j)
  {
    ItemsAhead(c, 0, off);
    assert LabelAt(c, 0, off);
    var m :| ValidName(m) && Matches(c, off, m) && MatchJumps(c, off, m) <= j;
    MatchesExtend(c, e, off, m);
  }

  lemma OldPointersLand(c: seq<byte>, e: seq<byte>, p: nat, j: int)
    requires Sound(c, j) && ItemAt(c, 0, p) && PointerAt(c + e, 0, p)
    ensures p + 1 < |c + e| && Target(c + e, p) < p && LabelAt(c + e, 0, Target(c + e, p))
  {
    ItemsAhead(c, 0, p);
    assert PointerAt(c, 0, p);
    ItemsConcat(c, e, 0, Target(c, p));
  }

  /** One more name: it is spelled where it was appended, one jump deeper at most, and the buffer stays sound. */
  lemma EncodeKeepsSound(c: seq<byte>, name: Name, j: int)
    requires Sound(c, j) && ValidName(name) && InReach(c, name) && j >= -1
    ensures var b := c + Encode(c, name);
      Reads(b, |c|, name) && ReadJumps(b, |c|, name) <= j + 1 && Sound(b, j + 1)
  {
    hide Reads, Matches, ReadJumps, Encode, Aligned;
    var e := Encode(c, name);
    var b := c + e;
    EncodeReads(c, [], name, j);
    assert c + [] + e == b && |c + []| == |c|;
    AlignedConcat(c, e, 0);
    forall off: nat | LabelAt(b, 0, off) ensures Readable(b, off, j + 1) {
      ItemsConcat(c, e, 0, off);
      if ItemAt(c, 0, off) {
        OldLabelsReadable(c, e, off, j);
      } else {
        assert LabelAt(b, |c|, off);
      }
    }
    forall p: nat | PointerAt(b, 0, p)
      ensures p + 1 < |b| && Target(b, p) < p && LabelAt(b, 0, Target(b, p))
    {
      ItemsConcat(c, e, 0, p);
      if ItemAt(c, 0, p) {
        OldPointersLand(c, e, p, j);
      } else {
        assert PointerAt(b, |c|, p);
      }
    }
  }
}
