/**
 The encoder: `convert_dname`, `find_offset` and `dname_enc`
 (components/net/udhcp/domain_codec.c:114-222).
 */
module DomainEncoder {
  import opened Basics
  import opened DomainNames
  import opened CompressedNames

  // ----- convert_dname -----

  /** How the rest of the canonical text still splits, one octet on. */
  lemma SplitStep(t: seq<byte>, s: nat, cur: Label)
    requires s <= |t|
    ensures s == |t| ==> Split(t[s..], cur) == [cur]
    ensures s < |t| && t[s] == DOT ==> Split(t[s..], cur) == [cur] + Split(t[s + 1..], [])
    ensures s < |t| && t[s] != DOT ==> Split(t[s..], cur) == Split(t[s + 1..], cur + [t[s]])
    ensures s < |t| && t[s] == DOT && (s + 1 == |t| || t[s + 1] == DOT) ==> Split(t[s + 1..], [])[0] == []
  {
    if s < |t| {
      assert t[s..][1..] == t[s + 1..];
    }
  }

  lemma BadLabelInside(done: Name, rest: Name, k: nat)
    requires k < |rest| && !ValidLabel(rest[k])
    ensures !ValidName(done + rest)
  {
    assert (done + rest)[|done| + k] == rest[k];
  }

  lemma GoodLabelBehind(done: Name, l: Label)
    requires ValidName(done) && ValidLabel(l)
    ensures ValidName(done + [l]) && Wire(done + [l]) == Wire(done) + ([|l|] + l)
  {
    WireConcat(done, [l]);
    assert Wire([l]) == [|l|] + l;
  }

  /** What is written so far: the labels before `lenptr`, a free octet, and the label being read up to `dst`. */
  predicate Written(r: seq<byte>, lenptr: nat, dst: nat, done: Name, cur: Label) {
    && ValidName(done) && lenptr == WireSize(done) && dst == lenptr + 1 + |cur| <= |r|
    && r[..lenptr] == Wire(done) && r[lenptr + 1..dst] == cur
  }

  lemma NothingWritten(r: seq<byte>)
    requires r != []
    ensures Written(r, 0, 1, [], [])
  {
  }

  lemma LetterWritten(r: seq<byte>, lenptr: nat, dst: nat, done: Name, cur: Label, c: byte)
    requires Written(r, lenptr, dst, done, cur) && dst < |r|
    ensures Written(r[dst := c], lenptr, dst + 1, done, cur + [c])
  {
    var s := r[dst := c];
    assert s[..lenptr] == r[..lenptr];
    assert s[lenptr + 1..dst + 1] == r[lenptr + 1..dst] + [c];
  }

  /** A label is complete: its length goes in front of it. */
  lemma LabelWritten(r: seq<byte>, lenptr: nat, dst: nat, done: Name, cur: Label)
    requires Written(r, lenptr, dst, done, cur) && ValidLabel(cur)
    ensures var s := r[lenptr := |cur|]; s[..dst] == Wire(done + [cur])
    ensures ValidName(done + [cur]) && WireSize(done + [cur]) == dst
  {
    hide Wire, WireSize;
    var s := r[lenptr := |cur|];
    GoodLabelBehind(done, cur);
    WireConcat(done, [cur]);
    assert s[..dst] == r[..lenptr] + ([s[lenptr]] + r[lenptr + 1..dst]);
  }

  lemma NextLabel(r: seq<byte>, dst: nat, done: Name)
    requires ValidName(done) && WireSize(done) == dst < |r| && r[..dst] == Wire(done)
    ensures Written(r, dst, dst + 1, done, [])
  {
  }

  lemma LengthSoFar(r: seq<byte>, lenptr: nat, dst: nat, done: Name, cur: Label)
    requires Written(r, lenptr, dst, done, cur)
    ensures dst - lenptr - 1 == |cur| && lenptr < dst <= |r| && ValidName(done)
  {
  }

  lemma SourceIs(src: seq<byte>, n: Name)
    requires LabelsOf(src) == n
    ensures ValidSource(src) <==> ValidName(n) && WireSize(n) < MAX_CDNAME
  {
  }

  lemma SourceOctets(src: seq<byte>, t: seq<byte>, s: nat)
    requires t == Canonical(src) && 0 !in src && s <= |t|
    ensures |t| == |src| || (|t| == |src| - 1 && src[|t|] == DOT)
    ensures s == |t| ==> s == |src| || (s + 1 == |src| && src[s] == DOT)
    ensures s < |t| ==> s < |src| && src[s] != 0 && t[s] == LowerByte(src[s]) && (t[s] == DOT <==> src[s] == DOT)
    ensures s + 1 == |t| && |t| == |src| ==> src[s] != DOT
  {
  }

  lemma SplitWhole(src: seq<byte>, t: seq<byte>)
    requires t == Canonical(src)
    ensures LabelsOf(src) == [] + Split(t[0..], [])
  {
    assert t[0..] == t && [] + Split(t, []) == Split(t, []);
  }

  lemma LabelDone(done: Name, cur: Label, rest: Name)
    ensures done + ([cur] + rest) == done + [cur] + rest && done + [cur] + [] == done + [cur]
  {
  }

  method ConvertDname(src: seq<byte>) returns (res: array?<byte>)
    requires 0 !in src
    ensures res != null <==> ValidSource(src)
    ensures res != null ==> fresh(res) && WireSize(LabelsOf(src)) < res.Length
    ensures res != null ==>
      res[..WireSize(LabelsOf(src))] == Wire(LabelsOf(src)) && res[WireSize(LabelsOf(src))] == 0
  {
    hide Split, Wire, WireSize, Written, Canonical, LabelsOf, ValidSource, ValidName, Strip, Lower;
    ghost var t := Canonical(src);
    ghost var done: Name, cur: Label := [], [];
    res := new byte[|src| + 2];
    var lenptr, dst, s := 0, 1, 0;
    NothingWritten(res[..]);
    SourceOctets(src, t, 0);
    SplitWhole(src, t);
    while true
      invariant 0 <= s <= |t| <= |src| && dst == s + 1 && Written(res[..], lenptr, dst, done, cur)
      invariant LabelsOf(src) == done + Split(t[s..], cur)
      decreases |t| - s
    {
      var c := if s < |src| then src[s] else 0;
      var next := if s + 1 < |src| then src[s + 1] else 0;
      ghost var rest := Split(t[s..], cur);
      SplitStep(t, s, cur);
      SourceOctets(src, t, s);
      LengthSoFar(res[..], lenptr, dst, done, cur);
      SourceIs(src, done + rest);
      if s + 1 <= |t| {
        SourceOctets(src, t, s + 1);
      }
      s := s + 1;
      if c == DOT || c == 0 {
        var len := dst - lenptr - 1;
        if len > MAX_LABEL || len == 0 {
          BadLabelInside(done, rest, 0);
          return null;
        }
        if c == DOT && next == DOT {
          BadLabelInside(done, rest, 1);
          return null;
        }
        LabelWritten(res[..], lenptr, dst, done, cur);
        res[lenptr] := len;
        LabelDone(done, cur, rest[1..]);
        done := done + [cur];
        if c == 0 || next == 0 {
          break;
        }
        NextLabel(res[..], dst, done);
        cur := [];
        lenptr := dst;
        dst := dst + 1;
        continue;
      }
      if 65 <= c <= 90 {
        c := c + 32;
      }
      LetterWritten(res[..], lenptr, dst, done, cur, c);
      res[dst] := c;
      dst := dst + 1;
      cur := cur + [c];
    }
    SourceIs(src, done);
    if dst >= MAX_CDNAME {
      return null;
    }
    res[dst] := 0;
  }

  // ----- find_offset -----

  /** The octets of `l` and those at `p` differ somewhere inside `c`. */
  ghost predicate Differs(c: seq<byte>, p: nat, l: seq<byte>) {
    exists i :: 0 <= i < |l| && p + i < |c| && c[p + i] != l[i]
  }

  /** `memcmp` of `n` octets at `p` and `q`, which looks no further than the first difference. */
  method SameOctets(a: seq<byte>, p: nat, b: seq<byte>, q: nat, n: nat) returns (same: bool)
    requires q + n <= |b| || (p < |a| && q < |b| && a[p] != b[q])
    requires p + n <= |a| || (q + n <= |b| && Differs(a, p, b[q..q + n])) || (p < |a| && q < |b| && a[p] != b[q])
    ensures same <==> p + n <= |a| && q + n <= |b| && a[p..p + n] == b[q..q + n]
  {
    var i := 0;
    while i < n
      invariant 0 <= i <= n && p + i <= |a| && q + i <= |b| && a[p..p + i] == b[q..q + i]
    {
      SomethingLeft(a, p, b, q, n, i);
      if a[p + i] != b[q + i] {
        assert p + n <= |a| && q + n <= |b| ==> a[p..p + n][i] != b[q..q + n][i];
        return false;
      }
      assert a[p..p + i + 1] == a[p..p + i] + [a[p + i]] && b[q..q + i + 1] == b[q..q + i] + [b[q + i]];
      i := i + 1;
    }
    return true;
  }

  lemma SomethingLeft(a: seq<byte>, p: nat, b: seq<byte>, q: nat, n: nat, i: nat)
    requires q + n <= |b| || (p < |a| && q < |b| && a[p] != b[q])
    requires p + n <= |a| || (q + n <= |b| && Differs(a, p, b[q..q + n])) || (p < |a| && q < |b| && a[p] != b[q])
    requires i < n && p + i <= |a| && q + i <= |b| && a[p..p + i] == b[q..q + i]
    ensures p + i < |a| && q + i < |b|
  {
    if i > 0 {
      SamePart(a, p, b, q, i, 0);
    }
    if p + n > |a| && q + n <= |b| && Differs(a, p, b[q..q + n]) {
      var k :| 0 <= k < n && p + k < |a| && a[p + k] != b[q..q + n][k];
      assert b[q..q + n][k] == b[q + k];
      if k < i {
        SamePart(a, p, b, q, i, k);
      }
    }
  }

  lemma SamePart(a: seq<byte>, p: nat, b: seq<byte>, q: nat, n: nat, k: nat)
    requires k < n && p + n <= |a| && q + n <= |b| && a[p..p + n] == b[q..q + n]
    ensures a[p + k] == b[q + k]
  {
    assert a[p..p + n][k] == b[q..q + n][k];
  }

  /** The octets a name starts with: its first label behind its length, or the terminator. */
  function Piece(name: Name): (p: seq<byte>)
    requires ValidName(name)
    ensures |p| > 0 && |p| == p[0] as int + 1
  {
    if name == [] then [0] else [|name[0]|] + name[0]
  }

  lemma PieceTellsLabel(m: Name, name: Name)
    requires ValidName(m) && ValidName(name)
    ensures Piece(m)[0] == 0 <==> m == []
    ensures Piece(m) == Piece(name) <==> (m == [] <==> name == []) && (m != [] && name != [] ==> m[0] == name[0])
  {
    assert m != [] ==> ValidLabel(m[0]) && Piece(m)[1..] == m[0];
    assert name != [] ==> Piece(name)[1..] == name[0];
  }

  /** A name as `find_offset` gets it: terminated, perhaps with leftovers behind. */
  predicate Spelled(d: seq<byte>, name: Name)
    requires ValidName(name)
  {
    WireSize(name) < |d| && d[..WireSize(name)] == Wire(name) && d[WireSize(name)] == 0
  }

  lemma SpelledStep(d: seq<byte>, name: Name)
    requires ValidName(name) && Spelled(d, name)
    ensures var k := |Piece(name)|; k <= |d| && d[..k] == Piece(name) && (name != [] ==> Spelled(d[k..], name[1..]))
  {
    if name != [] {
      var k := |Piece(name)|;
      var w := Wire(name);
      assert w[..k] == Piece(name) && w[k..] == Wire(name[1..]);
      assert d[..k] == d[..|w|][..k];
      assert d[k..][..WireSize(name[1..])] == d[..|w|][k..];
    }
  }

  lemma TailsOfTails(all: seq<byte>, d: nat, k: nat)
    requires d + k <= |all|
    ensures all[d..][..k] == all[d..d + k] && all[d..][k..] == all[d + k..]
    ensures k > 0 ==> all[d..d + k][0] == all[d]
  {
  }

  lemma SpelledTail(d: seq<byte>, name: Name)
    requires ValidName(name) && Spelled(d, name)
    ensures d != []
  {
  }

  /** `SpelledStep` at offset `d` of a longer string. */
  lemma SpelledOn(all: seq<byte>, d: nat, name: Name)
    requires d <= |all| && ValidName(name) && Spelled(all[d..], name)
    ensures var k := |Piece(name)|; d + k <= |all| && all[d..d + k] == Piece(name)
    ensures all[d] == Piece(name)[0] && (all[d] == 0 <==> name == [])
    ensures name != [] ==> var k := |Piece(name)|;
      d + k < |all| && ValidName(name[1..]) && Spelled(all[d + k..], name[1..])
  {
    hide *;
    var k := |Piece(name)|;
    SpelledStep(all[d..], name);
    TailsOfTails(all, d, k);
    PieceTellsLabel(name, []);
    if name != [] {
      NameTail(name);
      SpelledTail(all[d + k..], name[1..]);
    }
  }

  lemma NameTail(name: Name)
    requires ValidName(name) && name != []
    ensures ValidName(name[1..])
  {
  }

  /** Where reading goes on at `n`: behind the pointer there, if there is one. */
  function Landing(c: seq<byte>, n: nat): nat
    requires n < |c| && (c[n] >= 192 ==> n + 1 < |c|)
  {
    if c[n] >= 192 then Target(c, n) else n
  }

  /** Comparing `name` with what stands at `off` reads no octet outside the buffer. */
  ghost predicate Stays(c: seq<byte>, off: nat, name: Name)
    decreases |name|
  {
    && off < |c|
    && (name == [] || c[off] != |name[0]| || Differs(c, off + 1, name[0]) ||
        (var next := off + 1 + |name[0]|;
         next < |c| && (c[next] >= 192 ==> next + 1 < |c|) && Stays(c, Landing(c, next), name[1..])))
  }

  /** Looking for `name` from the item at `from` on, as far as the first match, reads no octet outside the buffer. */
  ghost predicate SearchStays(c: seq<byte>, from: nat, name: Name)
    decreases |c| - from
  {
    if from >= |c| then true
    else if 0 < c[from] < 192 then
      Stays(c, from, name) && (Matches(c, from, name) || SearchStays(c, NextItem(c, from), name))
    else SearchStays(c, NextItem(c, from), name)
  }

  /** Looking for one suffix of `name` after another, as far as the first one found, reads no octet outside the
      buffer. */
  ghost predicate EncodeStays(c: seq<byte>, name: Name)
    decreases |name|
  {
    name == [] || (SearchStays(c, 0, name) && (FirstMatch(c, 0, name) >= 0 || EncodeStays(c, name[1..])))
  }

  /** What stands at `off` is compared with the first octets of a name. */
  predicate SamePiece(c: seq<byte>, off: nat, name: Name)
    requires ValidName(name)
  {
    off + |Piece(name)| <= |c| && c[off..off + |Piece(name)|] == Piece(name)
  }

  lemma PieceOfLabel(c: seq<byte>, off: nat, name: Name)
    requires ValidName(name) && name != [] && off < |c|
    ensures var l := name[0]; var next := off + 1 + |l|;
      && |Piece(name)| == 1 + |l| && Piece(name)[0] == |l|
      && (SamePiece(c, off, name) <==> next <= |c| && c[off] == |l| && c[off + 1..next] == l)
      && (Differs(c, off + 1, l) ==> Differs(c, off, Piece(name)))
  {
    var l := name[0];
    var p := Piece(name);
    var next := off + 1 + |l|;
    assert p[1..] == l;
    if next <= |c| {
      assert c[off..next] == [c[off]] + c[off + 1..next];
      if c[off..next] == p {
        assert c[off..next][0] == p[0] && c[off..next][1..] == l;
      }
    }
    if Differs(c, off + 1, l) {
      var i :| 0 <= i < |l| && off + 1 + i < |c| && c[off + 1 + i] != l[i];
      assert c[off + (i + 1)] != p[i + 1];
    }
  }

  /** One step of the comparison: the first octets decide, and behind an equal label it goes on. */
  lemma StaysStep(c: seq<byte>, off: nat, name: Name)
    requires ValidName(name) && Stays(c, off, name)
    ensures var p := Piece(name); var next := off + |p|;
      && off < |c|
      && (c[off] == p[0] && next > |c| ==> Differs(c, off, p))
      && (SamePiece(c, off, name) ==>
            if name == [] then Matches(c, off, name)
            else next < |c| && (c[next] >= 192 ==> next + 1 < |c|) && Stays(c, Landing(c, next), name[1..]) &&
                 (Matches(c, off, name) <==> Matches(c, Landing(c, next), name[1..])))
      && (!SamePiece(c, off, name) ==> !Matches(c, off, name))
  {
    hide *;
    StaysOn(c, off, name);
    if name == [] {
      EndMatches(c, off);
    } else {
      PieceOfLabel(c, off, name);
      MatchesOn(c, off, name);
      if SamePiece(c, off, name) {
        NoDifference(c, off + 1, name[0]);
      }
    }
  }

  lemma StaysOn(c: seq<byte>, off: nat, name: Name)
    requires Stays(c, off, name)
    ensures off < |c|
    ensures name != [] && c[off] == |name[0]| && !Differs(c, off + 1, name[0]) ==>
      var next := off + 1 + |name[0]|;
      next < |c| && (c[next] >= 192 ==> next + 1 < |c|) && Stays(c, Landing(c, next), name[1..])
  {
  }

  lemma EndMatches(c: seq<byte>, off: nat)
    requires off < |c|
    ensures Piece([]) == [0] && off + |Piece([])| <= |c|
    ensures SamePiece(c, off, []) <==> c[off] == 0
    ensures Matches(c, off, []) <==> c[off] == 0
  {
    assert c[off..off + 1] == [c[off]];
  }

  lemma MatchesOn(c: seq<byte>, off: nat, name: Name)
    requires ValidName(name) && name != [] && off < |c|
    ensures var l := name[0]; var next := off + 1 + |l|;
      && (Matches(c, off, name) ==> next < |c| && c[off] == |l| && c[off + 1..next] == l)
      && (next < |c| && c[off] == |l| && c[off + 1..next] == l && (c[next] >= 192 ==> next + 1 < |c|) ==>
            (Matches(c, off, name) <==> Matches(c, Landing(c, next), name[1..])))
  {
  }

  lemma NoDifference(c: seq<byte>, p: nat, l: seq<byte>)
    requires p + |l| <= |c| && c[p..p + |l|] == l
    ensures !Differs(c, p, l)
  {
    forall i | 0 <= i < |l| ensures c[p + i] == l[i] {
      assert c[p..p + |l|][i] == c[p + i];
    }
  }

  /** Where a name is spelled, comparing any other name stays inside. */
  lemma {:induction false} KnownStays(c: seq<byte>, off: nat, known: Name, name: Name)
    requires ValidName(known) && ValidName(name) && Matches(c, off, known)
    ensures Stays(c, off, name)
    decreases |name|
  {
    if name != [] && c[off] == |name[0]| && !Differs(c, off + 1, name[0]) {
      assert ValidLabel(name[0]) && known != [];
      KnownStays(c, Landing(c, off + 1 + |name[0]|), known[1..], name[1..]);
    }
  }

  lemma {:induction false} SoundSearchStays(c: seq<byte>, from: nat, name: Name, j: int)
    requires Aligned(c, from) && LabelsReadable(c, from, j) && ValidName(name)
    ensures SearchStays(c, from, name)
    decreases |c| - from
  {
    if from < |c| {
      if 0 < c[from] < 192 {
        assert LabelAt(c, from, from);
        var m :| ValidName(m) && Matches(c, from, m) && MatchJumps(c, from, m) <= j;
        KnownStays(c, from, m, name);
      }
      OnwardReadable(c, from, j);
      SoundSearchStays(c, NextItem(c, from), name, j);
    }
  }

  lemma OnwardReadable(c: seq<byte>, off: nat, j: int)
    requires off < |c| && LabelsReadable(c, off, j)
    ensures LabelsReadable(c, NextItem(c, off), j)
  {
    forall o: nat | LabelAt(c, NextItem(c, off), o) ensures Readable(c, o, j) {
      assert LabelAt(c, off, o);
    }
  }

  /** In a buffer the encoder built, no search ever leaves the buffer. */
  lemma {:induction false} SoundStays(c: seq<byte>, name: Name, j: int)
    requires Sound(c, j) && ValidName(name)
    ensures EncodeStays(c, name)
    decreases |name|
  {
    if name != [] {
      SoundSearchStays(c, 0, name, j);
      SoundStays(c, name[1..], j);
    }
  }

  /** The inner loop of `find_offset`. */
  method MatchAt(cstr: seq<byte>, off: nat, dname: seq<byte>, ghost name: Name) returns (found: bool)
    requires ValidName(name) && Spelled(dname, name) && Stays(cstr, off, name)
    ensures found <==> Matches(cstr, off, name)
  {
    hide *;
    ghost var rest := name;
    var c: nat, d: nat := off, 0;
    assert dname[0..] == dname;
    while true
      invariant ValidName(rest) && Stays(cstr, c, rest)
      invariant d <= |dname| && Spelled(dname[d..], rest)
      invariant Matches(cstr, off, name) <==> Matches(cstr, c, rest)
      decreases |rest|
    {
      StaysStep(cstr, c, rest);
      SpelledOn(dname, d, rest);
      PieceTellsLabel(rest, []);
      var len1 := cstr[c] as int + 1;
      var same := SameOctets(cstr, c, dname, d, len1);
      SameAsPiece(cstr, c, dname, d, rest, same);
      if !same {
        return false;
      }
      if len1 == 1 {
        return true;
      }
      d := d + len1;
      c := c + len1;
      LandingIs(cstr, c);
      if cstr[c] >= 192 {
        c := Target(cstr, c);
      }
      rest := rest[1..];
    }
  }

  lemma SameAsPiece(c: seq<byte>, p: nat, d: seq<byte>, q: nat, name: Name, same: bool)
    requires ValidName(name) && p < |c| && q + |Piece(name)| <= |d| && d[q..q + |Piece(name)|] == Piece(name)
    requires var n := c[p] as int + 1; same <==> p + n <= |c| && q + n <= |d| && c[p..p + n] == d[q..q + n]
    ensures same <==> SamePiece(c, p, name)
    ensures same ==> c[p] as int + 1 == |Piece(name)|
  {
    var k := |Piece(name)|;
    var n := c[p] as int + 1;
    assert d[q] == d[q..q + k][0];
    if p + n <= |c| && q + n <= |d| && c[p..p + n] == d[q..q + n] {
      assert c[p..p + n][0] == d[q..q + n][0];
    }
    if p + k <= |c| && c[p..p + k] == Piece(name) {
      assert c[p] == c[p..p + k][0];
    }
  }

  lemma LandingIs(c: seq<byte>, n: nat)
    requires n < |c| && (c[n] >= 192 ==> n + 1 < |c|)
    ensures Landing(c, n) == if c[n] >= 192 then Target(c, n) else n
  {
  }

  /** `find_offset` */
  method FindOffset(cstr: seq<byte>, dname: seq<byte>, ghost name: Name) returns (r: int)
    requires ValidName(name) && Spelled(dname, name) && SearchStays(cstr, 0, name)
    ensures r == FirstMatch(cstr, 0, name)
  {
    hide Matches, Stays, Spelled;
    var off: nat := 0;
    while off < |cstr|
      invariant SearchStays(cstr, off, name)
      invariant FirstMatch(cstr, off, name) == FirstMatch(cstr, 0, name)
      decreases |cstr| - off
    {
      if cstr[off] >= 192 {
        off := off + 2;
        continue;
      }
      if cstr[off] != 0 {
        var found := MatchAt(cstr, off, dname, name);
        if found {
          return off;
        }
        off := off + cstr[off] + 1;
        continue;
      }
      off := off + 1;
    }
    return -1;
  }

  // ----- dname_enc -----

  /** What the encoder appends for `src`, when it accepts it. */
  function EncodeSource(c: seq<byte>, src: seq<byte>): Option<seq<byte>> {
    if ValidSource(src) then Some(Encode(c, LabelsOf(src))) else None
  }

  lemma EncodeStep(c: seq<byte>, name: Name)
    requires ValidName(name) && name != []
    ensures var off := FirstMatch(c, 0, name);
      if off >= 0 then Encode(c, name) == Pointer(off) else Encode(c, name) == Piece(name) + Encode(c, name[1..])
  {
  }

  /** `dname_enc`; an absent `cstr` is an empty one. */
  method DnameEnc(cstr: seq<byte>, src: seq<byte>) returns (dname: array?<byte>, retlen: nat)
    requires 0 !in src && (ValidSource(src) ==> EncodeStays(cstr, LabelsOf(src)))
    ensures dname == null <==> EncodeSource(cstr, src).None?
    ensures dname == null ==> retlen == 0
    ensures dname != null ==> retlen <= dname.Length && Some(dname[..retlen]) == EncodeSource(cstr, src)
    ensures dname != null && 0 <= PointedTo(cstr, LabelsOf(src)) < 16384 ==>
      2 <= retlen <= dname.Length && var x, y := dname[retlen - 2], dname[retlen - 1];
      x >= 192 && 256 * (x as int - 192) + y as int == PointedTo(cstr, LabelsOf(src))
  {
    hide Encode, FirstMatch, Wire, WireSize, EncodeStays;
    dname := ConvertDname(src);
    if dname == null {
      return null, 0;
    }
    retlen := Compress(cstr, dname, LabelsOf(src));
    if 0 <= PointedTo(cstr, LabelsOf(src)) < 16384 {
      EncodedOctets(cstr, LabelsOf(src));
      assert dname[..retlen][retlen - 2] == dname[retlen - 2] && dname[..retlen][retlen - 1] == dname[retlen - 1];
    }
  }

  /** The loop of `dname_enc`: the first suffix found in `cstr` is overwritten by a pointer. */
  method Compress(cstr: seq<byte>, dname: array<byte>, ghost name: Name) returns (retlen: nat)
    requires ValidName(name) && Spelled(dname[..], name) && EncodeStays(cstr, name)
    modifies dname
    ensures retlen <= dname.Length && dname[..retlen] == Encode(cstr, name)
  {
    hide *;
    ghost var all, rest := dname[..], name;
    var d: nat := 0;
    assert all[0..] == all && all[..0] == [];
    SpelledOn(all, 0, name);
    while dname[d] != 0
      invariant dname[..] == all && ValidName(rest) && d < |all| && Spelled(all[d..], rest) && EncodeStays(cstr, rest)
      invariant all[d] == 0 <==> rest == []
      invariant Encode(cstr, name) == all[..d] + Encode(cstr, rest)
      decreases |rest|
    {
      assert dname[d..] == all[d..] && dname[d] == all[d];
      SpelledOn(all, d, rest);
      EncodeStaysOn(cstr, rest);
      var off := FindOffset(cstr, dname[d..], rest);
      EncodeStep(cstr, rest);
      if off >= 0 {
        WritePointer(dname, d, off);
        assert dname[..d] == all[..d];
        return d + 2;
      }
      KeepLabel(all, d, cstr, rest);
      d := d + dname[d] + 1;
      rest := rest[1..];
      SpelledOn(all, d, rest);
    }
    EncodeEmpty(cstr);
    assert dname[..d + 1] == all[..d] + [0];
    retlen := d + 1;
  }

  lemma EncodeStaysOn(c: seq<byte>, name: Name)
    requires EncodeStays(c, name) && name != []
    ensures SearchStays(c, 0, name) && (FirstMatch(c, 0, name) < 0 ==> EncodeStays(c, name[1..]))
  {
  }

  method WritePointer(dname: array<byte>, d: nat, off: nat)
    requires d + 1 < dname.Length
    modifies dname
    ensures dname[..d + 2] == old(dname[..d]) + Pointer(off)
  {
    dname[d] := 192 + (off / 256) % 64;
    dname[d + 1] := off % 256;
  }

  lemma EncodeEmpty(c: seq<byte>)
    ensures Encode(c, []) == [0]
  {
  }

  lemma KeepLabel(all: seq<byte>, d: nat, c: seq<byte>, rest: Name)
    requires ValidName(rest) && rest != [] && d < |all| && Spelled(all[d..], rest) && FirstMatch(c, 0, rest) < 0
    ensures var k := |Piece(rest)|;
      d + k < |all| && all[..d] + Encode(c, rest) == all[..d + k] + Encode(c, rest[1..]) &&
      Spelled(all[d + k..], rest[1..])
  {
    hide Encode, Spelled, FirstMatch;
    var k := |Piece(rest)|;
    SpelledOn(all, d, rest);
    EncodeStep(c, rest);
    MovePiece(all, d, Piece(rest), Encode(c, rest[1..]));
  }

  lemma MovePiece(all: seq<byte>, d: nat, piece: seq<byte>, tail: seq<byte>)
    requires d + |piece| <= |all| && all[d..d + |piece|] == piece
    ensures all[..d] + (piece + tail) == all[..d + |piece|] + tail
  {
    assert all[..d + |piece|] == all[..d] + all[d..d + |piece|];
  }
}
