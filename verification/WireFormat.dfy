/**
 The wire format of compressed names (section 4.1.4 of RFC 1035) in figures: what each octet makes the decoder of
 components/net/udhcp/domain_codec.c do, and a search list in both directions.
 */
module WireFormat {
  import opened Basics
  import opened DomainNames
  import opened CompressedNames
  import opened DomainDecoder
  import opened DomainEncoder
  import opened DomainRoundTrip

  /** An octet of 192 or more and the one behind it are a pointer: reading goes on at 256 times what the first exceeds
      192 by, plus the second, and outside a jump comes back behind the pointer. Seven jumps in a row are refused. */
  lemma PointerOctets(c: seq<byte>, p: nat, ret: nat, depth: nat, len: nat)
    requires Position(c, p, ret, depth, len) && p < |c| && c[p] >= 192
    ensures p + 1 == |c| || depth == 6 ==> Walk(c, p, ret, depth, len) == None
    ensures p + 1 < |c| && depth < 6 ==>
      Walk(c, p, ret, depth, len) ==
        Walk(c, 256 * (c[p] as int - 192) + c[p + 1] as int, if ret == 0 then p + 2 else ret, depth + 1, len)
  {
    if p + 1 < |c| {
      TargetInFigures(c[p], c[p + 1]);
    }
    hide PointerTarget;
  }

  lemma TargetInFigures(hi: byte, lo: byte)
    requires hi >= 192
    ensures PointerTarget(hi, lo) == 256 * (hi as int - 192) + lo as int
  {
  }

  /** Any other octet but 0 is the length of a label behind it, unless that runs over the end or over 6150 octets. */
  lemma LabelOctets(c: seq<byte>, p: nat, ret: nat, depth: nat, len: nat)
    requires Position(c, p, ret, depth, len) && p < |c| && 0 < c[p] < 192
    ensures var n := p + 1 + c[p] as int; var size := len + 1 + c[p] as int;
      if n > |c| || size > 6150 then Walk(c, p, ret, depth, len) == None
      else if Walk(c, n, ret, depth, size).None? then Walk(c, p, ret, depth, len) == None
      else Walk(c, p, ret, depth, len) == Some([Text(c[p + 1..n])] + Walk(c, n, ret, depth, size).value)
  {
  }

  /** The octet 0 ends a name; reading goes on behind it, or behind the first pointer of the name. */
  lemma EndOctet(c: seq<byte>, p: nat, ret: nat, depth: nat, len: nat)
    requires Position(c, p, ret, depth, len) && p < |c| && c[p] == 0
    ensures var rest := if ret == 0 then Walk(c, p + 1, 0, 0, len) else Walk(c, ret, 0, 0, len);
      Walk(c, p, ret, depth, len) == if rest.None? then None else Some([Stop] + rest.value)
  {
  }

  /** Behind the end of the buffer there is nothing. */
  lemma NoOctet(c: seq<byte>, p: nat, ret: nat, depth: nat, len: nat)
    requires Position(c, p, ret, depth, len) && p >= |c|
    ensures Walk(c, p, ret, depth, len) == Some([])
  {
  }

  lemma {:induction false} NoText(ts: seq<Token>)
    ensures Size(ts) == 0 <==> forall i :: 0 <= i < |ts| ==> ts[i].Stop?
  {
    if ts != [] {
      NoText(ts[1..]);
      assert forall i :: 0 < i < |ts| ==> ts[i] == ts[1..][i - 1];
    }
  }

  /** Null comes of what is refused on the way and of a buffer without any label. */
  lemma NothingDecoded(c: seq<byte>, pre: seq<byte>)
    ensures Decode(c, pre) == Null <==>
      match Walk(c, 0, 0, 0, 0)
      case None => true
      case Some(ts) => forall i :: 0 <= i < |ts| ==> ts[i].Stop?
  {
    hide Walk;
    if Walk(c, 0, 0, 0, 0).Some? {
      NoText(Walk(c, 0, 0, 0, 0).value);
    }
  }

  // ----- a search list -----

  /** `a.com` and, with a pointer to octet 2, `b.com`. */
  const LIST: seq<byte> := [1, 97, 3, 99, 111, 109, 0, 1, 98, 192, 2]

  /** From the pointer on: `com`, and then the end of the buffer. */
  lemma JumpTokens(c: seq<byte>)
    requires c == LIST
    ensures Walk(c, 9, 0, 0, 8) == Some([Text([99, 111, 109]), Stop])
  {
    Slices(c);
    hide Walk, LIST;
    NoOctet(c, 11, 0, 0, 12);
    EndOctet(c, 6, 11, 1, 12);
    assert [Stop] + [] == [Stop];
    LabelOctets(c, 2, 11, 1, 8);
    assert [Text([99, 111, 109])] + [Stop] == [Text([99, 111, 109]), Stop];
    PointerOctets(c, 9, 0, 0, 8);
  }

  /** From the second name on. */
  lemma SecondTokens(c: seq<byte>)
    requires c == LIST
    ensures Walk(c, 6, 0, 0, 6) == Some([Stop, Text([98]), Text([99, 111, 109]), Stop])
  {
    Slices(c);
    JumpTokens(c);
    hide Walk, LIST;
    var t5 := [Text([99, 111, 109]), Stop];
    var t4 := [Text([98]), Text([99, 111, 109]), Stop];
    LabelOctets(c, 7, 0, 0, 6);
    assert [Text([98])] + t5 == t4;
    EndOctet(c, 6, 0, 0, 6);
    assert [Stop] + t4 == [Stop, Text([98]), Text([99, 111, 109]), Stop];
  }

  lemma ListTokens()
    ensures Walk(LIST, 0, 0, 0, 0) ==
      Some([Text([97]), Text([99, 111, 109]), Stop, Text([98]), Text([99, 111, 109]), Stop])
  {
    var c := LIST;
    Slices(c);
    SecondTokens(c);
    hide Walk, LIST;
    var com := Text([99, 111, 109]);
    var t3, t2 := [Stop, Text([98]), com, Stop], [com, Stop, Text([98]), com, Stop];
    LabelOctets(c, 2, 0, 0, 2);
    assert [com] + t3 == t2;
    LabelOctets(c, 0, 0, 0, 0);
    assert [Text([97])] + t2 == [Text([97]), com, Stop, Text([98]), com, Stop];
  }

  lemma Slices(c: seq<byte>)
    requires c == LIST
    ensures |c| == 11 && c[0] == 1 && c[2] == 3 && c[6] == 0 && c[7] == 1 && c[9] == 192 && c[10] == 2
    ensures c[1..2] == [97] && c[3..6] == [99, 111, 109] && c[8..9] == [98]
  {
  }

  lemma ListText()
    ensures Render([], [Text([97]), Text([99, 111, 109]), Stop, Text([98]), Text([99, 111, 109]), Stop]) ==
      [97, 46, 99, 111, 109, 32, 98, 46, 99, 111, 109, 32]
    ensures Size([Text([97]), Text([99, 111, 109]), Stop, Text([98]), Text([99, 111, 109]), Stop]) == 12
  {
    var com := Text([99, 111, 109]);
    var ts := [Text([97]), com, Stop, Text([98]), com, Stop];
    var s1, s2 := [com, Stop, Text([98]), com, Stop], [Stop, Text([98]), com, Stop];
    var s3, s4, s5 := [Text([98]), com, Stop], [com, Stop], [Stop];
    assert ts[1..] == s1 && s1[1..] == s2 && s2[1..] == s3 && s3[1..] == s4 && s4[1..] == s5 && s5[1..] == [];
    assert Size(s5) == 0 && Size(s4) == 4 && Size(s3) == 6 && Size(s2) == 6 && Size(s1) == 10;
    var r1: seq<byte>, r2: seq<byte> := [97, 46], [97, 46, 99, 111, 109, 46];
    var r3: seq<byte>, r4: seq<byte> := [97, 46, 99, 111, 109, 32], [97, 46, 99, 111, 109, 32, 98, 46];
    var r5: seq<byte> := [97, 46, 99, 111, 109, 32, 98, 46, 99, 111, 109, 46];
    assert [] + [97] + [DOT] == r1 && r1 + [99, 111, 109] + [DOT] == r2 && Blank(r2) == r3;
    assert r3 + [98] + [DOT] == r4 && r4 + [99, 111, 109] + [DOT] == r5;
    assert Render([], ts) == Render(r1, s1) == Render(r2, s2) == Render(r3, s3) == Render(r4, s4) == Render(r5, s5);
    assert Render(r5, s5) == Blank(r5);
  }

  /** It decodes to `a.com b.com`. */
  lemma ListDecoded()
    ensures Decode(LIST, []) == Buffer([97, 46, 99, 111, 109, 32, 98, 46, 99, 111, 109, 0])
  {
    hide Walk, Render, Size;
    ListTokens();
    ListText();
  }

  lemma SourceLabels()
    ensures LabelsOf([66, 46, 67, 111, 109, 46]) == [[98], [99, 111, 109]]
  {
    var src: seq<byte> := [66, 46, 67, 111, 109, 46];
    var n: Name := [[98], [99, 111, 109]];
    CanonicalOctets(src);
    assert Canonical(src) == [98, 46, 99, 111, 109];
    assert Join(n[1..]) == [99, 111, 109];
    assert Join(n) == [98] + [DOT] + [99, 111, 109];
    LabelsAreBetweenDots(src, n);
  }

  /** Behind `a.com`, the name `B.Com.` is encoded as the label `b` and a pointer to octet 2. */
  lemma ListEncoded()
    ensures EncodeSource([1, 97, 3, 99, 111, 109, 0], [66, 46, 67, 111, 109, 46]) == Some([1, 98, 192, 2])
  {
    var c: seq<byte> := [1, 97, 3, 99, 111, 109, 0];
    var src: seq<byte> := [66, 46, 67, 111, 109, 46];
    SourceLabels();
    WhichNames(src);
    CanonicalOctets(src);
    hide LabelsOf, Encode, Canonical;
    EncodedBehind(c);
  }

  lemma EncodedBehind(c: seq<byte>)
    requires c == [1, 97, 3, 99, 111, 109, 0]
    ensures ValidName([[98], [99, 111, 109]]) && Encode(c, [[98], [99, 111, 109]]) == [1, 98, 192, 2]
  {
    var com: Name := [[99, 111, 109]];
    var name: Name := [[98], [99, 111, 109]];
    assert name[1..] == com && com[1..] == [];
    ComFound();
    BNotFound();
    hide FirstMatch;
    EncodeStep(c, com);
    EncodeStep(c, name);
    assert Pointer(2) == [192, 2] && Piece(name) == [1, 98];
  }

  lemma ComFound()
    ensures FirstMatch([1, 97, 3, 99, 111, 109, 0], 0, [[99, 111, 109]]) == 2
  {
    var c: seq<byte> := [1, 97, 3, 99, 111, 109, 0];
    var com: Name := [[99, 111, 109]];
    assert com[1..] == [] && c[3..6] == [99, 111, 109];
    assert Reads(c, 6, []);
    assert Matches(c, 2, com);
    assert !Matches(c, 0, com);
    assert FirstMatch(c, 2, com) == 2;
  }

  lemma BNotFound()
    ensures FirstMatch([1, 97, 3, 99, 111, 109, 0], 0, [[98], [99, 111, 109]]) == -1
  {
    var c: seq<byte> := [1, 97, 3, 99, 111, 109, 0];
    var name: Name := [[98], [99, 111, 109]];
    assert c[1..2] == [97];
    assert !Matches(c, 0, name) && !Matches(c, 2, name);
    assert FirstMatch(c, 7, name) == -1;
    assert FirstMatch(c, 6, name) == -1;
    assert FirstMatch(c, 2, name) == -1;
  }

  // ----- the limits -----

  lemma {:induction false} TextLength(ns: seq<Name>)
    requires ns != [] && NonEmpty(ns)
    ensures TotalSize(ns) == |Spaced(Texts(ns))| + 1
    decreases |ns|
  {
    WireSizeOfText(ns[0]);
    if |ns| > 1 {
      assert Texts(ns)[1..] == Texts(ns[1..]);
      TextLength(ns[1..]);
    } else {
      assert ns[1..] == [];
    }
  }

  /** `DomainRoundTrip.DecodesExactly` in figures: the names come back exactly if their text, without its end, has fewer
      than 6150 octets and none takes more than six jumps. */
  lemma DecodesInFigures(ns: seq<Name>, pre: seq<byte>)
    requires ns != [] && ValidNames(ns) && NonEmpty(ns)
    ensures |Spaced(Texts(ns))| < 6150 ==> Holds(Compressed(ns), 0, ns)
    ensures Decode(Compressed(ns), pre) ==
      if |Spaced(Texts(ns))| < 6150 && forall k :: 0 <= k < |ns| ==> Depths(Compressed(ns), 0, ns)[k] <= 6
      then Buffer(pre + Spaced(Texts(ns)) + [0]) else Null
  {
    hide Compressed, Spaced, Texts, Decode, Holds, Depths, TotalSize;
    TextLength(ns);
    DecodesExactly(ns, pre);
  }
}
