/**
 How far the codec of components/net/udhcp/domain_codec.c goes: seven names always come back, eight need not;
 and which buffers without a proper end the decoder accepts.
 */
module DomainLimits {
  import opened Basics
  import opened DomainNames
  import opened CompressedNames
  import opened DomainDecoder
  import opened DomainRoundTrip

  // ----- eight nested names -----

  lemma {:induction false} ChainSize(ls: seq<Label>)
    requires ValidName(ls)
    ensures WireSize(Chain(ls)) <= (MAX_LABEL + 1) * |ls|
  {
    if ls != [] {
      ChainSize(ls[..|ls| - 1]);
      assert ([ls[|ls| - 1]] + Chain(ls[..|ls| - 1]))[1..] == Chain(ls[..|ls| - 1]);
    }
  }

  lemma EightReachable(ls: seq<Label>)
    requires |ls| == 8 && ValidName(ls)
    ensures ValidNames(Nested(ls)) && Reachable(Nested(ls))
  {
    NestedInit(ls);
    var ns := Nested(ls);
    forall k | 0 <= k < 8 ensures WireSize(ns[k]) < 513 {
      ChainSize(ls[..k + 1]);
    }
    CompressedSize(ns, 513);
    ShortReachable(ns);
  }

  /** Names that start with eight of which each puts one label in front of the one before are refused, whatever
      follows. */
  lemma EightNestedNamesRefused(ls: seq<Label>, ns: seq<Name>, pre: seq<byte>)
    requires |ls| == 8 && ValidName(ls) && ValidNames(ns) && |ns| >= 8 && ns[..8] == Nested(ls)
    ensures Decode(Compressed(ns), pre) == Null
  {
    hide Walk, Compressed, Holds, Depths, Reachable, Nested, Decode, Sound, OnlyChains, ValidNames, FirstMatch;
    EightReachable(ls);
    NestedDepths(ls);
    CompressedGrows(ns, 8);
    var first := Compressed(Nested(ls));
    var d := Compressed(ns)[|first|..];
    assert first + d == Compressed(ns);
    assert Depths(first, 0, Nested(ls))[7] == 7;
    WalkThrough(first, d, 0, Nested(ls), 0);
    RefusedTokens(Compressed(ns), pre);
  }

  /** `a`, `b.a`, `c.b.a` and so on. */
  function NestedSource(k: nat): (s: seq<byte>)
    requires k < 8
    ensures |s| == 2 * k + 1 && s[|s| - 1] == 97 && forall i :: 0 <= i < |s| ==> s[i] == DOT || 97 <= s[i] <= 104
  {
    if k == 0 then [97] else [97 + k, DOT] + NestedSource(k - 1)
  }

  function Letters(): (ls: seq<Label>)
    ensures |ls| == 8 && ValidName(ls)
  {
    [[97], [98], [99], [100], [101], [102], [103], [104]]
  }

  lemma SplitLetter(x: byte, rest: seq<byte>)
    requires x != DOT
    ensures Split([x], []) == [[x]] && Split([x, DOT] + rest, []) == [[x]] + Split(rest, [])
  {
    var s := [x, DOT] + rest;
    assert [] + [x] == [x] && [x][1..] == [];
    assert Split([], [x]) == [[x]];
    assert s[1..][0] == DOT && s[1..][1..] == rest;
    assert Split(s, []) == Split(s[1..], [x]);
  }

  lemma ChainOnTop(ls: seq<Label>)
    requires ls != []
    ensures var rest := Chain(ls[..|ls| - 1]); var l := ls[|ls| - 1];
      Chain(ls) == [l] + rest && WireSize(Chain(ls)) == |l| + 1 + WireSize(rest)
  {
    assert ([ls[|ls| - 1]] + Chain(ls[..|ls| - 1]))[1..] == Chain(ls[..|ls| - 1]);
  }

  lemma {:induction false} NestedLabels(k: nat)
    requires k < 8
    ensures Split(NestedSource(k), []) == Chain(Letters()[..k + 1])
    ensures WireSize(Chain(Letters()[..k + 1])) == 2 * (k + 1) && ValidName(Chain(Letters()[..k + 1]))
  {
    hide Split, Chain, WireSize;
    var ls := Letters()[..k + 1];
    assert ls[..k] == Letters()[..k] && ls[k] == [97 + k];
    ChainOnTop(ls);
    ChainValid(ls);
    if k == 0 {
      SplitLetter(97, []);
      NoChain();
      assert ls[..0] == [] && [[97]] + [] == [[97]];
    } else {
      NestedLabels(k - 1);
      SplitLetter(97 + k, NestedSource(k - 1));
    }
  }

  lemma NoChain()
    ensures Chain([]) == [] && WireSize([]) == 0
  {
  }

  lemma NestedCanonical(k: nat)
    requires k < 8
    ensures Canonical(NestedSource(k)) == NestedSource(k)
  {
  }

  /** Eight acceptable names, and behind them `n - 8` times `a`. */
  function Sources(n: nat): (srcs: seq<seq<byte>>)
    ensures |srcs| == n && forall i :: 0 <= i < n ==> srcs[i] == NestedSource(if i < 8 then i else 0)
  {
    seq(n, i requires 0 <= i < n => NestedSource(if i < 8 then i else 0))
  }

  lemma NestedIsValid(k: nat)
    requires k < 8
    ensures ValidSource(NestedSource(k)) && LabelsOf(NestedSource(k)) == Chain(Letters()[..k + 1])
  {
    NestedLabels(k);
    NestedCanonical(k);
  }

  /** Encoded one after another and decoded again, the sources come back canonical behind the prefix. */
  ghost predicate ComesBack(srcs: seq<seq<byte>>, pre: seq<byte>) {
    && ValidNames(Labelled(srcs))
    && Decode(Compressed(Labelled(srcs)), pre) == Buffer(pre + Spaced(Canonicals(srcs)) + [0])
  }

  predicate AllValid(srcs: seq<seq<byte>>) {
    forall i :: 0 <= i < |srcs| ==> ValidSource(srcs[i])
  }

  /** Eight or more acceptable names that do not come back. */
  lemma NestedSourcesRefused(n: nat, pre: seq<byte>)
    requires n >= 8
    ensures AllValid(Sources(n)) && ValidNames(Labelled(Sources(n)))
    ensures Decode(Compressed(Labelled(Sources(n))), pre) == Null
  {
    hide ValidSource, LabelsOf, NestedSource, Compressed, Decode, Letters, Chain;
    var srcs := Sources(n);
    var ns := Labelled(srcs);
    forall i | 0 <= i < n
      ensures ValidSource(srcs[i]) && ValidName(ns[i])
      ensures ns[i] == Chain(Letters()[..(if i < 8 then i else 0) + 1])
    {
      NestedIsValid(if i < 8 then i else 0);
      SourceNames(srcs[i]);
    }
    assert ns[..8] == Nested(Letters());
    EightNestedNamesRefused(Letters(), ns, pre);
  }

  lemma SourceNames(src: seq<byte>)
    requires ValidSource(src)
    ensures ValidName(LabelsOf(src))
  {
  }

  /** However many names: all acceptable choices of `n` names come back exactly if there are at most seven. */
  lemma SevenIsTheMost(n: nat, pre: seq<byte>)
    requires n > 0
    ensures (forall srcs: seq<seq<byte>> :: |srcs| == n && AllValid(srcs) ==> ComesBack(srcs, pre)) <==> n <= 7
  {
    hide AllValid, ComesBack;
    if n <= 7 {
      forall srcs: seq<seq<byte>> | |srcs| == n && AllValid(srcs) ensures ComesBack(srcs, pre) {
        FewComeBack(srcs, pre);
      }
    } else {
      NestedSourcesRefused(n, pre);
      RefusedStaysAway(Sources(n), pre);
    }
  }

  lemma FewComeBack(srcs: seq<seq<byte>>, pre: seq<byte>)
    requires 1 <= |srcs| <= 7 && AllValid(srcs)
    ensures ComesBack(srcs, pre)
  {
    RoundTrip(srcs, pre);
  }

  lemma RefusedStaysAway(srcs: seq<seq<byte>>, pre: seq<byte>)
    requires ValidNames(Labelled(srcs)) && Decode(Compressed(Labelled(srcs)), pre) == Null
    ensures !ComesBack(srcs, pre)
  {
  }

  // ----- buffers that break off -----

  /** The labels of a name, without its end. */
  function Texts(name: Name): seq<Token> {
    if name == [] then [] else [Text(name[0])] + Texts(name[1..])
  }

  /** Labels at the start of a buffer are read, whatever follows them. */
  lemma {:induction false} WalkLabels(w: seq<byte>, name: Name, d: seq<byte>, len: nat)
    requires ValidName(name) && len + WireSize(name) <= MAX_TEXT
    ensures var c := w + Wire(name) + d;
      Walk(c, |w|, 0, 0, len) == Prepend(Texts(name), Walk(c, |w + Wire(name)|, 0, 0, len + WireSize(name)))
    decreases |name|
  {
    hide Walk;
    var c := w + Wire(name) + d;
    if name == [] {
      assert w + Wire(name) == w;
      PrependNothing(Walk(c, |w|, 0, 0, len));
    } else {
      var l := name[0];
      var w' := w + ([|l|] + l);
      assert ValidLabel(l);
      WireHead(w, name, d);
      WalkLabel(c, |w|, 0, 0, len, l);
      WalkLabels(w', name[1..], d, len + |l| + 1);
      PushPrepend(Text(l), Texts(name[1..]), Walk(c, |w + Wire(name)|, 0, 0, len + WireSize(name)));
    }
  }

  lemma WireHead(w: seq<byte>, name: Name, d: seq<byte>)
    requires ValidName(name) && name != []
    ensures var l := name[0]; var c := w + Wire(name) + d; var n := |w| + |l| + 1;
      && n <= |c| && c[|w|] == |l| && c[|w| + 1..n] == l
      && c == w + ([|l|] + l) + Wire(name[1..]) + d && w + Wire(name) == w + ([|l|] + l) + Wire(name[1..])
  {
    hide Wire;
    var h: seq<byte> := [|name[0]|] + name[0];
    WireUnfolds(name);
    LabelInside(w, h, Wire(name[1..]), d);
  }

  lemma WireUnfolds(name: Name)
    requires ValidName(name) && name != []
    ensures |name[0]| < 256 && Wire(name) == [|name[0]|] + name[0] + Wire(name[1..])
  {
  }

  lemma LabelInside(w: seq<byte>, h: seq<byte>, t: seq<byte>, d: seq<byte>)
    requires h != []
    ensures var c := w + (h + t) + d; var n := |w| + |h|;
      c == w + h + t + d && w + (h + t) == w + h + t && n <= |c| && c[|w|] == h[0] && c[|w| + 1..n] == h[1..]
  {
  }

  /** A name without an end is accepted, and so is one that ends in a pointer to the end of the buffer or behind it;
      one that ends in half a pointer or a label longer than what is left is refused. */
  lemma BrokenOff(name: Name, tail: seq<byte>)
    requires ValidName(name) && WireSize(name) <= MAX_TEXT
    ensures var c := Wire(name) + tail;
      && (tail == [] ==> Walk(c, 0, 0, 0, 0) == Some(Texts(name)))
      && (|tail| == 2 && tail[0] >= 192 && PointerTarget(tail[0], tail[1]) >= |c| ==>
            Walk(c, 0, 0, 0, 0) == Some(Texts(name)))
      && (|tail| == 1 && tail[0] >= 192 ==> Walk(c, 0, 0, 0, 0) == None)
      && (tail != [] && 0 < tail[0] < 192 && |tail| <= tail[0] as int ==> Walk(c, 0, 0, 0, 0) == None)
  {
    hide Wire, WireSize, Texts;
    var c := Wire(name) + tail;
    var n := |Wire(name)|;
    assert [] + Wire(name) + tail == c && [] + Wire(name) == Wire(name);
    WalkLabels([], name, tail, 0);
    PrependToNone(Texts(name));
    if tail != [] {
      assert c[n] == tail[0] && (|tail| == 2 ==> c[n + 1] == tail[1]);
    }
  }

  /** The name `a`, then a pointer to octet 200 of four. */
  lemma PointerBehindEndAccepted()
    ensures Walk([1, 97, 192, 200], 0, 0, 0, 0) == Some([Text([97])])
  {
    var name: Name := [[97]];
    assert Wire(name) == [1, 97] && Texts(name) == [Text([97])];
    assert [1, 97] + [192, 200] == [1, 97, 192, 200];
    BrokenOff(name, [192, 200]);
  }
}
