/**
 The codec as a whole: names encoded one after another, each against the buffer so far,
 decode to those names again.
 */
module DomainRoundTrip {
  import opened Basics
  import opened DomainNames
  import opened CompressedNames
  import opened DomainDecoder

  predicate ValidNames(ns: seq<Name>) {
    forall i :: 0 <= i < |ns| ==> ValidName(ns[i])
  }

  /** The buffer after every name has been encoded against the buffer before it and appended. */
  function Compressed(ns: seq<Name>): seq<byte>
    requires ValidNames(ns)
  {
    if ns == [] then []
    else
      var c := Compressed(ns[..|ns| - 1]);
      c + Encode(c, ns[|ns| - 1])
  }

  /** Every pointer written while the names are encoded fits into 14 bits. */
  predicate Reachable(ns: seq<Name>)
    requires ValidNames(ns)
  {
    ns == [] || (Reachable(ns[..|ns| - 1]) && InReach(Compressed(ns[..|ns| - 1]), ns[|ns| - 1]))
  }

  lemma {:induction false} ShortReachable(ns: seq<Name>)
    requires ValidNames(ns) && |Compressed(ns)| <= POINTER_REACH
    ensures Reachable(ns)
    decreases |ns|
  {
    if ns != [] {
      ShortReachable(ns[..|ns| - 1]);
      ShortInReach(Compressed(ns[..|ns| - 1]), ns[|ns| - 1]);
    }
  }

  /** Where the octets written for the name at `p` end: behind its terminator or its pointer. */
  function NameEnd(c: seq<byte>, p: nat): nat
    requires p < |c|
    decreases |c| - p
  {
    if c[p] >= 192 || c[p] == 0 || NextItem(c, p) >= |c| then NextItem(c, p) else NameEnd(c, NextItem(c, p))
  }

  /** From `p` on the buffer holds exactly the names `ns`. */
  predicate Holds(c: seq<byte>, p: nat, ns: seq<Name>)
    decreases |ns|
  {
    if ns == [] then p == |c| else Reads(c, p, ns[0]) && Holds(c, NameEnd(c, p), ns[1..])
  }

  /** For each name the number of pointers a reader follows. */
  function Depths(c: seq<byte>, p: nat, ns: seq<Name>): (ds: seq<nat>)
    requires Holds(c, p, ns)
    ensures |ds| == |ns|
    decreases |ns|
  {
    if ns == [] then [] else [ReadJumps(c, p, ns[0])] + Depths(c, NameEnd(c, p), ns[1..])
  }

  function TotalSize(ns: seq<Name>): nat {
    if ns == [] then 0 else WireSize(ns[0]) + TotalSize(ns[1..])
  }

  // ----- the buffer holds the names -----

  lemma {:induction false} NameEndExtend(c: seq<byte>, d: seq<byte>, p: nat, name: Name)
    requires Reads(c, p, name) && ValidName(name)
    ensures NameEnd(c, p) <= |c| && NameEnd(c + d, p) == NameEnd(c, p)
    decreases |name|
  {
    if name != [] && c[p] < 192 {
      NameEndExtend(c, d, p + 1 + |name[0]|, name[1..]);
    }
  }

  lemma EncodedLabel(c: seq<byte>, name: Name)
    requires ValidName(name) && name != []
    ensures 1 <= |name[0]| <= MAX_LABEL && ValidName(name[1..]) && WireSize(name) == |name[0]| + 1 + WireSize(name[1..])
    ensures if FirstMatch(c, 0, name) >= 0 then |Encode(c, name)| == 2 && Encode(c, name)[0] >= 192
            else Encode(c, name) == [|name[0]|] + name[0] + Encode(c, name[1..])
  {
  }

  lemma EndsHere(b: seq<byte>, p: nat)
    requires p < |b| && (b[p] >= 192 || b[p] == 0) && NextItem(b, p) == |b|
    ensures NameEnd(b, p) == |b|
  {
  }

  lemma EndsFurtherOn(b: seq<byte>, p: nat, n: nat)
    requires p < n < |b| && b[p] == n - p - 1 && 0 < b[p] < 192
    ensures NameEnd(b, p) == NameEnd(b, n)
  {
  }

  lemma {:induction false} EncodeEnds(c: seq<byte>, w: seq<byte>, name: Name)
    requires ValidName(name)
    ensures |Encode(c, name)| > 0 && NameEnd(c + w + Encode(c, name), |c + w|) == |c + w + Encode(c, name)|
    ensures |Encode(c, name)| <= WireSize(name) + 1
    decreases |name|
  {
    var b := c + w + Encode(c, name);
    var p := |c + w|;
    if name == [] {
      assert b[p] == 0;
      EndsHere(b, p);
    } else {
      hide Encode, NameEnd, WireSize, FirstMatch;
      EncodedLabel(c, name);
      if FirstMatch(c, 0, name) >= 0 {
        assert b[p] == Encode(c, name)[0];
        EndsHere(b, p);
      } else {
        var l := name[0];
        var w' := w + [|l|] + l;
        var n := p + 1 + |l|;
        EncodeEnds(c, w', name[1..]);
        Regroup(c, w, |l|, l, Encode(c, name[1..]));
        assert b == c + w' + Encode(c, name[1..]) && |c + w'| == n;
        assert NameEnd(b, n) == |b|;
        EndsFurtherOn(b, p, n);
      }
    }
  }

  lemma {:induction false} HoldsOneMore(c: seq<byte>, e: seq<byte>, p: nat, ns: seq<Name>, name: Name)
    requires Holds(c, p, ns) && ValidNames(ns) && e != []
    requires Reads(c + e, |c|, name) && NameEnd(c + e, |c|) == |c + e|
    ensures Holds(c + e, p, ns + [name])
    ensures Depths(c + e, p, ns + [name]) == Depths(c, p, ns) + [ReadJumps(c + e, |c|, name)]
    decreases |ns|
  {
    var all := ns + [name];
    if ns == [] {
      assert all == [name] && all[1..] == [];
    } else {
      NameEndExtend(c, e, p, ns[0]);
      ReadsExtend(c, e, p, ns[0]);
      HoldsOneMore(c, e, NameEnd(c, p), ns[1..], name);
      assert all[0] == ns[0] && all[1..] == ns[1..] + [name];
    }
  }

  /** As long as the pointers written fit in 14 bits the buffer holds the names, is sound, and name `k` takes at
      most `k` jumps. */
  lemma {:induction false} CompressedHolds(ns: seq<Name>)
    requires ValidNames(ns) && Reachable(ns)
    ensures Holds(Compressed(ns), 0, ns) && Sound(Compressed(ns), |ns| - 1)
    ensures forall k :: 0 <= k < |ns| ==> Depths(Compressed(ns), 0, ns)[k] <= k
    decreases |ns|
  {
    if ns != [] {
      var init, last := ns[..|ns| - 1], ns[|ns| - 1];
      var c := Compressed(init);
      var e := Encode(c, last);
      CompressedHolds(init);
      EncodeKeepsSound(c, last, |init| - 1);
      EncodeEnds(c, [], last);
      assert c + [] == c;
      HoldsOneMore(c, e, 0, init, last);
      assert init + [last] == ns;
    }
  }

  lemma {:induction false} CompressedSize(ns: seq<Name>, bound: nat)
    requires ValidNames(ns) && forall i :: 0 <= i < |ns| ==> WireSize(ns[i]) < bound
    ensures |Compressed(ns)| <= bound * |ns|
    decreases |ns|
  {
    hide Encode, NameEnd, WireSize;
    if ns != [] {
      var init, last := ns[..|ns| - 1], ns[|ns| - 1];
      CompressedSize(init, bound);
      EncodeEnds(Compressed(init), [], last);
      OneFactorMore(bound, |init|);
    }
  }

  lemma OneFactorMore(m: nat, n: nat)
    ensures m * (n + 1) == m * n + m
  {
  }

  lemma {:induction false} TotalSizeBound(ns: seq<Name>)
    requires forall i :: 0 <= i < |ns| ==> WireSize(ns[i]) < MAX_CDNAME
    ensures TotalSize(ns) <= (MAX_CDNAME - 1) * |ns|
  {
    if ns != [] {
      TotalSizeBound(ns[1..]);
    }
  }

  // ----- the decoder meets the names -----

  function NameTokens(name: Name): seq<Token> {
    if name == [] then [Stop] else [Text(name[0])] + NameTokens(name[1..])
  }

  function AllTokens(ns: seq<Name>): seq<Token> {
    if ns == [] then [] else NameTokens(ns[0]) + AllTokens(ns[1..])
  }

  function Prepend(ts: seq<Token>, rest: Option<seq<Token>>): Option<seq<Token>> {
    if rest.None? then None else Some(ts + rest.value)
  }

  lemma PushPrepend(t: Token, ts: seq<Token>, rest: Option<seq<Token>>)
    ensures Push(t, Prepend(ts, rest)) == Prepend([t] + ts, rest)
  {
    if rest.Some? {
      assert [t] + (ts + rest.value) == [t] + ts + rest.value;
    }
  }

  function Back(c: seq<byte>, p: nat, ret: nat): nat
    requires p < |c|
  {
    if ret == 0 then NameEnd(c, p) else ret
  }

  lemma WalkPointer(c: seq<byte>, p: nat, ret: nat, depth: nat, len: nat)
    requires Position(c, p, ret, depth, len) && p + 1 < |c| && c[p] >= 192
    ensures Walk(c, p, ret, depth, len) ==
      if depth == MAX_JUMPS then None else Walk(c, Target(c, p), if ret == 0 then p + 2 else ret, depth + 1, len)
  {
  }

  lemma WalkLabel(c: seq<byte>, p: nat, ret: nat, depth: nat, len: nat, l: Label)
    requires Position(c, p, ret, depth, len) && ValidLabel(l)
    requires p + |l| + 1 <= |c| && c[p] == |l| && c[p + 1..p + |l| + 1] == l
    ensures Walk(c, p, ret, depth, len) ==
      if len + |l| + 1 > MAX_TEXT then None else Push(Text(l), Walk(c, p + |l| + 1, ret, depth, len + |l| + 1))
  {
  }

  lemma WalkEnd(c: seq<byte>, p: nat, ret: nat, depth: nat, len: nat)
    requires Position(c, p, ret, depth, len) && p < |c| && c[p] == 0
    ensures Back(c, p, ret) <= |c|
    ensures Walk(c, p, ret, depth, len) == Prepend([Stop], Walk(c, Back(c, p, ret), 0, 0, len))
  {
  }

  /** The decoder reads one name, unless that takes too many jumps or too much text. */
  lemma {:induction false} WalkName(c: seq<byte>, p: nat, name: Name, ret: nat, depth: nat, len: nat)
    requires Position(c, p, ret, depth, len) && Reads(c, p, name) && ValidName(name)
    ensures p < |c| && Back(c, p, ret) <= |c|
    ensures if depth + ReadJumps(c, p, name) > MAX_JUMPS || len + WireSize(name) > MAX_TEXT
            then Walk(c, p, ret, depth, len) == None
            else Walk(c, p, ret, depth, len) ==
                 Prepend(NameTokens(name), Walk(c, Back(c, p, ret), 0, 0, len + WireSize(name)))
    decreases |name|, c[p]
  {
    hide Walk;
    NameEndExtend(c, [], p, name);
    if c[p] >= 192 {
      assert name != [] ==> ValidLabel(name[0]);
      WalkPointer(c, p, ret, depth, len);
      if depth < MAX_JUMPS {
        WalkName(c, Target(c, p), name, if ret == 0 then p + 2 else ret, depth + 1, len);
      }
    } else if name == [] {
      WalkEnd(c, p, ret, depth, len);
    } else {
      WalkOneLabel(c, p, name, ret, depth, len);
    }
  }

  lemma {:induction false} WalkOneLabel(c: seq<byte>, p: nat, name: Name, ret: nat, depth: nat, len: nat)
    requires Position(c, p, ret, depth, len) && Matches(c, p, name) && ValidName(name) && name != []
    ensures if depth + MatchJumps(c, p, name) > MAX_JUMPS || len + WireSize(name) > MAX_TEXT
            then Walk(c, p, ret, depth, len) == None
            else Back(c, p, ret) <= |c| && Walk(c, p, ret, depth, len) ==
                 Prepend(NameTokens(name), Walk(c, Back(c, p, ret), 0, 0, len + WireSize(name)))
    decreases |name|, 0
  {
    hide Walk;
    var n := |name[0]| + 1;
    var size := len + WireSize(name);
    WalkLabel(c, p, ret, depth, len, name[0]);
    assert Back(c, p, ret) == Back(c, p + n, ret);
    if len + n <= MAX_TEXT {
      WalkName(c, p + n, name[1..], ret, depth, len + n);
      if size <= MAX_TEXT {
        PushPrepend(Text(name[0]), NameTokens(name[1..]), Walk(c, Back(c, p + n, ret), 0, 0, size));
      }
    }
  }

  predicate Shallow(ds: seq<nat>) {
    forall k :: 0 <= k < |ds| ==> ds[k] <= MAX_JUMPS
  }

  lemma ShallowTail(d: nat, ds: seq<nat>)
    ensures Shallow([d] + ds) <==> d <= MAX_JUMPS && Shallow(ds)
  {
    var all := [d] + ds;
    assert all[0] == d;
    if Shallow(all) {
      forall k | 0 <= k < |ds| ensures ds[k] <= MAX_JUMPS {
        assert all[k + 1] == ds[k];
      }
    }
  }

  lemma NothingDeep()
    ensures Shallow([])
  {
  }

  lemma WalkOver(c: seq<byte>, len: nat)
    requires len <= MAX_TEXT
    ensures Walk(c, |c|, 0, 0, len) == Some([])
  {
  }

  /** The decoder reads the names a buffer `c` holds, whatever `d` follows it. */
  lemma {:induction false} WalkThrough(c: seq<byte>, d: seq<byte>, p: nat, ns: seq<Name>, len: nat)
    requires Holds(c, p, ns) && ValidNames(ns) && p <= |c| && len <= MAX_TEXT
    ensures Walk(c + d, p, 0, 0, len) ==
      if Shallow(Depths(c, p, ns)) && len + TotalSize(ns) <= MAX_TEXT
      then Prepend(AllTokens(ns), Walk(c + d, |c|, 0, 0, len + TotalSize(ns))) else None
    decreases |ns|
  {
    hide Walk, Reads, ReadJumps, WireSize, Shallow, NameEnd, NameTokens, Prepend;
    if ns == [] {
      NothingDeep();
      PrependNothing(Walk(c + d, |c|, 0, 0, len));
    } else {
      ReadsExtend(c, d, p, ns[0]);
      NameEndExtend(c, d, p, ns[0]);
      ReadsInside(c, p, ns[0]);
      WalkName(c + d, p, ns[0], 0, 0, len);
      if ReadJumps(c, p, ns[0]) <= MAX_JUMPS && len + WireSize(ns[0]) <= MAX_TEXT {
        WalkThrough(c, d, NameEnd(c, p), ns[1..], len + WireSize(ns[0]));
        if len + TotalSize(ns) <= MAX_TEXT {
          PrependTwice(NameTokens(ns[0]), AllTokens(ns[1..]), Walk(c + d, |c|, 0, 0, len + TotalSize(ns)));
        }
        PrependNone(NameTokens(ns[0]));
      }
      ShallowTail(ReadJumps(c, p, ns[0]), Depths(c, NameEnd(c, p), ns[1..]));
    }
  }

  lemma PrependNothing(rest: Option<seq<Token>>)
    ensures Prepend([], rest) == rest
  {
    if rest.Some? {
      assert [] + rest.value == rest.value;
    }
  }

  lemma PrependNone(ts: seq<Token>)
    ensures Prepend(ts, None) == None
  {
  }

  lemma PrependTwice(a: seq<Token>, b: seq<Token>, rest: Option<seq<Token>>)
    ensures Prepend(a, Prepend(b, rest)) == Prepend(a + b, rest)
  {
    if rest.Some? {
      assert a + (b + rest.value) == a + b + rest.value;
    }
  }

  lemma WalkAll(c: seq<byte>, p: nat, ns: seq<Name>, len: nat)
    requires Holds(c, p, ns) && ValidNames(ns) && p <= |c| && len <= MAX_TEXT
    ensures Walk(c, p, 0, 0, len) ==
      if Shallow(Depths(c, p, ns)) && len + TotalSize(ns) <= MAX_TEXT then Some(AllTokens(ns)) else None
  {
    hide *;
    WalkThrough(c, [], p, ns, len);
    assert c + [] == c;
    if len + TotalSize(ns) <= MAX_TEXT {
      WalkOver(c, len + TotalSize(ns));
      PrependToNone(AllTokens(ns));
    }
  }

  lemma PrependToNone(ts: seq<Token>)
    ensures Prepend(ts, Some([])) == Some(ts)
  {
    assert ts + [] == ts;
  }

  // ----- the text -----

  /** The names, each followed by a space. */
  function Sentence(ns: seq<Name>): seq<byte> {
    if ns == [] then [] else Join(ns[0]) + [SPACE] + Sentence(ns[1..])
  }

  /** Words with single spaces between them. */
  function Spaced(words: seq<seq<byte>>): seq<byte> {
    if words == [] then [] else if |words| == 1 then words[0] else words[0] + [SPACE] + Spaced(words[1..])
  }

  lemma RenderLabel(out: seq<byte>, l: Label, ts: seq<Token>)
    ensures Render(out, [Text(l)] + ts) == Render(out + l + [DOT], ts)
  {
    assert ([Text(l)] + ts)[1..] == ts;
  }

  lemma RenderEnd(out: seq<byte>)
    requires out != []
    ensures Render(out, [Stop]) == out[..|out| - 1] + [SPACE]
  {
    assert [Stop][1..] == [];
  }

  lemma JoinHead(out: seq<byte>, name: Name)
    requires name != []
    ensures var more := out + name[0] + [DOT];
      if |name| == 1 then name[1..] == [] && more[..|more| - 1] == out + Join(name)
      else more + Join(name[1..]) == out + Join(name)
  {
    var more := out + name[0] + [DOT];
    if |name| > 1 {
      DottedOn(out, name[0], Join(name[1..]));
    }
  }

  lemma DottedOn(out: seq<byte>, l: seq<byte>, rest: seq<byte>)
    ensures out + l + [DOT] + rest == out + (l + [DOT] + rest)
  {
  }

  lemma {:induction false} RenderName(out: seq<byte>, name: Name)
    requires name != []
    ensures Render(out, NameTokens(name)) == out + Join(name) + [SPACE]
    decreases |name|
  {
    hide Render, Join;
    var more := out + name[0] + [DOT];
    RenderLabel(out, name[0], NameTokens(name[1..]));
    JoinHead(out, name);
    if |name| == 1 {
      RenderEnd(more);
    } else {
      RenderName(more, name[1..]);
    }
  }

  lemma {:induction false} RenderAll(out: seq<byte>, ns: seq<Name>)
    requires forall i :: 0 <= i < |ns| ==> ns[i] != []
    ensures Render(out, AllTokens(ns)) == out + Sentence(ns)
    decreases |ns|
  {
    hide Render, NameTokens, Join;
    if ns == [] {
      RenderNothing(out);
    } else {
      RenderConcat(out, NameTokens(ns[0]), AllTokens(ns[1..]));
      RenderName(out, ns[0]);
      RenderAll(out + Join(ns[0]) + [SPACE], ns[1..]);
      SpacedOn(out, Join(ns[0]), Sentence(ns[1..]));
    }
  }

  lemma RenderNothing(out: seq<byte>)
    ensures Render(out, []) == out
  {
  }

  lemma SpacedOn(out: seq<byte>, text: seq<byte>, rest: seq<byte>)
    ensures out + text + [SPACE] + rest == out + (text + [SPACE] + rest)
  {
  }

  function Texts(ns: seq<Name>): (r: seq<seq<byte>>)
    ensures |r| == |ns| && forall i :: 0 <= i < |ns| ==> r[i] == Join(ns[i])
  {
    seq(|ns|, i requires 0 <= i < |ns| => Join(ns[i]))
  }

  lemma {:induction false} SentenceEndsInSpace(ns: seq<Name>)
    requires ns != []
    ensures Sentence(ns) == Spaced(Texts(ns)) + [SPACE]
    decreases |ns|
  {
    assert Texts(ns)[1..] == Texts(ns[1..]);
    if |ns| > 1 {
      SentenceEndsInSpace(ns[1..]);
    }
  }

  lemma {:induction false} TokensSize(ns: seq<Name>)
    ensures Size(AllTokens(ns)) == TotalSize(ns)
    decreases |ns|
  {
    if ns != [] {
      SizeConcat(NameTokens(ns[0]), AllTokens(ns[1..]));
      NameTokensSize(ns[0]);
      TokensSize(ns[1..]);
    }
  }

  lemma {:induction false} NameTokensSize(name: Name)
    ensures Size(NameTokens(name)) == WireSize(name)
    decreases |name|
  {
    if name != [] {
      assert NameTokens(name)[1..] == NameTokens(name[1..]);
      NameTokensSize(name[1..]);
    }
  }

  // ----- the round trip -----

  predicate NonEmpty(ns: seq<Name>) {
    forall i :: 0 <= i < |ns| ==> ns[i] != []
  }

  lemma {:induction false} TotalSizeConcat(a: seq<Name>, b: seq<Name>)
    ensures TotalSize(a + b) == TotalSize(a) + TotalSize(b)
    decreases |a|
  {
    if a == [] {
      assert a + b == b;
    } else {
      TotalSizeConcat(a[1..], b);
      assert (a + b)[1..] == a[1..] + b;
    }
  }

  lemma TotalSizeLast(ns: seq<Name>)
    requires ns != []
    ensures TotalSize(ns) == TotalSize(ns[..|ns| - 1]) + WireSize(ns[|ns| - 1])
  {
    var init, last := ns[..|ns| - 1], ns[|ns| - 1];
    TotalSizeConcat(init, [last]);
    var one: seq<Name> := [last];
    assert ns == init + one && one[1..] == [];
    assert TotalSize(one) == WireSize(last) + TotalSize(one[1..]);
  }

  lemma SizeOfName(name: Name)
    requires ValidName(name) && name != []
    ensures WireSize(name) >= 2
  {
    assert ValidLabel(name[0]);
  }

  /** The buffer is at most twice as long as the text. */
  lemma {:induction false} CompressedWithinText(ns: seq<Name>)
    requires ValidNames(ns) && NonEmpty(ns)
    ensures |Compressed(ns)| <= 2 * TotalSize(ns)
    decreases |ns|
  {
    hide Encode, NameEnd, WireSize, TotalSize;
    if ns != [] {
      var init, last := ns[..|ns| - 1], ns[|ns| - 1];
      CompressedWithinText(init);
      EncodeEnds(Compressed(init), [], last);
      TotalSizeLast(ns);
      SizeOfName(last);
    }
  }

  /** Text within its bound keeps all pointers in reach. */
  lemma TextInReach(ns: seq<Name>)
    requires ValidNames(ns) && NonEmpty(ns) && TotalSize(ns) <= MAX_TEXT
    ensures Reachable(ns) && |Compressed(ns)| <= POINTER_REACH
  {
    CompressedWithinText(ns);
    ShortReachable(ns);
  }

  /** Names whose text is too long are refused, whatever follows: by the first name that makes it so, if not before. */
  lemma {:induction false} LongTextRefused(ns: seq<Name>, d: seq<byte>)
    requires ValidNames(ns) && NonEmpty(ns) && TotalSize(ns) > MAX_TEXT
    ensures Walk(Compressed(ns) + d, 0, 0, 0, 0) == None
    decreases |ns|
  {
    hide Walk, Encode, TotalSize, WireSize, Holds, Depths, Shallow, Sound, FirstMatch, PointedTo;
    if ns == [] {
      NoText();
    } else {
      var init, last := ns[..|ns| - 1], ns[|ns| - 1];
      if TotalSize(init) > MAX_TEXT {
        var e := Encode(Compressed(init), last);
        LongTextRefused(init, e + d);
        Joined(Compressed(init), e, d);
      } else {
        TextInReach(init);
        ShortInReach(Compressed(init), last);
        CompressedHolds(ns);
        WalkThrough(Compressed(ns), d, 0, ns, 0);
      }
    }
  }

  lemma NoText()
    ensures TotalSize([]) == 0
  {
  }

  /** For any non-empty names: decoding gives them back exactly if the text is at most 6150 octets and no name takes
      more than six jumps; otherwise the buffer is refused, also where a pointer did not fit into its 14 bits. */
  lemma DecodesExactly(ns: seq<Name>, pre: seq<byte>)
    requires ns != [] && ValidNames(ns) && NonEmpty(ns)
    ensures TotalSize(ns) <= MAX_TEXT ==> Holds(Compressed(ns), 0, ns)
    ensures Decode(Compressed(ns), pre) ==
      if TotalSize(ns) <= MAX_TEXT && Shallow(Depths(Compressed(ns), 0, ns))
      then Buffer(pre + Spaced(Texts(ns)) + [0]) else Null
  {
    hide Walk, Holds, Depths, Shallow, Compressed, TotalSize, Decode, NonEmpty, Reachable;
    if TotalSize(ns) <= MAX_TEXT {
      TextInReach(ns);
      FirstNonEmpty(ns);
      DecodesWithin(ns, pre);
    } else {
      LongTextRefused(ns, []);
      assert Compressed(ns) + [] == Compressed(ns);
      RefusedTokens(Compressed(ns), pre);
    }
  }

  lemma FirstNonEmpty(ns: seq<Name>)
    requires ns != [] && NonEmpty(ns)
    ensures ns[0] != []
  {
  }

  lemma DecodesWithin(ns: seq<Name>, pre: seq<byte>)
    requires ns != [] && ValidNames(ns) && NonEmpty(ns) && ns[0] != [] && Reachable(ns) && TotalSize(ns) <= MAX_TEXT
    ensures Holds(Compressed(ns), 0, ns)
    ensures Decode(Compressed(ns), pre) ==
      if Shallow(Depths(Compressed(ns), 0, ns)) then Buffer(pre + Spaced(Texts(ns)) + [0]) else Null
  {
    hide Walk, Holds, Depths, Shallow, Render, Size, Sentence, Compressed, Spaced, Reachable, Sound, Texts, Terminate;
    hide AllTokens, NameTokens, TotalSize, ValidNames, Decode;
    var c := Compressed(ns);
    CompressedHolds(ns);
    WalkAll(c, 0, ns, 0);
    FirstIsText(ns);
    if Walk(c, 0, 0, 0, 0).Some? {
      DecodedTokens(c, pre, AllTokens(ns));
      RenderAll(pre, ns);
      SentenceEndsInSpace(ns);
      TerminatedSpace(pre, Spaced(Texts(ns)));
    } else {
      RefusedTokens(c, pre);
    }
  }

  lemma FirstIsText(ns: seq<Name>)
    requires ns != [] && ns[0] != [] && ValidNames(ns)
    ensures AllTokens(ns) != [] && AllTokens(ns)[0].Text? && Size(AllTokens(ns)) == TotalSize(ns) > 0
  {
    TokensSize(ns);
    assert NameTokens(ns[0])[0].Text? && AllTokens(ns)[0] == NameTokens(ns[0])[0];
    assert WireSize(ns[0]) > 0;
  }

  lemma DecodedTokens(c: seq<byte>, pre: seq<byte>, ts: seq<Token>)
    requires Walk(c, 0, 0, 0, 0) == Some(ts) && ts != [] && ts[0].Text? && Size(ts) > 0
    ensures Render(pre, ts) != [] && Decode(c, pre) == Buffer(Terminate(Render(pre, ts)))
  {
  }

  lemma RefusedTokens(c: seq<byte>, pre: seq<byte>)
    requires Walk(c, 0, 0, 0, 0) == None
    ensures Decode(c, pre) == Null
  {
  }

  lemma TerminatedSpace(pre: seq<byte>, text: seq<byte>)
    ensures Terminate(pre + (text + [SPACE])) == pre + text + [0]
  {
  }

  function Labelled(srcs: seq<seq<byte>>): (ns: seq<Name>)
    ensures |ns| == |srcs| && forall i :: 0 <= i < |srcs| ==> ns[i] == LabelsOf(srcs[i])
  {
    seq(|srcs|, i requires 0 <= i < |srcs| => LabelsOf(srcs[i]))
  }

  function Canonicals(srcs: seq<seq<byte>>): (ts: seq<seq<byte>>)
    ensures |ts| == |srcs| && forall i :: 0 <= i < |srcs| ==> ts[i] == Canonical(srcs[i])
  {
    seq(|srcs|, i requires 0 <= i < |srcs| => Canonical(srcs[i]))
  }

  /** Any one to seven acceptable names, compressed and expanded again, come back in lower case,
      without trailing dots and separated by single spaces, behind the prefix. */
  lemma RoundTrip(srcs: seq<seq<byte>>, pre: seq<byte>)
    requires 1 <= |srcs| <= 7
    requires forall i :: 0 <= i < |srcs| ==> ValidSource(srcs[i])
    ensures ValidNames(Labelled(srcs))
    ensures Decode(Compressed(Labelled(srcs)), pre) == Buffer(pre + Spaced(Canonicals(srcs)) + [0])
  {
    hide Compressed, Reachable, Holds, Depths, Decode, Spaced, WireSize, TotalSize, Split;
    var ns := Labelled(srcs);
    forall i | 0 <= i < |srcs|
      ensures ValidName(ns[i]) && WireSize(ns[i]) < MAX_CDNAME && Texts(ns)[i] == Canonicals(srcs)[i]
    {
      assert ValidSource(srcs[i]);
      LabelsSpellSource(srcs[i]);
    }
    TotalSizeBound(ns);
    TextInReach(ns);
    CompressedHolds(ns);
    DecodesExactly(ns, pre);
    assert Texts(ns) == Canonicals(srcs);
  }

  // ----- seven is the most that always works -----

  /** `ls[k] . ls[k-1] . ... . ls[0]` */
  function Chain(ls: seq<Label>): Name {
    if ls == [] then [] else [ls[|ls| - 1]] + Chain(ls[..|ls| - 1])
  }

  /** Each name puts one more label in front of the one before it. */
  function Nested(ls: seq<Label>): (ns: seq<Name>)
    ensures |ns| == |ls| && forall k :: 0 <= k < |ls| ==> ns[k] == Chain(ls[..k + 1])
  {
    seq(|ls|, k requires 0 <= k < |ls| => Chain(ls[..k + 1]))
  }

  lemma {:induction false} ChainValid(ls: seq<Label>)
    requires ValidName(ls)
    ensures ValidName(Chain(ls)) && |Chain(ls)| == |ls|
  {
    if ls != [] {
      ChainValid(ls[..|ls| - 1]);
    }
  }

  lemma NestedInit(ls: seq<Label>)
    requires ls != [] && ValidName(ls)
    ensures ValidNames(Nested(ls)) && ValidName(ls[..|ls| - 1])
    ensures Nested(ls)[..|ls| - 1] == Nested(ls[..|ls| - 1])
    ensures Nested(ls)[|ls| - 1] == [ls[|ls| - 1]] + Chain(ls[..|ls| - 1])
  {
    var init := ls[..|ls| - 1];
    forall k | 0 <= k < |ls| ensures ValidName(Nested(ls)[k]) && (k < |init| ==> init[..k + 1] == ls[..k + 1]) {
      ChainValid(ls[..k + 1]);
    }
    assert ls[..|ls|] == ls;
  }

  /** Every label position spells a chain, through one pointer fewer than it has labels. */
  ghost predicate OnlyChains(c: seq<byte>, ls: seq<Label>) {
    forall off: nat :: LabelAt(c, 0, off) ==> exists k :: ChainAt(c, off, ls, k)
  }

  ghost predicate ChainAt(c: seq<byte>, off: nat, ls: seq<Label>, k: int) {
    0 < k <= |ls| && Matches(c, off, Chain(ls[..k])) && MatchJumps(c, off, Chain(ls[..k])) == k - 1
  }

  lemma ChainFound(c: seq<byte>, ls: seq<Label>, k: nat, j: int)
    requires Sound(c, j) && ValidName(ls) && 0 < k && OnlyChains(c, ls)
    requires forall l :: l in ls ==> ValidLabel(l)
    ensures forall name :: ValidName(name) && |name| > |ls| ==> FirstMatch(c, 0, name) < 0
    ensures k <= |ls| && FirstMatch(c, 0, Chain(ls[..k])) >= 0 ==>
      ChainAt(c, FirstMatch(c, 0, Chain(ls[..k])), ls, k)
  {
    forall name | ValidName(name) && |name| > |ls| ensures FirstMatch(c, 0, name) < 0 {
      FirstMatchIsFirst(c, 0, name);
      if FirstMatch(c, 0, name) >= 0 {
        var k' :| ChainAt(c, FirstMatch(c, 0, name), ls, k');
        ChainValid(ls[..k']);
        MatchesUnique(c, FirstMatch(c, 0, name), name, Chain(ls[..k']));
      }
    }
    if k <= |ls| {
      var name := Chain(ls[..k]);
      ChainValid(ls[..k]);
      FirstMatchIsFirst(c, 0, name);
      if FirstMatch(c, 0, name) >= 0 {
        var k' :| ChainAt(c, FirstMatch(c, 0, name), ls, k');
        ChainValid(ls[..k']);
        MatchesUnique(c, FirstMatch(c, 0, name), name, Chain(ls[..k']));
      }
    }
  }

  lemma OneLabelItem(b: seq<byte>, p: nat, n: nat)
    requires p < n < |b| && 0 < b[p] < 192 && NextItem(b, p) == n && NextItem(b, n) == |b| && !(0 < b[n] < 192)
    ensures LabelAt(b, p, p) && forall off: nat :: LabelAt(b, p, off) ==> off == p
  {
    forall off: nat ensures !ItemAt(b, |b|, off) && (LabelAt(b, p, off) ==> off == p) {
      assert ItemAt(b, n, off) <==> n == off || ItemAt(b, |b|, off);
    }
  }

  /** `l` and what follows it, read where they are written. */
  lemma LabelThen(c: seq<byte>, l: Label, tail: seq<byte>, rest: Name)
    requires ValidLabel(l) && tail != []
    requires var b := c + ([|l|] + l + tail); Reads(b, |c| + 1 + |l|, rest)
    ensures var b := c + ([|l|] + l + tail); var p := |c|; var n := p + 1 + |l|;
      && |b| == n + |tail| && b[p] == |l| && NextItem(b, p) == n && b[n..] == tail
      && Matches(b, p, [l] + rest) && MatchJumps(b, p, [l] + rest) == ReadJumps(b, n, rest)
  {
    var b := c + ([|l|] + l + tail);
    assert b[|c| + 1..|c| + 1 + |l|] == l && ([l] + rest)[1..] == rest;
  }

  lemma FirstEncoded(l: Label)
    requires ValidLabel(l)
    ensures ValidName([l]) && Encode([], [l]) == [] + ([|l|] + l + [0])
  {
    assert FirstMatch([], 0, [l]) == -1 && Encode([], []) == [0] && [l][1..] == [];
  }

  lemma EndReads(b: seq<byte>, n: nat)
    requires n < |b| && b[n] == 0
    ensures Reads(b, n, []) && ReadJumps(b, n, []) == 0
  {
  }

  lemma FirstChain(l: Label)
    requires ValidLabel(l)
    ensures ValidName([l]) && var b := Encode([], [l]);
      && Matches(b, 0, [l]) && MatchJumps(b, 0, [l]) == 0
      && LabelAt(b, 0, 0) && forall off: nat :: LabelAt(b, 0, off) ==> off == 0
  {
    hide *;
    var b := [] + ([|l|] + l + [0]);
    var n := 1 + |l|;
    assert |b| == n + 1 && b[n] == 0;
    FirstEncoded(l);
    EndReads(b, n);
    LabelThen([], l, [0], []);
    assert [l] + [] == [l];
    OneLabelEnds(b, l);
  }

  lemma OneLabelEnds(b: seq<byte>, l: Label)
    requires ValidLabel(l) && |b| == |l| + 2 && b[0] == |l| && b[|l| + 1] == 0
    ensures LabelAt(b, 0, 0) && forall off: nat :: LabelAt(b, 0, off) ==> off == 0
  {
    OneLabelItem(b, 0, 1 + |l|);
  }

  lemma PointerReads(c: seq<byte>, w: seq<byte>, off: nat, name: Name)
    requires off < POINTER_REACH && LabelAt(c, 0, off) && Matches(c, off, name) && ValidName(name) && name != []
    ensures var b := c + (w + Pointer(off)); var n := |c + w|;
      && n + 2 == |b| && b[n] >= 192 && Reads(b, n, name) && ReadJumps(b, n, name) == 1 + MatchJumps(c, off, name)
  {
    hide Matches, MatchJumps, ItemAt, Pointer;
    var b := c + (w + Pointer(off));
    var n := |c + w|;
    ItemsAhead(c, 0, off);
    PointerBehind(c, w, off);
    MatchesExtend(c, w + Pointer(off), off, name);
  }

  /** What one more chain adds: its new label, then a pointer to the chain before it. */
  lemma ChainStep(c: seq<byte>, ls: seq<Label>, l: Label)
    requires Sound(c, |ls| - 1) && ValidName(ls) && ValidLabel(l) && OnlyChains(c, ls)
    requires ls == [] || FirstMatch(c, 0, Chain(ls)) < POINTER_REACH
    requires if ls == [] then c == [] else FirstMatch(c, 0, Chain(ls)) >= 0
    ensures ValidName([l] + Chain(ls))
    ensures var e := Encode(c, [l] + Chain(ls)); var b := c + e; var p := |c|;
      && Matches(b, p, [l] + Chain(ls)) && MatchJumps(b, p, [l] + Chain(ls)) == |ls|
      && (forall off: nat :: LabelAt(b, p, off) ==> off == p)
      && LabelAt(b, p, p)
  {
    ChainValid(ls);
    if ls == [] {
      FirstChain(l);
      assert [] + Encode([], [l]) == Encode([], [l]) && [l] + [] == [l];
    } else {
      assert ls[..|ls|] == ls;
      ChainFound(c, ls, |ls|, |ls| - 1);
      ChainLinked(c, Chain(ls), l, |ls| - 1);
    }
  }

  lemma ChainLinked(c: seq<byte>, rest: Name, l: Label, j: nat)
    requires FirstMatch(c, 0, rest) < POINTER_REACH && ValidName(rest) && rest != [] && ValidLabel(l)
    requires ValidName([l] + rest) && FirstMatch(c, 0, [l] + rest) < 0
    requires FirstMatch(c, 0, rest) >= 0 && Matches(c, FirstMatch(c, 0, rest), rest)
    requires MatchJumps(c, FirstMatch(c, 0, rest), rest) == j
    ensures var b := c + Encode(c, [l] + rest); var p := |c|;
      && Matches(b, p, [l] + rest) && MatchJumps(b, p, [l] + rest) == j + 1
      && (forall off: nat :: LabelAt(b, p, off) ==> off == p)
      && LabelAt(b, p, p)
  {
    hide Encode, FirstMatch, Matches, MatchJumps, ItemAt, LabelAt, Reads, ReadJumps, Pointer;
    var off := FirstMatch(c, 0, rest);
    FirstMatchIsFirst(c, 0, rest);
    LinkEncoded(c, rest, l);
    var w: seq<byte> := [|l|] + l;
    var b := c + (w + Pointer(off));
    PointerReads(c, w, off, rest);
    LabelThen(c, l, Pointer(off), rest);
    PointerItem(b, |c|, l);
  }

  lemma LinkEncoded(c: seq<byte>, rest: Name, l: Label)
    requires ValidName(rest) && rest != [] && ValidName([l] + rest)
    requires FirstMatch(c, 0, [l] + rest) < 0 && FirstMatch(c, 0, rest) >= 0
    ensures Encode(c, [l] + rest) == [|l|] + l + Pointer(FirstMatch(c, 0, rest))
    ensures Pointer(FirstMatch(c, 0, rest)) != []
  {
    assert ([l] + rest)[1..] == rest;
  }

  lemma PointerItem(b: seq<byte>, p: nat, l: Label)
    requires ValidLabel(l) && |b| == p + |l| + 3 && b[p] == |l| && b[p + |l| + 1] >= 192
    ensures LabelAt(b, p, p) && forall off: nat :: LabelAt(b, p, off) ==> off == p
  {
    OneLabelItem(b, p, p + 1 + |l|);
  }

  lemma NewLabel(l: Label, rest: Name)
    requires ValidLabel(l) && ValidName(rest)
    ensures ValidName([l] + rest) && ([l] + rest)[1..] == rest
  {
  }

  lemma PointedOn(c: seq<byte>, name: Name)
    requires name != []
    ensures PointedTo(c, name) ==
      if FirstMatch(c, 0, name) >= 0 then FirstMatch(c, 0, name) else PointedTo(c, name[1..])
  {
  }

  lemma LinkInReach(c: seq<byte>, ls: seq<Label>, l: Label)
    requires Sound(c, |ls| - 1) && ValidName(ls) && ValidLabel(l) && OnlyChains(c, ls)
    requires ls != [] ==> FirstMatch(c, 0, Chain(ls)) >= 0
    requires InReach(c, [l] + Chain(ls))
    ensures ls == [] || FirstMatch(c, 0, Chain(ls)) < POINTER_REACH
  {
    hide Sound, FirstMatch, OnlyChains, Chain, ChainAt;
    if ls != [] {
      ChainValid(ls);
      NewLabel(l, Chain(ls));
      ChainFound(c, ls, |ls|, |ls| - 1);
      PointedOn(c, [l] + Chain(ls));
      PointedOn(c, Chain(ls));
    }
  }

  lemma {:induction false} NestedDepths(ls: seq<Label>)
    requires ValidName(ls)
    ensures ValidNames(Nested(ls))
    ensures var ns := Nested(ls); var c := Compressed(ns); Reachable(ns) ==>
      && Holds(c, 0, ns) && (forall k :: 0 <= k < |ls| ==> Depths(c, 0, ns)[k] == k)
      && Sound(c, |ls| - 1) && OnlyChains(c, ls)
      && if ls == [] then c == [] else FirstMatch(c, 0, Chain(ls)) >= 0
    decreases |ls|
  {
    hide Encode, Chain, FirstMatch, OnlyChains, Sound, Reads, NameEnd;
    if ls == [] {
      NoChains();
    } else {
      var init, l := ls[..|ls| - 1], ls[|ls| - 1];
      var ns := Nested(ls);
      NestedInit(ls);
      NestedDepths(init);
      var c := Compressed(Nested(init));
      var e := Encode(c, ns[|init|]);
      if Reachable(ns) {
        LinkInReach(c, init, l);
        NestedMore(c, init, l);
        EncodeEnds(c, [], ns[|init|]);
        assert c + [] == c;
        HoldsOneMore(c, e, 0, Nested(init), ns[|init|]);
        CompressedHolds(ns);
        assert Nested(init) + [ns[|init|]] == ns;
        assert init + [l] == ls;
      }
    }
  }

  lemma NoChains()
    ensures Sound([], -1) && OnlyChains([], [])
  {
  }

  lemma NestedMore(c: seq<byte>, ls: seq<Label>, l: Label)
    requires Sound(c, |ls| - 1) && ValidName(ls) && ValidLabel(l) && OnlyChains(c, ls)
    requires ls == [] || FirstMatch(c, 0, Chain(ls)) < POINTER_REACH
    requires if ls == [] then c == [] else FirstMatch(c, 0, Chain(ls)) >= 0
    ensures ValidName([l] + Chain(ls)) && Chain(ls + [l]) == [l] + Chain(ls)
    ensures var b := c + Encode(c, [l] + Chain(ls));
      && Reads(b, |c|, [l] + Chain(ls)) && ReadJumps(b, |c|, [l] + Chain(ls)) == |ls|
      && OnlyChains(b, ls + [l]) && FirstMatch(b, 0, Chain(ls + [l])) >= 0
  {
    hide Encode, Matches, MatchJumps, Aligned, Chain, FirstMatch, Reads, ReadJumps, ItemAt;
    ChainStep(c, ls, l);
    var name := [l] + Chain(ls);
    var e := Encode(c, name);
    var b := c + e;
    var all := ls + [l];
    ChainOneMore(ls, l);
    assert all[..|all|] == all;
    MatchIsRead(b, |c|, name);
    FirstMatchIsFirst(b, 0, name);
    ItemsConcat(c, e, 0, |c|);
    assert LabelAt(b, 0, |c|);
    forall off: nat | LabelAt(b, 0, off) ensures exists k :: ChainAt(b, off, all, k) {
      ItemsConcat(c, e, 0, off);
      if ItemAt(c, 0, off) {
        ItemsAhead(c, 0, off);
        assert LabelAt(c, 0, off);
        var k :| ChainAt(c, off, ls, k);
        assert all[..k] == ls[..k];
        MatchesExtend(c, e, off, Chain(ls[..k]));
        assert ChainAt(b, off, all, k);
      } else {
        assert LabelAt(b, |c|, off);
        assert ChainAt(b, off, all, |all|);
      }
    }
  }

  lemma ChainOneMore(ls: seq<Label>, l: Label)
    ensures Chain(ls + [l]) == [l] + Chain(ls)
  {
    assert (ls + [l])[..|ls|] == ls;
  }

  lemma MatchIsRead(c: seq<byte>, p: nat, name: Name)
    requires ValidName(name) && Matches(c, p, name)
    ensures Reads(c, p, name) && ReadJumps(c, p, name) == MatchJumps(c, p, name)
  {
    assert name != [] ==> ValidLabel(name[0]);
  }

  lemma {:induction false} CompressedGrows(ns: seq<Name>, k: nat)
    requires ValidNames(ns) && k <= |ns|
    ensures |Compressed(ns[..k])| <= |Compressed(ns)|
    ensures Compressed(ns)[..|Compressed(ns[..k])|] == Compressed(ns[..k])
    decreases |ns|
  {
    if k == |ns| {
      assert ns[..k] == ns;
    } else {
      var init := ns[..|ns| - 1];
      CompressedGrows(init, k);
      assert init[..k] == ns[..k];
    }
  }

}
