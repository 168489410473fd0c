/**
 The decoder `dname_dec` (components/net/udhcp/domain_codec.c:31-108): two passes over
 a list of compressed names, the first counting octets, the second writing them.
 */
module DomainDecoder {
  import opened Basics
  import opened DomainNames

  const MAX_JUMPS := 6                // NS_MAXDNSRCH
  const MAX_TEXT := 1025 * MAX_JUMPS  // NS_MAXDNAME * NS_MAXDNSRCH

  /** What a walk over the buffer meets: a label, or the end of a name. */
  datatype Token = Text(octets: seq<byte>) | Stop

  /** `Stray` stands for a write in front of the allocated text. */
  datatype Decoded = Null | Buffer(bytes: seq<byte>) | Stray

  /** Loop positions the decoder can be in: outside a jump (`ret == 0`) or inside one. */
  predicate Position(c: seq<byte>, pos: nat, ret: nat, depth: nat, len: nat) {
    && depth <= MAX_JUMPS && len <= MAX_TEXT && ret <= |c|
    && (ret == 0 ==> pos <= |c| && depth == 0)
  }

  /** The next top-level octet to be read. */
  function Top(pos: nat, ret: nat): nat {
    if ret == 0 then pos else ret
  }

  /** The tokens met from a position on; `None` when the buffer is refused. */
  function Walk(c: seq<byte>, pos: nat, ret: nat, depth: nat, len: nat): Option<seq<Token>>
    requires Position(c, pos, ret, depth, len)
    decreases |c| - Top(pos, ret), if ret == 0 then 0 else 1, MAX_JUMPS - depth, MAX_TEXT - len
  {
    if pos >= |c| then Some([])
    else if c[pos] >= 192 then
      if pos + 2 > |c| || depth == MAX_JUMPS then None
      else Walk(c, PointerTarget(c[pos], c[pos + 1]), if ret == 0 then pos + 2 else ret, depth + 1, len)
    else if c[pos] != 0 then
      if pos + c[pos] + 1 > |c| || len + c[pos] + 1 > MAX_TEXT then None
      else Push(Text(c[pos + 1..pos + 1 + c[pos]]), Walk(c, pos + c[pos] + 1, ret, depth, len + c[pos] + 1))
    else
      Push(Stop, if ret == 0 then Walk(c, pos + 1, 0, depth, len) else Walk(c, ret, 0, 0, len))
  }

  function Push(t: Token, rest: Option<seq<Token>>): Option<seq<Token>> {
    if rest.None? then None else Some([t] + rest.value)
  }

  /** Octets of text the tokens stand for. */
  function Size(ts: seq<Token>): nat {
    if ts == [] then 0 else (if ts[0].Text? then |ts[0].octets| + 1 else 0) + Size(ts[1..])
  }

  /** `out` followed by the text of the tokens: a dot after every label, made a space by the end of its name. */
  function Render(out: seq<byte>, ts: seq<Token>): (r: seq<byte>)
    ensures |r| == |out| + Size(ts)
    decreases |ts|
  {
    if ts == [] then out
    else if ts[0].Text? then Render(out + ts[0].octets + [DOT], ts[1..])
    else Render(Blank(out), ts[1..])
  }

  function Blank(out: seq<byte>): seq<byte> {
    if out == [] then [] else out[|out| - 1 := SPACE]
  }

  function Terminate(s: seq<byte>): seq<byte>
    requires s != []
  {
    s[|s| - 1 := 0]
  }

  /** The whole decoder. */
  function Decode(c: seq<byte>, pre: seq<byte>): Decoded {
    var all := Walk(c, 0, 0, 0, 0);
    if all.None? || Size(all.value) == 0 then Null
    else if pre == [] && all.value[0].Stop? then Stray
    else Buffer(Terminate(Render(pre, all.value)))
  }

  lemma {:induction false} SizeConcat(a: seq<Token>, b: seq<Token>)
    ensures Size(a + b) == Size(a) + Size(b)
    decreases |a|
  {
    if a == [] {
      assert a + b == b;
    } else {
      SizeConcat(a[1..], b);
      assert (a + b)[1..] == a[1..] + b;
    }
  }

  lemma {:induction false} RenderConcat(out: seq<byte>, a: seq<Token>, b: seq<Token>)
    ensures Render(out, a + b) == Render(Render(out, a), b)
    decreases |a|
  {
    if a == [] {
      assert a + b == b;
    } else {
      assert (a + b)[1..] == a[1..] + b;
      if a[0].Text? {
        RenderConcat(out + a[0].octets + [DOT], a[1..], b);
      } else {
        RenderConcat(Blank(out), a[1..], b);
      }
    }
  }

  /** Where the decoder stands: it has met `seen`, and the walk from here on meets the rest of `all`. */
  ghost predicate Reached(c: seq<byte>, pos: nat, ret: nat, depth: nat, len: nat,
                          seen: seq<Token>, all: Option<seq<Token>>) {
    && Position(c, pos, ret, depth, len)
    && len == Size(seen)
    && var rest := Walk(c, pos, ret, depth, len);
       if rest.None? then all.None? else all.Some? && all.value == seen + rest.value
  }

  lemma OneMore(seen: seq<Token>, t: Token, rest: seq<Token>)
    ensures Size(seen + [t]) == Size(seen) + Size([t])
    ensures seen + ([t] + rest) == (seen + [t]) + rest
  {
    SizeConcat(seen, [t]);
  }

  lemma ReachJump(c: seq<byte>, pos: nat, ret: nat, depth: nat, len: nat, seen: seq<Token>, all: Option<seq<Token>>)
    requires Reached(c, pos, ret, depth, len, seen, all)
    requires pos < |c| && c[pos] >= 192
    ensures if pos + 2 > |c| || depth == MAX_JUMPS then all.None?
            else
              var ret' := if ret == 0 then pos + 2 else ret;
              && Position(c, PointerTarget(c[pos], c[pos + 1]), ret', depth + 1, len)
              && Reached(c, PointerTarget(c[pos], c[pos + 1]), ret', depth + 1, len, seen, all)
  {
  }

  lemma ReachLabel(c: seq<byte>, pos: nat, ret: nat, depth: nat, len: nat, seen: seq<Token>, all: Option<seq<Token>>)
    requires Reached(c, pos, ret, depth, len, seen, all)
    requires pos < |c| && 0 < c[pos] < 192
    ensures if pos + c[pos] + 1 > |c| || len + c[pos] + 1 > MAX_TEXT then all.None?
            else
              && Position(c, pos + c[pos] + 1, ret, depth, len + c[pos] + 1)
              && Reached(c, pos + c[pos] + 1, ret, depth, len + c[pos] + 1,
                         seen + [Text(c[pos + 1..pos + 1 + c[pos]])], all)
    ensures all.Some? ==> len + c[pos] + 1 <= Size(all.value)
  {
    if pos + c[pos] + 1 <= |c| && len + c[pos] + 1 <= MAX_TEXT {
      var rest := Walk(c, pos + c[pos] + 1, ret, depth, len + c[pos] + 1);
      var t := Text(c[pos + 1..pos + 1 + c[pos]]);
      OneMore(seen, t, if rest.None? then [] else rest.value);
      if all.Some? {
        SizeConcat(seen + [t], rest.value);
      }
    }
  }

  lemma ReachStop(c: seq<byte>, pos: nat, ret: nat, depth: nat, len: nat, seen: seq<Token>, all: Option<seq<Token>>)
    requires Reached(c, pos, ret, depth, len, seen, all)
    requires pos < |c| && c[pos] == 0
    ensures if ret == 0
            then Position(c, pos + 1, 0, depth, len) && Reached(c, pos + 1, 0, depth, len, seen + [Stop], all)
            else Position(c, ret, 0, 0, len) && Reached(c, ret, 0, 0, len, seen + [Stop], all)
  {
    var rest := if ret == 0 then Walk(c, pos + 1, 0, depth, len) else Walk(c, ret, 0, 0, len);
    OneMore(seen, Stop, if rest.None? then [] else rest.value);
  }

  lemma ReachStart(c: seq<byte>)
    ensures Reached(c, 0, 0, 0, 0, [], Walk(c, 0, 0, 0, 0)) && Size([]) == 0
    ensures forall pre :: Render(pre, []) == pre
  {
    var all := Walk(c, 0, 0, 0, 0);
    assert all.Some? ==> [] + all.value == all.value;
  }

  lemma ReachEnd(c: seq<byte>, pos: nat, ret: nat, depth: nat, len: nat, seen: seq<Token>, all: Option<seq<Token>>)
    requires Reached(c, pos, ret, depth, len, seen, all) && pos >= |c|
    ensures all.Some? && all.value == seen && len == Size(seen)
  {
  }

  /** The two passes: the first, without a buffer, only counts. */
  method DnameDec(cstr: seq<byte>, pre: seq<byte>) returns (r: Decoded)
    ensures r == Decode(cstr, pre)
  {
    ghost var all := Walk(cstr, 0, 0, 0, 0);
    var outcome := Pass(cstr, null, pre, all);
    if outcome.Refused? || outcome.len == 0 {
      return Null;
    }
    var dst := new byte[|pre| + outcome.len];
    forall i | 0 <= i < |pre| {
      dst[i] := pre[i];
    }
    assert dst[..|pre|] == pre;
    outcome := Pass(cstr, dst, pre, all);
    if outcome.Strayed? {
      return Stray;
    }
    dst[dst.Length - 1] := 0;
    assert dst[..] == Terminate(Render(pre, all.value));
    return Buffer(dst[..]);
  }

  datatype Outcome = Refused | Strayed | Passed(len: nat)

  /** The text written so far, in the pass that writes. */
  ghost predicate TextSoFar(dst: array?<byte>, pre: seq<byte>, len: nat, seen: seq<Token>)
    reads dst
  {
    dst != null ==>
      && |pre| + len <= dst.Length && dst[..|pre| + len] == Render(pre, seen)
      && (pre == [] && seen != [] ==> seen[0].Text? && len > 0)
  }

  lemma TextStart(dst: array?<byte>, pre: seq<byte>)
    requires dst != null ==> |pre| <= dst.Length && dst[..|pre|] == pre
    ensures TextSoFar(dst, pre, 0, [])
  {
    assert dst != null ==> dst[..|pre| + 0] == dst[..|pre|];
  }

  lemma TextDone(dst: array?<byte>, pre: seq<byte>, len: nat, seen: seq<Token>)
    requires TextSoFar(dst, pre, len, seen) && (dst != null ==> dst.Length == |pre| + len)
    ensures dst != null ==> dst[..] == Render(pre, seen) && (pre == [] && seen != [] ==> seen[0].Text?)
  {
    assert dst != null ==> dst[..|pre| + len] == dst[..];
  }

  lemma FirstSeen(c: seq<byte>, pos: nat, ret: nat, depth: nat, len: nat, seen: seq<Token>, all: Option<seq<Token>>)
    requires Reached(c, pos, ret, depth, len, seen, all)
    ensures len == Size(seen)
    ensures all.Some? && seen != [] ==> all.value != [] && all.value[0] == seen[0]
  {
  }

  /** One pass of the outer loop; `dst` is null in the counting pass. */
  method Pass(cstr: seq<byte>, dst: array?<byte>, pre: seq<byte>, ghost all: Option<seq<Token>>) returns (r: Outcome)
    requires all == Walk(cstr, 0, 0, 0, 0)
    requires dst != null ==> all.Some? && dst.Length == |pre| + Size(all.value) && dst[..|pre|] == pre
    modifies if dst == null then {} else {dst}
    ensures r.Refused? <==> all.None?
    ensures r.Strayed? ==> dst != null && pre == [] && all.value != [] && all.value[0].Stop?
    ensures r.Passed? ==> r.len == Size(all.value)
    ensures r.Passed? && dst != null ==>
      dst[..] == Render(pre, all.value) && (pre == [] && all.value != [] ==> all.value[0].Text?)
  {
    hide Walk, Render, Size, Reached, TextSoFar, PointerTarget;
    var crtpos: nat, retpos: nat, depth: nat, len: nat := 0, 0, 0, 0;
    ghost var seen: seq<Token> := [];
    ReachStart(cstr);
    TextStart(dst, pre);
    while crtpos < |cstr|
      invariant Reached(cstr, crtpos, retpos, depth, len, seen, all) && Position(cstr, crtpos, retpos, depth, len)
      invariant TextSoFar(dst, pre, len, seen)
      decreases |cstr| - Top(crtpos, retpos), if retpos == 0 then 0 else 1, MAX_JUMPS - depth, MAX_TEXT - len
    {
      var c := cstr[crtpos];
      FirstSeen(cstr, crtpos, retpos, depth, len, seen, all);
      if c >= 192 {
        ReachJump(cstr, crtpos, retpos, depth, len, seen, all);
        if crtpos + 2 > |cstr| {
          return Refused;
        }
        if retpos == 0 {
          retpos := crtpos + 2;
        }
        depth := depth + 1;
        crtpos := PointerTarget(c, cstr[crtpos + 1]);
      } else if c != 0 {
        ReachLabel(cstr, crtpos, retpos, depth, len, seen, all);
        if crtpos + c + 1 > |cstr| {
          return Refused;
        }
        var octets := cstr[crtpos + 1..crtpos + 1 + c];
        WriteLabel(dst, pre, len, octets, seen);
        len := len + c + 1;
        crtpos := crtpos + c + 1;
        seen := seen + [Text(octets)];
      } else {
        ReachStop(cstr, crtpos, retpos, depth, len, seen, all);
        var strayed := WriteStop(dst, pre, len, seen);
        seen := seen + [Stop];
        if retpos == 0 {
          crtpos := crtpos + 1;
        } else {
          crtpos := retpos;
          retpos, depth := 0, 0;
        }
        if strayed {
          FirstSeen(cstr, crtpos, retpos, depth, len, seen, all);
          return Strayed;
        }
      }
      if depth > MAX_JUMPS || len > MAX_TEXT {
        return Refused;
      }
      assert Reached(cstr, crtpos, retpos, depth, len, seen, all);
    }
    ReachEnd(cstr, crtpos, retpos, depth, len, seen, all);
    TextDone(dst, pre, len, seen);
    return Passed(len);
  }

  /** `memcpy` of one label, and the dot behind it. */
  method WriteLabel(dst: array?<byte>, pre: seq<byte>, len: nat, octets: seq<byte>, ghost seen: seq<Token>)
    requires TextSoFar(dst, pre, len, seen) && (dst != null ==> |pre| + len + |octets| < dst.Length)
    modifies if dst == null then {} else {dst}
    ensures TextSoFar(dst, pre, len + |octets| + 1, seen + [Text(octets)])
  {
    if dst != null {
      hide Render;
      ghost var before := dst[..|pre| + len];
      var at := |pre| + len;
      forall i | 0 <= i < |octets| {
        dst[at + i] := octets[i];
      }
      dst[at + |octets|] := DOT;
      assert dst[..at + |octets| + 1] == before + octets + [DOT];
      RenderConcat(pre, seen, [Text(octets)]);
      RenderOne(before, octets);
    }
  }

  lemma RenderOne(out: seq<byte>, octets: seq<byte>)
    ensures Render(out, [Text(octets)]) == out + octets + [DOT]
    ensures Render(out, [Stop]) == Blank(out)
  {
  }

  /** The last octet written becomes the space that ends a name, if there is one in the text allocated. */
  method WriteStop(dst: array?<byte>, pre: seq<byte>, len: nat, ghost seen: seq<Token>) returns (strayed: bool)
    requires TextSoFar(dst, pre, len, seen) && len == Size(seen)
    modifies if dst == null then {} else {dst}
    ensures strayed ==> dst != null && pre == [] && seen == []
    ensures !strayed ==> TextSoFar(dst, pre, len, seen + [Stop])
  {
    if dst == null {
      return false;
    }
    var at := |pre| + len;
    if at == 0 {
      return true;
    }
    assert seen == [] ==> len == 0;
    hide Render, Size;
    ghost var before := dst[..at];
    dst[at - 1] := SPACE;
    assert dst[..at] == Blank(before);
    RenderConcat(pre, seen, [Stop]);
    RenderOne(before, []);
    return false;
  }

  // ----- what happens to the prefix -----

  /** Only the last octet of what is already written can still change. */
  lemma {:induction false} RenderKeeps(out: seq<byte>, ts: seq<Token>)
    requires out != []
    ensures Render(out, ts)[..|out| - 1] == out[..|out| - 1]
    ensures out[|out| - 1] == SPACE ==> Render(out, ts)[..|out|] == out
    decreases |ts|
  {
    if ts == [] {
    } else if ts[0].Text? {
      var more := out + ts[0].octets + [DOT];
      var r := Render(out, ts);
      assert r == Render(more, ts[1..]);
      hide Render, Size;
      RenderKeeps(more, ts[1..]);
      assert more[..|more| - 1] == out + ts[0].octets;
      PrefixOfPrefix(r, more[..|more| - 1], out);
    } else {
      RenderKeeps(Blank(out), ts[1..]);
    }
  }

  lemma PrefixOfPrefix(r: seq<byte>, more: seq<byte>, out: seq<byte>)
    requires out != [] && |out| <= |more| <= |r| && r[..|more|] == more && more[..|out|] == out
    ensures r[..|out|] == out && r[..|out| - 1] == out[..|out| - 1]
  {
    assert r[..|out|] == r[..|more|][..|out|];
    assert r[..|out| - 1] == r[..|out|][..|out| - 1];
  }

  /** Where the pointers from `pos` on lead, when at most six jumps are made in all. */
  function Landing(c: seq<byte>, pos: nat, jumps: nat): nat
    requires jumps <= MAX_JUMPS
    decreases MAX_JUMPS - jumps
  {
    if pos + 1 < |c| && c[pos] >= 192 && jumps < MAX_JUMPS then Landing(c, PointerTarget(c[pos], c[pos + 1]), jumps + 1)
    else pos
  }

  /** The octet met first, behind all pointers, is the end of a name. */
  predicate StartsWithEnd(c: seq<byte>) {
    var p := Landing(c, 0, 0);
    p < |c| && c[p] == 0
  }

  lemma {:induction false} FirstToken(c: seq<byte>, pos: nat, ret: nat, depth: nat, len: nat)
    requires Position(c, pos, ret, depth, len) && Walk(c, pos, ret, depth, len).Some?
    ensures var ts := Walk(c, pos, ret, depth, len).value; var p := Landing(c, pos, depth);
      if p < |c| then ts != [] && (ts[0].Stop? <==> c[p] == 0) else ts == []
    decreases MAX_JUMPS - depth
  {
    if pos < |c| && c[pos] >= 192 {
      FirstToken(c, PointerTarget(c[pos], c[pos + 1]), if ret == 0 then pos + 2 else ret, depth + 1, len);
    }
  }

  /** Whether a buffer is refused does not depend on the prefix. */
  lemma NullWhateverPrefix(c: seq<byte>, pre: seq<byte>, other: seq<byte>)
    ensures Decode(c, pre) == Null <==> Decode(c, other) == Null
  {
  }

  /** In a buffer that is not refused, the octet in front of the text is written exactly if there is no prefix and
      the first octet met ends a name. */
  lemma WhenStray(c: seq<byte>, pre: seq<byte>)
    requires Decode(c, pre) != Null
    ensures Decode(c, pre) == Stray <==> pre == [] && StartsWithEnd(c)
  {
    hide Walk, Landing;
    FirstToken(c, 0, 0, 0, 0);
    assert Size([]) == 0;
  }

  lemma WitnessTokens()
    ensures Walk([0, 1, 97, 0], 0, 0, 0, 0) == Some([Stop, Text([97]), Stop])
  {
    var c: seq<byte> := [0, 1, 97, 0];
    var end, a, ts := [Stop], [Text([97]), Stop], [Stop, Text([97]), Stop];
    assert [Stop] + [] == end && [Text([97])] + end == a && [Stop] + a == ts && c[2..3] == [97];
    assert Walk(c, 4, 0, 0, 2) == Some([]);
    assert Walk(c, 3, 0, 0, 2) == Some(end);
    assert Walk(c, 1, 0, 0, 0) == Some(a);
    assert Walk(c, 0, 0, 0, 0) == Some(ts);
  }

  lemma WitnessText()
    ensures Render([120], [Stop, Text([97]), Stop]) == [SPACE, 97, SPACE]
    ensures Size([Stop, Text([97]), Stop]) == 2
  {
    var end, a, ts := [Stop], [Text([97]), Stop], [Stop, Text([97]), Stop];
    assert ts[1..] == a && a[1..] == end;
    assert Size(end) == 0 && Size(a) == 2;
    assert Render([120], ts) == Render([SPACE], a);
    assert Render([SPACE], a) == Render([SPACE, 97, DOT], end);
    assert Render([SPACE, 97, DOT], end) == [SPACE, 97, SPACE];
  }

  /** Such a buffer: the end of a name, then the name `a`. */
  lemma StrayWitness()
    ensures Decode([0, 1, 97, 0], []) == Stray
    ensures Decode([0, 1, 97, 0], [120]) == Buffer([SPACE, 97, 0])
  {
    hide Walk, Render, Size;
    WitnessTokens();
    WitnessText();
  }

  /** Decoded text starts with the prefix exactly if the first octet met does not end a name,
      or the prefix ends in a space anyway. */
  lemma PrefixKept(c: seq<byte>, pre: seq<byte>)
    requires Decode(c, pre).Buffer? && pre != []
    ensures |pre| < |Decode(c, pre).bytes|
    ensures Decode(c, pre).bytes[..|pre|] == pre <==> !StartsWithEnd(c) || pre[|pre| - 1] == SPACE
  {
    hide Walk, Landing;
    var ts := Walk(c, 0, 0, 0, 0).value;
    var r := Render(pre, ts);
    assert Decode(c, pre).bytes[..|pre|] == r[..|pre|];
    FirstToken(c, 0, 0, 0, 0);
    if ts[0].Text? {
      var more := pre + ts[0].octets + [DOT];
      RenderKeeps(more, ts[1..]);
      assert r[..|pre|] == r[..|more| - 1][..|pre|];
    } else {
      RenderKeeps(Blank(pre), ts[1..]);
    }
  }
}
