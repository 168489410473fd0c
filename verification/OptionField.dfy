/**
 The options of a DHCP packet (components/net/udhcp/common.c:244-341, section 3 of RFC 2132):
 what a field of octets holds, the search through the fields, and appending an option.
 */
module OptionField {
  import opened Basics

  const PADDING: byte := 0
  const END: byte := 255
  const OVERLOAD: byte := 52
  const OPTIONS_SIZE := 308

  datatype Field = OptionsField | FileField | SnameField

  /** The three fields of a packet that can hold options. */
  datatype Packet = Packet(options: seq<byte>, file: seq<byte>, sname: seq<byte>) {
    function Octets(f: Field): seq<byte> {
      match f
      case OptionsField => options
      case FileField => file
      case SnameField => sname
    }
  }

  /** An option found at `pos`: code, length and data. */
  datatype Opt = Opt(pos: nat, octets: seq<byte>)

  datatype Parsed = Parsed(opts: seq<Opt>, ended: bool)

  datatype Found = NotFound | At(field: Field, offset: nat)

  // ----- what a field holds -----

  /** The options from `pos` up to the END option, or up to where the field breaks off. */
  function Parse(f: seq<byte>, pos: nat): Parsed
    decreases |f| - pos
  {
    if pos >= |f| then Parsed([], false)
    else if f[pos] == PADDING then Parse(f, pos + 1)
    else if f[pos] == END then Parsed([], true)
    else if pos + 1 >= |f| || pos + 2 + f[pos + 1] > |f| then Parsed([], false)
    else
      var next := pos + 2 + f[pos + 1];
      var rest := Parse(f, next);
      Parsed([Opt(pos, f[pos..next])] + rest.opts, rest.ended)
  }

  /** Every option parsed has its code, length and full data inside the field. */
  lemma {:induction false} ParsedInside(f: seq<byte>, pos: nat, k: nat)
    requires k < |Parse(f, pos).opts|
    ensures var o := Parse(f, pos).opts[k];
      && pos <= o.pos && 2 <= |o.octets| && o.pos + |o.octets| <= |f| && o.octets == f[o.pos..o.pos + |o.octets|]
      && |o.octets| == 2 + o.octets[1] as int && o.octets[0] != PADDING && o.octets[0] != END
    decreases |f| - pos
  {
    if f[pos] == PADDING {
      ParsedInside(f, pos + 1, k);
    } else if k > 0 {
      ParsedInside(f, pos + 2 + f[pos + 1], k - 1);
    }
  }

  // ----- the search, as parsing and then looking -----

  /** The first option with that code, or -1. */
  function IndexOf(opts: seq<Opt>, code: int): (k: int)
    ensures -1 <= k < |opts|
  {
    if opts == [] then -1
    else if opts[0].octets != [] && opts[0].octets[0] == code then 0
    else
      var k := IndexOf(opts[1..], code);
      if k < 0 then -1 else k + 1
  }

  lemma {:induction false} IndexIsFirst(opts: seq<Opt>, code: int)
    ensures var k := IndexOf(opts, code);
      && (forall i :: 0 <= i < (if k < 0 then |opts| else k) ==> !(opts[i].octets != [] && opts[i].octets[0] == code))
      && (k >= 0 ==> opts[k].octets != [] && opts[k].octets[0] == code)
  {
    if opts != [] {
      IndexIsFirst(opts[1..], code);
      assert forall i :: 0 < i < |opts| ==> opts[i] == opts[1..][i - 1];
    }
  }

  /** Which further fields are to be read, and which have been. */
  datatype Overload = Overload(wantFile: bool, wantSname: bool, seenFile: bool, seenSname: bool) {
    function Unseen(): nat {
      (if seenFile then 0 else 1) + (if seenSname then 0 else 1)
    }

    /** Bits 0 and 1 of an overload option's first octet. */
    function With(bits: byte): Overload {
      Overload(wantFile || bits % 2 == 1, wantSname || bits / 2 % 2 == 1, seenFile, seenSname)
    }
  }

  const NOTHING := Overload(false, false, false, false)

  /** The octet at `i`, or whatever lies behind the field. */
  function Read(f: seq<byte>, i: nat, junk: byte): byte {
    if i < |f| then f[i] else junk
  }

  /** What the overload options among `opts` ask for. */
  function Asked(f: seq<byte>, opts: seq<Opt>, o: Overload, junk: byte): (r: Overload)
    ensures r.seenFile == o.seenFile && r.seenSname == o.seenSname
    decreases |opts|
  {
    if opts == [] then o
    else
      var overload := opts[0].octets != [] && opts[0].octets[0] == OVERLOAD;
      Asked(f, opts[1..], if overload then o.With(Read(f, opts[0].pos + 2, junk)) else o, junk)
  }

  /** The option `code`, looked for from `pos` of one field on, then in the fields overload options name. */
  function Lookup(p: Packet, field: Field, pos: nat, o: Overload, code: int, junk: byte): Found
    decreases o.Unseen()
  {
    var f := p.Octets(field);
    var parsed := Parse(f, pos);
    var k := IndexOf(parsed.opts, code);
    if k >= 0 then At(field, parsed.opts[k].pos + 2)
    else if !parsed.ended then NotFound
    else
      var o := Asked(f, parsed.opts, o, junk);
      if o.wantFile && !o.seenFile then Lookup(p, FileField, 0, o.(seenFile := true), code, junk)
      else if o.wantSname && !o.seenSname then Lookup(p, SnameField, 0, o.(seenSname := true), code, junk)
      else NotFound
  }

  /** What is found has its code, length and full data inside one field. */
  lemma {:induction false} FoundInside(p: Packet, field: Field, pos: nat, o: Overload, code: int, junk: byte)
    ensures var r := Lookup(p, field, pos, o, code, junk);
      r.At? ==> var f := p.Octets(r.field);
        2 <= r.offset <= |f| && r.offset + f[r.offset - 1] <= |f| && f[r.offset - 2] == code
    decreases o.Unseen()
  {
    hide Parse, IndexOf, Asked;
    var f := p.Octets(field);
    var parsed := Parse(f, pos);
    var k := IndexOf(parsed.opts, code);
    if k >= 0 {
      ParsedInside(f, pos, k);
      IndexIsFirst(parsed.opts, code);
    } else if parsed.ended {
      var o := Asked(f, parsed.opts, o, junk);
      if o.wantFile && !o.seenFile {
        FoundInside(p, FileField, 0, o.(seenFile := true), code, junk);
      } else if o.wantSname && !o.seenSname {
        FoundInside(p, SnameField, 0, o.(seenSname := true), code, junk);
      }
    }
  }

  /** The result does not depend on what lies behind the fields. */
  lemma {:induction false} JunkDoesNotMatter(p: Packet, field: Field, pos: nat, o: Overload, code: int,
                                             x: byte, y: byte)
    ensures Lookup(p, field, pos, o, code, x) == Lookup(p, field, pos, o, code, y)
    decreases o.Unseen()
  {
    var f := p.Octets(field);
    var parsed := Parse(f, pos);
    if IndexOf(parsed.opts, code) < 0 && parsed.ended {
      AskedInside(f, pos, o, x, y);
      var o := Asked(f, parsed.opts, o, x);
      if o.wantFile && !o.seenFile {
        JunkDoesNotMatter(p, FileField, 0, o.(seenFile := true), code, x, y);
      } else if o.wantSname && !o.seenSname {
        JunkDoesNotMatter(p, SnameField, 0, o.(seenSname := true), code, x, y);
      }
    }
  }

  lemma {:induction false} AskedInside(f: seq<byte>, pos: nat, o: Overload, x: byte, y: byte)
    requires Parse(f, pos).ended
    ensures Asked(f, Parse(f, pos).opts, o, x) == Asked(f, Parse(f, pos).opts, o, y)
    decreases |f| - pos
  {
    if f[pos] == PADDING {
      AskedInside(f, pos + 1, o, x, y);
    } else if f[pos] != END {
      var next := pos + 2 + f[pos + 1];
      assert next < |f|;
      assert Parse(f, pos).opts[1..] == Parse(f, next).opts;
      AskedInside(f, next, if f[pos] == OVERLOAD then o.With(f[pos + 2]) else o, x, y);
    }
  }

  // ----- udhcp_get_option -----

  /** One step of the search over padding. */
  lemma LookupPadding(p: Packet, field: Field, pos: nat, o: Overload, code: int, junk: byte)
    requires pos < |p.Octets(field)| && p.Octets(field)[pos] == PADDING
    ensures Lookup(p, field, pos, o, code, junk) == Lookup(p, field, pos + 1, o, code, junk)
  {
  }

  lemma LookupOption(p: Packet, field: Field, pos: nat, o: Overload, code: int, junk: byte)
    requires var f := p.Octets(field);
      pos + 1 < |f| && f[pos] != PADDING && f[pos] != END && pos + 2 + f[pos + 1] <= |f|
    ensures var f := p.Octets(field); var next := pos + 2 + f[pos + 1];
      if f[pos] == code then Lookup(p, field, pos, o, code, junk) == At(field, pos + 2)
      else Lookup(p, field, pos, o, code, junk) ==
           Lookup(p, field, next, if f[pos] == OVERLOAD then o.With(Read(f, pos + 2, junk)) else o, code, junk)
  {
    var f := p.Octets(field);
    var next := pos + 2 + f[pos + 1];
    ParseCases(f, pos);
    hide Parse, IndexOf, Asked, Lookup, Overload.With, Read;
    LookupPast(p, field, pos, next, Opt(pos, f[pos..next]), o, code, junk);
  }

  /** What an option asks for. */
  function AskedBy(f: seq<byte>, opt: Opt, o: Overload, junk: byte): Overload
    requires opt.octets != []
  {
    if opt.octets[0] == OVERLOAD then o.With(Read(f, opt.pos + 2, junk)) else o
  }

  lemma LookupPast(p: Packet, field: Field, pos: nat, next: nat, first: Opt, o: Overload, code: int, junk: byte)
    requires first.octets != []
    requires var f := p.Octets(field);
      Parse(f, pos) == Parsed([first] + Parse(f, next).opts, Parse(f, next).ended)
    ensures Lookup(p, field, pos, o, code, junk) ==
      if first.octets[0] == code then At(field, first.pos + 2)
      else Lookup(p, field, next, AskedBy(p.Octets(field), first, o, junk), code, junk)
  {
    hide *;
    var f := p.Octets(field);
    var rest := Parse(f, next).opts;
    AskedFirst(f, first, rest, o, junk);
    IndexCons(first, rest, code);
    LookupCase(p, field, pos, o, code, junk);
    LookupCase(p, field, next, AskedBy(f, first, o, junk), code, junk);
  }

  /** Fields that are still to be read after `asked`. */
  function NextField(p: Packet, asked: Overload, code: int, junk: byte): Found {
    if asked.wantFile && !asked.seenFile then Lookup(p, FileField, 0, asked.(seenFile := true), code, junk)
    else if asked.wantSname && !asked.seenSname then Lookup(p, SnameField, 0, asked.(seenSname := true), code, junk)
    else NotFound
  }

  lemma LookupCase(p: Packet, field: Field, pos: nat, o: Overload, code: int, junk: byte)
    ensures var parsed := Parse(p.Octets(field), pos); var k := IndexOf(parsed.opts, code);
      Lookup(p, field, pos, o, code, junk) ==
        if k >= 0 then At(field, parsed.opts[k].pos + 2)
        else if !parsed.ended then NotFound
        else NextField(p, Asked(p.Octets(field), parsed.opts, o, junk), code, junk)
  {
  }

  lemma AskedFirst(f: seq<byte>, first: Opt, rest: seq<Opt>, o: Overload, junk: byte)
    requires first.octets != []
    ensures Asked(f, [first] + rest, o, junk) == Asked(f, rest, AskedBy(f, first, o, junk), junk)
  {
    assert ([first] + rest)[1..] == rest;
  }

  lemma IndexCons(first: Opt, rest: seq<Opt>, code: int)
    requires first.octets != []
    ensures IndexOf([first] + rest, code) ==
      if first.octets[0] == code then 0 else if IndexOf(rest, code) < 0 then -1 else IndexOf(rest, code) + 1
  {
    assert ([first] + rest)[1..] == rest;
  }

  /** `junk` is the octet read behind a field that ends too early. */
  method GetOption(p: Packet, code: int, junk: byte) returns (r: Found)
    ensures r == Lookup(p, OptionsField, 0, NOTHING, code, junk)
  {
    var field, pos, o := OptionsField, 0, NOTHING;
    var rem: int := |p.options|;
    while true
      invariant 0 <= pos <= |p.Octets(field)| && rem == |p.Octets(field)| - pos
      invariant Lookup(p, field, pos, o, code, junk) == Lookup(p, OptionsField, 0, NOTHING, code, junk)
      decreases o.Unseen(), rem
    {
      if rem <= 0 {
        return NotFound;
      }
      var f := p.Octets(field);
      if f[pos] == PADDING {
        LookupPadding(p, field, pos, o, code, junk);
        rem := rem - 1;
        pos := pos + 1;
        continue;
      }
      if f[pos] == END {
        if o.wantFile && !o.seenFile {
          o := o.(seenFile := true);
          field, pos, rem := FileField, 0, |p.file|;
          continue;
        }
        if o.wantSname && !o.seenSname {
          o := o.(seenSname := true);
          field, pos, rem := SnameField, 0, |p.sname|;
          continue;
        }
        break;
      }
      var len := 2 + Read(f, pos + 1, junk) as int;
      rem := rem - len;
      if rem < 0 {
        return NotFound;
      }
      LookupOption(p, field, pos, o, code, junk);
      if f[pos] == code {
        return At(field, pos + 2);
      }
      if f[pos] == OVERLOAD {
        o := o.With(Read(f, pos + 2, junk));
      }
      pos := pos + len;
    }
    return NotFound;
  }

  // ----- udhcp_end_option and udhcp_add_binary_option -----

  /** Where the END option stands. */
  function EndPos(f: seq<byte>, pos: nat): (e: nat)
    requires Parse(f, pos).ended
    ensures pos <= e < |f| && f[e] == END
    decreases |f| - pos
  {
    if f[pos] == END then pos
    else if f[pos] == PADDING then EndPos(f, pos + 1)
    else EndPos(f, pos + 2 + f[pos + 1])
  }

  /** Code, length, and that many octets. */
  predicate Shaped(a: seq<byte>) {
    |a| >= 2 && |a| == 2 + a[1] as int
  }

  predicate ValidOption(a: seq<byte>) {
    Shaped(a) && a[0] != PADDING && a[0] != END
  }

  predicate Fits(end: nat, a: seq<byte>) {
    end + |a| + 1 < OPTIONS_SIZE
  }

  function Appended(f: seq<byte>, a: seq<byte>): (r: seq<byte>)
    requires |f| == OPTIONS_SIZE && Parse(f, 0).ended
    ensures |r| == |f|
  {
    var e := EndPos(f, 0);
    if Fits(e, a) then f[..e] + a + [END] + f[e + |a| + 1..] else f
  }

  /** An option that fits becomes the last one of the field; one that does not changes nothing. */
  lemma AppendedParses(f: seq<byte>, a: seq<byte>)
    requires |f| == OPTIONS_SIZE && Parse(f, 0).ended && ValidOption(a)
    ensures var e := EndPos(f, 0); var r := Appended(f, a);
      if Fits(e, a) then Parse(r, 0) == Parsed(Parse(f, 0).opts + [Opt(e, a)], true) && EndPos(r, 0) == e + |a|
      else r == f
  {
    hide Parse, EndPos;
    var e := EndPos(f, 0);
    if Fits(e, a) {
      Spliced(f, a, e);
      ParseAppended(f, Appended(f, a), a, 0);
    }
  }

  lemma Spliced(f: seq<byte>, a: seq<byte>, e: nat)
    requires e + |a| < |f|
    ensures var r := f[..e] + a + [END] + f[e + |a| + 1..];
      |r| == |f| && r[..e] == f[..e] && r[e..e + |a|] == a && r[e + |a|] == END
  {
  }

  lemma {:induction false} ParseAppended(f: seq<byte>, r: seq<byte>, a: seq<byte>, pos: nat)
    requires Parse(f, pos).ended && ValidOption(a) && |r| == |f|
    requires var e := EndPos(f, pos);
      e + |a| < |f| && r[..e] == f[..e] && r[e..e + |a|] == a && r[e + |a|] == END
    ensures Parse(r, pos) == Parsed(Parse(f, pos).opts + [Opt(EndPos(f, pos), a)], true)
    ensures EndPos(r, pos) == EndPos(f, pos) + |a|
    decreases |f| - pos
  {
    hide Parse, EndPos;
    ParseCases(f, pos);
    if f[pos] == END {
      EndReplaced(r, a, pos);
    } else {
      SamePrefix(f, r, pos);
      ParseCases(r, pos);
      if f[pos] == PADDING {
        ParseAppended(f, r, a, pos + 1);
      } else {
        var next := pos + 2 + f[pos + 1];
        ParseAppended(f, r, a, next);
        OptsJoined([Opt(pos, f[pos..next])], Parse(f, next).opts, [Opt(EndPos(f, next), a)]);
      }
    }
  }

  /** What stands at `pos`. */
  lemma ParseCases(f: seq<byte>, pos: nat)
    ensures Parse(f, pos).ended ==> pos < |f|
    ensures pos < |f| && f[pos] == END ==> Parse(f, pos) == Parsed([], true) && EndPos(f, pos) == pos
    ensures pos < |f| && f[pos] == PADDING ==> Parse(f, pos) == Parse(f, pos + 1)
    ensures pos < |f| && f[pos] == PADDING && Parse(f, pos).ended ==> EndPos(f, pos) == EndPos(f, pos + 1)
    ensures pos < |f| && f[pos] != END && f[pos] != PADDING ==>
      if pos + 1 >= |f| || pos + 2 + f[pos + 1] > |f| then Parse(f, pos) == Parsed([], false)
      else
        var next := pos + 2 + f[pos + 1];
        && Parse(f, pos) == Parsed([Opt(pos, f[pos..next])] + Parse(f, next).opts, Parse(f, next).ended)
        && (Parse(f, pos).ended ==> EndPos(f, pos) == EndPos(f, next))
  {
  }

  lemma EndReplaced(r: seq<byte>, a: seq<byte>, e: nat)
    requires ValidOption(a) && e + |a| < |r| && r[e..e + |a|] == a && r[e + |a|] == END
    ensures Parse(r, e) == Parsed([Opt(e, a)], true) && EndPos(r, e) == e + |a|
  {
    assert r[e] == r[e..e + |a|][0] && r[e + 1] == r[e..e + |a|][1];
    assert Parse(r, e + |a|) == Parsed([], true);
  }

  /** Two fields that agree up to the END option of the first have the same item at `pos`. */
  lemma SamePrefix(f: seq<byte>, r: seq<byte>, pos: nat)
    requires Parse(f, pos).ended && |r| == |f| && r[..EndPos(f, pos)] == f[..EndPos(f, pos)] && f[pos] != END
    ensures r[pos] == f[pos]
    ensures f[pos] != PADDING ==> var next := pos + 2 + f[pos + 1];
      pos + 1 < |r| && r[pos + 1] == f[pos + 1] && next <= |f| && r[pos..next] == f[pos..next]
  {
    var e := EndPos(f, pos);
    assert r[..e][pos] == f[..e][pos];
    if f[pos] != PADDING {
      var next := pos + 2 + f[pos + 1];
      assert r[..e][pos + 1] == f[..e][pos + 1];
      assert r[..e][pos..next] == r[pos..next] && f[..e][pos..next] == f[pos..next];
    }
  }

  /** An option with the code of END is not seen: the field holds what it held. */
  lemma EndCodeUnseen(f: seq<byte>, a: seq<byte>)
    requires |f| == OPTIONS_SIZE && Parse(f, 0).ended && Shaped(a) && a[0] == END
    ensures Parse(Appended(f, a), 0) == Parse(f, 0)
  {
    var e := EndPos(f, 0);
    if Fits(e, a) {
      var r := f[..e] + a + [END] + f[e + |a| + 1..];
      assert r[..e] == f[..e] && r[e] == a[0];
      SameUpToEnd(f, r, 0);
    }
  }

  lemma {:induction false} SameUpToEnd(f: seq<byte>, r: seq<byte>, pos: nat)
    requires Parse(f, pos).ended && |r| == |f|
    requires var e := EndPos(f, pos); r[..e] == f[..e] && r[e] == END
    ensures Parse(r, pos) == Parse(f, pos)
    decreases |f| - pos
  {
    hide Parse, EndPos;
    ParseCases(f, pos);
    ParseCases(r, pos);
    if f[pos] != END {
      SamePrefix(f, r, pos);
      SameUpToEnd(f, r, if f[pos] == PADDING then pos + 1 else pos + 2 + f[pos + 1]);
    }
  }

  lemma {:induction false} PaddingOnly(f: seq<byte>, pos: nat)
    requires forall i :: pos <= i < |f| ==> f[i] == PADDING
    ensures !Parse(f, pos).ended
    decreases |f| - pos
  {
    if pos < |f| {
      PaddingOnly(f, pos + 1);
    }
  }

  /** An option with the code of padding is seen as what stands behind the code: one octet of data 255 added to an
      empty field of zeros leaves a field without END. */
  lemma PaddingCodeBreaksField(f: seq<byte>)
    requires |f| == OPTIONS_SIZE && f[0] == END && forall i :: 0 < i < |f| ==> f[i] == PADDING
    ensures Parse(f, 0).ended && Shaped([PADDING, 1, 255]) && !Parse(Appended(f, [PADDING, 1, 255]), 0).ended
  {
    EmptyField(f);
    var r := Appended(f, [PADDING, 1, 255]);
    hide Parse;
    assert r == [PADDING, 1, 255, END] + f[4..];
    PaddingOnly(r, 258);
    ParseCases(r, 0);
    ParseCases(r, 1);
  }

  function AppendedAll(f: seq<byte>, adds: seq<seq<byte>>): (r: seq<byte>)
    requires |f| == OPTIONS_SIZE && Parse(f, 0).ended && forall i :: 0 <= i < |adds| ==> ValidOption(adds[i])
    ensures |r| == |f|
    decreases |adds|
  {
    if adds == [] then f
    else
      AppendedParses(f, adds[0]);
      AppendedAll(Appended(f, adds[0]), adds[1..])
  }

  /** Those of the options that fit, one after another, behind `end`, with their positions. */
  function Kept(end: nat, adds: seq<seq<byte>>): seq<Opt>
    decreases |adds|
  {
    if adds == [] then []
    else if Fits(end, adds[0]) then [Opt(end, adds[0])] + Kept(end + |adds[0]|, adds[1..])
    else Kept(end, adds[1..])
  }

  lemma OptsJoined(a: seq<Opt>, b: seq<Opt>, c: seq<Opt>)
    ensures a + (b + c) == a + b + c
  {
  }

  /** A sequence of additions leaves a well-formed field with the options that fitted, in order. */
  lemma {:induction false} AllAppended(f: seq<byte>, adds: seq<seq<byte>>)
    requires |f| == OPTIONS_SIZE && Parse(f, 0).ended && forall i :: 0 <= i < |adds| ==> ValidOption(adds[i])
    ensures Parse(AppendedAll(f, adds), 0) == Parsed(Parse(f, 0).opts + Kept(EndPos(f, 0), adds), true)
    decreases |adds|
  {
    hide Parse, EndPos, Appended;
    var opts := Parse(f, 0).opts;
    if adds == [] {
      assert opts + [] == opts;
    } else {
      var e := EndPos(f, 0);
      AppendedParses(f, adds[0]);
      AllAppended(Appended(f, adds[0]), adds[1..]);
      if Fits(e, adds[0]) {
        OptsJoined(opts, [Opt(e, adds[0])], Kept(e + |adds[0]|, adds[1..]));
      }
    }
  }

  /** What is found from `file` or `sname` on is not found in `options`. */
  lemma {:induction false} NeverBack(p: Packet, field: Field, pos: nat, o: Overload, code: int, junk: byte)
    requires !field.OptionsField?
    ensures var r := Lookup(p, field, pos, o, code, junk); r.At? ==> !r.field.OptionsField?
    decreases o.Unseen()
  {
    var parsed := Parse(p.Octets(field), pos);
    var asked := Asked(p.Octets(field), parsed.opts, o, junk);
    hide Parse, Asked, IndexOf;
    if asked.wantFile && !asked.seenFile {
      NeverBack(p, FileField, 0, asked.(seenFile := true), code, junk);
    } else if asked.wantSname && !asked.seenSname {
      NeverBack(p, SnameField, 0, asked.(seenSname := true), code, junk);
    }
  }

  /** In a well-formed options field with those options, the first one with the code is found; without one, nothing is
      found there, and nothing at all without an overload option. */
  lemma LookupAmong(q: Packet, opts: seq<Opt>, code: int, junk: byte)
    requires Parse(q.options, 0) == Parsed(opts, true)
    ensures var k := IndexOf(opts, code); var r := Lookup(q, OptionsField, 0, NOTHING, code, junk);
      if k >= 0 then r == At(OptionsField, opts[k].pos + 2)
      else r == NotFound || (IndexOf(opts, OVERLOAD as int) >= 0 && !r.field.OptionsField?)
  {
    hide Parse, IndexOf, Asked;
    var o := Asked(q.options, opts, NOTHING, junk);
    if IndexOf(opts, code) < 0 {
      if IndexOf(opts, OVERLOAD as int) < 0 {
        NothingAsked(q.options, opts, NOTHING, junk);
      } else if o.wantFile && !o.seenFile {
        NeverBack(q, FileField, 0, o.(seenFile := true), code, junk);
      } else if o.wantSname && !o.seenSname {
        NeverBack(q, SnameField, 0, o.(seenSname := true), code, junk);
      }
    }
  }

  /** The search finds the first of `opts` with the code, all of it in the options field; without one it finds nothing
      there, and nothing at all without an overload option. */
  predicate Answers(q: Packet, opts: seq<Opt>, code: int, r: Found) {
    var k := IndexOf(opts, code);
    if k >= 0 then
      var o := opts[k];
      && r == At(OptionsField, o.pos + 2)
      && o.pos + |o.octets| <= |q.options| && q.options[o.pos..o.pos + |o.octets|] == o.octets
    else
      r == NotFound || (IndexOf(opts, OVERLOAD as int) >= 0 && (r.field == FileField || r.field == SnameField))
  }

  lemma SearchAnswers(q: Packet, opts: seq<Opt>, code: int, junk: byte)
    requires Parse(q.options, 0) == Parsed(opts, true)
    ensures Answers(q, opts, code, Lookup(q, OptionsField, 0, NOTHING, code, junk))
  {
    hide Parse, IndexOf, Lookup;
    LookupAmong(q, opts, code, junk);
    if IndexOf(opts, code) >= 0 {
      ParsedInside(q.options, 0, IndexOf(opts, code));
    }
  }

  /** Round trip: after any additions to an empty field, the search answers with the first added option that fitted. */
  lemma AddedIsFound(p: Packet, adds: seq<seq<byte>>, code: int, junk: byte)
    requires |p.options| == OPTIONS_SIZE && p.options[0] == END
    requires forall i :: 0 <= i < |adds| ==> ValidOption(adds[i])
    ensures Parse(p.options, 0).ended
    ensures var q := p.(options := AppendedAll(p.options, adds));
      Answers(q, Kept(0, adds), code, Lookup(q, OptionsField, 0, NOTHING, code, junk))
  {
    hide Parse, EndPos, AppendedAll, Kept, IndexOf, Lookup, Answers, ValidOption, Asked, Appended;
    EmptyField(p.options);
    var q := p.(options := AppendedAll(p.options, adds));
    AllAppended(p.options, adds);
    assert [] + Kept(0, adds) == Kept(0, adds);
    SearchAnswers(q, Kept(0, adds), code, junk);
  }

  lemma EmptyField(f: seq<byte>)
    requires f != [] && f[0] == END
    ensures Parse(f, 0) == Parsed([], true) && EndPos(f, 0) == 0
  {
  }

  lemma {:induction false} NothingAsked(f: seq<byte>, opts: seq<Opt>, o: Overload, junk: byte)
    requires IndexOf(opts, OVERLOAD as int) < 0
    ensures Asked(f, opts, o, junk) == o
    decreases |opts|
  {
    if opts != [] {
      NothingAsked(f, opts[1..], o, junk);
    }
  }

  /** `udhcp_end_option`, which does not look where the field ends: without an END option it leaves the field,
      `None`. */
  method EndOption(options: array<byte>) returns (end: Option<nat>)
    ensures end == if Parse(options[..], 0).ended then Some(EndPos(options[..], 0)) else None
  {
    hide Parse, EndPos;
    var i := 0;
    ParseCases(options[..], 0);
    while i < options.Length && options[i] != END
      invariant Parse(options[..], i).ended <==> Parse(options[..], 0).ended
      invariant Parse(options[..], i).ended ==> i < options.Length && EndPos(options[..], i) == EndPos(options[..], 0)
      decreases options.Length - i
    {
      ParseCases(options[..], i);
      if options[i] != PADDING {
        if i + 1 >= options.Length {
          return None;
        }
        ParseCases(options[..], i + 2 + options[i + 1]);
        i := i + options[i + 1] as nat + 2 - 1;
      } else {
        ParseCases(options[..], i + 1);
      }
      i := i + 1;
    }
    ParseCases(options[..], i);
    return if i < options.Length then Some(i) else None;
  }

  /** `udhcp_add_binary_option`; `inside` tells that the search for the END option did not leave the field. */
  method AddBinaryOption(options: array<byte>, addopt: seq<byte>) returns (inside: bool)
    requires options.Length == OPTIONS_SIZE && Shaped(addopt)
    modifies options
    ensures inside <==> Parse(old(options[..]), 0).ended
    ensures inside ==> options[..] == Appended(old(options[..]), addopt)
    ensures inside && ValidOption(addopt) ==> Parse(options[..], 0).ended
    ensures !inside ==> options[..] == old(options[..])
  {
    hide Parse, EndPos;
    ghost var f := options[..];
    var found := EndOption(options);
    if found.None? {
      return false;
    }
    if ValidOption(addopt) {
      AppendedParses(f, addopt);
    }
    var end := found.value;
    var len := 2 + addopt[1] as nat;
    if end + len + 1 >= OPTIONS_SIZE {
      return true;
    }
    forall i | 0 <= i < len {
      options[end + i] := addopt[i];
    }
    options[end + len] := END;
    assert options[..] == f[..end] + addopt + [END] + f[end + len + 1..];
    return true;
  }
}
