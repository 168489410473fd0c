/**
 Options carried on in other fields (components/net/udhcp/common.c:266-306; option 52, section 9.3 of RFC 2132),
 in figures: which fields an overload option makes the search read, and what the codes of a field mean.
 */
module OptionOverload {
  import opened Basics
  import opened OptionField

  // ----- a field, octet by octet -----

  /** 0 is skipped, 255 ends the field, anything else is an option with its length behind it. */
  lemma FieldOctets(f: seq<byte>, pos: nat)
    ensures pos >= |f| ==> Parse(f, pos) == Parsed([], false)
    ensures pos < |f| && f[pos] == 0 ==> Parse(f, pos) == Parse(f, pos + 1)
    ensures pos < |f| && f[pos] == 255 ==> Parse(f, pos) == Parsed([], true)
    ensures pos < |f| && f[pos] != 0 && f[pos] != 255 ==>
      if pos + 1 >= |f| || pos + 2 + f[pos + 1] > |f| then Parse(f, pos) == Parsed([], false)
      else
        var next := pos + 2 + f[pos + 1];
        Parse(f, pos) == Parsed([Opt(pos, f[pos..next])] + Parse(f, next).opts, Parse(f, next).ended)
  {
  }

  /** Added options end at octet 306 of 308 at most, so that END fits behind them with one octet to spare. */
  lemma RoomInFigures(f: seq<byte>, a: seq<byte>)
    requires |f| == 308 && Parse(f, 0).ended && Shaped(a)
    ensures var e := EndPos(f, 0);
      Appended(f, a) == if e + |a| <= 306 then f[..e] + a + [255] + f[e + |a| + 1..] else f
  {
  }

  // ----- overload -----

  /** The only overload option among `opts` is the `k`-th, and its first octet of data is `v`. */
  predicate OneOverload(opts: seq<Opt>, k: nat, v: byte) {
    && k < |opts| && |opts[k].octets| >= 3 && opts[k].octets[0] == 52 && opts[k].octets[2] == v
    && forall i :: 0 <= i < |opts| && i != k ==> opts[i].octets != [] && opts[i].octets[0] != 52
  }

  predicate NoOverload(opts: seq<Opt>) {
    forall i :: 0 <= i < |opts| ==> opts[i].octets != [] && opts[i].octets[0] != 52
  }

  lemma {:induction false} NothingAskedFor(f: seq<byte>, opts: seq<Opt>, o: Overload, junk: byte)
    requires NoOverload(opts)
    ensures Asked(f, opts, o, junk) == o
    decreases |opts|
  {
    if opts != [] {
      NothingAskedFor(f, opts[1..], o, junk);
    }
  }

  lemma {:induction false} AskedOnce(f: seq<byte>, opts: seq<Opt>, k: nat, v: byte, o: Overload, junk: byte)
    requires OneOverload(opts, k, v) && opts[k].pos + 2 < |f| && f[opts[k].pos + 2] == v
    ensures Asked(f, opts, o, junk) == o.With(v)
    decreases |opts|
  {
    if k == 0 {
      assert NoOverload(opts[1..]);
      NothingAskedFor(f, opts[1..], o.With(v), junk);
    } else {
      assert OneOverload(opts[1..], k - 1, v);
      AskedOnce(f, opts[1..], k - 1, v, o, junk);
    }
  }

  /** The first option with the code in a field, or nothing. */
  function FirstIn(field: Field, f: seq<byte>, code: int): Found {
    var opts := Parse(f, 0).opts;
    if IndexOf(opts, code) >= 0 then At(field, opts[IndexOf(opts, code)].pos + 2) else NotFound
  }

  /** With no more fields to read, a field gives what it has. */
  lemma LastField(p: Packet, field: Field, o: Overload, code: int, junk: byte)
    requires NoOverload(Parse(p.Octets(field), 0).opts) || (o.seenFile && o.seenSname)
    requires (o.wantFile ==> o.seenFile) && (o.wantSname ==> o.seenSname)
    ensures Lookup(p, field, 0, o, code, junk) == FirstIn(field, p.Octets(field), code)
  {
    var parsed := Parse(p.Octets(field), 0);
    hide Parse, Lookup, IndexOf;
    LookupCase(p, field, 0, o, code, junk);
    if NoOverload(parsed.opts) {
      NothingAskedFor(p.Octets(field), parsed.opts, o, junk);
    }
  }

  /** The overload octet tells which fields are read behind `options`: 1 `file`, 2 `sname`, 3 both, `file` first. */
  lemma OverloadInFigures(p: Packet, opts: seq<Opt>, k: nat, v: byte, code: int, junk: byte)
    requires Parse(p.options, 0) == Parsed(opts, true) && OneOverload(opts, k, v)
    requires forall i :: 0 <= i < |opts| ==> opts[i].octets[0] != code
    ensures var r := Lookup(p, OptionsField, 0, NOTHING, code, junk);
      var inFile, inSname := FirstIn(FileField, p.file, code), FirstIn(SnameField, p.sname, code);
      && (v % 4 == 0 ==> r == NotFound)
      && (v % 4 == 1 && NoOverload(Parse(p.file, 0).opts) ==> r == inFile)
      && (v % 4 == 2 && NoOverload(Parse(p.sname, 0).opts) ==> r == inSname)
      && (v % 4 == 3 && inFile != NotFound ==> r == inFile)
      && (v % 4 == 3 && inFile == NotFound && Parse(p.file, 0).ended ==> r == inSname)
      && (v % 4 == 3 && inFile == NotFound && !Parse(p.file, 0).ended ==> r == NotFound)
  {
    ParsedInside(p.options, 0, k);
    IndexIsFirst(opts, code);
    AskedOnce(p.options, opts, k, v, NOTHING, junk);
    LookupCase(p, OptionsField, 0, NOTHING, code, junk);
    WithInFigures(v);
    AfterOptions(p, v, code, junk);
  }

  lemma WithInFigures(v: byte)
    ensures NOTHING.With(v) == Overload(v % 4 == 1 || v % 4 == 3, v % 4 == 2 || v % 4 == 3, false, false)
  {
  }

  lemma AfterOptions(p: Packet, v: byte, code: int, junk: byte)
    ensures var o := Overload(v % 4 == 1 || v % 4 == 3, v % 4 == 2 || v % 4 == 3, false, false);
      var r := NextField(p, o, code, junk);
      var inFile, inSname := FirstIn(FileField, p.file, code), FirstIn(SnameField, p.sname, code);
      && (v % 4 == 0 ==> r == NotFound)
      && (v % 4 == 1 && NoOverload(Parse(p.file, 0).opts) ==> r == inFile)
      && (v % 4 == 2 && NoOverload(Parse(p.sname, 0).opts) ==> r == inSname)
      && (v % 4 == 3 && inFile != NotFound ==> r == inFile)
      && (v % 4 == 3 && inFile == NotFound && Parse(p.file, 0).ended ==> r == inSname)
      && (v % 4 == 3 && inFile == NotFound && !Parse(p.file, 0).ended ==> r == NotFound)
  {
    hide Parse, Lookup, FirstIn, NoOverload;
    if v % 4 == 1 && NoOverload(Parse(p.file, 0).opts) {
      LastField(p, FileField, Overload(true, false, true, false), code, junk);
    } else if v % 4 == 2 && NoOverload(Parse(p.sname, 0).opts) {
      LastField(p, SnameField, Overload(false, true, false, true), code, junk);
    } else if v % 4 == 3 {
      FileThenSname(p, code, junk);
    }
  }

  /** Both fields wanted, `file` is read first, and `sname` if that ends without the option. */
  lemma FileThenSname(p: Packet, code: int, junk: byte)
    ensures Lookup(p, FileField, 0, Overload(true, true, true, false), code, junk) ==
      if FirstIn(FileField, p.file, code) != NotFound then FirstIn(FileField, p.file, code)
      else if Parse(p.file, 0).ended then FirstIn(SnameField, p.sname, code) else NotFound
  {
    var o := Overload(true, true, true, false);
    var asked := Asked(p.file, Parse(p.file, 0).opts, o, junk);
    AskedMore(p.file, Parse(p.file, 0).opts, o, junk);
    hide Parse, Lookup, IndexOf, Asked;
    LookupCase(p, FileField, 0, o, code, junk);
    LastField(p, SnameField, Overload(true, true, true, true), code, junk);
  }

  /** What is asked for stays asked for. */
  lemma {:induction false} AskedMore(f: seq<byte>, opts: seq<Opt>, o: Overload, junk: byte)
    requires o.wantFile && o.wantSname
    ensures Asked(f, opts, o, junk) == o
    decreases |opts|
  {
    if opts != [] {
      AskedMore(f, opts[1..], if opts[0].octets != [] && opts[0].octets[0] == OVERLOAD
                              then o.With(Read(f, opts[0].pos + 2, junk)) else o, junk);
    }
  }
}
