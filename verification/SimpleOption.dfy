/**
 Options of one to four octets (components/net/udhcp/common.c:29-92, 344-367): a number put into a
 packet is the number found in it. The host is little-endian; callers bring data into network order.
 */
module SimpleOption {
  import opened Basics
  import opened OptionField

  /** Octets of data for the option codes in `dhcp_optflags`. */
  function Width(code: byte): Option<byte> {
    if code in {0x01, 0x02, 0x03, 0x06, 0x09, 0x10, 0x1c, 0x29, 0x2a, 0x2c, 0x32, 0x33, 0x36} then Some(4)
    else if code in {0x0d, 0x1a, 0x39} then Some(2)
    else if code in {0x0c, 0x0f, 0x11, 0x17, 0x28, 0x35, 0x38, 0x42, 0x43, 0xd1, 0xfc} then Some(1)
    else if code == 0x21 then Some(8)
    else if code in {0x79, 0xf9} then Some(5)
    else if code == 0xd4 then Some(22)
    else None
  }

  /** The `n` lowest octets of a number, lowest first. */
  function Lowest(data: nat, n: nat): (r: seq<byte>)
    ensures |r| == n
    decreases n
  {
    if n == 0 then [] else [data % 256] + Lowest(data / 256, n - 1)
  }

  /** The number octets stand for, lowest first. */
  function Number(s: seq<byte>): nat {
    if s == [] then 0 else s[0] + 256 * Number(s[1..])
  }

  function Pow256(n: nat): (r: nat)
    ensures r > 0
  {
    if n == 0 then 1 else 256 * Pow256(n - 1)
  }

  lemma {:induction false} LowestIsNumber(data: nat, n: nat)
    requires data < Pow256(n)
    ensures Number(Lowest(data, n)) == data
    decreases n
  {
    if n > 0 {
      LowestIsNumber(data / 256, n - 1);
      assert Lowest(data, n)[1..] == Lowest(data / 256, n - 1);
    }
  }

  /** The option added for a code of the table: four octets of data at most, and behind them whatever stands there. */
  function Simple(code: byte, data: nat, junk: seq<byte>): (r: seq<byte>)
    requires Width(code).Some? && |junk| == 18
    ensures ValidOption(r)
  {
    [code, Width(code).value] + (Lowest(data, 4) + junk)[..Width(code).value]
  }

  lemma {:induction false} IndexBehind(opts: seq<Opt>, o: Opt, code: int)
    requires IndexOf(opts, code) < 0 && o.octets != [] && o.octets[0] == code
    ensures IndexOf(opts + [o], code) == |opts|
  {
    if opts == [] {
      assert [] + [o] == [o];
    } else {
      IndexBehind(opts[1..], o, code);
      assert (opts + [o])[1..] == opts[1..] + [o];
    }
  }

  /** Behind its length `w` the field has, from `at` on, the octets of `data`, and `junk` behind the first four. */
  predicate Carries(o: seq<byte>, at: nat, w: byte, data: nat, junk: seq<byte>)
    requires |junk| == 18
  {
    && 2 <= at && at + w <= |o| && o[at - 1] == w
    && (w <= 4 ==> Number(o[at..at + w]) == data)
    && (4 < w <= 22 ==> Number(o[at..at + 4]) == data && o[at + 4..at + w] == junk[..w - 4])
  }

  /** A number added to a well-formed field that has room and no such option yet is the number found under its code,
      if the option takes at most four octets; in a wider one it is found with what stood behind it. */
  lemma SimpleIsFound(p: Packet, code: byte, data: nat, junk: seq<byte>, behind: byte)
    requires |p.options| == OPTIONS_SIZE && Parse(p.options, 0).ended && |junk| == 18
    requires Width(code).Some? && data < Pow256(if Width(code).value < 4 then Width(code).value else 4)
    requires IndexOf(Parse(p.options, 0).opts, code) < 0 && Fits(EndPos(p.options, 0), Simple(code, data, junk))
    ensures var q := p.(options := Appended(p.options, Simple(code, data, junk))); var w := Width(code).value;
      var r := Lookup(q, OptionsField, 0, NOTHING, code, behind);
      r.At? && r.field == OptionsField && Carries(q.options, r.offset, w, data, junk)
  {
    hide Parse, EndPos, Width, Lookup, Appended, Number, Lowest, IndexOf, Simple;
    var f, a := p.options, Simple(code, data, junk);
    var e, w := EndPos(f, 0), Width(code).value;
    var q := p.(options := Appended(f, a));
    WidthSmall(code);
    AppendedAt(f, a);
    DataOf(code, data, junk);
    FoundBehind(p, a, code, behind);
    InData(q.options, e + 2, w, a);
  }

  lemma WidthSmall(code: byte)
    requires Width(code).Some?
    ensures Width(code).value <= 22
  {
  }

  lemma AppendedAt(f: seq<byte>, a: seq<byte>)
    requires |f| == OPTIONS_SIZE && Parse(f, 0).ended && Fits(EndPos(f, 0), a)
    ensures var e := EndPos(f, 0); e + |a| < |Appended(f, a)| && Appended(f, a)[e..e + |a|] == a
  {
    var e := EndPos(f, 0);
    var rest := [END] + f[e + |a| + 1..];
    assert Appended(f, a) == f[..e] + a + rest;
  }

  lemma FoundBehind(p: Packet, a: seq<byte>, code: byte, behind: byte)
    requires |p.options| == OPTIONS_SIZE && Parse(p.options, 0).ended && ValidOption(a) && a[0] == code
    requires IndexOf(Parse(p.options, 0).opts, code) < 0 && Fits(EndPos(p.options, 0), a)
    ensures var q := p.(options := Appended(p.options, a));
      Lookup(q, OptionsField, 0, NOTHING, code, behind) == At(OptionsField, EndPos(p.options, 0) + 2)
  {
    hide Parse, EndPos, Appended;
    AppendedParses(p.options, a);
    IndexBehind(Parse(p.options, 0).opts, Opt(EndPos(p.options, 0), a), code);
  }

  /** The data of the option as a number. */
  lemma DataOf(code: byte, data: nat, junk: seq<byte>)
    requires Width(code).Some? && |junk| == 18 && Width(code).value <= 22
    requires data < Pow256(if Width(code).value < 4 then Width(code).value else 4)
    ensures var a := Simple(code, data, junk); var w := Width(code).value;
      && |a| == w + 2 && a[0] == code && a[1] == w
      && (w <= 4 ==> Number(a[2..]) == data) && (w > 4 ==> Number(a[2..6]) == data && a[6..] == junk[..w - 4])
  {
    hide Width, Lowest, Number;
    var a, w := Simple(code, data, junk), Width(code).value;
    assert a[2..] == (Lowest(data, 4) + junk)[..w];
    if w <= 4 {
      FirstOf(data, w, 4);
      LowestIsNumber(data, w);
      assert (Lowest(data, 4) + junk)[..w] == Lowest(data, 4)[..w];
    } else {
      LowestIsNumber(data, 4);
      FirstFour(Lowest(data, 4), junk, w);
      assert a[2..6] == a[2..][..4] && a[6..] == a[2..][4..];
    }
  }

  lemma FirstFour(d: seq<byte>, junk: seq<byte>, w: nat)
    requires |d| == 4 < w <= 4 + |junk|
    ensures (d + junk)[..w][..4] == d && (d + junk)[..w][4..] == junk[..w - 4]
  {
  }

  lemma InData(o: seq<byte>, at: nat, w: nat, a: seq<byte>)
    requires |a| == w + 2 && at >= 2 && at + w <= |o| && o[at - 2..at + w] == a
    ensures o[at..at + w] == a[2..] && o[at - 1] == a[1]
    ensures w > 4 ==> o[at..at + 4] == a[2..6] && o[at + 4..at + w] == a[6..]
  {
    SubSlice(o, at - 2, at + w, 2, w + 2);
    SubSlice(o, at - 2, at + w, 1, 2);
    if w > 4 {
      SubSlice(o, at - 2, at + w, 2, 6);
      SubSlice(o, at - 2, at + w, 6, w + 2);
    }
  }

  /** A slice of a slice. */
  lemma SubSlice(o: seq<byte>, from: nat, to: nat, i: nat, j: nat)
    requires from <= to <= |o| && i <= j <= to - from
    ensures o[from..to][i..j] == o[from + i..from + j]
    ensures i < j ==> o[from..to][i] == o[from + i]
  {
    var x, y := o[from..to][i..j], o[from + i..from + j];
    assert |x| == |y| == j - i;
    forall k | 0 <= k < j - i ensures x[k] == y[k] {
      assert x[k] == o[from..to][i + k] == o[from + (i + k)];
    }
  }

  /** `udhcp_add_simple_option`; a code that is not in the table changes nothing. */
  method AddSimpleOption(options: array<byte>, code: byte, data: nat, junk: seq<byte>) returns (inside: bool)
    requires options.Length == OPTIONS_SIZE && data < 0x1_0000_0000 && |junk| == 18
    modifies options
    ensures inside <==> Width(code).None? || Parse(old(options[..]), 0).ended
    ensures inside && Width(code).Some? ==>
      options[..] == Appended(old(options[..]), Simple(code, data, junk)) && Parse(options[..], 0).ended
    ensures !inside || Width(code).None? ==> options[..] == old(options[..])
  {
    hide Parse, Width;
    if Width(code).None? {
      return true;
    }
    WidthSmall(code);
    var len: nat := Width(code).value;
    var option := [code, Width(code).value] + Lowest(data, 4) + junk;
    assert option[..2 + len] == Simple(code, data, junk);
    inside := AddBinaryOption(options, option[..2 + len]);
  }

  lemma {:induction false} FirstOf(data: nat, n: nat, m: nat)
    requires n <= m
    ensures Lowest(data, m)[..n] == Lowest(data, n)
    decreases n
  {
    if n > 0 {
      FirstOf(data / 256, n - 1, m - 1);
      assert Lowest(data, m)[..n] == [data % 256] + Lowest(data / 256, m - 1)[..n - 1];
    }
  }

  /** Addresses and lists of them, the time offset and the lease time have four octets. */
  lemma FourOctets()
    ensures Width(1) == Width(3) == Width(6) == Width(9) == Width(16) == Width(28) == Width(41) == Some(4)
    ensures Width(42) == Width(44) == Width(2) == Width(50) == Width(51) == Width(54) == Some(4)
  {
  }

  /** Boot size, MTU and maximum size have two, the message type, the TTL and every string one. */
  lemma OneOrTwoOctets()
    ensures Width(13) == Width(26) == Width(57) == Some(2)
    ensures Width(53) == Width(23) == Width(12) == Width(15) == Width(17) == Width(40) == Some(1)
    ensures Width(56) == Width(66) == Width(67) == Width(209) == Width(252) == Some(1)
  {
  }

  /** Pairs of addresses have eight, static routes five, 6RD 22; no other code has a width. */
  lemma OtherWidths(code: byte)
    ensures Width(33) == Some(8) && Width(121) == Width(249) == Some(5) && Width(212) == Some(22)
    ensures Width(code).Some? ==>
      code in {1, 2, 3, 6, 9, 12, 13, 15, 16, 17, 23, 26, 28, 33, 40, 41, 42, 44, 50, 51, 53,
               54, 56, 57, 66, 67, 121, 209, 212, 249, 252}
  {
  }

  /** A message type is one octet, a lease time four, the lowest first. */
  lemma SimpleInFigures(data: nat, junk: seq<byte>)
    requires data < 0x1_0000_0000 && |junk| == 18
    ensures Simple(53, data, junk) == [53, 1, data % 256]
    ensures Simple(51, data, junk) ==
      [51, 4, data % 256, data / 256 % 256, data / 256 / 256 % 256, data / 256 / 256 / 256 % 256]
  {
    FirstOf(data, 1, 4);
    assert Lowest(data, 1) == [data % 256] + [];
    assert Lowest(data, 4) == [data % 256, data / 256 % 256, data / 256 / 256 % 256, data / 256 / 256 / 256 % 256];
  }
}
