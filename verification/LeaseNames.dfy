/**
 The host name kept with a lease (components/net/udhcp/leases.c:66-80): copied from a received option up to its
 first NUL, and cleaned of everything that is not printable ASCII.
 */
module LeaseNames {
  import opened Basics

  const NAME_SIZE: nat := 20
  const CARET: byte := 94

  /** A name as it stands in a received packet: its octets, and the octet behind them. */
  datatype Name = NoName | Name(octets: seq<byte>, behind: byte)

  function UpToNul(s: seq<byte>): (r: seq<byte>)
    ensures |r| <= |s| && 0 !in r && r == s[..|r|]
    ensures |r| < |s| ==> s[|r|] == 0
  {
    if s == [] || s[0] == 0 then [] else [s[0]] + UpToNul(s[1..])
  }

  predicate Printable(c: byte) {
    32 <= c <= 126
  }

  function Cleaned(s: seq<byte>): (r: seq<byte>)
    ensures |r| == |s| && forall i :: 0 <= i < |s| ==> r[i] == if Printable(s[i]) then s[i] else CARET
  {
    seq(|s|, i requires 0 <= i < |s| => if Printable(s[i]) then s[i] else CARET)
  }

  /** The octets `strncpy` looks at: the name and the octet behind it, counted as its NUL, as far as the field goes. */
  function Copied(octets: seq<byte>, behind: byte): (r: seq<byte>)
    ensures |r| == if |octets| + 1 > NAME_SIZE then NAME_SIZE else |octets| + 1
  {
    (octets + [behind])[..if |octets| + 1 > NAME_SIZE then NAME_SIZE else |octets| + 1]
  }

  /** The name in the field, without the NULs that fill it up. */
  function Stored(name: Name): (r: seq<byte>)
    ensures |r| <= NAME_SIZE && forall i :: 0 <= i < |r| ==> Printable(r[i])
  {
    if name.NoName? then [] else Cleaned(UpToNul(Copied(name.octets, name.behind)))
  }

  function Zeros(n: nat): (r: seq<byte>)
    ensures |r| == n && forall i :: 0 <= i < n ==> r[i] == 0
  {
    seq(n, _ => 0)
  }

  /** The whole field. */
  function Field(name: Name): (r: seq<byte>)
    ensures |r| == NAME_SIZE
  {
    Stored(name) + Zeros(NAME_SIZE - |Stored(name)|)
  }

  lemma {:induction false} NoNulKept(s: seq<byte>, t: seq<byte>)
    requires 0 !in s
    ensures UpToNul(s + t) == s + UpToNul(t)
  {
    if s == [] {
      assert s + t == t;
    } else {
      NoNulKept(s[1..], t);
      assert (s + t)[1..] == s[1..] + t;
    }
  }

  /** A short name is kept as it is, but for characters that are not printable, exactly if a NUL stands behind it in
      the packet; otherwise the octet behind it becomes part of it. */
  lemma WhenNameKept(octets: seq<byte>, behind: byte)
    requires 0 !in octets && |octets| < NAME_SIZE
    ensures Stored(Name(octets, behind)) == Cleaned(octets) <==> behind == 0
    ensures behind != 0 ==> Stored(Name(octets, behind)) == Cleaned(octets + [behind])
  {
    assert Copied(octets, behind) == octets + [behind];
    NoNulKept(octets, [behind]);
    assert UpToNul([behind]) == if behind == 0 then [] else [behind];
    assert octets + [] == octets;
  }

  /** A longer name is cut to the size of the field. */
  lemma LongNameCut(octets: seq<byte>, behind: byte)
    requires 0 !in octets && |octets| >= NAME_SIZE
    ensures Stored(Name(octets, behind)) == Cleaned(octets[..NAME_SIZE])
  {
    assert Copied(octets, behind) == octets[..NAME_SIZE];
    NoNulKept(octets[..NAME_SIZE], []);
    assert octets[..NAME_SIZE] + [] == octets[..NAME_SIZE];
  }

  /** `strncpy` into a field of NULs. */
  method CopyName(field: array<byte>, s: seq<byte>)
    requires |s| <= field.Length && forall i :: 0 <= i < field.Length ==> field[i] == 0
    modifies field
    ensures forall i :: 0 <= i < field.Length ==> field[i] == if i < |UpToNul(s)| then s[i] else 0
  {
    ghost var n := |UpToNul(s)|;
    var i := 0;
    while i < |s| && s[i] != 0
      invariant 0 <= i <= n
      invariant forall k :: 0 <= k < field.Length ==> field[k] == if k < i then s[k] else 0
    {
      assert i < n;
      field[i] := s[i];
      i := i + 1;
    }
  }

  /** Every octet up to the first NUL, or to the end, that is not printable becomes a caret. */
  method Sanitize(field: array<byte>, ghost n: nat)
    requires n <= field.Length && forall i :: 0 <= i < field.Length ==> (field[i] != 0 <==> i < n)
    modifies field
    ensures forall i :: 0 <= i < field.Length ==>
      field[i] == if i < n && !Printable(old(field[i])) then CARET else old(field[i])
  {
    var p := 0;
    while p < field.Length && field[p] != 0
      invariant 0 <= p <= n
      invariant forall i :: 0 <= i < field.Length ==>
        field[i] == if i < p && !Printable(old(field[i])) then CARET else old(field[i])
    {
      if field[p] < 32 || field[p] > 126 {
        field[p] := CARET;
      }
      p := p + 1;
    }
  }

  method StoreName(name: Name) returns (field: array<byte>)
    ensures fresh(field) && field[..] == Field(name)
  {
    field := new byte[NAME_SIZE](_ => 0);
    if name.Name? {
      ghost var s := UpToNul(Copied(name.octets, name.behind));
      CopyName(field, Copied(name.octets, name.behind));
      assert forall i :: 0 <= i < |s| ==> s[i] in s;
      Sanitize(field, |s|);
    }
    assert field[..] == Field(name);
  }

  /** In figures: of the name and the octet behind it, cut to 20, the octets before the first 0, of which those
      outside 32 to 126 become 94; the rest of the field is 0. */
  lemma FieldInFigures(octets: seq<byte>, behind: byte, n: nat)
    requires var s := octets + [behind];
      n <= 20 && n <= |s| && (forall i :: 0 <= i < n ==> s[i] != 0) && (n < 20 && n < |s| ==> s[n] == 0)
    ensures var s := octets + [behind]; var f := Field(Name(octets, behind));
      |f| == 20 && forall i :: 0 <= i < 20 ==>
        f[i] == if i >= n then 0 else if 32 <= s[i] <= 126 then s[i] else 94
  {
    var s := octets + [behind];
    var c := Copied(octets, behind);
    assert forall i :: 0 <= i < |c| ==> c[i] == s[i];
    var u := UpToNul(c);
    FirstNul(c, n);
  }

  lemma {:induction false} FirstNul(c: seq<byte>, n: nat)
    requires n <= |c| && (forall i :: 0 <= i < n ==> c[i] != 0) && (n < |c| ==> c[n] == 0)
    ensures UpToNul(c) == c[..n]
  {
    if n > 0 {
      FirstNul(c[1..], n - 1);
      assert c[..n] == [c[0]] + c[1..][..n - 1];
    }
  }
}
