/** The send sequence counter of a secure-messaging session. */
module SendSequenceCounter {
  import opened Arithmetic
  import opened ByteStrings

  /** The counter after one increment, as bytes: a carry that runs from the right end. */
  function Next(ssc: Bytes): (r: Bytes)
    ensures |r| == |ssc|
  {
    if ssc == [] then []
    else
      var n := |ssc| - 1;
      if ssc[n] == 0xFF then Next(ssc[..n]) + [0] else ssc[..n] + [ssc[n] + 1]
  }

  /** The counter after k increments. */
  function Advance(ssc: Bytes, k: nat): (r: Bytes)
    ensures |r| == |ssc|
  {
    if k == 0 then ssc else Next(Advance(ssc, k - 1))
  }

  lemma AdvanceStep(ssc: Bytes, k: nat)
    ensures Advance(ssc, k + 1) == Next(Advance(ssc, k))
  {
  }

  lemma {:induction false} NextIsPlusOne(ssc: Bytes)
    ensures BigEndian(Next(ssc)) == (BigEndian(ssc) + 1) % Pow256(|ssc|)
  {
    NextIsPlusOneOrWraps(ssc);
    var v, m := BigEndian(ssc) + 1, Pow256(|ssc|);
    if v == m {
      DivisionIsUnique(1, 0, m);
    } else {
      DivisionIsUnique(0, v, m);
    }
  }

  lemma {:induction false} NextIsPlusOneOrWraps(ssc: Bytes)
    ensures BigEndian(Next(ssc)) == if BigEndian(ssc) + 1 == Pow256(|ssc|) then 0 else BigEndian(ssc) + 1
  {
    if ssc != [] {
      var n := |ssc| - 1;
      if ssc[n] == 0xFF {
        NextIsPlusOneOrWraps(ssc[..n]);
        assert Next(ssc)[..n] == Next(ssc[..n]);
      } else {
        assert Next(ssc)[..n] == ssc[..n];
      }
    }
  }

  lemma {:induction false} AdvanceIsPlus(ssc: Bytes, k: nat)
    ensures BigEndian(Advance(ssc, k)) == (BigEndian(ssc) + k) % Pow256(|ssc|)
  {
    var m := Pow256(|ssc|);
    if k == 0 {
      DivisionIsUnique(0, BigEndian(ssc), m);
    } else {
      AdvanceIsPlus(ssc, k - 1);
      NextIsPlusOne(Advance(ssc, k - 1));
      ModSuccessor(BigEndian(ssc) + k - 1, m);
    }
  }

  lemma {:induction false} AdvanceAdds(ssc: Bytes, j: nat, k: nat)
    ensures Advance(ssc, j + k) == Advance(Advance(ssc, j), k)
  {
    if k > 0 {
      AdvanceAdds(ssc, j, k - 1);
    }
  }

  /** No counter value comes back in fewer steps than there are values. */
  lemma NeverRepeats(ssc: Bytes, i: nat, j: nat)
    requires i < j && j - i < Pow256(|ssc|)
    ensures Advance(ssc, i) != Advance(ssc, j)
  {
    var a, d := Advance(ssc, i), j - i;
    AdvanceAdds(ssc, i, d);
    AdvanceIsPlus(a, d);
    PlusMoves(BigEndian(a), d, Pow256(|ssc|));
  }

  lemma PlusMoves(b: nat, d: nat, m: nat)
    requires b < m && 0 < d < m
    ensures (b + d) % m != b
  {
    if b + d < m {
      DivisionIsUnique(0, b + d, m);
    } else {
      DivisionIsUnique(1, b + d - m, m);
    }
  }

  lemma CounterWidths()
    ensures Pow256(8) == 0x1_0000_0000_0000_0000
    ensures Pow256(16) == 0x1_0000_0000_0000_0000 * 0x1_0000_0000_0000_0000
  {
    assert Pow256(12) == 0x1_0000_0000_0000_0000_0000_0000;
  }

  /** A run of 0xFF bytes at the end turns to zero and carries one into the byte before it. */
  lemma {:induction false} NextCarries(s: Bytes, n: int)
    requires -1 <= n < |s|
    requires forall i :: n < i < |s| ==> s[i] == 0xFF
    requires n >= 0 ==> s[n] != 0xFF
    ensures Next(s) == (if n < 0 then [] else s[..n] + [s[n] + 1]) + Zeros(|s| - 1 - n)
  {
    var last := |s| - 1;
    if n < last {
      NextCarries(s[..last], n);
      if n >= 0 {
        assert s[..last][..n] == s[..n];
      }
    }
  }

  /** The carry loop, in place. */
  method Increment(ssc: array<Byte>)
    modifies ssc
    ensures ssc[..] == Next(old(ssc[..]))
  {
    var n := ssc.Length - 1;
    ghost var was := ssc[..];
    while n >= 0
      invariant -1 <= n < ssc.Length
      invariant forall i :: 0 <= i <= n ==> ssc[i] == was[i]
      invariant forall i :: n < i < ssc.Length ==> was[i] == 0xFF && ssc[i] == 0
    {
      ssc[n] := if ssc[n] == 0xFF then 0 else ssc[n] + 1;
      if ssc[n] != 0 {
        break;
      }
      n := n - 1;
    }
    NextCarries(was, n);
  }
}
