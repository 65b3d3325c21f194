/** Big-endian counters kept in a byte array. */
module Counter {
  import opened Bits
  import opened Bytes

  /** Adding one from the last byte, carrying to the left out of every 0xff. */
  function Incremented(s: seq<byte>): (t: seq<byte>)
    ensures |t| == |s|
  {
    if s == [] then []
    else if s[|s| - 1] != 0xFF then s[..|s| - 1] + [s[|s| - 1] + 1]
    else Incremented(s[..|s| - 1]) + [0]
  }

  /** That is +1 modulo 256^n on the number the bytes stand for. */
  lemma {:induction false} IncrementedIsPlusOne(s: seq<byte>)
    ensures Incremented(s) == BeBytes(BE(s) + 1, |s|)
  {
    if s == [] {
    } else {
      var front, last: nat := s[..|s| - 1], s[|s| - 1];
      var x := BE(s) + 1;
      if last == 0xFF {
        IncrementedIsPlusOne(front);
        assert x / 0x100 == BE(front) + 1 && x % 0x100 == 0;
      } else {
        BeBytesOfBE(front);
        assert x / 0x100 == BE(front) && x % 0x100 == last + 1;
      }
    }
  }

  /** Counts up from the last byte towards place lo, and stops at the first byte that does not wrap to zero. */
  method Increment(ctr: array<byte>, lo: nat)
    requires lo <= ctr.Length
    modifies ctr
    ensures ctr[..lo] == old(ctr[..lo])
    ensures ctr[lo..] == BeBytes(BE(old(ctr[lo..])) + 1, ctr.Length - lo)
  {
    ghost var s := ctr[lo..];
    IncrementedIsPlusOne(s);
    hide BE, BeBytes, Incremented;
    var i := ctr.Length;
    while i > lo
      invariant lo <= i <= ctr.Length
      invariant ctr[..i] == old(ctr[..i])
      invariant forall j :: i <= j < ctr.Length ==> old(ctr[j]) == 0xFF && ctr[j] == 0
    {
      i := i - 1;
      ctr[i] := ((ctr[i] as int) + 1) % 0x100;
      if ctr[i] != 0 {
        CarriedAt(s, ctr[lo..], i - lo);
        return;
      }
    }
    Wrapped(s, ctr[lo..]);
  }

  /** The byte at i took the carry of the 0xff bytes behind it. */
  lemma {:induction false} CarriedAt(s: seq<byte>, t: seq<byte>, i: nat)
    requires i < |s| == |t| && s[..i] == t[..i] && s[i] != 0xFF && t[i] == s[i] + 1
    requires forall j :: i < j < |s| ==> s[j] == 0xFF && t[j] == 0
    ensures t == Incremented(s)
    decreases |s|
  {
    var n := |s| - 1;
    if i < n {
      CarriedAt(s[..n], t[..n], i);
      assert t == t[..n] + [t[n]];
    } else {
      assert t == s[..i] + [t[i]];
    }
  }

  lemma {:induction false} Wrapped(s: seq<byte>, t: seq<byte>)
    requires |s| == |t| && forall j :: 0 <= j < |s| ==> s[j] == 0xFF && t[j] == 0
    ensures t == Incremented(s)
    decreases |s|
  {
    if s == [] {
    } else {
      var n := |s| - 1;
      Wrapped(s[..n], t[..n]);
      assert t == t[..n] + [t[n]];
    }
  }
}
