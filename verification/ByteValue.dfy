/** The number that a sequence of bytes stands for, the least significant byte first. */
module ByteValue {
  import opened Arithmetic
  import opened Bits

  function Val(s: seq<byte>): nat {
    if |s| == 0 then 0 else s[0] + 256 * Val(s[1..])
  }

  lemma {:induction false} ValAppend(s: seq<byte>, t: seq<byte>)
    ensures Val(s + t) == Val(s) + Power256(|s|) * Val(t)
  {
    if |s| == 0 {
      assert s + t == t;
      assert 1 * Val(t) == Val(t);
    } else {
      assert (s + t)[1..] == s[1..] + t;
      ValAppend(s[1..], t);
      assert Val(s + t) == s[0] + 256 * (Val(s[1..]) + Power256(|s| - 1) * Val(t));
      MulAssoc(256, Power256(|s| - 1), Val(t));
    }
  }

  lemma {:induction false} ValBound(s: seq<byte>)
    ensures Val(s) < Power256(|s|)
  {
    if |s| > 0 { ValBound(s[1..]); }
  }

  lemma ValSplit(s: seq<byte>, i: nat)
    requires i <= |s|
    ensures Val(s) == Val(s[..i]) + Power256(i) * Val(s[i..])
  {
    assert s[..i] + s[i..] == s;
    ValAppend(s[..i], s[i..]);
  }

  /** One more byte at the top of a prefix. */
  lemma ValPrefix(s: seq<byte>, i: nat)
    requires i < |s|
    ensures Val(s[..i + 1]) == Val(s[..i]) + Power256(i) * s[i]
  {
    assert s[..i + 1] == s[..i] + [s[i]];
    ValAppend(s[..i], [s[i]]);
    assert Val([s[i]]) == s[i];
  }

  lemma ValUpdate(s: seq<byte>, i: nat, b: byte)
    requires i < |s|
    ensures Val(s[i := b]) == Val(s) + Power256(i) * (b - s[i])
  {
    var t := s[i := b];
    assert t[..i] == s[..i] && t[i + 1..] == s[i + 1..];
    ValSplit(s, i + 1);
    ValSplit(t, i + 1);
    ValPrefix(s, i);
    ValPrefix(t, i);
    Distribute(Power256(i), s[i], b - s[i]);
  }

  lemma {:induction false} ValZero(s: seq<byte>)
    ensures Val(s) == 0 <==> forall i :: 0 <= i < |s| ==> s[i] == 0
  {
    if |s| > 0 {
      ValZero(s[1..]);
      assert forall i :: 1 <= i < |s| ==> s[i] == s[1..][i - 1];
    }
  }

  /** Numbers of the same length are equal only if all their bytes are. */
  lemma {:induction false} ValInjective(s: seq<byte>, t: seq<byte>)
    requires |s| == |t| && Val(s) == Val(t)
    ensures s == t
  {
    if |s| > 0 {
      assert s[0] == Val(s) % 256 && t[0] == Val(t) % 256;
      ValInjective(s[1..], t[1..]);
      assert s == [s[0]] + s[1..] && t == [t[0]] + t[1..];
    }
  }

  /** The highest byte in which two numbers differ decides which one is smaller. */
  lemma ValLess(s: seq<byte>, t: seq<byte>, i: nat)
    requires |s| == |t| && i < |s| && s[i + 1..] == t[i + 1..] && s[i] < t[i]
    ensures Val(s) < Val(t)
  {
    hide Val, Power256;
    var p := Power256(i);
    ValSplit(s, i + 1);
    ValSplit(t, i + 1);
    ValPrefix(s, i);
    ValPrefix(t, i);
    ValBound(s[..i]);
    assert p * s[i] + p <= p * t[i] by { MulStep(s[i], t[i], p); }
  }

  lemma {:induction false} Power256IsPow2(n: nat)
    ensures Power256(n) == Pow2(8 * n)
  {
    if n > 0 {
      Power256IsPow2(n - 1);
      Pow2Add(8, 8 * (n - 1));
      assert Pow2(8) == 256;
    }
  }
}
