/** Unsigned numbers as bytes, most significant first. */
module BigEndians {
  import opened Primitives

  /** The low `k` bytes of a number, most significant first. */
  function BigEndian(n: nat, k: nat): (r: Bytes)
    ensures |r| == k
  {
    if k == 0 then [] else BigEndian(n / 256, k - 1) + [n % 256]
  }

  function FromBigEndian(b: Bytes): nat {
    if b == [] then 0 else 256 * FromBigEndian(b[..|b| - 1]) + b[|b| - 1] as int
  }

  function Range(k: nat): (r: nat)
    ensures r > 0
  {
    if k == 0 then 1 else 256 * Range(k - 1)
  }

  lemma {:induction false} BigEndianRoundTrip(n: nat, k: nat)
    requires n < Range(k)
    ensures FromBigEndian(BigEndian(n, k)) == n
  {
    if k > 0 {
      BigEndianRoundTrip(n / 256, k - 1);
      var b := BigEndian(n, k);
      assert b[..k - 1] == BigEndian(n / 256, k - 1) && b[k - 1] == n % 256;
    }
  }

  lemma {:induction false} FromBigEndianRoundTrip(b: Bytes)
    ensures FromBigEndian(b) < Range(|b|) && BigEndian(FromBigEndian(b), |b|) == b
  {
    if b != [] {
      var front, low: int := b[..|b| - 1], b[|b| - 1];
      FromBigEndianRoundTrip(front);
      DivMod256(FromBigEndian(front), low);
      assert b == front + [low];
    }
  }

  /** The first byte weighs most. */
  lemma {:induction false} MostSignificantFirst(x: Byte, b: Bytes)
    ensures FromBigEndian([x] + b) == x as int * Range(|b|) + FromBigEndian(b)
  {
    var s := [x] + b;
    if b == [] {
      assert s[..0] == [] && s == [x];
    } else {
      var front := b[..|b| - 1];
      assert s[..|b|] == [x] + front;
      MostSignificantFirst(x, front);
    }
  }

  lemma DivMod256(q: int, r: int)
    requires 0 <= r < 256
    ensures (256 * q + r) / 256 == q && (256 * q + r) % 256 == r
  {
  }
}
