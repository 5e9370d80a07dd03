/** Fixed-width unsigned integers in either byte order. */
module ByteOrder {
  import opened Text

  function Power256(k: nat): nat {
    if k == 0 then 1 else 256 * Power256(k - 1)
  }

  /** The `k` low bytes of `n`, least significant first. */
  function Little(n: nat, k: nat): (b: Bytes)
    ensures |b| == k
    decreases k
  {
    if k == 0 then [] else [(n % 256) as byte] + Little(n / 256, k - 1)
  }

  function FromLittle(b: Bytes): nat {
    if b == [] then 0 else b[0] as nat + 256 * FromLittle(b[1..])
  }

  lemma LastDigit(rest: nat, digit: nat)
    requires digit < 256
    ensures (256 * rest + digit) % 256 == digit && (256 * rest + digit) / 256 == rest
  {
  }

  lemma {:induction false} LittleOfFrom(b: Bytes)
    ensures FromLittle(b) < Power256(|b|) && Little(FromLittle(b), |b|) == b
  {
    if b != [] {
      LittleOfFrom(b[1..]);
      LastDigit(FromLittle(b[1..]), b[0] as nat);
    }
  }

  lemma {:induction false} FromOfLittle(n: nat, k: nat)
    requires n < Power256(k)
    ensures FromLittle(Little(n, k)) == n
    decreases k
  {
    if k > 0 {
      FromOfLittle(n / 256, k - 1);
      assert Little(n, k)[1..] == Little(n / 256, k - 1);
    }
  }

  /** The `k` low bytes of `n`, most significant first. */
  function Big(n: nat, k: nat): (b: Bytes)
    ensures |b| == k
    decreases k
  {
    if k == 0 then [] else Big(n / 256, k - 1) + [(n % 256) as byte]
  }

  function FromBig(b: Bytes): nat {
    if b == [] then 0 else 256 * FromBig(b[..|b| - 1]) + b[|b| - 1] as nat
  }

  lemma {:induction false} FromOfBig(n: nat, k: nat)
    requires n < Power256(k)
    ensures FromBig(Big(n, k)) == n
    decreases k
  {
    if k > 0 {
      FromOfBig(n / 256, k - 1);
      assert Big(n, k)[..k - 1] == Big(n / 256, k - 1);
    }
  }

  lemma {:induction false} BigOfFrom(b: Bytes)
    ensures FromBig(b) < Power256(|b|) && Big(FromBig(b), |b|) == b
  {
    if b != [] {
      var k, last := |b| - 1, b[|b| - 1];
      BigOfFrom(b[..k]);
      LastDigit(FromBig(b[..k]), last as nat);
      assert b == b[..k] + [last];
    }
  }
}
