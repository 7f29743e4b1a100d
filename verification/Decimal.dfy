/** Decimal text of unsigned 64-bit numbers: the minimal form of tree sizes and the
    zero-padded 20-digit form of leaf file names. */
module Decimal {
  import opened Octets
  import opened Division

  predicate IsDigit(c: Byte) { 0x30 <= c <= 0x39 }

  predicate AllDigits(s: Bytes) { forall i :: 0 <= i < |s| ==> IsDigit(s[i]) }

  /** The number a digit string denotes. */
  function Value(s: Bytes): nat
    requires AllDigits(s)
  {
    if s == [] then 0 else 10 * Value(s[..|s| - 1]) + (s[|s| - 1] - 0x30)
  }

  /** Minimal form: no leading zero unless the number is 0. */
  function Minimal(n: nat): (s: Bytes)
    ensures s != [] && AllDigits(s)
    ensures s[0] == 0x30 ==> n == 0 && |s| == 1
  {
    if n < 10 then [0x30 + n] else Minimal(n / 10) + [0x30 + n % 10]
  }

  /** The last `width` digits, zero-padded. */
  function Padded(n: nat, width: nat): (s: Bytes)
    ensures |s| == width && AllDigits(s)
  {
    if width == 0 then [] else Padded(n / 10, width - 1) + [0x30 + n % 10]
  }

  function Exp10(e: nat): (p: nat)
    ensures p > 0
  {
    if e == 0 then 1 else 10 * Exp10(e - 1)
  }

  /** Strict tree-size text: digits, no leading zero unless "0", within u64. */
  function ParseMinimal(s: Bytes): Option<nat> {
    if s == [] || !AllDigits(s) then None
    else if |s| > 1 && s[0] == 0x30 then None
    else if Value(s) < U64_LIMIT then Some(Value(s)) else None
  }

  lemma {:induction false} ValueMinimal(n: nat)
    ensures Value(Minimal(n)) == n
  {
    if n >= 10 {
      ValueMinimal(n / 10);
      assert Minimal(n)[..|Minimal(n)| - 1] == Minimal(n / 10);
    }
  }

  lemma {:induction false} MinimalValue(s: Bytes)
    requires s != [] && AllDigits(s) && (|s| > 1 ==> s[0] != 0x30)
    ensures Minimal(Value(s)) == s
    ensures |s| > 1 ==> Value(s) >= 10
  {
    if |s| > 1 {
      var rest := s[..|s| - 1];
      MinimalValue(rest);
      assert rest[0] != 0x30 ==> Value(rest) > 0 by {
        if |rest| == 1 { assert rest[..0] == []; }
      }
      assert s == rest + [s[|s| - 1]];
    } else {
      assert s == [s[0]] && s[..0] == [];
    }
  }

  /** Parsing accepts exactly the minimal forms of u64 values. */
  lemma ParseMinimalExact(s: Bytes, n: nat)
    ensures ParseMinimal(s) == Some(n) <==> n < U64_LIMIT && s == Minimal(n)
  {
    hide Value, Minimal;
    ValueMinimal(n);
    if ParseMinimal(s).Some? {
      MinimalValue(s);
    }
  }

  lemma {:induction false} ValuePadded(n: nat, width: nat)
    requires n < Exp10(width)
    ensures Value(Padded(n, width)) == n
  {
    if width > 0 {
      ValuePadded(n / 10, width - 1);
      assert Padded(n, width)[..width - 1] == Padded(n / 10, width - 1);
    }
  }

  lemma {:induction false} PaddedValue(s: Bytes)
    requires AllDigits(s)
    ensures Padded(Value(s), |s|) == s && Value(s) < Exp10(|s|)
  {
    if s != [] {
      PaddedValue(s[..|s| - 1]);
      assert s == s[..|s| - 1] + [s[|s| - 1]];
    }
  }

  /** Every u64 has at most 20 digits. */
  lemma U64Has20Digits()
    ensures U64_LIMIT <= Exp10(20)
  {
    assert Exp10(10) == 10_000_000_000;
    assert Exp10(20) == 10_000_000_000 * Exp10(10);
  }

  /** The digit at each position, most significant first. */
  lemma {:induction false} PaddedAt(n: nat, width: nat, i: nat)
    requires i < width
    ensures Padded(n, width)[i] == 0x30 + n / Exp10(width - 1 - i) % 10
  {
    if i < width - 1 {
      PaddedAt(n / 10, width - 1, i);
      DivDiv(n, 10, Exp10(width - 2 - i));
    }
  }

  /** The same for the minimal form, which has no leading zero. */
  lemma {:induction false} MinimalAt(n: nat, i: nat)
    requires i < |Minimal(n)|
    ensures Minimal(n)[i] == 0x30 + n / Exp10(|Minimal(n)| - 1 - i) % 10
  {
    var k := |Minimal(n)| - 1;
    if n >= 10 && i < k {
      MinimalAt(n / 10, i);
      DivDiv(n, 10, Exp10(k - 1 - i));
    }
  }
}
