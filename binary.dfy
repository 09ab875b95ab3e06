/** `format(index, f"0{n}b")`, which names the keys of the `c` template in `deconv`
    (`scripts/.ipynb_checkpoints/algorithm-checkpoint.py`): the binary digits of `index`
    without leading zeros, padded on the left with '0' to width `n`. */
module BinaryFormat {
  import opened Hamming

  function Pow2(n: nat): (r: nat)
    ensures r >= 1
  {
    if n == 0 then 1 else 2 * Pow2(n - 1)
  }

  function Bit(b: nat): char
    requires b < 2
  {
    if b == 0 then '0' else '1'
  }

  function BitValue(c: char): nat {
    if c == '1' then 1 else 0
  }

  /** `format(i, "b")`: the shortest binary numeral, "0" for zero. */
  function Digits(i: nat): (r: string)
    ensures |r| >= 1 && IsBitString(r)
  {
    if i < 2 then [Bit(i)] else Digits(i / 2) + [Bit(i % 2)]
  }

  function Zeros(k: nat): (r: string)
    ensures |r| == k && forall j :: 0 <= j < k ==> r[j] == '0'
  {
    if k == 0 then [] else Zeros(k - 1) + ['0']
  }

  /** `format(i, f"0{n}b")`: zero padding to at least `n` characters. */
  function ToBinary(i: nat, n: nat): string {
    var d := Digits(i);
    if |d| < n then Zeros(n - |d|) + d else d
  }

  /** The `n`-bit numeral of `i` modulo 2^n, least significant bit last. */
  function Fixed(i: nat, n: nat): (r: string)
    ensures |r| == n && IsBitString(r)
  {
    if n == 0 then [] else Fixed(i / 2, n - 1) + [Bit(i % 2)]
  }

  /** The value of a bit string read as a binary numeral. */
  function FromBinary(s: string): nat {
    if s == [] then 0 else 2 * FromBinary(s[..|s| - 1]) + BitValue(s[|s| - 1])
  }

  lemma {:induction false} FixedZero(n: nat)
    ensures Fixed(0, n) == Zeros(n)
  {
    if n > 0 { FixedZero(n - 1); }
  }

  /** Python's padded numeral of a number below 2^n is its n-bit numeral. */
  lemma {:induction false} ToBinaryIsFixed(i: nat, n: nat)
    requires 1 <= n && i < Pow2(n)
    ensures ToBinary(i, n) == Fixed(i, n)
  {
    if n == 1 {
      assert i < 2;
    } else if i < 2 {
      FixedZero(n - 1);
      assert Zeros(n - 1) + [Bit(i)] == Zeros(n - 1) + [Bit(i % 2)];
    } else {
      ToBinaryIsFixed(i / 2, n - 1);
      var d := Digits(i / 2);
      assert |d| <= n - 1 by {
        assert |ToBinary(i / 2, n - 1)| == n - 1;
      }
      if |d| < n - 1 {
        assert Zeros(n - 1 - |d|) + (d + [Bit(i % 2)]) == (Zeros(n - 1 - |d|) + d) + [Bit(i % 2)];
      }
    }
  }

  lemma {:induction false} FromFixed(i: nat, n: nat)
    requires i < Pow2(n)
    ensures FromBinary(Fixed(i, n)) == i
  {
    if n > 0 {
      var s := Fixed(i, n);
      assert s[..|s| - 1] == Fixed(i / 2, n - 1);
      FromFixed(i / 2, n - 1);
    }
  }

  lemma {:induction false} FixedFrom(s: string)
    requires IsBitString(s)
    ensures FromBinary(s) < Pow2(|s|)
    ensures Fixed(FromBinary(s), |s|) == s
  {
    if s != [] {
      var init := s[..|s| - 1];
      assert IsBitString(init) by {
        forall j | 0 <= j < |init| ensures init[j] == '0' || init[j] == '1' { assert init[j] == s[j]; }
      }
      FixedFrom(init);
      var v := FromBinary(s);
      assert v / 2 == FromBinary(init) && v % 2 == BitValue(s[|s| - 1]);
      assert s == init + [s[|s| - 1]];
    }
  }

  /** Round trip: the numeral of a number below 2^n is an n-bit string with that value, and
      every n-bit string is the numeral of its value (for n >= 1). */
  lemma BinaryRoundTrip(i: nat, s: string, n: nat)
    requires 1 <= n
    ensures i < Pow2(n) ==>
              |ToBinary(i, n)| == n && IsBitString(ToBinary(i, n)) && FromBinary(ToBinary(i, n)) == i
    ensures IsBitString(s) && |s| == n ==>
              FromBinary(s) < Pow2(n) && ToBinary(FromBinary(s), n) == s
  {
    if i < Pow2(n) {
      ToBinaryIsFixed(i, n);
      FromFixed(i, n);
    }
    if IsBitString(s) && |s| == n {
      FixedFrom(s);
      ToBinaryIsFixed(FromBinary(s), n);
    }
  }

  /** The keys `format(index, f"0{n}b")` for `index in range(m)`. */
  function KeysBelow(m: nat, n: nat): set<string> {
    if m == 0 then {} else KeysBelow(m - 1, n) + {ToBinary(m - 1, n)}
  }

  /** The keys of the `c` template: one per `index in range(2**n)`. */
  function TemplateKeys(n: nat): set<string> {
    KeysBelow(Pow2(n), n)
  }

  lemma {:induction false} KeysBelowMembers(m: nat, n: nat, k: string)
    ensures k in KeysBelow(m, n) <==> exists i :: 0 <= i < m && ToBinary(i, n) == k
  {
    if m > 0 { KeysBelowMembers(m - 1, n, k); }
  }

  lemma {:induction false} KeysBelowSize(m: nat, n: nat)
    requires 1 <= n && m <= Pow2(n)
    ensures |KeysBelow(m, n)| == m
  {
    if m > 0 {
      KeysBelowSize(m - 1, n);
      var k := ToBinary(m - 1, n);
      if k in KeysBelow(m - 1, n) {
        KeysBelowMembers(m - 1, n, k);
        var i :| 0 <= i < m - 1 && ToBinary(i, n) == k;
        BinaryRoundTrip(i, "", n);
        BinaryRoundTrip(m - 1, "", n);
        assert false;
      }
    }
  }

  /** The template has exactly 2^n keys, and for n >= 1 they are exactly the n-bit strings. */
  lemma TemplateKeysExact(n: nat)
    ensures |TemplateKeys(n)| == Pow2(n)
    ensures n >= 1 ==> forall k :: k in TemplateKeys(n) <==> IsBitString(k) && |k| == n
  {
    if n == 0 {
      assert TemplateKeys(0) == {"0"};
    } else {
      KeysBelowSize(Pow2(n), n);
      forall k ensures k in TemplateKeys(n) <==> IsBitString(k) && |k| == n {
        KeysBelowMembers(Pow2(n), n, k);
        if k in TemplateKeys(n) {
          var i :| 0 <= i < Pow2(n) && ToBinary(i, n) == k;
          BinaryRoundTrip(i, k, n);
        }
        if IsBitString(k) && |k| == n {
          BinaryRoundTrip(0, k, n);
        }
      }
    }
  }
}
