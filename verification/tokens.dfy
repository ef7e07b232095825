/** The beam identifier tokens the reports print: the literal prefix `cfbf00`
    followed by the beam's positional index, zero-padded to at least three
    decimal digits (Python's `"cfbf00{:03d}".format(i)`). */
module Tokens {
  import opened Wrappers

  const Prefix: string := "cfbf00"

  predicate IsDigit(c: char) { '0' <= c <= '9' }

  predicate AllDigits(s: string) { forall k :: 0 <= k < |s| ==> IsDigit(s[k]) }

  function DigitChar(d: nat): (c: char)
    requires d < 10
    ensures IsDigit(c) && c as int - '0' as int == d
  {
    ('0' as int + d) as char
  }

  /** The decimal rendering of `n` without leading zeros (Python's `str(n)`). */
  function Decimal(n: nat): (s: string)
    ensures |s| >= 1 && AllDigits(s)
    decreases n
  {
    if n < 10 then [DigitChar(n)] else Decimal(n / 10) + [DigitChar(n % 10)]
  }

  /** The value of a string of decimal digits; leading zeros add nothing. */
  function ParseDecimal(s: string): (n: nat)
    requires AllDigits(s)
    decreases |s|
  {
    if s == [] then 0
    else ParseDecimal(s[..|s| - 1]) * 10 + (s[|s| - 1] as int - '0' as int)
  }

  function Zeros(k: nat): (z: string)
    ensures |z| == k && AllDigits(z)
  {
    seq(k, _ => '0')
  }

  /** The `{:03d}` format: pad on the left with zeros up to width 3, never truncate. */
  function Pad3(digits: string): (s: string)
  {
    if |digits| >= 3 then digits else Zeros(3 - |digits|) + digits
  }

  /** The token printed for beam index `i`. */
  function Token(i: nat): (t: string)
    ensures |t| >= |Prefix| + 3 && t[..|Prefix|] == Prefix && AllDigits(t[|Prefix|..])
  {
    var digits := Pad3(Decimal(i));
    assert (Prefix + digits)[|Prefix|..] == digits;
    Prefix + digits
  }

  /** Reads a token back to the beam index it names, if it is one. */
  function TokenIndex(t: string): (r: Option<nat>)
  {
    if |t| > |Prefix| && t[..|Prefix|] == Prefix && AllDigits(t[|Prefix|..])
    then Some(ParseDecimal(t[|Prefix|..]))
    else None
  }

  lemma {:induction false} ParseDecimalOfDecimal(n: nat)
    ensures ParseDecimal(Decimal(n)) == n
    decreases n
  {
    if n >= 10 {
      var s := Decimal(n);
      assert s[..|s| - 1] == Decimal(n / 10);
      ParseDecimalOfDecimal(n / 10);
    }
  }

  lemma {:induction false} ParseDecimalZeros(k: nat)
    ensures ParseDecimal(Zeros(k)) == 0
  {
    if k > 0 {
      assert Zeros(k)[..k - 1] == Zeros(k - 1);
      ParseDecimalZeros(k - 1);
    }
  }

  /** Leading zeros do not change the value read. */
  lemma {:induction false} ParseDecimalPadded(k: nat, s: string)
    requires AllDigits(s)
    ensures AllDigits(Zeros(k) + s) && ParseDecimal(Zeros(k) + s) == ParseDecimal(s)
    decreases |s|
  {
    if s == [] {
      assert Zeros(k) + s == Zeros(k);
      ParseDecimalZeros(k);
    } else {
      var t := Zeros(k) + s;
      assert t[..|t| - 1] == Zeros(k) + s[..|s| - 1];
      ParseDecimalPadded(k, s[..|s| - 1]);
    }
  }

  /** A token names exactly the beam it was made for. */
  lemma TokenRoundTrip(i: nat)
    ensures TokenIndex(Token(i)) == Some(i)
  {
    var d := Decimal(i);
    var t := Token(i);
    assert t[|Prefix|..] == Pad3(d);
    ParseDecimalOfDecimal(i);
    if |d| < 3 {
      ParseDecimalPadded(3 - |d|, d);
    }
  }

  /** Different beams never share a token. */
  lemma TokenInjective(i: nat, j: nat)
    requires Token(i) == Token(j)
    ensures i == j
  {
    TokenRoundTrip(i);
    TokenRoundTrip(j);
  }

  /** Beams 0 to 999 get the nine-character form, such as `cfbf00007`. */
  lemma TokenWidth(i: nat)
    requires i < 1000
    ensures |Token(i)| == 9
  {
    if i >= 10 {
      if i >= 100 {
        assert |Decimal(i / 10 / 10)| == 1;
      }
      assert |Decimal(i / 10)| <= 2;
    }
  }

  /** The token list printed for a bucket of beam indices: same length and
      order, each entry the token of the index at the same position. */
  function TokenList(beams: seq<nat>): (ts: seq<string>)
    ensures |ts| == |beams|
  {
    seq(|beams|, k requires 0 <= k < |beams| => Token(beams[k]))
  }

  /** The token list can be read back to the bucket it was made from, and beam
      `i`'s token is printed exactly when `i` is in the bucket. */
  lemma TokenListFaithful(beams: seq<nat>, i: nat)
    ensures forall k :: 0 <= k < |beams| ==> TokenIndex(TokenList(beams)[k]) == Some(beams[k])
    ensures Token(i) in TokenList(beams) <==> i in beams
  {
    var ts := TokenList(beams);
    forall k | 0 <= k < |beams| ensures TokenIndex(ts[k]) == Some(beams[k]) {
      TokenRoundTrip(beams[k]);
    }
    if Token(i) in ts {
      var k :| 0 <= k < |ts| && ts[k] == Token(i);
      TokenInjective(beams[k], i);
    }
    if i in beams {
      var k :| 0 <= k < |beams| && beams[k] == i;
      assert ts[k] == Token(i);
    }
  }
}
