/**
 * The record numbers both repositories hand out: a fixed prefix followed by a
 * number written with at least four digits (`$"{prefix}{n:D4}"`).
 */
module Codes {
  import opened Wrappers
  import opened Text

  /** `prefix + n.ToString("D4")`: exactly four digits below 10000, zero-padded on the left. */
  function FormatCode(prefix: string, n: nat): (r: string)
    ensures |r| >= |prefix| + 4 && r[..|prefix|] == prefix
    ensures AllDigits(r[|prefix|..])
    ensures n < 10000 ==> |r| == |prefix| + 4
  {
    FourDigitWidth(n);
    prefix + FormatNumber(n, 4)
  }

  /** The first code a table hands out: `prefix` and `0001`. */
  lemma FirstCode(prefix: string)
    ensures FormatCode(prefix, 1) == prefix + "0001"
  {
    var d := DecimalDigits(1);
    assert d == "1";
    assert PadLeft(d, 4, '0') == seq(3, _ => '0') + d;
    assert seq(3, _ => '0') + d == "0001";
  }

  /** `D4` pads a number below 10000 to exactly four digits. */
  lemma FourDigitWidth(n: nat)
    ensures n < 10000 ==> |FormatNumber(n, 4)| == 4
  {
    if n < 10000 {
      assert Pow10(4) == 10000 by {
        assert Pow10(1) == 10;
        assert Pow10(3) == 1000;
      }
      FormatNumberWidth(n, 4);
    }
  }

  /** The number after `prefix` in `code`, when `code` has that shape. */
  function CodeNumber(prefix: string, code: string): (r: Option<nat>)
    ensures r.Some? ==> |code| > |prefix| && code[..|prefix|] == prefix
  {
    if |code| >= |prefix| && code[..|prefix|] == prefix then ParseNumber(code[|prefix|..]) else None
  }

  /** Round trip: the number a code was made from can be read back out of it. */
  lemma CodeNumberOfFormat(prefix: string, n: nat)
    ensures CodeNumber(prefix, FormatCode(prefix, n)) == Some(n)
  {
    var r := FormatCode(prefix, n);
    assert r[|prefix|..] == FormatNumber(n, 4);
    ParseFormatNumber(n, 4);
  }
}
