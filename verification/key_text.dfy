/**
  Text of a calendar bucket key: integers written in decimal as `operator<<`
  writes them (no padding, a leading `-` for negatives), and a list of such
  pieces joined with `-`. Parsing functions give the inverse for keys whose
  fields are all non-negative.
 */
module KeyText {
  import opened Optional

  predicate IsDigit(c: char)
  {
    '0' <= c <= '9'
  }

  function DigitChar(d: nat): (c: char)
    requires d < 10
    ensures IsDigit(c)
  {
    ('0' as int + d) as char
  }

  /** The decimal digits of `n`, most significant first, without leading zeros. */
  function Digits(n: nat): (r: string)
    ensures |r| > 0
    ensures forall i | 0 <= i < |r| :: IsDigit(r[i])
    decreases n
  {
    if n < 10 then [DigitChar(n)] else Digits(n / 10) + [DigitChar(n % 10)]
  }

  /** `n` written in decimal with a `-` in front when negative. */
  function Decimal(n: int): string
  {
    if n < 0 then "-" + Digits(-n) else Digits(n)
  }

  function DigitValue(c: char): (d: nat)
    requires IsDigit(c)
    ensures d < 10
  {
    c as int - '0' as int
  }

  /** The number a string of decimal digits denotes. */
  function DigitsValue(s: string): nat
    requires forall i | 0 <= i < |s| :: IsDigit(s[i])
  {
    if |s| == 0 then 0
    else 10 * DigitsValue(s[..|s| - 1]) + DigitValue(s[|s| - 1])
  }

  function ParseNat(s: string): Option<nat>
  {
    if |s| > 0 && forall i | 0 <= i < |s| :: IsDigit(s[i]) then Some(DigitsValue(s)) else None
  }

  /** Decimal output of a non-negative number reads back as that number, and has no padding. */
  lemma {:induction false} ParseDigits(n: nat)
    ensures ParseNat(Digits(n)) == Some(n)
    ensures |Digits(n)| > 1 ==> Digits(n)[0] != '0'
    decreases n
  {
    var r := Digits(n);
    assert DigitValue(r[|r| - 1]) == n % 10;
    if n >= 10 {
      ParseDigits(n / 10);
      assert r[..|r| - 1] == Digits(n / 10);
      assert r[0] == Digits(n / 10)[0];
      assert DigitsValue(r[..|r| - 1]) == n / 10;
    } else {
      assert r[..|r| - 1] == [];
    }
    assert DigitsValue(r) == 10 * DigitsValue(r[..|r| - 1]) + n % 10;
  }

  /** Every piece, separated from the next by one `-`. */
  function Join(xs: seq<string>): string
  {
    if |xs| == 0 then ""
    else if |xs| == 1 then xs[0]
    else xs[0] + "-" + Join(xs[1..])
  }

  /** Appending a piece adds a separator only when something precedes it. */
  lemma {:induction false} JoinSnoc(xs: seq<string>, x: string)
    ensures Join(xs + [x]) == Join(xs) + (if |xs| == 0 then "" else "-") + x
    decreases |xs|
  {
    if |xs| == 1 {
      assert xs + [x] == [xs[0], x];
      assert [xs[0], x][1..] == [x];
    } else if |xs| > 1 {
      assert (xs + [x])[1..] == xs[1..] + [x];
      JoinSnoc(xs[1..], x);
    }
  }

  /** The position of the first `-` in `s`. */
  function DashIndex(s: string): (i: nat)
    requires '-' in s
    ensures i < |s| && s[i] == '-'
    ensures '-' !in s[..i]
  {
    if s[0] == '-' then 0 else 1 + DashIndex(s[1..])
  }

  /** The pieces of `s` between its `-` separators. */
  function Split(s: string): (r: seq<string>)
    ensures |r| > 0
    decreases |s|
  {
    if '-' !in s then [s]
    else
      var i := DashIndex(s);
      [s[..i]] + Split(s[i + 1..])
  }

  /** Splitting undoes joining, as long as no piece holds a `-` itself. */
  lemma {:induction false} SplitJoin(xs: seq<string>)
    requires |xs| > 0
    requires forall i | 0 <= i < |xs| :: '-' !in xs[i]
    ensures Split(Join(xs)) == xs
    decreases |xs|
  {
    if |xs| > 1 {
      var x, rest := xs[0], Join(xs[1..]);
      var s := x + "-" + rest;
      assert Join(xs) == s;
      FirstDashAfter(x, rest);
      assert s[..|x|] == x;
      assert s[|x| + 1..] == rest;
      assert Split(s) == [x] + Split(rest);
      SplitJoin(xs[1..]);
      assert xs == [x] + xs[1..];
    }
  }

  /** In `x + "-" + rest`, with no dash in `x`, the first dash is the one after `x`. */
  lemma {:induction false} FirstDashAfter(x: string, rest: string)
    requires '-' !in x
    ensures '-' in x + "-" + rest
    ensures DashIndex(x + "-" + rest) == |x|
    decreases |x|
  {
    var s := x + "-" + rest;
    assert s[|x|] == '-';
    if |x| > 0 {
      assert s[0] == x[0];
      assert s[1..] == x[1..] + "-" + rest;
      FirstDashAfter(x[1..], rest);
    }
  }

  /** The numbers a `-`-joined key is made of, if every piece is decimal digits. */
  function ParseFields(pieces: seq<string>): Option<seq<nat>>
  {
    if |pieces| == 0 then Some([])
    else
      match (ParseNat(pieces[0]), ParseFields(pieces[1..]))
      case (Some(n), Some(ns)) => Some([n] + ns)
      case _ => None
  }

  lemma ParseFieldsCons(pieces: seq<string>, n: nat, ns: seq<nat>)
    requires |pieces| > 0
    requires ParseNat(pieces[0]) == Some(n)
    requires ParseFields(pieces[1..]) == Some(ns)
    ensures ParseFields(pieces) == Some([n] + ns)
  {
  }
}
