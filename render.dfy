/**
 * The text `print` and `output` write for one bucket: the 1-based bucket
 * number in decimal, a colon and a tab, then the bucket's strings separated
 * by a comma and a space.
 */
module Render {
  import opened HashFunction

  const Colon: byte := 0x3A
  const Tab: byte := 0x09
  const Comma: byte := 0x2C
  const Space: byte := 0x20

  /** The separator written between two strings of a bucket. */
  const Separator: Bytes := [Comma, Space]

  /** The ASCII digits '0' to '9'. */
  const Digits: seq<byte> := [0x30, 0x31, 0x32, 0x33, 0x34, 0x35, 0x36, 0x37, 0x38, 0x39]

  predicate IsDigit(b: byte)
  {
    0x30 <= b <= 0x39
  }

  /** The value of an ASCII digit. */
  function DigitValue(b: byte): (d: nat)
    requires IsDigit(b)
    ensures d < 10 && Digits[d] == b
  {
    (b - 0x30) as int
  }

  /** `n` in decimal, as a stream writes an integer: most significant digit first, no leading zero. */
  function Decimal(n: nat): (r: Bytes)
    ensures |r| > 0
    ensures forall k :: 0 <= k < |r| ==> IsDigit(r[k])
    ensures r[0] == Digits[0] ==> n == 0
  {
    if n < 10 then [Digits[n]] else Decimal(n / 10) + [Digits[n % 10]]
  }

  /** Read a string of digits back as a number. */
  function ParseDecimal(s: Bytes): nat
    requires forall k :: 0 <= k < |s| ==> IsDigit(s[k])
  {
    if s == [] then 0 else 10 * ParseDecimal(s[..|s| - 1]) + DigitValue(s[|s| - 1])
  }

  /** Reading the decimal form gives back the number. */
  lemma {:induction false} DecimalRoundTrip(n: nat)
    ensures ParseDecimal(Decimal(n)) == n
  {
    var r := Decimal(n);
    if n < 10 {
      assert r[..0] == [];
    } else {
      assert r[..|r| - 1] == Decimal(n / 10);
      DecimalRoundTrip(n / 10);
    }
  }

  /** The strings of a bucket with one separator between neighbours and none after the last. */
  function Join(items: seq<Bytes>): Bytes
  {
    if items == [] then []
    else if |items| == 1 then items[0]
    else items[0] + Separator + Join(items[1..])
  }

  /** Cut a line at every comma that is followed by a space. */
  function Split(b: Bytes): (r: seq<Bytes>)
    ensures |r| > 0
    decreases |b|
  {
    if |b| < 2 then [b]
    else if b[0] == Comma && b[1] == Space then [[]] + Split(b[2..])
    else
      var rest := Split(b[1..]);
      [[b[0]] + rest[0]] + rest[1..]
  }

  /** The line `print` and `output` write for bucket `i`. */
  function Line(i: nat, items: seq<Bytes>): Bytes
  {
    Decimal(i + 1) + [Colon, Tab] + Join(items)
  }

  /** Joining one more string adds a separator and that string at the end. */
  lemma {:induction false} JoinSnoc(items: seq<Bytes>, x: Bytes)
    requires items != []
    ensures Join(items + [x]) == Join(items) + Separator + x
    decreases |items|
  {
    if |items| == 1 {
      assert (items + [x])[1..] == [x];
    } else {
      assert (items + [x])[1..] == items[1..] + [x];
      JoinSnoc(items[1..], x);
    }
  }

  /** A string without spaces is one field. */
  lemma {:induction false} SplitField(x: Bytes)
    requires Space !in x
    ensures Split(x) == [x]
    decreases |x|
  {
    if |x| >= 2 {
      assert x[1] in x;
      assert Space !in x[1..] by { assert forall y :: y in x[1..] ==> y in x; }
      SplitField(x[1..]);
      assert [x[0]] + x[1..] == x;
    }
  }

  /** A space-free field followed by a separator is cut off as the first field. */
  lemma {:induction false} SplitAfterField(x: Bytes, rest: Bytes)
    requires Space !in x
    ensures Split(x + Separator + rest) == [x] + Split(rest)
    decreases |x|
  {
    if x == [] {
      assert x + Separator + rest == [Comma, Space] + rest;
      assert ([Comma, Space] + rest)[2..] == rest;
    } else {
      var b := x + Separator + rest;
      assert b[0] == x[0];
      assert b[1] != Space by {
        if |x| == 1 { assert b[1] == Comma; } else { assert b[1] == x[1] && x[1] in x; }
      }
      assert Space !in x[1..] by { assert forall y :: y in x[1..] ==> y in x; }
      assert b[1..] == x[1..] + Separator + rest;
      SplitAfterField(x[1..], rest);
      assert [x[0]] + x[1..] == x;
    }
  }

  /**
   * The strings of a non-empty bucket can be read back from the joined text,
   * for tokens without spaces, which is what `>>` yields.
   */
  lemma {:induction false} SplitJoin(items: seq<Bytes>)
    requires items != []
    requires forall k :: 0 <= k < |items| ==> Space !in items[k]
    ensures Split(Join(items)) == items
    decreases |items|
  {
    if |items| == 1 {
      SplitField(items[0]);
    } else {
      SplitJoin(items[1..]);
      SplitAfterField(items[0], Join(items[1..]));
      assert [items[0]] + items[1..] == items;
    }
  }

  /** The joined text has no separator after the last string. */
  lemma JoinEndsWithLast(items: seq<Bytes>)
    requires items != []
    ensures var j := Join(items); var last := items[|items| - 1];
      |j| >= |last| && j[|j| - |last|..] == last
  {
    if |items| > 1 {
      var init := items[..|items| - 1];
      assert init + [items[|items| - 1]] == items;
      JoinSnoc(init, items[|items| - 1]);
    }
  }
}
