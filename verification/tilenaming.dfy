/**
 * The file name of a tile: `<folder>tile_<ti>_<tj>.bin`, each index written
 * in decimal and zero-filled on the left to a width of two characters
 * (`std::setw(2)` with `std::setfill('0')`). Parsing a name back gives the
 * indices, so distinct tiles never share a file.
 */
module TileNaming {
  import opened Wrappers

  predicate IsDigit(c: char)
  {
    '0' <= c <= '9'
  }

  predicate AllDigits(s: string)
  {
    forall k :: 0 <= k < |s| ==> IsDigit(s[k])
  }

  function DigitChar(d: int): (c: char)
    requires 0 <= d < 10
    ensures IsDigit(c)
  {
    ('0' as int + d) as char
  }

  function DigitValue(c: char): int
  {
    c as int - '0' as int
  }

  /** Decimal digits of `n`, most significant first, without leading zeros. */
  function Digits(n: nat): (s: string)
    ensures 1 <= |s| && AllDigits(s)
    ensures n < 10 <==> |s| == 1
    decreases n
  {
    if n < 10 then [DigitChar(n)] else Digits(n / 10) + [DigitChar(n % 10)]
  }

  /** `n` as an output stream writes an `int`: a minus sign before negative values. */
  function Decimal(n: int): string
  {
    if n < 0 then "-" + Digits(-n) else Digits(n)
  }

  /** `n` fill characters `'0'`. */
  function Zeros(n: nat): (z: string)
    ensures |z| == n
    decreases n
  {
    if n == 0 then [] else Zeros(n - 1) + "0"
  }

  lemma {:induction false} ZerosAreZero(n: nat)
    ensures forall k :: 0 <= k < n ==> Zeros(n)[k] == '0'
    decreases n
  {
    if n > 0 {
      ZerosAreZero(n - 1);
    }
  }

  /** Left-pads `s` with `'0'` up to `width` characters; longer strings are kept whole. */
  function ZeroFill(s: string, width: nat): (t: string)
    ensures |t| == if |s| < width then width else |s|
    decreases width - |s|
  {
    if |s| < width then ZeroFill("0" + s, width) else s
  }

  /** The padding is fill characters only, with `s` kept whole at the end. */
  lemma {:induction false} ZeroFillIs(s: string, width: nat)
    ensures ZeroFill(s, width) == Zeros(|ZeroFill(s, width)| - |s|) + s
    decreases width - |s|
  {
    var t := ZeroFill(s, width);
    if |s| < width {
      ZeroFillIs("0" + s, width);
      var m := |t| - |s| - 1;
      assert Zeros(m + 1) == Zeros(m) + "0";
      assert Zeros(m) + ("0" + s) == Zeros(m) + "0" + s;
    } else {
      assert Zeros(0) + s == s;
    }
  }

  /** One tile index in a file name. */
  function Pad2(n: int): string
  {
    ZeroFill(Decimal(n), 2)
  }

  /** The path `readTile` opens for tile `(ti, tj)`. */
  function TileName(folder: string, ti: int, tj: int): string
  {
    folder + "tile_" + Pad2(ti) + "_" + Pad2(tj) + ".bin"
  }

  /** The value of a string of digits; leading zeros add nothing. */
  function ValueOf(s: string): nat
    requires AllDigits(s)
    decreases |s|
  {
    if s == [] then 0 else ValueOf(s[..|s| - 1]) * 10 + DigitValue(s[|s| - 1])
  }

  /** Reads one index back: an optional minus sign followed by at least one digit. */
  function ParseIndex(s: string): Option<int>
  {
    if |s| >= 2 && s[0] == '-' && AllDigits(s[1..]) then Some(0 - ValueOf(s[1..]))
    else if |s| >= 1 && AllDigits(s) then Some(ValueOf(s))
    else None
  }

  /** Position of the first `'_'` in `s`, or `|s|` when there is none. */
  function Underscore(s: string): (u: nat)
    ensures u <= |s| && (u < |s| ==> s[u] == '_')
    ensures forall k :: 0 <= k < u ==> s[k] != '_'
    decreases |s|
  {
    if s == [] then 0 else if s[0] == '_' then 0 else 1 + Underscore(s[1..])
  }

  /** Recovers `(ti, tj)` from a path built for `folder`, or `None`. */
  function ParseTileName(folder: string, s: string): Option<(int, int)>
  {
    var prefix := folder + "tile_";
    if |s| < |prefix| + 4 || s[..|prefix|] != prefix || s[|s| - 4..] != ".bin" then None
    else
      var body := s[|prefix|..|s| - 4];
      var u := Underscore(body);
      if u == |body| then None
      else
        match (ParseIndex(body[..u]), ParseIndex(body[u + 1..]))
        case (Some(ti), Some(tj)) => Some((ti, tj))
        case _ => None
  }

  lemma {:induction false} ValueOfDigits(n: nat)
    ensures ValueOf(Digits(n)) == n
    decreases n
  {
    if n >= 10 {
      var s := Digits(n);
      assert s[..|s| - 1] == Digits(n / 10);
      ValueOfDigits(n / 10);
    }
  }

  lemma {:induction false} ValueOfLeadingZeros(z: string, s: string)
    requires forall k :: 0 <= k < |z| ==> z[k] == '0'
    requires AllDigits(s)
    ensures AllDigits(z + s) && ValueOf(z + s) == ValueOf(s)
    decreases |z| + |s|
  {
    if s == [] {
      assert z + s == z;
      if z != [] {
        ValueOfLeadingZeros(z[..|z| - 1], s);
        assert z[..|z| - 1] + s == z[..|z| - 1];
      }
    } else {
      var s' := s[..|s| - 1];
      ValueOfLeadingZeros(z, s');
      assert (z + s)[..|z + s| - 1] == z + s';
    }
  }

  /** A zero-filled index reads back as the index, and holds no `'_'`. */
  lemma Pad2RoundTrip(n: int)
    ensures ParseIndex(Pad2(n)) == Some(n)
    ensures forall k :: 0 <= k < |Pad2(n)| ==> Pad2(n)[k] != '_'
  {
    if n < 0 {
      Pad2Negative(n);
    } else {
      Pad2NonNegative(n);
    }
  }

  /** A negative index is written as `-` and its digits, with no fill. */
  lemma Pad2Negative(n: int)
    requires n < 0
    ensures ParseIndex(Pad2(n)) == Some(n)
    ensures forall k :: 0 <= k < |Pad2(n)| ==> Pad2(n)[k] != '_'
  {
    var d := Digits(-n);
    var w := "-" + d;
    assert Decimal(n) == w && |w| >= 2;
    assert Pad2(n) == w;
    assert w[1..] == d && w[0] == '-';
    ValueOfDigits(-n);
    forall k | 0 <= k < |w|
      ensures w[k] != '_'
    {
      if k > 0 {
        assert w[k] == d[k - 1];
      }
    }
  }

  /** A non-negative index is its digits, zero-filled to two characters. */
  lemma Pad2NonNegative(n: int)
    requires n >= 0
    ensures ParseIndex(Pad2(n)) == Some(n)
    ensures forall k :: 0 <= k < |Pad2(n)| ==> Pad2(n)[k] != '_'
  {
    var d := Digits(n);
    var t := Pad2(n);
    ValueOfDigits(n);
    ZeroFillIs(d, 2);
    ZerosAreZero(|t| - |d|);
    ValueOfLeadingZeros(Zeros(|t| - |d|), d);
    assert t == Zeros(|t| - |d|) + d;
  }

  /** The prefix and suffix of a path are stripped off exactly. */
  lemma ParseTileNameBody(folder: string, a: string, b: string)
    requires forall k :: 0 <= k < |a| ==> a[k] != '_'
    ensures ParseTileName(folder, folder + "tile_" + a + "_" + b + ".bin")
         == match (ParseIndex(a), ParseIndex(b))
            case (Some(ti), Some(tj)) => Some((ti, tj))
            case _ => None
  {
    var prefix := folder + "tile_";
    var body := a + "_" + b;
    var s := folder + "tile_" + a + "_" + b + ".bin";
    assert s == prefix + body + ".bin";
    assert s[..|prefix|] == prefix;
    assert s[|s| - 4..] == ".bin";
    assert s[|prefix|..|s| - 4] == body;
    UnderscoreAfter(a, b);
    assert body[..|a|] == a;
    assert body[|a| + 1..] == b;
  }

  /** Every tile name decodes to the indices it was built from. */
  lemma TileNameRoundTrip(folder: string, ti: int, tj: int)
    ensures ParseTileName(folder, TileName(folder, ti, tj)) == Some((ti, tj))
  {
    Pad2RoundTrip(ti);
    Pad2RoundTrip(tj);
    ParseTileNameBody(folder, Pad2(ti), Pad2(tj));
  }

  lemma UnderscoreAfter(a: string, b: string)
    requires forall k :: 0 <= k < |a| ==> a[k] != '_'
    ensures Underscore(a + "_" + b) == |a|
  {
    var s := a + "_" + b;
    assert s[|a|] == '_';
    assert forall k :: 0 <= k < |a| ==> s[k] == a[k];
  }

  /** Hence two different tiles never map to the same file. */
  lemma TileNameInjective(folder: string, ti: int, tj: int, ti': int, tj': int)
    requires TileName(folder, ti, tj) == TileName(folder, ti', tj')
    ensures ti == ti' && tj == tj'
  {
    TileNameRoundTrip(folder, ti, tj);
    TileNameRoundTrip(folder, ti', tj');
  }
}
