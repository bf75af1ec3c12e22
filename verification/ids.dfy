/**
 * Vector-record identifiers: Python's `str(i)` for a chunk index and the
 * `f"{file_name}-chunk-{i}"` key built from it.
 */
module RecordIds {
  import opened Wrappers

  predicate IsDigit(c: char)
  {
    '0' <= c <= '9'
  }

  predicate AllDigits(s: string)
  {
    forall i :: 0 <= i < |s| ==> IsDigit(s[i])
  }

  function DigitChar(d: nat): (c: char)
    requires d < 10
    ensures IsDigit(c)
  {
    ['0', '1', '2', '3', '4', '5', '6', '7', '8', '9'][d]
  }

  function DigitValue(c: char): (d: nat)
    requires IsDigit(c)
    ensures d < 10
  {
    (c - '0') as nat
  }

  /** `str(n)` for a non-negative integer: its decimal numeral, without leading zeros. */
  function NatToString(n: nat): (s: string)
    ensures |s| > 0 && AllDigits(s)
    ensures |s| > 1 ==> s[0] != '0'
  {
    if n < 10 then [DigitChar(n)] else NatToString(n / 10) + [DigitChar(n % 10)]
  }

  /** Reads a decimal numeral back into the number it denotes. */
  function ParseDecimal(s: string): nat
    requires AllDigits(s)
  {
    if |s| == 0 then 0 else 10 * ParseDecimal(s[..|s| - 1]) + DigitValue(s[|s| - 1])
  }

  lemma DigitRoundTrip(d: nat)
    requires d < 10
    ensures DigitValue(DigitChar(d)) == d
  {
  }

  /** Parsing the numeral `str(n)` gives back `n`. */
  lemma {:induction false} ParseNatToString(n: nat)
    ensures ParseDecimal(NatToString(n)) == n
  {
    DigitRoundTrip(n % 10);
    if n >= 10 {
      var s := NatToString(n);
      assert s[..|s| - 1] == NatToString(n / 10);
      ParseNatToString(n / 10);
    }
  }

  const ChunkInfix: string := "-chunk-"

  /** The id of chunk `i` of the file `fileName`. */
  function ChunkId(fileName: string, i: nat): string
  {
    fileName + ChunkInfix + NatToString(i)
  }

  /** Length of the run of decimal digits that ends `s`. */
  function TrailingDigits(s: string): (k: nat)
    ensures k <= |s|
    ensures AllDigits(s[|s| - k..])
    ensures k == |s| || !IsDigit(s[|s| - k - 1])
  {
    if |s| == 0 || !IsDigit(s[|s| - 1]) then 0
    else
      var k := 1 + TrailingDigits(s[..|s| - 1]);
      assert s[|s| - k..] == s[..|s| - 1][|s| - k..] + [s[|s| - 1]];
      k
  }

  /**
   * Recovers the file name and chunk index from a record id: the id ends in a
   * run of digits preceded by `-chunk-`.
   */
  function ParseChunkId(id: string): Option<(string, nat)>
  {
    var k := TrailingDigits(id);
    var head := id[..|id| - k];
    if k == 0 || |head| < |ChunkInfix| || head[|head| - |ChunkInfix|..] != ChunkInfix then None
    else Some((head[..|head| - |ChunkInfix|], ParseDecimal(id[|id| - k..])))
  }

  lemma {:induction false} TrailingDigitsOfNumeral(a: string, d: string)
    requires |a| > 0 && !IsDigit(a[|a| - 1])
    requires AllDigits(d)
    ensures TrailingDigits(a + d) == |d|
    decreases |d|
  {
    if |d| == 0 {
      assert a + d == a;
    } else {
      assert (a + d)[..|a + d| - 1] == a + d[..|d| - 1];
      TrailingDigitsOfNumeral(a, d[..|d| - 1]);
    }
  }

  /** An id can be taken apart again into the file name and chunk index it was built from. */
  lemma ParseChunkIdRoundTrip(fileName: string, i: nat)
    ensures ParseChunkId(ChunkId(fileName, i)) == Some((fileName, i))
  {
    var id := ChunkId(fileName, i);
    var digits := NatToString(i);
    assert id == (fileName + ChunkInfix) + digits;
    TrailingDigitsOfNumeral(fileName + ChunkInfix, digits);
    assert id[..|id| - |digits|] == fileName + ChunkInfix;
    assert id[|id| - |digits|..] == digits;
    ParseNatToString(i);
  }

  /** Two records share an id only if they come from the same file and chunk index. */
  lemma ChunkIdInjective(f: string, i: nat, g: string, j: nat)
    requires ChunkId(f, i) == ChunkId(g, j)
    ensures f == g && i == j
  {
    ParseChunkIdRoundTrip(f, i);
    ParseChunkIdRoundTrip(g, j);
  }
}
