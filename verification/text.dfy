/**
 * Python's whitespace handling as used by the chunker: `str.split()` with no
 * separator, `" ".join(...)` and `str.strip()`.
 */
module Text {

  /** The characters Python's `str.split()` and `str.strip()` treat as whitespace. */
  predicate IsSpace(c: char)
  {
    || c == ' ' || c == '\t' || c == '\n' || c == '\r'
    || c == '\U{B}' || c == '\U{C}'
    || ('\U{1C}' <= c <= '\U{1F}')
    || c == '\U{85}' || c == '\U{A0}' || c == '\U{1680}'
    || ('\U{2000}' <= c <= '\U{200A}')
    || c == '\U{2028}' || c == '\U{2029}' || c == '\U{202F}' || c == '\U{205F}' || c == '\U{3000}'
  }

  predicate AllSpace(s: string)
  {
    forall i :: 0 <= i < |s| ==> IsSpace(s[i])
  }

  /** A word as `str.split()` yields it: non-empty and free of whitespace. */
  predicate IsWord(w: string)
  {
    |w| > 0 && forall i :: 0 <= i < |w| ==> !IsSpace(w[i])
  }

  predicate AllWords(ws: seq<string>)
  {
    forall i :: 0 <= i < |ws| ==> IsWord(ws[i])
  }

  /** Length of the longest whitespace-free prefix of `s`. */
  function WordLength(s: string): (k: nat)
    ensures k <= |s|
    ensures forall i :: 0 <= i < k ==> !IsSpace(s[i])
    ensures k == |s| || IsSpace(s[k])
  {
    if |s| == 0 || IsSpace(s[0]) then 0 else 1 + WordLength(s[1..])
  }

  /** `s.split()`: the maximal whitespace-free runs of `s`, in order. */
  function Words(s: string): seq<string>
    decreases |s|
  {
    if |s| == 0 then []
    else if IsSpace(s[0]) then Words(s[1..])
    else
      var k := WordLength(s);
      [s[..k]] + Words(s[k..])
  }

  /** Every piece `s.split()` yields is a non-empty whitespace-free word. */
  lemma {:induction false} WordsAreWords(s: string)
    ensures AllWords(Words(s))
    decreases |s|
  {
    if |s| > 0 {
      if IsSpace(s[0]) {
        WordsAreWords(s[1..]);
      } else {
        var k := WordLength(s);
        WordsAreWords(s[k..]);
        assert IsWord(s[..k]);
      }
    }
  }

  /** `s.split()` is empty exactly when `s` is empty or all whitespace. */
  lemma {:induction false} WordsEmptyIffBlank(s: string)
    ensures Words(s) == [] <==> AllSpace(s)
    decreases |s|
  {
    if |s| > 0 && IsSpace(s[0]) {
      WordsEmptyIffBlank(s[1..]);
      assert forall i :: 0 < i < |s| ==> s[i] == s[1..][i - 1];
    }
  }

  /** `" ".join(ws)`. */
  function JoinSpace(ws: seq<string>): string
  {
    if |ws| == 0 then ""
    else if |ws| == 1 then ws[0]
    else ws[0] + " " + JoinSpace(ws[1..])
  }

  /** `s.lstrip()`. */
  function TrimLeft(s: string): string
  {
    if |s| == 0 || !IsSpace(s[0]) then s else TrimLeft(s[1..])
  }

  /** `lstrip` removes a whitespace prefix and stops at the first other character. */
  lemma {:induction false} TrimLeftSpec(s: string)
    ensures var r := TrimLeft(s);
      && |r| <= |s| && r == s[|s| - |r|..]
      && AllSpace(s[..|s| - |r|])
      && (r == [] || !IsSpace(r[0]))
  {
    if |s| > 0 && IsSpace(s[0]) {
      TrimLeftSpec(s[1..]);
      var r := TrimLeft(s);
      assert s[..|s| - |r|] == [s[0]] + s[1..][..|s| - 1 - |r|];
    }
  }

  /** `s.rstrip()`. */
  function TrimRight(s: string): string
  {
    if |s| == 0 || !IsSpace(s[|s| - 1]) then s else TrimRight(s[..|s| - 1])
  }

  /** `rstrip` removes a whitespace suffix and stops at the last other character. */
  lemma {:induction false} TrimRightSpec(s: string)
    ensures var r := TrimRight(s);
      && |r| <= |s| && r == s[..|r|]
      && AllSpace(s[|r|..])
      && (r == [] || !IsSpace(r[|r| - 1]))
  {
    if |s| > 0 && IsSpace(s[|s| - 1]) {
      TrimRightSpec(s[..|s| - 1]);
      var r := TrimRight(s);
      assert s[|r|..] == s[..|s| - 1][|r|..] + [s[|s| - 1]];
    }
  }

  /** `s.strip()`. */
  function Strip(s: string): string
  {
    TrimRight(TrimLeft(s))
  }

  /** `s.strip()` is falsy exactly when `s` holds nothing but whitespace. */
  lemma StripEmpty(s: string)
    ensures Strip(s) == [] <==> AllSpace(s)
  {
    var l := TrimLeft(s);
    TrimLeftSpec(s);
    TrimRightSpec(l);
    if Strip(s) == [] {
      assert AllSpace(l[0..]);
      assert s == s[..|s| - |l|] + l;
    }
  }

  /** Splitting a word followed by a whitespace-led (or empty) tail. */
  lemma {:induction false} WordsOfWordThenRest(w: string, t: string)
    requires IsWord(w)
    requires t == [] || IsSpace(t[0])
    ensures Words(w + t) == [w] + Words(t)
  {
    var s := w + t;
    WordLengthOfWord(w, t);
    assert s[..|w|] == w;
    assert s[|w|..] == t;
  }

  lemma {:induction false} WordLengthOfWord(w: string, t: string)
    requires forall i :: 0 <= i < |w| ==> !IsSpace(w[i])
    requires t == [] || IsSpace(t[0])
    ensures WordLength(w + t) == |w|
    decreases |w|
  {
    if |w| > 0 {
      assert (w + t)[1..] == w[1..] + t;
      WordLengthOfWord(w[1..], t);
    } else {
      assert w + t == t;
    }
  }

  /** Re-splitting a single-space join gives back the words: `" ".join` and `split` are inverse. */
  lemma {:induction false} WordsOfJoin(ws: seq<string>)
    requires AllWords(ws)
    ensures Words(JoinSpace(ws)) == ws
  {
    if |ws| == 0 {
    } else if |ws| == 1 {
      WordsOfWordThenRest(ws[0], "");
      assert ws[0] + "" == ws[0];
    } else {
      var rest := JoinSpace(ws[1..]);
      assert ws[0] + " " + rest == ws[0] + (" " + rest);
      WordsOfWordThenRest(ws[0], " " + rest);
      assert (" " + rest)[1..] == rest;
      WordsOfJoin(ws[1..]);
      assert ws == [ws[0]] + ws[1..];
    }
  }

  /** A join of at least one word survives `strip()`. */
  lemma JoinNotBlank(ws: seq<string>)
    requires AllWords(ws) && |ws| > 0
    ensures Strip(JoinSpace(ws)) != []
  {
    WordsOfJoin(ws);
    WordsEmptyIffBlank(JoinSpace(ws));
    StripEmpty(JoinSpace(ws));
  }
}
