/** The strings puzzle (StringsConfig.java): a current string `start` and a goal string
    `end`. One move turns one letter of `start` one step forwards or back in the alphabet,
    with 'A' and 'Z' wrapping to each other. */
module Strings {
  import opened Common

  /** A Java `char`: one UTF-16 code unit. */
  newtype char16 = x: int | 0 <= x < 0x1_0000

  const LetterA: char16 := 65
  const LetterB: char16 := 66
  const LetterY: char16 := 89
  const LetterZ: char16 := 90

  predicate IsLetter(ch: char16)
  {
    LetterA <= ch <= LetterZ
  }

  datatype StringsConfig = StringsConfig(start: seq<char16>, end: seq<char16>)

  predicate IsSolution(c: StringsConfig)
  {
    c.start == c.end
  }

  /** Java's `(char)(ch + 1)` and `(char)(ch - 1)`: 16-bit wrap-around. */
  function Up(ch: char16): char16
  {
    ((ch as int + 1) % 0x1_0000) as char16
  }

  function Down(ch: char16): char16
  {
    ((ch as int - 1) % 0x1_0000) as char16
  }

  /** The two replacements `getNeighbors` tries for one character, in list order. */
  function Alternatives(ch: char16): (char16, char16)
  {
    if ch == LetterA then (LetterZ, LetterB)
    else if ch == LetterZ then (LetterA, LetterY)
    else (Up(ch), Down(ch))
  }

  /** The configuration the private constructor builds: `other` with `ch` at index `i`. */
  function Replace(other: StringsConfig, ch: char16, i: int): StringsConfig
    requires 0 <= i < |other.start|
  {
    StringsConfig(other.start[i := ch], other.end)
  }

  /** The private constructor: copies the string into a fresh character array, writes
      one slot, and makes the new string from the array. */
  method ReplaceAt(other: StringsConfig, ch: char16, i: int) returns (r: StringsConfig)
    requires 0 <= i < |other.start|
    ensures r == Replace(other, ch, i)
  {
    var s := other.start;
    var tempCh := new char16[|s|](j requires 0 <= j < |s| => s[j]);
    tempCh[i] := ch;
    r := StringsConfig(tempCh[..], other.end);
  }

  /** The neighbours generated for the first `n` indices, two per index. */
  function NeighborsUpTo(c: StringsConfig, n: nat): seq<StringsConfig>
    requires n <= |c.start|
  {
    if n == 0 then []
    else
      var alt := Alternatives(c.start[n - 1]);
      NeighborsUpTo(c, n - 1) + [Replace(c, alt.0, n - 1), Replace(c, alt.1, n - 1)]
  }

  /** The list `getNeighbors` returns. */
  function Neighbors(c: StringsConfig): seq<StringsConfig>
  {
    NeighborsUpTo(c, |c.start|)
  }

  /** `getNeighbors`: a loop over the indices appending two configurations per index. */
  method GetNeighbors(c: StringsConfig) returns (neighbors: seq<StringsConfig>)
    ensures neighbors == Neighbors(c)
  {
    neighbors := [];
    var i := 0;
    while i < |c.start|
      invariant 0 <= i <= |c.start|
      invariant neighbors == NeighborsUpTo(c, i)
    {
      var first, second;
      if c.start[i] == LetterA {
        first := ReplaceAt(c, LetterZ, i);
        second := ReplaceAt(c, LetterB, i);
      } else if c.start[i] == LetterZ {
        first := ReplaceAt(c, LetterA, i);
        second := ReplaceAt(c, LetterY, i);
      } else {
        first := ReplaceAt(c, Up(c.start[i]), i);
        second := ReplaceAt(c, Down(c.start[i]), i);
      }
      neighbors := neighbors + [first, second];
      i := i + 1;
    }
  }

  /** `equals` compares the current strings only. */
  predicate Equals(a: StringsConfig, b: StringsConfig)
  {
    a.start == b.start
  }

  /** `hashCode` is `start.hashCode() + end.hashCode()` in 32-bit arithmetic;
      `String.hashCode` is a parameter. */
  function HashCode(c: StringsConfig, stringHash: seq<char16> -> int32): int32
  {
    Wrap32(stringHash(c.start) + stringHash(c.end))
  }

  /** Both replacements differ from the character they replace. */
  lemma AlternativesDiffer(ch: char16)
    ensures Alternatives(ch).0 != ch && Alternatives(ch).1 != ch
  {
  }

  /** Positions `2 * i` and `2 * i + 1` of the list hold the two replacements at index `i`. */
  lemma {:induction false} NeighborsUpToAt(c: StringsConfig, n: nat, i: nat)
    requires n <= |c.start| && i < n
    ensures |NeighborsUpTo(c, n)| == 2 * n
    ensures NeighborsUpTo(c, n)[2 * i] == Replace(c, Alternatives(c.start[i]).0, i)
    ensures NeighborsUpTo(c, n)[2 * i + 1] == Replace(c, Alternatives(c.start[i]).1, i)
  {
    if i < n - 1 {
      NeighborsUpToAt(c, n - 1, i);
    } else if n > 1 {
      NeighborsUpToAt(c, n - 1, 0);
    }
  }

  /** `getNeighbors` returns exactly two configurations per index of the string. */
  lemma NeighborsCount(c: StringsConfig)
    ensures |Neighbors(c)| == 2 * |c.start|
  {
    if |c.start| > 0 {
      NeighborsUpToAt(c, |c.start|, 0);
    }
  }

  /** Every neighbour keeps the length and the goal, and differs from the current string
      at exactly one index (so it never equals it), where it holds one of the two
      replacements of that character. */
  lemma NeighborDiffersAtOneIndex(c: StringsConfig, k: nat)
    requires k < |Neighbors(c)|
    ensures var n, i := Neighbors(c)[k], k / 2;
      && |n.start| == |c.start| && n.end == c.end && i < |c.start|
      && n.start[i] != c.start[i]
      && n.start[i] == (if k % 2 == 0 then Alternatives(c.start[i]).0 else Alternatives(c.start[i]).1)
      && (forall j :: 0 <= j < |c.start| && j != i ==> n.start[j] == c.start[j])
      && n != c
  {
    NeighborsCount(c);
    var i := k / 2;
    NeighborsUpToAt(c, |c.start|, i);
    AlternativesDiffer(c.start[i]);
    assert k == 2 * i || k == 2 * i + 1;
  }

  /** Over the alphabet 'A'..'Z', every neighbour stays in the alphabet. */
  lemma NeighborsStayLetters(c: StringsConfig)
    requires forall j :: 0 <= j < |c.start| ==> IsLetter(c.start[j])
    ensures forall n, j :: n in Neighbors(c) && 0 <= j < |n.start| ==> IsLetter(n.start[j])
  {
    forall n, j | n in Neighbors(c) && 0 <= j < |n.start|
      ensures IsLetter(n.start[j])
    {
      var k :| 0 <= k < |Neighbors(c)| && Neighbors(c)[k] == n;
      NeighborDiffersAtOneIndex(c, k);
    }
  }

  /** A configuration is solved exactly when it equals the goal configuration the driver
      builds, `new StringsConfig(end, end)`. */
  lemma SolutionIsGoal(c: StringsConfig)
    ensures IsSolution(c) <==> Equals(c, StringsConfig(c.end, c.end))
  {
  }

  /** For configurations sharing the goal (all those one search visits), `equals` is
      structural equality and `hashCode` agrees with it. */
  lemma EqualsConsistent(a: StringsConfig, b: StringsConfig, stringHash: seq<char16> -> int32)
    requires a.end == b.end
    ensures Equals(a, b) <==> a == b
    ensures Equals(a, b) ==> HashCode(a, stringHash) == HashCode(b, stringHash)
  {
  }

  /** All strings of length `n`. */
  ghost function Words(n: nat): set<seq<char16>>
  {
    if n == 0 then {[]}
    else set w, ch: char16 | w in Words(n - 1) :: w + [ch]
  }

  lemma {:induction false} WordsComplete(w: seq<char16>)
    ensures w in Words(|w|)
  {
    if |w| > 0 {
      var v := w[..|w| - 1];
      WordsComplete(v);
      assert w == v + [w[|w| - 1]];
    }
  }

  /** Every configuration with a current string of the same length and the same goal:
      finite, and closed under moves. */
  ghost function Space(c: StringsConfig): (s: set<StringsConfig>)
    ensures c in s
  {
    WordsComplete(c.start);
    set w | w in Words(|c.start|) :: StringsConfig(w, c.end)
  }

  lemma SpaceClosed(c: StringsConfig)
    ensures forall x, n :: x in Space(c) && n in Neighbors(x) ==> n in Space(c)
  {
    forall x, n | x in Space(c) && n in Neighbors(x)
      ensures n in Space(c)
    {
      var k :| 0 <= k < |Neighbors(x)| && Neighbors(x)[k] == n;
      NeighborDiffersAtOneIndex(x, k);
      WordsComplete(n.start);
      assert |x.start| == |c.start| by {
        var w :| w in Words(|c.start|) && x == StringsConfig(w, c.end);
        WordsLength(|c.start|, w);
      }
    }
  }

  lemma {:induction false} WordsLength(n: nat, w: seq<char16>)
    requires w in Words(n)
    ensures |w| == n
  {
    if n > 0 {
      var v, ch :| v in Words(n - 1) && w == v + [ch];
      WordsLength(n - 1, v);
    }
  }
}
