/** Shared vocabulary of the puzzles: an optional value (Java's nullable reference),
    board coordinates, and Java's 32-bit `int` arithmetic. */
module Common {

  datatype Option<+T> = None | Some(value: T)

  /** A board position, as `puzzles.common.Coordinates` (a row and a column). */
  datatype Coord = Coord(row: int, col: int)

  const TwoTo31: int := 0x8000_0000
  const TwoTo32: int := 0x1_0000_0000

  /** A value of Java's `int` type. */
  type int32 = x: int | -TwoTo31 <= x < TwoTo31

  /** Java's two's-complement wrap-around of an `int` addition or subtraction. */
  function Wrap32(x: int): (r: int32)
    ensures (r - x) % TwoTo32 == 0
    ensures -TwoTo31 <= x < TwoTo31 ==> r == x
  {
    (x + TwoTo31) % TwoTo32 - TwoTo31
  }

  /** Java's `Map.get`: the value for `k`, or null when `k` is not a key. */
  function Get<K, V>(m: map<K, V>, k: K): (r: Option<V>)
    ensures r.Some? <==> k in m
    ensures r.Some? ==> r.value == m[k]
  {
    if k in m then Some(m[k]) else None
  }

  /** A sequence without repetitions has as many distinct elements as entries. */
  lemma {:induction false} DistinctCard<T>(s: seq<T>)
    requires forall i, j :: 0 <= i < j < |s| ==> s[i] != s[j]
    ensures |set x | x in s| == |s|
  {
    if |s| > 0 {
      var init := s[..|s| - 1];
      DistinctCard(init);
      assert (set x | x in s) == (set x | x in init) + {s[|s| - 1]};
    }
  }

  lemma {:induction false} SubsetCard<T>(a: set<T>, b: set<T>)
    requires a <= b
    ensures |a| <= |b|
    decreases a
  {
    if a != {} {
      var x :| x in a;
      SubsetCard(a - {x}, b - {x});
    }
  }

  /** The elements of a prefix one entry longer. */
  lemma PrefixSet<T>(s: seq<T>, i: nat, j: nat)
    requires i < |s| && j == i + 1
    ensures (set x | x in s[..j]) == (set x | x in s[..i]) + {s[i]}
  {
    assert s[..j] == s[..i] + [s[i]];
  }

  /** A suffix is its first entry followed by the next suffix. */
  lemma DropCons<T>(s: seq<T>, j: nat)
    requires j < |s|
    ensures s[j..] == [s[j]] + s[j + 1..]
  {
  }

  /** Appending leaves a prefix as it was and extends the matching suffix. */
  lemma AppendSlices<T>(s: seq<T>, x: T, k: nat)
    requires k <= |s|
    ensures (s + [x])[..k] == s[..k] && (s + [x])[k..] == s[k..] + [x]
  {
  }

  /** Past a point inside a prefix, a sequence is the rest of the prefix and then what
      follows the prefix. */
  lemma PrefixSuffix<T>(s: seq<T>, t: seq<T>, k: nat)
    requires s <= t && k <= |s|
    ensures t[k..] == s[k..] + t[|s|..]
  {
    assert t[..|s|] == s;
  }

  lemma {:induction false} SetOfSeqCard<T>(s: seq<T>)
    ensures |set x | x in s| <= |s|
  {
    if |s| > 0 {
      var init := s[..|s| - 1];
      SetOfSeqCard(init);
      assert (set x | x in s) == (set x | x in init) + {s[|s| - 1]};
    }
  }

  /** A sequence with as many distinct elements as entries has no repetitions. */
  lemma {:induction false} CardDistinct<T>(s: seq<T>)
    requires |set x | x in s| == |s|
    ensures forall i, j :: 0 <= i < j < |s| ==> s[i] != s[j]
  {
    if |s| > 0 {
      var init, y := s[..|s| - 1], s[|s| - 1];
      assert (set x | x in s) == (set x | x in init) + {y};
      SetOfSeqCard(init);
      assert y !in init;
      CardDistinct(init);
      forall i, j | 0 <= i < j < |s| ensures s[i] != s[j] {
        if j < |s| - 1 {
          assert s[i] == init[i] && s[j] == init[j];
        } else {
          assert s[i] in init;
        }
      }
    }
  }
}
