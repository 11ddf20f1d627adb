/** Facts about slicing concatenated sequences, used to locate parts of a body. */
module SeqFacts {

  /** The middle piece of a three-way concatenation is found at its offset. */
  lemma SliceMiddle<T>(a: seq<T>, b: seq<T>, c: seq<T>)
    ensures |a| + |b| <= |a + b + c|
    ensures (a + b + c)[|a|..|a| + |b|] == b
  {
  }

  /** The first piece of a concatenation is its prefix. */
  lemma PrefixOf<T>(a: seq<T>, b: seq<T>)
    ensures (a + b)[..|a|] == a
  {
  }

  /** A piece of a concatenation found at offset o of s is found at o plus the length before it. */
  lemma SliceInside<T>(s: seq<T>, o: nat, a: seq<T>, b: seq<T>, c: seq<T>)
    requires o + |a + b + c| <= |s| && s[o..o + |a + b + c|] == a + b + c
    ensures o + |a| + |b| <= |s| && s[o + |a|..o + |a| + |b|] == b
  {
    SliceMiddle(a, b, c);
    SliceOfSlice(s, o, o + |a + b + c|, |a|, |a| + |b|);
  }

  /** Concatenation is associative. */
  lemma Assoc<T>(a: seq<T>, b: seq<T>, c: seq<T>)
    ensures a + b + c == a + (b + c)
  {
  }

  /** The last piece of a concatenation is its suffix. */
  lemma SliceLast<T>(a: seq<T>, b: seq<T>)
    ensures (a + b)[|a|..] == b
    ensures (a + b)[|a + b| - |b|..] == b
  {
  }

  /** A slice of a slice is a slice of the whole. */
  lemma SliceOfSlice<T>(s: seq<T>, lo: nat, hi: nat, i: nat, j: nat)
    requires lo <= hi <= |s| && i <= j <= hi - lo
    ensures s[lo..hi][i..j] == s[lo + i..lo + j]
  {
    var a := s[lo..hi];
    forall x | 0 <= x < j - i ensures a[i..j][x] == s[lo + i..lo + j][x] {
      assert a[i..j][x] == a[i + x] == s[lo + i + x];
    }
  }

  /** Appending pieces one at a time appends their concatenation. */
  lemma AppendFive<T>(w: seq<T>, a: seq<T>, b: seq<T>, c: seq<T>, d: seq<T>, e: seq<T>)
    ensures w + a + b + c + d + e == w + (a + b + c + d + e)
  {
  }

  lemma AppendSix<T>(w: seq<T>, a: seq<T>, b: seq<T>, c: seq<T>, d: seq<T>, e: seq<T>, f: seq<T>)
    ensures w + a + b + c + d + e + f == w + (a + b + c + d + e + f)
  {
  }
}
