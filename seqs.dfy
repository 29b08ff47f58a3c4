/** Small facts about sequences that the byte-level proofs share. */
module Seqs {

  /** An index below `|c|` reads the same in `c + rest` as in `c`. */
  lemma IndexInPrefix<T>(c: seq<T>, rest: seq<T>, i: int)
    ensures 0 <= i < |c| ==> (c + rest)[i] == c[i] && c[i] in c
  {
  }

  /** If `x` is absent from `a` and `c`, then `a + [x] + b == c + [x] + d` splits uniquely. */
  lemma SplitAtFirst<T>(a: seq<T>, b: seq<T>, c: seq<T>, d: seq<T>, x: T)
    requires a + [x] + b == c + [x] + d
    requires x !in a && x !in c
    ensures a == c && b == d
  {
    var s := a + [x] + b;
    assert s[|a|] == x && s[|c|] == x;
    IndexInPrefix(c, [x] + d, |a|);
    IndexInPrefix(a, [x] + b, |c|);
    assert a == s[..|a|] && c == s[..|c|];
    assert b == s[|a| + 1..] && d == s[|c| + 1..];
  }

  /** Concatenation regrouped: `a + b + c + d == a + (b + c + d)`. */
  lemma Regroup<T>(a: seq<T>, b: seq<T>, c: seq<T>, d: seq<T>)
    ensures a + b + c + d == a + (b + c + d)
  {
  }

  /** Concatenation regrouped: `a + b + c + d + e == a + (b + c + d + e)`. */
  lemma Regroup5<T>(a: seq<T>, b: seq<T>, c: seq<T>, d: seq<T>, e: seq<T>)
    ensures a + b + c + d + e == a + (b + c + d + e)
  {
  }

  /** Concatenation regrouped after its second part. */
  lemma Regroup6<T>(a: seq<T>, b: seq<T>, c: seq<T>, d: seq<T>, e: seq<T>, g: seq<T>)
    ensures a + b + c + d + e + g == a + b + (c + d + (e + g))
  {
  }

  /** A sequence is the prefix of its extension. */
  lemma PrefixOfAppend<T>(a: seq<T>, b: seq<T>)
    ensures (a + b)[..|a|] == a
  {
  }

  /** Concatenation regrouped: `a + b + c == a + (b + c)`. */
  lemma Assoc<T>(a: seq<T>, b: seq<T>, c: seq<T>)
    ensures a + b + c == a + (b + c)
  {
  }

  /** A prefix one element longer is the shorter prefix and that element. */
  lemma TakeSnoc<T>(s: seq<T>, j: int)
    requires 0 <= j < |s|
    ensures s[..j + 1] == s[..j] + [s[j]]
  {
  }

  /** The prefix of the whole length is the whole sequence. */
  lemma TakeAll<T>(s: seq<T>)
    ensures s[..|s|] == s
  {
  }
}
