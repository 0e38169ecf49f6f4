// Facts about sequence concatenation used when taking labels apart.
module Seqs {

  lemma AppendAssoc<T>(a: seq<T>, b: seq<T>, c: seq<T>)
    ensures a + (b + c) == (a + b) + c
  {
  }

  /** Regrouping a left-nested concatenation of five parts to the right */
  lemma RightNested<T>(a: seq<T>, b: seq<T>, c: seq<T>, d: seq<T>, e: seq<T>)
    ensures a + (b + (c + (d + (e + [])))) == a + b + c + d + e
  {
    assert e + [] == e;
    AppendAssoc(c, d, e);
    AppendAssoc(b, c, d + e);
    AppendAssoc(b + c, d, e);
    AppendAssoc(a, b, c + (d + e));
    AppendAssoc(a + b, c, d + e);
    AppendAssoc(a + b + c, d, e);
  }

  /** Putting the first part of a left-nested concatenation aside */
  lemma HeadAside<T>(a: seq<T>, b: seq<T>, c: seq<T>, d: seq<T>, e: seq<T>, f: seq<T>)
    ensures a + b + c + d + e + f == a + (b + c + d + e) + f
  {
    AppendAssoc(a, b + c + d, e);
    AppendAssoc(a, b + c, d);
    AppendAssoc(a, b, c);
  }

  /** The three parts of a concatenation can be sliced back out of it */
  lemma Slices<T>(x: seq<T>, y: seq<T>, z: seq<T>)
    ensures |x + y + z| == |x| + |y| + |z|
    ensures (x + y + z)[..|x|] == x
    ensures (x + y + z)[|x|..|x| + |y|] == y
    ensures (x + y + z)[|x| + |y|..] == z
  {
  }
}
