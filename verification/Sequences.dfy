/** Subsequences, and the concatenation of the blocks that a loop pushes. */
module Sequences {

  ghost predicate IsSubsequence<T>(s: seq<T>, t: seq<T>) {
    if s == [] then
      true
    else if t == [] then
      false
    else
      || IsSubsequence(s, t[..|t| - 1])
      || (s[|s| - 1] == t[|t| - 1] && IsSubsequence(s[..|s| - 1], t[..|t| - 1]))
  }

  lemma SubsequenceSkip<T>(s: seq<T>, t: seq<T>, x: T)
    requires IsSubsequence(s, t)
    ensures IsSubsequence(s, t + [x])
  {
    assert (t + [x])[..|t|] == t;
  }

  lemma SubsequenceKeep<T>(s: seq<T>, t: seq<T>, x: T)
    requires IsSubsequence(s, t)
    ensures IsSubsequence(s + [x], t + [x])
  {
    assert (t + [x])[..|t|] == t && (s + [x])[..|s|] == s;
  }

  lemma {:induction false} SubsequenceTransitive<T>(s: seq<T>, t: seq<T>, u: seq<T>)
    requires IsSubsequence(s, t) && IsSubsequence(t, u)
    ensures IsSubsequence(s, u)
    decreases |t| + |u|
  {
    if s != [] {
      var t', u' := t[..|t| - 1], u[..|u| - 1];
      if IsSubsequence(t, u') {
        SubsequenceTransitive(s, t, u');
      } else if IsSubsequence(s, t') {
        SubsequenceTransitive(s, t', u');
      } else {
        SubsequenceTransitive(s[..|s| - 1], t', u');
      }
    }
  }

  lemma {:induction false} SubsequenceRefl<T>(s: seq<T>)
    ensures IsSubsequence(s, s)
  {
    if s != [] {
      SubsequenceRefl(s[..|s| - 1]);
    }
  }

  /** The concatenation of blocks. */
  function Flat<T>(blocks: seq<seq<T>>): seq<T> {
    if blocks == [] then [] else Flat(blocks[..|blocks| - 1]) + blocks[|blocks| - 1]
  }

  lemma FlatNext<T>(blocks: seq<seq<T>>, c: nat)
    requires c < |blocks|
    ensures Flat(blocks[..c + 1]) == Flat(blocks[..c]) + blocks[c]
  {
    assert blocks[..c + 1][..c] == blocks[..c];
  }

  lemma {:induction false} FlatFront<T>(blocks: seq<seq<T>>)
    requires blocks != []
    ensures Flat(blocks) == blocks[0] + Flat(blocks[1..])
  {
    hide Flat;
    var n, rest := |blocks| - 1, blocks[1..];
    FlatSplit(blocks);
    if n == 0 {
      assert blocks[..0] == [] && rest == [];
      FlatSplit(blocks[..0]);
      FlatSplit(rest);
      assert Flat(blocks) == blocks[0] + Flat(rest);
    } else {
      var front := blocks[..n];
      FlatFront(front);
      FlatSplit(rest);
      assert front[1..] == rest[..n - 1];
      assert blocks[0] + (Flat(front[1..]) + blocks[n]) == blocks[0] + Flat(front[1..]) + blocks[n];
    }
  }

  lemma FlatSplit<T>(blocks: seq<seq<T>>)
    ensures Flat(blocks) == if blocks == [] then [] else Flat(blocks[..|blocks| - 1]) + blocks[|blocks| - 1]
  {
  }

  lemma {:induction false} FlatIsPrefix<T>(blocks: seq<seq<T>>, c: nat)
    requires c <= |blocks|
    ensures Flat(blocks[..c]) <= Flat(blocks)
    decreases |blocks| - c
  {
    if c < |blocks| {
      FlatNext(blocks, c);
      FlatIsPrefix(blocks, c + 1);
    } else {
      assert blocks[..c] == blocks;
    }
  }

  /** Where a block is in the concatenation. */
  lemma BlockAt<T>(blocks: seq<seq<T>>, c: nat)
    requires c < |blocks|
    ensures |Flat(blocks[..c + 1])| == |Flat(blocks[..c])| + |blocks[c]| <= |Flat(blocks)|
    ensures forall i | 0 <= i < |blocks[c]| :: Flat(blocks)[|Flat(blocks[..c])| + i] == blocks[c][i]
    ensures Flat(blocks[..c]) <= Flat(blocks)
  {
    FlatNext(blocks, c);
    FlatIsPrefix(blocks, c);
    FlatIsPrefix(blocks, c + 1);
    var upTo := Flat(blocks[..c + 1]);
    assert forall i | 0 <= i < |blocks[c]| :: upTo[|Flat(blocks[..c])| + i] == blocks[c][i];
  }
}
