/** Pieces held in an arena and the singly linked chains running through it.

    A `Piece*` of the C++ code is an index into a sequence of slots; the
    link `nxt` of a slot is another index, or `Null`. A chain is the list of
    slots met by following the links from its first slot until `Null`. */
module Chain {

  /** The C++ `NULL` pointer. */
  const Null: int := -1

  /** One slot of the arena: the cost data the piece carries and its link. */
  datatype Piece<T> = Piece(data: T, nxt: int)

  /** The arena `s` with the link of slot `i` set to `v`, as `i->nxt = v`. */
  function SetNxt<T>(s: seq<Piece<T>>, i: int, v: int): (r: seq<Piece<T>>)
    requires 0 <= i < |s|
    ensures |r| == |s| && r[i] == Piece(s[i].data, v)
  {
    s[i := s[i].(nxt := v)]
  }

  ghost predicate Distinct(c: seq<int>)
  {
    forall i, j :: 0 <= i < j < |c| ==> c[i] != c[j]
  }

  /** `c` is a non-empty, repetition-free list of slots of `s`, each linked to
      the next, the last one linked to `Null`. */
  ghost predicate IsChain<T>(s: seq<Piece<T>>, c: seq<int>)
  {
    |c| > 0 &&
    (forall i :: 0 <= i < |c| ==> 0 <= c[i] < |s|) &&
    Distinct(c) &&
    (forall i {:trigger s[c[i]]} :: 0 <= i < |c| - 1 ==> s[c[i]].nxt == c[i + 1]) &&
    s[c[|c| - 1]].nxt == Null
  }

  /** Two arenas of the same size whose links agree slot by slot. */
  ghost predicate SameLinks<T>(s: seq<Piece<T>>, s': seq<Piece<T>>)
  {
    |s| == |s'| && forall j :: 0 <= j < |s| ==> s[j].nxt == s'[j].nxt
  }

  /** The slots visited by following links from `n`, at most `fuel` of them,
      stopping at `Null` (or at anything that is not a slot). */
  function Follow<T>(s: seq<Piece<T>>, n: int, fuel: nat): (r: seq<int>)
    ensures |r| <= fuel
    ensures forall i :: 0 <= i < |r| ==> 0 <= r[i] < |s|
    ensures 0 < fuel && 0 <= n < |s| ==> r != [] && r[0] == n
    decreases fuel
  {
    if fuel == 0 || !(0 <= n < |s|) then [] else [n] + Follow(s, s[n].nxt, fuel - 1)
  }

  /** The piece `p` after absorbing the point `pt`. */
  function Absorb<T, P>(p: Piece<T>, update: (T, P) -> T, pt: P): (r: Piece<T>)
    ensures r.nxt == p.nxt
  {
    p.(data := update(p.data, pt))
  }

  /** The arena `s` after the first `i` slots of `c`, in order, have absorbed
      the point `pt` through `update`: the per-piece effect of a traversal. */
  function Absorbed<T, P>(s: seq<Piece<T>>, c: seq<int>, i: nat, update: (T, P) -> T, pt: P): (r: seq<Piece<T>>)
    requires i <= |c| && forall j :: 0 <= j < |c| ==> 0 <= c[j] < |s|
    ensures |r| == |s|
  {
    if i == 0 then s
    else
      var r := Absorbed(s, c, i - 1, update, pt);
      r[c[i - 1] := Absorb(r[c[i - 1]], update, pt)]
  }

  /** Along a repetition-free list, each of the first `i` slots absorbs the
      point exactly once and every other slot is left as it was. */
  lemma {:induction false} AbsorbedAt<T, P>(s: seq<Piece<T>>, c: seq<int>, i: nat, update: (T, P) -> T, pt: P, j: int)
    requires i <= |c| && (forall k :: 0 <= k < |c| ==> 0 <= c[k] < |s|) && Distinct(c) && 0 <= j < |s|
    ensures Absorbed(s, c, i, update, pt)[j] == if j in c[..i] then Absorb(s[j], update, pt) else s[j]
  {
    if i > 0 {
      AbsorbedAt(s, c, i - 1, update, pt, j);
      assert c[..i] == c[..i - 1] + [c[i - 1]];
      if j == c[i - 1] {
        assert j !in c[..i - 1] by {
          forall a | 0 <= a < i - 1 ensures c[a] != j {
          }
        }
      }
    }
  }

  /** After a traversal of a whole chain, each of its nodes has absorbed the
      point exactly once and every slot off the chain is as it was. */
  lemma TraversalAbsorbsOnce<T, P>(s: seq<Piece<T>>, c: seq<int>, update: (T, P) -> T, pt: P, j: int)
    requires IsChain(s, c) && 0 <= j < |s|
    ensures Absorbed(s, c, |c|, update, pt)[j] == if j in c then Absorb(s[j], update, pt) else s[j]
  {
    AbsorbedAt(s, c, |c|, update, pt, j);
    assert c[..|c|] == c;
  }

  /** Absorbing a point at one slot keeps every chain of the arena. */
  lemma AbsorbKeepsChain<T, P>(s: seq<Piece<T>>, c: seq<int>, n: int, update: (T, P) -> T, pt: P)
    requires IsChain(s, c) && 0 <= n < |s|
    ensures IsChain(s[n := Absorb(s[n], update, pt)], c)
  {
    assert SameLinks(s, s[n := Absorb(s[n], update, pt)]);
    SameLinksChain(s, s[n := Absorb(s[n], update, pt)], c);
  }

  /** One step of a traversal: the node at position `i` absorbs the point,
      the chain stays a chain and the visited prefix grows by that node. */
  lemma AbsorbStep<T, P>(s0: seq<Piece<T>>, c: seq<int>, i: nat, update: (T, P) -> T, pt: P)
    requires IsChain(s0, c) && i < |c| && IsChain(Absorbed(s0, c, i, update, pt), c)
    ensures var r := Absorbed(s0, c, i, update, pt);
      Absorbed(s0, c, i + 1, update, pt) == r[c[i] := Absorb(r[c[i]], update, pt)] &&
      IsChain(Absorbed(s0, c, i + 1, update, pt), c)
    ensures c[..i + 1] == c[..i] + [c[i]]
  {
    AbsorbKeepsChain(Absorbed(s0, c, i, update, pt), c, c[i], update, pt);
  }

  /** Position of `x` in `c`: its first occurrence. */
  function IndexOf(c: seq<int>, x: int): (k: nat)
    requires x in c
    ensures k < |c| && c[k] == x
    ensures forall j :: 0 <= j < k ==> c[j] != x
  {
    if c[0] == x then 0 else 1 + IndexOf(c[1..], x)
  }

  /** The chain `c` after its node at position `k + 1` has been unlinked and
      re-attached behind the last node. */
  function Recycle(c: seq<int>, k: nat): (r: seq<int>)
    requires k + 1 < |c|
    ensures |r| == |c| && r[|c| - 1] == c[k + 1]
    ensures k + 2 == |c| ==> r == c
  {
    c[..k + 1] + c[k + 2..] + [c[k + 1]]
  }

  /** Recycling keeps the same nodes, as many times each, and keeps the
      relative order of all nodes but the one moved to the end. */
  lemma RecycleKeepsNodes(c: seq<int>, k: nat)
    requires k + 1 < |c|
    ensures multiset(Recycle(c, k)) == multiset(c)
    ensures Recycle(c, k)[..k + 1] == c[..k + 1]
    ensures Recycle(c, k)[k + 1..|c| - 1] == c[k + 2..]
  {
    assert c == c[..k + 1] + [c[k + 1]] + c[k + 2..];
  }

  /** Where each node of the chain `c` sits after `Recycle(c, k)`. */
  lemma RecycleAt(c: seq<int>, k: nat, i: int)
    requires k + 1 < |c| && 0 <= i < |c|
    ensures Recycle(c, k)[i] == if i <= k then c[i] else if i < |c| - 1 then c[i + 1] else c[k + 1]
  {
    var d := Recycle(c, k);
    if i <= k {
      assert d[i] == d[..k + 1][i];
    } else if i < |c| - 1 {
      assert d[i] == d[k + 1..|c| - 1][i - k - 1];
    }
  }

  /** The arena `s` relinked so that, along the chain `c`, the node after
      position `k` becomes the last node; when that node already is the last
      one, no link needs to change. */
  function Relink<T>(s: seq<Piece<T>>, c: seq<int>, k: nat): (r: seq<Piece<T>>)
    requires IsChain(s, c) && k + 1 < |c|
    ensures |r| == |s|
  {
    if k + 2 == |c| then s
    else SetNxt(SetNxt(SetNxt(s, c[k], c[k + 2]), c[|c| - 1], c[k + 1]), c[k + 1], Null)
  }

  /** Along a chain, a link is `Null` exactly at the last node. */
  lemma NullOnlyAtEnd<T>(s: seq<Piece<T>>, c: seq<int>, i: int)
    requires IsChain(s, c) && 0 <= i < |c|
    ensures s[c[i]].nxt == Null <==> i == |c| - 1
  {
    if i < |c| - 1 {
      assert s[c[i]].nxt == c[i + 1] && 0 <= c[i + 1];
    }
  }

  /** A chain is the list of slots reached by following links from its first
      slot: the links alone determine it. */
  lemma {:induction false} FollowChain<T>(s: seq<Piece<T>>, c: seq<int>, fuel: nat)
    requires IsChain(s, c) && fuel >= |c|
    ensures Follow(s, c[0], fuel) == c
    decreases |c|
  {
    if |c| == 1 {
      assert Follow(s, s[c[0]].nxt, fuel - 1) == [];
    } else {
      var d := c[1..];
      assert IsChain(s, d) by {
        forall i, j | 0 <= i < j < |d| ensures d[i] != d[j] {
          assert d[i] == c[i + 1] && d[j] == c[j + 1];
        }
        forall i | 0 <= i < |d| - 1 ensures s[d[i]].nxt == d[i + 1] {
          assert d[i] == c[i + 1] && d[i + 1] == c[i + 2];
        }
      }
      FollowChain(s, d, fuel - 1);
      assert s[c[0]].nxt == d[0];
    }
  }

  /** Two chains of the same arena starting at the same slot are equal. */
  lemma ChainUnique<T>(s: seq<Piece<T>>, c: seq<int>, d: seq<int>)
    requires IsChain(s, c) && IsChain(s, d) && c[0] == d[0]
    ensures c == d
  {
    FollowChain(s, c, |c| + |d|);
    FollowChain(s, d, |c| + |d|);
  }

  /** A chain depends on the links only, not on the data the pieces carry. */
  lemma SameLinksChain<T>(s: seq<Piece<T>>, s': seq<Piece<T>>, c: seq<int>)
    requires IsChain(s, c) && SameLinks(s, s')
    ensures IsChain(s', c)
  {
  }

  /** Rewriting the link of a slot off the chain leaves the chain intact. */
  lemma FrameChain<T>(s: seq<Piece<T>>, c: seq<int>, i: int, v: int)
    requires IsChain(s, c) && 0 <= i < |s| && i !in c
    ensures IsChain(SetNxt(s, i, v), c)
  {
    var r := SetNxt(s, i, v);
    forall j | 0 <= j < |c| ensures r[c[j]] == s[c[j]] {
      assert c[j] in c;
    }
  }

  /** Linking a slot off the chain behind its last node, with a `Null` link of
      its own, extends the chain by that slot. */
  lemma AppendChain<T>(s: seq<Piece<T>>, c: seq<int>, p: int)
    requires IsChain(s, c) && 0 <= p < |s| && p !in c
    ensures IsChain(SetNxt(SetNxt(s, p, Null), c[|c| - 1], p), c + [p])
  {
    var r := SetNxt(SetNxt(s, p, Null), c[|c| - 1], p);
    var d := c + [p];
    forall i | 0 <= i < |d| - 1 ensures r[d[i]].nxt == d[i + 1] {
      if i < |c| - 1 {
        assert d[i] == c[i] && d[i + 1] == c[i + 1];
        assert c[i] != c[|c| - 1] && c[i] != p;
      }
    }
    forall i, j | 0 <= i < j < |d| ensures d[i] != d[j] {
      if j == |c| {
        assert d[i] == c[i] && c[i] in c;
      }
    }
  }

  /** Linking a slot `p` off the chain behind a slot `last` without a
      successor: when `last` is on the chain it is the last node and the
      chain grows by `p`; otherwise the chain is left as it was. */
  lemma LinkBehind<T>(s: seq<Piece<T>>, c: seq<int>, last: int, p: int)
    requires IsChain(s, c) && 0 <= last < |s| && s[last].nxt == Null
    requires 0 <= p < |s| && p !in c
    ensures var r := SetNxt(SetNxt(s, p, Null), last, p);
      if last in c then last == c[|c| - 1] && IsChain(r, c + [p]) else IsChain(r, c)
  {
    if last in c {
      NullOnlyAtEnd(s, c, IndexOf(c, last));
      AppendChain(s, c, p);
    } else {
      FrameChain(s, c, p, Null);
      FrameChain(SetNxt(s, p, Null), c, last, p);
    }
  }

  /** Moving the node after position `k` to the end of the chain yields a
      chain of the relinked arena, with the same first slot. */
  lemma RelinkChain<T>(s: seq<Piece<T>>, c: seq<int>, k: nat)
    requires IsChain(s, c) && k + 1 < |c|
    ensures IsChain(Relink(s, c, k), Recycle(c, k))
  {
    var n := |c|;
    var d := Recycle(c, k);
    if k + 2 == n {
      assert d == c;
    } else {
      var r := Relink(s, c, k);
      RelinkLinks(s, c, k);
      RecycleDistinct(c, k);
      RecycleRange(c, k, |r|);
      assert r[d[n - 1]].nxt == Null;
      ChainIntro(r, d);
    }
  }

  /** The four link writes of `deleteNxtPieceAndMove`, with `cur` the node at
      position `k` and `t` the last node: `t->nxt = cur->nxt`, then
      `cur->nxt = cur->nxt->nxt`, then the tail becomes `t->nxt`, whose link
      is set to `Null`. They compute `Relink`, also when the node after `cur`
      is `t` itself and the first write makes `t` link to itself for a while;
      the new tail is the node that followed `cur`. */
  lemma DeleteSteps<T>(s: seq<Piece<T>>, c: seq<int>, k: nat)
    requires IsChain(s, c) && k + 1 < |c|
    ensures var t, cur := c[|c| - 1], c[k];
      var s1 := SetNxt(s, t, s[cur].nxt);
      0 <= s1[cur].nxt < |s| &&
      var s2 := SetNxt(s1, cur, s1[s1[cur].nxt].nxt);
      s2[t].nxt == c[k + 1] &&
      SetNxt(s2, s2[t].nxt, Null) == Relink(s, c, k)
  {
    var n := |c|;
    var t, cur, m := c[n - 1], c[k], c[k + 1];
    NullOnlyAtEnd(s, c, k);
    assert s[cur].nxt == m && cur != t && cur != m;
    var s1 := SetNxt(s, t, m);
    assert s1[cur].nxt == m;
    var s2 := SetNxt(s1, cur, s1[m].nxt);
    assert s2[t].nxt == m;
    var r := SetNxt(s2, m, Null);
    if k + 2 == n {
      assert m == t && s1[m].nxt == t;
      assert r == s;
    } else {
      assert m != t && s1[m].nxt == c[k + 2];
      assert r == SetNxt(SetNxt(SetNxt(s, cur, c[k + 2]), t, m), m, Null);
    }
  }

  /** Every link along the recycled chain holds in the relinked arena. */
  lemma RelinkLinks<T>(s: seq<Piece<T>>, c: seq<int>, k: nat)
    requires IsChain(s, c) && k + 2 < |c|
    ensures forall i :: 0 <= i < |c| - 1 ==> Relink(s, c, k)[Recycle(c, k)[i]].nxt == Recycle(c, k)[i + 1]
  {
    forall i | 0 <= i < |c| - 1 ensures Relink(s, c, k)[Recycle(c, k)[i]].nxt == Recycle(c, k)[i + 1] {
      RelinkLink(s, c, k, i);
    }
  }

  /** Recycling a list of slots below `bound` keeps every slot below `bound`. */
  lemma RecycleRange(c: seq<int>, k: nat, bound: int)
    requires k + 1 < |c| && forall i :: 0 <= i < |c| ==> 0 <= c[i] < bound
    ensures forall i :: 0 <= i < |c| ==> 0 <= Recycle(c, k)[i] < bound
  {
    forall i | 0 <= i < |c| ensures 0 <= Recycle(c, k)[i] < bound {
      RecycleAt(c, k, i);
    }
  }

  /** Recycling a repetition-free list keeps it repetition-free. */
  lemma RecycleDistinct(c: seq<int>, k: nat)
    requires k + 1 < |c| && Distinct(c)
    ensures Distinct(Recycle(c, k))
  {
    var d := Recycle(c, k);
    forall i, j | 0 <= i < j < |c| ensures d[i] != d[j] {
      RecycleAt(c, k, i);
      RecycleAt(c, k, j);
    }
  }

  /** The conjuncts of `IsChain`, each established separately. */
  lemma ChainIntro<T>(s: seq<Piece<T>>, c: seq<int>)
    requires |c| > 0 && Distinct(c)
    requires forall i :: 0 <= i < |c| ==> 0 <= c[i] < |s|
    requires forall i :: 0 <= i < |c| - 1 ==> s[c[i]].nxt == c[i + 1]
    requires s[c[|c| - 1]].nxt == Null
    ensures IsChain(s, c)
  {
  }

  /** One link of the relinked arena, along the recycled chain. */
  lemma RelinkLink<T>(s: seq<Piece<T>>, c: seq<int>, k: nat, i: int)
    requires IsChain(s, c) && k + 2 < |c| && 0 <= i < |c| - 1
    ensures Relink(s, c, k)[Recycle(c, k)[i]].nxt == Recycle(c, k)[i + 1]
  {
    var n := |c|;
    var s1 := SetNxt(s, c[k], c[k + 2]);
    var s2 := SetNxt(s1, c[n - 1], c[k + 1]);
    var r := SetNxt(s2, c[k + 1], Null);
    assert r == Relink(s, c, k);
    RecycleAt(c, k, i);
    RecycleAt(c, k, i + 1);
    if i < k {
      assert c[i] != c[k] && c[i] != c[n - 1] && c[i] != c[k + 1];
    } else if i == k {
      assert c[k] != c[n - 1] && c[k] != c[k + 1];
    } else if i < n - 2 {
      assert c[i + 1] != c[k] && c[i + 1] != c[n - 1] && c[i + 1] != c[k + 1];
    } else {
      assert c[n - 1] != c[k + 1];
    }
  }
}
