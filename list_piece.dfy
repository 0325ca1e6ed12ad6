/** The piece list of the change-point engine: a singly linked list of cost
    pieces behind a sentinel `head`, with cursors `lastActivePiece`, `tail`
    and `currentPiece` and an explicit counter `lengthList`.

    The pieces live in the slots of `arena`; a `Piece*` is a slot index and
    `NULL` is `Null`. The ghost field `chain` lists, in order, the slots
    reachable from `head`. A caller hands `AddPiece` a slot it has filled
    with the new piece's data, as the C++ caller hands over a fresh `Piece`. */
module PieceList {
  import opened Chain
  import opened Unsigned

  class ListPiece<T> {
    const arena: array<Piece<T>>
    var head: int
    var lastActivePiece: int
    var tail: int
    var currentPiece: int
    var lengthList: uint32
    ghost var chain: seq<int>
    /** The position of `currentPiece` in `chain` while it is not `Null`. */
    ghost var cursor: nat

    /** The chain starts at `head` and is well linked through the arena. */
    ghost predicate Linked()
      reads this`chain, this`head, arena
    {
      IsChain(arena[..], chain) && chain[0] == head
    }

    /** The object invariant: the chain is well linked, `tail` is its last
        node, `lastActivePiece` designates a slot and `currentPiece` is a
        node of the chain, the one at position `cursor`, or `Null`. */
    ghost predicate Valid()
      reads this`chain, this`head, this`tail, this`lastActivePiece, this`currentPiece, this`cursor, arena
    {
      Linked() && tail == chain[|chain| - 1] &&
      0 <= lastActivePiece < arena.Length &&
      (currentPiece == Null || (cursor < |chain| && chain[cursor] == currentPiece))
    }

    /** `ListPiece()`: an empty list made of the sentinel alone, every cursor
        on it. The arena has room for `capacity` pieces, each starting out
        as `Piece(blank, Null)`, the default piece; slot 0 is the sentinel. */
    constructor (capacity: nat, blank: T)
      requires capacity > 0
      ensures Valid() && fresh(arena) && arena.Length == capacity
      ensures lengthList == 0 && head == 0 && chain == [head]
      ensures arena[head].nxt == Null
      ensures lastActivePiece == head && tail == head && currentPiece == head && cursor == 0
      ensures forall i :: 0 <= i < capacity ==> arena[i] == Piece(blank, Null)
    {
      lengthList := 0;
      arena := new Piece<T>[capacity](_ => Piece(blank, Null));
      head := 0;
      chain := [0];
      cursor := 0;
      new;
      arena[head] := arena[head].(nxt := Null);
      lastActivePiece := head;
      tail := head;
      currentPiece := head;
    }

    /** `p->nxt = v` for the slot `p`. */
    method SetLink(p: int, v: int)
      requires 0 <= p < arena.Length
      modifies arena
      ensures arena[..] == SetNxt(old(arena[..]), p, v)
    {
      arena[p] := arena[p].(nxt := v);
    }

    /** `p->addPointAndPenalty(pt)` for the slot `p`: only its data changes. */
    method AbsorbPoint<P>(p: int, update: (T, P) -> T, pt: P)
      requires 0 <= p < arena.Length
      modifies arena
      ensures arena[..] == old(arena[..])[p := Absorb(old(arena[..])[p], update, pt)]
    {
      arena[p] := Absorb(arena[p], update, pt);
    }

    /** `addPiece(newP)`. When `lastActivePiece` has no successor, `newP` is
        linked behind it and becomes the tail and the last active piece.
        Otherwise `lastActivePiece` is stepped forward and then overwritten
        with `newP`, which stays unlinked: no link and no tail changes. The
        counter goes up by one on both branches.

        When the append branch is taken while `lastActivePiece` is a slot
        off the chain (as after the other branch), `newP` is linked behind
        that slot, the chain from `head` is unchanged and `tail` leaves it.
        The operation needs only a well linked chain and a `lastActivePiece`
        that designates a slot, which it keeps; the object invariant is kept
        except by that last case. */
    method AddPiece(newP: int)
      requires Linked() && 0 <= lastActivePiece < arena.Length
      requires 0 <= newP < arena.Length && newP !in chain
      modifies this`tail, this`lastActivePiece, this`lengthList, this`chain, arena
      ensures Linked()
      ensures lengthList == Inc(old(lengthList))
      ensures lastActivePiece == newP
      ensures old(arena[lastActivePiece].nxt) == Null ==>
        tail == newP &&
        arena[..] == SetNxt(SetNxt(old(arena[..]), newP, Null), old(lastActivePiece), newP)
      ensures old(arena[lastActivePiece].nxt) != Null ==>
        tail == old(tail) && arena[..] == old(arena[..]) && chain == old(chain)
      ensures old(arena[lastActivePiece].nxt) == Null && old(lastActivePiece) in old(chain) ==>
        chain == old(chain) + [newP] && tail == chain[|chain| - 1]
      ensures old(arena[lastActivePiece].nxt) == Null && old(lastActivePiece) !in old(chain) ==>
        chain == old(chain) && tail !in chain
      ensures old(Valid()) && (old(arena[lastActivePiece].nxt) != Null || old(lastActivePiece) in old(chain)) ==>
        Valid()
    {
      ghost var s0 := arena[..];
      ghost var last := lastActivePiece;
      if arena[lastActivePiece].nxt == Null {
        LinkBehind(s0, chain, last, newP);
        tail := newP;
        SetLink(tail, Null);
        SetLink(lastActivePiece, tail);
        lastActivePiece := tail;
        if last in chain {
          chain := chain + [newP];
        }
      } else {
        lastActivePiece := arena[lastActivePiece].nxt;
        lastActivePiece := newP;
      }
      lengthList := Inc(lengthList);
    }

    /** `move()`: the cursor steps to its successor, `Null` past the tail. */
    method Move()
      requires Valid() && currentPiece != Null
      modifies this`currentPiece, this`cursor
      ensures Valid()
      ensures currentPiece == old(arena[currentPiece].nxt)
      ensures cursor == old(cursor) + 1
      ensures cursor < |chain| ==> currentPiece == chain[cursor]
      ensures cursor == |chain| ==> currentPiece == Null
      ensures old(currentPiece) == tail <==> currentPiece == Null
    {
      NullOnlyAtEnd(arena[..], chain, cursor);
      if cursor < |chain| - 1 {
        assert arena[..][chain[cursor]].nxt == chain[cursor + 1];
      }
      currentPiece := arena[currentPiece].nxt;
      cursor := cursor + 1;
    }

    /** `getLength()`: the counter, nothing changed. */
    method GetLength() returns (r: uint32)
      ensures r == lengthList
    {
      r := lengthList;
    }

    /** `initializeCurrentPiece()`: the cursor goes back to the sentinel, in
        any state; the sentinel is the first node of a well linked chain,
        and the object invariant is kept. */
    method InitializeCurrentPiece()
      modifies this`currentPiece, this`cursor
      ensures currentPiece == head && cursor == 0
      ensures Linked() ==> cursor < |chain| && chain[cursor] == currentPiece
      ensures old(Valid()) ==> Valid()
    {
      currentPiece := head;
      cursor := 0;
    }

    /** `deleteNxtPieceAndMove()`: the node after the cursor is unlinked and
        re-attached behind the tail, becoming the new tail with a `Null`
        link; it is recycled, not freed, so the chain keeps the same nodes,
        the others in the same order. The cursor stays where it is and the
        counter goes down by one. When that node already is the tail,
        neither the links nor the tail change. */
    method DeleteNxtPieceAndMove()
      requires Valid() && currentPiece != Null && arena[currentPiece].nxt != Null
      modifies this`tail, this`lengthList, this`chain, arena
      ensures Valid()
      ensures lengthList == Dec(old(lengthList))
      ensures currentPiece == old(currentPiece) && lastActivePiece == old(lastActivePiece)
      ensures tail == old(arena[currentPiece].nxt)
      ensures cursor + 1 < |old(chain)|
      ensures chain == Recycle(old(chain), cursor)
      ensures arena[..] == Relink(old(arena[..]), old(chain), cursor)
    {
      ghost var s0, c := arena[..], chain;
      ghost var k := cursor;
      NullOnlyAtEnd(s0, c, k);
      DeleteSteps(s0, c, k);
      SetLink(tail, arena[currentPiece].nxt);
      SetLink(currentPiece, arena[arena[currentPiece].nxt].nxt);
      tail := arena[tail].nxt;
      SetLink(tail, Null);
      lengthList := Dec(lengthList);
      assert arena[..] == Relink(s0, c, k);
      RelinkChain(s0, c, k);
      chain := Recycle(c, k);
      RecycleAt(c, k, 0);
      RecycleAt(c, k, k);
    }

    /** `addPointAndPenalty(pt, edge)`: the cursor walks from `head` through
        every node of the chain, the sentinel included, until `Null`; each
        visited piece absorbs the point `pt` through `update`, which stands
        for `Piece::addPointAndPenalty`; `TraversalAbsorbsOnce` spells out
        that each node of the chain absorbs it exactly once and every other
        slot is left alone. The links, hence the chain, and the other fields
        are unchanged; `edge` plays no part. The ghost `visited` records the
        order of the visits. */
    method AddPointAndPenalty<P, E>(pt: P, edge: E, update: (T, P) -> T) returns (ghost visited: seq<int>)
      requires Valid()
      modifies this`currentPiece, this`cursor, arena
      ensures Valid() && currentPiece == Null
      ensures visited == chain
      ensures arena[..] == Absorbed(old(arena[..]), chain, |chain|, update, pt)
    {
      ghost var s0 := arena[..];
      currentPiece := head;
      cursor := 0;
      visited := [];
      while currentPiece != Null
        invariant cursor <= |chain|
        invariant cursor < |chain| ==> currentPiece == chain[cursor]
        invariant cursor == |chain| ==> currentPiece == Null
        invariant visited == chain[..cursor]
        invariant Valid()
        invariant arena[..] == Absorbed(s0, chain, cursor, update, pt)
        decreases |chain| - cursor
      {
        AbsorbStep(s0, chain, cursor, update, pt);
        AbsorbPoint(currentPiece, update, pt);
        visited := visited + [currentPiece];
        Move();
      }
    }
  }
}
