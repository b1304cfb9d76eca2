/**
 The reference meaning of `apply`: the logical content of length `n` has
 anchors 0..n, and anchor `o` contributes, in this order, the left-biased
 inserts at `o`, the right-biased inserts at `o`, and the content byte at
 `o` unless a remove covers it. The output is those slots concatenated in
 offset order.
 */
module Applier {
  import opened Octets
  import opened Ledger

  /** The content byte at `o`, unless it is elided (nothing at the end anchor). */
  function Literal(c: seq<byte>, ledger: seq<Edit>, o: nat): seq<byte>
    requires o <= |c|
  {
    if o < |c| && !Removed(ledger, o) then [c[o]] else []
  }

  /** What anchor `o` contributes to the output (left texts before right ones is a modelling choice). */
  function Slot(c: seq<byte>, ledger: seq<Edit>, o: nat): seq<byte>
    requires o <= |c|
  {
    Anchored(ledger, o, Left) + Anchored(ledger, o, Right) + Literal(c, ledger, o)
  }

  /** The output contributed by anchors a..b-1. */
  function Span(c: seq<byte>, ledger: seq<Edit>, a: nat, b: nat): seq<byte>
    requires a <= b <= |c| + 1
    decreases b - a
  {
    if a == b then [] else Slot(c, ledger, a) + Span(c, ledger, a + 1, b)
  }

  /** The edited logical content. */
  function Render(c: seq<byte>, ledger: seq<Edit>): seq<byte> {
    Span(c, ledger, 0, |c| + 1)
  }

  /** The inserted texts anchored at a..b-1, without any content bytes. */
  function InsertsIn(ledger: seq<Edit>, a: nat, b: nat): seq<byte>
    requires a <= b
    decreases b - a
  {
    if a == b then [] else Anchored(ledger, a, Left) + Anchored(ledger, a, Right) + InsertsIn(ledger, a + 1, b)
  }

  /** No edit is anchored at `o` and no remove covers it. */
  predicate Untouched(ledger: seq<Edit>, o: nat) {
    Anchored(ledger, o, Left) == [] && Anchored(ledger, o, Right) == [] && !Removed(ledger, o)
  }

  /**
   The two ledgers give every anchor in [a, b) the same slot. The range
   predicates are defined anchor by anchor, so that the lemmas walking a
   range unfold them one anchor at a time; `SameSlotsOf` and its siblings
   build them from the pointwise facts.
   */
  predicate SameSlots(c: seq<byte>, ledger: seq<Edit>, ledger': seq<Edit>, a: nat, b: nat)
    requires b <= |c| + 1
    decreases b - a
  {
    a >= b || (Slot(c, ledger, a) == Slot(c, ledger', a) && SameSlots(c, ledger, ledger', a + 1, b))
  }

  /** The two ledgers anchor the same texts, of both biases, at every anchor in [a, b). */
  predicate SameAnchors(ledger: seq<Edit>, ledger': seq<Edit>, a: nat, b: nat)
    decreases b - a
  {
    a >= b
    || (&& Anchored(ledger, a, Left) == Anchored(ledger', a, Left)
        && Anchored(ledger, a, Right) == Anchored(ledger', a, Right)
        && SameAnchors(ledger, ledger', a + 1, b))
  }

  /** Every content byte in [a, b) is elided. */
  predicate AllRemoved(ledger: seq<Edit>, a: nat, b: nat)
    decreases b - a
  {
    a >= b || (Removed(ledger, a) && AllRemoved(ledger, a + 1, b))
  }

  /** No anchor in [a, b) is touched by the ledger. */
  predicate AllUntouched(ledger: seq<Edit>, a: nat, b: nat)
    decreases b - a
  {
    a >= b || (Untouched(ledger, a) && AllUntouched(ledger, a + 1, b))
  }

  /** Builds `SameSlots` from agreement at every anchor of the range. */
  lemma {:induction false} SameSlotsOf(c: seq<byte>, ledger: seq<Edit>, ledger': seq<Edit>, a: nat, b: nat)
    requires b <= |c| + 1
    requires forall o :: a <= o < b ==> Slot(c, ledger, o) == Slot(c, ledger', o)
    ensures SameSlots(c, ledger, ledger', a, b)
    decreases b - a
  {
    if a < b {
      SameSlotsOf(c, ledger, ledger', a + 1, b);
    }
  }

  /** Builds `AllUntouched` from the fact at every anchor of the range. */
  lemma {:induction false} AllUntouchedOf(ledger: seq<Edit>, a: nat, b: nat)
    requires forall o :: a <= o < b ==> Untouched(ledger, o)
    ensures AllUntouched(ledger, a, b)
    decreases b - a
  {
    if a < b {
      AllUntouchedOf(ledger, a + 1, b);
    }
  }

  /** The output of a range is the output of its two halves. */
  lemma {:induction false} SpanSplit(c: seq<byte>, ledger: seq<Edit>, a: nat, m: nat, b: nat)
    requires a <= m <= b <= |c| + 1
    ensures Span(c, ledger, a, b) == Span(c, ledger, a, m) + Span(c, ledger, m, b)
    decreases m - a
  {
    if a < m {
      SpanSplit(c, ledger, a + 1, m, b);
    }
  }

  /** Two ledgers that agree on every slot of a range agree on its output. */
  lemma {:induction false} SpanFrame(c: seq<byte>, ledger: seq<Edit>, ledger': seq<Edit>, a: nat, b: nat)
    requires a <= b <= |c| + 1 && SameSlots(c, ledger, ledger', a, b)
    ensures Span(c, ledger, a, b) == Span(c, ledger', a, b)
    decreases b - a
  {
    if a < b {
      SpanFrame(c, ledger, ledger', a + 1, b);
    }
  }

  /** Two ledgers with the same anchored texts on a range insert the same there. */
  lemma {:induction false} InsertsInFrame(ledger: seq<Edit>, ledger': seq<Edit>, a: nat, b: nat)
    requires a <= b && SameAnchors(ledger, ledger', a, b)
    ensures InsertsIn(ledger, a, b) == InsertsIn(ledger', a, b)
    decreases b - a
  {
    if a < b {
      InsertsInFrame(ledger, ledger', a + 1, b);
    }
  }

  /** Content where no edit is anchored and nothing is removed is copied verbatim, in order. */
  lemma {:induction false} SpanUntouched(c: seq<byte>, ledger: seq<Edit>, a: nat, b: nat)
    requires a <= b <= |c| && AllUntouched(ledger, a, b)
    ensures Span(c, ledger, a, b) == c[a..b]
    decreases b - a
  {
    if a < b {
      assert Slot(c, ledger, a) == [c[a]];
      SpanUntouched(c, ledger, a + 1, b);
      assert c[a..b] == [c[a]] + c[a + 1..b];
    }
  }

  /** Over a range that is entirely removed, only the inserted texts remain. */
  lemma {:induction false} SpanElided(c: seq<byte>, ledger: seq<Edit>, a: nat, b: nat)
    requires a <= b <= |c| && AllRemoved(ledger, a, b)
    ensures Span(c, ledger, a, b) == InsertsIn(ledger, a, b)
    decreases b - a
  {
    if a < b {
      SpanElided(c, ledger, a + 1, b);
    }
  }

  /** With an empty ledger a range of anchors yields exactly its content bytes. */
  lemma {:induction false} PlainSpan(c: seq<byte>, a: nat, b: nat)
    requires a <= b <= |c|
    ensures Span(c, [], a, b) == c[a..b]
  {
    NothingTouched(a, b);
    SpanUntouched(c, [], a, b);
  }

  /** The empty ledger touches no anchor. */
  lemma {:induction false} NothingTouched(a: nat, b: nat)
    ensures AllUntouched([], a, b)
    decreases b - a
  {
    if a < b {
      NothingTouched(a + 1, b);
    }
  }

  /** With an empty ledger the anchors from `a` on yield the content from `a` on. */
  lemma {:induction false} PlainTail(c: seq<byte>, a: nat)
    requires a <= |c|
    ensures Span(c, [], a, |c| + 1) == c[a..]
  {
    NothingTouched(a, |c|);
    UntouchedTail(c, [], a);
  }

  /** With an empty ledger the output is the content itself. */
  lemma {:induction false} NoEdits(c: seq<byte>)
    ensures Render(c, []) == c
  {
    PlainTail(c, 0);
  }

  /** The output splits around anchor `p` into the anchors before it, its slot, and those after it. */
  lemma {:induction false} SpanAround(c: seq<byte>, ledger: seq<Edit>, p: nat)
    requires p <= |c|
    ensures Render(c, ledger) == Span(c, ledger, 0, p) + Slot(c, ledger, p) + Span(c, ledger, p + 1, |c| + 1)
  {
    SpanSplit(c, ledger, 0, p, |c| + 1);
  }

  /**
   Two ledgers that agree outside [p, q) give the same output there: only
   the output of the range itself can differ.
   */
  lemma {:induction false} FrameAround(c: seq<byte>, ledger: seq<Edit>, ledger': seq<Edit>, p: nat, q: nat)
    requires p <= q <= |c| + 1
    requires SameSlots(c, ledger, ledger', 0, p) && SameSlots(c, ledger, ledger', q, |c| + 1)
    ensures Render(c, ledger') == Span(c, ledger, 0, p) + Span(c, ledger', p, q) + Span(c, ledger, q, |c| + 1)
  {
    SpanAroundRange(c, ledger', p, q);
    SpanFrame(c, ledger, ledger', 0, p);
    SpanFrame(c, ledger, ledger', q, |c| + 1);
  }

  /** Edit `e` neither anchors a text at nor removes the byte of any anchor in [a, b). */
  predicate Clear(e: Edit, a: nat, b: nat) {
    match e
    case Insert(p, _, _) => !(a <= p < b)
    case Remove(p, l) => p + l <= a || b <= p || l == 0
  }

  /** Recording an edit leaves the slot of an anchor it does not touch unchanged. */
  lemma {:induction false} KeepsSlot(c: seq<byte>, ledger: seq<Edit>, e: Edit, o: nat)
    requires o <= |c| && Clear(e, o, o + 1)
    ensures Slot(c, ledger, o) == Slot(c, ledger + [e], o)
  {
    AnchoredAppend(ledger, e, o, Left);
    AnchoredAppend(ledger, e, o, Right);
    RemovedAppend(ledger, e, o);
  }

  /** Recording an edit leaves the slots of a range it does not touch unchanged. */
  lemma {:induction false} KeepsSlots(c: seq<byte>, ledger: seq<Edit>, e: Edit, a: nat, b: nat)
    requires b <= |c| + 1 && Clear(e, a, b)
    ensures SameSlots(c, ledger, ledger + [e], a, b)
    decreases b - a
  {
    if a < b {
      KeepsSlot(c, ledger, e, a);
      KeepsSlots(c, ledger, e, a + 1, b);
    }
  }

  /** After recording an insert, only the slot of its anchor differs. */
  lemma {:induction false} InsertAround(c: seq<byte>, ledger: seq<Edit>, p: nat, b: Bias, t: seq<byte>)
    requires p <= |c|
    ensures Render(c, ledger + [Insert(p, b, t)])
            == Span(c, ledger, 0, p) + Span(c, ledger + [Insert(p, b, t)], p, p + 1) + Span(c, ledger, p + 1, |c| + 1)
  {
    KeepsSlots(c, ledger, Insert(p, b, t), 0, p);
    KeepsSlots(c, ledger, Insert(p, b, t), p + 1, |c| + 1);
    FrameAround(c, ledger, ledger + [Insert(p, b, t)], p, p + 1);
  }

  /** Recording an insert appends its text to the texts of the same bias at its anchor. */
  lemma {:induction false} InsertSlot(c: seq<byte>, ledger: seq<Edit>, p: nat, b: Bias, t: seq<byte>)
    requires p <= |c|
    ensures Span(c, ledger + [Insert(p, b, t)], p, p + 1)
            == (if b == Left then (Anchored(ledger, p, Left) + t) + Anchored(ledger, p, Right)
                else Anchored(ledger, p, Left) + (Anchored(ledger, p, Right) + t))
               + Literal(c, ledger, p)
  {
    var e := Insert(p, b, t);
    RemovedAppend(ledger, e, p);
    assert Literal(c, ledger + [e], p) == Literal(c, ledger, p);
    assert Span(c, ledger + [e], p, p + 1) == Slot(c, ledger + [e], p) by {
      assert Slot(c, ledger + [e], p) + [] == Slot(c, ledger + [e], p);
    }
    AnchoredAppend(ledger, e, p, b);
    AnchoredAppend(ledger, e, p, Other(b));
    assert Anchored(ledger, p, Other(b)) + [] == Anchored(ledger, p, Other(b));
  }

  /** The other bias. */
  function Other(b: Bias): (o: Bias)
    ensures o != b
  {
    if b == Left then Right else Left
  }

  /**
   Recording an insert at anchor `p` splices its text into the output right
   after the earlier texts of the same bias at `p` (a left insert before every
   right insert at `p`); the output of every other anchor is unchanged.
   */
  lemma {:induction false} AppendInsert(c: seq<byte>, ledger: seq<Edit>, p: nat, b: Bias, t: seq<byte>)
    requires p <= |c|
    ensures Render(c, ledger)
            == Span(c, ledger, 0, p)
               + (Anchored(ledger, p, Left) + Anchored(ledger, p, Right) + Literal(c, ledger, p))
               + Span(c, ledger, p + 1, |c| + 1)
    ensures Render(c, ledger + [Insert(p, b, t)])
            == Span(c, ledger, 0, p)
               + ((if b == Left then (Anchored(ledger, p, Left) + t) + Anchored(ledger, p, Right)
                   else Anchored(ledger, p, Left) + (Anchored(ledger, p, Right) + t))
                  + Literal(c, ledger, p))
               + Span(c, ledger, p + 1, |c| + 1)
  {
    SpanAround(c, ledger, p);
    InsertAround(c, ledger, p, b, t);
    InsertSlot(c, ledger, p, b, t);
  }

  /** A remove anchors nothing. */
  lemma {:induction false} RemoveKeepsAnchors(ledger: seq<Edit>, p: nat, l: nat, a: nat, b: nat)
    ensures SameAnchors(ledger, ledger + [Remove(p, l)], a, b)
    decreases b - a
  {
    if a < b {
      AnchorsNothing(ledger, p, l, a, Left);
      AnchorsNothing(ledger, p, l, a, Right);
      RemoveKeepsAnchors(ledger, p, l, a + 1, b);
    }
  }

  /** A remove leaves the texts anchored at `o` as they were. */
  lemma {:induction false} AnchorsNothing(ledger: seq<Edit>, p: nat, l: nat, o: nat, b: Bias)
    ensures Anchored(ledger + [Remove(p, l)], o, b) == Anchored(ledger, o, b)
  {
    AnchoredAppend(ledger, Remove(p, l), o, b);
    assert Anchored(ledger, o, b) + [] == Anchored(ledger, o, b);
  }

  /** A remove elides every byte of its range from `a` on. */
  lemma {:induction false} RemoveCovers(ledger: seq<Edit>, p: nat, l: nat, a: nat)
    requires p <= a
    ensures AllRemoved(ledger + [Remove(p, l)], a, p + l)
    decreases p + l - a
  {
    if a < p + l {
      RemovedAppend(ledger, Remove(p, l), a);
      RemoveCovers(ledger, p, l, a + 1);
    }
  }

  /** The output splits around the range [p, q). */
  lemma {:induction false} SpanAroundRange(c: seq<byte>, ledger: seq<Edit>, p: nat, q: nat)
    requires p <= q <= |c| + 1
    ensures Render(c, ledger) == Span(c, ledger, 0, p) + Span(c, ledger, p, q) + Span(c, ledger, q, |c| + 1)
  {
    SpanSplit(c, ledger, 0, p, |c| + 1);
    SpanSplit(c, ledger, p, q, |c| + 1);
  }

  /**
   Recording `remove(p, l)` drops the content bytes of [p, p+l) and nothing
   else: the inserts anchored inside the range survive, in anchor order, and
   the output before and after the range is unchanged.
   */
  lemma {:induction false} AppendRemove(c: seq<byte>, ledger: seq<Edit>, p: nat, l: nat)
    requires p + l <= |c|
    ensures Render(c, ledger + [Remove(p, l)])
            == Span(c, ledger, 0, p) + InsertsIn(ledger, p, p + l) + Span(c, ledger, p + l, |c| + 1)
  {
    RemoveFacts(c, ledger, p, l);
    ElidedFrame(c, ledger, ledger + [Remove(p, l)], p, p + l);
  }

  /** Ledger `ledger'` agrees with `ledger` outside [p, q) and elides all of [p, q) without anchoring anything new there. */
  predicate ElidedRange(c: seq<byte>, ledger: seq<Edit>, ledger': seq<Edit>, p: nat, q: nat)
    requires p <= q <= |c|
  {
    && SameSlots(c, ledger, ledger', 0, p) && SameSlots(c, ledger, ledger', q, |c| + 1)
    && SameAnchors(ledger, ledger', p, q) && AllRemoved(ledger', p, q)
  }

  /** What recording `remove(p, l)` keeps, elides and anchors. */
  lemma {:induction false} RemoveFacts(c: seq<byte>, ledger: seq<Edit>, p: nat, l: nat)
    requires p + l <= |c|
    ensures ElidedRange(c, ledger, ledger + [Remove(p, l)], p, p + l)
  {
    var ledger' := ledger + [Remove(p, l)];
    assert SameSlots(c, ledger, ledger', 0, p) by {
      KeepsSlots(c, ledger, Remove(p, l), 0, p);
    }
    assert SameSlots(c, ledger, ledger', p + l, |c| + 1) by {
      KeepsSlots(c, ledger, Remove(p, l), p + l, |c| + 1);
    }
    assert SameAnchors(ledger, ledger', p, p + l) by {
      RemoveKeepsAnchors(ledger, p, l, p, p + l);
    }
    assert AllRemoved(ledger', p, p + l) by {
      RemoveCovers(ledger, p, l, p);
    }
  }

  /**
   A ledger that agrees with another outside [p, q), anchors the same texts
   inside it and elides every byte of it outputs only those texts there.
   */
  lemma {:induction false} ElidedFrame(c: seq<byte>, ledger: seq<Edit>, ledger': seq<Edit>, p: nat, q: nat)
    requires p <= q <= |c|
    requires ElidedRange(c, ledger, ledger', p, q)
    ensures Render(c, ledger') == Span(c, ledger, 0, p) + InsertsIn(ledger, p, q) + Span(c, ledger, q, |c| + 1)
  {
    FrameAround(c, ledger, ledger', p, q);
    SpanElided(c, ledger', p, q);
    InsertsInFrame(ledger, ledger', p, q);
  }

  /**
   A right insert at anchor `p` lands after every text anchored at `p` and
   before the content byte there: the output splits at that point and the
   text goes in between.
   */
  lemma {:induction false} AppendRight(c: seq<byte>, ledger: seq<Edit>, p: nat, t: seq<byte>)
    requires p <= |c|
    ensures Render(c, ledger)
            == (Span(c, ledger, 0, p) + Anchored(ledger, p, Left) + Anchored(ledger, p, Right))
               + (Literal(c, ledger, p) + Span(c, ledger, p + 1, |c| + 1))
    ensures Render(c, ledger + [Insert(p, Right, t)])
            == (Span(c, ledger, 0, p) + Anchored(ledger, p, Left) + Anchored(ledger, p, Right)) + t
               + (Literal(c, ledger, p) + Span(c, ledger, p + 1, |c| + 1))
  {
    AppendInsert(c, ledger, p, Right, t);
    Regroup(Span(c, ledger, 0, p), Anchored(ledger, p, Left), Anchored(ledger, p, Right), t,
            Literal(c, ledger, p), Span(c, ledger, p + 1, |c| + 1));
  }

  /**
   Reassociating the pieces of an output around one anchor. The pieces are
   kept abstract here: regrouping the concrete spans in place costs the
   solver far more.
   */
  lemma {:induction false} Regroup(head: seq<byte>, left: seq<byte>, right: seq<byte>, t: seq<byte>, lit: seq<byte>, rest: seq<byte>)
    ensures head + (left + right + lit) + rest == (head + left + right) + (lit + rest)
    ensures head + (left + (right + t) + lit) + rest == (head + left + right) + t + (lit + rest)
  {
  }

  /** Equal sequences with equal tails have equal heads. */
  lemma {:induction false} CancelRight(x: seq<byte>, y: seq<byte>, z: seq<byte>)
    requires x + z == y + z
    ensures x == y
  {
    assert x == (x + z)[..|x|];
  }

  /**
   An anchor where nothing is inserted yet, with untouched anchors before it:
   the output up to the anchor is the content up to it.
   */
  lemma {:induction false} FreshAnchor(c: seq<byte>, ledger: seq<Edit>, p: nat, head: seq<byte>, tail: seq<byte>)
    requires p <= |c| && AllUntouched(ledger, 0, p)
    requires Anchored(ledger, p, Left) == [] && Anchored(ledger, p, Right) == []
    requires Render(c, ledger) == head + tail && |head| == p
    ensures Span(c, ledger, 0, p) + Anchored(ledger, p, Left) + Anchored(ledger, p, Right) == c[..p]
    ensures Literal(c, ledger, p) + Span(c, ledger, p + 1, |c| + 1) == tail
  {
    SpanUntouched(c, ledger, 0, p);
    AppendRight(c, ledger, p, []);
    var x := Span(c, ledger, 0, p) + Anchored(ledger, p, Left) + Anchored(ledger, p, Right);
    assert x == Render(c, ledger)[..|x|] && Literal(c, ledger, p) + Span(c, ledger, p + 1, |c| + 1) == Render(c, ledger)[|x|..];
    assert head == Render(c, ledger)[..|head|] && tail == Render(c, ledger)[|head|..];
  }

  /** A single right insert splices its text in at its anchor. */
  lemma {:induction false} SingleRightInsert(c: seq<byte>, p: nat, t: seq<byte>)
    requires p <= |c|
    ensures Render(c, [Insert(p, Right, t)]) == c[..p] + t + c[p..]
  {
    assert [] + [Insert(p, Right, t)] == [Insert(p, Right, t)];
    NoEdits(c);
    assert c == c[..p] + c[p..];
    NothingTouched(0, p);
    FreshAnchor(c, [], p, c[..p], c[p..]);
    AppendRight(c, [], p, t);
  }

  /** With no other edit at its anchor, the bias of a single insert does not matter. */
  lemma {:induction false} BiasSymmetry(c: seq<byte>, p: nat, t: seq<byte>)
    requires p <= |c|
    ensures Render(c, [Insert(p, Left, t)]) == Render(c, [Insert(p, Right, t)])
  {
    forall o | 0 <= o < |c| + 1 ensures Slot(c, [Insert(p, Left, t)], o) == Slot(c, [Insert(p, Right, t)], o) {
      ShortLedger(Insert(p, Left, t), Insert(p, Left, t), o);
      ShortLedger(Insert(p, Right, t), Insert(p, Right, t), o);
      assert t + [] == t;
    }
    SameSlotsOf(c, [Insert(p, Left, t)], [Insert(p, Right, t)], 0, |c| + 1);
    SpanFrame(c, [Insert(p, Left, t)], [Insert(p, Right, t)], 0, |c| + 1);
  }

  /** A single insert, of either bias, splices its text in at its anchor. */
  lemma {:induction false} SingleInsert(c: seq<byte>, p: nat, b: Bias, t: seq<byte>)
    requires p <= |c|
    ensures Render(c, [Insert(p, b, t)]) == c[..p] + t + c[p..]
  {
    SingleRightInsert(c, p, t);
    if b == Left {
      BiasSymmetry(c, p, t);
    }
  }

  /** A single remove elides exactly the bytes of [p, p+l). */
  lemma {:induction false} SingleRemove(c: seq<byte>, p: nat, l: nat)
    requires p + l <= |c|
    ensures Render(c, [Remove(p, l)]) == c[..p] + c[p + l..]
  {
    AppendRemove(c, [], p, l);
    assert [] + [Remove(p, l)] == [Remove(p, l)];
    PlainSpan(c, 0, p);
    PlainTail(c, p + l);
    EmptyLedgerInsertsNothing(p, p + l);
    assert Span(c, [], 0, p) + InsertsIn([], p, p + l) + Span(c, [], p + l, |c| + 1) == c[..p] + [] + c[p + l..];
  }

  /** A remove leaves the anchors before its start untouched and anchors nothing at its start. */
  lemma {:induction false} RemoveLeavesHead(p: nat, m: nat)
    ensures AllUntouched([Remove(p, m)], 0, p)
    ensures Anchored([Remove(p, m)], p, Left) == [] && Anchored([Remove(p, m)], p, Right) == []
  {
    forall o | 0 <= o < p ensures Untouched([Remove(p, m)], o) {
      ShortLedger(Remove(p, m), Remove(p, m), o);
    }
    AllUntouchedOf([Remove(p, m)], 0, p);
    ShortLedger(Remove(p, m), Remove(p, m), p);
  }

  /**
   After `remove(p, m)`, a right insert at the start of the removed range
   takes the place of the removed bytes.
   */
  lemma {:induction false} InsertAtRemovedStart(c: seq<byte>, p: nat, m: nat, t: seq<byte>)
    requires p + m <= |c|
    ensures Render(c, [Remove(p, m), Insert(p, Right, t)]) == c[..p] + t + c[p + m..]
  {
    assert [Remove(p, m)] + [Insert(p, Right, t)] == [Remove(p, m), Insert(p, Right, t)];
    SingleRemove(c, p, m);
    RemoveLeavesHead(p, m);
    FreshAnchor(c, [Remove(p, m)], p, c[..p], c[p + m..]);
    AppendRight(c, [Remove(p, m)], p, t);
  }

  /**
   After `remove(p, m)` and a right insert at its start, a right insert at
   its end follows the first insert: both survive, in offset order.
   */
  lemma {:induction false} InsertAtRemovedEnd(c: seq<byte>, p: nat, m: nat, t: seq<byte>, u: seq<byte>)
    requires p + m <= |c|
    ensures Render(c, [Remove(p, m), Insert(p, Right, t), Insert(p + m, Right, u)])
            == c[..p] + t + u + c[p + m..]
  {
    assert [Remove(p, m), Insert(p, Right, t)] + [Insert(p + m, Right, u)]
           == [Remove(p, m), Insert(p, Right, t), Insert(p + m, Right, u)];
    InsertAtRemovedStart(c, p, m, t);
    AppendRight(c, [Remove(p, m), Insert(p, Right, t)], p + m, u);
    TailAfterRange(c, p, m, t);
    var ledger := [Remove(p, m), Insert(p, Right, t)];
    var head := Span(c, ledger, 0, p + m) + Anchored(ledger, p + m, Left) + Anchored(ledger, p + m, Right);
    CancelRight(head, c[..p] + t, c[p + m..]);
  }

  /** From the end of the range [p, p+m) on, the content is kept. */
  lemma {:induction false} TailAfterRange(c: seq<byte>, p: nat, m: nat, t: seq<byte>)
    requires p + m <= |c|
    ensures Literal(c, [Remove(p, m), Insert(p, Right, t)], p + m)
            + Span(c, [Remove(p, m), Insert(p, Right, t)], p + m + 1, |c| + 1) == c[p + m..]
  {
    if p + m < |c| {
      TailBeforeEnd(c, p, m, t);
    } else {
      assert Literal(c, [Remove(p, m), Insert(p, Right, t)], p + m) == [];
      assert Span(c, [Remove(p, m), Insert(p, Right, t)], p + m + 1, |c| + 1) == [];
    }
  }

  /** `TailAfterRange` when the range ends before the last byte. */
  lemma {:induction false} TailBeforeEnd(c: seq<byte>, p: nat, m: nat, t: seq<byte>)
    requires p + m < |c|
    ensures Literal(c, [Remove(p, m), Insert(p, Right, t)], p + m)
            + Span(c, [Remove(p, m), Insert(p, Right, t)], p + m + 1, |c| + 1) == c[p + m..]
  {
    KeptFrom(p, m, t, p + m);
    AfterInserts(p, m, t, |c|);
    KeptTail(c, [Remove(p, m), Insert(p, Right, t)], p + m);
  }

  /**
   From a kept byte on, a ledger that touches nothing further outputs the
   content unchanged.
   */
  lemma {:induction false} KeptTail(c: seq<byte>, ledger: seq<Edit>, q: nat)
    requires q < |c| && !Removed(ledger, q)
    requires AllUntouched(ledger, q + 1, |c|) && Untouched(ledger, |c|)
    ensures Literal(c, ledger, q) + Span(c, ledger, q + 1, |c| + 1) == c[q..]
  {
    UntouchedTail(c, ledger, q + 1);
    assert c[q..] == [c[q]] + c[q + 1..];
  }

  /** The byte at the end of the removed range is kept. */
  lemma {:induction false} KeptFrom(p: nat, m: nat, t: seq<byte>, o: nat)
    requires p + m <= o
    ensures !Removed([Remove(p, m), Insert(p, Right, t)], o)
  {
    ShortLedger(Remove(p, m), Insert(p, Right, t), o);
  }

  /** Anchors past the end of the range [p, p+m) are untouched by the remove and the insert at p. */
  lemma {:induction false} AfterInserts(p: nat, m: nat, t: seq<byte>, n: nat)
    requires p + m < n
    ensures AllUntouched([Remove(p, m), Insert(p, Right, t)], p + m + 1, n)
    ensures Untouched([Remove(p, m), Insert(p, Right, t)], n)
  {
    forall o | p + m + 1 <= o < n + 1 ensures Untouched([Remove(p, m), Insert(p, Right, t)], o) {
      ShortLedger(Remove(p, m), Insert(p, Right, t), o);
    }
    AllUntouchedOf([Remove(p, m), Insert(p, Right, t)], p + m + 1, n);
  }

  /** Where every anchor from `a` on is untouched, the output from `a` on is the content from `a` on. */
  lemma {:induction false} UntouchedTail(c: seq<byte>, ledger: seq<Edit>, a: nat)
    requires a <= |c| && AllUntouched(ledger, a, |c|) && Untouched(ledger, |c|)
    ensures Span(c, ledger, a, |c| + 1) == c[a..]
  {
    SpanUntouched(c, ledger, a, |c|);
    SpanSplit(c, ledger, a, |c|, |c| + 1);
    assert Span(c, ledger, |c|, |c| + 1) == [] by {
      assert Span(c, ledger, |c| + 1, |c| + 1) == [];
    }
    assert c[a..|c|] == c[a..];
  }

  /** The empty ledger inserts nothing anywhere. */
  lemma {:induction false} EmptyLedgerInsertsNothing(a: nat, b: nat)
    requires a <= b
    ensures InsertsIn([], a, b) == []
    decreases b - a
  {
    if a < b {
      EmptyLedgerInsertsNothing(a + 1, b);
    }
  }

  /**
   No recorded insert is ever lost, whatever is removed around it: its text
   occurs contiguously in the output at its own anchor, after the output of
   the anchors before it, after the left texts there if it is right-biased,
   and after the texts of its bias recorded before it. This holds because a
   remove elides content bytes only, never an inserted text, whether the
   insert was recorded before the remove or after it (a modelling choice).
   */
  lemma {:induction false} InsertSurvives(c: seq<byte>, ledger: seq<Edit>, k: nat) returns (i: nat)
    requires k < |ledger| && ledger[k].Insert? && ledger[k].pos <= |c|
    ensures i == |Span(c, ledger, 0, ledger[k].pos)|
                 + (if ledger[k].bias == Left then 0 else |Anchored(ledger, ledger[k].pos, Left)|)
                 + |Anchored(ledger[..k], ledger[k].pos, ledger[k].bias)|
    ensures i + |ledger[k].text| <= |Render(c, ledger)|
    ensures Render(c, ledger)[i..i + |ledger[k].text|] == ledger[k].text
  {
    var before, after := AnchoredHas(ledger, k);
    i := SurvivesAt(c, ledger, ledger[k].pos, ledger[k].bias, before, ledger[k].text, after);
  }

  /**
   A text anchored at `p` with bias `b` occurs contiguously in the output,
   inside the slot of `p`: behind the anchors before `p`, behind the left
   texts at `p` if `b` is right, and behind what precedes it in its bias.
   */
  lemma {:induction false} SurvivesAt(c: seq<byte>, ledger: seq<Edit>, p: nat, b: Bias,
                                      before: seq<byte>, t: seq<byte>, after: seq<byte>) returns (i: nat)
    requires p <= |c| && Anchored(ledger, p, b) == before + t + after
    ensures i == |Span(c, ledger, 0, p)| + (if b == Left then 0 else |Anchored(ledger, p, Left)|) + |before|
    ensures i + |t| <= |Render(c, ledger)| && Render(c, ledger)[i..i + |t|] == t
  {
    SpanAround(c, ledger, p);
    i := InfixOfSlot(Render(c, ledger), Span(c, ledger, 0, p), Slot(c, ledger, p), Span(c, ledger, p + 1, |c| + 1),
                     Anchored(ledger, p, Left), Anchored(ledger, p, Right), Literal(c, ledger, p),
                     before, t, after, b == Left);
  }

  /** Where a text sits inside one side of a slot, as a slice of the whole output. */
  lemma {:induction false} InfixOfSlot(s: seq<byte>, head: seq<byte>, slot: seq<byte>, rest: seq<byte>,
                                       left: seq<byte>, right: seq<byte>, lit: seq<byte>,
                                       before: seq<byte>, t: seq<byte>, after: seq<byte>, onLeft: bool)
    returns (i: nat)
    requires s == head + slot + rest && slot == left + right + lit
    requires if onLeft then left == before + t + after else right == before + t + after
    ensures i == |head| + (if onLeft then 0 else |left|) + |before|
    ensures i + |t| <= |s| && s[i..i + |t|] == t
  {
    var x := head + (if onLeft then [] else left) + before;
    var z := if onLeft then after + right + lit + rest else after + lit + rest;
    assert s == x + t + z;
    i := |x|;
  }
}
