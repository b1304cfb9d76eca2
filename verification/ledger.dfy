/**
 The edit ledger: the append-only list of edits recorded against a snapshot,
 in call order. Every offset counts into the logical content (after any
 byte-order mark).
 */
module Ledger {
  import opened Octets

  /** Which side of an anchor an insertion is placed on. */
  datatype Bias = Left | Right

  datatype Edit =
    | Insert(pos: nat, bias: Bias, text: seq<byte>)
    | Remove(pos: nat, len: nat)

  /** The edit fits into logical content of length `n`. */
  predicate InRange(e: Edit, n: nat) {
    match e
    case Insert(p, _, _) => p <= n
    case Remove(p, l) => p + l <= n
  }

  /** `e` removes the content byte at offset `i`. */
  predicate Covers(e: Edit, i: nat) {
    e.Remove? && e.pos <= i < e.pos + e.len
  }

  /**
   The byte at offset `i` is elided: some remove covers it. Overlapping
   removes therefore elide the union of their ranges (a modelling choice).
   */
  predicate Removed(ledger: seq<Edit>, i: nat) {
    exists k {:trigger Covers(ledger[k], i)} :: 0 <= k < |ledger| && Covers(ledger[k], i)
  }

  /**
   The texts of the inserts anchored at `o` with bias `b`, concatenated in
   call order (the tie-break among same-bias inserts is a modelling choice).
   */
  function Anchored(ledger: seq<Edit>, o: nat, b: Bias): seq<byte>
    decreases |ledger|
  {
    if ledger == [] then []
    else Anchored(ledger[..|ledger| - 1], o, b) + Contribution(ledger[|ledger| - 1], o, b)
  }

  /** The text `e` inserts at anchor `o` with bias `b` (empty for every other edit). */
  function Contribution(e: Edit, o: nat, b: Bias): seq<byte> {
    if e.Insert? && e.pos == o && e.bias == b then e.text else []
  }

  /** Recording an edit extends the anchored texts only at its own anchor and bias. */
  lemma {:induction false} AnchoredAppend(ledger: seq<Edit>, e: Edit, o: nat, b: Bias)
    ensures Anchored(ledger + [e], o, b) == Anchored(ledger, o, b) + Contribution(e, o, b)
  {
    assert (ledger + [e])[..|ledger|] == ledger;
  }

  /** What a ledger of one or two edits anchors and removes. */
  lemma {:induction false} ShortLedger(e1: Edit, e2: Edit, o: nat)
    ensures forall b :: Anchored([e1], o, b) == Contribution(e1, o, b)
    ensures forall b :: Anchored([e1, e2], o, b) == Contribution(e1, o, b) + Contribution(e2, o, b)
    ensures Removed([e1], o) <==> Covers(e1, o)
    ensures Removed([e1, e2], o) <==> Covers(e1, o) || Covers(e2, o)
  {
    assert [] + [e1] == [e1];
    assert [e1] + [e2] == [e1, e2];
    forall b ensures Anchored([e1], o, b) == Contribution(e1, o, b) {
      AnchoredAppend([], e1, o, b);
    }
    forall b ensures Anchored([e1, e2], o, b) == Contribution(e1, o, b) + Contribution(e2, o, b) {
      AnchoredAppend([e1], e2, o, b);
    }
    RemovedAppend([], e1, o);
    RemovedAppend([e1], e2, o);
  }

  /** Recording an edit elides exactly what it covers in addition to what was elided. */
  lemma {:induction false} RemovedAppend(ledger: seq<Edit>, e: Edit, i: nat)
    ensures Removed(ledger + [e], i) <==> Removed(ledger, i) || Covers(e, i)
  {
    var ledger' := ledger + [e];
    if Removed(ledger, i) {
      var k :| 0 <= k < |ledger| && Covers(ledger[k], i);
      assert ledger'[k] == ledger[k];
    }
    if Covers(e, i) {
      assert ledger'[|ledger|] == e;
    }
    if Removed(ledger', i) {
      var k :| 0 <= k < |ledger'| && Covers(ledger'[k], i);
      if k < |ledger| {
        assert ledger'[k] == ledger[k];
      }
    }
  }

  /** The texts a ledger anchors are those of its first part, then those of the rest. */
  lemma {:induction false} AnchoredConcat(x: seq<Edit>, y: seq<Edit>, o: nat, b: Bias)
    ensures Anchored(x + y, o, b) == Anchored(x, o, b) + Anchored(y, o, b)
    decreases |y|
  {
    if y == [] {
      assert x + y == x;
    } else {
      var y0, e := y[..|y| - 1], y[|y| - 1];
      assert x + y == (x + y0) + [e] by {
        assert y == y0 + [e];
      }
      AnchoredConcat(x, y0, o, b);
      AnchoredAppend(x + y0, e, o, b);
    }
  }

  /**
   A recorded insert's text occurs inside the anchored text of its anchor and
   bias: exactly what the edits recorded before it anchor there comes first,
   and exactly what the edits recorded after it anchor there follows.
   */
  lemma {:induction false} AnchoredHas(ledger: seq<Edit>, k: nat) returns (before: seq<byte>, after: seq<byte>)
    requires k < |ledger| && ledger[k].Insert?
    ensures Anchored(ledger, ledger[k].pos, ledger[k].bias) == before + ledger[k].text + after
    ensures before == Anchored(ledger[..k], ledger[k].pos, ledger[k].bias)
    ensures after == Anchored(ledger[k + 1..], ledger[k].pos, ledger[k].bias)
  {
    var e := ledger[k];
    var head := ledger[..k + 1];
    assert head == ledger[..k] + [e];
    assert ledger == head + ledger[k + 1..];
    AnchoredConcat(head, ledger[k + 1..], e.pos, e.bias);
    AnchoredAppend(ledger[..k], e, e.pos, e.bias);
    before, after := Anchored(ledger[..k], e.pos, e.bias), Anchored(ledger[k + 1..], e.pos, e.bias);
  }
}
