/**
 The update recorder: created from a file entry's content, it records
 `insertLeft`, `insertRight` and `remove` calls against the snapshot and
 `apply` then produces the edited content, with any byte-order mark
 re-emitted in front. Recording only appends to the ledger; `apply` only
 reads.
 */
module Recorder {
  import opened Octets
  import opened Snapshots
  import Ledger
  import opened Applier

  datatype UpdateRecorder = UpdateRecorder(snapshot: Snapshot, ledger: seq<Ledger.Edit>) {

    /** Every recorded edit fits into the logical content. */
    predicate Valid() {
      forall k :: 0 <= k < |ledger| ==> Ledger.InRange(ledger[k], |snapshot.text|)
    }
  }

  /** The edited file: the byte-order mark, then the edited logical content. */
  function Output(r: UpdateRecorder): (out: seq<byte>)
    ensures |r.snapshot.bom| <= |out| && out[..|r.snapshot.bom|] == r.snapshot.bom
  {
    r.snapshot.bom + Render(r.snapshot.text, r.ledger)
  }

  /** The output of the anchors before `pos`, behind the byte-order mark. */
  function Before(r: UpdateRecorder, pos: nat): seq<byte>
    requires pos <= |r.snapshot.text|
  {
    r.snapshot.bom + Span(r.snapshot.text, r.ledger, 0, pos)
  }

  /** The output of the anchors from `pos` on. */
  function From(r: UpdateRecorder, pos: nat): seq<byte>
    requires pos <= |r.snapshot.text| + 1
  {
    Span(r.snapshot.text, r.ledger, pos, |r.snapshot.text| + 1)
  }

  /** Text recorded so far at anchor `pos` with bias `b`. */
  function At(r: UpdateRecorder, pos: nat, b: Ledger.Bias): seq<byte> {
    Ledger.Anchored(r.ledger, pos, b)
  }

  /** The content byte at `pos` as the output currently shows it (empty if removed). */
  function ByteAt(r: UpdateRecorder, pos: nat): seq<byte>
    requires pos <= |r.snapshot.text|
  {
    Literal(r.snapshot.text, r.ledger, pos)
  }

  /**
   What `apply` produces, anchor by anchor: the mark, the output of the
   anchors before `pos`, then at `pos` the left texts, the right texts and
   the content byte unless a remove covers it, then the output of the
   anchors after `pos`. Nothing precedes anchor 0 but the mark, and nothing
   follows the end anchor.
   */
  lemma {:induction false} OutputAround(r: UpdateRecorder, pos: nat)
    requires pos <= |r.snapshot.text|
    ensures Output(r) == Before(r, pos) + (At(r, pos, Ledger.Left) + At(r, pos, Ledger.Right) + ByteAt(r, pos)) + From(r, pos + 1)
    ensures ByteAt(r, pos) == (if pos < |r.snapshot.text| && !Ledger.Removed(r.ledger, pos) then [r.snapshot.text[pos]] else [])
    ensures Before(r, 0) == r.snapshot.bom && From(r, |r.snapshot.text| + 1) == []
  {
    SpanAround(r.snapshot.text, r.ledger, pos);
    BehindMark(r.snapshot.bom, Render(r.snapshot.text, r.ledger), Span(r.snapshot.text, r.ledger, 0, pos),
               At(r, pos, Ledger.Left) + At(r, pos, Ledger.Right) + ByteAt(r, pos), From(r, pos + 1));
    assert Before(r, 0) == r.snapshot.bom + [];
  }

  /**
   Creates a recorder for a file entry's content: plain content and content
   behind a UTF-8 byte-order mark are both accepted, including the empty
   file and the file that is only the mark. Before any edit, the output is
   the content unchanged.
   */
  function CreateFromFileEntry(content: seq<byte>): (r: UpdateRecorder)
    ensures r.ledger == [] && r.Valid()
    ensures r.snapshot.Content() == content
    ensures r.snapshot.HasBom() <==> StartsWithBom(content)
    ensures r.snapshot.bom == (if StartsWithBom(content) then Utf8Bom else [])
    ensures r.snapshot == Capture(content)
    ensures Output(r) == content
  {
    var s := Capture(content);
    NoEdits(s.text);
    UpdateRecorder(s, [])
  }

  /**
   Records `insertLeft(pos, text)`. Recording only appends: the snapshot and
   every edit recorded before are kept. Where the text lands is stated by
   `InsertLeftPlacement`.
   */
  function InsertLeft(r: UpdateRecorder, pos: nat, text: seq<byte>): (r': UpdateRecorder)
    requires pos <= |r.snapshot.text|
    ensures r'.snapshot == r.snapshot && r.ledger < r'.ledger
    ensures r.Valid() ==> r'.Valid()
  {
    Record(r, Ledger.Insert(pos, Ledger.Left, text))
  }

  /** Records `insertRight(pos, text)`; placement is stated by `InsertRightPlacement`. */
  function InsertRight(r: UpdateRecorder, pos: nat, text: seq<byte>): (r': UpdateRecorder)
    requires pos <= |r.snapshot.text|
    ensures r'.snapshot == r.snapshot && r.ledger < r'.ledger
    ensures r.Valid() ==> r'.Valid()
  {
    Record(r, Ledger.Insert(pos, Ledger.Right, text))
  }

  /**
   Records `remove(pos, len)`; what it drops and keeps is stated by
   `RemovePlacement`.
   */
  function Remove(r: UpdateRecorder, pos: nat, len: nat): (r': UpdateRecorder)
    requires pos + len <= |r.snapshot.text|
    ensures r'.snapshot == r.snapshot && r.ledger < r'.ledger
    ensures r.Valid() ==> r'.Valid()
  {
    Record(r, Ledger.Remove(pos, len))
  }

  /** Appends one edit to the ledger; shared by the three recording calls. */
  function Record(r: UpdateRecorder, e: Ledger.Edit): (r': UpdateRecorder)
    requires Ledger.InRange(e, |r.snapshot.text|)
    ensures r'.snapshot == r.snapshot && r.ledger < r'.ledger
    ensures r.Valid() ==> r'.Valid()
  {
    var r' := UpdateRecorder(r.snapshot, r.ledger + [e]);
    assert r'.ledger[|r.ledger|] == e;
    assert r'.ledger[..|r.ledger|] == r.ledger;
    r'
  }

  /**
   `insertLeft(pos, text)` lands at anchor `pos`, after the left texts
   recorded there before and before every right text there; the rest of the
   output is unchanged.
   */
  lemma {:induction false} InsertLeftPlacement(r: UpdateRecorder, pos: nat, text: seq<byte>)
    requires pos <= |r.snapshot.text|
    ensures Output(r) == Before(r, pos) + (At(r, pos, Ledger.Left) + At(r, pos, Ledger.Right) + ByteAt(r, pos)) + From(r, pos + 1)
    ensures Output(InsertLeft(r, pos, text))
            == Before(r, pos) + ((At(r, pos, Ledger.Left) + text) + At(r, pos, Ledger.Right) + ByteAt(r, pos)) + From(r, pos + 1)
  {
    InsertPlacement(r, pos, Ledger.Left, text);
  }

  /**
   `insertRight(pos, text)` lands at anchor `pos`, after every text recorded
   there before, left ones included; the rest of the output is unchanged.
   */
  lemma {:induction false} InsertRightPlacement(r: UpdateRecorder, pos: nat, text: seq<byte>)
    requires pos <= |r.snapshot.text|
    ensures Output(r) == Before(r, pos) + (At(r, pos, Ledger.Left) + At(r, pos, Ledger.Right) + ByteAt(r, pos)) + From(r, pos + 1)
    ensures Output(InsertRight(r, pos, text))
            == Before(r, pos) + (At(r, pos, Ledger.Left) + (At(r, pos, Ledger.Right) + text) + ByteAt(r, pos)) + From(r, pos + 1)
  {
    InsertPlacement(r, pos, Ledger.Right, text);
  }

  lemma {:induction false} InsertPlacement(r: UpdateRecorder, pos: nat, b: Ledger.Bias, text: seq<byte>)
    requires pos <= |r.snapshot.text|
    ensures Output(r) == Before(r, pos) + (At(r, pos, Ledger.Left) + At(r, pos, Ledger.Right) + ByteAt(r, pos)) + From(r, pos + 1)
    ensures Output(Record(r, Ledger.Insert(pos, b, text)))
            == Before(r, pos)
               + ((if b == Ledger.Left then (At(r, pos, Ledger.Left) + text) + At(r, pos, Ledger.Right)
                   else At(r, pos, Ledger.Left) + (At(r, pos, Ledger.Right) + text))
                  + ByteAt(r, pos))
               + From(r, pos + 1)
  {
    AppendInsert(r.snapshot.text, r.ledger, pos, b, text);
    BehindMark(r.snapshot.bom, Render(r.snapshot.text, r.ledger), Span(r.snapshot.text, r.ledger, 0, pos),
               At(r, pos, Ledger.Left) + At(r, pos, Ledger.Right) + ByteAt(r, pos), From(r, pos + 1));
    BehindMark(r.snapshot.bom, Render(r.snapshot.text, r.ledger + [Ledger.Insert(pos, b, text)]), Span(r.snapshot.text, r.ledger, 0, pos),
               (if b == Ledger.Left then (At(r, pos, Ledger.Left) + text) + At(r, pos, Ledger.Right)
                else At(r, pos, Ledger.Left) + (At(r, pos, Ledger.Right) + text))
               + ByteAt(r, pos), From(r, pos + 1));
  }

  /**
   Putting the byte-order mark in front of a three-part output. The parts are
   kept abstract here: regrouping the concrete spans in place costs the
   solver far more.
   */
  lemma {:induction false} BehindMark(bom: seq<byte>, s: seq<byte>, head: seq<byte>, mid: seq<byte>, tail: seq<byte>)
    requires s == head + mid + tail
    ensures bom + s == (bom + head) + mid + tail
  {
  }

  /**
   `remove(pos, len)` drops the content bytes of [pos, pos+len) from the
   output, while every text inserted at an anchor inside the range survives,
   in anchor order; the output before and after the range is unchanged.
   */
  lemma {:induction false} RemovePlacement(r: UpdateRecorder, pos: nat, len: nat)
    requires pos + len <= |r.snapshot.text|
    ensures Output(r) == Before(r, pos) + Span(r.snapshot.text, r.ledger, pos, pos + len) + From(r, pos + len)
    ensures Output(Remove(r, pos, len)) == Before(r, pos) + InsertsIn(r.ledger, pos, pos + len) + From(r, pos + len)
  {
    SpanAroundRange(r.snapshot.text, r.ledger, pos, pos + len);
    AppendRemove(r.snapshot.text, r.ledger, pos, len);
    BehindMark(r.snapshot.bom, Render(r.snapshot.text, r.ledger), Span(r.snapshot.text, r.ledger, 0, pos),
               Span(r.snapshot.text, r.ledger, pos, pos + len), From(r, pos + len));
    BehindMark(r.snapshot.bom, Render(r.snapshot.text, r.ledger + [Ledger.Remove(pos, len)]), Span(r.snapshot.text, r.ledger, 0, pos),
               InsertsIn(r.ledger, pos, pos + len), From(r, pos + len));
  }

  /**
   `apply(buffer)`: the buffer must be the content the recorder was created
   from. Collects, in one pass over the ledger, the left and right texts per
   anchor and the removed offsets, then emits anchor by anchor behind the
   byte-order mark.
   */
  method Apply(r: UpdateRecorder, buffer: seq<byte>) returns (out: seq<byte>)
    requires buffer == r.snapshot.Content()
    ensures out == Output(r)
  {
    var lefts, rights, removed := Collect(r.snapshot.text, r.ledger);
    var body := Emit(r.snapshot.text, r.ledger, lefts, rights, removed);
    out := r.snapshot.bom + body;
  }

  /** Per-anchor buckets that agree with the ledger over content of length `n`. */
  ghost predicate Buckets(ledger: seq<Ledger.Edit>, n: nat,
                          lefts: seq<seq<byte>>, rights: seq<seq<byte>>, removed: seq<bool>)
  {
    && |lefts| == n + 1 && |rights| == n + 1 && |removed| == n
    && (forall o :: 0 <= o <= n ==> lefts[o] == Ledger.Anchored(ledger, o, Ledger.Left))
    && (forall o :: 0 <= o <= n ==> rights[o] == Ledger.Anchored(ledger, o, Ledger.Right))
    && (forall i :: 0 <= i < n ==> removed[i] == Ledger.Removed(ledger, i))
  }

  /** One pass over the ledger, in call order, filling the buckets. */
  method Collect(c: seq<byte>, ledger: seq<Ledger.Edit>)
    returns (lefts: seq<seq<byte>>, rights: seq<seq<byte>>, removed: seq<bool>)
    ensures |lefts| == |c| + 1 && |rights| == |c| + 1 && |removed| == |c|
    ensures forall o :: 0 <= o <= |c| ==> lefts[o] == Ledger.Anchored(ledger, o, Ledger.Left)
    ensures forall o :: 0 <= o <= |c| ==> rights[o] == Ledger.Anchored(ledger, o, Ledger.Right)
    ensures forall i :: 0 <= i < |c| ==> removed[i] == Ledger.Removed(ledger, i)
  {
    var n := |c|;
    lefts, rights, removed := seq(n + 1, _ => []), seq(n + 1, _ => []), seq(n, _ => false);
    var k := 0;
    while k < |ledger|
      invariant 0 <= k <= |ledger|
      invariant Buckets(ledger[..k], n, lefts, rights, removed)
    {
      var e := ledger[k];
      var lefts0, rights0, removed0 := lefts, rights, removed;
      match e {
        case Insert(p, b, t) =>
          if p <= n {
            if b == Ledger.Left {
              lefts := lefts[p := lefts[p] + t];
            } else {
              rights := rights[p := rights[p] + t];
            }
          }
        case Remove(p, l) =>
          removed := seq(n, i requires 0 <= i < n => removed[i] || (p <= i < p + l));
      }
      CollectStep(ledger, k, n, lefts0, rights0, removed0, lefts, rights, removed);
      k := k + 1;
    }
    assert ledger[..k] == ledger;
  }

  /** Buckets extended by exactly what one more edit contributes agree with the longer ledger. */
  lemma {:induction false} CollectStep(ledger: seq<Ledger.Edit>, k: nat, n: nat,
                    lefts: seq<seq<byte>>, rights: seq<seq<byte>>, removed: seq<bool>,
                    lefts': seq<seq<byte>>, rights': seq<seq<byte>>, removed': seq<bool>)
    requires k < |ledger| && Buckets(ledger[..k], n, lefts, rights, removed)
    requires |lefts'| == n + 1 && |rights'| == n + 1 && |removed'| == n
    requires forall o :: 0 <= o <= n ==> lefts'[o] == lefts[o] + Ledger.Contribution(ledger[k], o, Ledger.Left)
    requires forall o :: 0 <= o <= n ==> rights'[o] == rights[o] + Ledger.Contribution(ledger[k], o, Ledger.Right)
    requires forall i :: 0 <= i < n ==> removed'[i] == (removed[i] || Ledger.Covers(ledger[k], i))
    ensures Buckets(ledger[..k + 1], n, lefts', rights', removed')
  {
    assert ledger[..k + 1] == ledger[..k] + [ledger[k]];
    forall o | 0 <= o <= n
      ensures lefts'[o] == Ledger.Anchored(ledger[..k + 1], o, Ledger.Left)
      ensures rights'[o] == Ledger.Anchored(ledger[..k + 1], o, Ledger.Right)
    {
      Ledger.AnchoredAppend(ledger[..k], ledger[k], o, Ledger.Left);
      Ledger.AnchoredAppend(ledger[..k], ledger[k], o, Ledger.Right);
    }
    forall i | 0 <= i < n ensures removed'[i] == Ledger.Removed(ledger[..k + 1], i) {
      Ledger.RemovedAppend(ledger[..k], ledger[k], i);
    }
  }

  /** Emits the buckets anchor by anchor: left texts, right texts, then the byte unless removed. */
  method Emit(c: seq<byte>, ledger: seq<Ledger.Edit>,
              lefts: seq<seq<byte>>, rights: seq<seq<byte>>, removed: seq<bool>)
    returns (out: seq<byte>)
    requires |lefts| == |c| + 1 && |rights| == |c| + 1 && |removed| == |c|
    requires forall o :: 0 <= o <= |c| ==> lefts[o] == Ledger.Anchored(ledger, o, Ledger.Left)
    requires forall o :: 0 <= o <= |c| ==> rights[o] == Ledger.Anchored(ledger, o, Ledger.Right)
    requires forall i :: 0 <= i < |c| ==> removed[i] == Ledger.Removed(ledger, i)
    ensures out == Render(c, ledger)
  {
    out := [];
    var o := 0;
    while o <= |c|
      invariant 0 <= o <= |c| + 1
      invariant out + Span(c, ledger, o, |c| + 1) == Render(c, ledger)
    {
      EmitStep(c, ledger, o, out, lefts[o] + rights[o] + (if o < |c| && !removed[o] then [c[o]] else []));
      out := out + (lefts[o] + rights[o] + (if o < |c| && !removed[o] then [c[o]] else []));
      o := o + 1;
    }
  }

  /**
   Emitting the slot of anchor `o` moves it from the pending anchors to the
   output. Stated apart from `Emit`, whose loop context makes the step costly.
   */
  lemma {:induction false} EmitStep(c: seq<byte>, ledger: seq<Ledger.Edit>, o: nat, out: seq<byte>, piece: seq<byte>)
    requires o <= |c| && out + Span(c, ledger, o, |c| + 1) == Render(c, ledger)
    requires piece == Slot(c, ledger, o)
    ensures out + piece + Span(c, ledger, o + 1, |c| + 1) == Render(c, ledger)
  {
  }

  /**
   A byte-order mark is transparent: with the mark in front of content that
   does not itself start with one, the same ledger yields the mark followed
   by exactly the output for the bare content.
   */
  lemma {:induction false} BomTransparency(x: seq<byte>, ledger: seq<Ledger.Edit>)
    requires !StartsWithBom(x)
    ensures Output(UpdateRecorder(Capture(Utf8Bom + x), ledger))
            == Utf8Bom + Output(UpdateRecorder(Capture(x), ledger))
  {
    assert (Utf8Bom + x)[..3] == Utf8Bom;
    var s := Capture(Utf8Bom + x);
    assert s.bom == Utf8Bom;
    assert s.text == x;
    assert Capture(x).bom == [];
  }

  /**
   No recorded insert is lost to a remove, whichever range the remove
   covers: the insert's text occurs contiguously in the output at its own
   anchor, behind the mark and the output of the anchors before it, behind
   the left texts there if it is right-biased, and behind the texts of its
   bias recorded before it. This rests on the modelling choice that a
   remove elides content bytes only, never an inserted text.
   */
  lemma {:induction false} InsertNeverLost(r: UpdateRecorder, k: nat) returns (i: nat)
    requires r.Valid() && k < |r.ledger| && r.ledger[k].Insert?
    ensures r.ledger[k].pos <= |r.snapshot.text|
    ensures i == |Before(r, r.ledger[k].pos)|
                 + (if r.ledger[k].bias == Ledger.Left then 0 else |At(r, r.ledger[k].pos, Ledger.Left)|)
                 + |Ledger.Anchored(r.ledger[..k], r.ledger[k].pos, r.ledger[k].bias)|
    ensures i + |r.ledger[k].text| <= |Output(r)|
    ensures Output(r)[i..i + |r.ledger[k].text|] == r.ledger[k].text
  {
    assert Ledger.InRange(r.ledger[k], |r.snapshot.text|);
    var j := InsertSurvives(r.snapshot.text, r.ledger, k);
    i := |r.snapshot.bom| + j;
    var rendered := Render(r.snapshot.text, r.ledger);
    assert Output(r)[i..i + |r.ledger[k].text|] == rendered[j..j + |r.ledger[k].text|];
  }
}
