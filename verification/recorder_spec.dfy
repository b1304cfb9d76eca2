/**
 The recorder's asserted test cases, stated over the model: each lemma
 builds the recorder the way the test does and pins the applied output.
 Buffers are the UTF-8 encodings of the tests' ASCII strings, and the
 U+FEFF prefix is the three-byte mark.
 */
module RecorderSpec {
  import opened Octets
  import opened Snapshots
  import Ledger
  import opened Applier
  import opened Recorder

  /** Content that begins with a byte other than 0xEF carries no byte-order mark. */
  lemma {:induction false} NoMark(content: seq<byte>)
    requires |content| > 0 && content[0] != 0xEF
    ensures !StartsWithBom(content)
  {
  }

  /** A recorder created from mark-free content has the whole content as its logical content. */
  lemma {:induction false} PlainRecorder(content: seq<byte>)
    requires !StartsWithBom(content)
    ensures CreateFromFileEntry(content).snapshot == Snapshot([], content)
  {
  }

  /** A recorder created from marked content counts offsets from after the mark. */
  lemma {:induction false} MarkedRecorder(x: seq<byte>)
    ensures CreateFromFileEntry(Utf8Bom + x).snapshot == Snapshot(Utf8Bom, x)
  {
    assert (Utf8Bom + x)[..3] == Utf8Bom;
  }

  function HelloWorld(): (c: seq<byte>)
    ensures |c| == 11 && c[0] == 'H' as int as byte
    ensures c == Ascii("Hello") + Ascii(" World")
  {
    AsciiAppend("Hello", " World");
    Ascii("Hello World")
  }

  /** The spliced text of the two insert cases. */
  lemma {:induction false} HelloBeautifulWorld()
    ensures Ascii("Hello") + Ascii(" beautiful") + Ascii(" World") == Ascii("Hello beautiful World")
  {
    AsciiAppend("Hello", " beautiful");
    AsciiAppend("Hello beautiful", " World");
  }

  /** "works for simple files": insertLeft(5, " beautiful") on "Hello World". */
  lemma {:induction false} WorksForSimpleFiles()
    ensures |CreateFromFileEntry(HelloWorld()).snapshot.text| == 11
    ensures Output(InsertLeft(CreateFromFileEntry(HelloWorld()), 5, Ascii(" beautiful")))
            == Ascii("Hello beautiful World")
  {
    var c, t := HelloWorld(), Ascii(" beautiful");
    NoMark(c);
    PlainRecorder(c);
    var r := InsertLeft(CreateFromFileEntry(c), 5, t);
    assert r == UpdateRecorder(Snapshot([], c), [Ledger.Insert(5, Ledger.Left, t)]);
    SingleInsert(c, 5, Ledger.Left, t);
    assert c[..5] == Ascii("Hello") && c[5..] == Ascii(" World");
    HelloBeautifulWorld();
    assert Output(r) == [] + (Ascii("Hello") + t + Ascii(" World"));
  }

  /** "works for simple files (2)": insertRight(5, " beautiful") gives the same output. */
  lemma {:induction false} WorksForSimpleFilesRight()
    ensures |CreateFromFileEntry(HelloWorld()).snapshot.text| == 11
    ensures Output(InsertRight(CreateFromFileEntry(HelloWorld()), 5, Ascii(" beautiful")))
            == Ascii("Hello beautiful World")
  {
    var c, t := HelloWorld(), Ascii(" beautiful");
    NoMark(c);
    PlainRecorder(c);
    var r := InsertRight(CreateFromFileEntry(c), 5, t);
    assert r == UpdateRecorder(Snapshot([], c), [Ledger.Insert(5, Ledger.Right, t)]);
    SingleInsert(c, 5, Ledger.Right, t);
    assert c[..5] == Ascii("Hello") && c[5..] == Ascii(" World");
    HelloBeautifulWorld();
    assert Output(r) == [] + (Ascii("Hello") + t + Ascii(" World"));
  }

  function HelloBeautiful(): (c: seq<byte>)
    ensures |c| == 21 && c[0] == 'H' as int as byte
    ensures c == Ascii("Hello ") + Ascii("beautiful") + Ascii(" World")
  {
    AsciiAppend("Hello ", "beautiful");
    AsciiAppend("Hello beautiful", " World");
    Ascii("Hello beautiful World")
  }

  /**
   A remove followed by right-biased inserts at both of its boundaries, on
   any mark-free content: the removed bytes are gone and both texts stand in
   their place, in offset order.
   */
  lemma {:induction false} RemoveThenBoundaryInserts(c: seq<byte>, p: nat, m: nat, t: seq<byte>, u: seq<byte>)
    requires p + m <= |c| && !StartsWithBom(c)
    ensures Output(InsertRight(InsertRight(Remove(CreateFromFileEntry(c), p, m), p, t), p + m, u))
            == c[..p] + t + u + c[p + m..]
  {
    BoundaryLedger(c, p, m, t, u);
    InsertAtRemovedEnd(c, p, m, t, u);
    assert Output(UpdateRecorder(Snapshot([], c),
                                 [Ledger.Remove(p, m), Ledger.Insert(p, Ledger.Right, t), Ledger.Insert(p + m, Ledger.Right, u)]))
           == [] + (c[..p] + t + u + c[p + m..]);
  }

  /** The recorder of the boundary-inserts case holds the three edits in call order. */
  lemma {:induction false} BoundaryLedger(c: seq<byte>, p: nat, m: nat, t: seq<byte>, u: seq<byte>)
    requires p + m <= |c| && !StartsWithBom(c)
    ensures InsertRight(InsertRight(Remove(CreateFromFileEntry(c), p, m), p, t), p + m, u)
            == UpdateRecorder(Snapshot([], c),
                              [Ledger.Remove(p, m), Ledger.Insert(p, Ledger.Right, t), Ledger.Insert(p + m, Ledger.Right, u)])
  {
    PlainRecorder(c);
  }

  /**
   "works with multiple adjacent inserts": on "Hello beautiful World",
   remove(6, 9), then insertRight(6, "amazing"), then
   insertRight(15, " and fantastic"). Both inserts sit on a boundary of the
   removed range and both survive, in offset order.
   */
  lemma {:induction false} MultipleAdjacentInserts()
    ensures |CreateFromFileEntry(HelloBeautiful()).snapshot.text| == 21
    ensures Output(
              InsertRight(
                InsertRight(Remove(CreateFromFileEntry(HelloBeautiful()), 6, 9), 6, Ascii("amazing")),
                15, Ascii(" and fantastic")))
            == Ascii("Hello amazing and fantastic World")
  {
    var c, am, af := HelloBeautiful(), Ascii("amazing"), Ascii(" and fantastic");
    NoMark(c);
    PlainRecorder(c);
    RemoveThenBoundaryInserts(c, 6, 9, am, af);
    AmazingPieces(c);
  }

  /** The pieces of the adjacent-inserts case spell the expected text. */
  lemma {:induction false} AmazingPieces(c: seq<byte>)
    requires c == Ascii("Hello ") + Ascii("beautiful") + Ascii(" World")
    ensures c[..6] + Ascii("amazing") + Ascii(" and fantastic") + c[15..]
            == Ascii("Hello amazing and fantastic World")
  {
    assert c[..6] == Ascii("Hello ") && c[15..] == Ascii(" World");
    AsciiAppend("Hello ", "amazing");
    AsciiAppend("Hello amazing", " and fantastic");
    AsciiAppend("Hello amazing and fantastic", " World");
  }

  /** "can create the proper recorder": plain content, no mark, nothing recorded. */
  lemma {:induction false} CanCreatePlain()
    ensures var r := CreateFromFileEntry(Ascii("hello"));
            !r.snapshot.HasBom() && r.snapshot.text == Ascii("hello") && r.ledger == []
  {
    NoMark(Ascii("hello"));
    PlainRecorder(Ascii("hello"));
  }

  /** "can create the proper recorder (bom)": the mark is detected and stripped. */
  lemma {:induction false} CanCreateWithBom()
    ensures var r := CreateFromFileEntry(Utf8Bom + Ascii("hello"));
            r.snapshot.bom == Utf8Bom && r.snapshot.text == Ascii("hello") && r.ledger == []
  {
    MarkedRecorder(Ascii("hello"));
  }

  /** "supports empty files": no mark is detected, the logical content is empty. */
  lemma {:induction false} SupportsEmptyFiles()
    ensures var r := CreateFromFileEntry([]);
            !r.snapshot.HasBom() && |r.snapshot.text| == 0 && Output(r) == []
  {
  }

  /** "supports empty files (bom)": the mark alone leaves empty logical content. */
  lemma {:induction false} SupportsEmptyFilesWithBom()
    ensures var r := CreateFromFileEntry(Utf8Bom);
            r.snapshot.HasBom() && |r.snapshot.text| == 0 && Output(r) == Utf8Bom
  {
    MarkedRecorder([]);
    assert Utf8Bom + [] == Utf8Bom;
  }

  /**
   UpdateRecorderBom "works for simple files": with the mark in front of
   "Hello World", insertLeft(5, " beautiful") counts from after the mark and
   the mark is re-emitted unchanged.
   */
  lemma {:induction false} BomWorksForSimpleFiles()
    ensures |CreateFromFileEntry(Utf8Bom + HelloWorld()).snapshot.text| == 11
    ensures Output(InsertLeft(CreateFromFileEntry(Utf8Bom + HelloWorld()), 5, Ascii(" beautiful")))
            == Utf8Bom + Ascii("Hello beautiful World")
  {
    var c, t := HelloWorld(), Ascii(" beautiful");
    MarkedRecorder(c);
    var r := InsertLeft(CreateFromFileEntry(Utf8Bom + c), 5, t);
    assert r == UpdateRecorder(Snapshot(Utf8Bom, c), [Ledger.Insert(5, Ledger.Left, t)]);
    SingleInsert(c, 5, Ledger.Left, t);
    assert c[..5] == Ascii("Hello") && c[5..] == Ascii(" World");
    HelloBeautifulWorld();
    assert Output(r) == Utf8Bom + (Ascii("Hello") + t + Ascii(" World"));
  }
}
