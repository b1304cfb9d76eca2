/**
 The snapshot a recorder is created from: a file entry's content, split once
 into an optional UTF-8 byte-order mark and the logical content that every
 edit offset counts into.
 */
module Snapshots {
  import opened Octets

  /** The UTF-8 encoding of U+FEFF (section 6 of RFC 3629). */
  const Utf8Bom: seq<byte> := [0xEF, 0xBB, 0xBF]

  /** The content begins with the UTF-8 byte-order mark. */
  predicate StartsWithBom(content: seq<byte>) {
    |content| >= 3 && content[..3] == Utf8Bom
  }

  /** `bom` is empty or the mark; `text` is the logical content. */
  datatype Snapshot = Snapshot(bom: seq<byte>, text: seq<byte>) {

    /** The raw content the snapshot was taken from. */
    function Content(): seq<byte> {
      bom + text
    }

    predicate HasBom() {
      bom != []
    }
  }

  /** Detects the mark once; offsets are then relative to what follows it. */
  function Capture(content: seq<byte>): (s: Snapshot)
    ensures s.Content() == content
    ensures s.HasBom() <==> StartsWithBom(content)
    ensures s.HasBom() ==> s.bom == Utf8Bom
  {
    if StartsWithBom(content) then
      assert content == content[..3] + content[3..];
      Snapshot(Utf8Bom, content[3..])
    else
      Snapshot([], content)
  }
}
