/** The Xen PVH note walk of crates/vmm-boot/src/elf.rs. */
module ElfNotes {
  import opened Prelude

  const NHDR_SIZE: nat := 12
  const XEN_ELFNOTE_PHYS32_ENTRY: int := 18
  /** "Xen" and its terminator. */
  const XEN_NOTE_NAME: seq<byte> := [0x58, 0x65, 0x6E, 0x00]

  /** The one error the walk can report: a Xen descriptor too short for an address. */
  datatype NoteError = ShortDescriptor

  /** The least multiple of four from `x` on. */
  function Align4(x: nat): (y: nat)
    ensures x <= y < x + 4 && y % 4 == 0
  {
    (x + 3) / 4 * 4
  }

  function Read32(b: seq<byte>, at: nat): int
    requires at + 4 <= |b|
  {
    Le32(b[at..at + 4])
  }

  // ----- notes as data

  datatype Note = Note(ntype: int, name: seq<byte>, desc: seq<byte>)
  {
    predicate Ok() { 0 <= ntype <= U32_MAX && |name| <= U32_MAX && |desc| <= U32_MAX }
    predicate IsXenEntry() { ntype == XEN_ELFNOTE_PHYS32_ENTRY && name == XEN_NOTE_NAME }
  }

  /** Zeros up to the next 4-byte boundary. */
  function Pad(n: nat): seq<byte> { seq(Align4(n) - n, _ => 0) }

  function Header(n: Note): (h: seq<byte>)
    requires n.Ok()
    ensures |h| == NHDR_SIZE
  {
    ToLe32(|n.name|) + ToLe32(|n.desc|) + ToLe32(n.ntype)
  }

  function Padded(x: seq<byte>): (p: seq<byte>)
    ensures |p| == Align4(|x|) && x <= p
  {
    x + Pad(|x|)
  }

  function EncodeNote(n: Note): (b: seq<byte>)
    requires n.Ok()
    ensures |b| == NHDR_SIZE + Align4(|n.name|) + Align4(|n.desc|)
  {
    Header(n) + Padded(n.name) + Padded(n.desc)
  }

  ghost predicate AllOk(notes: seq<Note>) { forall n :: n in notes ==> n.Ok() }

  function Encode(notes: seq<Note>): seq<byte>
    requires forall n :: n in notes ==> n.Ok()
  {
    if notes == [] then [] else EncodeNote(notes[0]) + Encode(notes[1..])
  }

  /** The reference: the first Xen entry note decides. */
  function FirstEntry(notes: seq<Note>): Result<Option<int>, NoteError>
  {
    if notes == [] then Ok(None)
    else if !notes[0].IsXenEntry() then FirstEntry(notes[1..])
    else if |notes[0].desc| < 4 then Err(ShortDescriptor)
    else Ok(Some(Le32(notes[0].desc[..4])))
  }

  // ----- the walk on arbitrary bytes

  /** One turn of the walk: it ends, or goes on at a later cursor. */
  datatype Turn = Stop(r: Result<Option<int>, NoteError>) | Go(cursor: nat)

  function TurnAt(b: seq<byte>, cursor: nat): (t: Turn)
    ensures t.Go? ==> cursor < t.cursor < |b| + 4
  {
    var hdrEnd := cursor + NHDR_SIZE;
    if hdrEnd > |b| then Stop(Ok(None))
    else
      TurnWith(b, hdrEnd, Read32(b, cursor), Read32(b, cursor + 4), Read32(b, cursor + 8))
  }

  /** The rest of a turn, once the header is read. */
  function TurnWith(b: seq<byte>, hdrEnd: nat, nameSize: int, descSize: int, ntype: int): (t: Turn)
    requires hdrEnd <= |b| && 0 <= nameSize && 0 <= descSize
    ensures t.Go? ==> hdrEnd <= t.cursor < |b| + 4
  {
    var nameEnd := hdrEnd + nameSize;
    if nameEnd > |b| then Stop(Ok(None))
    else
      var descAt := Align4(nameEnd);
      var descEnd := descAt + descSize;
      if descEnd > |b| then Stop(Ok(None))
      else if ntype == XEN_ELFNOTE_PHYS32_ENTRY && nameSize == |XEN_NOTE_NAME|
              && b[hdrEnd..nameEnd] == XEN_NOTE_NAME then
        Stop(if descSize < 4 then Err(ShortDescriptor) else Ok(Some(Read32(b, descAt))))
      else Go(Align4(descEnd))
  }

  /** The walk from `cursor`, on any bytes: every step is in bounds and moves on. */
  function Walk(b: seq<byte>, cursor: nat): Result<Option<int>, NoteError>
    decreases |b| + 4 - cursor
  {
    match TurnAt(b, cursor)
    case Stop(r) => r
    case Go(next) => Walk(b, next)
  }

  /** Walk one note segment. A slice is shorter than 2^63, so no cursor step overflows. */
  method FindXenPhys32Entry(b: seq<byte>) returns (r: Result<Option<int>, NoteError>)
    requires |b| <= I64_MAX
    ensures r == Walk(b, 0)
  {
    var cursor := 0;
    while true
      invariant 0 <= cursor <= I64_MAX + 4 && Walk(b, cursor) == Walk(b, 0)
      decreases |b| + 4 - cursor
    {
      var turn := TurnAt(b, cursor);
      if turn.Stop? {
        return turn.r;
      }
      assert turn.cursor > cursor && turn.cursor + NHDR_SIZE <= U64_MAX;
      cursor := turn.cursor;
    }
  }

  // ----- the walk undoes the encoding

  lemma Middle<T>(a: seq<T>, m: seq<T>, c: seq<T>)
    ensures (a + m + c)[|a|..|a| + |m|] == m
  {
  }

  lemma ReadAt(b: seq<byte>, a: seq<byte>, v: int, c: seq<byte>)
    requires 0 <= v <= U32_MAX && b == a + ToLe32(v) + c
    ensures Read32(b, |a|) == v
  {
    Middle(a, ToLe32(v), c);
    Le32RoundTrip(v);
  }

  lemma HeaderFields(b: seq<byte>, pre: seq<byte>, n: Note, rest: seq<byte>)
    requires n.Ok() && b == pre + Header(n) + rest
    ensures Read32(b, |pre|) == |n.name| && Read32(b, |pre| + 4) == |n.desc| && Read32(b, |pre| + 8) == n.ntype
  {
    var (x, y, z) := (ToLe32(|n.name|), ToLe32(|n.desc|), ToLe32(n.ntype));
    assert b == pre + x + (y + z + rest);
    ReadAt(b, pre, |n.name|, y + z + rest);
    assert b == (pre + x) + y + (z + rest);
    ReadAt(b, pre + x, |n.desc|, z + rest);
    assert b == (pre + x + y) + z + rest;
    ReadAt(b, pre + x + y, n.ntype, rest);
  }

  lemma AlignShift(base: nat, n: nat)
    requires base % 4 == 0
    ensures Align4(base + n) == base + Align4(n)
  {
  }

  /** A field that starts a padded block is read back whole. */
  lemma PaddedField(b: seq<byte>, pre: seq<byte>, x: seq<byte>, rest: seq<byte>)
    requires b == pre + Padded(x) + rest
    ensures |pre| + |x| <= |b| && b[|pre|..|pre| + |x|] == x
  {
    assert b == pre + x + (Pad(|x|) + rest);
    Middle(pre, x, Pad(|x|) + rest);
  }

  /** Name and descriptor sit at their padded places behind the header. */
  lemma BodyFields(b: seq<byte>, head: seq<byte>, n: Note, rest: seq<byte>)
    requires b == head + Padded(n.name) + Padded(n.desc) + rest && |head| % 4 == 0
    ensures var descAt := Align4(|head| + |n.name|);
            && |head| + |n.name| <= |b| && b[|head|..|head| + |n.name|] == n.name
            && descAt + |n.desc| <= |b| && b[descAt..descAt + |n.desc|] == n.desc
            && Align4(descAt + |n.desc|) == |head| + Align4(|n.name|) + Align4(|n.desc|)
  {
    var named := head + Padded(n.name);
    assert b == head + Padded(n.name) + (Padded(n.desc) + rest);
    PaddedField(b, head, n.name, Padded(n.desc) + rest);
    PaddedField(b, named, n.desc, rest);
    AlignShift(|head|, |n.name|);
    AlignShift(|named|, |n.desc|);
  }

  lemma NoteParts(pre: seq<byte>, h: seq<byte>, x: seq<byte>, y: seq<byte>, rest: seq<byte>)
    ensures pre + (h + x + y) + rest == pre + h + (x + y + rest) == (pre + h) + x + y + rest
  {
  }

  /** The turn at the start of a note is the note itself. */
  lemma TurnOfNote(b: seq<byte>, pre: seq<byte>, n: Note, rest: seq<byte>)
    requires n.Ok() && b == pre + EncodeNote(n) + rest && |pre| % 4 == 0
    ensures TurnAt(b, |pre|) ==
            if !n.IsXenEntry() then Go(|pre + EncodeNote(n)|)
            else if |n.desc| < 4 then Stop(Err(ShortDescriptor))
            else Stop(Ok(Some(Le32(n.desc[..4]))))
  {
    var head := pre + Header(n);
    NoteParts(pre, Header(n), Padded(n.name), Padded(n.desc), rest);
    BodyFields(b, head, n, rest);
    TurnFields(b, |head|, Align4(|head| + |n.name|), n);
    HeaderTurn(b, pre, n, Padded(n.name) + Padded(n.desc) + rest);
  }

  lemma HeaderTurn(b: seq<byte>, pre: seq<byte>, n: Note, rest: seq<byte>)
    requires n.Ok() && b == pre + Header(n) + rest
    ensures TurnAt(b, |pre|) == TurnWith(b, |pre| + NHDR_SIZE, |n.name|, |n.desc|, n.ntype)
  {
    HeaderFields(b, pre, n, rest);
  }

  lemma FirstFour(b: seq<byte>, at: nat, n: nat)
    requires 4 <= n && at + n <= |b|
    ensures b[at..at + 4] == b[at..at + n][..4]
  {
  }

  lemma TurnFields(b: seq<byte>, hdrEnd: nat, descAt: nat, n: Note)
    requires hdrEnd + |n.name| <= |b| && b[hdrEnd..hdrEnd + |n.name|] == n.name
    requires descAt == Align4(hdrEnd + |n.name|) && descAt + |n.desc| <= |b|
    requires b[descAt..descAt + |n.desc|] == n.desc
    ensures TurnWith(b, hdrEnd, |n.name|, |n.desc|, n.ntype) ==
            if !n.IsXenEntry() then Go(Align4(descAt + |n.desc|))
            else if |n.desc| < 4 then Stop(Err(ShortDescriptor))
            else Stop(Ok(Some(Le32(n.desc[..4]))))
  {
    if |n.desc| >= 4 {
      FirstFour(b, descAt, |n.desc|);
    }
  }

  lemma Regroup(pre: seq<byte>, a: seq<byte>, b: seq<byte>, rest: seq<byte>)
    ensures pre + (a + b) + rest == pre + a + (b + rest) == (pre + a) + b + rest
  {
  }

  /** From the start of any note on, the walk answers what the list of notes says. */
  lemma {:induction false} WalkEncoded(b: seq<byte>, pre: seq<byte>, notes: seq<Note>, rest: seq<byte>)
    requires AllOk(notes) && b == pre + Encode(notes) + rest && |pre| % 4 == 0 && |rest| < NHDR_SIZE
    ensures Walk(b, |pre|) == FirstEntry(notes)
    decreases |notes|
  {
    if notes != [] {
      var n := notes[0];
      var tail := Encode(notes[1..]) + rest;
      Regroup(pre, EncodeNote(n), Encode(notes[1..]), rest);
      TurnOfNote(b, pre, n, tail);
      if !n.IsXenEntry() {
        Regroup(pre, EncodeNote(n), Encode(notes[1..]), rest);
        WalkEncoded(b, pre + EncodeNote(n), notes[1..], rest);
      }
    }
  }

  /** For every list of padded notes, and up to eleven stray bytes, the first Xen entry note decides. */
  lemma NotesDecide(notes: seq<Note>, rest: seq<byte>)
    requires AllOk(notes) && |rest| < NHDR_SIZE
    ensures Walk(Encode(notes) + rest, 0) == FirstEntry(notes)
  {
    var b := Encode(notes) + rest;
    assert b == [] + Encode(notes) + rest;
    WalkEncoded(b, [], notes, rest);
  }
}
