/**
 * The fw_cfg device of crates/vmm-devices/src/fwcfg.rs: items behind a
 * selector port and a data port, and a directory of the named ones. The
 * device's calls are modelled one after another. The second half is the
 * guest's side: reading an item through the ports and decoding the directory.
 */
module FwCfgModel {
  import opened Prelude

  const SEL_SIGNATURE: int := 0x0000
  const SEL_ID: int := 0x0001
  const SEL_FILE_DIR: int := 0x0019
  const FIRST_FILE_SELECTOR: int := 0x0020
  const MAX_NAME_LEN: int := 56
  /** The selectors from the first file selector to the last there is. */
  const FILE_SLOTS: int := 0xFFE0

  /** A directory entry; `size` is the 32-bit field. */
  datatype File = File(name: seq<byte>, selector: int, size: int)
  {
    predicate Ok() { 0 <= selector <= U16_MAX && 0 <= size <= U32_MAX }
  }

  /** One `insert_named` call. */
  datatype Named = Named(name: seq<byte>, data: seq<byte>)

  // ----- big-endian integers

  function Be32(b: seq<byte>): (v: int)
    requires |b| == 4
    ensures 0 <= v <= U32_MAX
  {
    Le16(b[3], b[2]) + 0x1_0000 * Le16(b[1], b[0])
  }

  function ToBe16(v: int): (b: seq<byte>)
    requires 0 <= v <= U16_MAX
    ensures |b| == 2
  {
    [v / 0x100, v % 0x100]
  }

  function ToBe32(v: int): (b: seq<byte>)
    requires 0 <= v <= U32_MAX
    ensures |b| == 4
  {
    ToBe16(v / 0x1_0000) + ToBe16(v % 0x1_0000)
  }

  lemma Be16RoundTrip(v: int)
    requires 0 <= v <= U16_MAX
    ensures Le16(ToBe16(v)[1], ToBe16(v)[0]) == v
  {
  }

  lemma Be32RoundTrip(v: int)
    requires 0 <= v <= U32_MAX
    ensures Be32(ToBe32(v)) == v
  {
    var (hi, lo) := (v / 0x1_0000, v % 0x1_0000);
    Be16RoundTrip(hi);
    Be16RoundTrip(lo);
  }

  // ----- the order of names

  /** Bytes compared one by one, a prefix before what extends it. */
  predicate NameLe(a: seq<byte>, b: seq<byte>)
  {
    a == [] || (b != [] && (a[0] < b[0] || (a[0] == b[0] && NameLe(a[1..], b[1..]))))
  }

  lemma {:induction false} NameTotal(a: seq<byte>, b: seq<byte>)
    ensures NameLe(a, b) || NameLe(b, a)
  {
    if a != [] && b != [] {
      NameTotal(a[1..], b[1..]);
    }
  }

  lemma {:induction false} NameTrans(a: seq<byte>, b: seq<byte>, c: seq<byte>)
    requires NameLe(a, b) && NameLe(b, c)
    ensures NameLe(a, c)
  {
    if a != [] && a[0] == b[0] == c[0] {
      NameTrans(a[1..], b[1..], c[1..]);
    }
  }

  lemma {:induction false} NameAnti(a: seq<byte>, b: seq<byte>)
    requires NameLe(a, b) && NameLe(b, a)
    ensures a == b
  {
    if a != [] {
      NameAnti(a[1..], b[1..]);
      assert a == [a[0]] + a[1..] && b == [b[0]] + b[1..];
    }
  }

  /** By name, and files of one name in the order they were inserted. */
  predicate Before(a: File, b: File)
  {
    NameLe(a.name, b.name) && (a.name == b.name ==> a.selector < b.selector)
  }

  ghost predicate Ordered(s: seq<File>)
  {
    forall i, j :: 0 <= i < j < |s| ==> Before(s[i], s[j])
  }

  /** A stable sort by name. */
  function SortByName(s: seq<File>): (out: seq<File>)
    ensures |out| == |s|
  {
    if s == [] then [] else Place(SortByName(s[..|s| - 1]), s[|s| - 1])
  }

  function Place(sorted: seq<File>, f: File): (out: seq<File>)
    ensures |out| == |sorted| + 1
  {
    if sorted == [] then [f] else
      var (init, last) := (sorted[..|sorted| - 1], sorted[|sorted| - 1]);
      if NameLe(last.name, f.name) then sorted + [f] else Place(init, f) + [last]
  }

  lemma {:induction false} PlaceBag(sorted: seq<File>, f: File)
    ensures multiset(Place(sorted, f)) == multiset(sorted) + multiset{f}
  {
    if sorted != [] {
      var (init, last) := (sorted[..|sorted| - 1], sorted[|sorted| - 1]);
      assert sorted == init + [last];
      PlaceBag(init, f);
    }
  }

  /** Sorting loses and adds nothing. */
  lemma {:induction false} SortBag(s: seq<File>)
    ensures multiset(SortByName(s)) == multiset(s)
  {
    if s != [] {
      var (init, last) := (s[..|s| - 1], s[|s| - 1]);
      assert s == init + [last];
      SortBag(init);
      PlaceBag(SortByName(init), last);
    }
  }

  lemma {:induction false} PlaceOrdered(sorted: seq<File>, f: File)
    requires Ordered(sorted) && forall x :: x in sorted ==> x.selector < f.selector
    ensures Ordered(Place(sorted, f))
  {
    if sorted != [] {
      var (init, last) := (sorted[..|sorted| - 1], sorted[|sorted| - 1]);
      if NameLe(last.name, f.name) {
        forall i | 0 <= i < |sorted|
          ensures Before(sorted[i], f)
        {
          assert sorted[i] in sorted;
          if i < |sorted| - 1 {
            NameTrans(sorted[i].name, last.name, f.name);
          }
        }
      } else {
        NameTotal(last.name, f.name);
        PlaceOrdered(init, f);
        var r := Place(init, f);
        PlaceBag(init, f);
        forall i | 0 <= i < |r|
          ensures Before(r[i], last)
        {
          assert r[i] in multiset(r);
          if r[i] != f {
            assert r[i] in init;
          }
        }
      }
    }
  }

  /** Files with rising selectors come out ordered. */
  lemma {:induction false} SortOrders(s: seq<File>)
    requires forall i, j :: 0 <= i < j < |s| ==> s[i].selector < s[j].selector
    ensures Ordered(SortByName(s))
  {
    if s != [] {
      var init := s[..|s| - 1];
      SortOrders(init);
      SortBag(init);
      forall x | x in SortByName(init)
        ensures x.selector < s[|s| - 1].selector
      {
        assert x in multiset(init);
      }
      PlaceOrdered(SortByName(init), s[|s| - 1]);
    }
  }

  lemma SameHead(s: seq<File>, t: seq<File>)
    requires Ordered(s) && Ordered(t) && multiset(s) == multiset(t) && s != [] && t != []
    ensures s[0] == t[0]
  {
    assert s[0] in multiset(t) && t[0] in multiset(s);
    var i :| 0 <= i < |t| && t[i] == s[0];
    var j :| 0 <= j < |s| && s[j] == t[0];
    if i > 0 && j > 0 {
      assert Before(t[0], t[i]) && Before(s[0], s[j]);
      NameAnti(s[0].name, t[0].name);
    }
  }

  lemma TailBag(s: seq<File>)
    requires s != []
    ensures multiset(s[1..]) == multiset(s) - multiset{s[0]}
  {
    assert s == [s[0]] + s[1..];
  }

  /** There is only one ordered arrangement of given files, whatever sort produced it. */
  lemma {:induction false} OrderedUnique(s: seq<File>, t: seq<File>)
    requires Ordered(s) && Ordered(t) && multiset(s) == multiset(t)
    ensures s == t
  {
    assert |s| == |multiset(s)| && |t| == |multiset(t)|;
    if s != [] {
      SameHead(s, t);
      TailBag(s);
      TailBag(t);
      OrderedUnique(s[1..], t[1..]);
      assert s == [s[0]] + s[1..] && t == [t[0]] + t[1..];
    }
  }

  // ----- the directory on the wire

  function Zeros(n: nat): (z: seq<byte>)
    ensures |z| == n && forall i :: 0 <= i < n ==> z[i] == 0
  {
    if n == 0 then [] else [0] + Zeros(n - 1)
  }

  /** As much of a name as fits before its NUL. */
  function Cut(name: seq<byte>): (c: seq<byte>)
    ensures |c| < MAX_NAME_LEN
  {
    if |name| < MAX_NAME_LEN then name else name[..MAX_NAME_LEN - 1]
  }

  function Entry(f: File): (b: seq<byte>)
    requires f.Ok()
    ensures |b| == 64
  {
    ToBe32(f.size) + ToBe16(f.selector) + ToBe16(0) + Cut(f.name) + Zeros(MAX_NAME_LEN - |Cut(f.name)|)
  }

  predicate AllOk(s: seq<File>) { forall i :: 0 <= i < |s| ==> s[i].Ok() }

  function Entries(s: seq<File>): (b: seq<byte>)
    requires AllOk(s)
    ensures |b| == 64 * |s|
  {
    if s == [] then [] else Entries(s[..|s| - 1]) + Entry(s[|s| - 1])
  }

  lemma EntriesStep(head: seq<byte>, s: seq<File>, i: nat)
    requires AllOk(s) && i < |s|
    ensures AllOk(s[..i]) && AllOk(s[..i + 1])
    ensures head + Entries(s[..i]) + Entry(s[i]) == head + Entries(s[..i + 1])
  {
    assert s[..i + 1][..i] == s[..i];
    var (a, b) := (Entries(s[..i]), Entry(s[i]));
    assert head + a + b == head + (a + b);
  }

  lemma SortKeepsOk(s: seq<File>)
    requires AllOk(s)
    ensures AllOk(SortByName(s))
  {
    var t := SortByName(s);
    SortBag(s);
    forall i | 0 <= i < |t|
      ensures t[i].Ok()
    {
      assert t[i] in multiset(t);
    }
  }

  /** The item at the directory selector for these files. */
  function Directory(s: seq<File>): (b: seq<byte>)
    requires AllOk(s) && |s| <= U32_MAX
    ensures |b| == 4 + 64 * |s|
  {
    SortKeepsOk(s);
    ToBe32(|s|) + Entries(SortByName(s))
  }

  // ----- the guest's decoder

  function UntilNul(b: seq<byte>): seq<byte>
  {
    if b == [] || b[0] == 0 then [] else [b[0]] + UntilNul(b[1..])
  }

  function DecodeEntry(b: seq<byte>): File
    requires |b| == 64
  {
    File(UntilNul(b[8..]), Le16(b[5], b[4]), Be32(b[..4]))
  }

  function DecodeEntries(b: seq<byte>, n: nat): (s: seq<File>)
    requires 64 * n <= |b|
    ensures |s| == n
    ensures forall i :: 0 <= i < n ==> s[i] == DecodeEntry(b[64 * i..64 * i + 64])
  {
    if n == 0 then [] else
      DecodeEntries(b, n - 1)
      + [DecodeEntry(b[64 * (n - 1)..64 * (n - 1) + 64])]
  }

  function DecodeDirectory(b: seq<byte>): Option<seq<File>>
  {
    if |b| < 4 || |b| < 4 + 64 * Be32(b[..4]) then None
    else Some(DecodeEntries(b[4..], Be32(b[..4])))
  }

  /** A file as the guest sees it: its name up to the cut or an embedded NUL. */
  function Shown(f: File): File { f.(name := UntilNul(Cut(f.name))) }

  function ShownAll(s: seq<File>): (t: seq<File>)
    ensures |t| == |s| && forall i :: 0 <= i < |s| ==> t[i] == Shown(s[i])
  {
    seq(|s|, i requires 0 <= i < |s| => Shown(s[i]))
  }

  lemma {:induction false} NulEnds(c: seq<byte>, z: seq<byte>)
    requires z != [] && z[0] == 0
    ensures UntilNul(c + z) == UntilNul(c)
  {
    if c == [] {
      assert c + z == z;
    } else {
      assert (c + z)[1..] == c[1..] + z;
      NulEnds(c[1..], z);
    }
  }

  lemma {:induction false} UntilNulExactly(c: seq<byte>)
    ensures UntilNul(c) == c <==> 0 !in c
    ensures |UntilNul(c)| <= |c|
  {
    if c != [] && c[0] != 0 {
      UntilNulExactly(c[1..]);
      assert c == [c[0]] + c[1..];
    }
  }

  /** A name comes through whole exactly when it fits and holds no NUL. */
  lemma ShownExactly(f: File)
    ensures Shown(f) == f <==> |f.name| < MAX_NAME_LEN && 0 !in f.name
  {
    UntilNulExactly(Cut(f.name));
  }

  lemma EntryFields(f: File)
    requires f.Ok()
    ensures Entry(f)[..4] == ToBe32(f.size)
    ensures Entry(f)[4] == ToBe16(f.selector)[0] && Entry(f)[5] == ToBe16(f.selector)[1]
    ensures Entry(f)[8..] == Cut(f.name) + Zeros(MAX_NAME_LEN - |Cut(f.name)|)
  {
  }

  lemma EntryDecodes(f: File)
    requires f.Ok()
    ensures DecodeEntry(Entry(f)) == Shown(f)
  {
    EntryFields(f);
    NulEnds(Cut(f.name), Zeros(MAX_NAME_LEN - |Cut(f.name)|));
    Be32RoundTrip(f.size);
    Be16RoundTrip(f.selector);
  }

  lemma EntrySlice(a: seq<byte>, b: seq<byte>, at: nat)
    requires |b| == 64
    ensures at + 64 <= |a| ==> (a + b)[at..at + 64] == a[at..at + 64]
    ensures at == |a| ==> (a + b)[at..at + 64] == b
  {
  }

  lemma {:induction false} EntryAt(s: seq<File>, i: nat)
    requires AllOk(s) && i < |s|
    ensures Entries(s)[64 * i..64 * i + 64] == Entry(s[i])
  {
    var init := s[..|s| - 1];
    var at := 64 * i;
    EntrySlice(Entries(init), Entry(s[|s| - 1]), at);
    if i < |init| {
      EntryAt(init, i);
    }
  }

  lemma EntriesDecode(s: seq<File>)
    requires AllOk(s)
    ensures DecodeEntries(Entries(s), |s|) == ShownAll(s)
  {
    var t := DecodeEntries(Entries(s), |s|);
    forall i | 0 <= i < |s|
      ensures t[i] == Shown(s[i])
    {
      EntryAt(s, i);
      EntryDecodes(s[i]);
    }
  }

  lemma DirectoryParts(s: seq<File>)
    requires AllOk(s) && |s| <= U32_MAX
    ensures AllOk(SortByName(s))
    ensures Directory(s)[..4] == ToBe32(|s|) && Directory(s)[4..] == Entries(SortByName(s))
  {
    SortKeepsOk(s);
  }

  /** The directory decodes to its files, sorted, as the guest sees them. */
  lemma DirectoryDecodes(s: seq<File>)
    requires AllOk(s) && |s| <= U32_MAX
    ensures DecodeDirectory(Directory(s)) == Some(ShownAll(SortByName(s)))
  {
    DirectoryParts(s);
    Be32RoundTrip(|s|);
    EntriesDecode(SortByName(s));
  }

  // ----- histories of named inserts

  /** The selector of insert `i`: in order from the first, and on from zero when the 16-bit counter wraps. */
  function SelectorOf(i: nat): (sel: int)
    ensures 0 <= sel <= U16_MAX
  {
    if i < FILE_SLOTS then FIRST_FILE_SELECTOR + i else (i - FILE_SLOTS) % 0x1_0000
  }

  lemma NextSelector(i: nat)
    ensures SelectorOf(i + 1) == (SelectorOf(i) + 1) % 0x1_0000
  {
    if i >= FILE_SLOTS {
      ModNext(i - FILE_SLOTS);
    }
  }

  lemma ModNext(x: nat)
    ensures (x + 1) % 0x1_0000 == (x % 0x1_0000 + 1) % 0x1_0000
  {
  }

  lemma ListedRises(h: seq<Named>)
    requires |h| <= FILE_SLOTS
    ensures forall i, j :: 0 <= i < j < |h| ==> Listed(h)[i].selector < Listed(h)[j].selector
  {
  }

  /** Files keep out of each other's way and off the built-in selectors exactly while there are slots. */
  lemma SlotsExactly(n: nat)
    ensures && (forall i, j :: 0 <= i < j < n ==> SelectorOf(i) != SelectorOf(j))
            && (forall i :: 0 <= i < n ==> SelectorOf(i) !in {SEL_SIGNATURE, SEL_ID, SEL_FILE_DIR})
            <==> n <= FILE_SLOTS
    ensures SelectorOf(FILE_SLOTS) == SEL_SIGNATURE
  {
    assert SelectorOf(FILE_SLOTS) == SEL_SIGNATURE;
  }

  /** The directory entries of a history. */
  function Listed(h: seq<Named>): (s: seq<File>)
    ensures |s| == |h| && AllOk(s)
    ensures forall i :: 0 <= i < |h| ==> s[i] == ListedAt(h, i)
  {
    seq(|h|, i requires 0 <= i < |h| => ListedAt(h, i))
  }

  function ListedAt(h: seq<Named>, i: nat): File
    requires i < |h|
  {
    File(h[i].name, SelectorOf(i), |h[i].data| % 0x1_0000_0000)
  }

  /** Every name of the history comes through the directory. */
  ghost predicate NamesFit(h: seq<Named>)
  {
    forall i :: 0 <= i < |h| ==> |h[i].name| < MAX_NAME_LEN && 0 !in h[i].name
  }

  lemma ShownSame(h: seq<Named>, t: seq<File>)
    requires NamesFit(h) && multiset(t) == multiset(Listed(h))
    ensures ShownAll(t) == t
  {
    forall i | 0 <= i < |t|
      ensures Shown(t[i]) == t[i]
    {
      assert t[i] in multiset(t);
      assert t[i] in Listed(h);
      ShownExactly(t[i]);
    }
  }

  /**
   * After any history the directory decodes to the one ordered arrangement
   * of the inserted files. `listing` stands for any arrangement a reader
   * might expect.
   */
  lemma HistoryListing(h: seq<Named>, listing: seq<File>)
    requires |h| <= FILE_SLOTS && NamesFit(h)
    ensures DecodeDirectory(Directory(Listed(h))) == Some(listing)
            <==> Ordered(listing) && multiset(listing) == multiset(Listed(h))
  {
    var s := Listed(h);
    DirectoryDecodes(s);
    ListedRises(h);
    SortOrders(s);
    SortBag(s);
    var t := SortByName(s);
    ShownSame(h, t);
    if Ordered(listing) && multiset(listing) == multiset(s) {
      OrderedUnique(t, listing);
    }
  }

  /** The names need to fit: otherwise no reader of the directory learns them. */
  lemma NamesFitExactly(h: seq<Named>)
    requires |h| <= FILE_SLOTS
    ensures DecodeDirectory(Directory(Listed(h))) == Some(SortByName(Listed(h))) <==> NamesFit(h)
  {
    var (s, t) := (Listed(h), SortByName(Listed(h)));
    DirectoryDecodes(s);
    if NamesFit(h) {
      SortBag(s);
      ListedRises(h);
      SortOrders(s);
      HistoryListing(h, t);
    } else {
      var i :| 0 <= i < |h| && !(|h[i].name| < MAX_NAME_LEN && 0 !in h[i].name);
      SortBag(s);
      assert s[i] in multiset(t);
      var k :| 0 <= k < |t| && t[k] == s[i];
      ShownExactly(t[k]);
      assert ShownAll(t)[k] != t[k];
    }
  }

  // ----- the device

  /** The byte at an offset of an item: zero beyond it, and for a selector without one. */
  function ByteAt(items: map<int, seq<byte>>, sel: int, offset: nat): byte
  {
    if sel in items && offset < |items[sel]| then items[sel][offset] else 0
  }

  /** Insert `i` is what its selector holds, unless a legacy insert took the selector over. */
  ghost predicate Stored(items: map<int, seq<byte>>, legacy: set<int>, h: seq<Named>, i: nat)
    requires i < |h|
  {
    var sel := SelectorOf(i);
    sel !in legacy ==> sel in items && items[sel] == h[i].data
  }

  lemma StoredAfter(items: map<int, seq<byte>>, legacy: set<int>, h: seq<Named>, x: Named,
                    items': map<int, seq<byte>>, legacy': set<int>, h': seq<Named>, dir: seq<byte>)
    requires |h| < FILE_SLOTS && h' == h + [x]
    requires items' == items[SelectorOf(|h|) := x.data][SEL_FILE_DIR := dir]
    requires legacy' == legacy - {SelectorOf(|h|), SEL_FILE_DIR}
    requires forall i :: 0 <= i < |h| ==> Stored(items, legacy, h, i)
    ensures forall i :: 0 <= i < |h'| ==> Stored(items', legacy', h', i)
  {
    forall i | 0 <= i < |h'|
      ensures Stored(items', legacy', h', i)
    {
      assert i < |h| ==> Stored(items, legacy, h, i);
    }
  }

  lemma ListedAfter(h: seq<Named>, x: Named)
    ensures Listed(h + [x]) == Listed(h) + [File(x.name, SelectorOf(|h|), |x.data| % 0x1_0000_0000)]
  {
  }

  ghost predicate Lists(items: map<int, seq<byte>>, legacy: set<int>, dir: seq<byte>)
  {
    SEL_FILE_DIR !in legacy ==> SEL_FILE_DIR in items && items[SEL_FILE_DIR] == dir
  }

  /** The built-in items, where no legacy insert took them over. */
  ghost predicate BuiltIns(items: map<int, seq<byte>>, legacy: set<int>)
  {
    && (SEL_SIGNATURE !in legacy ==> SEL_SIGNATURE in items && items[SEL_SIGNATURE] == [0x51, 0x45, 0x4D, 0x55])
    && (SEL_ID !in legacy ==> SEL_ID in items && items[SEL_ID] == ToLe32(1))
  }

  /** The items are what the history of named inserts made them, but for the legacy inserts. */
  ghost predicate Coherent(items: map<int, seq<byte>>, legacy: set<int>, h: seq<Named>)
    requires |h| <= U32_MAX
  {
    && (forall s :: s in items ==> |items[s]| <= U64_MAX)
    && Lists(items, legacy, Directory(Listed(h)))
    && (|h| <= FILE_SLOTS ==> BuiltIns(items, legacy) && forall i :: 0 <= i < |h| ==> Stored(items, legacy, h, i))
  }

  lemma NamedKeeps(items: map<int, seq<byte>>, legacy: set<int>, h: seq<Named>, x: Named,
                   items': map<int, seq<byte>>, legacy': set<int>, h': seq<Named>)
    requires |h| < U32_MAX && Coherent(items, legacy, h) && |x.data| <= U64_MAX && h' == h + [x]
    requires items' == items[SelectorOf(|h|) := x.data][SEL_FILE_DIR := Directory(Listed(h'))]
    requires legacy' == legacy - {SelectorOf(|h|), SEL_FILE_DIR}
    ensures Coherent(items', legacy', h')
  {
    if |h'| <= FILE_SLOTS {
      StoredAfter(items, legacy, h, x, items', legacy', h', Directory(Listed(h')));
    }
  }

  lemma LegacyKeeps(items: map<int, seq<byte>>, legacy: set<int>, h: seq<Named>, sel: int, data: seq<byte>)
    requires |h| <= U32_MAX && Coherent(items, legacy, h) && |data| <= U64_MAX
    ensures Coherent(items[sel := data], legacy + {sel}, h)
  {
    var (items', legacy') := (items[sel := data], legacy + {sel});
    forall i | 0 <= i < |h| <= FILE_SLOTS
      ensures Stored(items', legacy', h, i)
    {
      assert Stored(items, legacy, h, i);
    }
  }

  /** One byte along, or stuck at the last offset there is. */
  function NextOffset(offset: nat): nat { if offset >= U64_MAX then U64_MAX else offset + 1 }

  datatype PortOp = Read | Write(value: int)

  class FwCfg {
    var items: map<int, seq<byte>>
    var curSelector: int
    var curOffset: nat
    var nextFileSelector: int
    var fileDir: seq<File>
    /** The named inserts so far. */
    ghost var history: seq<Named>
    /** The selectors whose item a legacy insert wrote last. */
    ghost var legacy: set<int>

    /** What every sequence of calls keeps. */
    ghost predicate Valid()
      reads this
    {
      && curOffset <= U64_MAX && |history| <= U32_MAX && nextFileSelector == SelectorOf(|history|)
      && fileDir == Listed(history) && Coherent(items, legacy, history)
    }

    constructor ()
      ensures Valid() && history == [] && legacy == {} && curSelector == 0 && curOffset == 0
    {
      items := map[SEL_SIGNATURE := [0x51, 0x45, 0x4D, 0x55], SEL_ID := ToLe32(1)];
      curSelector, curOffset := 0, 0;
      nextFileSelector := FIRST_FILE_SELECTOR;
      fileDir := [];
      history, legacy := [], {};
      new;
      RebuildFileDir();
    }

    static method AppendEntry(buf: seq<byte>, f: File) returns (out: seq<byte>)
      requires f.Ok()
      ensures out == buf + Entry(f)
    {
      var copyLen := if |f.name| < MAX_NAME_LEN - 1 then |f.name| else MAX_NAME_LEN - 1;
      assert f.name[..copyLen] == Cut(f.name);
      out := buf + ToBe32(f.size);
      out := out + ToBe16(f.selector);
      out := out + ToBe16(0);
      out := out + f.name[..copyLen];
      out := out + Zeros(MAX_NAME_LEN - copyLen);
    }

    static method AppendEntries(head: seq<byte>, files: seq<File>) returns (buf: seq<byte>)
      requires AllOk(files)
      ensures buf == head + Entries(files)
    {
      buf := head;
      for i := 0 to |files|
        invariant buf == head + Entries(files[..i])
      {
        buf := AppendEntry(buf, files[i]);
        EntriesStep(head, files, i);
      }
      assert files[..|files|] == files;
    }

    /** Serialise the directory, sorted by name, into its item. */
    method RebuildFileDir()
      requires AllOk(fileDir) && |fileDir| <= U32_MAX
      modifies this`items
      ensures items == old(items)[SEL_FILE_DIR := Directory(fileDir)]
    {
      var sorted := SortByName(fileDir);
      SortKeepsOk(fileDir);
      var buf := AppendEntries(ToBe32(|fileDir|), sorted);
      items := items[SEL_FILE_DIR := buf];
    }

    /** The first half of a named insert: the file has its selector, and the directory item is still the old one. */
    method Enter(name: seq<byte>, data: seq<byte>)
      requires nextFileSelector == SelectorOf(|history|) && fileDir == Listed(history)
      modifies this`items, this`nextFileSelector, this`fileDir, this`history, this`legacy
      ensures history == old(history) + [Named(name, data)]
      ensures nextFileSelector == SelectorOf(|history|) && fileDir == Listed(history)
      ensures items == old(items)[old(nextFileSelector) := data]
      ensures legacy == old(legacy) - {old(nextFileSelector), SEL_FILE_DIR}
    {
      var selector := nextFileSelector;
      nextFileSelector := (nextFileSelector + 1) % 0x1_0000;
      var size := |data| % 0x1_0000_0000;
      items := items[selector := data];
      ListedAfter(history, Named(name, data));
      NextSelector(|history|);
      fileDir := fileDir + [File(name, selector, size)];
      history := history + [Named(name, data)];
      legacy := legacy - {selector, SEL_FILE_DIR};
    }

    /** A named file gets the next selector, even one already used, and the directory lists it. */
    method InsertNamed(name: seq<byte>, data: seq<byte>)
      requires Valid() && |history| < U32_MAX && |data| <= I64_MAX
      modifies this`items, this`nextFileSelector, this`fileDir, this`history, this`legacy
      ensures Valid() && history == old(history) + [Named(name, data)]
      ensures legacy == old(legacy) - {old(nextFileSelector), SEL_FILE_DIR}
      ensures items == old(items)[old(nextFileSelector) := data][SEL_FILE_DIR := Directory(Listed(history))]
    {
      Enter(name, data);
      RebuildFileDir();
      NamedKeeps(old(items), old(legacy), old(history), Named(name, data), items, legacy, history);
    }

    /** A legacy item goes where it is told, over whatever was there. */
    method InsertLegacy(selector: int, data: seq<byte>)
      requires Valid() && 0 <= selector <= U16_MAX && |data| <= I64_MAX
      modifies this`items, this`legacy
      ensures Valid() && items == old(items)[selector := data] && legacy == old(legacy) + {selector}
    {
      items := items[selector := data];
      legacy := legacy + {selector};
      LegacyKeeps(old(items), old(legacy), history, selector, data);
    }

    /** One byte of the selected item, and a step along it. */
    method ReadDataByte() returns (b: byte)
      requires Valid()
      modifies this`curOffset
      ensures Valid() && b == ByteAt(items, curSelector, old(curOffset))
      ensures curOffset == NextOffset(old(curOffset))
    {
      b := 0;
      if curSelector in items {
        var data := items[curSelector];
        if curOffset < |data| {
          b := data[curOffset];
        }
      }
      curOffset := NextOffset(curOffset);
    }

    /** The two ports. */
    method Handle(offset: int, op: PortOp) returns (reply: Option<int>)
      requires Valid() && (op.Write? ==> 0 <= op.value <= U16_MAX)
      modifies this`curSelector, this`curOffset
      ensures Valid()
      ensures offset == 0 && op.Write? ==> reply == None && curSelector == op.value && curOffset == 0
      ensures !(offset == 0 && op.Write?) ==> curSelector == old(curSelector)
      ensures offset == 0 && op == Read ==> reply == Some(curSelector)
      ensures offset == 1 && op == Read ==> reply == Some(ByteAt(items, curSelector, old(curOffset)))
      ensures offset == 1 && op == Read ==> curOffset == NextOffset(old(curOffset))
      ensures !(offset == 1 && op == Read) && !(offset == 0 && op.Write?) ==> curOffset == old(curOffset)
      ensures offset !in {0, 1} || (offset == 1 && op.Write?) ==> reply == None
    {
      reply := None;
      if offset == 0 {
        if op.Write? {
          curSelector, curOffset := op.value, 0;
        } else {
          reply := Some(curSelector);
        }
      } else if offset == 1 && op == Read {
        var b := ReadDataByte();
        reply := Some(b);
      }
    }
  }

  // ----- the guest

  /** Select an item and read `n` bytes: the item, then zeros for as long as one reads. */
  method ReadItem(dev: FwCfg, sel: int, n: nat) returns (out: seq<byte>)
    requires dev.Valid() && 0 <= sel <= U16_MAX
    modifies dev`curSelector, dev`curOffset
    ensures dev.Valid() && |out| == n
    ensures forall i :: 0 <= i < n ==> out[i] == ByteAt(dev.items, sel, i)
  {
    var _ := dev.Handle(0, Write(sel));
    out := [];
    for i := 0 to n
      invariant dev.Valid() && dev.curSelector == sel && |out| == i
      invariant dev.curOffset == if i < U64_MAX then i else U64_MAX
      invariant forall k :: 0 <= k < i ==> out[k] == ByteAt(dev.items, sel, k)
    {
      var reply := dev.Handle(1, Read);
      out := out + [reply.value];
    }
  }

  /** The whole of a listed file: exactly its data when as many bytes are read, and zeros after. */
  method ReadFile(dev: FwCfg, i: nat, more: nat) returns (out: seq<byte>)
    requires dev.Valid() && i < |dev.history| <= FILE_SLOTS && SelectorOf(i) !in dev.legacy
    modifies dev`curSelector, dev`curOffset
    ensures dev.Valid() && out == dev.history[i].data + Zeros(more)
  {
    assert Stored(dev.items, dev.legacy, dev.history, i);
    out := ReadItem(dev, SelectorOf(i), |dev.items[SelectorOf(i)]| + more);
  }

  lemma WholeItem(items: map<int, seq<byte>>, sel: int, out: seq<byte>)
    requires sel in items && |out| <= |items[sel]| && forall i :: 0 <= i < |out| ==> out[i] == ByteAt(items, sel, i)
    ensures out == items[sel][..|out|]
  {
  }

  /** Read the directory item: its count first, then as much as the count says. */
  method ReadDirectory(dev: FwCfg) returns (all: seq<byte>)
    requires dev.Valid() && SEL_FILE_DIR !in dev.legacy
    modifies dev`curSelector, dev`curOffset
    ensures dev.Valid() && all == Directory(Listed(dev.history))
  {
    DirectoryParts(Listed(dev.history));
    Be32RoundTrip(|dev.history|);
    var head := ReadItem(dev, SEL_FILE_DIR, 4);
    WholeItem(dev.items, SEL_FILE_DIR, head);
    all := ReadItem(dev, SEL_FILE_DIR, 4 + 64 * Be32(head));
    WholeItem(dev.items, SEL_FILE_DIR, all);
  }

  /** The directory as the guest decodes it. */
  method ListFiles(dev: FwCfg) returns (files: Option<seq<File>>)
    requires dev.Valid() && SEL_FILE_DIR !in dev.legacy
    modifies dev`curSelector, dev`curOffset
    ensures dev.Valid() && files == Some(ShownAll(SortByName(Listed(dev.history))))
    ensures NamesFit(dev.history) && |dev.history| <= FILE_SLOTS ==>
              Ordered(files.value) && multiset(files.value) == multiset(Listed(dev.history))
  {
    var all := ReadDirectory(dev);
    files := DecodeDirectory(all);
    DirectoryDecodes(Listed(dev.history));
    if NamesFit(dev.history) && |dev.history| <= FILE_SLOTS {
      HistoryListing(dev.history, files.value);
    }
  }
}
