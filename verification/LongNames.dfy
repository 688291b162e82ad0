/** Long file names in filesystem/fat32.c: cut into 13-character directory entries, last piece first, and
    put together again (Microsoft FAT32 File System Specification, "FAT Long Directory Entries"). */
module LongNames {
  import opened Machine

  const ATTR_LFN := 0x0F

  /** A directory entry, seen as an `lfn_entry_t`. Every entry has its first byte and its attributes in the
      same places: the first byte of a short entry is that of its 8.3 name. */
  datatype Lfn = Lfn(order: int, firstn: seq<int>, attributes: int, kind: int, checksum: int,
                     nextn: seq<int>, zero: int, lastn: seq<int>)

  /** Length of the C string at the start of `mem`. */
  function StrLen(mem: seq<Byte>): (n: nat)
    ensures n <= |mem| && (n < |mem| ==> mem[n] == 0)
    ensures forall i :: 0 <= i < n ==> mem[i] != 0
  {
    if mem == [] || mem[0] == 0 then 0 else 1 + StrLen(mem[1..])
  }

  /** Entries a name of `len` characters needs. */
  function Needed(len: nat): nat {
    len / 13 + if len % 13 != 0 then 1 else 0
  }

  // ---------------------------------------------------------------- order bytes

  /** `(u8) (j ? needed - j : needed | 0x40)`. */
  function OrderByte(needed: nat, j: nat): int
    requires j < needed
  {
    if j != 0 then (needed - j) % 256
    else (if needed / 64 % 2 == 1 then needed else needed + 64) % 256
  }

  /** `(order & 0x40) == 0x40 ? order ^ 0x40 : order`. */
  function Number(order: int): int {
    if order / 64 % 2 == 1 then order - 64 else order
  }

  /** Reading an order byte clears bit 6 and keeps the others. */
  lemma NumberIs(order: int)
    requires 0 <= order < 256
    ensures var n := Number(order); n / 64 % 2 == 0 && n % 64 == order % 64 && n / 128 == order / 128
  {
  }

  /** Every entry is read back under its own number exactly for names of at most 63 entries. */
  lemma NumbersIff(needed: nat)
    requires 0 < needed
    ensures (forall j :: 0 <= j < needed ==> Number(OrderByte(needed, j)) == needed - j) <==> needed <= 63
  {
    if needed > 63 {
      NumberZero(needed);
    }
  }

  /** No order byte in use can be taken for the end mark or a deleted entry. */
  lemma OrderBytesSafe(needed: nat, j: nat)
    requires j < needed <= 63
    ensures OrderByte(needed, j) != 0 && OrderByte(needed, j) != 0xE5 && Number(OrderByte(needed, j)) == needed - j
  {
  }

  /** `13*((u32) (lfn_nbr-1))`, in 32 bits. */
  function Offset32(nbr: int): int {
    13 * ((nbr - 1) % TWO32) % TWO32
  }

  /** Entry `j`, pasted into a buffer at address `buf` allotted for the first entry's number, stays inside it. */
  predicate PastesInside(buf: nat, needed: nat, j: nat)
    requires j < needed
  {
    var a := (buf + Offset32(Number(OrderByte(needed, j)))) % TWO32;
    buf <= a && a + 13 <= buf + 13 * Number(OrderByte(needed, 0))
  }

  /** All pastes of a name stay inside the buffer exactly for names of at most 819 characters. */
  lemma PastesInsideIff(buf: nat, len: nat)
    requires 0 < len && 13 <= buf && buf + 13 * 63 < TWO32
    ensures (forall j :: 0 <= j < Needed(len) ==> PastesInside(buf, Needed(len), j)) <==> len <= 819
  {
    hide Offset32, OrderByte, Number;
    var needed := Needed(len);
    assert needed <= 63 <==> len <= 819;
    if needed > 63 {
      NumberZero(needed);
      PastesBelow(buf);
      assert !PastesInside(buf, needed, needed - 64);
    } else {
      forall j | 0 <= j < needed
        ensures PastesInside(buf, needed, j)
      {
        OrderBytesSafe(needed, 0);
        OrderBytesSafe(needed, j);
        PastesAt(buf, needed - j);
      }
    }
  }

  lemma PastesAt(buf: nat, nbr: nat)
    requires 0 < nbr <= 63 && buf + 13 * 63 < TWO32
    ensures (buf + Offset32(nbr)) % TWO32 == buf + 13 * (nbr - 1)
  {
  }

  /** An entry read back as number 0 goes 13 bytes below the buffer. */
  lemma PastesBelow(buf: nat)
    requires 13 <= buf < TWO32
    ensures (buf + Offset32(0)) % TWO32 == buf - 13
  {
  }

  /** Past 63 entries, one of them is read back as number 0. */
  lemma NumberZero(needed: nat)
    requires needed > 63
    ensures Number(OrderByte(needed, needed - 64)) == 0
  {
    assert needed == 64 ==> OrderByte(needed, 0) == 64;
  }

  // ---------------------------------------------------------------- writing

  /** The 13 characters of `e`, in order. */
  function Chars(e: Lfn): seq<int> {
    e.firstn + e.nextn + e.lastn
  }

  /** Entry `j` of `needed` holds the piece of `mem` that belongs to its number. */
  ghost predicate Holds(e: Lfn, mem: seq<Byte>, needed: nat, j: nat)
    requires j < needed
  {
    && e.order == OrderByte(needed, j) && e.attributes == ATTR_LFN
    && |e.firstn| == 5 && |e.nextn| == 6 && |e.lastn| == 2
    && 13 * (needed - j) <= |mem|
    && Chars(e) == mem[13 * (needed - j - 1)..13 * (needed - j)]
  }

  /** One of the three copying loops of an entry. */
  method CopyChars(mem: seq<Byte>, from: nat, n: nat) returns (cs: seq<int>)
    requires from + n <= |mem|
    ensures cs == mem[from..from + n]
  {
    cs := [];
    var fff := 0;
    while fff < n
      invariant 0 <= fff <= n && cs == mem[from..from + fff]
    {
      cs := cs + [mem[from + fff]];
      fff := fff + 1;
    }
  }

  lemma Pieces(name: seq<Byte>, off: nat)
    requires off + 13 <= |name|
    ensures name[off..off + 5] + name[off + 5..off + 11] + name[off + 11..off + 13] == name[off..off + 13]
  {
  }

  /** One round of the entry-writing loop. */
  method WriteEntry(e: Lfn, name: seq<Byte>, needed: nat, j: nat, checksum: int) returns (e': Lfn)
    requires j < needed && 13 * needed <= |name|
    ensures Holds(e', name, needed, j) && e'.checksum == checksum && e'.zero == 0 && e'.kind == e.kind
  {
    var off := (needed - j - 1) * 13;
    var a := CopyChars(name, off, 5);
    var b := CopyChars(name, off + 5, 6);
    var c := CopyChars(name, off + 11, 2);
    var order := if j != 0 then (needed - j) % 256 else (if needed / 64 % 2 == 1 then needed else needed + 64) % 256;
    e' := Lfn(order, a, ATTR_LFN, e.kind, checksum, b, 0, c);
    Pieces(name, off);
  }

  /** The entry-writing loop at the end of `fat32fs_create_dirent`. `name` is whatever lies in memory from the
      start of the string on. */
  method WriteEntries(dirents: array<Lfn>, i: nat, name: seq<Byte>, needed: nat, checksum: int)
    requires i + needed <= dirents.Length && 13 * needed <= |name|
    modifies dirents
    ensures forall k :: i <= k < i + needed ==> Holds(dirents[k], name, needed, k - i)
    ensures forall k :: i <= k < i + needed ==> dirents[k].checksum == checksum && dirents[k].zero == 0
    ensures forall k :: 0 <= k < dirents.Length && !(i <= k < i + needed) ==> dirents[k] == old(dirents[k])
  {
    hide Holds;
    var j := 0;
    while j < needed
      invariant 0 <= j <= needed
      invariant forall k :: i <= k < i + j ==> Holds(dirents[k], name, needed, k - i)
      invariant forall k :: i <= k < i + j ==> dirents[k].checksum == checksum && dirents[k].zero == 0
      invariant forall k :: 0 <= k < dirents.Length && !(i <= k < i + j) ==> dirents[k] == old(dirents[k])
    {
      var e := WriteEntry(dirents[i + j], name, needed, j, checksum);
      dirents[i + j] := e;
      j := j + 1;
    }
  }

  // ---------------------------------------------------------------- reading

  method PasteChars(name: array<Byte>, off: nat, cs: seq<int>)
    requires off + |cs| <= name.Length && forall i :: 0 <= i < |cs| ==> 0 <= cs[i] < 256
    modifies name
    ensures forall k :: off <= k < off + |cs| ==> name[k] == cs[k - off]
    ensures forall k :: 0 <= k < name.Length && !(off <= k < off + |cs|) ==> name[k] == old(name[k])
  {
    var fff := 0;
    while fff < |cs|
      invariant 0 <= fff <= |cs|
      invariant forall k :: off <= k < off + fff ==> name[k] == cs[k - off]
      invariant forall k :: 0 <= k < name.Length && !(off <= k < off + fff) ==> name[k] == old(name[k])
    {
      name[off + fff] := cs[fff];
      fff := fff + 1;
    }
  }

  /** The three pasting loops of one entry. */
  method PasteEntry(name: array<Byte>, off: nat, e: Lfn, ghost piece: seq<Byte>)
    requires |e.firstn| == 5 && |e.nextn| == 6 && |e.lastn| == 2 && Chars(e) == piece && off + 13 <= name.Length
    modifies name
    ensures forall k :: off <= k < off + 13 ==> name[k] == piece[k - off]
    ensures forall k :: 0 <= k < name.Length && !(off <= k < off + 13) ==> name[k] == old(name[k])
  {
    assert e.firstn == piece[..5] && e.nextn == piece[5..11] && e.lastn == piece[11..];
    PasteChars(name, off, e.firstn);
    PasteChars(name, off + 5, e.nextn);
    PasteChars(name, off + 11, e.lastn);
  }

  lemma NeededFits(len: nat)
    requires 0 < len <= 819
    ensures 0 < Needed(len) <= 63 && 13 * (Needed(len) - 1) < len <= 13 * Needed(len)
  {
  }

  lemma {:induction false} StrLenIs(mem: seq<Byte>, n: nat)
    requires n < |mem| && mem[n] == 0 && forall i :: 0 <= i < n ==> mem[i] != 0
    ensures StrLen(mem) == n
  {
  }

  // ---------------------------------------------------------------- directories

  predicate IsShort(e: Lfn) {
    e.order != 0 && e.order != 0xE5 && e.attributes != ATTR_LFN
  }

  /** What a directory holds: a deleted entry, a file with an 8.3 name only, or a file whose long name starts
      the memory `mem`. */
  datatype Item = Gone | Plain | Long(mem: seq<Byte>) {
    function Pieces(): nat {
      if Long? then Needed(StrLen(mem)) else 0
    }

    function Name(): seq<Byte>
      requires Long?
    {
      mem[..StrLen(mem)]
    }

    /** A string of 1 to 819 characters with its terminator, and memory behind it up to the last piece. */
    predicate NameOk()
      requires Long?
    {
      0 < StrLen(mem) <= 819 && StrLen(mem) < |mem| && 13 * Needed(StrLen(mem)) <= |mem|
    }
  }

  /** The entries of one item from `at` on. */
  ghost predicate Laid(ds: seq<Lfn>, at: nat, item: Item) {
    && at + item.Pieces() < |ds|
    && match item
       case Gone => ds[at].order == 0xE5
       case Plain => IsShort(ds[at])
       case Long(mem) =>
         && item.NameOk() && IsShort(ds[at + item.Pieces()])
         && forall k :: at <= k < at + item.Pieces() ==> Holds(ds[k], mem, item.Pieces(), k - at)
  }

  /** The entries from `at` on are those of `items`, up to the end mark or the end of the directory. */
  ghost predicate Layout(ds: seq<Lfn>, at: nat, items: seq<Item>)
    decreases |items|
  {
    if items == [] then at == |ds| || (at < |ds| && ds[at].order == 0)
    else Laid(ds, at, items[0]) && Layout(ds, at + items[0].Pieces() + 1, items[1..])
  }

  datatype Name = Short(e: Lfn) | Full(chars: seq<Byte>)

  /** The names a listing should give, in order. */
  ghost function Names(ds: seq<Lfn>, at: nat, items: seq<Item>): seq<Name>
    requires Layout(ds, at, items)
    decreases |items|
  {
    if items == [] then []
    else NameAt(ds[at], items[0]) + Names(ds, at + items[0].Pieces() + 1, items[1..])
  }

  /** What one item contributes, `e` being its first entry. */
  function NameAt(e: Lfn, item: Item): seq<Name> {
    match item
    case Gone => []
    case Plain => [Short(e)]
    case Long(mem) => [Full(item.Name())]
  }

  /** The last `j` pieces of `mem` are in the buffer. */
  ghost predicate Collected(buffer: seq<Byte>, mem: seq<Byte>, needed: nat, j: nat) {
    && j <= needed && 13 * needed <= |mem| && |buffer| == 13 * needed + 1 && buffer[13 * needed] == 0
    && forall k :: 13 * (needed - j) <= k < 13 * needed ==> buffer[k] == mem[k]
  }

  /** One round of the directory loop on an entry with the long-name attribute. */
  method Collect(lfn_name: Option<array<Byte>>, e: Lfn, ghost mem: seq<Byte>, ghost needed: nat, ghost j: nat)
    returns (name: array<Byte>)
    requires j < needed <= 63 && Holds(e, mem, needed, j)
    requires if j == 0 then lfn_name == None else lfn_name.Some? && Collected(lfn_name.value[..], mem, needed, j)
    modifies if lfn_name.Some? then {lfn_name.value} else {}
    ensures if lfn_name.Some? then name == lfn_name.value else fresh(name)
    ensures Collected(name[..], mem, needed, j + 1)
  {
    OrderBytesSafe(needed, j);
    var nbr := Number(e.order);
    if lfn_name.None? {
      name := new Byte[13 * nbr + 1];
      name[13 * nbr] := 0;
    } else {
      name := lfn_name.value;
    }
    assert forall k :: 13 * (needed - j) <= k < 13 * needed ==> name[..][k] == mem[k];
    var off := 13 * (nbr - 1);
    PasteEntry(name, off, e, mem[off..off + 13]);
  }

  /** The name found in a complete buffer. */
  lemma CollectedName(buffer: seq<Byte>, item: Item)
    requires item.Long? && item.NameOk() && Collected(buffer, item.mem, item.Pieces(), item.Pieces())
    ensures buffer[..StrLen(buffer)] == item.Name()
  {
    NeededFits(StrLen(item.mem));
    StrLenIs(buffer, StrLen(item.mem));
  }

  /** An entry inside an item is no end mark; it is deleted, a piece of a name or a short entry as the item says. */
  lemma EntryOf(ds: seq<Lfn>, at: nat, item: Item, j: nat)
    requires Laid(ds, at, item) && j <= item.Pieces()
    ensures ds[at + j].order != 0
    ensures item.Gone? <==> ds[at + j].order == 0xE5
    ensures !item.Gone? ==> (ds[at + j].attributes == ATTR_LFN <==> j < item.Pieces())
    ensures j < item.Pieces() ==> item.Long? && item.Pieces() <= 63 && Holds(ds[at + j], item.mem, item.Pieces(), j)
  {
    if item.Long? {
      NeededFits(StrLen(item.mem));
      if j < item.Pieces() {
        assert Holds(ds[at + j], item.mem, item.Pieces(), at + j - at);
        OrderBytesSafe(item.Pieces(), j);
      }
    }
  }

  // ---------------------------------------------------------------- what is listed, entry by entry

  /** An entry that holds a piece of a long name. */
  predicate IsPiece(e: Lfn) {
    e.order != 0 && e.order != 0xE5 && e.attributes == 0x0F
  }

  /** The entries from `at` to the end mark that are neither deleted nor pieces of a name: the files. */
  function Files(ds: seq<Lfn>, at: nat): (es: seq<nat>)
    ensures forall k :: 0 <= k < |es| ==> at <= es[k] < |ds| && ds[es[k]].order != 0xE5 && ds[es[k]].attributes != 0x0F
    decreases |ds| - at
  {
    if at >= |ds| || ds[at].order == 0 then []
    else if ds[at].order == 0xE5 || ds[at].attributes == 0x0F then Files(ds, at + 1)
    else [at] + Files(ds, at + 1)
  }

  /** There is a name for each file, in order: its long name if a piece stands in front of it, else its own entry. */
  ghost predicate OnePerFile(ds: seq<Lfn>, at: nat, names: seq<Name>) {
    var es := Files(ds, at);
    && |names| == |es|
    && (forall k :: 0 <= k < |es| ==> names[k] == Short(ds[es[k]]) || names[k].Full?)
    && (forall k :: 0 <= k < |es| ==> (names[k].Full? <==> at < es[k] && IsPiece(ds[es[k] - 1])))
  }

  lemma {:induction false} FilesBehind(ds: seq<Lfn>, at: nat, n: nat)
    requires at + n <= |ds| && forall k :: at <= k < at + n ==> IsPiece(ds[k])
    ensures Files(ds, at) == Files(ds, at + n)
    decreases n
  {
    if n > 0 {
      FilesBehind(ds, at + 1, n - 1);
    }
  }

  lemma {:induction false} NamesPerFile(ds: seq<Lfn>, at: nat, items: seq<Item>)
    requires Layout(ds, at, items)
    ensures OnePerFile(ds, at, Names(ds, at, items))
    decreases |items|
  {
    hide Laid, Holds, Item.Name, Item.NameOk, Item.Pieces, OnePerFile, IsPiece;
    LayoutHead(ds, at, items);
    if items == [] {
      NoFiles(ds, at);
    } else {
      var n := items[0].Pieces();
      NamesPerFile(ds, at + n + 1, items[1..]);
      PiecesThen(ds, at, items[0]);
      NextFile(ds, at, n, NameAt(ds[at], items[0]), Names(ds, at + n + 1, items[1..]));
    }
  }

  lemma NoFiles(ds: seq<Lfn>, at: nat)
    requires at < |ds| ==> ds[at].order == 0
    ensures OnePerFile(ds, at, [])
  {
  }

  lemma PiecesThen(ds: seq<Lfn>, at: nat, item: Item)
    requires Laid(ds, at, item)
    ensures at + item.Pieces() < |ds| && (item.Long? <==> 0 < item.Pieces())
    ensures forall k :: at <= k < at + item.Pieces() ==> IsPiece(ds[k])
    ensures var e := ds[at + item.Pieces()];
            && e.order != 0 && (item.Gone? <==> e.order == 0xE5) && (!item.Gone? ==> e.attributes != 0x0F)
  {
    hide Laid, Holds, Item.Pieces;
    LaidWidth(ds, at, item);
    EntryOf(ds, at, item, item.Pieces());
    forall k | at <= k < at + item.Pieces()
      ensures IsPiece(ds[k])
    {
      EntryOf(ds, at, item, k - at);
    }
  }

  lemma LaidWidth(ds: seq<Lfn>, at: nat, item: Item)
    requires Laid(ds, at, item)
    ensures at + item.Pieces() < |ds| && (item.Long? <==> 0 < item.Pieces())
  {
    if item.Long? {
      NeededFits(StrLen(item.mem));
    }
  }

  /** One item in front of entries that are listed rightly. */
  lemma NextFile(ds: seq<Lfn>, at: nat, n: nat, name: seq<Name>, rest: seq<Name>)
    requires at + n < |ds| && (forall k :: at <= k < at + n ==> IsPiece(ds[k])) && OnePerFile(ds, at + n + 1, rest)
    requires var e := ds[at + n];
             && e.order != 0 && (e.order != 0xE5 ==> e.attributes != 0x0F)
             && if e.order == 0xE5 then n == 0 && name == []
                else |name| == 1 && if n == 0 then name == [Short(e)] else name[0].Full?
    ensures OnePerFile(ds, at, name + rest)
  {
    FilesBehind(ds, at, n);
    assert !IsPiece(ds[at + n]);
    hide IsPiece;
    var es, fs, all := Files(ds, at), Files(ds, at + n + 1), name + rest;
    if ds[at + n].order == 0xE5 {
      assert es == fs && all == rest;
    } else {
      assert es == [at + n] + fs;
      forall k | 0 <= k < |es|
        ensures all[k] == Short(ds[es[k]]) || all[k].Full?
        ensures all[k].Full? <==> at < es[k] && IsPiece(ds[es[k] - 1])
      {
        if k > 0 {
          assert es[k] == fs[k - 1] && all[k] == rest[k - 1];
        }
      }
    }
  }

  /** The directory loop of `fat32_list_dir`: it stops at an end mark, skips deleted entries, collects the pieces of
      a long name, and closes it at the next entry of another kind. */
  method ListDir(dirents: array<Lfn>, ghost items: seq<Item>) returns (names: seq<Name>)
    requires Layout(dirents[..], 0, items)
    ensures names == Names(dirents[..], 0, items) && OnePerFile(dirents[..], 0, names)
  {
    hide OnePerFile, Collected, Holds, Laid, OrderByte, Number, StrLen, Needed, Layout, IsShort, Names, Item.Name, Item.NameOk,
         Item.Pieces;
    ghost var ds := dirents[..];
    ghost var at, rest, j := 0, items, 0;
    names := [];
    var lfn_name: Option<array<Byte>> := None;
    for i := 0 to dirents.Length
      invariant dirents[..] == ds && i == at + j && Layout(ds, at, rest)
      invariant names + Names(ds, at, rest) == Names(ds, 0, items)
      invariant j > 0 ==> rest != [] && j <= rest[0].Pieces() && rest[0].Long?
      invariant if j == 0 then lfn_name == None
                else lfn_name.Some? && fresh(lfn_name.value)
                     && Collected(lfn_name.value[..], rest[0].mem, rest[0].Pieces(), j)
    {
      LayoutHead(ds, at, rest);
      if rest != [] {
        EntryOf(ds, at, rest[0], j);
        NamesHead(ds, at, rest, names);
      }
      if dirents[i].order == 0 {
        break;
      }
      if dirents[i].order == 0xE5 {
        at, rest := at + 1, rest[1..];
        continue;
      }
      if dirents[i].attributes == ATTR_LFN {
        var name := Collect(lfn_name, dirents[i], rest[0].mem, rest[0].Pieces(), j);
        lfn_name := Some(name);
        j := j + 1;
        continue;
      }
      if lfn_name.Some? {
        CollectedName(lfn_name.value[..], rest[0]);
        names := names + [Full(lfn_name.value[..][..StrLen(lfn_name.value[..])])];
        lfn_name := None;
      } else {
        names := names + [Short(dirents[i])];
      }
      at, rest, j := at + j + 1, rest[1..], 0;
    }
    LayoutHead(ds, at, rest);
    NamesPerFile(ds, 0, items);
  }

  lemma NamesHead(ds: seq<Lfn>, at: nat, items: seq<Item>, names: seq<Name>)
    requires items != [] && Layout(ds, at, items)
    ensures at < |ds| && Layout(ds, at + items[0].Pieces() + 1, items[1..])
    ensures names + Names(ds, at, items) ==
            names + NameAt(ds[at], items[0]) + Names(ds, at + items[0].Pieces() + 1, items[1..])
    ensures !items[0].Long? ==> items[0].Pieces() == 0
  {
  }

  lemma LayoutHead(ds: seq<Lfn>, at: nat, items: seq<Item>)
    requires Layout(ds, at, items)
    ensures items == [] ==> Names(ds, at, items) == [] && (at < |ds| ==> ds[at].order == 0)
    ensures items != [] ==> Laid(ds, at, items[0]) && at + items[0].Pieces() < |ds|
                            && Layout(ds, at + items[0].Pieces() + 1, items[1..])
                            && (items[0].Long? ==> items[0].NameOk() && 0 < items[0].Pieces())
  {
    if items != [] && items[0].Long? {
      NeededFits(StrLen(items[0].mem));
    }
  }

  // ---------------------------------------------------------------- creating an entry

  /** Entries taken by `items`. */
  function Width(items: seq<Item>): nat {
    if items == [] then 0 else items[0].Pieces() + 1 + Width(items[1..])
  }

  /** The scan of `fat32fs_create_dirent` for the end mark. */
  method FindEnd(dirents: array<Lfn>, ghost items: seq<Item>) returns (i: nat)
    requires Layout(dirents[..], 0, items)
    ensures i == Width(items) <= dirents.Length
  {
    i := 0;
    LayoutFirstEnd(dirents[..], 0, items);
    while i < dirents.Length
      invariant i <= Width(items)
    {
      if dirents[i].order == 0 {
        break;
      }
      i := i + 1;
    }
  }

  lemma {:induction false} LayoutFirstEnd(ds: seq<Lfn>, at: nat, items: seq<Item>)
    requires Layout(ds, at, items)
    ensures at + Width(items) <= |ds|
    ensures forall k :: at <= k < at + Width(items) ==> ds[k].order != 0
    ensures at + Width(items) < |ds| ==> ds[at + Width(items)].order == 0
    decreases |items|
  {
    if items != [] {
      LayoutFirstEnd(ds, at + items[0].Pieces() + 1, items[1..]);
      forall k | at <= k <= at + items[0].Pieces()
        ensures ds[k].order != 0
      {
        EntryOf(ds, at, items[0], k - at);
      }
    }
  }

  /** The item `item` behind `items`. */
  lemma {:induction false} LayoutAppend(ds: seq<Lfn>, ds': seq<Lfn>, at: nat, items: seq<Item>, item: Item)
    requires Layout(ds, at, items) && |ds'| == |ds| && Laid(ds', at + Width(items), item)
    requires forall k :: at <= k < at + Width(items) ==> ds'[k] == ds[k]
    requires Layout(ds', at + Width(items) + item.Pieces() + 1, [])
    ensures Layout(ds', at, items + [item]) && Layout(ds', at + Width(items), [item])
    ensures Names(ds', at, items + [item]) ==
            Names(ds, at, items) + Names(ds', at + Width(items), [item])
    decreases |items|
  {
    hide Laid, NameAt, Item.Pieces;
    if items == [] {
      assert items + [item] == [item] && [item][1..] == [];
    } else {
      LayoutHead(ds, at, items);
      var next, all := at + items[0].Pieces() + 1, items + [item];
      assert at + Width(items) == next + Width(items[1..]);
      LayoutAppend(ds, ds', next, items[1..], item);
      LaidKept(ds, ds', at, items[0]);
      assert all[0] == items[0] && all[1..] == items[1..] + [item];
      var a, b, c := NameAt(ds[at], items[0]), Names(ds, next, items[1..]), Names(ds', at + Width(items), [item]);
      assert a + (b + c) == (a + b) + c;
    }
  }

  lemma LaidKept(ds: seq<Lfn>, ds': seq<Lfn>, at: nat, item: Item)
    requires Laid(ds, at, item) && |ds'| == |ds| && forall k :: at <= k <= at + item.Pieces() ==> ds'[k] == ds[k]
    ensures Laid(ds', at, item)
  {
  }

  /** The end of `fat32fs_create_dirent`: a long name, its short entry and a new end mark behind the entries
      already there. `mark` is where the end mark goes: when the new entries fill the directory, the entry behind
      its last one, outside the buffer. */
  method CreateDirent(dirents: array<Lfn>, mem: seq<Byte>, short: Lfn, checksum: int, ghost items: seq<Item>)
    returns (mark: nat)
    requires Layout(dirents[..], 0, items) && Long(mem).NameOk() && IsShort(short)
    requires Width(items) + Needed(StrLen(mem)) < dirents.Length
    modifies dirents
    ensures mark == Width(items) + Needed(StrLen(mem)) + 1 <= dirents.Length
    ensures mark < dirents.Length ==> dirents[mark].order == 0
    ensures Layout(dirents[..], 0, items + [Long(mem)])
    ensures Names(dirents[..], 0, items + [Long(mem)]) == Names(old(dirents[..]), 0, items) + [Full(Long(mem).Name())]
  {
    hide Layout, Names, Holds, StrLen, Needed, Width;
    var needed := Needed(StrLen(mem));
    var i := FindEnd(dirents, items);
    ghost var ds := dirents[..];
    dirents[i + needed] := short;
    mark := i + needed + 1;
    if mark < dirents.Length {
      dirents[mark] := dirents[mark].(order := 0);
    }
    WriteEntries(dirents, i, mem, needed, checksum);
    LaidLong(ds, dirents[..], items, mem);
  }

  lemma LaidLong(ds: seq<Lfn>, ds': seq<Lfn>, items: seq<Item>, mem: seq<Byte>)
    requires Layout(ds, 0, items) && Long(mem).NameOk() && |ds'| == |ds|
    requires var i, needed := Width(items), Needed(StrLen(mem));
             && i + needed < |ds'| && IsShort(ds'[i + needed])
             && (i + needed + 1 < |ds'| ==> ds'[i + needed + 1].order == 0)
             && (forall k :: i <= k < i + needed ==> Holds(ds'[k], mem, needed, k - i))
             && (forall k :: 0 <= k < i ==> ds'[k] == ds[k])
    ensures Layout(ds', 0, items + [Long(mem)])
    ensures Names(ds', 0, items + [Long(mem)]) == Names(ds, 0, items) + [Full(Long(mem).Name())]
  {
    hide *;
    LaidAt(ds', Width(items), mem);
    EndLaid(ds', Width(items) + Long(mem).Pieces() + 1);
    LayoutAppend(ds, ds', 0, items, Long(mem));
    OneName(ds', Width(items), mem);
  }

  lemma EndLaid(ds: seq<Lfn>, at: nat)
    requires at <= |ds| && (at < |ds| ==> ds[at].order == 0)
    ensures Layout(ds, at, [])
  {
  }

  lemma LaidAt(ds: seq<Lfn>, at: nat, mem: seq<Byte>)
    requires Long(mem).NameOk() && at + Needed(StrLen(mem)) < |ds| && IsShort(ds[at + Needed(StrLen(mem))])
    requires forall k :: at <= k < at + Needed(StrLen(mem)) ==> Holds(ds[k], mem, Needed(StrLen(mem)), k - at)
    ensures Laid(ds, at, Long(mem)) && Long(mem).Pieces() == Needed(StrLen(mem))
  {
    hide Holds, StrLen, Needed, Item.NameOk;
  }

  lemma OneName(ds: seq<Lfn>, at: nat, mem: seq<Byte>)
    requires Layout(ds, at, [Long(mem)])
    ensures Names(ds, at, [Long(mem)]) == [Full(Long(mem).Name())]
  {
  }

  /** Creating an entry and listing the directory gives the names that were there and the new one, whatever
      follows it in memory. */
  method NameRoundTrip(dirents: array<Lfn>, mem: seq<Byte>, short: Lfn, checksum: int, ghost items: seq<Item>)
    returns (names: seq<Name>)
    requires Layout(dirents[..], 0, items) && Long(mem).NameOk() && IsShort(short)
    requires Width(items) + Needed(StrLen(mem)) < dirents.Length
    modifies dirents
    ensures names == Names(old(dirents[..]), 0, items) + [Full(mem[..StrLen(mem)])]
  {
    hide Layout, Names, Item.NameOk;
    var mark := CreateDirent(dirents, mem, short, checksum, items);
    names := ListDir(dirents, items + [Long(mem)]);
  }
}
