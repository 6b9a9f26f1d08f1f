/** The two readers of a PE32+ import directory: the one that maps every relative virtual address
    (windows-pe.py) and the one that maps once and advances a file cursor (the S3 Windows verifier).
    Reading past the end of the bytes is Python's `struct.error`, an error value here. */
module PeImports {
  import opened Bytes

  datatype Error = Truncated | NotPe | NotPe32Plus | UnmappedRva | NoTerminator | NotAscii

  type Names = set<seq<byte>>

  // ---------------------------------------------------------------- little-endian fields

  function Le2(b: seq<byte>): nat
    requires |b| == 2
  {
    b[0] as int + 0x100 * b[1] as int
  }

  function Le4(b: seq<byte>): nat
    requires |b| == 4
  {
    b[0] as int + 0x100 * b[1] as int + 0x1_0000 * b[2] as int + 0x100_0000 * b[3] as int
  }

  function U16(data: seq<byte>, at: nat): Result<nat, Error> {
    if at + 2 <= |data| then Success(Le2(data[at..at + 2])) else Failure(Truncated)
  }

  function U32(data: seq<byte>, at: nat): Result<nat, Error> {
    if at + 4 <= |data| then Success(Le4(data[at..at + 4])) else Failure(Truncated)
  }

  /** Python's `data[at:at + n]`. */
  function Slice(data: seq<byte>, at: nat, n: nat): (s: seq<byte>)
    ensures |s| <= n
    ensures |s| == n > 0 ==> at + n <= |data|
  {
    if at >= |data| then [] else if at + n <= |data| then data[at..at + n] else data[at..]
  }

  // ---------------------------------------------------------------- the section table

  /** One section header, as the tuple the readers keep. */
  datatype Entry = Entry(virtualAddress: nat, virtualSize: nat, rawPointer: nat, rawSize: nat) {
    function Size(): nat {
      if virtualSize >= rawSize then virtualSize else rawSize
    }

    predicate Maps(rva: nat) {
      virtualAddress <= rva < virtualAddress + Size()
    }
  }

  function EntryAt(data: seq<byte>, offset: nat): Result<Entry, Error> {
    if offset + 24 <= |data| then
      Success(Entry(Le4(data[offset + 12..offset + 16]), Le4(data[offset + 8..offset + 12]),
                    Le4(data[offset + 20..offset + 24]), Le4(data[offset + 16..offset + 20])))
    else Failure(Truncated)
  }

  /** The headers from number `index` up to `count`. */
  function Entries(data: seq<byte>, base: nat, index: nat, count: nat): Result<seq<Entry>, Error>
    decreases count - index
  {
    if index >= count then Success([])
    else
      var first := EntryAt(data, base + 40 * index);
      if first.Failure? then Failure(first.error)
      else
        var rest := Entries(data, base, index + 1, count);
        if rest.Failure? then rest else Success([first.value] + rest.value)
  }

  datatype Headers = Headers(directories: nat, table: seq<Entry>)

  /** Everything both readers do before they look at the import directory. */
  function HeadersOf(data: seq<byte>): Result<Headers, Error> {
    var pe := U32(data, 0x3C);
    if pe.Failure? then Failure(pe.error)
    else if Slice(data, pe.value, 4) != [80, 69, 0, 0] then Failure(NotPe)
    else
      var coff := pe.value + 4;
      var sections := U16(data, coff + 2);
      var optSize := U16(data, coff + 16);
      var opt := coff + 20;
      var magic := U16(data, opt);
      if sections.Failure? || optSize.Failure? || magic.Failure? then Failure(Truncated)
      else if magic.value != 0x20B then Failure(NotPe32Plus)
      else
        var table := Entries(data, opt + optSize.value, 0, sections.value);
        if table.Failure? then Failure(table.error) else Success(Headers(opt + 112, table.value))
  }

  method ReadHeaders(data: seq<byte>) returns (r: Result<Headers, Error>)
    ensures r == HeadersOf(data)
  {
    hide EntryAt, U16, U32, Slice;
    var pe := U32(data, 0x3C);
    if pe.Failure? { return Failure(pe.error); }
    if Slice(data, pe.value, 4) != [80, 69, 0, 0] { return Failure(NotPe); }
    var coff := pe.value + 4;
    var sections := U16(data, coff + 2);
    if sections.Failure? { return Failure(Truncated); }
    var optSize := U16(data, coff + 16);
    if optSize.Failure? { return Failure(Truncated); }
    var opt := coff + 20;
    var magic := U16(data, opt);
    if magic.Failure? { return Failure(Truncated); }
    if magic.value != 0x20B { return Failure(NotPe32Plus); }
    var table: seq<Entry> := [];
    ghost var all := Entries(data, opt + optSize.value, 0, sections.value);
    assert all.Success? ==> table + all.value == all.value;
    for index := 0 to sections.value
      invariant var rest := Entries(data, opt + optSize.value, index, sections.value);
                if rest.Failure? then all == rest else all == Success(table + rest.value)
    {
      var entry := EntryAt(data, opt + optSize.value + 40 * index);
      if entry.Failure? { return Failure(entry.error); }
      ghost var rest := Entries(data, opt + optSize.value, index + 1, sections.value);
      if rest.Success? {
        Associate(table, [entry.value], rest.value);
      }
      table := table + [entry.value];
    }
    assert table + [] == table;
    return Success(Headers(opt + 112, table));
  }

  /** The address lies in what the section is given in memory or in what it has in the file. */
  predicate InRange(e: Entry, rva: nat) {
    e.virtualAddress <= rva && (rva < e.virtualAddress + e.virtualSize || rva < e.virtualAddress + e.rawSize)
  }

  /** The first section that maps `rva`. */
  function FirstMatch(table: seq<Entry>, rva: nat): (i: Option<nat>)
    ensures i.Some? ==> i.value < |table| && table[i.value].Maps(rva)
    ensures i.Some? ==> forall j | 0 <= j < i.value :: !table[j].Maps(rva)
    ensures i.None? ==> forall j | 0 <= j < |table| :: !table[j].Maps(rva)
  {
    if table == [] then None
    else if table[0].Maps(rva) then Some(0)
    else
      var i := FirstMatch(table[1..], rva);
      assert forall j | 1 <= j < |table| :: table[j] == table[1..][j - 1];
      if i.None? then None else Some(i.value + 1)
  }

  function FileOffset(table: seq<Entry>, rva: nat): Option<nat> {
    var i := FirstMatch(table, rva);
    if i.None? then None
    else Some(table[i.value].rawPointer + (rva - table[i.value].virtualAddress))
  }

  method FindOffset(table: seq<Entry>, rva: nat) returns (offset: Option<nat>)
    ensures offset == FileOffset(table, rva)
    ensures offset.None? <==> forall i | 0 <= i < |table| :: !InRange(table[i], rva)
    ensures forall i | 0 <= i < |table| && InRange(table[i], rva) && (forall j | 0 <= j < i :: !InRange(table[j], rva)) ::
              offset == Some(table[i].rawPointer + rva - table[i].virtualAddress)
  {
    for i := 0 to |table|
      invariant forall j | 0 <= j < i :: !table[j].Maps(rva)
    {
      if table[i].Maps(rva) {
        return Some(table[i].rawPointer + (rva - table[i].virtualAddress));
      }
    }
    return None;
  }

  /** Where the last section ends. */
  function Extent(table: seq<Entry>): (e: nat)
    ensures forall j | 0 <= j < |table| :: table[j].virtualAddress + table[j].Size() <= e
  {
    if table == [] then 0
    else
      var e := Extent(table[1..]);
      assert forall j | 1 <= j < |table| :: table[j] == table[1..][j - 1];
      if table[0].virtualAddress + table[0].Size() > e then table[0].virtualAddress + table[0].Size() else e
  }

  lemma {:induction false} MappedIsBelow(table: seq<Entry>, rva: nat)
    requires FileOffset(table, rva).Some?
    ensures rva < Extent(table)
  {
  }

  // ---------------------------------------------------------------- names

  /** `data.index(b"\0", start)`. */
  function FindNul(data: seq<byte>, start: nat): (i: Option<nat>)
    ensures i.Some? ==> start <= i.value < |data| && data[i.value] == NUL
    ensures i.Some? ==> NUL !in data[start..i.value]
    decreases |data| - start
  {
    if start >= |data| then None
    else if data[start] == NUL then Some(start)
    else FindNul(data, start + 1)
  }

  function NameAt(data: seq<byte>, start: nat): Result<seq<byte>, Error> {
    var end := FindNul(data, start);
    if end.None? then Failure(NoTerminator)
    else if !IsAscii(data[start..end.value]) then Failure(NotAscii)
    else Success(data[start..end.value])
  }

  function NameAtRva(data: seq<byte>, table: seq<Entry>, rva: nat): Result<seq<byte>, Error> {
    var target := FileOffset(table, rva);
    if target.None? then Failure(UnmappedRva) else NameAt(data, target.value)
  }

  method ReadName(data: seq<byte>, table: seq<Entry>, rva: nat) returns (r: Result<seq<byte>, Error>)
    ensures r == NameAtRva(data, table, rva)
  {
    var target := FindOffset(table, rva);
    if target.None? { return Failure(UnmappedRva); }
    return NameAt(data, target.value);
  }

  // ---------------------------------------------------------------- the RVA-walking reader

  /** Each step maps the descriptor's RVA anew. The walk ends because an RVA past the last section
      is unmapped, not because anything in the image says so. */
  function WalkRva(data: seq<byte>, table: seq<Entry>, rva: nat, names: Names): Result<Names, Error>
    decreases if rva < Extent(table) then Extent(table) - rva else 0
  {
    if rva == 0 then Success(names)
    else
      var offset := FileOffset(table, rva);
      if offset.None? then Failure(UnmappedRva)
      else
        var nameRva := U32(data, offset.value + 12);
        if nameRva.Failure? then Failure(nameRva.error)
        else if nameRva.value == 0 then Success(names)
        else
          var name := NameAtRva(data, table, nameRva.value);
          if name.Failure? then Failure(name.error)
          else WalkRva(data, table, rva + 20, names + {name.value})
  }

  function ImportsByRva(data: seq<byte>): Result<Names, Error> {
    var h := HeadersOf(data);
    if h.Failure? then Failure(h.error)
    else
      var rva := U32(data, h.value.directories + 8);
      if rva.Failure? then Failure(rva.error) else WalkRva(data, h.value.table, rva.value, {})
  }

  /** windows-pe.py, `pe_imports`. */
  method ReadByRva(data: seq<byte>) returns (r: Result<Names, Error>)
    ensures r == ImportsByRva(data)
  {
    var h := ReadHeaders(data);
    if h.Failure? { return Failure(h.error); }
    var rva := U32(data, h.value.directories + 8);
    if rva.Failure? { return Failure(rva.error); }
    r := FollowRva(data, h.value.table, rva.value);
  }

  method FollowRva(data: seq<byte>, table: seq<Entry>, start: nat) returns (r: Result<Names, Error>)
    ensures r == WalkRva(data, table, start, {})
  {
    hide FileOffset, FirstMatch, NameAtRva, NameAt, U32, Extent;
    var names: Names := {};
    var rva: nat := start;
    while rva != 0
      invariant WalkRva(data, table, rva, names) == WalkRva(data, table, start, {})
      decreases if rva < Extent(table) then Extent(table) - rva else 0
    {
      var offset := FindOffset(table, rva);
      if offset.None? { return Failure(UnmappedRva); }
      MappedIsBelow(table, rva);
      var nameRva := U32(data, offset.value + 12);
      if nameRva.Failure? { return Failure(nameRva.error); }
      if nameRva.value == 0 { break; }
      var name := ReadName(data, table, nameRva.value);
      if name.Failure? { return Failure(name.error); }
      names := names + {name.value};
      rva := rva + 20;
    }
    return Success(names);
  }

  // ---------------------------------------------------------------- the cursor-walking reader

  predicate IsZero(d: seq<byte>) {
    forall k | 0 <= k < |d| :: d[k] == 0
  }

  function WalkCursor(data: seq<byte>, table: seq<Entry>, cursor: nat, names: Names): Result<Names, Error>
    decreases |data| - cursor
  {
    var descriptor := Slice(data, cursor, 20);
    if |descriptor| < 20 || IsZero(descriptor) then Success(names)
    else
      var name := NameAtRva(data, table, Le4(descriptor[12..16]));
      if name.Failure? then Failure(name.error)
      else WalkCursor(data, table, cursor + 20, names + {name.value})
  }

  function ImportsByCursor(data: seq<byte>): Result<Names, Error> {
    var h := HeadersOf(data);
    if h.Failure? then Failure(h.error)
    else if h.value.directories + 16 > |data| then Failure(Truncated)
    else
      var rva := Le4(data[h.value.directories + 8..h.value.directories + 12]);
      if rva == 0 then Success({})
      else
        var cursor := FileOffset(h.value.table, rva);
        if cursor.None? then Failure(UnmappedRva) else WalkCursor(data, h.value.table, cursor.value, {})
  }

  /** The S3 Windows verifier's `pe_imports`, directory 1. */
  method ReadByCursor(data: seq<byte>) returns (r: Result<Names, Error>)
    ensures r == ImportsByCursor(data)
  {
    hide HeadersOf, FileOffset, FirstMatch, NameAtRva, NameAt, Slice, Le4, IsZero;
    var h := ReadHeaders(data);
    if h.Failure? { return Failure(h.error); }
    var table := h.value.table;
    var names: Names := {};
    var at := h.value.directories + 8;
    if at + 8 > |data| { return Failure(Truncated); }
    var rva := Le4(data[at..at + 4]);
    if rva == 0 { return Success({}); }
    var start := FindOffset(table, rva);
    if start.None? { return Failure(UnmappedRva); }
    var cursor := start.value;
    while true
      invariant WalkCursor(data, table, cursor, names) == ImportsByCursor(data)
      decreases |data| - cursor
    {
      var descriptor := Slice(data, cursor, 20);
      if |descriptor| < 20 || IsZero(descriptor) { break; }
      var name := ReadName(data, table, Le4(descriptor[12..16]));
      if name.Failure? { return Failure(name.error); }
      names := names + {name.value};
      cursor := cursor + 20;
    }
    return Success(names);
  }

  // ---------------------------------------------------------------- the readers compared

  /** From `rva` on: `count` descriptors with a name and then one without, all mapped by section `s`
      and all in the file. */
  predicate OneSectionTable(data: seq<byte>, table: seq<Entry>, s: nat, rva: nat, count: nat)
    requires s < |table|
    decreases count
  {
    var d := DescriptorAt(data, table[s], rva);
    && rva > 0
    && FirstMatch(table, rva) == Some(s)
    && d.Some?
    && (Le4(d.value[12..16]) != 0 <==> count > 0)
    && (count > 0 ==> OneSectionTable(data, table, s, rva + 20, count - 1))
  }

  /** Whether the descriptor that ends the table is the all-zero one of the format. */
  predicate EndsWithZeros(data: seq<byte>, e: Entry, rva: nat, count: nat) {
    var d := DescriptorAt(data, e, rva + 20 * count);
    d.Some? && IsZero(d.value)
  }

  /** The 20 bytes of the descriptor at `rva`, as section `e` places it in the file. */
  function DescriptorAt(data: seq<byte>, e: Entry, rva: nat): (d: Option<seq<byte>>)
    ensures d.Some? ==> |d.value| == 20
  {
    if rva < e.virtualAddress then None
    else
      var at := e.rawPointer + (rva - e.virtualAddress);
      if at + 20 <= |data| then Some(data[at..at + 20]) else None
  }

  lemma {:induction false} ZeroHasNoName(d: seq<byte>)
    requires |d| == 20
    ensures IsZero(d) ==> Le4(d[12..16]) == 0
  {
  }

  /** One turn of each walk at the descriptor `d`: on to the next, or to the end if it has no name. */
  lemma {:induction false} TurnsAt(data: seq<byte>, table: seq<Entry>, rva: nat, offset: nat, d: seq<byte>, names: Names)
    requires rva > 0 && FileOffset(table, rva) == Some(offset)
    requires offset + 20 <= |data| && d == data[offset..offset + 20]
    ensures var name := NameAtRva(data, table, Le4(d[12..16]));
            if Le4(d[12..16]) == 0 then
              && WalkRva(data, table, rva, names) == Success(names)
              && (IsZero(d) ==> WalkCursor(data, table, offset, names) == Success(names))
              && (!IsZero(d) && FileOffset(table, 0).None? ==>
                    WalkCursor(data, table, offset, names) == Failure(UnmappedRva))
            else if name.Failure? then
              WalkRva(data, table, rva, names) == WalkCursor(data, table, offset, names) == Failure(name.error)
            else
              && WalkRva(data, table, rva, names) == WalkRva(data, table, rva + 20, names + {name.value})
              && WalkCursor(data, table, offset, names) == WalkCursor(data, table, offset + 20, names + {name.value})
  {
    hide FirstMatch, Le4, NameAt, FileOffset;
    SliceOfSlice(data, offset, offset + 20, 12, 16);
    ZeroHasNoName(d);
  }

  /** In one section, mapping the next descriptor's RVA and advancing the cursor are the same step, up
      to the descriptor without a name. There the RVA reader stops, and the cursor reader stops only at
      zeros; else it looks for a name at RVA 0. */
  lemma {:induction false} WalksAgree(
    data: seq<byte>, table: seq<Entry>, s: nat, rva: nat, count: nat, names: Names)
    requires s < |table| && OneSectionTable(data, table, s, rva, count)
    ensures FileOffset(table, rva).Some?
    ensures var byRva := WalkRva(data, table, rva, names);
            var byCursor := WalkCursor(data, table, FileOffset(table, rva).value, names);
            && (EndsWithZeros(data, table[s], rva, count) ==> byRva == byCursor)
            && (FileOffset(table, 0).None? ==>
                  (byRva == byCursor <==> EndsWithZeros(data, table[s], rva, count) || byRva.Failure?))
    decreases count
  {
    hide FirstMatch, WalkRva, WalkCursor, NameAtRva, Le4, IsZero;
    var d := DescriptorAt(data, table[s], rva).value;
    TurnsAt(data, table, rva, FileOffset(table, rva).value, d, names);
    if count > 0 {
      var name := NameAtRva(data, table, Le4(d[12..16]));
      if name.Success? {
        WalksAgree(data, table, s, rva + 20, count - 1, names + {name.value});
        assert rva + 20 + 20 * (count - 1) == rva + 20 * count;
      }
    }
  }

  /** MAIN RESULT. On any bytes whose import table lies in one section, when no section maps RVA 0: the
      two readers return the same result exactly when the descriptor that ends the table is all zero,
      or when the reading fails before it. With zeros at the end they agree whatever maps RVA 0. */
  lemma {:induction false} ReadersAgree(data: seq<byte>, s: nat, count: nat)
    requires HeadersOf(data).Success?
    requires var h := HeadersOf(data).value;
             && h.directories + 16 <= |data|
             && (var rva := U32(data, h.directories + 8).value;
                 rva != 0 ==> s < |h.table| && OneSectionTable(data, h.table, s, rva, count))
    ensures var h := HeadersOf(data).value;
            var rva := U32(data, h.directories + 8).value;
            var good := rva == 0 || EndsWithZeros(data, h.table[s], rva, count);
            && (good ==> ImportsByRva(data) == ImportsByCursor(data))
            && (FileOffset(h.table, 0).None? ==>
                  (ImportsByRva(data) == ImportsByCursor(data) <==> good || ImportsByRva(data).Failure?))
  {
    hide WalkRva, WalkCursor, FileOffset, EndsWithZeros, OneSectionTable, HeadersOf;
    var h := HeadersOf(data).value;
    var rva := U32(data, h.directories + 8).value;
    if rva != 0 {
      WalksAgree(data, h.table, s, rva, count, {});
    } else {
      WalksEmpty(data, h.table);
    }
  }

  lemma {:induction false} WalksEmpty(data: seq<byte>, table: seq<Entry>)
    ensures WalkRva(data, table, 0, {}) == Success({})
  {
  }
}
