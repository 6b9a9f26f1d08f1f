/** PE32+ images written out, and what their import directory means in the loaded image, so that
    the RVA-walking reader has something to be an inverse of. Microsoft's PE Format specification,
    sections "Section Table (Section Headers)" and "Import Directory Table". */
module PeImages {
  import opened Bytes
  import opened PeImports

  // ---------------------------------------------------------------- images

  /** A section: where it is loaded, where the file keeps its data, and the data. */
  datatype Section = Section(virtualAddress: nat, virtualSize: nat, pointer: nat, raw: seq<byte>) {
    function Size(): nat {
      if virtualSize >= |raw| then virtualSize else |raw|
    }
  }

  function EntryFor(s: Section): Entry {
    Entry(s.virtualAddress, s.virtualSize, s.pointer, |s.raw|)
  }

  function TableFor(sections: seq<Section>): (t: seq<Entry>)
    ensures |t| == |sections|
    ensures forall i | 0 <= i < |t| :: t[i] == EntryFor(sections[i])
  {
    seq(|sections|, i requires 0 <= i < |sections| => EntryFor(sections[i]))
  }

  predicate Disjoint(sections: seq<Section>) {
    forall i, j | 0 <= i < j < |sections| ::
      || sections[i].virtualAddress + sections[i].Size() <= sections[j].virtualAddress
      || sections[j].virtualAddress + sections[j].Size() <= sections[i].virtualAddress
  }

  /** The little-endian field of two or four bytes at `at` is `x`. */
  predicate Field2(data: seq<byte>, at: nat, x: nat) {
    at + 2 <= |data| && x == data[at] as int + 0x100 * data[at + 1] as int
  }

  predicate Field4(data: seq<byte>, at: nat, x: nat) {
    at + 4 <= |data|
    && x == data[at] as int + 0x100 * data[at + 1] as int
            + 0x1_0000 * data[at + 2] as int + 0x100_0000 * data[at + 3] as int
  }

  /** The 40-byte section header at `at`. */
  predicate HeaderAt(data: seq<byte>, at: nat, s: Section) {
    && at + 40 <= |data|
    && Field4(data, at + 8, s.virtualSize) && Field4(data, at + 12, s.virtualAddress)
    && Field4(data, at + 16, |s.raw|) && Field4(data, at + 20, s.pointer)
  }

  /** The file keeps a section's data where its header says. */
  predicate KeepsSection(data: seq<byte>, s: Section) {
    s.pointer + |s.raw| <= |data| && data[s.pointer..s.pointer + |s.raw|] == s.raw
  }

  predicate Keeps(data: seq<byte>, sections: seq<Section>) {
    forall i | 0 <= i < |sections| :: KeepsSection(data, sections[i])
  }

  /** The bytes are a PE32+ image: the field at 0x3C points to the signature; behind it stand the COFF
      header, an optional header of the size that header gives, and the section headers. Directory 1,
      at 120 in the optional header, is the import directory. All other bytes are free. */
  predicate IsImage(data: seq<byte>, pe: nat, optSize: nat, sections: seq<Section>, importRva: nat) {
    && Field4(data, 0x3C, pe)
    && pe + 152 <= |data|
    && data[pe] == 80 && data[pe + 1] == 69 && data[pe + 2] == 0 && data[pe + 3] == 0
    && Field2(data, pe + 6, |sections|)
    && Field2(data, pe + 20, optSize)
    && Field2(data, pe + 24, 0x20B)
    && Field4(data, pe + 144, importRva)
    && (forall i | 0 <= i < |sections| :: HeaderAt(data, pe + 24 + optSize + 40 * i, sections[i]))
    && Keeps(data, sections)
    && Disjoint(sections)
  }

  // ---------------------------------------------------------------- the loaded image

  /** The loaded image has `bytes` at `rva`, and they come from one section's file data. */
  predicate Loaded(sections: seq<Section>, rva: nat, bytes: seq<byte>) {
    exists i | 0 <= i < |sections| :: LoadedIn(sections[i], rva, bytes)
  }

  predicate LoadedIn(s: Section, rva: nat, bytes: seq<byte>) {
    && s.virtualAddress <= rva
    && rva + |bytes| <= s.virtualAddress + |s.raw|
    && s.raw[rva - s.virtualAddress..rva - s.virtualAddress + |bytes|] == bytes
  }

  /** An import: the 20 bytes of its descriptor, the RVA it points to and the name that is there. */
  datatype Import = Import(descriptor: seq<byte>, nameRva: nat, name: seq<byte>)

  predicate IsName(name: seq<byte>) {
    forall k | 0 <= k < |name| :: 0 < name[k] < 128
  }

  predicate ValidImport(sections: seq<Section>, dll: Import) {
    && |dll.descriptor| == 20
    && dll.nameRva != 0 && Field4(dll.descriptor, 12, dll.nameRva)
    && IsName(dll.name)
    && Loaded(sections, dll.nameRva, dll.name + [0])
  }

  /** The import directory table in memory: a descriptor every 20 bytes, up to one without a name. */
  predicate ImportTable(sections: seq<Section>, rva: nat, dlls: seq<Import>, terminator: seq<byte>) {
    && (forall k | 0 <= k < |dlls| :: ImportAt(sections, rva + 20 * k, dlls[k]))
    && Nameless(terminator)
    && Loaded(sections, rva + 20 * |dlls|, terminator)
  }

  predicate Nameless(descriptor: seq<byte>) {
    |descriptor| == 20 && Field4(descriptor, 12, 0)
  }

  predicate ImportAt(sections: seq<Section>, rva: nat, dll: Import) {
    ValidImport(sections, dll) && Loaded(sections, rva, dll.descriptor)
  }

  // ---------------------------------------------------------------- reading back the headers

  lemma {:induction false} FieldIn(a: seq<byte>, b: seq<byte>, c: seq<byte>)
    ensures (a + (b + c))[|a|..|a| + |b|] == b
    ensures (a + b + c)[|a|..|a| + |b|] == b
  {
  }

  /** A slice that lies in the middle of three parts. */
  lemma {:induction false} MiddleSlice(a: seq<byte>, b: seq<byte>, c: seq<byte>, from: nat, to: nat)
    requires from <= to <= |b|
    ensures (a + b + c)[|a| + from..|a| + to] == b[from..to]
  {
    FieldIn(a, b, c);
    SliceOfSlice(a + b + c, |a|, |a| + |b|, from, to);
  }

  /** A field is what the readers unpack. */
  lemma {:induction false} FieldIsRead(data: seq<byte>, at: nat, x: nat)
    ensures Field2(data, at, x) <==> U16(data, at) == Success(x)
    ensures Field4(data, at, x) <==> U32(data, at) == Success(x)
    ensures Field4(data, at, x) ==> Le4(data[at..at + 4]) == x
  {
  }

  lemma {:induction false} HeaderIsRead(data: seq<byte>, at: nat, s: Section)
    requires HeaderAt(data, at, s)
    ensures EntryAt(data, at) == Success(EntryFor(s))
  {
    FieldIsRead(data, at + 8, s.virtualSize);
    FieldIsRead(data, at + 12, s.virtualAddress);
    FieldIsRead(data, at + 16, |s.raw|);
    FieldIsRead(data, at + 20, s.pointer);
  }

  lemma {:induction false} EntriesReadBack(data: seq<byte>, base: nat, table: seq<Entry>, i: nat)
    requires i <= |table|
    requires forall j | 0 <= j < |table| :: EntryAt(data, base + 40 * j) == Success(table[j])
    ensures Entries(data, base, i, |table|) == Success(table[i..])
    decreases |table| - i
  {
    hide EntryAt;
    if i < |table| {
      EntriesReadBack(data, base, table, i + 1);
      assert [table[i]] + table[i + 1..] == table[i..];
    }
  }

  /** The signature is found through the field at 0x3C, and the section headers through the size of
      the optional header, wherever that puts them. */
  lemma {:induction false} HeadersReadBack(data: seq<byte>, pe: nat, optSize: nat, sections: seq<Section>, importRva: nat)
    requires IsImage(data, pe, optSize, sections, importRva)
    ensures HeadersOf(data) == Success(Headers(pe + 136, TableFor(sections)))
    ensures U32(data, pe + 144) == Success(importRva)
  {
    hide EntryAt, Entries, Disjoint, Keeps, U16, U32, Field2, Field4, HeaderAt;
    var table, base := TableFor(sections), pe + 24 + optSize;
    FieldIsRead(data, 0x3C, pe);
    FieldIsRead(data, pe + 6, |sections|);
    FieldIsRead(data, pe + 20, optSize);
    FieldIsRead(data, pe + 24, 0x20B);
    FieldIsRead(data, pe + 144, importRva);
    assert Slice(data, pe, 4) == [80, 69, 0, 0];
    forall j | 0 <= j < |table| ensures EntryAt(data, base + 40 * j) == Success(table[j]) {
      HeaderIsRead(data, base + 40 * j, sections[j]);
    }
    EntriesReadBack(data, base, table, 0);
    assert table[0..] == table;
  }

  // ---------------------------------------------------------------- reading back the data

  /** What is loaded at an RVA is what the reader finds at the offset it maps that RVA to. */
  lemma {:induction false} LoadedReadsBack(data: seq<byte>, sections: seq<Section>, rva: nat, bytes: seq<byte>)
    requires Disjoint(sections) && Keeps(data, sections)
    requires bytes != [] && Loaded(sections, rva, bytes)
    ensures var offset := FileOffset(TableFor(sections), rva);
            && offset.Some?
            && offset.value + |bytes| <= |data|
            && data[offset.value..offset.value + |bytes|] == bytes
  {
    hide Disjoint, KeepsSection, FirstMatch, TableFor;
    var i :| 0 <= i < |sections| && LoadedIn(sections[i], rva, bytes);
    FirstMatchIs(sections, rva, i);
    SectionReadsBack(data, sections, i, rva, bytes);
  }

  lemma {:induction false} SectionReadsBack(data: seq<byte>, sections: seq<Section>, i: nat, rva: nat, bytes: seq<byte>)
    requires i < |sections| && KeepsSection(data, sections[i]) && LoadedIn(sections[i], rva, bytes)
    ensures var offset := sections[i].pointer + (rva - sections[i].virtualAddress);
            && offset + |bytes| <= |data|
            && data[offset..offset + |bytes|] == bytes
  {
    var at, delta := sections[i].pointer, rva - sections[i].virtualAddress;
    SliceOfSlice(data, at, at + |sections[i].raw|, delta, delta + |bytes|);
  }

  lemma {:induction false} FirstMatchIs(sections: seq<Section>, rva: nat, i: nat)
    requires Disjoint(sections) && i < |sections|
    requires sections[i].virtualAddress <= rva < sections[i].virtualAddress + |sections[i].raw|
    ensures FirstMatch(TableFor(sections), rva) == Some(i)
  {
    var table := TableFor(sections);
    assert table[i].Maps(rva);
    var k := FirstMatch(table, rva).value;
    assert table[k].Maps(rva) && k <= i;
    assert sections[k].Size() == table[k].Size() && sections[i].Size() == table[i].Size();
  }

  lemma {:induction false} FindNulIs(data: seq<byte>, start: nat, name: seq<byte>)
    requires start + |name| < |data| && data[start..start + |name| + 1] == name + [NUL] && NUL !in name
    ensures FindNul(data, start) == Some(start + |name|)
    decreases name
  {
    assert data[start] == (name + [NUL])[0];
    if name != [] {
      assert data[start] == name[0];
      assert data[start + 1..start + 1 + |name[1..]| + 1] == data[start..start + |name| + 1][1..];
      FindNulIs(data, start + 1, name[1..]);
    }
  }

  lemma {:induction false} NameIsAscii(name: seq<byte>)
    requires IsName(name)
    ensures IsAscii(name) && NUL !in name
  {
  }

  lemma {:induction false} NameReadsBack(data: seq<byte>, sections: seq<Section>, dll: Import)
    requires Disjoint(sections) && Keeps(data, sections) && ValidImport(sections, dll)
    ensures NameAtRva(data, TableFor(sections), dll.nameRva) == Success(dll.name)
  {
    hide FileOffset, Disjoint, Keeps, Loaded, TableFor, IsName, IsAscii;
    var n := |dll.name|;
    NameIsAscii(dll.name);
    LoadedReadsBack(data, sections, dll.nameRva, dll.name + [NUL]);
    var start := FileOffset(TableFor(sections), dll.nameRva).value;
    FindNulIs(data, start, dll.name);
    SliceOfSlice(data, start, start + n + 1, 0, n);
    assert (dll.name + [NUL])[0..n] == dll.name;
  }

  lemma {:induction false} DescriptorReadsBack(data: seq<byte>, sections: seq<Section>, rva: nat, d: seq<byte>, nameRva: nat)
    requires Disjoint(sections) && Keeps(data, sections)
    requires |d| == 20 && Loaded(sections, rva, d) && Field4(d, 12, nameRva)
    ensures NameField(data, TableFor(sections), rva) == Some(nameRva)
  {
    hide Disjoint, Keeps, Loaded, TableFor, FileOffset;
    LoadedReadsBack(data, sections, rva, d);
    var at := FileOffset(TableFor(sections), rva).value;
    assert forall k | 0 <= k < 20 :: data[at + k] == d[k];
    FieldIsRead(data, at + 12, nameRva);
  }

  /** The name RVA that the reader finds in the descriptor at `rva`. */
  function NameField(data: seq<byte>, table: seq<Entry>, rva: nat): Option<nat> {
    var offset := FileOffset(table, rva);
    if offset.None? then None
    else
      var field := U32(data, offset.value + 12);
      if field.Failure? then None else Some(field.value)
  }

  /** The reader finds a live descriptor at `rva`, and it names `name`. */
  predicate Reads(data: seq<byte>, table: seq<Entry>, rva: nat, name: seq<byte>) {
    var field := NameField(data, table, rva);
    && field.Some? && field.value != 0
    && NameAtRva(data, table, field.value) == Success(name)
  }

  lemma {:induction false} ImportReadsBack(data: seq<byte>, sections: seq<Section>, rva: nat, dll: Import)
    requires Disjoint(sections) && Keeps(data, sections) && ImportAt(sections, rva, dll)
    ensures Reads(data, TableFor(sections), rva, dll.name)
  {
    DescriptorReadsBack(data, sections, rva, dll.descriptor, dll.nameRva);
    NameReadsBack(data, sections, dll);
  }

  lemma {:induction false} WalkStep(data: seq<byte>, table: seq<Entry>, rva: nat, name: seq<byte>, got: Names)
    requires rva > 0 && Reads(data, table, rva, name)
    ensures WalkRva(data, table, rva, got) == WalkRva(data, table, rva + 20, got + {name})
  {
  }

  lemma {:induction false} WalkStop(data: seq<byte>, table: seq<Entry>, rva: nat, got: Names)
    requires rva > 0 && NameField(data, table, rva) == Some(0)
    ensures WalkRva(data, table, rva, got) == Success(got)
  {
  }

  function NamesFrom(names: seq<seq<byte>>, k: nat): Names {
    set i | k <= i < |names| :: names[i]
  }

  lemma {:induction false} WalkReads(
    data: seq<byte>, table: seq<Entry>, rva: nat, names: seq<seq<byte>>, k: nat, got: Names)
    requires rva > 0 && k <= |names|
    requires forall i | 0 <= i < |names| :: Reads(data, table, rva + 20 * i, names[i])
    requires NameField(data, table, rva + 20 * |names|) == Some(0)
    ensures WalkRva(data, table, rva + 20 * k, got) == Success(got + NamesFrom(names, k))
    decreases |names| - k
  {
    hide WalkRva, Reads, NameField;
    if k == |names| {
      WalkStop(data, table, rva + 20 * k, got);
      assert got + NamesFrom(names, k) == got;
    } else {
      WalkStep(data, table, rva + 20 * k, names[k], got);
      WalkReads(data, table, rva, names, k + 1, got + {names[k]});
      assert got + {names[k]} + NamesFrom(names, k + 1) == got + NamesFrom(names, k);
    }
  }

  function DllNames(dlls: seq<Import>): (n: seq<seq<byte>>)
    ensures |n| == |dlls| && forall i | 0 <= i < |n| :: n[i] == dlls[i].name
  {
    seq(|dlls|, i requires 0 <= i < |dlls| => dlls[i].name)
  }

  // ---------------------------------------------------------------- the round trip

  /** MAIN RESULT. For any number of disjoint sections and of descriptors, and wherever the headers and
      the data stand in the file, an image is read as exactly the set of names that its import
      directory has in memory. */
  lemma {:induction false} ImportsReadBack(
    data: seq<byte>, pe: nat, optSize: nat, sections: seq<Section>, importRva: nat, dlls: seq<Import>, terminator: seq<byte>)
    requires IsImage(data, pe, optSize, sections, importRva)
    requires importRva > 0 && ImportTable(sections, importRva, dlls, terminator)
    ensures ImportsByRva(data) == Success(set i | 0 <= i < |dlls| :: dlls[i].name)
  {
    hide WalkRva, Reads, NameField, Disjoint, Keeps, TableFor, ImportAt, Loaded, HeadersOf, Field2, Field4, HeaderAt;
    var table, names := TableFor(sections), DllNames(dlls);
    HeadersReadBack(data, pe, optSize, sections, importRva);
    forall i | 0 <= i < |names| ensures Reads(data, table, importRva + 20 * i, names[i]) {
      ImportReadsBack(data, sections, importRva + 20 * i, dlls[i]);
    }
    DescriptorReadsBack(data, sections, importRva + 20 * |dlls|, terminator, 0);
    WalkReads(data, table, importRva, names, 0, {});
    assert {} + NamesFrom(names, 0) == set i | 0 <= i < |dlls| :: dlls[i].name;
  }

  /** The whole table lies in one section. */
  predicate TableIn(s: Section, rva: nat, dlls: seq<Import>, terminator: seq<byte>) {
    && (forall k | 0 <= k < |dlls| :: |dlls[k].descriptor| == 20 && LoadedIn(s, rva + 20 * k, dlls[k].descriptor))
    && |terminator| == 20 && LoadedIn(s, rva + 20 * |dlls|, terminator)
  }

  lemma {:induction false} DescriptorInFile(data: seq<byte>, sections: seq<Section>, i: nat, rva: nat, d: seq<byte>)
    requires Disjoint(sections) && i < |sections| && KeepsSection(data, sections[i])
    requires |d| == 20 && LoadedIn(sections[i], rva, d)
    ensures FirstMatch(TableFor(sections), rva) == Some(i)
    ensures DescriptorAt(data, TableFor(sections)[i], rva) == Some(d)
  {
    FirstMatchIs(sections, rva, i);
    SectionReadsBack(data, sections, i, rva, d);
  }

  lemma {:induction false} OneSectionInFile(
    data: seq<byte>, sections: seq<Section>, i: nat, rva: nat, dlls: seq<Import>, terminator: seq<byte>, k: nat)
    requires Disjoint(sections) && i < |sections| && KeepsSection(data, sections[i])
    requires rva > 0 && TableIn(sections[i], rva, dlls, terminator) && k <= |dlls|
    requires forall j | 0 <= j < |dlls| :: Le4(dlls[j].descriptor[12..16]) != 0
    requires Le4(terminator[12..16]) == 0
    ensures OneSectionTable(data, TableFor(sections), i, rva + 20 * k, |dlls| - k)
    ensures EndsWithZeros(data, TableFor(sections)[i], rva + 20 * k, |dlls| - k) <==> terminator == ZERO20
    decreases |dlls| - k
  {
    hide DescriptorAt, FirstMatch, Disjoint, KeepsSection, LoadedIn, TableFor, IsZero, Le4;
    var d := if k < |dlls| then dlls[k].descriptor else terminator;
    DescriptorInFile(data, sections, i, rva + 20 * k, d);
    AllZero(d);
    if k < |dlls| {
      OneSectionInFile(data, sections, i, rva, dlls, terminator, k + 1);
      assert rva + 20 * k + 20 == rva + 20 * (k + 1);
    }
  }

  /** The all-zero descriptor of the format. */
  const ZERO20: seq<byte> := [0, 0, 0, 0, 0, 0, 0, 0, 0, 0, 0, 0, 0, 0, 0, 0, 0, 0, 0, 0]

  lemma {:induction false} AllZero(d: seq<byte>)
    requires |d| == 20
    ensures IsZero(d) <==> d == ZERO20
  {
  }

  /** MAIN RESULT. Of an image whose table lies in one section, the cursor-walking reader reads the same
      names when the descriptor without a name that ends the table is all zero; and, where no section
      is loaded at RVA 0, only then. */
  lemma {:induction false} CursorReadsBack(
    data: seq<byte>, pe: nat, optSize: nat, sections: seq<Section>, importRva: nat, dlls: seq<Import>, terminator: seq<byte>,
    i: nat)
    requires IsImage(data, pe, optSize, sections, importRva) && importRva > 0 && i < |sections|
    requires ImportTable(sections, importRva, dlls, terminator) && TableIn(sections[i], importRva, dlls, terminator)
    ensures var names := Success(set k | 0 <= k < |dlls| :: dlls[k].name);
            && ImportsByRva(data) == names
            && (terminator == ZERO20 ==> ImportsByCursor(data) == names)
            && ((forall k | 0 <= k < |sections| :: sections[k].virtualAddress > 0) ==>
                  (ImportsByCursor(data) == names <==> terminator == ZERO20))
  {
    hide ImportsByRva, ImportsByCursor, Disjoint, TableIn, TableFor, HeadersOf, OneSectionTable, EndsWithZeros;
    hide FileOffset, IsZero, Le4, Loaded, HeaderAt, Field2, Field4, U32, KeepsSection;
    ImportsReadBack(data, pe, optSize, sections, importRva, dlls, terminator);
    HeadersReadBack(data, pe, optSize, sections, importRva);
    assert KeepsSection(data, sections[i]);
    forall j | 0 <= j < |dlls| ensures Le4(dlls[j].descriptor[12..16]) != 0 {
      assert ImportAt(sections, importRva + 20 * j, dlls[j]);
      FieldIsRead(dlls[j].descriptor, 12, dlls[j].nameRva);
    }
    FieldIsRead(terminator, 12, 0);
    OneSectionInFile(data, sections, i, importRva, dlls, terminator, 0);
    ReadersAgree(data, i, |dlls|);
    if forall k | 0 <= k < |sections| :: sections[k].virtualAddress > 0 {
      NothingAtZero(sections);
    }
  }

  lemma {:induction false} NothingAtZero(sections: seq<Section>)
    requires forall k | 0 <= k < |sections| :: sections[k].virtualAddress > 0
    ensures FileOffset(TableFor(sections), 0).None?
  {
  }

  // ---------------------------------------------------------------- what is refused

  /** A file that is too short, has no signature where 0x3C says, or is not PE32+, is refused by both. */
  lemma {:induction false} RefusesOtherFiles(data: seq<byte>, pe: nat)
    requires Field4(data, 0x3C, pe)
    ensures !(pe + 4 <= |data| && data[pe..pe + 4] == [80, 69, 0, 0]) ==>
              ImportsByRva(data) == ImportsByCursor(data) == Failure(NotPe)
    ensures pe + 26 <= |data| && data[pe..pe + 4] == [80, 69, 0, 0] && !Field2(data, pe + 24, 0x20B) ==>
              ImportsByRva(data) == ImportsByCursor(data) == Failure(NotPe32Plus)
  {
    hide Entries, WalkRva, WalkCursor, FileOffset;
    FieldIsRead(data, 0x3C, pe);
    FieldIsRead(data, pe + 24, 0x20B);
    SliceIs(data, pe);
  }

  lemma {:induction false} SliceIs(data: seq<byte>, at: nat)
    ensures Slice(data, at, 4) == [80, 69, 0, 0] <==> at + 4 <= |data| && data[at..at + 4] == [80, 69, 0, 0]
  {
  }

  lemma {:induction false} RefusesShortFiles(data: seq<byte>)
    requires |data| < 64
    ensures ImportsByRva(data) == ImportsByCursor(data) == Failure(Truncated)
  {
  }

  /** Neither does it help to have the first of several section headers: a file that ends inside one of
      them, or inside the import directory's entry, is refused. */
  lemma {:induction false} RefusesCutHeaders(data: seq<byte>, pe: nat, optSize: nat, count: nat)
    requires Field4(data, 0x3C, pe) && pe + 26 <= |data| && data[pe..pe + 4] == [80, 69, 0, 0]
    requires Field2(data, pe + 6, count) && Field2(data, pe + 20, optSize) && Field2(data, pe + 24, 0x20B)
    ensures count > 0 && pe + 24 + optSize + 40 * (count - 1) + 24 > |data| ==>
              ImportsByRva(data) == ImportsByCursor(data) == Failure(Truncated)
    ensures pe + 148 > |data| ==> ImportsByRva(data) == Failure(Truncated)
    ensures pe + 152 > |data| ==> ImportsByCursor(data) == Failure(Truncated)
  {
    hide Entries, WalkRva, WalkCursor, FileOffset, U16, U32, Field2, Field4, Le4;
    FieldIsRead(data, 0x3C, pe);
    FieldIsRead(data, pe + 6, count);
    FieldIsRead(data, pe + 20, optSize);
    FieldIsRead(data, pe + 24, 0x20B);
    SliceIs(data, pe);
    EntriesFailTruncated(data, pe + 24 + optSize, 0, count);
    if pe + 148 > |data| {
      PastTheEnd(data, pe + 144);
    }
  }

  lemma {:induction false} PastTheEnd(data: seq<byte>, at: nat)
    requires at + 4 > |data|
    ensures U32(data, at) == Failure(Truncated)
  {
  }

  lemma {:induction false} EntriesFailTruncated(data: seq<byte>, base: nat, i: nat, count: nat)
    requires i <= count
    ensures var e := Entries(data, base, i, count);
            && (e.Failure? ==> e.error == Truncated)
            && (i < count && base + 40 * (count - 1) + 24 > |data| ==> e.Failure?)
    decreases count - i
  {
    if i < count {
      EntriesFailTruncated(data, base, i + 1, count);
    }
  }

  /** An import address outside all sections is refused by both. */
  lemma {:induction false} RefusesUnmappedTable(
    data: seq<byte>, pe: nat, optSize: nat, sections: seq<Section>, importRva: nat)
    requires IsImage(data, pe, optSize, sections, importRva) && importRva > 0 && Unmapped(sections, importRva)
    ensures ImportsByRva(data) == ImportsByCursor(data) == Failure(UnmappedRva)
  {
    hide HeadersOf, Field2, HeaderAt, Keeps, Disjoint, Unmapped, FileOffset;
    HeadersReadBack(data, pe, optSize, sections, importRva);
    FieldIsRead(data, pe + 144, importRva);
    UnmappedIsNone(sections, importRva);
  }

  /** An image without an import directory imports nothing. */
  lemma {:induction false} NoImports(data: seq<byte>, pe: nat, optSize: nat, sections: seq<Section>)
    requires IsImage(data, pe, optSize, sections, 0)
    ensures ImportsByRva(data) == ImportsByCursor(data) == Success({})
  {
    hide HeadersOf, Field2, Field4, HeaderAt, Keeps, Disjoint;
    HeadersReadBack(data, pe, optSize, sections, 0);
  }

  /** A file that ends inside a descriptor ends the table for the cursor reader. */
  lemma {:induction false} CursorEndsWithFile(data: seq<byte>, table: seq<Entry>, cursor: nat, names: Names)
    requires cursor + 20 > |data|
    ensures WalkCursor(data, table, cursor, names) == Success(names)
  {
  }

  /** No section is given the address in memory, nor has it in the file. */
  predicate Unmapped(sections: seq<Section>, rva: nat) {
    forall i | 0 <= i < |sections| ::
      rva < sections[i].virtualAddress
      || (rva >= sections[i].virtualAddress + sections[i].virtualSize && rva >= sections[i].virtualAddress + |sections[i].raw|)
  }

  lemma {:induction false} UnmappedIsNone(sections: seq<Section>, rva: nat)
    requires Unmapped(sections, rva)
    ensures FileOffset(TableFor(sections), rva) == None
  {
  }

  /** What is wrong with the text that a descriptor's name should be at: its address is unmapped, no NUL
      follows in the file, or it has a byte that is not ASCII. */
  predicate BadName(data: seq<byte>, sections: seq<Section>, rva: nat, text: seq<byte>, e: Error) {
    match e
    case UnmappedRva => Unmapped(sections, rva)
    case NoTerminator =>
      exists i | 0 <= i < |sections| ::
        && sections[i].virtualAddress <= rva < sections[i].virtualAddress + |sections[i].raw|
        && forall j | sections[i].pointer + (rva - sections[i].virtualAddress) <= j < |data| :: data[j] != 0
    case NotAscii =>
      Loaded(sections, rva, text + [0]) && 0 !in text && exists k :: 0 <= k < |text| && text[k] >= 128
    case _ => false
  }

  lemma {:induction false} BadNameFails(data: seq<byte>, sections: seq<Section>, rva: nat, text: seq<byte>, e: Error)
    requires Disjoint(sections) && Keeps(data, sections) && BadName(data, sections, rva, text, e)
    ensures NameAtRva(data, TableFor(sections), rva) == Failure(e)
  {
    hide Disjoint, Keeps, Loaded;
    match e
    case UnmappedRva => UnmappedIsNone(sections, rva);
    case NoTerminator =>
      var i :| && 0 <= i < |sections|
               && sections[i].virtualAddress <= rva < sections[i].virtualAddress + |sections[i].raw|
               && forall j | sections[i].pointer + (rva - sections[i].virtualAddress) <= j < |data| :: data[j] != 0;
      FirstMatchIs(sections, rva, i);
    case NotAscii =>
      LoadedReadsBack(data, sections, rva, text + [0]);
      var start := FileOffset(TableFor(sections), rva).value;
      FindNulIs(data, start, text);
      SliceOfSlice(data, start, start + |text| + 1, 0, |text|);
      assert (text + [0])[0..|text|] == text;
  }

  /** The reader has got to `rva` and finds a descriptor whose name cannot be read. */
  lemma {:induction false} WalkFails(
    data: seq<byte>, table: seq<Entry>, rva: nat, names: seq<seq<byte>>, k: nat, got: Names, e: Error)
    requires rva > 0 && k <= |names|
    requires forall i | 0 <= i < |names| :: Reads(data, table, rva + 20 * i, names[i])
    requires var at := rva + 20 * |names|;
             if FileOffset(table, at).None? then e == UnmappedRva
             else var field := NameField(data, table, at);
                  field.Some? && field.value != 0 && NameAtRva(data, table, field.value) == Failure(e)
    ensures WalkRva(data, table, rva + 20 * k, got) == Failure(e)
    decreases |names| - k
  {
    hide WalkRva, Reads, NameField, FileOffset, NameAtRva;
    if k == |names| {
      WalkBreaks(data, table, rva + 20 * k, got);
    } else {
      WalkStep(data, table, rva + 20 * k, names[k], got);
      WalkFails(data, table, rva, names, k + 1, got + {names[k]}, e);
    }
  }

  lemma {:induction false} WalkBreaks(data: seq<byte>, table: seq<Entry>, rva: nat, got: Names)
    requires rva > 0
    ensures FileOffset(table, rva).None? ==> WalkRva(data, table, rva, got) == Failure(UnmappedRva)
    ensures var field := NameField(data, table, rva);
            field.Some? && field.value != 0 && NameAtRva(data, table, field.value).Failure? ==>
              WalkRva(data, table, rva, got) == Failure(NameAtRva(data, table, field.value).error)
  {
  }

  /** MAIN RESULT, refusal. An import directory with one bad entry after any number of good ones, a
      descriptor outside all sections or one whose name cannot be read, fails with that entry's error;
      no partial set of names is returned. */
  lemma {:induction false} RefusesBadImport(
    data: seq<byte>, pe: nat, optSize: nat, sections: seq<Section>, importRva: nat, dlls: seq<Import>,
    bad: seq<byte>, nameRva: nat, text: seq<byte>, e: Error)
    requires IsImage(data, pe, optSize, sections, importRva) && importRva > 0
    requires forall k | 0 <= k < |dlls| :: ImportAt(sections, importRva + 20 * k, dlls[k])
    requires var at := importRva + 20 * |dlls|;
             || (Unmapped(sections, at) && e == UnmappedRva)
             || (&& |bad| == 20 && Loaded(sections, at, bad) && Field4(bad, 12, nameRva) && nameRva != 0
                 && BadName(data, sections, nameRva, text, e))
    ensures ImportsByRva(data) == Failure(e)
  {
    hide WalkRva, Reads, NameField, Disjoint, Keeps, TableFor, ImportAt, Loaded, HeadersOf, Field2, Field4, HeaderAt;
    hide Unmapped, BadName, NameAtRva, FileOffset;
    var table, names, at := TableFor(sections), DllNames(dlls), importRva + 20 * |dlls|;
    HeadersReadBack(data, pe, optSize, sections, importRva);
    forall i | 0 <= i < |names| ensures Reads(data, table, importRva + 20 * i, names[i]) {
      ImportReadsBack(data, sections, importRva + 20 * i, dlls[i]);
    }
    if Unmapped(sections, at) && e == UnmappedRva {
      UnmappedIsNone(sections, at);
    } else {
      LoadedReadsBack(data, sections, at, bad);
      DescriptorReadsBack(data, sections, at, bad, nameRva);
      BadNameFails(data, sections, nameRva, text, e);
    }
    WalkFails(data, table, importRva, names, 0, {}, e);
  }

  // ---------------------------------------------------------------- writing images

  function Put4(x: nat): (b: seq<byte>)
    requires x < 0x1_0000_0000
    ensures |b| == 4 && Field4(b, 0, x)
  {
    var q := x / 0x100;
    var r := q / 0x100;
    [x % 0x100, q % 0x100, r % 0x100, r / 0x100]
  }

  function Put2(x: nat): (b: seq<byte>)
    requires x < 0x1_0000
    ensures |b| == 2 && Field2(b, 0, x)
  {
    [x % 0x100, x / 0x100]
  }

  function Zeros(n: nat): (z: seq<byte>)
    ensures |z| == n && IsZero(z)
  {
    seq(n, _ => 0)
  }

  // ---------------------------------------------------------------- parts in a row

  /** Where part `i` starts when the parts are written one after the other. */
  function Start(parts: seq<seq<byte>>, i: nat): nat
    requires i <= |parts|
  {
    if i == 0 then 0 else Start(parts, i - 1) + |parts[i - 1]|
  }

  function Concat(parts: seq<seq<byte>>): seq<byte> {
    if parts == [] then [] else Concat(parts[..|parts| - 1]) + parts[|parts| - 1]
  }

  lemma {:induction false} StartOfPrefix(parts: seq<seq<byte>>, n: nat, i: nat)
    requires i <= n <= |parts|
    ensures Start(parts[..n], i) == Start(parts, i)
  {
    if i > 0 {
      StartOfPrefix(parts, n, i - 1);
    }
  }

  lemma {:induction false} PartAt(parts: seq<seq<byte>>, i: nat)
    requires i < |parts|
    ensures |Concat(parts)| == Start(parts, |parts|)
    ensures Start(parts, i) + |parts[i]| <= |Concat(parts)|
    ensures Concat(parts)[Start(parts, i)..Start(parts, i) + |parts[i]|] == parts[i]
    decreases |parts|
  {
    var n := |parts| - 1;
    var front, last := Concat(parts[..n]), parts[n];
    StartOfPrefix(parts, n, n);
    if n > 0 {
      PartAt(parts[..n], if i < n then i else 0);
    }
    if i < n {
      StartOfPrefix(parts, n, i);
      var p := Start(parts, i);
      assert (front + last)[p..p + |parts[i]|] == front[p..p + |parts[i]|];
    } else {
      FieldIn(front, last, []);
      assert front + last + [] == front + last;
    }
  }

  function Raws(sections: seq<Section>): (r: seq<seq<byte>>)
    ensures |r| == |sections| && forall i | 0 <= i < |r| :: r[i] == sections[i].raw
  {
    seq(|sections|, i requires 0 <= i < |sections| => sections[i].raw)
  }

  /** Every field fits its width. */
  predicate Fits(s: Section) {
    && s.virtualAddress < 0x1_0000_0000 && s.virtualSize < 0x1_0000_0000
    && s.pointer < 0x1_0000_0000 && |s.raw| < 0x1_0000_0000
  }

  function HeaderFor(s: Section): (h: seq<byte>)
    requires Fits(s)
    ensures |h| == 40
  {
    Zeros(8) + Put4(s.virtualSize) + Put4(s.virtualAddress) + Put4(|s.raw|) + Put4(s.pointer) + Zeros(16)
  }

  function SectionHeaders(sections: seq<Section>): (h: seq<seq<byte>>)
    requires forall i | 0 <= i < |sections| :: Fits(sections[i])
    ensures |h| == |sections| && forall i | 0 <= i < |h| :: h[i] == HeaderFor(sections[i])
  {
    seq(|sections|, i requires 0 <= i < |sections| => HeaderFor(sections[i]))
  }

  /** The DOS header with a stub behind it, signature and COFF header, and an optional header whose
      length `extra` completes. */
  function FixedParts(stub: seq<byte>, extra: seq<byte>, count: nat, importRva: nat): (p: seq<seq<byte>>)
    requires 64 + |stub| < 0x1_0000_0000 && 4 <= |extra| < 0xFF00 && count < 0x1_0000 && importRva < 0x1_0000_0000
    ensures |p| == 13
  {
    [Zeros(60), Put4(64 + |stub|), stub,
     [80, 69, 0, 0], Zeros(2), Put2(count), Zeros(12), Put2(124 + |extra|), Zeros(2),
     Put2(0x20B), Zeros(118), Put4(importRva), extra]
  }

  /** Every field fits, and the data follow the headers in order. */
  predicate Valid(stub: seq<byte>, extra: seq<byte>, sections: seq<Section>, importRva: nat) {
    && 64 + |stub| < 0x1_0000_0000 && 4 <= |extra| < 0xFF00 && |sections| < 0x1_0000 && importRva < 0x1_0000_0000
    && Disjoint(sections)
    && forall i | 0 <= i < |sections| ::
         Fits(sections[i])
         && sections[i].pointer == 212 + |stub| + |extra| + 40 * |sections| + Start(Raws(sections), i)
  }

  function Build(stub: seq<byte>, extra: seq<byte>, sections: seq<Section>, importRva: nat): seq<byte>
    requires Valid(stub, extra, sections, importRva)
  {
    Concat(FixedParts(stub, extra, |sections|, importRva)) + Concat(SectionHeaders(sections)) + Concat(Raws(sections))
  }

  /** Where the fixed parts stand. */
  lemma {:induction false} FixedStarts(parts: seq<seq<byte>>)
    requires |parts| == 13
    requires |parts[0]| == 60 && |parts[1]| == 4 && |parts[3]| == 4 && |parts[4]| == 2 && |parts[5]| == 2
    requires |parts[6]| == 12 && |parts[7]| == 2 && |parts[8]| == 2 && |parts[9]| == 2 && |parts[10]| == 118 && |parts[11]| == 4
    ensures var pe := 64 + |parts[2]|;
            && Start(parts, 1) == 60 && Start(parts, 3) == pe && Start(parts, 5) == pe + 6
            && Start(parts, 7) == pe + 20 && Start(parts, 9) == pe + 24 && Start(parts, 11) == pe + 144
            && Start(parts, 13) == pe + 148 + |parts[12]|
  {
    assert Start(parts, 2) == Start(parts, 1) + 4 == Start(parts, 0) + 64;
    assert Start(parts, 4) == Start(parts, 3) + 4 == Start(parts, 2) + |parts[2]| + 4;
    assert Start(parts, 6) == Start(parts, 5) + 2 == Start(parts, 4) + 4;
    assert Start(parts, 8) == Start(parts, 7) + 2 == Start(parts, 6) + 14;
    assert Start(parts, 10) == Start(parts, 9) + 2 == Start(parts, 8) + 4;
    assert Start(parts, 12) == Start(parts, 11) + 4 == Start(parts, 10) + 122;
  }

  /** A field is where its bytes are. */
  lemma {:induction false} FieldFrom(data: seq<byte>, at: nat, b: seq<byte>, x: nat)
    requires at + |b| <= |data| && data[at..at + |b|] == b
    ensures |b| == 2 && Field2(b, 0, x) ==> Field2(data, at, x)
    ensures |b| == 4 && Field4(b, 0, x) ==> Field4(data, at, x)
  {
    assert forall k | 0 <= k < |b| :: b[k] == data[at + k];
  }

  lemma {:induction false} PartIn(parts: seq<seq<byte>>, rest: seq<byte>, i: nat)
    requires i < |parts|
    ensures var at := Start(parts, i);
            at + |parts[i]| <= |Concat(parts)| && (Concat(parts) + rest)[at..at + |parts[i]|] == parts[i]
  {
    PartAt(parts, i);
    var at := Start(parts, i);
    assert (Concat(parts) + rest)[at..at + |parts[i]|] == Concat(parts)[at..at + |parts[i]|];
  }

  lemma {:induction false} FixedFields(stub: seq<byte>, extra: seq<byte>, count: nat, importRva: nat, rest: seq<byte>)
    requires 64 + |stub| < 0x1_0000_0000 && 4 <= |extra| < 0xFF00 && count < 0x1_0000 && importRva < 0x1_0000_0000
    ensures var fixed := Concat(FixedParts(stub, extra, count, importRva));
            var data, pe := fixed + rest, 64 + |stub|;
            && |fixed| == pe + 148 + |extra|
            && Field4(data, 0x3C, pe) && data[pe..pe + 4] == [80, 69, 0, 0]
            && Field2(data, pe + 6, count) && Field2(data, pe + 20, 124 + |extra|)
            && Field2(data, pe + 24, 0x20B) && Field4(data, pe + 144, importRva)
  {
    hide Start, Concat, Field2, Field4, Put2, Put4, Zeros;
    var parts := FixedParts(stub, extra, count, importRva);
    var data, pe := Concat(parts) + rest, 64 + |stub|;
    FixedStarts(parts);
    PartAt(parts, 0);
    PartIn(parts, rest, 1);
    PartIn(parts, rest, 3);
    PartIn(parts, rest, 5);
    PartIn(parts, rest, 7);
    PartIn(parts, rest, 9);
    PartIn(parts, rest, 11);
    FieldFrom(data, 0x3C, parts[1], pe);
    FieldFrom(data, pe + 6, parts[5], count);
    FieldFrom(data, pe + 20, parts[7], 124 + |extra|);
    FieldFrom(data, pe + 24, parts[9], 0x20B);
    FieldFrom(data, pe + 144, parts[11], importRva);
  }

  lemma {:induction false} HeaderStart(sections: seq<Section>, i: nat)
    requires (forall j | 0 <= j < |sections| :: Fits(sections[j])) && i <= |sections|
    ensures Start(SectionHeaders(sections), i) == 40 * i
  {
    hide HeaderFor;
    if i > 0 {
      HeaderStart(sections, i - 1);
      assert SectionHeaders(sections)[i - 1] == HeaderFor(sections[i - 1]);
    }
  }

  lemma {:induction false} HeaderIsAt(data: seq<byte>, at: nat, s: Section)
    requires Fits(s) && at + 40 <= |data| && data[at..at + 40] == HeaderFor(s)
    ensures HeaderAt(data, at, s)
  {
    hide Field4, Put4;
    var h := HeaderFor(s);
    SliceOfSlice(data, at, at + 40, 8, 12);
    SliceOfSlice(data, at, at + 40, 12, 16);
    SliceOfSlice(data, at, at + 40, 16, 20);
    SliceOfSlice(data, at, at + 40, 20, 24);
    assert h[8..12] == Put4(s.virtualSize) && h[12..16] == Put4(s.virtualAddress);
    assert h[16..20] == Put4(|s.raw|) && h[20..24] == Put4(s.pointer);
    FieldFrom(data, at + 8, Put4(s.virtualSize), s.virtualSize);
    FieldFrom(data, at + 12, Put4(s.virtualAddress), s.virtualAddress);
    FieldFrom(data, at + 16, Put4(|s.raw|), |s.raw|);
    FieldFrom(data, at + 20, Put4(s.pointer), s.pointer);
  }

  lemma {:induction false} HeadersAreAt(front: seq<byte>, sections: seq<Section>, rest: seq<byte>, i: nat)
    requires (forall j | 0 <= j < |sections| :: Fits(sections[j])) && i < |sections|
    ensures |Concat(SectionHeaders(sections))| == 40 * |sections|
    ensures HeaderAt(front + (Concat(SectionHeaders(sections)) + rest), |front| + 40 * i, sections[i])
  {
    hide HeaderFor, Concat, Start, HeaderAt;
    var headers := SectionHeaders(sections);
    HeaderStart(sections, i);
    HeaderStart(sections, |sections|);
    PartAt(headers, i);
    PartIn(headers, rest, i);
    MiddleSlice(front, Concat(headers) + rest, [], 40 * i, 40 * i + 40);
    assert front + (Concat(headers) + rest) + [] == front + (Concat(headers) + rest);
    HeaderIsAt(front + (Concat(headers) + rest), |front| + 40 * i, sections[i]);
  }

  lemma {:induction false} DataIsAt(front: seq<byte>, sections: seq<Section>, i: nat)
    requires i < |sections| && sections[i].pointer == |front| + Start(Raws(sections), i)
    ensures KeepsSection(front + Concat(Raws(sections)), sections[i])
  {
    var raws := Raws(sections);
    PartAt(raws, i);
    MiddleSlice(front, Concat(raws), [], Start(raws, i), Start(raws, i) + |raws[i]|);
    assert front + Concat(raws) + [] == front + Concat(raws);
  }

  /** There are such images: for every stub, every optional header and all disjoint sections. */
  lemma {:induction false} BuildIsImage(stub: seq<byte>, extra: seq<byte>, sections: seq<Section>, importRva: nat)
    requires Valid(stub, extra, sections, importRva)
    ensures IsImage(Build(stub, extra, sections, importRva), 64 + |stub|, 124 + |extra|, sections, importRva)
  {
    hide FixedParts, Field2, Field4, HeaderAt, KeepsSection, Disjoint, Concat, Start;
    var fixed := Concat(FixedParts(stub, extra, |sections|, importRva));
    var headers, raw := Concat(SectionHeaders(sections)), Concat(Raws(sections));
    var data := Build(stub, extra, sections, importRva);
    Associate(fixed, headers, raw);
    FixedFields(stub, extra, |sections|, importRva, headers + raw);
    HeaderStart(sections, |sections|);
    ConcatLength(SectionHeaders(sections));
    var pe := 64 + |stub|;
    assert data[pe..pe + 4][0] == data[pe] && data[pe..pe + 4][1] == data[pe + 1];
    assert data[pe..pe + 4][2] == data[pe + 2] && data[pe..pe + 4][3] == data[pe + 3];
    forall i | 0 <= i < |sections|
      ensures HeaderAt(data, pe + 148 + |extra| + 40 * i, sections[i]) && KeepsSection(data, sections[i])
    {
      HeadersAreAt(fixed, sections, raw, i);
      DataIsAt(fixed + headers, sections, i);
    }
  }

  lemma {:induction false} ConcatLength(parts: seq<seq<byte>>)
    ensures |Concat(parts)| == Start(parts, |parts|)
  {
    if parts != [] {
      PartAt(parts, 0);
    }
  }

  // ---------------------------------------------------------------- an import section for any names

  function Put4At(x: nat): (d: seq<byte>)
    requires x < 0x1_0000_0000
    ensures |d| == 20 && Field4(d, 12, x)
  {
    var d := Zeros(12) + Put4(x) + Zeros(4);
    assert forall k | 0 <= k < 4 :: d[12 + k] == Put4(x)[k];
    d
  }

  function Strings(names: seq<seq<byte>>): (s: seq<seq<byte>>)
    ensures |s| == |names| && forall k | 0 <= k < |s| :: s[k] == names[k] + [0]
  {
    seq(|names|, k requires 0 <= k < |names| => names[k] + [0])
  }

  function NameRva(names: seq<seq<byte>>, va: nat, k: nat): nat
    requires k <= |names|
  {
    va + 20 * (|names| + 1) + Start(Strings(names), k)
  }

  predicate FitsAt(names: seq<seq<byte>>, va: nat) {
    va > 0 && forall k | 0 <= k < |names| :: NameRva(names, va, k) < 0x1_0000_0000
  }

  function Imports(names: seq<seq<byte>>, va: nat): (d: seq<Import>)
    requires FitsAt(names, va)
    ensures |d| == |names|
    ensures forall k | 0 <= k < |d| :: d[k] == Import(Put4At(NameRva(names, va, k)), NameRva(names, va, k), names[k])
  {
    seq(|names|, k requires 0 <= k < |names| => Import(Put4At(NameRva(names, va, k)), NameRva(names, va, k), names[k]))
  }

  function Descriptors(names: seq<seq<byte>>, va: nat): (d: seq<seq<byte>>)
    requires FitsAt(names, va)
    ensures |d| == |names|
    ensures forall k | 0 <= k < |d| :: d[k] == Put4At(NameRva(names, va, k))
  {
    seq(|names|, k requires 0 <= k < |names| => Put4At(NameRva(names, va, k)))
  }

  /** A descriptor for each name, the one that ends the table, and the names. */
  function ImportParts(names: seq<seq<byte>>, va: nat, terminator: seq<byte>): (p: seq<seq<byte>>)
    requires FitsAt(names, va) && Nameless(terminator)
    ensures |p| == 2 * |names| + 1
  {
    Descriptors(names, va) + [terminator] + Strings(names)
  }

  function ImportSection(names: seq<seq<byte>>, va: nat, terminator: seq<byte>, pointer: nat): Section
    requires FitsAt(names, va) && Nameless(terminator)
  {
    Section(va, 0, pointer, Concat(ImportParts(names, va, terminator)))
  }

  lemma {:induction false} DescriptorStart(names: seq<seq<byte>>, va: nat, terminator: seq<byte>, k: nat)
    requires FitsAt(names, va) && Nameless(terminator) && k <= |names| + 1
    ensures Start(ImportParts(names, va, terminator), k) == 20 * k
  {
    hide FitsAt, NameRva, IsZero;
    if k > 0 {
      DescriptorStart(names, va, terminator, k - 1);
      assert |ImportParts(names, va, terminator)[k - 1]| == 20;
    }
  }

  lemma {:induction false} StringStart(names: seq<seq<byte>>, va: nat, terminator: seq<byte>, k: nat)
    requires FitsAt(names, va) && Nameless(terminator) && k <= |names|
    ensures va + Start(ImportParts(names, va, terminator), |names| + 1 + k) == NameRva(names, va, k)
  {
    hide Put4At, Zeros, FitsAt, Nameless;
    if k == 0 {
      DescriptorStart(names, va, terminator, |names| + 1);
    } else {
      StringStart(names, va, terminator, k - 1);
      assert ImportParts(names, va, terminator)[|names| + 1 + k - 1] == Strings(names)[k - 1];
    }
  }

  lemma {:induction false} PartIsLoaded(names: seq<seq<byte>>, va: nat, terminator: seq<byte>, pointer: nat, others: seq<Section>, i: nat)
    requires FitsAt(names, va) && Nameless(terminator) && i < 2 * |names| + 1
    ensures var s, parts := ImportSection(names, va, terminator, pointer), ImportParts(names, va, terminator);
            && LoadedIn(s, va + Start(parts, i), parts[i])
            && Loaded([s] + others, va + Start(parts, i), parts[i])
  {
    hide ImportParts, Concat, Start, FitsAt, NameRva, Nameless, Loaded;
    var parts := ImportParts(names, va, terminator);
    PartAt(parts, i);
    LoadedInFirst(ImportSection(names, va, terminator, pointer), others, va + Start(parts, i), parts[i]);
  }

  lemma {:induction false} LoadedInFirst(s: Section, others: seq<Section>, rva: nat, bytes: seq<byte>)
    requires LoadedIn(s, rva, bytes)
    ensures Loaded([s] + others, rva, bytes)
  {
    assert ([s] + others)[0] == s;
  }

  lemma {:induction false} DescriptorPart(names: seq<seq<byte>>, va: nat, terminator: seq<byte>, k: nat)
    requires FitsAt(names, va) && Nameless(terminator) && k <= |names|
    ensures ImportParts(names, va, terminator)[k] == if k < |names| then Imports(names, va)[k].descriptor else terminator
  {
    hide FitsAt, NameRva, Put4At;
    assert ImportParts(names, va, terminator)[k] == if k < |names| then Descriptors(names, va)[k] else terminator;
  }

  lemma {:induction false} DescriptorIsLoaded(names: seq<seq<byte>>, va: nat, terminator: seq<byte>, pointer: nat, others: seq<Section>, k: nat)
    requires FitsAt(names, va) && Nameless(terminator) && k <= |names|
    ensures var s, d := ImportSection(names, va, terminator, pointer), if k < |names| then Imports(names, va)[k].descriptor else terminator;
            LoadedIn(s, va + 20 * k, d) && Loaded([s] + others, va + 20 * k, d)
  {
    hide ImportSection, ImportParts, Loaded, LoadedIn, Start, FitsAt, NameRva, Put4At;
    DescriptorStart(names, va, terminator, k);
    PartIsLoaded(names, va, terminator, pointer, others, k);
    DescriptorPart(names, va, terminator, k);
  }

  lemma {:induction false} NameIsLoaded(names: seq<seq<byte>>, va: nat, terminator: seq<byte>, pointer: nat, others: seq<Section>, k: nat)
    requires FitsAt(names, va) && Nameless(terminator) && k < |names|
    ensures Loaded([ImportSection(names, va, terminator, pointer)] + others, NameRva(names, va, k), names[k] + [0])
  {
    StringStart(names, va, terminator, k);
    PartIsLoaded(names, va, terminator, pointer, others, |names| + 1 + k);
    assert ImportParts(names, va, terminator)[|names| + 1 + k] == Strings(names)[k];
  }

  lemma {:induction false} ImportIsValid(sections: seq<Section>, nameRva: nat, name: seq<byte>)
    requires 0 < nameRva < 0x1_0000_0000
    requires IsName(name) && Loaded(sections, nameRva, name + [0])
    ensures ValidImport(sections, Import(Put4At(nameRva), nameRva, name))
  {
  }

  lemma {:induction false} EntryIsValid(names: seq<seq<byte>>, va: nat, terminator: seq<byte>, pointer: nat, others: seq<Section>, k: nat)
    requires FitsAt(names, va) && Nameless(terminator) && k < |names|
    requires IsName(names[k])
    ensures ValidImport([ImportSection(names, va, terminator, pointer)] + others, Imports(names, va)[k])
  {
    NameIsLoaded(names, va, terminator, pointer, others, k);
    ImportIsValid([ImportSection(names, va, terminator, pointer)] + others, NameRva(names, va, k), names[k]);
  }

  lemma {:induction false} ImportIsLaidOut(names: seq<seq<byte>>, va: nat, terminator: seq<byte>, pointer: nat, others: seq<Section>, k: nat)
    requires FitsAt(names, va) && Nameless(terminator) && k < |names|
    requires IsName(names[k])
    ensures ImportAt([ImportSection(names, va, terminator, pointer)] + others, va + 20 * k, Imports(names, va)[k])
  {
    DescriptorIsLoaded(names, va, terminator, pointer, others, k);
    EntryIsValid(names, va, terminator, pointer, others, k);
  }

  lemma {:induction false} SectionHoldsTable(names: seq<seq<byte>>, va: nat, terminator: seq<byte>, pointer: nat, others: seq<Section>)
    requires FitsAt(names, va) && Nameless(terminator)
    requires forall i | 0 <= i < |names| :: IsName(names[i])
    ensures ImportTable([ImportSection(names, va, terminator, pointer)] + others, va, Imports(names, va), terminator)
  {
    hide ImportAt, Loaded, ImportSection;
    var sections := [ImportSection(names, va, terminator, pointer)] + others;
    forall k | 0 <= k < |names| ensures ImportAt(sections, va + 20 * k, Imports(names, va)[k]) {
      ImportIsLaidOut(names, va, terminator, pointer, others, k);
    }
    DescriptorIsLoaded(names, va, terminator, pointer, others, |names|);
  }

  lemma {:induction false} SectionIsTable(names: seq<seq<byte>>, va: nat, terminator: seq<byte>, pointer: nat)
    requires FitsAt(names, va) && Nameless(terminator)
    ensures TableIn(ImportSection(names, va, terminator, pointer), va, Imports(names, va), terminator)
  {
    hide LoadedIn, ImportSection;
    var s, dlls := ImportSection(names, va, terminator, pointer), Imports(names, va);
    forall k | 0 <= k < |dlls| ensures LoadedIn(s, va + 20 * k, dlls[k].descriptor) {
      DescriptorIsLoaded(names, va, terminator, pointer, [], k);
    }
    DescriptorIsLoaded(names, va, terminator, pointer, [], |names|);
  }

  /** MAIN RESULT. Every list of ASCII names has such an import section, with any nameless descriptor at
      the end. Of every image with that section first, wherever its headers and data stand and whatever
      other sections it has, the RVA reader reads the names back; the cursor reader does so when that
      descriptor is all zero and, with no section at RVA 0, only then. */
  lemma {:induction false} AnyNamesReadBack(
    names: seq<seq<byte>>, va: nat, terminator: seq<byte>, pointer: nat, others: seq<Section>,
    data: seq<byte>, pe: nat, optSize: nat)
    requires FitsAt(names, va) && Nameless(terminator)
    requires forall i | 0 <= i < |names| :: IsName(names[i])
    requires IsImage(data, pe, optSize, [ImportSection(names, va, terminator, pointer)] + others, va)
    ensures var all := Success(set i | 0 <= i < |names| :: names[i]);
            && ImportsByRva(data) == all
            && (terminator == ZERO20 ==> ImportsByCursor(data) == all)
            && ((forall k | 0 <= k < |others| :: others[k].virtualAddress > 0) ==>
                  (ImportsByCursor(data) == all <==> terminator == ZERO20))
  {
    hide ImportTable, TableIn, IsImage, ImportsByRva, ImportsByCursor, NameRva, ImportParts, FitsAt, Nameless;
    var dlls := Imports(names, va);
    var sections := [ImportSection(names, va, terminator, pointer)] + others;
    SectionHoldsTable(names, va, terminator, pointer, others);
    SectionIsTable(names, va, terminator, pointer);
    StartsAbove(names, va, terminator, pointer, others);
    CursorReadsBack(data, pe, optSize, sections, va, dlls, terminator, 0);
    assert (set i | 0 <= i < |dlls| :: dlls[i].name) == set i | 0 <= i < |names| :: names[i];
  }

  lemma {:induction false} StartsAbove(names: seq<seq<byte>>, va: nat, terminator: seq<byte>, pointer: nat, others: seq<Section>)
    requires FitsAt(names, va) && Nameless(terminator)
    ensures var sections := [ImportSection(names, va, terminator, pointer)] + others;
            va > 0 && ((forall k | 0 <= k < |others| :: others[k].virtualAddress > 0)
                       ==> forall k | 0 <= k < |sections| :: sections[k].virtualAddress > 0)
  {
  }
}
