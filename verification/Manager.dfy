/** The FileManager object (src/FileManager.cpp): each public operation changes the container file,
    the header and the table in memory exactly as the functions of Container and Sessions say. */
module Manager {
  import opened Bytes
  import opened Layout
  import opened Fragments
  import opened Chunks
  import opened Sealing
  import opened Tables
  import opened Pipeline
  import opened Encrypt
  import opened Storing
  import opened Runs
  import opened Capacity
  import opened HeaderCodec
  import opened Slots
  import opened Recovery
  import opened Container
  import opened Adding
  import opened Sessions
  import Decrypt
  import Delivery
  import Names

  /** The entries to extract: all, or the named ones; None when a name is not in the table. */
  function Chosen(entries: seq<FileEntry>, names: seq<string>): Option<seq<FileEntry>> {
    if names == [] then Some(entries) else Named(entries, names)
  }

  function Named(entries: seq<FileEntry>, names: seq<string>): Option<seq<FileEntry>> {
    if names == [] then Some([]) else
      match Find(entries, names[0])
      case None => None
      case Some(e) => Then([e], Named(entries, names[1..]))
  }

  /** The new file before and after its headers have been written; the table in memory is as it was. */
  function Zeroed(x: Context, v: Volume): Volume {
    v.(disk := Zeros(v.header.containerSize), header := Coded(x.s, v.header))
  }

  function Headed(x: Context, v: Volume): Volume {
    var z := Zeroed(x, v);
    z.(disk := Replicated(z.disk, z.G().slots, |z.G().slots|, Serialize(z.header)))
  }

  /** write, in a session with any table. */
  function Creating(x: Context, v: Volume, files: seq<InputFile>, nonces: nat -> seq<byte>,
          nonce: seq<byte>): Outcome<Volume>
  {
    var f := v.header;
    var reserved := f.headerSize + f.maxTableSize;
    if files == [] || f.containerSize < 4 * reserved || f.containerSize > MAX_CONTAINER_SIZE then Thrown(v)
    else if !AllPresent(files) || Required(files) > Available(f.containerSize, reserved) then Thrown(Zeroed(x, v))
    else Finish(x, Headed(x, v), OneThread(x, Headed(x, v).(next := reserved), files, nonces), nonce)
  }

  /** With an empty table it is the creation of the theorems. */
  lemma {:induction false} CreatingIsCreate(x: Context, v: Volume, files: seq<InputFile>, nonces: nat -> seq<byte>,
          nonce: seq<byte>)
    requires v.entries == []
    ensures var f, o := v.header, Creating(x, v, files, nonces, nonce);
      var r := Create(x, f, files, OneThread(x, Blank(x, f), files, nonces), nonce);
      && (o.Thrown? <==> r.None? || r.value.Thrown?) && (o.Going? ==> r == Some(o))
  {
    hide Encrypted, ContainerGeometry, Finish, Starting, Replicated, Serialize, HeaderCodec.Prefix, Required, Sized;
    hide Available, AllPresent;
    var reserved := v.header.headerSize + v.header.maxTableSize;
    assert Blank(x, v.header) == Headed(x, v).(next := reserved);
    NextIrrelevant(x, Headed(x, v), reserved, OneThread(x, Blank(x, v.header), files, nonces), nonce);
  }

  /** What is left behind when a creation is refused: nothing happens to the file if there is nothing to store or
      the size is out of bounds; a missing file or too little room is found when the new file is already there,
      empty, in place of the old one. */
  lemma {:induction false} RefusedCreation(x: Context, v: Volume, files: seq<InputFile>, nonces: nat -> seq<byte>,
          nonce: seq<byte>)
    ensures var o, size, reserved := Creating(x, v, files, nonces, nonce), v.header.containerSize,
                                     v.header.headerSize + v.header.maxTableSize;
      if files == [] || !(4 * reserved <= size <= 0x200_0000_0000) then o == Thrown(v)
      else (exists i :: 0 <= i < |files| && !files[i].present) || Required(files) > size - 4 * reserved ==>
        && o.Thrown? && |o.w.disk| == size && (forall p :: 0 <= p < size ==> o.w.disk[p] == 0)
        && o.w.entries == v.entries && o.w.next == v.next
  {
    hide Encrypted, ContainerGeometry, Finish, Starting, Replicated, Serialize, HeaderCodec.Prefix, Required;
  }

  class FileManager {
    const x: Context
    const kek: Key
    const header: Header
    const fileTable: FileTable
    const containerFile: NativeFile

    ghost function State(): Volume
      reads this, header, fileTable, containerFile
    {
      Volume(containerFile.content, header.f, fileTable.entries, fileTable.nextWriteOffset)
    }

    /** The key belongs to the header, which is of the form the program writes. */
    ghost predicate Valid()
      reads this, header
    {
      && kek == x.s.kdf(ParamsOf(header.f)) && header.buffer.Length == HEADER_SIZE
      && header.f.WellFormed() && header.f.headerSize == HEADER_SIZE
      && SupportedCipher(header.f.cipher) && SupportedHash(header.f.hashAlgo)
      && forall hash, bytes :: |x.s.mac(hash, kek, bytes)| == 32
    }

    constructor (x: Context, kek: Key, header: Header, fileTable: FileTable, containerFile: NativeFile)
      ensures this.x == x && this.kek == kek
      ensures this.header == header && this.fileTable == fileTable && this.containerFile == containerFile
    {
      this.x, this.kek, this.header, this.fileTable, this.containerFile := x, kek, header, fileTable, containerFile;
    }

    function SlotGeometry(): Geometry
      reads header
    {
      ContainerGeometry(header.f.containerSize, header.f.headerSize + header.f.maxTableSize)
    }

    method ComputeAndStoreHeaderHmac()
      requires Valid()
      modifies header, header.buffer
      ensures header.f == Coded(x.s, old(header.f)) && Valid()
      ensures header.buffer[..] == Serialize(header.f)
    {
      hide Serialize, Fields.WellFormed, HeaderCodec.Prefix;
      var ok := header.CreateBuffer();
      ProtectedPart(header.f);
      var hmac := x.s.mac(header.f.hashAlgo, kek, header.buffer[..HMAC_PROTECTED_SIZE]);
      StoreHmacKeepsProtected(header.f, hmac);
      header.StoreHmac(hmac);
    }
  
    /** `threw` stands for an exception; `synced` lists what the file holds at each synchronisation. */
    method WriteFileTableToAllSlots(nonce: seq<byte>) returns (threw: bool, ghost synced: seq<seq<byte>>)
      requires Valid()
      modifies header, header.buffer, containerFile
      ensures SaveTable(x, old(State()), nonce) == if threw then Thrown(State()) else Going(State())
      ensures var text := x.text(Table(fileTable.entries, fileTable.nextWriteOffset));
        threw <==> |text| + 28 > old(header.f.maxTableSize) || x.c.seal(nonce, text).None?
      ensures threw ==> containerFile.content == old(containerFile.content)
      ensures Valid()
      ensures var image := SlotBytes(Serialize(header.f), SealedTable(x, old(State()), nonce), header.f.maxTableSize);
        !threw ==> |synced| == 4 && forall i :: 0 <= i < 4 ==>
          synced[i] == Replicated(old(containerFile.content), SlotGeometry().slots, i + 1, image)
    {
      hide Serialize, Fields.WellFormed, HeaderCodec.Prefix, Replicated, SlotBytes, SlotOffset;
      synced := [];
      var serialized := x.text(Table(fileTable.entries, fileTable.nextWriteOffset));
      var encSize := |serialized| + OVERHEAD;
      TableFieldsFit(header.f, encSize);
      header.f := WithSize(header.f, encSize);
      if encSize > header.f.maxTableSize { return true, synced; }
      var sealed := x.c.seal(nonce, serialized);
      if sealed.None? { return true, synced; }
      header.f := header.f.(headerVersion := (header.f.headerVersion + 1) % TWO_TO_THE_32);
      ComputeAndStoreHeaderHmac();
      synced := WriteSlots(containerFile, SlotGeometry().slots, header.buffer[..], sealed.value, header.f.maxTableSize);
      threw := false;
    }

    /** One thread reading, encrypting and writing everything. */
    method WriteChunks(offset: nat, files: seq<InputFile>, nonces: nat -> seq<byte>)
      returns (threw: bool, endOffset: nat, ghost w: Store)
      requires Valid()
      modifies header, fileTable, containerFile
      ensures Encrypted(x.c, nonces, old(State().G()), files,
                        Starting(old(State().G()), old(containerFile.content), offset, old(fileTable.entries),
                                 old(header.f.fileCount)))
        == if threw then Thrown(w) else Going(w)
      ensures State() == After(old(State()), w) && endOffset == w.offset
      ensures Valid()
    {
      hide Encrypted, Fields.WellFormed, ContainerGeometry, Geometry.Separated;
      var g := SlotGeometry();
      var start := SkipSlots(g, offset);
      var writer := new EncryptWriter(g, containerFile, fileTable, start, header.f.fileCount);
      threw := EncryptInOrder(x.c, nonces, files, writer);
      w := writer.State();
      CountFits(header.f, writer.fileCount);
      header.f := header.f.(fileCount := writer.fileCount % TWO_TO_THE_32);
      endOffset := writer.currentOffset;
    }

    /** The common end of write and add. */
    method StoreFiles(offset: nat, files: seq<InputFile>, nonces: nat -> seq<byte>, nonce: seq<byte>)
      returns (threw: bool)
      requires Valid()
      modifies header, header.buffer, fileTable, containerFile
      ensures var v := old(State());
        var run := Encrypted(x.c, nonces, v.G(), files, Starting(v.G(), v.disk, offset, v.entries, v.header.fileCount));
        Finish(x, v, run, nonce) == if threw then Thrown(State()) else Going(State())
      ensures Valid()
    {
      hide Encrypted, Fields.WellFormed, ContainerGeometry, Geometry.Separated, SaveTable, After, Starting, Replicated;
      hide Serialize;
      var endPos: nat;
      ghost var w;
      threw, endPos, w := WriteChunks(offset, files, nonces);
      if threw { return; }
      fileTable.nextWriteOffset := endPos;
      ghost var synced;
      threw, synced := WriteFileTableToAllSlots(nonce);
    }

    /** add */
    method Add(files: seq<InputFile>, nonces: nat -> seq<byte>, nonce: seq<byte>) returns (threw: bool)
      requires Valid()
      modifies header, header.buffer, fileTable, containerFile
      ensures var v := old(State());
        Container.Add(x, v, files, OneThread(x, v, files, nonces), nonce)
          == if threw then Thrown(State()) else Going(State())
      ensures Valid()
    {
      hide Encrypted, Fields.WellFormed, ContainerGeometry, Finish, DataBytes, FreeBytes;
      ghost var v := State();
      var dataEnd := fileTable.nextWriteOffset;
      var freeCapacity := FreeCapacity(SlotGeometry(), dataEnd, header.f.containerSize);
      if freeCapacity.None? { return true; }
      var required := ComputeRequired(files);
      if required.None? || required.value > freeCapacity.value { return true; }
      threw := StoreFiles(dataEnd, files, nonces, nonce);
    }

    /** write: on an exception the new file is left behind as it is. */
    method Write(files: seq<InputFile>, nonces: nat -> seq<byte>, nonce: seq<byte>) returns (threw: bool)
      requires Valid()
      modifies header, header.buffer, fileTable, containerFile
      ensures Creating(x, old(State()), files, nonces, nonce) == if threw then Thrown(State()) else Going(State())
      ensures Valid()
    {
      hide Encrypted, Fields.WellFormed, ContainerGeometry, Geometry.Separated, Finish, Starting, Replicated, Serialize;
      hide HeaderCodec.Prefix, Required, Sized;
      if files == [] { return true; }
      var reserved := header.f.headerSize + header.f.maxTableSize;
      if header.f.containerSize < 4 * reserved || header.f.containerSize > MAX_CONTAINER_SIZE { return true; }
      containerFile.Recreate(header.f.containerSize);
      ComputeAndStoreHeaderHmac();
      var required := ComputeRequired(files);
      if required.None? || required.value > Available(header.f.containerSize, reserved) { return true; }
      WriteAllSlots(containerFile, SlotGeometry().slots, header.buffer[..]);
      threw := StoreFiles(reserved, files, nonces, nonce);
    }

    method ChooseEntries(names: seq<string>) returns (r: Option<seq<FileEntry>>)
      ensures r == Chosen(fileTable.entries, names)
    {
      hide Find;
      if names == [] { return Some(fileTable.entries); }
      var entries: seq<FileEntry> := [];
      assert names[0..] == names;
      ThenNothing(Named(fileTable.entries, names));
      for i := 0 to |names|
        invariant Named(fileTable.entries, names) == Then(entries, Named(fileTable.entries, names[i..]))
      {
        assert names[i..][1..] == names[i + 1..];
        var e := fileTable.GetFileInfoByName(names[i]);
        if e.None? { return None; }
        ThenStep(entries, e.value, Named(fileTable.entries, names[i + 1..]));
        entries := entries + [e.value];
      }
      assert entries + [] == entries;
      r := Some(entries);
    }

    /** extract: None is the exception for an unknown name, before anything is written. `readerThrew`
        tells that some read of the chosen entries passes the end of the file; what was read before that is
        still written. */
    method Extract(names: seq<string>, outputs: map<string, seq<byte>>)
      returns (r: Option<Outcome<Decrypt.Output>>, readerThrew: bool)
      ensures r.None? <==> Chosen(fileTable.entries, names).None?
      ensures r.Some? ==> var es := Chosen(fileTable.entries, names).value;
        && (readerThrew <==> !Decrypt.AllReadable(State().G(), containerFile.content, es))
        && r.value == ExtractedSoFar(x.c, State().G(), containerFile.content, es, Decrypt.Fresh(outputs))
        && (!readerThrew ==>
              var texts := Delivery.Texts(x.c, State().G(), containerFile.content, es);
              && (r.value.Thrown? <==> Delivery.SomeRefuses(x.c, State().G(), containerFile.content, es))
              && (r.value.Going? ==> r.value.w.failures == Delivery.Mismatches(x.c, es, texts))
              && (r.value.Going? ==> r.value.w.files == Delivery.FilesAfter(outputs, es, texts)))
    {
      hide ContainerGeometry, ExtractedSoFar, Find, Decrypt.Readable, Chosen, Decrypt.AllReadable, Extracted;
      hide Delivery.Texts, Delivery.SomeRefuses, Delivery.Mismatches, Delivery.FilesAfter, Delivery.AllInFile;
      hide Delivery.UsableNames, SomeBlockFails, Consistent, Delivered;
      var entries := ChooseEntries(names);
      if entries.None? { return None, false; }
      var writer := new Decrypt.DecryptWriter(x.c, outputs);
      var threw: bool;
      threw, readerThrew := ExtractInOrder(SlotGeometry(), containerFile, entries.value, writer);
      var o := Decrypt.Output(writer.files, writer.currentFileName, writer.currentOutput, writer.currentOutputOffset,
                              writer.hashed, writer.checksumFailures);
      r := Some(if threw then Thrown(o) else Going(o));
      Delivery.AllReadableIff(SlotGeometry(), containerFile.content, entries.value);
      if !readerThrew {
        ExtractedIff(x.c, SlotGeometry(), containerFile.content, entries.value, outputs);
      }
    }
  }

  lemma {:induction false} ThenNothing(b: Option<seq<FileEntry>>)
    ensures Then([], b) == b
  {
    if b.Some? { assert [] + b.value == b.value; }
  }

  function Then(a: seq<FileEntry>, b: Option<seq<FileEntry>>): Option<seq<FileEntry>> {
    match b case None => None case Some(rest) => Some(a + rest)
  }

  lemma {:induction false} ThenStep(a: seq<FileEntry>, e: FileEntry, b: Option<seq<FileEntry>>)
    ensures Then(a, Then([e], b)) == Then(a + [e], b)
  {
    if b.Some? { assert a + ([e] + b.value) == a + [e] + b.value; }
  }

  /** What the session says about the end of data before the run does not matter to its success. */
  lemma {:induction false} NextIrrelevant(x: Context, v: Volume, next: nat, run: Outcome<Store>, nonce: seq<byte>)
    ensures Finish(x, v, run, nonce).Thrown? <==> Finish(x, v.(next := next), run, nonce).Thrown?
    ensures Finish(x, v, run, nonce).Going? ==> Finish(x, v, run, nonce) == Finish(x, v.(next := next), run, nonce)
  {
    hide Replicated, Serialize, ContainerGeometry, SlotBytes, HeaderCodec.Prefix;
    if run.Going? {
      assert After(v, run.w).(next := run.w.offset) == After(v.(next := next), run.w).(next := run.w.offset);
    }
  }

  lemma {:induction false} TableFieldsFit(f: Fields, size: nat)
    requires f.WellFormed()
    ensures WithSize(f, size).WellFormed()
    ensures var version := (f.headerVersion + 1) % TWO_TO_THE_32;
      f.(fileTableSize := size % TWO_TO_THE_32, headerVersion := version).WellFormed()
  {
    WordFits(size % TWO_TO_THE_32);
    WordFits((f.headerVersion + 1) % TWO_TO_THE_32);
    hide Fits;
  }

  lemma {:induction false} CountFits(f: Fields, count: nat)
    requires f.WellFormed()
    ensures f.(fileCount := count % TWO_TO_THE_32).WellFormed()
  {
    WordFits(count % TWO_TO_THE_32);
    hide Fits;
  }

  // ---- Extraction by name ----

  /** The chosen entries with their contents. */
  ghost predicate Picked(entries: seq<FileEntry>, contents: seq<seq<byte>>, es: seq<FileEntry>, cs: seq<seq<byte>>)
    requires |entries| == |contents|
  {
    |es| == |cs| && forall j :: 0 <= j < |es| ==> InTable(entries, contents, es[j], cs[j])
  }

  ghost predicate InTable(entries: seq<FileEntry>, contents: seq<seq<byte>>, e: FileEntry, c: seq<byte>)
    requires |entries| == |contents|
  {
    exists i :: 0 <= i < |entries| && entries[i] == e && contents[i] == c
  }

  lemma {:induction false} NamedPicks(entries: seq<FileEntry>, contents: seq<seq<byte>>, names: seq<string>)
    returns (cs: seq<seq<byte>>)
    requires |entries| == |contents|
    ensures Named(entries, names).None? <==> exists n :: n in names && n !in NamesOf(entries)
    ensures Named(entries, names).Some? ==> var es := Named(entries, names).value;
      Picked(entries, contents, es, cs) && |es| == |names| && forall j :: 0 <= j < |names| ==> es[j].name == names[j]
  {
    hide Find;
    cs := [];
    if names != [] {
      var rest := NamedPicks(entries, contents, names[1..]);
      assert forall n :: n in names <==> n == names[0] || n in names[1..];
      var e := Find(entries, names[0]);
      if e.Some? {
        var i :| 0 <= i < |entries| && entries[i] == e.value;
        cs := [contents[i]] + rest;
        assert InTable(entries, contents, e.value, contents[i]);
      }
    }
  }

  lemma {:induction false} ChosenPicks(entries: seq<FileEntry>, contents: seq<seq<byte>>, names: seq<string>)
    returns (cs: seq<seq<byte>>)
    requires |entries| == |contents|
    ensures Chosen(entries, names).None? <==> exists n :: n in names && n !in NamesOf(entries)
    ensures Chosen(entries, names).Some? ==> var es := Chosen(entries, names).value;
      && Picked(entries, contents, es, cs)
      && (forall i :: 0 <= i < |entries| && (names == [] || entries[i].name in names) ==>
            exists j :: 0 <= j < |es| && es[j].name == entries[i].name)
      && (forall j :: 0 <= j < |es| ==> names == [] || es[j].name in names)
  {
    if names == [] {
      cs := contents;
      assert forall j :: 0 <= j < |entries| ==> InTable(entries, contents, entries[j], contents[j]);
    } else {
      cs := NamedPicks(entries, contents, names);
    }
  }

  /** Extraction from a healthy container fails up front exactly when some requested name is not
      stored; otherwise every requested file, or every file when no name is given, is written with its
      content, no checksum fails, and no other output file changes. */
  lemma {:induction false} NamedExtract(x: Context, v: Volume, enc: seq<byte>, contents: seq<seq<byte>>,
          names: seq<string>, outputs: map<string, seq<byte>>)
    requires Healthy(x, v, enc, contents) && SafeNames(v.entries)
    ensures Chosen(v.entries, names).None? <==> exists n :: n in names && n !in NamesOf(v.entries)
    ensures Chosen(v.entries, names).Some? ==>
      var o := Extracted(x.c, v.G(), v.disk, Chosen(v.entries, names).value, Decrypt.Fresh(outputs));
      && o.Going? && o.w.failures == [] && |v.entries| == |contents|
      && (forall i :: 0 <= i < |v.entries| && (names == [] || v.entries[i].name in names) ==>
            v.entries[i].name in o.w.files && o.w.files[v.entries[i].name] == contents[i])
      && (forall name :: name !in names && names != [] ==>
            (name in o.w.files <==> name in outputs) && (name in outputs ==> o.w.files[name] == outputs[name]))
  {
    hide Healthy, SafeNames, AllIntact, Delivery.UsableNames, DistinctNames, Chosen, ContainerGeometry, Extracted;
    hide Picked;
    HealthyExtracts(x, v, enc, contents);
    IntactLengths(x.c, v.G(), v.disk, v.entries, contents);
    var cs := ChosenPicks(v.entries, contents, names);
    if Chosen(v.entries, names).Some? {
      var es := Chosen(v.entries, names).value;
      PickedExtract(x.c, v.G(), v.disk, v.entries, contents, es, cs, outputs);
    }
  }

  lemma {:induction false} PickedFacts(c: Crypto, g: Geometry, disk: seq<byte>, entries: seq<FileEntry>,
          contents: seq<seq<byte>>, es: seq<FileEntry>, cs: seq<seq<byte>>)
    requires AllIntact(c, g, disk, entries, contents) && Delivery.UsableNames(entries) && DistinctNames(entries)
    requires Picked(entries, contents, es, cs)
    ensures AllIntact(c, g, disk, es, cs) && Delivery.UsableNames(es)
    ensures forall i, j :: 0 <= i < |entries| && 0 <= j < |es| && es[j].name == entries[i].name ==> cs[j] == contents[i]
    ensures forall i, j :: 0 <= i < j < |es| && es[i].name == es[j].name ==> cs[i] == cs[j]
  {
    hide Intact, Names.FileName, Decrypt.SafeName;
    assert forall j :: 0 <= j < |es| ==> InTable(entries, contents, es[j], cs[j]);
  }

  lemma {:induction false} PickedExtract(c: Crypto, g: Geometry, disk: seq<byte>, entries: seq<FileEntry>,
          contents: seq<seq<byte>>, es: seq<FileEntry>, cs: seq<seq<byte>>, outputs: map<string, seq<byte>>)
    requires |entries| == |contents| && Picked(entries, contents, es, cs)
    requires AllIntact(c, g, disk, entries, contents) && Delivery.UsableNames(entries) && DistinctNames(entries)
    ensures var o := Extracted(c, g, disk, es, Decrypt.Fresh(outputs));
      o.Going? && o.w.failures == [] && Delivered(entries, contents, es, outputs, o.w.files)
  {
    hide Intact, Decrypt.ExtractPlan, Decrypt.OpenedAll, Fold, Names.FileName, Decrypt.SafeName, Picked, DistinctNames;
    hide Delivery.FilesAfter;
    PickedFacts(c, g, disk, entries, contents, es, cs);
    Delivery.FoldExtract(c, g, disk, es, cs, 0, Decrypt.Fresh(outputs));
    hide AllIntact, Delivery.UsableNames;
    var files := Delivery.FilesAfter(outputs, es, cs);
    forall name: string
      ensures forall j :: 0 <= j < |es| && es[j].name == name ==> name in files && files[name] == cs[j]
      ensures (forall j :: 0 <= j < |es| ==> es[j].name != name) ==>
        (name in files <==> name in outputs) && (name in outputs ==> files[name] == outputs[name])
    {
      Delivery.FilesAfterHas(outputs, es, cs, name);
    }
  }
}
