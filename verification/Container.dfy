/** A container file together with the session that has it open: creating, adding and reopening
    (FileManager::write, add, writeFileTableToAllSlots and readMeta in src/FileManager.cpp). */
module Container {
  import opened Bytes
  import opened Layout
  import opened Fragments
  import opened Chunks
  import opened Sealing
  import opened Tables
  import opened Pipeline
  import opened Encrypt
  import opened Storing
  import opened Runs
  import opened Capacity
  import opened HeaderCodec
  import opened Slots
  import opened Recovery

  const TWO_TO_THE_32: nat := 0x1_0000_0000

  /** Fixed for one container and password: `text` is the serialized form of a table, `dek` the
      data key, `c` encryption under that key. */
  datatype Context = Context(c: Crypto, s: Suite, text: Table -> seq<byte>, dek: Key) {
    ghost predicate Ideal() {
      && c.Ideal()
      && (forall hash, key, bytes :: |s.mac(hash, key, bytes)| == 32)
      && (forall t :: Readable(t))
    }

    ghost predicate Readable(t: Table) { text(t) != [] && s.parse(text(t)) == Some(t) }
  }

  /** The file, and the header and table in memory. */
  datatype Volume = Volume(disk: seq<byte>, header: Fields, entries: seq<FileEntry>, next: nat) {
    function G(): Geometry { ContainerGeometry(header.containerSize, header.headerSize + header.maxTableSize) }

    function Tab(): Table { Table(entries, next) }
  }

  // ---- What the operations compute ----

  /** computeAndStoreHeaderHmac */
  function Coded(s: Suite, f: Fields): Fields {
    f.(hmac := s.mac(f.hashAlgo, s.kdf(ParamsOf(f)), HeaderCodec.Prefix(f, 23)))
  }

  /** The header for a table of `size` encrypted bytes. */
  function NextHeader(s: Suite, f: Fields, size: nat): Fields {
    Coded(s, f.(fileTableSize := size % TWO_TO_THE_32, headerVersion := (f.headerVersion + 1) % TWO_TO_THE_32))
  }

  function WithSize(f: Fields, size: nat): Fields { f.(fileTableSize := size % TWO_TO_THE_32) }

  /** writeFileTableToAllSlots: the size field is set before the table is found too large. */
  function SaveTable(x: Context, v: Volume, nonce: seq<byte>): Outcome<Volume> {
    var plain := x.text(v.Tab());
    var size := |plain| + OVERHEAD;
    var sized := v.(header := WithSize(v.header, size));
    if size > v.header.maxTableSize then Thrown(sized) else
      match x.c.seal(nonce, plain)
      case None => Thrown(sized)
      case Some(enc) =>
        var f := NextHeader(x.s, v.header, size);
        var image := SlotBytes(Serialize(f), enc, f.maxTableSize);
        Going(v.(header := f, disk := Replicated(v.disk, v.G().slots, |v.G().slots|, image)))
  }

  function SealedTable(x: Context, v: Volume, nonce: seq<byte>): seq<byte> {
    match x.c.seal(nonce, x.text(v.Tab())) case None => [] case Some(enc) => enc
  }

  /** The session after the writer has left `w`. */
  function After(v: Volume, w: Store): Volume {
    v.(disk := w.disk, entries := w.entries, header := v.header.(fileCount := w.fileCount % TWO_TO_THE_32))
  }

  function Finish(x: Context, v: Volume, run: Outcome<Store>, nonce: seq<byte>): Outcome<Volume> {
    match run
    case Thrown(w) => Thrown(After(v, w))
    case Going(w) => SaveTable(x, After(v, w).(next := w.offset), nonce)
  }

  /** The checks of add. */
  predicate Refused(v: Volume, files: seq<InputFile>) {
    || v.next >= v.header.containerSize || !AllPresent(files)
    || Required(files) > FreeBytes(v.G(), v.next, v.header.containerSize)
  }

  /** Where the writer of an add starts. */
  function StartOf(v: Volume): Store { Starting(v.G(), v.disk, v.next, v.entries, v.header.fileCount) }

  /** add, when the pipeline run ends as `run`. */
  function Add(x: Context, v: Volume, files: seq<InputFile>, run: Outcome<Store>, nonce: seq<byte>): Outcome<Volume> {
    if Refused(v, files) then Thrown(v) else Finish(x, v, run, nonce)
  }

  function OneThread(x: Context, v: Volume, files: seq<InputFile>, nonces: nat -> seq<byte>): Outcome<Store> {
    Encrypted(x.c, nonces, v.G(), files, StartOf(v))
  }

  /** write, for a header whose keys are set up. */
  predicate CreateRefused(f: Fields, files: seq<InputFile>) {
    || files == []
    || f.containerSize < 4 * (f.headerSize + f.maxTableSize) || f.containerSize > MAX_CONTAINER_SIZE
    || !AllPresent(files) || Required(files) > Available(f.containerSize, f.headerSize + f.maxTableSize)
  }

  /** The new container after writeAllSlots. */
  function Blank(x: Context, f: Fields): Volume {
    var h := Coded(x.s, f);
    var v := Volume(Zeros(f.containerSize), h, [], f.headerSize + f.maxTableSize);
    v.(disk := Replicated(v.disk, v.G().slots, |v.G().slots|, Serialize(h)))
  }

  // ---- A container that is in order ----

  /** The header is of the supported form and its keys open to the data key. */
  ghost predicate Keyed(x: Context, f: Fields) {
    && f.WellFormed() && f.versionMajor == VERSION_MAJOR && f.versionMinor == VERSION_MINOR
    && f.headerSize == HEADER_SIZE
    && SupportedCipher(f.cipher) && SupportedHash(f.hashAlgo) && InRange(ParamsOf(f))
    && x.s.unseal(f.cipher, x.s.kdf(ParamsOf(f)), f.dekNonce + f.encryptedDek + f.dekAuthTag) == Some(x.dek)
    && |x.dek| == DEK_SIZE
    && forall y :: x.s.unseal(f.cipher, x.dek, y) == x.c.unseal(y)
  }

  /** Large enough for the slots to be separated. */
  predicate Sized(f: Fields) {
    4 * HEADER_SIZE * ((f.headerSize + f.maxTableSize) / HEADER_SIZE + 1) <= f.containerSize <= MAX_CONTAINER_SIZE
  }

  /** `enc` is the sealed table `t` that the header `f` announces and vouches for. */
  ghost predicate Saved(x: Context, f: Fields, t: Table, enc: seq<byte>) {
    && f == Coded(x.s, f) && f.fileTableSize == |enc| && OVERHEAD < |enc| <= f.maxTableSize
    && x.c.unseal(enc) == Some(x.text(t))
  }

  ghost predicate Held(disk: seq<byte>, slots: seq<nat>, bytes: seq<byte>) {
    forall i :: 0 <= i < |slots| ==> Holds(disk, slots[i], bytes)
  }

  /** What every successful operation leaves: all four slots hold the sealed table in memory, and
      every listed file is stored intact below the end of data. */
  ghost predicate Healthy(x: Context, v: Volume, enc: seq<byte>, contents: seq<seq<byte>>) {
    && Keyed(x, v.header) && Sized(v.header) && |v.disk| == v.header.containerSize
    && Saved(x, v.header, v.Tab(), enc)
    && Held(v.disk, v.G().slots, SlotBytes(Serialize(v.header), enc, v.header.maxTableSize))
    && Library(x.c, v.G(), v.disk, v.entries, contents, v.next)
    && 0 < v.next <= v.header.containerSize
  }

  // ---- Reopening ----

  lemma {:induction false} SlotParts(f: Fields, enc: seq<byte>, d: seq<byte>, off: nat)
    requires f.WellFormed() && |enc| <= f.maxTableSize && Holds(d, off, SlotBytes(Serialize(f), enc, f.maxTableSize))
    ensures |Serialize(f)| == HEADER_SIZE && off + HEADER_SIZE + |enc| <= |d|
    ensures d[off..off + HEADER_SIZE] == Serialize(f)
    ensures d[off..off + HMAC_PROTECTED_SIZE] == HeaderCodec.Prefix(f, 23)
    ensures d[off + HEADER_SIZE..off + HEADER_SIZE + |enc|] == enc
  {
    hide Serialize, HeaderCodec.Prefix, SlotBytes, Padding, Fields.WellFormed;
    ProtectedPart(f);
    var b := SlotBytes(Serialize(f), enc, f.maxTableSize);
    SlotBytesParts(Serialize(f), enc, f.maxTableSize);
    SubSlice(d, off, |b|, 0, HEADER_SIZE);
    SubSlice(d, off, HEADER_SIZE, 0, HMAC_PROTECTED_SIZE);
    SubSlice(d, off, |b|, HEADER_SIZE, HEADER_SIZE + |enc|);
  }

  lemma {:induction false} SlotBytesParts(header: seq<byte>, enc: seq<byte>, maxTable: nat)
    ensures SlotBytes(header, enc, maxTable)[0..|header|] == header
    ensures SlotBytes(header, enc, maxTable)[|header|..|header| + |enc|] == enc
  {
  }

  lemma {:induction false} SubSlice(s: seq<byte>, off: nat, n: nat, lo: nat, hi: nat)
    requires lo <= hi <= n && off + n <= |s|
    ensures s[off..off + n][lo..hi] == s[off + lo..off + hi]
  {
    var a, b := s[off..off + n][lo..hi], s[off + lo..off + hi];
    assert forall k :: 0 <= k < hi - lo ==> a[k] == s[off + lo + k] == b[k];
  }

  lemma {:induction false} TableOpens(x: Context, f: Fields, t: Table, enc: seq<byte>, d: seq<byte>, off: nat,
          prior: Table)
    requires x.Ideal() && Keyed(x, f) && Saved(x, f, t, enc) && t.next > 0
    requires off + HEADER_SIZE + |enc| <= |d| && d[off + HEADER_SIZE..off + HEADER_SIZE + |enc|] == enc
    ensures SlotTable(x.s, d, off, f, x.dek, prior) == Some(t)
  {
    hide Fields.WellFormed, Coded;
    assert x.Readable(t);
  }

  /** A slot that holds the saved header and table is genuine, wherever it lies. */
  lemma {:induction false} SlotGenuine(x: Context, f: Fields, t: Table, enc: seq<byte>, d: seq<byte>, off: nat,
          prior: Table)
    requires x.Ideal() && Keyed(x, f) && Saved(x, f, t, enc) && t.next > 0
    requires Holds(d, off, SlotBytes(Serialize(f), enc, f.maxTableSize))
    ensures Genuine(x.s, d, off, prior, Meta(f, x.dek, t))
  {
    SlotParts(f, enc, d, off);
    RoundTrip(f);
    TableOpens(x, f, t, enc, d, off, prior);
    hide Serialize, HeaderCodec.Prefix, SlotTable, Fields.WellFormed, SlotBytes, Holds, InRange;
  }

  /** A healthy container reopens with exactly the header, key and table of the session, provided
      it has the minimal size; the size check on creation does not imply that one. */
  lemma {:induction false} Reopens(x: Context, v: Volume, enc: seq<byte>, contents: seq<seq<byte>>, prior: Table)
    requires x.Ideal() && Healthy(x, v, enc, contents)
    ensures Opening(x.s, v.disk, prior) ==
      if v.header.containerSize < MINIMAL_CONTAINER_SIZE then None else Some(Meta(v.header, x.dek, v.Tab()))
  {
    hide Keyed, Saved, Library, SlotBytes, Genuine, SlotOffset;
    SlotGenuine(x, v.header, v.Tab(), enc, v.disk, SlotOffsets(|v.disk|)[0], prior);
    GenuineAccepted(x.s, v.disk, SlotOffsets(|v.disk|), 0, NO_KEY, prior, Meta(v.header, x.dek, v.Tab()));
  }

  // ---- Saving the table ----

  lemma {:induction false} WordFits(n: nat)
    ensures Fits(n, 4) <==> n < TWO_TO_THE_32
  {
    assert Fits(n, 4) == Fits(n / 256, 3) == Fits(n / 256 / 256, 2) == Fits(n / 256 / 256 / 256, 1);
    var m := n / 256 / 256 / 256;
    assert Fits(m, 1) <==> m < 256;
    assert m < 256 <==> n / 256 / 256 < 65536;
    assert n / 256 / 256 < 65536 <==> n / 256 < 16777216;
  }

  lemma {:induction false} KeyedKept(x: Context, f: Fields, size: nat, version: nat, count: nat, code: seq<byte>)
    requires Keyed(x, f) && size < TWO_TO_THE_32 && version < TWO_TO_THE_32 && count < TWO_TO_THE_32 && |code| == 32
    ensures Keyed(x, f.(fileTableSize := size, headerVersion := version, fileCount := count, hmac := code))
  {
    WordFits(size);
    WordFits(version);
    WordFits(count);
    hide Fits;
  }

  /** The code does not cover itself. */
  lemma {:induction false} CodedTwice(s: Suite, f: Fields)
    ensures Coded(s, Coded(s, f)) == Coded(s, f)
  {
    SamePrefix(f, Coded(s, f), 23);
    hide HeaderCodec.Prefix;
  }

  lemma {:induction false} SizedFacts(v: Volume)
    requires v.header.headerSize == HEADER_SIZE && Sized(v.header)
    ensures var g := v.G();
      && |g.slots| == 4 && g.Separated() && g.Disjoint() && g.Inside(v.header.containerSize) && g.slots[0] == 0
      && g.reserved == HEADER_SIZE + v.header.maxTableSize && 4 * g.reserved <= v.header.containerSize
  {
    var reserved := v.header.headerSize + v.header.maxTableSize;
    SlotGaps(v.header.containerSize, reserved);
    CreationImplied(v.header.containerSize, reserved);
    CreationCheckGives(v.header.containerSize, reserved);
  }

  /** With separated slots the checks compare with the data bytes that are left. */
  lemma {:induction false} RefusedExactly(v: Volume, files: seq<InputFile>)
    requires v.header.headerSize == HEADER_SIZE && Sized(v.header)
    ensures Refused(v, files) <==>
      || v.next >= v.header.containerSize || !AllPresent(files)
      || Required(files) > DataBytes(v.G(), v.next, v.header.containerSize)
  {
    SizedFacts(v);
    hide ContainerGeometry, FreeBytes, DataBytes;
    if v.next < v.header.containerSize {
      FreeBytesExact(v.G(), v.next, v.header.containerSize);
    }
  }

  lemma {:induction false} NextHeaderSaved(x: Context, f: Fields, t: Table, nonce: seq<byte>)
    requires x.Ideal() && Keyed(x, f)
    requires |x.text(t)| + OVERHEAD <= f.maxTableSize && x.c.seal(nonce, x.text(t)).Some?
    ensures var enc := x.c.seal(nonce, x.text(t)).value; var h := NextHeader(x.s, f, |x.text(t)| + OVERHEAD);
      && Keyed(x, h) && Saved(x, h, t, enc)
      && h.containerSize == f.containerSize && h.headerSize == f.headerSize && h.maxTableSize == f.maxTableSize
      && (Sized(f) ==> Sized(h))
  {
    var size := |x.text(t)| + OVERHEAD;
    assert x.c.Sound(nonce, x.text(t)) && x.Readable(t);
    WordFits(f.maxTableSize);
    WordFits(f.fileCount);
    CodedTwice(x.s, f.(fileTableSize := size, headerVersion := (f.headerVersion + 1) % TWO_TO_THE_32));
    var h := NextHeader(x.s, f, size);
    KeyedKept(x, f, size, (f.headerVersion + 1) % TWO_TO_THE_32, f.fileCount, h.hmac);
    hide Keyed, Fits, HeaderCodec.Prefix;
  }

  /** A successful save: all four slots are identical and hold the table, and no data byte of the
      file has changed. */
  lemma {:induction false} Saves(x: Context, v: Volume, nonce: seq<byte>) returns (enc: seq<byte>)
    requires x.Ideal() && Keyed(x, v.header) && Sized(v.header) && |v.disk| == v.header.containerSize
    requires SaveTable(x, v, nonce).Going?
    ensures enc == SealedTable(x, v, nonce)
    ensures var v' := SaveTable(x, v, nonce).w;
      var image := SlotBytes(Serialize(v'.header), enc, v'.header.maxTableSize);
      && Keyed(x, v'.header) && Sized(v'.header) && Saved(x, v'.header, v.Tab(), enc)
      && v'.G() == v.G() && v'.Tab() == v.Tab() && v'.header.containerSize == v.header.containerSize
      && v'.disk == Replicated(v.disk, v.G().slots, |v.G().slots|, image)
      && |v'.disk| == |v.disk|
      && Held(v'.disk, v.G().slots, image)
      && (forall p :: 0 <= p < |v.disk| && !v.G().InSlot(p) ==> v'.disk[p] == v.disk[p])
  {
    hide Context.Ideal, Serialize, HeaderCodec.Prefix, Replicated, NextHeader, Coded, Saved, Sized, ContainerGeometry;
    hide SlotBytes, Fields.WellFormed, Held, Geometry.InSlot;
    enc := SealedTable(x, v, nonce);
    var plain := x.text(v.Tab());
    assert |plain| + OVERHEAD <= v.header.maxTableSize && x.c.seal(nonce, plain) == Some(enc);
    NextHeaderSaved(x, v.header, v.Tab(), nonce);
    SizedFacts(v);
    var h := NextHeader(x.s, v.header, |plain| + OVERHEAD);
    SaveIs(x, v, nonce, enc);
    WrittenSlots(x, v, h, v.Tab(), enc);
  }

  lemma {:induction false} SaveIs(x: Context, v: Volume, nonce: seq<byte>, enc: seq<byte>)
    requires x.c.seal(nonce, x.text(v.Tab())) == Some(enc) && |x.text(v.Tab())| + OVERHEAD <= v.header.maxTableSize
    ensures var h := NextHeader(x.s, v.header, |x.text(v.Tab())| + OVERHEAD);
      SaveTable(x, v, nonce) == Going(v.(header := h, disk :=
        Replicated(v.disk, v.G().slots, |v.G().slots|, SlotBytes(Serialize(h), enc, h.maxTableSize))))
  {
    hide Replicated, SlotBytes, Serialize, NextHeader, ContainerGeometry;
  }

  lemma {:induction false} WrittenSlots(x: Context, v: Volume, h: Fields, t: Table, enc: seq<byte>)
    requires Keyed(x, v.header) && Sized(v.header) && |v.disk| == v.header.containerSize
    requires Keyed(x, h) && Saved(x, h, t, enc) && h.maxTableSize == v.header.maxTableSize
    ensures var g, image := v.G(), SlotBytes(Serialize(h), enc, h.maxTableSize);
      var d := Replicated(v.disk, g.slots, |g.slots|, image);
      && |d| == |v.disk| && Held(d, g.slots, image)
      && forall p :: 0 <= p < |v.disk| && !g.InSlot(p) ==> d[p] == v.disk[p]
  {
    hide Serialize, HeaderCodec.Prefix, Replicated, Coded, Sized, ContainerGeometry, SlotBytes, Fits;
    SizedFacts(v);
    SerializedLength(h);
    SlotBytesLength(h, enc);
    ReplicaIdentity(v.G(), v.disk, 4, SlotBytes(Serialize(h), enc, h.maxTableSize));
  }

  lemma {:induction false} SlotBytesLength(f: Fields, enc: seq<byte>)
    requires |enc| <= f.maxTableSize
    ensures |SlotBytes(Serialize(f), enc, f.maxTableSize)| == |Serialize(f)| + f.maxTableSize
  {
  }

  lemma {:induction false} SerializedLength(f: Fields)
    requires f.WellFormed()
    ensures |Serialize(f)| == HEADER_SIZE
  {
    ProtectedPart(f);
  }
}
