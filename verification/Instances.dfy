/** Concrete containers: one that is created and to which a file is added, so that the assumptions of the
    theorems hold, and the inputs on which what one would expect fails. */
module Instances {
  import opened Bytes
  import opened Layout
  import opened Fragments
  import opened Chunks
  import opened Sealing
  import opened Tables
  import opened Pipeline
  import opened Encrypt
  import opened Storing
  import opened Runs
  import opened Capacity
  import opened HeaderCodec
  import opened Slots
  import opened Recovery
  import opened Container
  import opened Adding
  import opened Sessions
  import opened Torn
  import opened Crash
  import opened Reopening
  import opened Consistency
  import opened Damage
  import Decrypt
  import TextForm

  // ---- A container of one megabyte with the default table size ----

  const GEOMETRY: Geometry := ContainerGeometry(0x10_0000, 69632)

  const FILE: InputFile := InputFile("a", true, true, [5])
  const SECOND: InputFile := InputFile("b", true, true, [5])
  const THIRD: InputFile := InputFile("c", true, true, [5])
  const OTHER: InputFile := InputFile("d", true, true, [6, 6])

  predicate Small(f: InputFile) { f.present && f.readable && 1 <= |f.content| <= 2 }

  lemma {:induction false} GeometryFacts()
    ensures GEOMETRY.slots == [0, 262144, 524288, 786432] && GEOMETRY.reserved == 69632
    ensures GEOMETRY.Separated() && GEOMETRY.Disjoint() && GEOMETRY.Inside(0x10_0000)
  {
    OffsetsExact(0x10_0000);
  }

  /** Between the first two slots the data space is contiguous. */
  lemma {:induction false} Contiguous(off: nat, n: nat)
    requires 69632 <= off && off + n <= 262144
    ensures GEOMETRY.Separated() && (off < 262144 ==> GEOMETRY.Skip(off) == off) && End(GEOMETRY, off, n) == off + n
  {
    GeometryFacts();
    hide End;
    EndSegment(GEOMETRY, off, n);
    SkipIsLeast(GEOMETRY, off);
  }

  // ---- Tables ----

  /** The table after one more small file of a new name. */
  function Grown(t: Table, f: InputFile): Table {
    Table(t.entries + [FileEntry(f.path, |f.content|, t.next, 1, "")], t.next + |f.content| + OVERHEAD)
  }

  predicate NewName(t: Table, f: InputFile) { '/' !in f.path && f.path !in NamesOf(t.entries) }

  lemma {:induction false} GrownIs(t: Table, f: InputFile)
    requires 69632 <= t.next <= 262000 && Small(f) && NewName(t, f)
    ensures GEOMETRY.Skip(t.next) == t.next
    ensures Grown(t, f) == Table(EntriesAfter(CRYPTO, GEOMETRY, t.entries, t.next, [f]),
                                 OffsetAfter(GEOMETRY, t.next, [f]))
  {
    hide Geometry.Skip, End, Names.FileName, NamesOf;
    Contiguous(t.next, EncryptedSize(|f.content|));
    Names.OwnFileName(f.path);
    assert [f][1..] == [] && ChunkCount(|f.content|) == 1;
  }

  // ---- Runs ----

  const NONCES: nat -> seq<byte> := (k: nat) => []

  /** Nothing can fail when a readable file is stored. */
  lemma {:induction false} RunGoes(g: Geometry, f: InputFile, start: Store)
    requires f.readable
    ensures Encrypted(CRYPTO, NONCES, g, [f], start).Going?
  {
    hide Fold, Split, Front;
    NoPlan(CRYPTO, 1);
    PlanStep(CRYPTO, [f], 0);
    var items := Plan(CRYPTO, [f], 0);
    assert [f][1..] == [] && items == FileItems(CRYPTO, f, 0);
    var rs := ResultsFrom(CRYPTO, NONCES, items, 0);
    assert NoneFailed(rs);
    GoingIffNoneFailed(g, start, rs);
  }

  /** A session with the table `t`, whatever its slots hold. */
  ghost predicate Stage(v: Volume, count: nat, version: nat, t: Table) {
    && Siblings(FIELDS, v.header) && v.header.fileCount == count && v.header.headerVersion == version
    && v.Tab() == t && 69632 <= t.next <= 262000
  }

  lemma {:induction false} StageFacts(v: Volume, count: nat, version: nat, t: Table)
    requires Stage(v, count, version, t)
    ensures v.G() == GEOMETRY && v.header.containerSize == 0x10_0000 && v.header.maxTableSize == 65536
    ensures v.header.headerSize == HEADER_SIZE && Sized(v.header) && v.next == t.next && v.entries == t.entries
    ensures v.header.fileCount == count && 69632 <= t.next <= 262000
  {
    SiblingsFacts(FIELDS, v.header);
    FieldsFormed();
  }

  lemma {:induction false} NotRefused(v: Volume, count: nat, version: nat, t: Table, f: InputFile)
    requires Stage(v, count, version, t) && Small(f)
    ensures !Refused(v, [f]) && Required([f]) <= DataBytes(GEOMETRY, v.next, 0x10_0000)
  {
    hide Stage, Refused, DataBytes, End, Geometry.Skip, Geometry.Separated, Sized;
    StageFacts(v, count, version, t);
    Contiguous(t.next, 30);
    RequiredOne(f);
    FitsIffCount(GEOMETRY, t.next, 30, 0x10_0000);
    RefusedExactly(v, [f]);
  }

  lemma {:induction false} RequiredOne(f: InputFile)
    requires Small(f)
    ensures Required([f]) == |f.content| + OVERHEAD && AllPresent([f])
  {
    assert [f][1..] == [];
    assert Required([f]) == EncryptedSize(|f.content|) + Required([]);
  }

  /** The header after an update depends on the two counters only. */
  lemma {:induction false} NextHeaderAt(k: Shorts, f: Fields, count: nat, version: nat)
    requires Siblings(FIELDS, f) && f.fileCount == count < 15 && f.headerVersion == version < 15
    ensures NextHeader(SuiteFor(k), f, OVERHEAD + 1) == HeaderAt(k, count, version + 1)
  {
    hide HeaderCodec.Prefix;
    var a := f.(fileTableSize := OVERHEAD + 1, headerVersion := version + 1);
    var b := FIELDS.(fileTableSize := OVERHEAD + 1, fileCount := count, headerVersion := version + 1);
    assert b == a.(hmac := b.hmac);
    SamePrefixButCode(a, b.hmac);
  }

  lemma {:induction false} SamePrefixButCode(f: Fields, code: seq<byte>)
    ensures HeaderCodec.Prefix(f, 23) == HeaderCodec.Prefix(f.(hmac := code), 23)
  {
    hide Le;
    forall i: nat | i < 23 ensures Part(f, i) == Part(f.(hmac := code), i) { }
    SamePrefix(f, f.(hmac := code), 23);
  }

  /** One add in such a session. */
  lemma {:induction false} AddGoes(k: Shorts, v: Volume, contents: seq<seq<byte>>, count: nat, version: nat, t: Table,
          f: InputFile, b: byte)
    requires Stage(v, count, version, t) && Small(f) && count < 14 && version < 14 && Ready(ContextFor(k), v, contents)
    requires k.Code(Grown(t, f)) == b > 0 && NewName(t, f)
    ensures var x := ContextFor(k); var w, n := Written(x, v, [f], NONCES), Upcoming(x, v, [f], NONCES, []);
      && OneThread(x, v, [f], NONCES).Going? && Add(x, v, [f], OneThread(x, v, [f], NONCES), []).Going?
      && Finish(x, v, OneThread(x, v, [f], NONCES), []) == SaveTable(x, BeforeSave(v, w), []) && 0 < w.offset
      && SaveTable(x, BeforeSave(v, w), []).Going?
      && ShortVersion(k, n, count + 1, version + 1, b) && n.table == Grown(t, f)
      && StoredFirst(CRYPTO, GEOMETRY, StartOf(v), [f], contents, 1, w) && w.entries == Grown(t, f).entries
      && w.offset == Grown(t, f).next
  {
    hide Stage, Refused, DataBytes, Geometry.Skip, Encrypted, Ready, Library, EntriesAfter, OffsetAfter, StoredFirst;
    hide Sized, SaveTable, ContainerGeometry, Shorts.Code, HeaderAt, Context.Ideal, Grown, NextHeader, After;
    hide ContextFor, SealedTable;
    var x := ContextFor(k);
    ContextParts(k);
    StageFacts(v, count, version, t);
    NotRefused(v, count, version, t, f);
    ContextIdeal(k);
    RunGoes(v.G(), f, StartOf(v));
    var j := RunOutcome(x, v, contents, [f], NONCES);
    var w := Written(x, v, [f], NONCES);
    assert [f][..1] == [f] && ContentsOf([f]) == [f.content];
    StoredFirstFacts(CRYPTO, GEOMETRY, StartOf(v), [f], contents, 1, w);
    GrownIs(t, f);
    StageAfter(v, w, count, version, t);
    NextHeaderAt(k, After(v, w).header, count + 1, version);
    ShortText(k, Grown(t, f), b);
    BeforeSaveFacts(v, w);
    BeforeSaveTab(v, w);
    SavesShort(x, BeforeSave(v, w), Grown(t, f), b);
    UpcomingIs(x, v, f);
  }

  lemma {:induction false} BeforeSaveTab(v: Volume, w: Store)
    ensures BeforeSave(v, w).Tab() == Table(w.entries, w.offset)
  {
  }

  lemma {:induction false} ContextParts(k: Shorts)
    ensures ContextFor(k).c == CRYPTO && ContextFor(k).s == SuiteFor(k)
  {
  }

  lemma {:induction false} StageAfter(v: Volume, w: Store, count: nat, version: nat, t: Table)
    requires Stage(v, count, version, t) && w.fileCount == count + 1 && count < 15
    ensures var h := After(v, w).header;
      && Siblings(FIELDS, h) && h.fileCount == count + 1 && h.headerVersion == version
      && h.maxTableSize == v.header.maxTableSize
  {
  }

  lemma {:induction false} ShortText(k: Shorts, t: Table, b: byte)
    requires k.Code(t) == b > 0
    ensures ContextFor(k).text(t) == [b]
  {
    hide TextForm.Spelt;
  }

  lemma {:induction false} SavesShort(x: Context, u: Volume, t: Table, b: byte)
    requires u.Tab() == t && x.text(t) == [b] && x.c == CRYPTO && u.header.maxTableSize == 65536
    ensures SaveTable(x, u, []).Going? && SealedTable(x, u, []) == Repeated(b, OVERHEAD + 1)
  {
    hide Replicated, ContainerGeometry, Serialize, NextHeader;
    assert Front([b]) + [b] == Repeated(b, OVERHEAD + 1);
  }

  lemma {:induction false} UpcomingIs(x: Context, v: Volume, f: InputFile)
    ensures var u := BeforeSave(v, Written(x, v, [f], NONCES));
      var h := NextHeader(x.s, u.header, |x.text(u.Tab())| + OVERHEAD);
      Upcoming(x, v, [f], NONCES, []) == Version(h, u.Tab(), SealedTable(x, u, []))
  {
    hide NextHeader, SealedTable, OneThread;
  }

  // ---- The tables of the examples ----

  /** One, two and three files of one byte, and one such file and another one. */
  const ONE: Table := Grown(Table([], 69632), FILE)
  const TWO: Table := Grown(ONE, SECOND)
  const THREE: Table := Grown(TWO, THIRD)
  const FORKED: Table := Grown(ONE, OTHER)

  const TABLES: Shorts := Shorts(ONE, TWO, THREE, FORKED)

  lemma {:induction false} TableFacts()
    ensures TABLES.Code(ONE) == 1 && TABLES.Code(TWO) == 2 && TABLES.Code(THREE) == 3 && TABLES.Code(FORKED) == 4
    ensures NewName(Table([], 69632), FILE) && NewName(ONE, SECOND) && NewName(TWO, THIRD) && NewName(ONE, OTHER)
    ensures ONE.next == 69661 && TWO.next == 69690 && THREE.next == 69719 && FORKED.next == 69691
    ensures |ONE.entries| == 1 && |TWO.entries| == |FORKED.entries| == 2
    ensures TWO.entries[1].offset == FORKED.entries[1].offset == 69661
  {
    assert TWO.entries[0] == ONE.entries[0] && THREE.entries[1] == TWO.entries[1];
    assert SECOND.path[0] != FILE.path[0] && THIRD.path[0] != FILE.path[0] && THIRD.path[0] != SECOND.path[0];
    assert OTHER.path[0] != FILE.path[0];
  }

  // ---- A created container ----

  ghost function Created(): Volume {
    var x := ContextFor(TABLES);
    Finish(x, Blank(x, FIELDS), OneThread(x, Blank(x, FIELDS), [FILE], NONCES), []).w
  }

  lemma {:induction false} BlankStage()
    ensures Stage(Blank(ContextFor(TABLES), FIELDS), 0, 0, Table([], 69632))
    ensures Ready(ContextFor(TABLES), Blank(ContextFor(TABLES), FIELDS), [])
  {
    hide Ready, Replicated, Serialize, HeaderCodec.Prefix, Keyed, Sized, ContainerGeometry;
    ContextIdeal(TABLES);
    FieldsKeyed(TABLES);
    BlankReady(ContextFor(TABLES), FIELDS);
  }

  lemma {:induction false} CreationAccepted()
    ensures !CreateRefused(FIELDS, [FILE])
  {
    FieldsFormed();
    RequiredOne(FILE);
    hide Fields.WellFormed;
  }

  /** A healthy container with one file. */
  ghost predicate First(v: Volume) {
    && Healthy(ContextFor(TABLES), v, Repeated(1, OVERHEAD + 1), [[5]])
    && v.header == HeaderAt(TABLES, 1, 1) && v.Tab() == ONE && Stage(v, 1, 1, ONE)
  }

  lemma {:induction false} CreatedWrites()
    ensures var x := ContextFor(TABLES); var blank := Blank(x, FIELDS); var w := Written(x, blank, [FILE], NONCES);
      && Create(x, FIELDS, [FILE], OneThread(x, blank, [FILE], NONCES), []) == Some(Going(Created()))
      && Finish(x, blank, OneThread(x, blank, [FILE], NONCES), []) == Going(Created())
      && Created().header == HeaderAt(TABLES, 1, 1) && Created().Tab() == ONE
    ensures var x := ContextFor(TABLES); var blank := Blank(x, FIELDS);
      var w, n := Written(x, blank, [FILE], NONCES), Upcoming(x, blank, [FILE], NONCES, []);
      && StoredFirst(CRYPTO, GEOMETRY, StartOf(blank), [FILE], [], 1, w) && w.offset == 69661
      && ShortVersion(TABLES, n, 1, 1, 1)
      && Created().disk == Replicated(w.disk, GEOMETRY.slots, |GEOMETRY.slots|, n.Image())
  {
    hide Ready, Replicated, Keyed, ContainerGeometry, Blank, ContextFor, CreateRefused, Shorts.Code, StoredFirst;
    hide SaveTable, OneThread, Context.Ideal, Finish, HeaderAt, Proper, Version.Image, Stage;
    TableFacts();
    ContextIdeal(TABLES);
    var x := ContextFor(TABLES);
    var blank := Blank(x, FIELDS);
    BlankStage();
    StageFacts(blank, 0, 0, Table([], 69632));
    AddGoes(TABLES, blank, [], 0, 0, Table([], 69632), FILE, 1);
    CreationAccepted();
    BlankIsKeyed();
    NewVersionProper(x, blank, Written(x, blank, [FILE], NONCES), []);
  }

  lemma {:induction false} CreatedSaves()
    ensures var x := ContextFor(TABLES); var blank := Blank(x, FIELDS); var w := Written(x, blank, [FILE], NONCES);
      && Create(x, FIELDS, [FILE], OneThread(x, blank, [FILE], NONCES), []) == Some(Going(Created()))
      && Finish(x, blank, OneThread(x, blank, [FILE], NONCES), []) == Going(Created())
      && Created().header == HeaderAt(TABLES, 1, 1) && Created().Tab() == ONE
  {
    hide Replicated, Blank, ContextFor, OneThread, Finish, HeaderAt, Version.Image, Created, StoredFirst, Create;
    hide ShortVersion;
    CreatedWrites();
  }

  /** Creation succeeds, and the container is healthy. */
  lemma {:induction false} CreatedHealthy()
    ensures First(Created())
  {
    hide Healthy, Ready, Blank, ContextFor, Keyed, Sized, Create, Created, Shorts.Code, OneThread, Context.Ideal;
    hide Finish, HeaderAt, Stage, FilePaths, SafeNames;
    TableFacts();
    var x := ContextFor(TABLES);
    ContextParts(TABLES);
    ContextIdeal(TABLES);
    FieldsKeyed(TABLES);
    CreatedSaves();
    var enc := CreateHealthy(x, FIELDS, [FILE], NONCES, []);
    assert ContentsOf([FILE]) == [[5]];
    ShortText(TABLES, ONE, 1);
    HealthyEnc(x, Created(), enc, [[5]], 1);
    HeaderStage(TABLES, Created(), 1, 1, ONE);
  }

  lemma {:induction false} BlankIsKeyed()
    ensures Keyed(ContextFor(TABLES), Blank(ContextFor(TABLES), FIELDS).header)
  {
    hide Keyed, Replicated, HeaderCodec.Prefix, Fields.WellFormed;
    ContextIdeal(TABLES);
    FieldsKeyed(TABLES);
    BlankKeyed(ContextFor(TABLES), FIELDS);
  }

  lemma {:induction false} HealthyEnc(x: Context, v: Volume, enc: seq<byte>, contents: seq<seq<byte>>, b: byte)
    requires Healthy(x, v, enc, contents) && x.c == CRYPTO && x.text(v.Tab()) == [b]
    ensures enc == Repeated(b, OVERHEAD + 1)
  {
    hide Keyed, Held, Library, Coded, Sized;
    OpenedOnly(enc, [b]);
    assert Front([b]) + [b] == Repeated(b, OVERHEAD + 1);
  }

  ghost function FirstSample(): (v: Volume)
    ensures First(v) && v == Created()
  {
    hide First, Created;
    CreatedHealthy();
    Created()
  }

  type Sample = v: Volume | First(v) ghost witness FirstSample()

  // ---- An add to it ----

  lemma {:induction false} SlotTears(k: Shorts, a: Version, n: Version, d: seq<byte>, off: nat, count: nat,
          version: nat, b: byte, count': nat, version': nat, b': byte)
    requires ShortVersion(k, a, count, version, b) && ShortVersion(k, n, count', version', b')
    requires NoCollision(count, version, 16 * count + version, count', version') && Holds(d, off, a.Image())
    ensures off + |n.Image()| <= |d| && |n.Image()| == |a.Image()| == HEADER_SIZE + 65536
    ensures TornRejected(ContextFor(k), d[off..off + |n.Image()|], n)
  {
    hide Serialize, HeaderAt, Siblings, Version.Area, ContextFor, HeaderBytes, NoCollision, TornRejected, Version.Image;
    hide AreaBytes;
    ShortParts(k, a, count, version, b);
    ShortParts(k, n, count', version', b');
    HeaderAtBytes(k, count, version);
    ShortArea(k, a, count, version, b);
    var s := d[off..off + |n.Image()|];
    assert s == a.Image();
    assert s[..HEADER_SIZE] == a.Image()[0..HEADER_SIZE] && s[HEADER_SIZE..] == a.Image()[HEADER_SIZE..|a.Image()|];
    TornShort(k, s, n, count, version, 16 * count + version, b, count', version', b');
  }

  lemma {:induction false} ShortParts(k: Shorts, a: Version, count: nat, version: nat, b: byte)
    requires ShortVersion(k, a, count, version, b)
    ensures |a.Image()| == HEADER_SIZE + 65536 && a.Image()[0..HEADER_SIZE] == Serialize(HeaderAt(k, count, version))
    ensures a.Image()[HEADER_SIZE..|a.Image()|] == a.Area() && |Serialize(HeaderAt(k, count, version))| == HEADER_SIZE
  {
    hide Serialize, HeaderAt, Siblings, Version.Area, Version.Image, Fields.WellFormed;
    FieldsFormed();
    HeaderFormed(k, count, version);
    SiblingsFacts(FIELDS, a.header);
    ImageParts(a);
  }

  lemma {:induction false} NothingSubstituted(g: Geometry, d1: seq<byte>, d: seq<byte>)
    ensures NoSubstitute(CRYPTO, g, d1, d)
  {
    hide Get;
    forall off: nat, n: nat |
      && Get(g, d1, off, n).Some? && Get(g, d, off, n).Some? && Opened(Get(g, d1, off, n).value).Some?
      && Opened(Get(g, d, off, n).value) == Opened(Get(g, d1, off, n).value)
      ensures Get(g, d, off, n) == Get(g, d1, off, n)
    {
      var plain := Opened(Get(g, d1, off, n).value).value;
      OpenedOnly(Get(g, d1, off, n).value, plain);
      OpenedOnly(Get(g, d, off, n).value, plain);
    }
  }

  lemma {:induction false} FirstFacts(v: Sample)
    ensures var x, a := ContextFor(TABLES), Version(v.header, v.Tab(), Repeated(1, OVERHEAD + 1));
      && x.Ideal() && x.c == CRYPTO && Healthy(x, v, a.enc, [[5]]) && Ready(x, v, [[5]]) && Stage(v, 1, 1, ONE)
      && v.G() == GEOMETRY && v.header.containerSize >= MINIMAL_CONTAINER_SIZE && Keyed(x, v.header)
      && ShortVersion(TABLES, a, 1, 1, 1) && Held(v.disk, GEOMETRY.slots, a.Image()) && v.Tab() == ONE
  {
    hide Healthy, ContextFor, Ready, Context.Ideal, HeaderAt, Proper, Version.Image, Stage, Keyed, Held;
    hide ContainerGeometry, Sized;
    ContextParts(TABLES);
    ContextIdeal(TABLES);
    StageFacts(v, 1, 1, ONE);
    HealthyReady(ContextFor(TABLES), v, Repeated(1, OVERHEAD + 1), [[5]]);
    HealthyProper(ContextFor(TABLES), v, Repeated(1, OVERHEAD + 1), [[5]]);
  }

  /** A second copy of the file can be added. */
  lemma {:induction false} SecondUnderway(v: Sample, prior: Table)
    ensures var x := ContextFor(TABLES); var n := Upcoming(x, v, [SECOND], NONCES, []);
      && Underway(x, v, [[5]], [SECOND], NONCES, [], prior)
      && ShortVersion(TABLES, n, 2, 2, 2) && n.table == TWO && Proper(x, n) && Siblings(v.header, n.header)
      && StoredFirst(CRYPTO, GEOMETRY, StartOf(v), [SECOND], [[5]], 1, Written(x, v, [SECOND], NONCES))
      && AllTornRejected(x, v, n) && Saving(x, v, [[5]], Written(x, v, [SECOND], NONCES), n, [[5]], prior)
  {
    hide First, ContextFor, Ready, Context.Ideal, HeaderAt, Proper, Version.Image, Stage, Keyed, Held, Alive, Healthy;
    hide OneThread, Add, Finish, SaveTable, Shorts.Code, StoredFirst, Upcoming, Written, Siblings, Saving;
    hide AllTornRejected;
    FirstFacts(v);
    TableFacts();
    HealthyAlive(ContextFor(TABLES), v, Repeated(1, OVERHEAD + 1), [[5]], prior);
    AddGoes(TABLES, v, [[5]], 1, 1, ONE, SECOND, 2);
    UpcomingProper(ContextFor(TABLES), v, [SECOND], NONCES, []);
    SecondTears(v, Upcoming(ContextFor(TABLES), v, [SECOND], NONCES, []));
    UnderwaySaves(ContextFor(TABLES), v, [[5]], [SECOND], NONCES, [], prior);
    assert ContentsOf([SECOND]) == [[5]];
  }

  lemma {:induction false} UpcomingProper(x: Context, v: Volume, files: seq<InputFile>, nonces: nat -> seq<byte>,
          nonce: seq<byte>)
    requires x.Ideal() && Keyed(x, v.header) && 0 < Written(x, v, files, nonces).offset
    requires SaveTable(x, BeforeSave(v, Written(x, v, files, nonces)), nonce).Going?
    ensures Proper(x, Upcoming(x, v, files, nonces, nonce))
    ensures Siblings(v.header, Upcoming(x, v, files, nonces, nonce).header)
  {
    hide Keyed, Proper, Siblings, SaveTable, NewVersion, Context.Ideal;
    NewVersionProper(x, v, Written(x, v, files, nonces), nonce);
  }

  /** Tearing is as the crash theorem assumes. */
  lemma {:induction false} SecondTears(v: Sample, n: Version)
    requires ShortVersion(TABLES, n, 2, 2, 2)
    ensures AllTornRejected(ContextFor(TABLES), v, n)
  {
    hide First, ContextFor, Ready, Context.Ideal, HeaderAt, Version.Image, Stage, Keyed, Healthy, ShortVersion;
    hide TornRejected, ContainerGeometry, NoCollision, Held, Holds;
    FirstFacts(v);
    NoCollisions();
    var a := Version(v.header, v.Tab(), Repeated(1, OVERHEAD + 1));
    forall j | 0 <= j < |v.G().slots|
      ensures SlotTornRejected(ContextFor(TABLES), v.disk, v.G().slots[j], n)
    {
      HeldAt(v.disk, v.G().slots, a.Image(), j);
      SlotTears(TABLES, a, n, v.disk, v.G().slots[j], 1, 1, 1, 2, 2, 2);
    }
  }

  lemma {:induction false} HeldAt(d: seq<byte>, slots: seq<nat>, bytes: seq<byte>, j: nat)
    requires Held(d, slots, bytes) && j < |slots|
    ensures Holds(d, slots[j], bytes)
  {
  }

  /** All assumptions of the crash theorem hold in some context, for some container to which a file is
      being added, and so does the condition under which a cut in slot 0 is harmless. */
  lemma {:induction false} SomeAddUnderway(prior: Table)
    returns (x: Context, v: Volume, contents: seq<seq<byte>>, files: seq<InputFile>, nonces: nat -> seq<byte>,
          nonce: seq<byte>)
    ensures Underway(x, v, contents, files, nonces, nonce, prior) && files != []
    ensures AllTornRejected(x, v, Upcoming(x, v, files, nonces, nonce))
    ensures SlotsCurrent(x, v, Upcoming(x, v, files, nonces, nonce), prior)
    ensures forall d :: NoSubstitute(x.c, v.G(), Written(x, v, files, nonces).disk, d)
  {
    hide FirstSample, Saving, First, ContextFor, Context.Ideal, HeaderAt, Proper, Version.Image, Stage, Keyed, Healthy;
    hide Created, Underway, StoredFirst, Upcoming, Written, NoSubstitute, AllTornRejected, SlotsCurrent, Siblings;
    hide Ready, Held;
    v := FirstSample();
    x, contents, files, nonces, nonce := ContextFor(TABLES), [[5]], [SECOND], NONCES, [];
    SecondUnderway(v, prior);
    var n := Upcoming(x, v, files, nonces, nonce);
    FirstFacts(v);
    OnlyShortOpens(TABLES, Version(v.header, v.Tab(), Repeated(1, OVERHEAD + 1)), n, 1, 1, 1);
    HealthyCurrent(x, v, Repeated(1, OVERHEAD + 1), contents, n, prior);
    forall d ensures NoSubstitute(x.c, v.G(), Written(x, v, files, nonces).disk, d) {
      NothingSubstituted(v.G(), Written(x, v, files, nonces).disk, d);
    }
  }

  lemma {:induction false} NoCollisions()
    ensures NoCollision(1, 1, 17, 2, 2) && NoCollision(2, 2, 34, 3, 3) && NoCollision(1, 1, 17, 3, 3)
    ensures NoCollision(3, 2, 34, 2, 2)
  {
  }

  lemma {:induction false} OnlyShortOpens(k: Shorts, a: Version, n: Version, count: nat, version: nat, b: byte)
    requires ShortVersion(k, a, count, version, b)
    ensures OnlyWholeOpens(ContextFor(k), a, n)
  {
    hide ContextFor, HeaderAt, Version.Area;
    ContextOpens(k);
    ShortArea(k, a, count, version, b);
    forall m: nat | m <= |a.Area()| && ContextFor(k).c.unseal(a.Area()[..m]).Some? ensures a.Area()[..m] == a.enc {
      AreaTears(a.Area(), b, b, m);
    }
  }

  // ---- A lost byte ----

  lemma {:induction false} OutsideSlots(off: nat)
    requires 69632 <= off < 262144
    ensures !GEOMETRY.InSlot(off)
  {
    GeometryFacts();
    Contiguous(off, 0);
    SkipIsLeast(GEOMETRY, off);
  }

  lemma {:induction false} ReplicatedOutside(disk: seq<byte>, bytes: seq<byte>, p: nat)
    requires |disk| == 0x10_0000 && |bytes| <= 69632 <= p < 262144
    ensures |Replicated(disk, GEOMETRY.slots, |GEOMETRY.slots|, bytes)| == |disk|
    ensures Replicated(disk, GEOMETRY.slots, |GEOMETRY.slots|, bytes)[p] == disk[p]
  {
    GeometryFacts();
    hide Replicated;
    ReplicatedAt(GEOMETRY, disk, |GEOMETRY.slots|, bytes, p);
  }

  /** The data space of the new container is empty behind its one file. */
  lemma {:induction false} CreatedEmpty()
    ensures |Created().disk| == 0x10_0000 && Created().disk[69661] == 0
  {
    hide Replicated, ContextFor, Blank, OneThread, Finish, HeaderAt, Version.Image, Created, StoredFirst, Written;
    hide Upcoming;
    var x := ContextFor(TABLES);
    var blank := Blank(x, FIELDS);
    var w, n := Written(x, blank, [FILE], NONCES), Upcoming(x, blank, [FILE], NONCES, []);
    CreatedWrites();
    BlankDisk();
    ShortParts(TABLES, n, 1, 1, 1);
    KeptByte(StartOf(blank), [FILE], [], w);
    ReplicatedOutside(w.disk, n.Image(), 69661);
  }

  lemma {:induction false} KeptByte(w: Store, files: seq<InputFile>, contents: seq<seq<byte>>, v: Store)
    requires |files| == 1 && StoredFirst(CRYPTO, GEOMETRY, w, files, contents, 1, v) && v.offset == 69661
    requires |w.disk| == 0x10_0000
    ensures |v.disk| == |w.disk| && v.disk[69661] == w.disk[69661]
  {
    hide Library, EntriesAfter, OffsetAfter;
  }

  lemma {:induction false} BlankDisk()
    ensures var d := Blank(ContextFor(TABLES), FIELDS).disk; |d| == 0x10_0000 && d[69661] == 0
  {
    hide Replicated, Keyed, Serialize, HeaderCodec.Prefix, Fields.WellFormed;
    BlankIsKeyed();
    FieldsFormed();
    var h := Blank(ContextFor(TABLES), FIELDS).header;
    assert h.WellFormed() by { KeyedHeaderSize(ContextFor(TABLES), h); }
    SerializedLength(h);
    ReplicatedOutside(Zeros(0x10_0000), Serialize(h), 69661);
  }

  /** Where a file of one byte is stored, the sealed bytes are. */
  lemma {:induction false} StoredByte(d: seq<byte>, e: FileEntry, off: nat)
    requires e.offset == off && 69632 <= off <= 262000 && Intact(CRYPTO, GEOMETRY, d, e, [5])
    ensures off < |d| && d[off] == 5 && ExtentEnd(GEOMETRY, e) == off + OVERHEAD + 1
  {
    hide End, Stored;
    Contiguous(off, OVERHEAD + 1);
    assert Split([5]) == [[5]];
    StoredStep(CRYPTO, GEOMETRY, d, off, [[5]]);
    var r := Get(GEOMETRY, d, off, OVERHEAD + 1);
    OpenedOnly(r.value, [5]);
    assert r.value[0] == Front([5])[0] == 5;
  }

  lemma {:induction false} SecondByte(v: Sample)
    requires var w := Written(ContextFor(TABLES), v, [SECOND], NONCES);
      StoredFirst(CRYPTO, GEOMETRY, StartOf(v), [SECOND], [[5]], 1, w)
    requires Written(ContextFor(TABLES), v, [SECOND], NONCES).entries == TWO.entries
    ensures var w := Written(ContextFor(TABLES), v, [SECOND], NONCES);
      69661 < |w.disk| && w.disk[69661] == 5 && 69661 < ExtentEnd(GEOMETRY, w.entries[1])
  {
    hide Stored, Written, ContextFor, Kept, OffsetAfter, EntriesAfter, Ordered, First;
    var w := Written(ContextFor(TABLES), v, [SECOND], NONCES);
    assert [SECOND][..1] == [SECOND] && [[5]] + ContentsOf([SECOND]) == [[5], [5]];
    assert Intact(CRYPTO, GEOMETRY, w.disk, w.entries[1], [[5], [5]][1]);
    StoredByte(w.disk, w.entries[1], 69661);
  }

  /** Power is lost after slot 0 has been written completely, but one byte of the new file has not: the
      container reopens with the new table, and the new file does not read back. */
  lemma {:induction false} LostByteInstance(prior: Table)
    returns (x: Context, v: Volume, contents: seq<seq<byte>>, files: seq<InputFile>, nonces: nat -> seq<byte>,
          nonce: seq<byte>, d: seq<byte>)
    ensures Underway(x, v, contents, files, nonces, nonce, prior)
    ensures var w, n := Written(x, v, files, nonces), Upcoming(x, v, files, nonces, nonce);
      && AllTornRejected(x, v, n) && CrashState(v, w, n, 0, d)
      && Opening(x.s, d, prior) == Some(Meta(n.header, x.dek, n.table))
      && AllIntact(x.c, v.G(), w.disk, w.entries, contents + ContentsOf(files))
      && !AllIntact(x.c, v.G(), d, w.entries, contents + ContentsOf(files))
  {
    hide FirstSample, Updating, Sized, Geometry.Separated, Geometry.Skip, Geometry.InSlot, Library, First, ContextFor;
    hide Context.Ideal, HeaderAt, Proper, Version.Image, Stage, Keyed, Healthy, Created, Underway, StoredFirst;
    hide Upcoming, Written, NoSubstitute, AllTornRejected, Siblings, Ready, Held, AllIntact, CrashState, Opening;
    hide ExtentEnd;
    v := FirstSample();
    x, contents, files, nonces, nonce := ContextFor(TABLES), [[5]], [SECOND], NONCES, [];
    SecondUnderway(v, prior);
    FirstFacts(v);
    TableFacts();
    SecondByte(v);
    CreatedEmpty();
    OutsideSlots(69661);
    var w, n := Written(x, v, files, nonces), Upcoming(x, v, files, nonces, nonce);
    forall d' ensures NoSubstitute(x.c, v.G(), w.disk, d') { NothingSubstituted(v.G(), w.disk, d'); }
    assert ContentsOf(files) == [[5]];
    LibraryIntact(x.c, v.G(), w.disk, w.entries, contents + [[5]], w.offset);
    d := PowerLossExample(x, v, contents, w, n, [[5]], 1, 69661, prior);
  }

  // ---- A container that is cut short ----

  /** The container cut off eight bytes behind slot 0, in the middle of its one file. */
  function CutShort(v: Volume): seq<byte> { if |v.disk| > 69640 then v.disk[..69640] else v.disk }

  /** Slot 0 is still there, and only the size in the header is compared with the fixed minimum. */
  lemma {:induction false} CutShortOpens(v: Sample, prior: Table)
    ensures var x, d := ContextFor(TABLES), CutShort(v);
      Opening(x.s, d, prior) == Some(Meta(v.header, x.dek, v.Tab())) && d == v.disk[..69640] && |d| == 69640
  {
    hide First, ContextFor, Context.Ideal, HeaderAt, Proper, Version.Image, Stage, Keyed, Ready, Healthy, Opening;
    var x, d, a := ContextFor(TABLES), CutShort(v), Version(v.header, v.Tab(), Repeated(1, OVERHEAD + 1));
    FirstFacts(v);
    FirstHeader(v);
    GeometryFacts();
    HealthyProper(x, v, a.enc, [[5]]);
    ShortParts(TABLES, a, 1, 1, 1);
    HeldAt(v.disk, GEOMETRY.slots, a.Image(), 0);
    assert d[0..|a.Image()|] == v.disk[0..|a.Image()|];
    OpensComplete(x, a, d, prior);
  }

  /** The read of the one block ends past the end of the file. */
  lemma {:induction false} CutShortBreaks(d: seq<byte>, f: FileEntry)
    requires f.offset == 69632 && f.size == 1 && f.chunks == 1 && |d| == 69640
    ensures Decrypt.ExtractPlan(GEOMETRY, d, [f], 0) == [Work(0, Decrypt.Task([], 1, true, f.name, f.checksum, 1))]
    ensures !Decrypt.AllReadable(GEOMETRY, d, [f])
  {
    hide Collected, SegmentsEnd, End, Get, Geometry.Separated;
    GeometryFacts();
    Contiguous(69632, OVERHEAD + 1);
    CollectedIsGet(GEOMETRY, d, 69632, OVERHEAD + 1);
    GetSomeIff(GEOMETRY, d, 69632, OVERHEAD + 1);
    assert [f][1..] == [] && [f][0].size == 1;
    assert !Decrypt.Readable(GEOMETRY, d, f, 0, f.offset, f.size);
    assert Decrypt.EntryItems(GEOMETRY, d, f, 0, 1, SegmentsEnd(GEOMETRY, 69632, OVERHEAD + 1), 0) == [];
  }

  lemma {:induction false} SampleEntry(v: Sample)
    ensures |v.entries| == 1 && v.entries == [v.entries[0]]
    ensures var f := v.entries[0]; f.offset == 69632 && f.size == 1 && f.chunks == 1
  {
    hide Keyed, Healthy, ContextFor, HeaderAt;
  }


  /** A container that is cut short behind slot 0 opens, and extracting from it never ends: in every way of
      running the threads the read past the end of the file throws in the reader, which closes nothing, and
      the workers and the writer wait forever. */
  lemma {:induction false} TruncatedInstance(prior: Table, outputs: map<string, seq<byte>>, workers: nat)
    returns (x: Context, v: Volume, d: seq<byte>, schedule: seq<Action>, t: State<Decrypt.Task, Chunk, Decrypt.Output>)
    requires workers > 0
    ensures Alive(x, v, [[5]], prior) && |d| < |v.disk| && d == v.disk[..|d|]
    ensures Opening(x.s, d, prior) == Some(Meta(v.header, x.dek, v.Tab()))
    ensures !Decrypt.AllReadable(v.G(), d, v.entries)
    ensures var c := ExtractConfig(x.c, v.G(), d, v.entries, outputs, workers);
      && Maximal(c, schedule, t)
      && (forall s', t' :: Maximal(c, s', t') ==> Starved(c, t') && !t'.Done() && t'.w == c.start)
  {
    hide FirstSample, First, ContextFor, Context.Ideal, Stage, Keyed, Ready, Healthy, Alive, AllIntact;
    hide ContainerGeometry, Opening, Maximal, Starved, State.Done, HeaderAt, Decrypt.AllReadable, Decrypt.ExtractPlan;
    hide CutShort, Held, Volume.G, Volume.Tab, ShortVersion, Grown;
    v := FirstSample();
    x, d := ContextFor(TABLES), CutShort(v);
    FirstFacts(v);
    FirstHeader(v);
    HealthyAlive(x, v, Repeated(1, OVERHEAD + 1), [[5]], prior);
    CutShortOpens(v, prior);
    SampleEntry(v);
    CutShortBreaks(d, v.entries[0]);
    var c := ExtractConfig(x.c, v.G(), d, v.entries, outputs, workers);
    schedule, t := SomeMaximalSchedule(c);
    forall s', t' | Maximal(c, s', t') ensures Starved(c, t') && !t'.Done() && t'.w == c.start {
      BreaksAtOnce(c, s', t');
    }
  }

  // ---- Two damaged slots ----

  /** Under another key the code of such a header is another. */
  lemma {:induction false} ForeignCode(k: Shorts, d: seq<byte>, off: nat, f: Fields, key: Key)
    requires f.WellFormed() && f.fileCount == 1 && f.headerVersion == 1 && f.hmac == Repeated(17, 32) && key != OWN_KEY
    requires off + HEADER_SIZE <= |d| && |Serialize(f)| == HEADER_SIZE && d[off..off + HEADER_SIZE] == Serialize(f)
    ensures SuiteFor(k).mac(f.hashAlgo, key, d[off..off + HMAC_PROTECTED_SIZE]) != f.hmac
    ensures d[off..off + HEADER_SIZE][..HMAC_PROTECTED_SIZE] == d[off..off + HMAC_PROTECTED_SIZE]
  {
    hide Serialize, HeaderCodec.Prefix, Fields.WellFormed, SlotTable;
    CodedBytes(f, 1, 1);
    ProtectedPart(f);
    var bytes := d[off..off + HMAC_PROTECTED_SIZE];
    assert bytes == d[off..off + HEADER_SIZE][..HMAC_PROTECTED_SIZE];
    assert CodeByte(key, bytes) == 18;
    assert Repeated(18, 32)[0] != Repeated(17, 32)[0];
  }

  lemma {:induction false} ForeignKeyRejected(k: Shorts, d: seq<byte>, off: nat, f: Fields, key: Key, prior: Table)
    requires f.WellFormed() && f.fileCount == 1 && f.headerVersion == 1 && f.hmac == Repeated(17, 32) && key != OWN_KEY
    requires off + HEADER_SIZE <= |d| && |Serialize(f)| == HEADER_SIZE && d[off..off + HEADER_SIZE] == Serialize(f)
    ensures Authenticate(SuiteFor(k), d, off, f, key, prior) == None
  {
    hide Serialize, Fields.WellFormed, SlotTable, SuiteFor;
    ForeignCode(k, d, off, f, key);
  }

  /** A header like `h` with other key parameters. */
  function WithCost(h: Fields, t: nat): Fields { h.(t := t) }

  lemma {:induction false} WithCostFacts(k: Shorts, t: nat)
    requires 2 <= t <= 3
    ensures var f := WithCost(HeaderAt(k, 1, 1), t);
      && f.WellFormed() && f.fileCount == 1 && f.headerVersion == 1 && f.hmac == Repeated(17, 32)
      && SupportedCipher(f.cipher) && InRange(ParamsOf(f)) && Derived(ParamsOf(f)) == [t] && ParamsOf(f).t == t
      && |Serialize(f)| == HEADER_SIZE && ValidMagic(Serialize(f)) && Parse(Serialize(f)) == Some(f)
    ensures Derived(ParamsOf(HeaderAt(k, 1, 1))) == OWN_KEY
  {
    var h := HeaderAt(k, 1, 1);
    HeaderFormed(k, 1, 1);
    HeaderAtFields(k, 1, 1);
    WordFits(t);
    hide Serialize, Fits, HeaderAt, HeaderCodec.Prefix;
    RoundTrip(WithCost(h, t));
  }

  /** The file with other headers in its first two slots. */
  function TwoDamaged(v: Volume, k: seq<byte>, l: seq<byte>): seq<byte> { Splice(Splice(v.disk, 0, k), 262144, l) }

  lemma {:induction false} TwoDamagedFacts(v: Volume, a: seq<byte>, b: seq<byte>, image: seq<byte>)
    requires |v.disk| == 0x10_0000 && |a| == |b| == HEADER_SIZE && |image| == 69632
    requires Held(v.disk, GEOMETRY.slots, image)
    ensures var d := TwoDamaged(v, a, b);
      && |d| == |v.disk| && d[0..HEADER_SIZE] == a && d[262144..262144 + HEADER_SIZE] == b
      && Holds(d, 524288, image) && Holds(d, 786432, image)
  {
    GeometryFacts();
    var d := TwoDamaged(v, a, b);
    assert Holds(v.disk, GEOMETRY.slots[2], image) && Holds(v.disk, GEOMETRY.slots[3], image);
    assert d[524288..524288 + 69632] == v.disk[524288..524288 + 69632];
    assert d[786432..786432 + 69632] == v.disk[786432..786432 + 69632];
  }

  /** The first two slots carry the header of the container with two other key derivation costs; slots 2
      and 3 are intact, and the container does not open. */
  lemma {:induction false} TwoDamagedInstance(prior: Table)
    returns (x: Context, v: Volume, enc: seq<byte>, contents: seq<seq<byte>>, d: seq<byte>)
    ensures x.Ideal() && Healthy(x, v, enc, contents) && |d| == |v.disk| && |v.G().slots| == 4
    ensures var s0, s1 := v.G().slots[0], v.G().slots[1];
      forall p | 0 <= p < |d| && !(s0 <= p < s0 + HEADER_SIZE) && !(s1 <= p < s1 + HEADER_SIZE) :: d[p] == v.disk[p]
    ensures Opening(x.s, v.disk, prior) == Some(Meta(v.header, x.dek, v.Tab())) && Opening(x.s, d, prior) == None
  {
    hide FirstSample, Saving, First, Context.Ideal, HeaderAt, Proper, Version.Image, Stage, Keyed, Healthy, Created;
    hide Ready, Held, Serialize, WithCost, Genuine, SlotOffset, Authenticate, Parse, ValidMagic, InRange, Derived;
    hide Holds, AllFields;
    v := FirstSample();
    FirstFacts(v);
    x, enc, contents := ContextFor(TABLES), Repeated(1, OVERHEAD + 1), [[5]];
    var h := v.header;
    FirstHeader(v);
    Reopens(x, v, enc, contents, prior);
    HealthyProper(x, v, enc, contents);
    WithCostFacts(TABLES, 2);
    WithCostFacts(TABLES, 3);
    var a, b := WithCost(h, 2), WithCost(h, 3);
    d := TwoDamaged(v, Serialize(a), Serialize(b));
    ShortParts(TABLES, Version(h, v.Tab(), enc), 1, 1, 1);
    GeometryFacts();
    TwoDamagedFacts(v, Serialize(a), Serialize(b), Version(h, v.Tab(), enc).Image());
    var slots := SlotOffsets(|d|);
    assert slots == GEOMETRY.slots;
    var m := Meta(h, x.dek, v.Tab());
    IntactSlot(v, d, slots[2], prior);
    IntactSlot(v, d, slots[3], prior);
    ForeignKeyRejected(TABLES, d, slots[0], a, Derived(ParamsOf(a)), prior);
    ForeignKeyRejected(TABLES, d, slots[1], b, Derived(ParamsOf(b)), prior);
    TwoDamagedExhaust(x.s, d, slots, prior, m, a, b);
  }

  lemma {:induction false} FirstHeader(v: Sample)
    ensures v.header == HeaderAt(TABLES, 1, 1) && |v.disk| == v.header.containerSize
    ensures v.header.containerSize == 0x10_0000
  {
    hide HeaderAt, Keyed, Sized, Saved, Held, Library;
    StageFacts(v, 1, 1, ONE);
  }

  lemma {:induction false} IntactSlot(v: Sample, d: seq<byte>, off: nat, prior: Table)
    requires Holds(d, off, Version(v.header, v.Tab(), Repeated(1, OVERHEAD + 1)).Image())
    ensures var m := Meta(v.header, ContextFor(TABLES).dek, v.Tab());
      Genuine(SuiteFor(TABLES), d, off, prior, m) && OtherKeysRejected(SuiteFor(TABLES), d, off, prior, m)
  {
    hide First, Context.Ideal, HeaderAt, Proper, Stage, Keyed, Healthy, Ready, Held, Serialize, Version.Area, Genuine;
    hide Authenticate, InRange, Fields.WellFormed, Version.Image;
    var x, a := ContextFor(TABLES), Version(v.header, v.Tab(), Repeated(1, OVERHEAD + 1));
    FirstFacts(v);
    FirstHeader(v);
    HealthyProper(x, v, a.enc, [[5]]);
    HeaderAtFields(TABLES, 1, 1);
    ImageGenuine(x, a, d, off, prior);
    ShortParts(TABLES, a, 1, 1, 1);
    assert d[off..off + HEADER_SIZE] == a.Image()[0..HEADER_SIZE];
    WithCostFacts(TABLES, 2);
    forall key: Key | key != OWN_KEY ensures Authenticate(SuiteFor(TABLES), d, off, v.header, key, prior) == None {
      ForeignKeyRejected(TABLES, d, off, v.header, key, prior);
    }
  }

  lemma {:induction false} ImageGenuine(x: Context, a: Version, d: seq<byte>, off: nat, prior: Table)
    requires x.Ideal() && Proper(x, a) && Holds(d, off, a.Image())
    ensures Genuine(x.s, d, off, prior, Meta(a.header, x.dek, a.table)) && off + HEADER_SIZE <= |d|
  {
    SlotGenuine(x, a.header, a.table, a.enc, d, off, prior);
    hide Keyed, Saved, SlotHeader, Authenticate, Holds, Context.Ideal;
  }

  // ---- Back to the table before last ----

  /** The container after the second add has been cut off as soon as slot 0 was complete. */
  ghost function Advanced(v: Sample): Volume {
    var x := ContextFor(TABLES);
    var n := Upcoming(x, v, [SECOND], NONCES, []);
    Reopened(Durable(v, Written(x, v, [SECOND], NONCES), n, 1), Meta(n.header, x.dek, n.table))
  }

  lemma {:induction false} AdvancedAlive(v: Sample, prior: Table)
    ensures var x, u := ContextFor(TABLES), Advanced(v);
      var w, n := Written(x, v, [SECOND], NONCES), Upcoming(x, v, [SECOND], NONCES, []);
      && CrashState(v, w, n, 0, u.disk) && CrashState(v, w, n, 1, u.disk) && Updating(x, v, w, n, prior)
      && Opening(x.s, u.disk, prior) == Some(Meta(n.header, x.dek, n.table)) && Alive(x, u, [[5], [5]], prior)
      && u.header == HeaderAt(TABLES, 2, 2) && u.Tab() == TWO && ShortVersion(TABLES, n, 2, 2, 2)
      && |u.disk| == |v.disk|
  {
    hide First, ContextFor, Context.Ideal, HeaderAt, Proper, Version.Image, Stage, Keyed, Ready, Held, Healthy, Durable;
    hide Underway, Upcoming, Written, AllTornRejected, StoredFirst, CrashState, Updating, Opening, Alive, Siblings;
    hide FirstYield, AllIntact;
    var x := ContextFor(TABLES);
    SecondUnderway(v, prior);
    var w, n := Written(x, v, [SECOND], NONCES), Upcoming(x, v, [SECOND], NONCES, []);
    FirstSlotComplete(x, v, w, n, prior);
    var u := Advanced(v);
    OpensNew(x, v, w, n, 1, u.disk, prior);
    assert [[5]] + [[5]] == [[5], [5]];
    ReopenedAlive(x, v, [[5]], w, n, [[5]], 1, u.disk, Meta(n.header, x.dek, n.table), prior);
    CrashedKin(x, v, w, n, 1, u.disk, prior);
  }

  /** Slot 0 holds the second version, the other slots the first. */
  lemma {:induction false} AdvancedSlots(v: Sample, prior: Table)
    ensures var x, u := ContextFor(TABLES), Advanced(v);
      var a, n := Version(v.header, v.Tab(), Repeated(1, OVERHEAD + 1)), Upcoming(x, v, [SECOND], NONCES, []);
      && |GEOMETRY.slots| == 4 && Holds(u.disk, 0, n.Image()) && u.G() == v.G() == GEOMETRY
      && (forall j :: 1 <= j < 4 ==> Holds(u.disk, GEOMETRY.slots[j], a.Image()))
  {
    hide First, ContextFor, Context.Ideal, HeaderAt, Proper, Version.Image, Stage, Keyed, Ready, Healthy, Durable;
    hide Upcoming, Written, CrashState, Updating, Opening, Alive, Siblings, Frame, Version.Area, ContainerGeometry;
    var x := ContextFor(TABLES);
    AdvancedAlive(v, prior);
    FirstFacts(v);
    GeometryFacts();
    var w, n, u := Written(x, v, [SECOND], NONCES), Upcoming(x, v, [SECOND], NONCES, []), Advanced(v);
    UpdatingFacts(x, v, w, n, prior);
    SiblingsFacts(v.header, n.header);
    FrameFacts(v.G(), v, w, n);
    CrashedSlot(v.G(), v, w, n, 1, u.disk, 0);
    SameGeometries(v, u);
    var a := Version(v.header, v.Tab(), Repeated(1, OVERHEAD + 1));
    ShortParts(TABLES, a, 1, 1, 1);
    forall j | 1 <= j < 4 ensures Holds(u.disk, GEOMETRY.slots[j], a.Image()) {
      CrashedSlot(v.G(), v, w, n, 0, u.disk, j);
    }
  }

  lemma {:induction false} SameGeometries(v: Volume, u: Volume)
    requires u.header.containerSize == v.header.containerSize && u.header.headerSize == v.header.headerSize
    requires u.header.maxTableSize == v.header.maxTableSize
    ensures u.G() == v.G()
  {
  }

  lemma {:induction false} HeaderStage(k: Shorts, v: Volume, count: nat, version: nat, t: Table)
    requires count < 16 && version < 16 && v.header == HeaderAt(k, count, version) && v.Tab() == t
    requires 69632 <= t.next <= 262000
    ensures Stage(v, count, version, t)
  {
    HeaderFormed(k, count, version);
    HeaderAtFields(k, count, version);
    hide HeaderAt;
  }

  lemma {:induction false} AliveReady(x: Context, v: Volume, contents: seq<seq<byte>>, prior: Table)
    requires Alive(x, v, contents, prior)
    ensures Ready(x, v, contents) && Keyed(x, v.header)
  {
    hide Keyed, Opening, KinSlots, Sized, Library;
  }

  /** A third copy of the file is about to be added. */
  lemma {:induction false} ThirdUnderway(v: Sample, prior: Table)
    ensures var x, u := ContextFor(TABLES), Advanced(v); var n := Upcoming(x, u, [THIRD], NONCES, []);
      && Underway(x, u, [[5], [5]], [THIRD], NONCES, [], prior) && ShortVersion(TABLES, n, 3, 3, 3)
      && AllTornRejected(x, u, n) && Saving(x, u, [[5], [5]], Written(x, u, [THIRD], NONCES), n, [[5]], prior)
  {
    hide First, ContextFor, Ready, Context.Ideal, HeaderAt, Proper, Version.Image, Stage, Keyed, Held, Alive, Healthy;
    hide ShortVersion, OneThread, Add, Finish, SaveTable, Shorts.Code, StoredFirst, Upcoming, Written, Siblings;
    hide TornRejected, Holds, Advanced, Opening, CrashState, Updating, Saving;
    var x, u := ContextFor(TABLES), Advanced(v);
    AdvancedAlive(v, prior);
    FirstFacts(v);
    TableFacts();
    HeaderStage(TABLES, u, 2, 2, TWO);
    AliveReady(x, u, [[5], [5]], prior);
    AddGoes(TABLES, u, [[5], [5]], 2, 2, TWO, THIRD, 3);
    var n, n' := Upcoming(x, v, [SECOND], NONCES, []), Upcoming(x, u, [THIRD], NONCES, []);
    AdvancedSlots(v, prior);
    var a := Version(v.header, v.Tab(), Repeated(1, OVERHEAD + 1));
    GeometryFacts();
    forall j | 0 <= j < |u.G().slots|
      ensures SlotTornRejected(x, u.disk, u.G().slots[j], n')
    {
      NoCollisions();
      if j == 0 {
        SlotTears(TABLES, n, n', u.disk, u.G().slots[j], 2, 2, 2, 3, 3, 3);
      } else {
        SlotTears(TABLES, a, n', u.disk, u.G().slots[j], 1, 1, 1, 3, 3, 3);
      }
    }
    UnderwaySaves(x, u, [[5], [5]], [THIRD], NONCES, [], prior);
    assert ContentsOf([THIRD]) == [[5]];
  }

  lemma {:induction false} ImageByte(k: Shorts, n: Version, count: nat, version: nat, b: byte)
    requires ShortVersion(k, n, count, version, b)
    ensures |n.Image()| == HEADER_SIZE + 65536 && n.Image()[0x88] == count && n.Image()[0x90] == version
  {
    hide HeaderAt, Serialize, Version.Image;
    ShortParts(k, n, count, version, b);
    HeaderAtBytes(k, count, version);
    assert n.Image()[0..HEADER_SIZE][0x88] == n.Image()[0x88] && n.Image()[0..HEADER_SIZE][0x90] == n.Image()[0x90];
  }

  /** The file after the third add has been cut off when only the count of slot 0 had been written. */
  ghost function Fallen(v: Sample): seq<byte> {
    var u := Advanced(v);
    if |u.disk| > 0x88 then u.disk[0x88 := 3] else u.disk
  }

  lemma {:induction false} AdvancedFront(v: Sample, prior: Table)
    ensures var u := Advanced(v);
      && |u.disk| == 0x10_0000 && u.disk[0x88] == 2 && u.disk[0x90] == 2
      && |u.G().slots| == 4 && u.G().slots[0] == 0 && (Fallen(v) == u.disk[0x88 := 3])
  {
    hide First, ContextFor, Context.Ideal, Version.Image, Stage, Alive, Healthy, ShortVersion, Upcoming, Written, Holds;
    hide Advanced, CrashState, Updating, ContainerGeometry, Fallen, Opening, Keyed, HeaderAt, Geometry.Separated;
    AdvancedAlive(v, prior);
    AdvancedSlots(v, prior);
    GeometryFacts();
    FirstHeader(v);
    var n := Upcoming(ContextFor(TABLES), v, [SECOND], NONCES, []);
    ImageByte(TABLES, n, 2, 2, 2);
    HoldsByte(Advanced(v).disk, 0, n.Image(), 0x88);
    HoldsByte(Advanced(v).disk, 0, n.Image(), 0x90);
    FallenIs(v);
  }

  lemma {:induction false} FallenIs(v: Sample)
    ensures |Advanced(v).disk| > 0x88 ==> Fallen(v) == Advanced(v).disk[0x88 := 3]
  {
    hide Advanced;
  }

  lemma {:induction false} FallenBack(v: Sample, prior: Table)
    ensures var x, u, d := ContextFor(TABLES), Advanced(v), Fallen(v);
      && |u.G().slots| == 4 && CrashState(u, Written(x, u, [THIRD], NONCES), Upcoming(x, u, [THIRD], NONCES, []), 0, d)
      && Yield(x, d, u.G().slots[0], prior) == None
  {
    hide First, ContextFor, Ready, Context.Ideal, HeaderAt, Proper, Version.Image, Stage, Keyed, Held, Alive, Healthy;
    hide OneThread, Add, Upcoming, Written, Siblings, AllTornRejected, Holds, Advanced, CrashState, Updating, Underway;
    hide Yield, ShortVersion, Fallen, ContainerGeometry, StoredFirst;
    var x, u := ContextFor(TABLES), Advanced(v);
    AdvancedFront(v, prior);
    ThirdUnderway(v, prior);
    var n := Upcoming(x, u, [THIRD], NONCES, []);
    ImageByte(TABLES, n, 3, 3, 3);
    var d := TwoDifferencesReject(x, u, Written(x, u, [THIRD], NONCES), n, 0x88, 0x90, prior);
  }

  lemma {:induction false} BackupsYield(v: Sample, prior: Table)
    ensures |v.G().slots| == 4
    ensures FirstYield(ContextFor(TABLES), v.disk, v.G().slots, 1, prior)
      == Some(Meta(v.header, ContextFor(TABLES).dek, v.Tab()))
  {
    hide First, ContextFor, Ready, Context.Ideal, HeaderAt, Proper, Version.Image, Stage, Keyed, Healthy, ShortVersion;
    hide Yield, FirstYield, Holds;
    FirstFacts(v);
    GeometryFacts();
    var x, a := ContextFor(TABLES), Version(v.header, v.Tab(), Repeated(1, OVERHEAD + 1));
    HealthyProper(x, v, a.enc, [[5]]);
    ImageYields(x, a, v.disk, GEOMETRY.slots[1], prior);
    FirstYieldStep(x, v.disk, GEOMETRY.slots, 1, prior);
  }

  lemma {:induction false} FallenReopens(v: Sample, prior: Table)
    ensures var x, u, d := ContextFor(TABLES), Advanced(v), Fallen(v); var m := Meta(v.header, x.dek, v.Tab());
      && Opening(x.s, d, prior) == Some(m) && Alive(x, Reopened(d, m), [[5]], prior)
      && v.Tab() != u.Tab() && v.Tab() != Upcoming(x, u, [THIRD], NONCES, []).table
  {
    hide First, ContextFor, Ready, Context.Ideal, HeaderAt, Proper, Version.Image, Stage, Keyed, Held, Alive, Healthy;
    hide ShortVersion, OneThread, Add, Upcoming, Written, Siblings, AllTornRejected, Holds, CrashState, Updating;
    hide Underway, Yield;
        hide FirstYield, Opening, Durable, Fallen, StoredFirst, ContainerGeometry;
    var x := ContextFor(TABLES);
    SecondUnderway(v, prior);
    BackupsYield(v, prior);
    ThirdUnderway(v, prior);
    FallenBack(v, prior);
    AdvancedFront(v, prior);
    assert [[5]] + [[5]] == [[5], [5]];
    var w, n, u := Written(x, v, [SECOND], NONCES), Upcoming(x, v, [SECOND], NONCES, []), Advanced(v);
    var w', n' := Written(x, u, [THIRD], NONCES), Upcoming(x, u, [THIRD], NONCES, []);
    var u' := RollbackExample(x, v, [[5]], w, n, [[5]], w', n', [[5]], Fallen(v), prior);
  }

  /** A container is created with one file. The add of a second file is cut off as soon as slot 0 is
      complete, and the container reopens with both files. The add of a third one is cut off when one byte of
      slot 0 has been written, and the container reopens with the first file only. */
  lemma {:induction false} RollbackInstance(prior: Table)
    returns (x: Context, v: Volume, u: Volume, n: Version, n': Version, d: seq<byte>)
    ensures Alive(x, v, [[5]], prior) && Alive(x, u, [[5], [5]], prior)
    ensures CrashState(v, Written(x, v, [SECOND], NONCES), n, 0, u.disk) && n == Upcoming(x, v, [SECOND], NONCES, [])
    ensures u.Tab() == n.table
    ensures CrashState(u, Written(x, u, [THIRD], NONCES), n', 0, d) && n' == Upcoming(x, u, [THIRD], NONCES, [])
    ensures AllTornRejected(x, v, n) && AllTornRejected(x, u, n')
    ensures var r := Opening(x.s, d, prior);
      && r == Some(Meta(v.header, x.dek, v.Tab())) && r.value.table != u.Tab() && r.value.table != n'.table
      && Alive(x, Reopened(d, r.value), [[5]], prior)
  {
    hide FirstSample, Saving, First, ContextFor, Ready, Context.Ideal, HeaderAt, Proper, Version.Image, Stage, Keyed;
    hide Held, Alive, Healthy, ShortVersion, OneThread, Add, Upcoming, Written, Siblings, AllTornRejected, Holds;
    hide CrashState, Updating, Yield, Created, FirstYield, Opening, Advanced, Fallen, StoredFirst, ContainerGeometry;
    hide Reopened;
    v := FirstSample();
    x, u, d := ContextFor(TABLES), Advanced(v), Fallen(v);
    n, n' := Upcoming(x, v, [SECOND], NONCES, []), Upcoming(x, u, [THIRD], NONCES, []);
    SecondUnderway(v, prior);
    AdvancedAlive(v, prior);
    ThirdUnderway(v, prior);
    FallenBack(v, prior);
    FallenReopens(v, prior);
    GeometryFacts();
    AdvancedSlots(v, prior);
  }

  // ---- A new header over an old table ----

  /** The session in which the container is opened after that. */
  ghost function Returned(v: Sample): Volume {
    Reopened(Fallen(v), Meta(v.header, ContextFor(TABLES).dek, v.Tab()))
  }

  /** Slot 0 has a torn header over the table of the second version; the others hold the first version. */
  lemma {:induction false} FallenSlots(v: Sample, prior: Table)
    ensures var d, a := Fallen(v), Version(v.header, v.Tab(), Repeated(1, OVERHEAD + 1));
      && |GEOMETRY.slots| == 4 && |d| == 0x10_0000 && Returned(v).G() == GEOMETRY && GEOMETRY.slots[0] == 0
      && HeaderBytes(d[..HEADER_SIZE], 3, 2, 34) && AreaBytes(d[HEADER_SIZE..69632], 2, 2)
      && (forall j :: 1 <= j < 4 ==> Holds(d, GEOMETRY.slots[j], a.Image()))
  {
    hide First, ContextFor, Ready, Context.Ideal, HeaderAt, Proper, Version.Image, Stage, Keyed, Held, Alive, Healthy;
    hide ShortVersion, Upcoming, Written, Siblings, CrashState, Updating, Opening, Advanced, Serialize, HeaderByte;
    hide ContainerGeometry, Version.Area;
    var x, u, d := ContextFor(TABLES), Advanced(v), Fallen(v);
    AdvancedAlive(v, prior);
    AdvancedSlots(v, prior);
    FirstHeader(v);
    GeometryFacts();
    FirstFacts(v);
    var a, n := Version(v.header, v.Tab(), Repeated(1, OVERHEAD + 1)), Upcoming(x, v, [SECOND], NONCES, []);
    ShortParts(TABLES, n, 2, 2, 2);
    ShortParts(TABLES, a, 1, 1, 1);
    HeaderAtBytes(TABLES, 2, 2);
    ShortArea(TABLES, n, 2, 2, 2);
    SameGeometries(v, Returned(v));
    assert n.Image()[HEADER_SIZE..|n.Image()|] == n.Area() && u.disk[0..|n.Image()|] == n.Image();
    assert d[HEADER_SIZE..69632] == u.disk[HEADER_SIZE..69632] == n.Area();
    assert u.disk[..HEADER_SIZE] == n.Image()[0..HEADER_SIZE];
    TornCount(u.disk[..HEADER_SIZE], d[..HEADER_SIZE]);
    forall j | 1 <= j < 4 ensures Holds(d, GEOMETRY.slots[j], a.Image()) {
      var off := GEOMETRY.slots[j];
      assert d[off..off + |a.Image()|] == u.disk[off..off + |a.Image()|];
    }
  }

  lemma {:induction false} TornCount(buf: seq<byte>, torn: seq<byte>)
    requires HeaderBytes(buf, 2, 2, 34) && |torn| == |buf| && torn == buf[0x88 := 3]
    ensures HeaderBytes(torn, 3, 2, 34)
  {
    hide Serialize, Le;
  }

  lemma {:induction false} OtherUnderway(v: Sample, prior: Table)
    ensures var x, r := ContextFor(TABLES), Returned(v); var n := Upcoming(x, r, [OTHER], NONCES, []);
      && ShortVersion(TABLES, n, 2, 2, 4) && n.table == FORKED && AllTornRejected(x, r, n)
      && Saving(x, r, [[5]], Written(x, r, [OTHER], NONCES), n, ContentsOf([OTHER]), prior)
  {
    hide First, ContextFor, Ready, Context.Ideal, HeaderAt, Proper, Version.Image, Stage, Keyed, Held, Alive, Healthy;
    hide ShortVersion, OneThread, Add, Finish, SaveTable, Shorts.Code, StoredFirst, Upcoming, Written, Siblings;
    hide TornRejected, Holds, Fallen, Opening, HeaderBytes, AreaBytes, Advanced;
    var x, r := ContextFor(TABLES), Returned(v);
    FallenReopens(v, prior);
    FirstHeader(v);
    FirstFacts(v);
    TableFacts();
    HeaderStage(TABLES, r, 1, 1, ONE);
    AliveReady(x, r, [[5]], prior);
    AddGoes(TABLES, r, [[5]], 1, 1, ONE, OTHER, 4);
    var n := Upcoming(x, r, [OTHER], NONCES, []);
    FallenSlots(v, prior);
    var a := Version(v.header, v.Tab(), Repeated(1, OVERHEAD + 1));
    ShortParts(TABLES, n, 2, 2, 4);
    NoCollisions();
    forall j | 0 <= j < |r.G().slots|
      ensures SlotTornRejected(x, r.disk, r.G().slots[j], n)
    {
      if j == 0 {
        var s := r.disk[0..69632];
        assert s[..HEADER_SIZE] == r.disk[..HEADER_SIZE] && s[HEADER_SIZE..] == r.disk[HEADER_SIZE..69632];
        TornShort(TABLES, s, n, 3, 2, 34, 2, 2, 2, 4);
      } else {
        SlotTears(TABLES, a, n, r.disk, r.G().slots[j], 1, 1, 1, 2, 2, 4);
      }
    }
    UnderwaySaves(x, r, [[5]], [OTHER], NONCES, [], prior);
  }

  /** After the events of RollbackInstance another file is added, and the add is cut off when the header of
      slot 0 has been written but not its table. The container reopens with the table of the second add,
      which had been lost: neither the session's nor the new one. */
  lemma {:induction false} StaleAreaInstance(prior: Table)
    returns (x: Context, v: Volume, n: Version, d: seq<byte>, t: Table)
    ensures Alive(x, v, [[5]], prior) && n == Upcoming(x, v, [OTHER], NONCES, []) && AllTornRejected(x, v, n)
    ensures CrashState(v, Written(x, v, [OTHER], NONCES), n, 0, d)
    ensures Opening(x.s, d, prior) == Some(Meta(n.header, x.dek, t))
    ensures t != v.Tab() && t != n.table && |t.entries| == |n.table.entries| == 2
    ensures t.entries[1].offset == n.table.entries[1].offset
  {
    hide FirstSample, Updating, Sized, Geometry.Separated, Geometry.Skip, Geometry.InSlot, Library, First, ContextFor;
    hide Ready, Context.Ideal, HeaderAt, Proper, Version.Image, Stage, Keyed, Held, Alive, Healthy, ShortVersion;
    hide OneThread, Add, Upcoming, Written, Siblings, AllTornRejected, Holds, CrashState, Yield, Created, Underway;
    hide FirstYield, Opening, Advanced, Fallen, StoredFirst, ContainerGeometry, OpenedTable, HeaderBytes;
    var first: Sample := FirstSample();
    x, v := ContextFor(TABLES), Returned(first);
    OtherUnderway(first, prior);
    n := Upcoming(x, v, [OTHER], NONCES, []);
    FallenReopens(first, prior);
    d := NewHeaderOldArea(x, v, Written(x, v, [OTHER], NONCES), n, prior);
    OpensInFirst(x, v, Written(x, v, [OTHER], NONCES), n, d, prior);
    FallenSlots(first, prior);
    SecondOpens(first, prior);
    ShortLength(TABLES, n, 2, 2, 4);
    AreaStart(v.disk, 2);
    ReturnedTable(first);
    TableFacts();
    t := TWO;
  }

  lemma {:induction false} ReturnedTable(v: Sample)
    ensures Returned(v).Tab() == v.Tab() == ONE && Returned(v).disk == Fallen(v)
    ensures Returned(v).header == v.header
    ensures Returned(v) == Reopened(Fallen(v), Meta(v.header, ContextFor(TABLES).dek, v.Tab()))
  {
    hide Healthy, Stage, Fallen;
  }

  lemma {:induction false} ShortLength(k: Shorts, n: Version, count: nat, version: nat, b: byte)
    requires ShortVersion(k, n, count, version, b)
    ensures |n.enc| == OVERHEAD + 1
  {
    hide HeaderAt;
  }

  lemma {:induction false} AreaStart(d: seq<byte>, b: byte)
    requires |d| >= 69632 && AreaBytes(d[HEADER_SIZE..69632], b, b)
    ensures d[HEADER_SIZE..HEADER_SIZE + OVERHEAD + 1] == Repeated(b, OVERHEAD + 1)
  {
    var area := d[HEADER_SIZE..69632];
    var start := d[HEADER_SIZE..HEADER_SIZE + OVERHEAD + 1];
    forall p: nat | p <= OVERHEAD ensures start[p] == b { assert area[p] == d[HEADER_SIZE + p] == start[p]; }
  }

  lemma {:induction false} SecondOpens(v: Sample, prior: Table)
    ensures OpenedTable(ContextFor(TABLES), Repeated(2, OVERHEAD + 1)) == Some(TWO)
  {
    hide First, ContextFor, Context.Ideal, HeaderAt, Proper, Upcoming, OpenedTable, Underway, StoredFirst, Siblings;
    SecondUnderway(v, prior);
    ContextIdeal(TABLES);
    var n := Upcoming(ContextFor(TABLES), v, [SECOND], NONCES, []);
    ProperOpens(ContextFor(TABLES), n);
  }

  // ---- One damaged slot after one crash ----

  /** A slot whose header is replaced by one like it with other key parameters. */
  lemma {:induction false} RekeyedSlot(k: Shorts, d0: seq<byte>, d: seq<byte>, off: nat)
    requires off + 69632 <= |d0| && d == Splice(d0, off, Serialize(WithCost(HeaderAt(k, 1, 1), 2)))
    ensures NotForgedFrom(ContextFor(k), d0, d, off, 65536) && Foreign(HeaderAt(k, 1, 1), d, off)
    ensures SlotHeader(d, off).Some? && ParamsOf(SlotHeader(d, off).value).t == 2
    ensures forall p :: 0 <= p < |d| && !(off <= p < off + HEADER_SIZE) ==> d[p] == d0[p]
  {
    hide Serialize, WithCost, HeaderAt, Parse, ValidMagic, InRange, AllFields, Fields.WellFormed, CodeByte, Siblings;
    hide Keyed, Sized;
    var x, h := ContextFor(k), HeaderAt(k, 1, 1);
    var a := WithCost(h, 2);
    WithCostFacts(k, 2);
    HeaderAtFields(k, 1, 1);
    HeaderFormed(k, 1, 1);
    SiblingsFacts(FIELDS, h);
    assert d[off..off + HEADER_SIZE] == Serialize(a);
    RekeyedParams(h);
    ParsedAll(Serialize(a), a);
    ForeignCode(k, d, off, a, Derived(ParamsOf(a)));
    var at := off + HEADER_SIZE;
    forall n: nat | n <= 65536 ensures StoodThere(x, d0, d, at, n) { assert d[at..at + n] == d0[at..at + n]; }
  }

  lemma {:induction false} ParsedAll(buf: seq<byte>, f: Fields)
    requires |buf| == HEADER_SIZE && Parse(buf) == Some(f)
    ensures AllFields(buf) == f
  {
    hide AllFields;
  }

  lemma {:induction false} RekeyedParams(h: Fields)
    requires ParamsOf(h).t == 1
    ensures ParamsOf(WithCost(h, 2)) != ParamsOf(h) && ParamsOf(WithCost(h, 2)).t == 2
  {
  }

  /** The container after the events of RollbackInstance. */
  lemma {:induction false} ReturnedFacts(v: Sample, prior: Table)
    ensures var x, v, a := ContextFor(TABLES), Returned(v), Version(v.header, v.Tab(), Repeated(1, OVERHEAD + 1));
      && Alive(x, v, [[5]], prior) && Proper(x, a) && |a.Image()| == 69632 && v.G() == GEOMETRY && |v.disk| == 0x10_0000
      && v.header == HeaderAt(TABLES, 1, 1) && v.header.maxTableSize == 65536
      && Opening(x.s, v.disk, prior) == Some(Meta(a.header, x.dek, a.table))
      && |GEOMETRY.slots| == 4 && Yield(x, v.disk, GEOMETRY.slots[0], prior) == None
      && (forall j :: 1 <= j < 4 ==> Holds(v.disk, GEOMETRY.slots[j], a.Image()))
  {
    hide First, ContextFor, Ready, Context.Ideal, HeaderAt, Proper, Version.Image, Stage, Keyed, Returned, Held, Alive;
    hide Healthy, ShortVersion, Fallen, Advanced, Opening, Yield, FirstYield, Serialize, CrashState, ContainerGeometry;
    hide HeaderBytes, AreaBytes, Holds, Upcoming, Written;
    FallenReopens(v, prior);
    FallenSlots(v, prior);
    FallenBack(v, prior);
    AdvancedFront(v, prior);
    AdvancedSlots(v, prior);
    FirstFacts(v);
    FirstHeader(v);
    StageFacts(v, 1, 1, ONE);
    ReturnedTable(v);
    HealthyProper(ContextFor(TABLES), v, Repeated(1, OVERHEAD + 1), [[5]]);
    ShortParts(TABLES, Version(v.header, v.Tab(), Repeated(1, OVERHEAD + 1)), 1, 1, 1);
  }

  /** After the events of RollbackInstance the container opens, with slot 0 rejected and three intact slots. If
      one more slot is damaged, so that it states other key parameters, it no longer opens, although two
      intact slots are left. */
  lemma {:induction false} CrashThenDamageInstance(prior: Table)
    returns (x: Context, v: Volume, a: Version, d: seq<byte>)
    ensures Alive(x, v, [[5]], prior) && SlotDamaged(v, 1, d) && |v.G().slots| == 4
    ensures Proper(x, a) && Opening(x.s, v.disk, prior) == Some(Meta(a.header, x.dek, a.table))
    ensures Holds(d, v.G().slots[2], a.Image()) && Holds(d, v.G().slots[3], a.Image())
    ensures Opening(x.s, d, prior) == None
  {
    hide FirstSample, First, ContextFor, HeaderAt, Proper, Version.Image, Keyed, Volume.G, Alive, Healthy, Opening;
    hide Yield, FirstYield, Serialize, WithCost, Holds, NotForgedFrom, KeyRejected, Foreign, ContainerGeometry;
    hide Returned, SlotHeader, SlotDamaged;
    var first: Sample := FirstSample();
    x, v, a := ContextFor(TABLES), Returned(first), Version(first.header, first.Tab(), Repeated(1, OVERHEAD + 1));
    ReturnedFacts(first, prior);
    GeometryFacts();
    var slots := GEOMETRY.slots;
    WithCostFacts(TABLES, 2);
    d := Splice(v.disk, 262144, Serialize(WithCost(HeaderAt(TABLES, 1, 1), 2)));
    RekeyedSlot(TABLES, v.disk, d, 262144);
    HeaderDamaged(v, d);
    StillHolds(v.disk, d, slots[2], a.Image());
    StillHolds(v.disk, d, slots[3], a.Image());
    assert slots[1] == 262144;
    RekeyedKey(TABLES, SlotHeader(d, slots[1]).value);
    LaterRejected(first, d, slots, x.s.kdf(ParamsOf(SlotHeader(d, slots[1]).value)), prior);
    DamagedOpening(x, v, [[5]], 1, d, prior);
    NothingInFront(x, d, slots, prior);
  }

  lemma {:induction false} NothingInFront(x: Context, d: seq<byte>, slots: seq<nat>, prior: Table)
    requires |slots| == 4 && Yield(x, d, slots[0], prior) == None
    ensures FirstYield(x, d, slots[..1], 0, prior) == None
  {
    hide Yield, FirstYield;
    FirstYieldStep(x, d, slots[..1], 0, prior);
    NoSlots(x, d, slots[..1], prior);
  }

  lemma {:induction false} HeaderDamaged(v: Volume, d: seq<byte>)
    requires v.G() == GEOMETRY && |d| == |v.disk| && |GEOMETRY.slots| == 4
    requires forall p :: 0 <= p < |d| && !(262144 <= p < 262144 + HEADER_SIZE) ==> d[p] == v.disk[p]
    ensures SlotDamaged(v, 1, d)
  {
    GeometryFacts();
    hide Volume.G;
  }

  lemma {:induction false} RekeyedKey(k: Shorts, f: Fields)
    requires ParamsOf(f).t == 2
    ensures ContextFor(k).s.kdf(ParamsOf(f)) != OWN_KEY
  {
  }

  lemma {:induction false} StillHolds(d0: seq<byte>, d: seq<byte>, off: nat, bytes: seq<byte>)
    requires Holds(d0, off, bytes) && |d| == |d0| && 266240 <= off && |bytes| == 69632
    requires forall p :: 0 <= p < |d| && !(262144 <= p < 262144 + HEADER_SIZE) ==> d[p] == d0[p]
    ensures Holds(d, off, bytes)
  {
    assert d[off..off + |bytes|] == d0[off..off + |bytes|];
  }

  lemma {:induction false} LaterRejected(v: Sample, d: seq<byte>, slots: seq<nat>, key: Key, prior: Table)
    requires |slots| == 4 && key != OWN_KEY
    requires var a := Version(v.header, v.Tab(), Repeated(1, OVERHEAD + 1));
      Holds(d, slots[2], a.Image()) && Holds(d, slots[3], a.Image())
    ensures KeyRejected(ContextFor(TABLES), d, slots, 2, key, prior)
  {
    hide First, Context.Ideal, HeaderAt, Proper, Stage, Keyed, Healthy, Ready, Held, Serialize, Version.Area;
    hide Authenticate, InRange, Fields.WellFormed, Version.Image, SlotHeader, ContextFor, Holds;
    ContextParts(TABLES);
    IntactSlot(v, d, slots[2], prior);
    IntactSlot(v, d, slots[3], prior);
    FirstHeader(v);
    WithCostFacts(TABLES, 2);
  }

  // ---- A container that cannot be opened again ----

  /** 65536 bytes with a table area of 4096 bytes: large enough for creation, too small for opening. */
  function SmallFields(): Fields { FIELDS.(containerSize := 0x1_0000, maxTableSize := HEADER_SIZE) }

  lemma {:induction false} SmallKeyed(k: Shorts)
    ensures Keyed(ContextFor(k), SmallFields()) && Sized(SmallFields())
    ensures SmallFields().containerSize == 0x1_0000 && SmallFields().maxTableSize == HEADER_SIZE
  {
    FieldsKeyed(k);
    FieldsFormed();
    assert Fits(0x1_0000, 8);
    WordFits(HEADER_SIZE);
  }

  lemma {:induction false} SmallAccepted()
    ensures !CreateRefused(SmallFields(), [FILE])
  {
    FieldsFormed();
    RequiredOne(FILE);
    hide Fields.WellFormed;
  }

  lemma {:induction false} SmallSaves(k: Shorts, blank: Volume, w: Store)
    requires k.a == Table(w.entries, w.offset) && blank.header.maxTableSize == HEADER_SIZE
    ensures Finish(ContextFor(k), blank, Going(w), []).Going?
    ensures Finish(ContextFor(k), blank, Going(w), []).w.header.containerSize == blank.header.containerSize
  {
    hide Replicated, Serialize, ContainerGeometry, SlotBytes, HeaderCodec.Prefix, TextForm.Spelt;
    BeforeSaveTab(blank, w);
    assert ContextFor(k).text(k.a) == [1];
  }

  /** Creation succeeds and leaves four healthy slots with the file intact, and the container never opens. */
  lemma {:induction false} CreatedNeverOpens(prior: Table) returns (x: Context, f: Fields, v: Volume, enc: seq<byte>)
    ensures x.Ideal() && Keyed(x, f) && f.containerSize == 0x1_0000 && f.maxTableSize == HEADER_SIZE
    ensures Create(x, f, [FILE], OneThread(x, Blank(x, f), [FILE], NONCES), []) == Some(Going(v))
    ensures Healthy(x, v, enc, [[5]]) && Opening(x.s, v.disk, prior) == None
  {
    hide Healthy, Blank, ContextFor, Keyed, Sized, OneThread, Context.Ideal, Finish, CreateRefused, Opening;
    hide SmallFields;
    f := SmallFields();
    var empty := Table([], 0);
    var k0 := Shorts(empty, empty, empty, empty);
    var w := Written(ContextFor(k0), Blank(ContextFor(k0), f), [FILE], NONCES);
    var k := Shorts(Table(w.entries, w.offset), empty, empty, empty);
    x := ContextFor(k);
    ContextIdeal(k);
    SmallKeyed(k);
    SmallAccepted();
    SmallRun(k0, k);
    SmallSaves(k, Blank(x, f), w);
    enc := CreateHealthy(x, f, [FILE], NONCES, []);
    v := Finish(x, Blank(x, f), OneThread(x, Blank(x, f), [FILE], NONCES), []).w;
    assert ContentsOf([FILE]) == [[5]];
    Reopens(x, v, enc, [[5]], prior);
  }

  lemma {:induction false} SmallRun(k0: Shorts, k: Shorts)
    ensures var a, b := Blank(ContextFor(k0), SmallFields()), Blank(ContextFor(k), SmallFields());
      && OneThread(ContextFor(k0), a, [FILE], NONCES) == OneThread(ContextFor(k), b, [FILE], NONCES)
      && OneThread(ContextFor(k0), a, [FILE], NONCES).Going? && b.header.maxTableSize == HEADER_SIZE
      && b.header.containerSize == 0x1_0000
  {
    hide Fold, Plan, ResultsFrom, ContainerGeometry, Replicated, Serialize, HeaderCodec.Prefix;
    RunGoes(Blank(ContextFor(k), SmallFields()).G(), FILE, StartOf(Blank(ContextFor(k), SmallFields())));
  }

  // ---- An end of data that is too low ----

  /** A file of one byte that starts four bytes before the second slot: its 29 sealed bytes go on behind
      the slot, beyond the end that is recomputed for a table without one. */
  lemma {:induction false} RecomputedTooLow(name: string, checksum: string)
    ensures var e := FileEntry(name, 1, 262140, ChunkCount(1), checksum);
      && GEOMETRY.Separated() && !GEOMETRY.InSlot(e.offset)
      && ExtentEnd(GEOMETRY, e) == 331801 && Recomputed([e]) == 327704
  {
    hide End, Geometry.InSlot, Geometry.Skip, Geometry.Separated, Recomputed;
    GeometryFacts();
    OutsideSlots(262140);
    Contiguous(262140, 4);
    EndCompose(GEOMETRY, 262140, 4, 25);
    BehindSlot();
    var e := FileEntry(name, 1, 262140, ChunkCount(1), checksum);
    OneRecomputed(e);
  }

  lemma {:induction false} OneRecomputed(e: FileEntry)
    ensures Recomputed([e]) == EntryEnd(e)
  {
    assert [e][..0] == [];
    assert Recomputed([e]) == Max(Recomputed([]), EntryEnd(e));
  }

  lemma {:induction false} BehindSlot()
    ensures End(GEOMETRY, 262144, 25) == 331801
  {
    hide End;
    GeometryFacts();
    EndFromSkip(GEOMETRY, 262144, 25);
    SkipIsLeast(GEOMETRY, 262144);
    EndSegment(GEOMETRY, 331776, 25);
  }
}
