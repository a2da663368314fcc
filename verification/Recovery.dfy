/** Opening a container (FileManager::readMeta in src/FileManager.cpp): the slots are tried in
    order, and a password-derived key is computed at most twice. */
module Recovery {
  import opened Bytes
  import opened Layout
  import opened Chunks
  import opened Tables
  import opened HeaderCodec

  type Key = seq<byte>

  datatype KdfParams = KdfParams(salt: seq<byte>, mKib: nat, t: nat, p: nat)

  datatype Table = Table(entries: seq<FileEntry>, next: nat)

  /** The foreign parts, for one password: key derivation, message authentication by hash id and
      key, authenticated decryption by cipher id and key, and the text form of a table. */
  datatype Suite = Suite(
    kdf: KdfParams -> Key,
    mac: (nat, Key, seq<byte>) -> seq<byte>,
    unseal: (nat, Key, seq<byte>) -> Option<seq<byte>>,
    parse: seq<byte> -> Option<Table>)

  datatype Meta = Meta(header: Fields, dek: Key, table: Table)

  const DEK_SIZE: nat := 32
  const MINIMAL_CONTAINER_SIZE: nat := 4 * (HEADER_SIZE + BLOCK_SIZE)
  const MAX_KEK_DERIVATIONS: nat := 2

  function ParamsOf(f: Fields): KdfParams { KdfParams(f.salt, f.mKib, f.t, f.p) }

  predicate InRange(k: KdfParams) { 1 <= k.mKib <= 4096 * 1024 && 1 <= k.t <= 100 && 1 <= k.p <= 64 }

  // ---- One slot ----

  /** trySlotMagic: the header at `off`, unless it is unreadable, of another version, of an unknown
      hash, or without the magic. */
  function SlotHeader(disk: seq<byte>, off: nat): (r: Option<Fields>)
    ensures r.Some? ==> off + HEADER_SIZE <= |disk|
  {
    if off + HEADER_SIZE > |disk| then None else
      var buf := disk[off..off + HEADER_SIZE];
      if Parse(buf).Some? && ValidMagic(buf) then Parse(buf) else None
  }

  /** readFilesTable; `prior` is the table in memory, kept when the header announces no table. */
  function SlotTable(s: Suite, disk: seq<byte>, off: nat, f: Fields, dek: Key, prior: Table): Option<Table> {
    var at := off + f.headerSize;
    if f.fileTableSize == 0 then Some(prior)
    else if f.fileTableSize <= OVERHEAD || at + f.fileTableSize > |disk| then None
    else match s.unseal(f.cipher, dek, disk[at..at + f.fileTableSize])
      case None => None
      case Some(plain) =>
        match s.parse(plain)
        case None => None
        case Some(t) => Some(Table(t.entries, LoadedOffset(t.next, t.entries)))
  }

  /** What one slot yields under a given key: code, data key and table must all check out. */
  function Authenticate(s: Suite, disk: seq<byte>, off: nat, f: Fields, key: Key, prior: Table): Option<Meta>
    requires off + HEADER_SIZE <= |disk|
  {
    if s.mac(f.hashAlgo, key, disk[off..off + HMAC_PROTECTED_SIZE]) != f.hmac then None
    else match s.unseal(f.cipher, key, f.dekNonce + f.encryptedDek + f.dekAuthTag)
      case None => None
      case Some(dek) =>
        if |dek| != DEK_SIZE then None
        else match SlotTable(s, disk, off, f, dek, prior)
          case None => None
          case Some(t) => Some(Meta(f, dek, t))
  }

  // ---- The key budget ----

  datatype KeyState = KeyState(derived: bool, count: nat, params: KdfParams, key: Key)

  /** Before a slot: a key made from other parameters is given up while another may be derived. */
  function Released(ks: KeyState, f: Fields): KeyState {
    if ks.derived && ks.count < MAX_KEK_DERIVATIONS && ParamsOf(f) != ks.params then ks.(derived := false) else ks
  }

  /** The key state after a slot's header has been seen, and whether a key is at hand for it. */
  function Prepared(s: Suite, ks: KeyState, f: Fields): (KeyState, bool) {
    var r := Released(ks, f);
    if !SupportedCipher(f.cipher) then (r, false)
    else if r.derived then (r, true)
    else if !InRange(ParamsOf(f)) then (r, false)
    else (KeyState(true, r.count + 1, ParamsOf(f), s.kdf(ParamsOf(f))), true)
  }

  datatype Scanned = Scanned(found: Option<(nat, Meta)>, ks: KeyState)

  function Scan(s: Suite, disk: seq<byte>, slots: seq<nat>, i: nat, ks: KeyState, prior: Table): Scanned
    requires i <= |slots|
    decreases |slots| - i
  {
    if i == |slots| then Scanned(None, ks)
    else match SlotHeader(disk, slots[i])
      case None => Scan(s, disk, slots, i + 1, ks, prior)
      case Some(f) =>
        var (next, ready) := Prepared(s, ks, f);
        if ready && Authenticate(s, disk, slots[i], f, next.key, prior).Some?
        then Scanned(Some((i, Authenticate(s, disk, slots[i], f, next.key, prior).value)), next)
        else Scan(s, disk, slots, i + 1, next, prior)
  }

  const NO_KEY: KeyState := KeyState(false, 0, KdfParams([], 0, 0, 0), [])

  /** readMeta */
  function Opening(s: Suite, disk: seq<byte>, prior: Table): Option<Meta> {
    if disk == [] then None else
      match Scan(s, disk, SlotOffsets(|disk|), 0, NO_KEY, prior).found
      case None => None
      case Some((_, m)) => if m.header.containerSize < MINIMAL_CONTAINER_SIZE then None else Some(m)
  }

  method ReadMeta(s: Suite, disk: seq<byte>, prior: Table) returns (r: Option<Meta>, kekDerivations: nat)
    ensures r == Opening(s, disk, prior)
    ensures kekDerivations <= MAX_KEK_DERIVATIONS
  {
    hide SlotHeader, Authenticate, InRange, SupportedCipher, SlotOffset;
    kekDerivations := 0;
    if |disk| == 0 { return None, 0; }
    var offsets := SlotOffsets(|disk|);
    var kekDerived := false;
    var kekParams, kek := KdfParams([], 0, 0, 0), [];
    var recovered: Option<Meta> := None;
    ghost var whole := Scan(s, disk, offsets, 0, NO_KEY, prior);
    for i := 0 to 4
      invariant recovered == None && (kekDerived || kekDerivations < MAX_KEK_DERIVATIONS)
      invariant kekDerivations <= MAX_KEK_DERIVATIONS
      invariant whole == Scan(s, disk, offsets, i, KeyState(kekDerived, kekDerivations, kekParams, kek), prior)
    {
      var slotOff := offsets[i];
      var header := SlotHeader(disk, slotOff);
      if header.None? { continue; }
      var f := header.value;
      if kekDerived && kekDerivations < MAX_KEK_DERIVATIONS && ParamsOf(f) != kekParams {
        kekDerived := false;
      }
      if !SupportedCipher(f.cipher) { continue; }
      if !kekDerived {
        if !InRange(ParamsOf(f)) { continue; }
        kek := s.kdf(ParamsOf(f));
        kekDerived := true;
        kekDerivations := kekDerivations + 1;
        kekParams := ParamsOf(f);
      }
      recovered := Authenticate(s, disk, slotOff, f, kek, prior);
      if recovered.Some? { break; }
    }
    if recovered.None? || recovered.value.header.containerSize < MINIMAL_CONTAINER_SIZE {
      return None, kekDerivations;
    }
    r := recovered;
  }

  ghost predicate GoodKeys(s: Suite, ks: KeyState) {
    && ks.count <= MAX_KEK_DERIVATIONS
    && (ks.derived ==> ks.count > 0 && ks.key == s.kdf(ks.params))
    && (!ks.derived ==> ks.count < MAX_KEK_DERIVATIONS)
  }

  /** A slot with usable parameters is checked with its own key exactly when fewer than two keys
      have been derived, or the last one was derived from the same parameters. */
  lemma {:induction false} OwnKeyIff(s: Suite, ks: KeyState, f: Fields)
    requires GoodKeys(s, ks) && SupportedCipher(f.cipher) && InRange(ParamsOf(f))
    ensures var (next, ready) := Prepared(s, ks, f);
      && ready && GoodKeys(s, next) && next.key == s.kdf(next.params)
      && (next.params == ParamsOf(f) <==> ks.count < MAX_KEK_DERIVATIONS || ks.params == ParamsOf(f))
  {
  }

  /** No scan, over any bytes, derives more than two keys. */
  lemma {:induction false} BudgetKept(s: Suite, disk: seq<byte>, slots: seq<nat>, i: nat, ks: KeyState, prior: Table)
    requires i <= |slots| && GoodKeys(s, ks)
    ensures GoodKeys(s, Scan(s, disk, slots, i, ks, prior).ks)
    decreases |slots| - i
  {
    hide SlotHeader, Authenticate;
    if i < |slots| {
      match SlotHeader(disk, slots[i])
      case None => BudgetKept(s, disk, slots, i + 1, ks, prior);
      case Some(f) => BudgetKept(s, disk, slots, i + 1, Prepared(s, ks, f).0, prior);
    }
  }

  /** An intact slot: under the key of its own parameters it yields `m`. */
  ghost predicate Genuine(s: Suite, disk: seq<byte>, off: nat, prior: Table, m: Meta) {
    && SlotHeader(disk, off) == Some(m.header)
    && SupportedCipher(m.header.cipher) && InRange(ParamsOf(m.header))
    && off + HEADER_SIZE <= |disk|
    && Authenticate(s, disk, off, m.header, s.kdf(ParamsOf(m.header)), prior) == Some(m)
  }

  /** Under any other key an intact slot is rejected: the ideal message authentication code. */
  ghost predicate OtherKeysRejected(s: Suite, disk: seq<byte>, off: nat, prior: Table, m: Meta)
    requires off + HEADER_SIZE <= |disk|
  {
    forall key: Key :: key != s.kdf(ParamsOf(m.header)) ==> Authenticate(s, disk, off, m.header, key, prior) == None
  }

  /** A scan that reaches an intact slot stops there, if its own key can still be had. */
  lemma {:induction false} GenuineAccepted(s: Suite, disk: seq<byte>, slots: seq<nat>, i: nat, ks: KeyState,
          prior: Table, m: Meta)
    requires i < |slots| && GoodKeys(s, ks) && Genuine(s, disk, slots[i], prior, m)
    requires ks.count < MAX_KEK_DERIVATIONS || ks.params == ParamsOf(m.header)
    ensures Scan(s, disk, slots, i, ks, prior).found == Some((i, m))
  {
    hide Authenticate, SlotHeader;
    OwnKeyIff(s, ks, m.header);
  }

  /** With collision-free key derivation the condition is exact: an intact slot that is reached
      after two derivations from other parameters is passed over. */
  lemma {:induction false} GenuineAcceptedIff(s: Suite, disk: seq<byte>, slots: seq<nat>, i: nat, ks: KeyState,
          prior: Table, m: Meta)
    requires i < |slots| && GoodKeys(s, ks) && Genuine(s, disk, slots[i], prior, m)
    requires OtherKeysRejected(s, disk, slots[i], prior, m)
    requires ks.params != ParamsOf(m.header) ==> s.kdf(ks.params) != s.kdf(ParamsOf(m.header))
    ensures Scan(s, disk, slots, i, ks, prior).found == Some((i, m))
      <==> ks.count < MAX_KEK_DERIVATIONS || ks.params == ParamsOf(m.header)
  {
    hide Authenticate, SlotHeader;
    OwnKeyIff(s, ks, m.header);
    if !(ks.count < MAX_KEK_DERIVATIONS || ks.params == ParamsOf(m.header)) {
      LaterIndex(s, disk, slots, i + 1, ks, prior);
    }
  }

  lemma {:induction false} LaterIndex(s: Suite, disk: seq<byte>, slots: seq<nat>, i: nat, ks: KeyState, prior: Table)
    requires i <= |slots|
    ensures var r := Scan(s, disk, slots, i, ks, prior).found; r.Some? ==> i <= r.value.0 < |slots|
    decreases |slots| - i
  {
    hide Authenticate, SlotHeader, Prepared;
    if i < |slots| {
      match SlotHeader(disk, slots[i])
      case None => LaterIndex(s, disk, slots, i + 1, ks, prior);
      case Some(f) => LaterIndex(s, disk, slots, i + 1, Prepared(s, ks, f).0, prior);
    }
  }

  /** Arbitrary damage to any one slot is survived: the scan ends at an intact slot with what was
      stored, unless the damaged slot itself authenticates. */
  lemma {:induction false} AnySingleDamage(s: Suite, disk: seq<byte>, slots: seq<nat>, damaged: nat, prior: Table,
          m: Meta)
    requires |slots| >= 2 && forall i :: 0 <= i < |slots| && i != damaged ==> Genuine(s, disk, slots[i], prior, m)
    ensures var r := Scan(s, disk, slots, 0, NO_KEY, prior).found;
      r.Some? && (r.value.0 != damaged ==> r.value.1 == m)
  {
    hide Authenticate, SlotHeader, Genuine;
    if damaged != 0 {
      GenuineAccepted(s, disk, slots, 0, NO_KEY, prior, m);
    } else {
      match SlotHeader(disk, slots[0])
      case None => GenuineAccepted(s, disk, slots, 1, NO_KEY, prior, m);
      case Some(f) => GenuineAccepted(s, disk, slots, 1, Prepared(s, NO_KEY, f).0, prior, m);
    }
  }

  /** Two damaged slots in front can exhaust the budget: if both still read as headers with usable
      parameters, different from each other and from the stored ones, the two intact slots behind
      them are not recognised. */
  lemma {:induction false} TwoDamagedExhaust(s: Suite, disk: seq<byte>, slots: seq<nat>, prior: Table, m: Meta,
          a: Fields, b: Fields)
    requires |slots| == 4 && Genuine(s, disk, slots[2], prior, m) && Genuine(s, disk, slots[3], prior, m)
    requires OtherKeysRejected(s, disk, slots[2], prior, m) && OtherKeysRejected(s, disk, slots[3], prior, m)
    requires SlotHeader(disk, slots[0]) == Some(a) && SlotHeader(disk, slots[1]) == Some(b)
    requires SupportedCipher(a.cipher) && SupportedCipher(b.cipher) && InRange(ParamsOf(a)) && InRange(ParamsOf(b))
    requires slots[0] + HEADER_SIZE <= |disk| && Authenticate(s, disk, slots[0], a, s.kdf(ParamsOf(a)), prior) == None
    requires slots[1] + HEADER_SIZE <= |disk| && Authenticate(s, disk, slots[1], b, s.kdf(ParamsOf(b)), prior) == None
    requires ParamsOf(a) != ParamsOf(b) && s.kdf(ParamsOf(b)) != s.kdf(ParamsOf(m.header))
    ensures Scan(s, disk, slots, 0, NO_KEY, prior).found == None
  {
    hide Authenticate, SlotHeader;
    var k1 := Prepared(s, NO_KEY, a).0;
    var k2 := Prepared(s, k1, b).0;
    assert k2 == KeyState(true, 2, ParamsOf(b), s.kdf(ParamsOf(b)));
    assert Prepared(s, k2, m.header) == (k2, true);
    assert Scan(s, disk, slots, 3, k2, prior).found == None;
    assert Scan(s, disk, slots, 2, k2, prior) == Scan(s, disk, slots, 3, k2, prior);
    assert Scan(s, disk, slots, 1, k1, prior) == Scan(s, disk, slots, 2, k2, prior);
  }

  // ---- What opening accepts, in numbers ----

  /** A slot has a header exactly if 4096 bytes are there that start with the magic and version 1.1 and name one
      of the hashes 1 to 3. */
  lemma {:induction false} HeaderReadIff(disk: seq<byte>, off: nat)
    ensures SlotHeader(disk, off).Some? <==>
      && off + 4096 <= |disk| && disk[off..off + 8] == [0x53, 0x43, 0x45, 0x46, 1, 0, 1, 0]
      && 1 <= disk[off + 0x98] <= 3
    ensures SlotHeader(disk, off).Some? ==> SlotHeader(disk, off).value == AllFields(disk[off..off + 4096])
  {
    hide AllFields;
    if off + HEADER_SIZE <= |disk| {
      var buf := disk[off..off + HEADER_SIZE];
      ParsesIff(buf);
      var head := disk[off..off + 8];
      assert head == buf[..8] && head[..4] == buf[..4] && head[4..] == buf[4..8] && head == head[..4] + head[4..];
      assert buf[0x98] == disk[off + 0x98];
    }
  }

  /** A slot is accepted under a key exactly if the code over its first 160 bytes is the recorded one, a data key
      of 32 bytes opens, and there is no table, or one of more than 28 bytes in the file that opens under the data
      key and can be read. */
  lemma {:induction false} AuthenticatesIff(s: Suite, disk: seq<byte>, off: nat, f: Fields, key: Key, prior: Table)
    requires off + HEADER_SIZE <= |disk|
    ensures var n, at := f.fileTableSize, off + f.headerSize;
      var dek := s.unseal(f.cipher, key, f.dekNonce + f.encryptedDek + f.dekAuthTag);
      Authenticate(s, disk, off, f, key, prior).Some? <==>
        && s.mac(f.hashAlgo, key, disk[off..off + 160]) == f.hmac
        && dek.Some? && |dek.value| == 32
        && (n > 0 ==>
              && n > 28 && at + n <= |disk| && s.unseal(f.cipher, dek.value, disk[at..at + n]).Some?
              && s.parse(s.unseal(f.cipher, dek.value, disk[at..at + n]).value).Some?)
    ensures var r, at := Authenticate(s, disk, off, f, key, prior), off + f.headerSize;
      r.Some? ==>
        && r.value.header == f
        && Some(r.value.dek) == s.unseal(f.cipher, key, f.dekNonce + f.encryptedDek + f.dekAuthTag)
        && (f.fileTableSize == 0 ==> r.value.table == prior)
        && (f.fileTableSize > 0 ==>
              var t := s.parse(s.unseal(f.cipher, r.value.dek, disk[at..at + f.fileTableSize]).value).value;
              && r.value.table.entries == t.entries
              && (if t.next == 0 && t.entries != [] then GreatestEnd(t.entries, r.value.table.next)
                  else r.value.table.next == t.next))
  {
    hide LoadedOffset, GreatestEnd;
    forall next: nat, entries
      ensures next != 0 || entries == [] ==> LoadedOffset(next, entries) == next
      ensures next == 0 && entries != [] ==> GreatestEnd(entries, LoadedOffset(next, entries))
    {
      LoadedEnd(next, entries);
    }
  }

  /** Slot `j` has a header with these parameters, which lie in the ranges the program allows. */
  ghost predicate Offers(disk: seq<byte>, slots: seq<nat>, j: nat, k: KdfParams)
    requires j < |slots|
  {
    && SlotHeader(disk, slots[j]).Some? && SlotHeader(disk, slots[j]).value.cipher in {1, 2}
    && ParamsOf(SlotHeader(disk, slots[j]).value) == k
    && 1 <= k.mKib <= 4194304 && 1 <= k.t <= 100 && 1 <= k.p <= 64
  }

  /** A key in use before slot `i` was derived from the header of an earlier slot. */
  ghost predicate Sourced(s: Suite, disk: seq<byte>, slots: seq<nat>, i: nat, ks: KeyState)
    requires i <= |slots|
  {
    ks.derived ==> ks.key == s.kdf(ks.params) && exists j :: 0 <= j < i && Offers(disk, slots, j, ks.params)
  }

  /** What a slot yielded: accepted under a key derived from its own header or an earlier one. */
  ghost predicate Vouches(s: Suite, disk: seq<byte>, slots: seq<nat>, i: nat, j: nat, k: KdfParams, prior: Table,
          m: Meta)
    requires j <= i < |slots|
  {
    && SlotHeader(disk, slots[i]) == Some(m.header) && m.header.cipher in {1, 2} && Offers(disk, slots, j, k)
    && Authenticate(s, disk, slots[i], m.header, s.kdf(k), prior) == Some(m)
  }

  ghost predicate Vouched(s: Suite, disk: seq<byte>, slots: seq<nat>, i: nat, prior: Table, m: Meta)
    requires i < |slots|
  {
    exists j, k :: 0 <= j <= i && Vouches(s, disk, slots, i, j, k, prior, m)
  }

  lemma {:induction false} KeySourced(s: Suite, disk: seq<byte>, slots: seq<nat>, i: nat, ks: KeyState, f: Fields)
    requires i < |slots| && Sourced(s, disk, slots, i, ks) && SlotHeader(disk, slots[i]) == Some(f)
    ensures var (next, ready) := Prepared(s, ks, f);
      Sourced(s, disk, slots, i + 1, next) && (ready ==> next.derived && f.cipher in {1, 2})
  {
    hide SlotHeader;
    var (next, ready) := Prepared(s, ks, f);
    if next.derived {
      if ks.derived && next.params == ks.params {
        var j :| 0 <= j < i && Offers(disk, slots, j, ks.params);
      } else {
        assert Offers(disk, slots, i, next.params);
      }
    }
  }

  lemma {:induction false} ScanSound(s: Suite, disk: seq<byte>, slots: seq<nat>, i: nat, ks: KeyState, prior: Table)
    requires i <= |slots| && Sourced(s, disk, slots, i, ks)
    ensures var r := Scan(s, disk, slots, i, ks, prior).found;
      r.Some? ==> r.value.0 < |slots| && Vouched(s, disk, slots, r.value.0, prior, r.value.1)
    decreases |slots| - i
  {
    hide Authenticate, SlotHeader;
    if i < |slots| {
      match SlotHeader(disk, slots[i])
      case None => ScanSound(s, disk, slots, i + 1, ks, prior);
      case Some(f) =>
        var (next, ready) := Prepared(s, ks, f);
        KeySourced(s, disk, slots, i, ks, f);
        ScanSound(s, disk, slots, i + 1, next, prior);
        if ready {
          AuthenticatesIff(s, disk, slots[i], f, next.key, prior);
          if Authenticate(s, disk, slots[i], f, next.key, prior).Some? {
            var j :| 0 <= j <= i && Offers(disk, slots, j, next.params);
            var m := Authenticate(s, disk, slots[i], f, next.key, prior).value;
            assert Vouches(s, disk, slots, i, j, next.params, prior, m);
          }
        }
    }
  }

  /** Whatever the bytes of a container: what opening returns was accepted in one of the four slots, under a key
      derived from parameters in range that this slot or an earlier one names, and the header gives the container
      at least 278528 bytes. */
  lemma {:induction false} OpenedSound(s: Suite, disk: seq<byte>, prior: Table, m: Meta)
    requires Opening(s, disk, prior) == Some(m)
    ensures disk != [] && m.header.containerSize >= 278528
    ensures exists i :: 0 <= i < 4 && Vouched(s, disk, SlotOffsets(|disk|), i, prior, m)
  {
    hide Authenticate, SlotHeader, SlotOffset, Vouched, Scan;
    var slots := SlotOffsets(|disk|);
    ScanSound(s, disk, slots, 0, NO_KEY, prior);
    var r := Scan(s, disk, slots, 0, NO_KEY, prior).found;
    assert |slots| == 4 && Vouched(s, disk, slots, r.value.0, prior, m);
  }
}
