/** The 4096-byte slot header (include/Header.h, src/Header.cpp) and the browser's parser of it
    (browser/src/header.js). */
module HeaderCodec {
  import opened Bytes
  import opened Layout

  const MAGIC: seq<byte> := [0x53, 0x43, 0x45, 0x46]
  const VERSION_MAJOR: nat := 1
  const VERSION_MINOR: nat := 1
  const HMAC_PROTECTED_SIZE: nat := 0xA0
  const PARTS: nat := 26

  datatype Fields = Fields(
    versionMajor: nat, versionMinor: nat, headerSize: nat, cipher: nat, kdf: nat, kdfProfile: nat,
    mKib: nat, t: nat, p: nat,
    salt: seq<byte>, dekNonce: seq<byte>, encryptedDek: seq<byte>, dekAuthTag: seq<byte>,
    containerSize: nat, fileTableSize: nat, maxTableSize: nat, fileCount: nat, blockSize: nat,
    headerVersion: nat, flags: nat, hashAlgo: nat,
    reserved0: seq<byte>, hmac: seq<byte>, reserved: seq<byte>, jsonMetadata: seq<byte>)
  {
    /** Every field has the width of its C++ type. */
    predicate WellFormed() {
      && Fits(versionMajor, 2) && Fits(versionMinor, 2) && Fits(headerSize, 4) && Fits(cipher, 1) && Fits(kdf, 1)
      && Fits(kdfProfile, 2) && Fits(mKib, 4) && Fits(t, 4) && Fits(p, 4)
      && |salt| == 32 && |dekNonce| == 12 && |encryptedDek| == 32 && |dekAuthTag| == 16
      && Fits(containerSize, 8) && Fits(fileTableSize, 4) && Fits(maxTableSize, 4) && Fits(fileCount, 4)
      && Fits(blockSize, 4) && Fits(headerVersion, 4) && Fits(flags, 4) && Fits(hashAlgo, 1)
      && |reserved0| == 7 && |hmac| == 32 && |reserved| == 320 && |jsonMetadata| == 512
    }
  }

  // ---- Little-endian integers ----

  predicate Fits(v: nat, n: nat) { if n == 0 then v == 0 else Fits(v / 256, n - 1) }

  function Le(v: nat, n: nat): (s: seq<byte>)
    ensures |s| == n
  {
    if n == 0 then [] else [v % 256] + Le(v / 256, n - 1)
  }

  function FromLe(s: seq<byte>): nat {
    if s == [] then 0 else s[0] + 256 * FromLe(s[1..])
  }

  lemma {:induction false} FromLeOfLe(v: nat, n: nat)
    requires Fits(v, n)
    ensures FromLe(Le(v, n)) == v
  {
    if n > 0 {
      FromLeOfLe(v / 256, n - 1);
      assert Le(v, n)[1..] == Le(v / 256, n - 1);
    }
  }

  lemma {:induction false} LeOfFromLe(s: seq<byte>)
    ensures Le(FromLe(s), |s|) == s && Fits(FromLe(s), |s|)
  {
    if s != [] {
      LeOfFromLe(s[1..]);
      assert FromLe(s) / 256 == FromLe(s[1..]) && FromLe(s) % 256 == s[0];
      assert [s[0]] + s[1..] == s;
    }
  }

  // ---- Layout ----

  function Position(i: nat): nat
    requires i <= PARTS
  {
    match i
    case 0 => 0x0000 case 1 => 0x0004 case 2 => 0x0006 case 3 => 0x0008 case 4 => 0x000C case 5 => 0x000D
    case 6 => 0x000E case 7 => 0x0010 case 8 => 0x0014 case 9 => 0x0018 case 10 => 0x001C case 11 => 0x003C
    case 12 => 0x0048 case 13 => 0x0068 case 14 => 0x0078 case 15 => 0x0080 case 16 => 0x0084 case 17 => 0x0088
    case 18 => 0x008C case 19 => 0x0090 case 20 => 0x0094 case 21 => 0x0098 case 22 => 0x0099 case 23 => 0x00A0
    case 24 => 0x00C0 case 25 => 0x0200 case _ => 0x0400
  }

  /** The bytes of part `i`, in file order. */
  function Part(f: Fields, i: nat): seq<byte>
    requires i < PARTS
  {
    match i
    case 0 => MAGIC
    case 1 => Le(f.versionMajor, 2) case 2 => Le(f.versionMinor, 2) case 3 => Le(f.headerSize, 4)
    case 4 => Le(f.cipher, 1) case 5 => Le(f.kdf, 1) case 6 => Le(f.kdfProfile, 2)
    case 7 => Le(f.mKib, 4) case 8 => Le(f.t, 4) case 9 => Le(f.p, 4)
    case 10 => f.salt case 11 => f.dekNonce case 12 => f.encryptedDek case 13 => f.dekAuthTag
    case 14 => Le(f.containerSize, 8) case 15 => Le(f.fileTableSize, 4) case 16 => Le(f.maxTableSize, 4)
    case 17 => Le(f.fileCount, 4) case 18 => Le(f.blockSize, 4) case 19 => Le(f.headerVersion, 4)
    case 20 => Le(f.flags, 4) case 21 => Le(f.hashAlgo, 1)
    case 22 => f.reserved0 case 23 => f.hmac case 24 => f.reserved case _ => f.jsonMetadata
  }

  /** The first `i` parts, one after the other. */
  function Prefix(f: Fields, i: nat): seq<byte>
    requires i <= PARTS
  {
    if i == 0 then [] else Prefix(f, i - 1) + Part(f, i - 1)
  }

  /** The header as it is stored: all parts, then zeros. */
  function Serialize(f: Fields): seq<byte> { Prefix(f, PARTS) + Zeros(HEADER_SIZE - 0x0400) }

  predicate SupportedCipher(c: nat) { c == 1 || c == 2 }

  predicate SupportedHash(h: nat) { h == 1 || h == 2 || h == 3 }

  function Slice(buf: seq<byte>, i: nat): seq<byte>
    requires |buf| == HEADER_SIZE && i < PARTS
  {
    buf[Position(i)..Position(i + 1)]
  }

  function Number(buf: seq<byte>, i: nat): nat
    requires |buf| == HEADER_SIZE && i < PARTS
  {
    FromLe(Slice(buf, i))
  }

  function AllFields(buf: seq<byte>): Fields
    requires |buf| == HEADER_SIZE
  {
    Fields(Number(buf, 1), Number(buf, 2), Number(buf, 3), Number(buf, 4), Number(buf, 5), Number(buf, 6),
           Number(buf, 7), Number(buf, 8), Number(buf, 9),
           Slice(buf, 10), Slice(buf, 11), Slice(buf, 12), Slice(buf, 13),
           Number(buf, 14), Number(buf, 15), Number(buf, 16), Number(buf, 17), Number(buf, 18), Number(buf, 19),
           Number(buf, 20), Number(buf, 21), Slice(buf, 22), Slice(buf, 23), Slice(buf, 24), Slice(buf, 25))
  }

  /** read: None is the exception for another version or an unknown hash. */
  function Parse(buf: seq<byte>): Option<Fields>
    requires |buf| == HEADER_SIZE
  {
    var f := AllFields(buf);
    if f.versionMajor != VERSION_MAJOR || f.versionMinor != VERSION_MINOR || !SupportedHash(f.hashAlgo) then None
    else Some(f)
  }

  /** Numbers are stored with the least significant byte first. */
  lemma {:induction false} LittleEndian(v: nat)
    ensures Le(v, 4) == [v % 0x100, v / 0x100 % 0x100, v / 0x1_0000 % 0x100, v / 0x100_0000 % 0x100]
    ensures Le(v, 2) == [v % 0x100, v / 0x100 % 0x100] && Le(v, 1) == [v % 0x100]
  {
    assert Le(v, 2) == [v % 256] + Le(v / 256, 1) && Le(v / 256, 1) == [v / 256 % 256];
    assert Le(v / 0x1_0000, 2) == [v / 0x1_0000 % 256] + Le(v / 0x1_0000 / 256, 1);
    assert Le(v, 4) == [v % 256] + ([v / 256 % 256] + Le(v / 256 / 256, 2));
  }

  lemma {:induction false} NumberIs(a: byte, b: byte, c: byte, d: byte)
    ensures FromLe([a, b, c, d]) == a + 0x100 * b + 0x1_0000 * c + 0x100_0000 * d
    ensures FromLe([a, b]) == a + 0x100 * b && FromLe([a]) == a
  {
    assert [a, b, c, d][1..] == [b, c, d] && [b, c, d][1..] == [c, d] && [c, d][1..] == [d] && [d][1..] == [];
    assert FromLe([c, d]) == c + 256 * FromLe([d]) && FromLe([d]) == d;
    assert [a, b][1..] == [b] && FromLe([b]) == b && [b][1..] == [] && [a][1..] == [];
  }

  /** A header is accepted exactly if it has version 1.1 and one of the hash ids 1 to 3. */
  lemma {:induction false} ParsesIff(buf: seq<byte>)
    requires |buf| == HEADER_SIZE
    ensures Parse(buf).Some? <==> buf[4..8] == [1, 0, 1, 0] && 1 <= buf[0x98] <= 3
    ensures Parse(buf).Some? ==> Parse(buf).value == AllFields(buf)
  {
    hide FromLe;
    NumberIs(buf[4], buf[5], 0, 0);
    NumberIs(buf[6], buf[7], 0, 0);
    NumberIs(buf[0x98], 0, 0, 0);
    assert Slice(buf, 1) == [buf[4], buf[5]] && Slice(buf, 2) == [buf[6], buf[7]] && Slice(buf, 21) == [buf[0x98]];
    assert buf[4..8] == [buf[4], buf[5], buf[6], buf[7]];
  }

  predicate ValidMagic(buf: seq<byte>)
    requires |buf| == HEADER_SIZE
  {
    buf[..4] == MAGIC
  }

  // ---- Round trips ----

  lemma {:induction false} PartWidth(f: Fields, i: nat)
    requires f.WellFormed() && i < PARTS
    ensures Position(i) + |Part(f, i)| == Position(i + 1)
  {
  }

  lemma {:induction false} PrefixLength(f: Fields, i: nat)
    requires f.WellFormed() && i <= PARTS
    ensures |Prefix(f, i)| == Position(i)
  {
    hide Part, Position;
    if i > 0 {
      PrefixLength(f, i - 1);
      PartWidth(f, i - 1);
    } else {
      assert Position(0) == 0 by { FirstPosition(); }
    }
  }

  lemma {:induction false} FirstPosition()
    ensures Position(0) == 0 && Position(PARTS) == 0x0400
  {
  }

  lemma {:induction false} PartOfPrefix(f: Fields, i: nat, n: nat)
    requires f.WellFormed() && i < n <= PARTS
    ensures Position(i) <= Position(i + 1) <= Position(n) == |Prefix(f, n)|
    ensures Prefix(f, n)[Position(i)..Position(i + 1)] == Part(f, i)
    decreases n
  {
    hide Part, Position;
    PrefixLength(f, n);
    PrefixLength(f, n - 1);
    PartWidth(f, i);
    PartWidth(f, n - 1);
    if i < n - 1 {
      PartOfPrefix(f, i, n - 1);
    }
  }

  lemma {:induction false} SliceOfSerialize(f: Fields, i: nat)
    requires f.WellFormed() && i < PARTS
    ensures |Serialize(f)| == HEADER_SIZE && Slice(Serialize(f), i) == Part(f, i)
  {
    hide Part, Position, Prefix;
    PrefixLength(f, PARTS);
    FirstPosition();
    PartOfPrefix(f, i, PARTS);
  }

  lemma {:induction false} NumberOfSerialize(f: Fields, i: nat, v: nat, n: nat)
    requires f.WellFormed() && i < PARTS && Part(f, i) == Le(v, n) && Fits(v, n)
    ensures |Serialize(f)| == HEADER_SIZE && Number(Serialize(f), i) == v
  {
    hide Part, Position, Prefix, Serialize;
    SliceOfSerialize(f, i);
    FromLeOfLe(v, n);
  }

  lemma {:induction false} NumbersBack(f: Fields)
    requires f.WellFormed()
    ensures |Serialize(f)| == HEADER_SIZE
    ensures var g := AllFields(Serialize(f));
      && g.versionMajor == f.versionMajor && g.versionMinor == f.versionMinor && g.headerSize == f.headerSize
      && g.cipher == f.cipher && g.kdf == f.kdf && g.kdfProfile == f.kdfProfile && g.mKib == f.mKib && g.t == f.t
      && g.p == f.p
      && g.containerSize == f.containerSize && g.fileTableSize == f.fileTableSize && g.maxTableSize == f.maxTableSize
      && g.fileCount == f.fileCount && g.blockSize == f.blockSize && g.headerVersion == f.headerVersion
      && g.flags == f.flags && g.hashAlgo == f.hashAlgo
  {
    hide Serialize, Prefix, Fits, Le, Number;
    NumberOfSerialize(f, 1, f.versionMajor, 2);
    NumberOfSerialize(f, 2, f.versionMinor, 2);
    NumberOfSerialize(f, 3, f.headerSize, 4);
    NumberOfSerialize(f, 4, f.cipher, 1);
    NumberOfSerialize(f, 5, f.kdf, 1);
    NumberOfSerialize(f, 6, f.kdfProfile, 2);
    NumberOfSerialize(f, 7, f.mKib, 4);
    NumberOfSerialize(f, 8, f.t, 4);
    NumberOfSerialize(f, 9, f.p, 4);
    NumberOfSerialize(f, 14, f.containerSize, 8);
    NumberOfSerialize(f, 15, f.fileTableSize, 4);
    NumberOfSerialize(f, 16, f.maxTableSize, 4);
    NumberOfSerialize(f, 17, f.fileCount, 4);
    NumberOfSerialize(f, 18, f.blockSize, 4);
    NumberOfSerialize(f, 19, f.headerVersion, 4);
    NumberOfSerialize(f, 20, f.flags, 4);
    NumberOfSerialize(f, 21, f.hashAlgo, 1);
  }

  lemma {:induction false} BytesBack(f: Fields)
    requires f.WellFormed()
    ensures |Serialize(f)| == HEADER_SIZE && ValidMagic(Serialize(f))
    ensures var g := AllFields(Serialize(f));
      && g.salt == f.salt && g.dekNonce == f.dekNonce && g.encryptedDek == f.encryptedDek
      && g.dekAuthTag == f.dekAuthTag
      && g.reserved0 == f.reserved0 && g.hmac == f.hmac && g.reserved == f.reserved && g.jsonMetadata == f.jsonMetadata
  {
    hide Serialize, Prefix, Fits, Le, Number, Slice;
    SliceOfSerialize(f, 10);
    SliceOfSerialize(f, 11);
    SliceOfSerialize(f, 12);
    SliceOfSerialize(f, 13);
    SliceOfSerialize(f, 22);
    SliceOfSerialize(f, 23);
    SliceOfSerialize(f, 24);
    SliceOfSerialize(f, 25);
    MagicBack(f);
  }

  lemma {:induction false} MagicBack(f: Fields)
    requires f.WellFormed()
    ensures |Serialize(f)| == HEADER_SIZE && ValidMagic(Serialize(f))
  {
    hide Serialize, Prefix, Fits, Le;
    SliceOfSerialize(f, 0);
  }

  /** Reading a serialized header recovers every field. */
  lemma {:induction false} RoundTrip(f: Fields)
    requires f.WellFormed() && f.versionMajor == VERSION_MAJOR && f.versionMinor == VERSION_MINOR
    requires SupportedHash(f.hashAlgo)
    ensures |Serialize(f)| == HEADER_SIZE && ValidMagic(Serialize(f)) && Parse(Serialize(f)) == Some(f)
  {
    hide Serialize, Number, Slice;
    NumbersBack(f);
    BytesBack(f);
  }

  lemma {:induction false} PartIsSlice(buf: seq<byte>, i: nat)
    requires |buf| == HEADER_SIZE && 1 <= i < PARTS
    ensures Part(AllFields(buf), i) == Slice(buf, i)
  {
    LeOfFromLe(Slice(buf, i));
    hide Le, FromLe;
  }

  lemma {:induction false} FieldsFit(buf: seq<byte>, i: nat, n: nat)
    requires |buf| == HEADER_SIZE && i < PARTS && Position(i + 1) == Position(i) + n
    ensures Fits(Number(buf, i), n)
  {
    LeOfFromLe(Slice(buf, i));
  }

  lemma {:induction false} ReadIsWellFormed(buf: seq<byte>)
    requires |buf| == HEADER_SIZE
    ensures AllFields(buf).WellFormed()
  {
    hide Fits, Number;
    FieldsFit(buf, 1, 2);
    FieldsFit(buf, 2, 2);
    FieldsFit(buf, 3, 4);
    FieldsFit(buf, 4, 1);
    FieldsFit(buf, 5, 1);
    FieldsFit(buf, 6, 2);
    FieldsFit(buf, 7, 4);
    FieldsFit(buf, 8, 4);
    FieldsFit(buf, 9, 4);
    FieldsFit(buf, 14, 8);
    FieldsFit(buf, 15, 4);
    FieldsFit(buf, 16, 4);
    FieldsFit(buf, 17, 4);
    FieldsFit(buf, 18, 4);
    FieldsFit(buf, 19, 4);
    FieldsFit(buf, 20, 4);
    FieldsFit(buf, 21, 1);
  }

  lemma {:induction false} PrefixIsSlice(buf: seq<byte>, i: nat)
    requires |buf| == HEADER_SIZE && ValidMagic(buf) && 1 <= i <= PARTS
    ensures Position(i) <= HEADER_SIZE && Prefix(AllFields(buf), i) == buf[..Position(i)]
  {
    hide AllFields, Part;
    if i > 1 {
      PrefixIsSlice(buf, i - 1);
      PartIsSlice(buf, i - 1);
    } else {
      FirstPart(AllFields(buf));
    }
  }

  lemma {:induction false} FirstPart(f: Fields)
    ensures Prefix(f, 1) == MAGIC && Position(1) == 4
  {
    assert [] + MAGIC == MAGIC;
  }

  /** Writing back what was read gives the same bytes exactly for the buffers that serialization
      can produce: the right magic and nothing in the padding. */
  lemma {:induction false} ReserializeIff(buf: seq<byte>)
    requires |buf| == HEADER_SIZE
    ensures Serialize(AllFields(buf)) == buf <==> ValidMagic(buf) && buf[0x0400..] == Zeros(HEADER_SIZE - 0x0400)
  {
    hide AllFields, Part, Prefix;
    ReadIsWellFormed(buf);
    var f := AllFields(buf);
    MagicBack(f);
    PrefixLength(f, PARTS);
    FirstPosition();
    if ValidMagic(buf) {
      PrefixIsSlice(buf, PARTS);
    }
    assert buf == buf[..0x0400] + buf[0x0400..];
  }

  // ---- The message authentication code ----

  lemma {:induction false} SamePrefix(f: Fields, f': Fields, n: nat)
    requires n <= PARTS && forall i :: 0 <= i < n ==> Part(f, i) == Part(f', i)
    ensures Prefix(f, n) == Prefix(f', n)
  {
    hide Part;
    if n > 0 {
      SamePrefix(f, f', n - 1);
    }
  }

  lemma {:induction false} ProtectedPart(f: Fields)
    requires f.WellFormed()
    ensures |Serialize(f)| == HEADER_SIZE
    ensures Serialize(f)[..HMAC_PROTECTED_SIZE] == Prefix(f, 23)
    ensures Serialize(f) == Prefix(f, 23) + f.hmac + (f.reserved + f.jsonMetadata + Zeros(HEADER_SIZE - 0x0400))
  {
    PrefixLength(f, 23);
    assert Prefix(f, 24) == Prefix(f, 23) + f.hmac;
    assert Prefix(f, 25) == Prefix(f, 24) + f.reserved;
    assert Prefix(f, 26) == Prefix(f, 25) + f.jsonMetadata;
    hide Prefix;
  }

  /** Storing a code changes the 32 code bytes and leaves the 160 protected bytes as they were, so
      the code of a header that is read back covers what it was computed over. */
  lemma {:induction false} StoreHmacKeepsProtected(f: Fields, h: seq<byte>)
    requires f.WellFormed() && |h| == 32
    ensures var f' := f.(hmac := h);
      && f'.WellFormed() && |Serialize(f)| == |Serialize(f')| == HEADER_SIZE
      && Serialize(f') == Splice(Serialize(f), HMAC_PROTECTED_SIZE, h)
      && Serialize(f')[..HMAC_PROTECTED_SIZE] == Serialize(f)[..HMAC_PROTECTED_SIZE]
      && AllFields(Serialize(f')).hmac == h
  {
    hide AllFields, Serialize, Prefix, Part, Fits;
    var f' := f.(hmac := h);
    ProtectedPart(f);
    ProtectedPart(f');
    CodeNotProtected(f, h);
    PrefixLength(f, 23);
    BytesBack(f');
  }

  lemma {:induction false} CodeNotProtected(f: Fields, h: seq<byte>)
    ensures Prefix(f.(hmac := h), 23) == Prefix(f, 23) && Position(23) == HMAC_PROTECTED_SIZE
  {
    hide Prefix;
    SamePrefix(f, f.(hmac := h), 23);
  }

  // ---- The browser's parser ----

  datatype BrowserHeader = BrowserHeader(
    versionMajor: nat, versionMinor: nat, headerSize: nat, cipherId: nat, kdfId: nat, kdfProfileId: nat,
    kdfMKib: nat, kdfT: nat, kdfP: nat,
    salt: seq<byte>, dekNonce: seq<byte>, encryptedDek: seq<byte>, dekAuthTag: seq<byte>,
    containerSize: nat, fileTableSize: nat, maxTableSize: nat, fileCount: nat, blockSize: nat,
    headerVersion: nat, flags: nat, hashAlgoId: nat, headerHmac: seq<byte>, hmacProtectedBytes: seq<byte>)

  function Uint(buf: seq<byte>, pos: nat, n: nat): nat
    requires pos + n <= |buf|
  {
    FromLe(buf[pos..pos + n])
  }

  const TWO_TO_THE_53: nat := 0x20_0000_0000_0000

  /** The distance between neighbouring JavaScript numbers around `v`. */
  function Ulp(v: nat): (u: nat)
    ensures u > 0
  {
    if v < TWO_TO_THE_53 then 1 else 2 * Ulp(v / 2)
  }

  /** Number(v): the nearest representable number, the even one of two equally near. */
  function Rounded(v: nat): nat {
    var u := Ulp(v);
    var below := v / u;
    if 2 * (v % u) < u || (2 * (v % u) == u && below % 2 == 0) then below * u else (below + 1) * u
  }

  /** A size survives the conversion exactly if it is a multiple of that distance; all sizes up to
      the maximal one do. */
  lemma {:induction false} RoundedExactIff(v: nat)
    ensures Rounded(v) == v <==> v % Ulp(v) == 0
    ensures v < TWO_TO_THE_53 ==> Rounded(v) == v
  {
    hide Ulp;
    var u := Ulp(v);
    assert v == v / u * u + v % u;
    assert (v / u + 1) * u == v / u * u + u;
    SmallUlp(v);
  }

  lemma {:induction false} SmallUlp(v: nat)
    ensures v < TWO_TO_THE_53 ==> Ulp(v) == 1
  {
  }

  /** parseHeader: null for a short buffer or wrong magic; it does not look at version or hash. */
  function BrowserParse(buf: seq<byte>): Option<BrowserHeader> {
    if |buf| < HEADER_SIZE then None
    else if buf[0] != MAGIC[0] || buf[1] != MAGIC[1] || buf[2] != MAGIC[2] || buf[3] != MAGIC[3] then None
    else Some(BrowserHeader(
      Uint(buf, 0x04, 2), Uint(buf, 0x06, 2), Uint(buf, 0x08, 4), Uint(buf, 0x0C, 1), Uint(buf, 0x0D, 1),
      Uint(buf, 0x0E, 2),
      Uint(buf, 0x10, 4), Uint(buf, 0x14, 4), Uint(buf, 0x18, 4),
      buf[0x1C..0x3C], buf[0x3C..0x48], buf[0x48..0x68], buf[0x68..0x78],
      Rounded(Uint(buf, 0x78, 8)), Uint(buf, 0x80, 4), Uint(buf, 0x84, 4), Uint(buf, 0x88, 4), Uint(buf, 0x8C, 4),
      Uint(buf, 0x90, 4), Uint(buf, 0x94, 4), Uint(buf, 0x98, 1), buf[0xA0..0xC0], buf[0..HMAC_PROTECTED_SIZE]))
  }

  function Seen(f: Fields, containerSize: nat, protectedBytes: seq<byte>): BrowserHeader {
    BrowserHeader(f.versionMajor, f.versionMinor, f.headerSize, f.cipher, f.kdf, f.kdfProfile, f.mKib, f.t, f.p,
                  f.salt, f.dekNonce, f.encryptedDek, f.dekAuthTag, containerSize, f.fileTableSize, f.maxTableSize,
                  f.fileCount, f.blockSize, f.headerVersion, f.flags, f.hashAlgo, f.hmac, protectedBytes)
  }

  /** The browser parses every serialized header, and sees the fields that were written; a container
      size is seen exactly if it survives the conversion to a JavaScript number. */
  lemma {:induction false} BrowserSeesFields(f: Fields)
    requires f.WellFormed()
    ensures BrowserParse(Serialize(f)) == Some(Seen(f, Rounded(f.containerSize), Serialize(f)[..HMAC_PROTECTED_SIZE]))
    ensures f.containerSize <= MAX_CONTAINER_SIZE ==>
      BrowserParse(Serialize(f)) == Some(Seen(f, f.containerSize, Serialize(f)[..HMAC_PROTECTED_SIZE]))
  {
    hide Rounded;
    RoundedExactIff(f.containerSize);
    var buf := Serialize(f);
    NumbersBack(f);
    BytesBack(f);
    hide Serialize, FromLe;
    assert buf[0] == buf[..4][0] && buf[1] == buf[..4][1] && buf[2] == buf[..4][2] && buf[3] == buf[..4][3];
  }

  // ---- The class ----

  /** read_le: the bytes accumulate, least significant first. */
  method ReadLe(buf: seq<byte>, pos: nat, n: nat) returns (value: nat)
    requires pos + n <= |buf|
    ensures value == FromLe(buf[pos..pos + n])
  {
    hide FromLe;
    value := 0;
    var weight: nat := 1;
    for i := 0 to n
      invariant value + weight * FromLe(buf[pos + i..pos + n]) == FromLe(buf[pos..pos + n])
    {
      FromLeStep(buf[pos + i..pos + n]);
      assert buf[pos + i..pos + n][1..] == buf[pos + i + 1..pos + n];
      Distribute(weight, buf[pos + i], FromLe(buf[pos + i + 1..pos + n]));
      value := value + weight * buf[pos + i];
      weight := weight * 256;
    }
    NothingLeft();
  }

  lemma {:induction false} FromLeStep(s: seq<byte>)
    requires s != []
    ensures FromLe(s) == s[0] + 256 * FromLe(s[1..])
  {
  }

  lemma {:induction false} NothingLeft()
    ensures FromLe([]) == 0
  {
  }

  /** The number at part `i`. */
  method ReadNumber(buf: seq<byte>, i: nat) returns (value: nat)
    requires |buf| == HEADER_SIZE && i < PARTS
    ensures value == Number(buf, i)
  {
    value := ReadLe(buf, Position(i), Position(i + 1) - Position(i));
  }

  class Header {
    var f: Fields
    const buffer: array<byte>

    constructor (f: Fields)
      ensures this.f == f && fresh(buffer) && buffer.Length == HEADER_SIZE
    {
      this.f := f;
      buffer := new byte[HEADER_SIZE](_ => 0);
    }

    /** The buffer holds the first `i` parts and zeros after them. */
    ghost predicate Filled(i: nat)
      requires i <= PARTS
      reads this, buffer
    {
      && buffer.Length == HEADER_SIZE && Position(i) <= HEADER_SIZE
      && buffer[..] == Prefix(f, i) + Zeros(HEADER_SIZE - Position(i))
    }

    /** One more part is in place. */
    method EmitBytes(i: nat, bytes: seq<byte>)
      requires f.WellFormed() && i < PARTS && Filled(i) && bytes == Part(f, i)
      modifies buffer
      ensures Filled(i + 1)
    {
      hide Part, Position, Prefix;
      PartWidth(f, i);
      PositionsInside(i + 1);
      FilledStep(f, i, buffer[..]);
      CopyTo(Position(i), bytes);
    }

    method Emit8(i: nat, value: nat)
      requires f.WellFormed() && i < PARTS && Filled(i) && Le(value, 1) == Part(f, i)
      modifies buffer
      ensures Filled(i + 1)
    {
      hide Part, Position, Prefix;
      PartWidth(f, i);
      PositionsInside(i + 1);
      FilledStep(f, i, buffer[..]);
      buffer[Position(i)] := value % 256;
      assert buffer[..] == Splice(old(buffer[..]), Position(i), Le(value, 1));
    }

    method Emit16(i: nat, value: nat)
      requires f.WellFormed() && i < PARTS && Filled(i) && Le(value, 2) == Part(f, i)
      modifies buffer
      ensures Filled(i + 1)
    {
      hide Part, Position, Prefix, Le;
      PartWidth(f, i);
      PositionsInside(i + 1);
      FilledStep(f, i, buffer[..]);
      WriteLe16(Position(i), value);
    }

    method Emit32(i: nat, value: nat)
      requires f.WellFormed() && i < PARTS && Filled(i) && Le(value, 4) == Part(f, i)
      modifies buffer
      ensures Filled(i + 1)
    {
      hide Part, Position, Prefix, Le;
      PartWidth(f, i);
      PositionsInside(i + 1);
      FilledStep(f, i, buffer[..]);
      WriteLe32(Position(i), value);
    }

    method Emit64(i: nat, value: nat)
      requires f.WellFormed() && i < PARTS && Filled(i) && Le(value, 8) == Part(f, i)
      modifies buffer
      ensures Filled(i + 1)
    {
      hide Part, Position, Prefix, Le;
      PartWidth(f, i);
      PositionsInside(i + 1);
      FilledStep(f, i, buffer[..]);
      WriteLe64(Position(i), value);
    }

    /** createBuffer: false is the exception for an unsupported cipher or hash. */
    method CreateBuffer() returns (ok: bool)
      requires f.WellFormed() && buffer.Length == HEADER_SIZE
      modifies buffer
      ensures ok <==> SupportedCipher(f.cipher) && SupportedHash(f.hashAlgo)
      ensures ok ==> buffer[..] == Serialize(f)
      ensures !ok ==> buffer[..] == old(buffer[..])
    {
      if !SupportedCipher(f.cipher) || !SupportedHash(f.hashAlgo) { return false; }
      forall k | 0 <= k < buffer.Length { buffer[k] := 0; }
      NothingFilled(f, buffer[..]);
      EmitKeyParts();
      EmitStateParts();
      return true;
    }

    /** Everything up to the wrapped data key. */
    method EmitKeyParts()
      requires f.WellFormed() && Filled(0)
      modifies buffer
      ensures Filled(14)
    {
      KeyParts(f);
      hide Fields.WellFormed, Prefix, Le, Filled, Part, Position;
      EmitBytes(0, MAGIC);
      Emit16(1, f.versionMajor);
      Emit16(2, f.versionMinor);
      Emit32(3, f.headerSize);
      Emit8(4, f.cipher);
      Emit8(5, f.kdf);
      Emit16(6, f.kdfProfile);
      Emit32(7, f.mKib);
      Emit32(8, f.t);
      Emit32(9, f.p);
      EmitBytes(10, f.salt);
      EmitBytes(11, f.dekNonce);
      EmitBytes(12, f.encryptedDek);
      EmitBytes(13, f.dekAuthTag);
    }

    /** Sizes, counters, the code and the reserved areas. */
    method EmitStateParts()
      requires f.WellFormed() && Filled(14)
      modifies buffer
      ensures Filled(PARTS)
    {
      StateParts(f);
      hide Fields.WellFormed, Prefix, Le, Filled, Part, Position;
      Emit64(14, f.containerSize);
      Emit32(15, f.fileTableSize);
      Emit32(16, f.maxTableSize);
      Emit32(17, f.fileCount);
      Emit32(18, f.blockSize);
      Emit32(19, f.headerVersion);
      Emit32(20, f.flags);
      Emit8(21, f.hashAlgo);
      EmitBytes(22, f.reserved0);
      EmitBytes(23, f.hmac);
      EmitBytes(24, f.reserved);
      EmitBytes(25, f.jsonMetadata);
    }

    /** storeHmac */
    method StoreHmac(h: seq<byte>)
      requires f.WellFormed() && |h| == 32 && buffer.Length == HEADER_SIZE && buffer[..] == Serialize(f)
      modifies this, buffer
      ensures f == old(f).(hmac := h) && buffer[..] == Serialize(f)
      ensures buffer[..HMAC_PROTECTED_SIZE] == old(buffer[..HMAC_PROTECTED_SIZE])
    {
      hide Serialize;
      StoreHmacKeepsProtected(f, h);
      ghost var before := buffer[..];
      f := f.(hmac := h);
      CopyTo(HMAC_PROTECTED_SIZE, h);
      assert buffer[..][..HMAC_PROTECTED_SIZE] == before[..HMAC_PROTECTED_SIZE];
    }

    /** read: false is the exception for another version or an unknown hash. */
    method Read(source: seq<byte>) returns (ok: bool)
      requires |source| == HEADER_SIZE && buffer.Length == HEADER_SIZE
      modifies this, buffer
      ensures buffer[..] == source
      ensures ok <==> source[4..8] == [1, 0, 1, 0] && 1 <= source[0x98] <= 3
      ensures ok ==> f == AllFields(source)
    {
      hide Number, Slice, Position, SupportedHash, Fields.WellFormed;
      ParsesIff(source);
      forall k | 0 <= k < HEADER_SIZE { buffer[k] := source[k]; }
      assert buffer[..] == source;
      var major := ReadNumber(source, 1);
      var minor := ReadNumber(source, 2);
      if major != VERSION_MAJOR || minor != VERSION_MINOR { return false; }
      var headerSize := ReadNumber(source, 3);
      var cipher := ReadNumber(source, 4);
      var kdf := ReadNumber(source, 5);
      var kdfProfile := ReadNumber(source, 6);
      var mKib := ReadNumber(source, 7);
      var t := ReadNumber(source, 8);
      var p := ReadNumber(source, 9);
      var containerSize := ReadNumber(source, 14);
      var fileTableSize := ReadNumber(source, 15);
      var maxTableSize := ReadNumber(source, 16);
      var fileCount := ReadNumber(source, 17);
      var blockSize := ReadNumber(source, 18);
      var headerVersion := ReadNumber(source, 19);
      var flags := ReadNumber(source, 20);
      var hashAlgo := ReadNumber(source, 21);
      if !SupportedHash(hashAlgo) { return false; }
      f := Fields(major, minor, headerSize, cipher, kdf, kdfProfile, mKib, t, p,
                  Slice(source, 10), Slice(source, 11), Slice(source, 12), Slice(source, 13),
                  containerSize, fileTableSize, maxTableSize, fileCount, blockSize, headerVersion, flags, hashAlgo,
                  Slice(source, 22), Slice(source, 23), Slice(source, 24), Slice(source, 25));
      return true;
    }

    /** std::copy into the buffer. */
    method CopyTo(pos: nat, bytes: seq<byte>)
      requires pos + |bytes| <= buffer.Length
      modifies buffer
      ensures buffer[..] == Splice(old(buffer[..]), pos, bytes)
    {
      for j := 0 to |bytes|
        invariant forall k :: 0 <= k < buffer.Length ==>
          buffer[k] == if pos <= k < pos + j then bytes[k - pos] else old(buffer[k])
      {
        buffer[pos + j] := bytes[j];
      }
    }

    method WriteLe16(pos: nat, value: nat)
      requires pos + 2 <= buffer.Length
      modifies buffer
      ensures buffer[..] == Splice(old(buffer[..]), pos, Le(value, 2))
    {
      buffer[pos] := value % 256;
      buffer[pos + 1] := value / 256 % 256;
    }

    method WriteLe32(pos: nat, value: nat)
      requires pos + 4 <= buffer.Length
      modifies buffer
      ensures buffer[..] == Splice(old(buffer[..]), pos, Le(value, 4))
    {
      hide Splice, Le;
      LeSplit(value, 2, 2);
      ShiftedTwice(value);
      SpliceConcat(buffer[..], pos, Le(value, 2), Le(value / 256 / 256, 2));
      WriteLe16(pos, value);
      WriteLe16(pos + 2, value / 256 / 256);
    }

    method WriteLe64(pos: nat, value: nat)
      requires pos + 8 <= buffer.Length
      modifies buffer
      ensures buffer[..] == Splice(old(buffer[..]), pos, Le(value, 8))
    {
      hide Splice, Le;
      LeInTwo(value);
      SpliceConcat(buffer[..], pos, Le(value, 4), Le(value / 256 / 256 / 256 / 256, 4));
      WriteLe32(pos, value);
      WriteLe32(pos + 4, value / 256 / 256 / 256 / 256);
    }
  }

  lemma {:induction false} ShiftedTwice(v: nat)
    ensures Shifted(v, 2) == v / 256 / 256
  {
    assert Shifted(v, 2) == Shifted(v / 256, 1) == Shifted(v / 256 / 256, 0);
  }

  function Shifted(v: nat, n: nat): nat { if n == 0 then v else Shifted(v / 256, n - 1) }

  lemma {:induction false} LeSplit(v: nat, m: nat, n: nat)
    ensures Le(v, m + n) == Le(v, m) + Le(Shifted(v, m), n)
  {
    if m > 0 {
      LeSplit(v / 256, m - 1, n);
    }
  }

  lemma {:induction false} LeInTwo(v: nat)
    ensures Le(v, 8) == Le(v, 4) + Le(v / 256 / 256 / 256 / 256, 4)
  {
    LeSplit(v, 4, 4);
    hide Le;
    assert Shifted(v, 4) == Shifted(v / 256 / 256, 2);
  }

  lemma {:induction false} Distribute(w: nat, b: nat, r: nat)
    ensures w * (b + 256 * r) == w * b + w * 256 * r
  {
  }

  lemma {:induction false} KeyParts(f: Fields)
    ensures Part(f, 0) == MAGIC && Part(f, 1) == Le(f.versionMajor, 2) && Part(f, 2) == Le(f.versionMinor, 2)
    ensures Part(f, 3) == Le(f.headerSize, 4) && Part(f, 4) == Le(f.cipher, 1) && Part(f, 5) == Le(f.kdf, 1)
    ensures Part(f, 6) == Le(f.kdfProfile, 2) && Part(f, 7) == Le(f.mKib, 4) && Part(f, 8) == Le(f.t, 4)
    ensures Part(f, 9) == Le(f.p, 4)
    ensures Part(f, 10) == f.salt && Part(f, 11) == f.dekNonce && Part(f, 12) == f.encryptedDek
    ensures Part(f, 13) == f.dekAuthTag
  {
    hide Le;
  }

  lemma {:induction false} StateParts(f: Fields)
    ensures Part(f, 14) == Le(f.containerSize, 8) && Part(f, 15) == Le(f.fileTableSize, 4)
    ensures Part(f, 16) == Le(f.maxTableSize, 4)
    ensures Part(f, 17) == Le(f.fileCount, 4) && Part(f, 18) == Le(f.blockSize, 4)
    ensures Part(f, 19) == Le(f.headerVersion, 4)
    ensures Part(f, 20) == Le(f.flags, 4) && Part(f, 21) == Le(f.hashAlgo, 1)
    ensures Part(f, 22) == f.reserved0 && Part(f, 23) == f.hmac && Part(f, 24) == f.reserved
    ensures Part(f, 25) == f.jsonMetadata
  {
    hide Le;
  }

  lemma {:induction false} PositionsInside(i: nat)
    requires i <= PARTS
    ensures Position(i) <= HEADER_SIZE
  {
  }

  lemma {:induction false} NothingFilled(f: Fields, buf: seq<byte>)
    requires buf == Zeros(HEADER_SIZE)
    ensures Position(0) == 0 && buf == Prefix(f, 0) + Zeros(HEADER_SIZE - Position(0))
  {
  }

  lemma {:induction false} FilledStep(f: Fields, i: nat, buf: seq<byte>)
    requires f.WellFormed() && i < PARTS && Position(i + 1) <= HEADER_SIZE && Position(i) <= HEADER_SIZE
    requires buf == Prefix(f, i) + Zeros(HEADER_SIZE - Position(i))
    ensures Splice(buf, Position(i), Part(f, i)) == Prefix(f, i + 1) + Zeros(HEADER_SIZE - Position(i + 1))
  {
    PrefixLength(f, i);
    PartWidth(f, i);
    hide Part, Position;
  }
}
