/** The account record of kernel/core/account.c and tools/account.py, the choice between the two
    slots that hold it, and password changes as transformations of the slots. */
module AccountRecords {
  import opened Bits
  import opened Bytes
  import opened Struct
  import opened Crc32
  import opened Options
  import Sha256

  const MAGIC: seq<byte> := [0x51, 0x41, 0x43, 0x43, 0x4f, 0x55, 0x4e, 0x54]
  const VERSION: nat := 1
  const FLAG_TEMPORARY: nat := 1
  const RECORD_SIZE: nat := 512
  const PASSWORD_MAX: nat := 64

  datatype AccountRecord = AccountRecord(generation: nat, salt: seq<byte>, verifier: seq<byte>, flags: nat)

  predicate Fits(r: AccountRecord) {
    r.generation < B64 && |r.salt| == 16 && |r.verifier| == 32 && r.flags < B16
  }

  function Header(r: AccountRecord): (h: seq<byte>)
    requires Fits(r)
    ensures |h| == 68
  {
    MAGIC + Le16(VERSION) + Le16(r.flags) + Le64(r.generation) + r.salt + r.verifier
  }

  /** `AccountRecord.encode` */
  function Encode(r: AccountRecord): (data: seq<byte>)
    requires Fits(r)
    ensures |data| == RECORD_SIZE
  {
    Header(r) + Le32(Crc(Header(r))) + Zeros(440)
  }

  predicate HasMagic(data: seq<byte>)
    requires |data| == RECORD_SIZE
  {
    data[..8] == MAGIC
  }

  function Generation(data: seq<byte>): nat
    requires |data| == RECORD_SIZE
  {
    U64(data[12..20])
  }

  function Fields(data: seq<byte>): (r: AccountRecord)
    requires |data| == RECORD_SIZE
    ensures Fits(r)
  {
    AccountRecord(Generation(data), data[20..36], data[36..68], U16(data[10..12]))
  }

  /** `record_valid` */
  predicate RecordValid(data: seq<byte>)
    requires |data| == RECORD_SIZE
  {
    HasMagic(data) && U16(data[8..10]) == VERSION && U32(data[68..72]) == Crc(data[..68])
  }

  /** `AccountRecord.decode` */
  function Decode(data: seq<byte>): Option<AccountRecord> {
    if |data| != RECORD_SIZE then None
    else if data[..8] != MAGIC || U16(data[8..10]) != VERSION then None
    else if U32(data[68..72]) != Crc(data[..68]) then None
    else Some(Fields(data))
  }

  lemma HeaderParts(r: AccountRecord)
    requires Fits(r)
    ensures Header(r)[..8] == MAGIC
    ensures Header(r)[8..10] == Le16(VERSION)
    ensures Header(r)[10..12] == Le16(r.flags)
    ensures Header(r)[12..20] == Le64(r.generation)
    ensures Header(r)[20..36] == r.salt
    ensures Header(r)[36..68] == r.verifier
  {
    hide Le16;
    hide Le64;
  }

  lemma EncodeParts(r: AccountRecord)
    requires Fits(r)
    ensures Encode(r)[..68] == Header(r) && Encode(r)[68..72] == Le32(Crc(Header(r)))
  {
    hide Header;
    hide Le32;
    hide Crc;
  }

  lemma PrefixPart(data: seq<byte>, h: seq<byte>, lo: nat, hi: nat)
    requires |h| == 68 <= |data| && data[..68] == h && lo <= hi <= 68
    ensures data[lo..hi] == h[lo..hi]
  {
    assert data[lo..hi] == data[..68][lo..hi];
  }

  /** What the kernel or the host writes, the kernel accepts and the host reads back. */
  lemma DecodeEncode(r: AccountRecord)
    requires Fits(r)
    ensures RecordValid(Encode(r))
    ensures Decode(Encode(r)) == Some(r)
  {
    hide Header;
    hide Encode;
    hide Crc;
    HeaderParts(r);
    EncodeParts(r);
    PrefixPart(Encode(r), Header(r), 0, 8);
    PrefixPart(Encode(r), Header(r), 8, 10);
    PrefixPart(Encode(r), Header(r), 10, 12);
    PrefixPart(Encode(r), Header(r), 12, 20);
    PrefixPart(Encode(r), Header(r), 20, 36);
    PrefixPart(Encode(r), Header(r), 36, 68);
    U16Le16(VERSION);
    U16Le16(r.flags);
    U64Le64(r.generation);
    U32Le32(Crc(Header(r)));
  }

  lemma HeaderJoin(r: AccountRecord, h: seq<byte>)
    requires Fits(r) && |h| == 68 && h[..8] == MAGIC && h[8..10] == Le16(VERSION) && h[10..12] == Le16(r.flags)
    requires h[12..20] == Le64(r.generation) && h[20..36] == r.salt && h[36..68] == r.verifier
    ensures h == Header(r)
  {
    hide Le16;
    hide Le64;
    assert h == h[..8] + h[8..10] + h[10..12] + h[12..20] + h[20..36] + h[36..68];
  }

  /** A record that decodes is, in all its significant bytes, the encoding of what it decodes to; and
      the kernel's test and the host's decoder accept the same sectors. */
  lemma EncodeDecode(data: seq<byte>)
    requires |data| == RECORD_SIZE
    ensures RecordValid(data) <==> Decode(data).Some?
    ensures Decode(data).Some? ==> Encode(Decode(data).value)[..72] == data[..72]
  {
    if Decode(data).Some? {
      var r := Fields(data);
      var h := data[..68];
      hide Encode;
      hide Header;
      hide Crc;
      Le16U16(data[8..10]);
      Le16U16(data[10..12]);
      Le64U64(data[12..20]);
      Le32U32(data[68..72]);
      PrefixPart(data, h, 0, 8);
      PrefixPart(data, h, 8, 10);
      PrefixPart(data, h, 10, 12);
      PrefixPart(data, h, 12, 20);
      PrefixPart(data, h, 20, 36);
      PrefixPart(data, h, 36, 68);
      HeaderJoin(r, h);
      EncodeParts(r);
      assert data[..72] == h + data[68..72];
      assert Encode(r)[..72] == Encode(r)[..68] + Encode(r)[68..72];
    }
  }

  /** Every corruption of a valid record that is confined to four consecutive significant bytes is
      rejected by both. */
  lemma CorruptionRejected(data: seq<byte>, corrupt: seq<byte>, at: nat)
    requires |data| == |corrupt| == RECORD_SIZE && RecordValid(data)
    requires data[..72] != corrupt[..72]
    requires forall i :: 0 <= i < 72 && !(at <= i < at + 4) ==> data[i] == corrupt[i]
    ensures !RecordValid(corrupt) && Decode(corrupt) == None
  {
    var a, b := data[..72], corrupt[..72];
    assert a[68..] == data[68..72] && a[..68] == data[..68];
    assert b[68..] == corrupt[68..72] && b[..68] == corrupt[..68];
    SealBreaks(a, b, at);
  }

  // ---------------------------------------------------------------------------------------------
  // Two slots
  // ---------------------------------------------------------------------------------------------

  datatype Slots = Slots(first: seq<byte>, second: seq<byte>)

  predicate Sized(s: Slots) { |s.first| == |s.second| == RECORD_SIZE }

  function Slot(s: Slots, second: bool): seq<byte> { if second then s.second else s.first }

  /** The slot `quanta_account_change` takes as active, chosen among the valid ones. */
  function Selected(s: Slots): Option<bool>
    requires Sized(s)
  {
    if !RecordValid(s.first) && !RecordValid(s.second) then None
    else if RecordValid(s.first) && RecordValid(s.second) && Generation(s.second) > Generation(s.first) then Some(true)
    else Some(!RecordValid(s.first))
  }

  /** A change starts from a valid record that no valid record outruns; from the first slot if both have the same
      generation; and it starts at all exactly when there is a valid record. */
  lemma SelectedIs(s: Slots)
    requires Sized(s)
    ensures Selected(s).Some? <==> exists second :: RecordValid(Slot(s, second))
    ensures Selected(s).Some? ==>
              var active := Selected(s).value;
              && RecordValid(Slot(s, active))
              && forall other :: other != active && RecordValid(Slot(s, other)) ==>
                   Generation(Slot(s, other)) < Generation(Slot(s, active))
                   || (Generation(Slot(s, other)) == Generation(Slot(s, active)) && !active)
  {
    hide RecordValid;
    hide Generation;
    assert Slot(s, false) == s.first && Slot(s, true) == s.second;
  }

  /** The slot `quanta_account_verify` uses, chosen by magic and generation alone. */
  function Shown(s: Slots): Option<bool>
    requires Sized(s)
  {
    var generation := if HasMagic(s.first) then Generation(s.first) else 0;
    var other := if HasMagic(s.second) then Generation(s.second) else 0;
    if other > generation then Some(true) else if generation > 0 then Some(false) else None
  }

  /** `choose_record`: the first of the valid records with the greatest generation. */
  function ChooseRecord(records: seq<seq<byte>>): Option<AccountRecord> {
    if records == [] then None
    else
      var best := ChooseRecord(records[..|records| - 1]);
      var last := Decode(records[|records| - 1]);
      if last.Some? && (best.None? || last.value.generation > best.value.generation) then last else best
  }

  /** A slot that was never written half: it is a valid record or does not look like one. */
  predicate SlotOk(data: seq<byte>) {
    |data| == RECORD_SIZE && (RecordValid(data) || !HasMagic(data))
  }

  predicate SlotsOk(s: Slots) { SlotOk(s.first) && SlotOk(s.second) }

  function ActiveRecord(s: Slots): (r: AccountRecord)
    requires Sized(s) && Selected(s).Some?
    ensures Fits(r)
  {
    Fields(Slot(s, Selected(s).value))
  }

  /** A store in use: there is an active record with a generation that `verify` can see. */
  predicate InUse(s: Slots): (inUse: bool)
    ensures inUse ==> Sized(s) && Selected(s).Some?
  {
    SlotsOk(s) && Selected(s).Some? && ActiveRecord(s).generation > 0
  }

  /** The three selections agree: `verify` shows the slot `change` selects whenever its generation is
      not zero, and the host picks the same record. */
  lemma SelectionsAgree(s: Slots)
    requires SlotsOk(s)
    ensures Shown(s) == if InUse(s) then Selected(s) else None
    ensures ChooseRecord([s.first, s.second]) == if Selected(s).None? then None else Some(ActiveRecord(s))
  {
    var records := [s.first, s.second];
    assert records[..1] == [s.first];
    assert ChooseRecord([s.first][..0]) == None;
    assert ChooseRecord([s.first]) == Decode(s.first);
  }

  // ---------------------------------------------------------------------------------------------
  // Passwords
  // ---------------------------------------------------------------------------------------------

  function XorByte(a: byte, b: byte): byte {
    ByteXor(a, b);
    Xor(a, b)
  }

  /** The salt for a generation: the previous salt, each byte mixed with a byte of the generation. */
  function NextSalt(salt: seq<byte>, generation: nat): (s: seq<byte>)
    requires |salt| == 16 && generation < B64
    ensures |s| == 16
  {
    seq(16, i requires 0 <= i < 16 => XorByte(salt[i], Le64(generation)[i % 8]))
  }

  lemma Le64Byte(n: nat, k: nat)
    requires n < B64 && k < 8
    ensures Le64(n)[k] == Shr(n, 8 * k) % 256
  {
    Sha256.Be64Byte(n, 7 - k);
    Reversed(n % B32);
    Reversed(n / B32);
    hide Le32;
    hide Sha256.Be32;
    hide Shr;
  }

  lemma Reversed(n: nat)
    requires n < B32
    ensures forall k :: 0 <= k < 4 ==> Le32(n)[k] == Sha256.Be32(n)[3 - k]
  {
    hide U16;
    assert n % B16 / 256 == n / 256 % 256;
    assert n / B16 % 256 == n / 0x1_0000 % 256;
    assert n / B16 / 256 == n / 0x100_0000;
  }

  lemma Le64Bit(n: nat, k: nat, b: nat)
    requires n < B64 && k < 8 && b < 8
    ensures Bit(Le64(n)[k], b) == Bit(n, 8 * k + b)
  {
    hide Le64;
    hide Bit;
    hide Shr;
    hide Low;
    Le64Byte(n, k);
    Low8(Shr(n, 8 * k));
    LowBit(Shr(n, 8 * k), 8, b);
    ShrBit(n, 8 * k, b);
  }

  /** Byte `i` of the salt is mixed with bits `8 * (i % 8)` and up of the generation. */
  lemma NextSaltBits(salt: seq<byte>, generation: nat, i: nat, b: nat)
    requires |salt| == 16 && generation < B64 && i < 16 && b < 8
    ensures Bit(NextSalt(salt, generation)[i], b) == (Bit(salt[i], b) != Bit(generation, 8 * (i % 8) + b))
  {
    hide Bit;
    hide Xor;
    hide Le64;
    XorBit(salt[i], Le64(generation)[i % 8], b);
    Le64Bit(generation, i % 8, b);
  }

  /** The salt stays the same only for generation 0, so every change of the password changes it until the counter
      wraps. */
  lemma NextSaltChanges(salt: seq<byte>, generation: nat)
    requires |salt| == 16 && generation < B64
    ensures NextSalt(salt, generation) == salt <==> generation == 0
  {
    if generation == 0 {
      forall i | 0 <= i < 16
        ensures NextSalt(salt, generation)[i] == salt[i]
      {
        assert Le64(0)[i % 8] == 0;
        XorComm(salt[i], 0);
      }
    }
    if NextSalt(salt, generation) == salt { SameSalt(salt, generation); }
  }

  lemma SameSalt(salt: seq<byte>, generation: nat)
    requires |salt| == 16 && generation < B64 && NextSalt(salt, generation) == salt
    ensures generation == 0
  {
    hide Bit;
    hide Shl;
    forall j: nat | j < 64
      ensures Bit(generation, j) == Bit(0, j)
    {
      NextSaltBits(salt, generation, j / 8, j % 8);
      ZeroBit(j);
      assert 8 * (j / 8 % 8) + j % 8 == j;
    }
    Shl1At32();
    ShlTwice(1, 32, 32);
    ShlProduct(0x1_0000_0000, 32);
    SameBits(generation, 0, 64);
  }

  predicate PasswordOk(password: seq<byte>) { |password| <= PASSWORD_MAX }

  /** `make_record` */
  function MakeRecord(password: seq<byte>, salt: seq<byte>, generation: nat, temporary: bool): (r: AccountRecord)
    requires PasswordOk(password) && |salt| == 16 && generation < B64
    ensures Fits(r)
  {
    AccountRecord(generation, salt, Sha256.Digest(salt + password), if temporary then FLAG_TEMPORARY else 0)
  }

  /** `password_matches` */
  predicate PasswordMatches(r: AccountRecord, password: seq<byte>)
    requires PasswordOk(password) && Fits(r)
  {
    Sha256.Digest(r.salt + password) == r.verifier
  }

  /** The record that a change makes active after `r`; the generation is a 64-bit counter. */
  function Next(r: AccountRecord, password: seq<byte>): (n: AccountRecord)
    requires Fits(r) && PasswordOk(password)
    ensures Fits(n)
  {
    var generation := (r.generation + 1) % B64;
    MakeRecord(password, NextSalt(r.salt, generation), generation, false)
  }

  /** What `quanta_account_verify` answers. */
  predicate Accepts(s: Slots, password: seq<byte>) {
    && Sized(s)
    && PasswordOk(password)
    && Shown(s).Some?
    && PasswordMatches(Fields(Slot(s, Shown(s).value)), password)
  }

  /** The slots after the one sector write of `quanta_account_change`. */
  function Changed(s: Slots, password: seq<byte>): (t: Slots)
    requires Sized(s) && Selected(s).Some? && PasswordOk(password)
    ensures Sized(t)
  {
    var record := Encode(Next(ActiveRecord(s), password));
    if Selected(s).value then s.(first := record) else s.(second := record)
  }

  lemma ChangedSlots(s: Slots, password: seq<byte>)
    requires InUse(s) && PasswordOk(password)
    ensures var t, active := Changed(s, password), Selected(s).value;
            && RecordValid(Slot(t, !active)) && Fields(Slot(t, !active)) == Next(ActiveRecord(s), password)
            && Slot(t, active) == Slot(s, active) && RecordValid(Slot(s, active))
            && Generation(Slot(t, !active)) == (ActiveRecord(s).generation + 1) % B64
  {
    var next := Next(ActiveRecord(s), password);
    DecodeEncode(next);
    DecodedFields(Encode(next));
    hide Encode;
    hide RecordValid;
    hide Decode;
    hide NextSalt;
    hide Sha256.Digest;
  }

  /** `t` has `record` in the slot that is not active in `s`, and it is the active record of `t`. */
  predicate Succeeds(s: Slots, t: Slots, record: AccountRecord): (succeeds: bool)
    ensures succeeds ==> InUse(s) && InUse(t) && Selected(t) == Some(!Selected(s).value) && ActiveRecord(t) == record
  {
    && InUse(s)
    && InUse(t)
    && Selected(t) == Some(!Selected(s).value)
    && ActiveRecord(t) == record
    && Slot(t, Selected(s).value) == Slot(s, Selected(s).value)
  }

  /** A change replaces the active record by its successor for the new password, in the other slot;
      unless the generation counter wraps. */
  lemma ChangeActivates(s: Slots, password: seq<byte>)
    requires InUse(s) && PasswordOk(password) && ActiveRecord(s).generation < B64 - 1
    ensures Succeeds(s, Changed(s, password), Next(ActiveRecord(s), password))
  {
    hide Encode;
    hide RecordValid;
    hide HasMagic;
    hide Next;
    hide U64;
    hide U16;
    ChangedSlots(s, password);
    hide Changed;
  }

  /** From then on the new password is accepted. */
  lemma ChangeAccepted(s: Slots, t: Slots, password: seq<byte>)
    requires PasswordOk(password) && InUse(s) && Succeeds(s, t, Next(ActiveRecord(s), password))
    ensures Accepts(t, password)
  {
    hide RecordValid;
    hide Next;
    hide PasswordMatches;
    hide Fields;
    SelectionsAgree(t);
    NextMatches(ActiveRecord(s), password);
    hide Selected;
    hide Shown;
  }

  lemma NextMatches(r: AccountRecord, password: seq<byte>)
    requires Fits(r) && PasswordOk(password)
    ensures PasswordMatches(Next(r, password), password)
    ensures Next(r, password).generation == (r.generation + 1) % B64
  {
    hide Sha256.Digest;
    hide NextSalt;
  }

  lemma DecodedFields(data: seq<byte>)
    requires Decode(data).Some?
    ensures |data| == RECORD_SIZE && Decode(data).value == Fields(data)
  {
  }

  /** At the largest generation the successor wraps to generation zero: the old record stays active. */
  lemma ChangeWraps(s: Slots, password: seq<byte>)
    requires InUse(s) && PasswordOk(password) && ActiveRecord(s).generation == B64 - 1
    ensures InUse(Changed(s, password))
    ensures ActiveRecord(Changed(s, password)) == ActiveRecord(s)
    ensures Selected(Changed(s, password)) == Selected(s)
  {
    hide Encode;
    hide RecordValid;
    hide HasMagic;
    hide Next;
    hide U64;
    hide U16;
    ChangedSlots(s, password);
    hide Changed;
  }

  lemma ChangeKeepsInUse(s: Slots, password: seq<byte>)
    requires InUse(s) && PasswordOk(password)
    ensures InUse(Changed(s, password))
  {
    hide Changed;
    hide InUse;
    hide Selected;
    hide ActiveRecord;
    if ActiveRecord(s).generation < B64 - 1 { ChangeActivates(s, password); } else { ChangeWraps(s, password); }
  }

  // ---------------------------------------------------------------------------------------------
  // Runs
  // ---------------------------------------------------------------------------------------------

  /** One call of `quanta_account_change`: its sector write happened or it did not. */
  datatype Attempt = Attempt(password: seq<byte>, written: bool)

  predicate AttemptsOk(attempts: seq<Attempt>) {
    forall i :: 0 <= i < |attempts| ==> PasswordOk(attempts[i].password)
  }

  function Writes(attempts: seq<Attempt>): (n: nat)
    ensures n <= |attempts|
  {
    if attempts == [] then 0
    else Writes(attempts[..|attempts| - 1]) + if attempts[|attempts| - 1].written then 1 else 0
  }

  /** The slots after all attempts. */
  function After(s: Slots, attempts: seq<Attempt>): (t: Slots)
    requires InUse(s) && AttemptsOk(attempts)
    ensures InUse(t)
  {
    if attempts == [] then s
    else
      var before, last := After(s, attempts[..|attempts| - 1]), attempts[|attempts| - 1];
      if last.written then
        ChangeKeepsInUse(before, last.password);
        Changed(before, last.password)
      else before
  }

  /** Over any run of attempts, wherever power was lost: the generation counts the writes, the active
      slot alternates with them, and every write left the previous record in the other slot and made
      its own password the accepted one. */
  lemma {:induction false} RunOk(s: Slots, attempts: seq<Attempt>)
    requires InUse(s) && AttemptsOk(attempts)
    requires ActiveRecord(s).generation + Writes(attempts) < B64
    ensures ActiveRecord(After(s, attempts)).generation == ActiveRecord(s).generation + Writes(attempts)
    ensures Selected(After(s, attempts)) == Some(Selected(s).value != (Writes(attempts) % 2 == 1))
    ensures attempts != [] && attempts[|attempts| - 1].written ==>
              LastWrite(After(s, attempts[..|attempts| - 1]), After(s, attempts), attempts[|attempts| - 1].password)
  {
    hide ActiveRecord;
    hide Selected;
    hide Changed;
    hide LastWrite;
    hide InUse;
    if attempts != [] {
      var init, last := attempts[..|attempts| - 1], attempts[|attempts| - 1];
      RunOk(s, init);
      if last.written { 
        WriteOk(After(s, init), last.password);
        WriteCounts(After(s, init), After(s, attempts), last.password);
      }
    }
  }

  /** What holds after a write: the active record is the successor of the one before, for the new
      password; the other slot decodes to the one before; the password is accepted; and the host
      chooses the same record. */
  predicate LastWrite(before: Slots, after: Slots, password: seq<byte>) {
    && PasswordOk(password)
    && InUse(before)
    && Succeeds(before, after, Next(ActiveRecord(before), password))
    && Decode(Slot(after, !Selected(after).value)) == Some(ActiveRecord(before))
    && Accepts(after, password)
    && ChooseRecord([after.first, after.second]) == Some(ActiveRecord(after))
  }

  lemma PreviousKept(before: Slots, after: Slots, record: AccountRecord)
    requires Succeeds(before, after, record)
    ensures Decode(Slot(after, !Selected(after).value)) == Some(ActiveRecord(before))
  {
    var kept := Slot(before, Selected(before).value);
    EncodeDecode(kept);
    assert RecordValid(kept);
    hide Encode;
    hide RecordValid;
    hide HasMagic;
    hide Decode;
    DecodedFields(kept);
  }

  lemma WriteOk(before: Slots, password: seq<byte>)
    requires InUse(before) && PasswordOk(password) && ActiveRecord(before).generation < B64 - 1
    ensures LastWrite(before, Changed(before, password), password)
  {
    var after := Changed(before, password);
    hide Encode;
    hide Changed;
    hide Accepts;
    hide Next;
    hide Decode;
    hide ChooseRecord;
    hide InUse;
    hide Succeeds;
    hide ActiveRecord;
    hide Selected;
    hide Slot;
    hide Sha256.Digest;
    hide NextSalt;
    hide SlotsOk;
    hide RecordValid;
    hide Shown;
    hide PasswordMatches;
    hide Fields;
    ChangeActivates(before, password);
    ChangeAccepted(before, after, password);
    PreviousKept(before, after, Next(ActiveRecord(before), password));
    HostAgrees(after);
  }

  lemma WriteCounts(before: Slots, after: Slots, password: seq<byte>)
    requires LastWrite(before, after, password) && ActiveRecord(before).generation < B64 - 1
    ensures InUse(after) && Selected(after) == Some(!Selected(before).value)
    ensures ActiveRecord(after).generation == ActiveRecord(before).generation + 1
  {
    hide Sha256.Digest;
    hide NextSalt;
    hide Accepts;
    hide Succeeds;
    hide ActiveRecord;
    hide Selected;
    hide InUse;
    hide Decode;
    hide ChooseRecord;
  }

  lemma HostAgrees(s: Slots)
    requires InUse(s)
    ensures ChooseRecord([s.first, s.second]) == Some(ActiveRecord(s))
  {
    SelectionsAgree(s);
    hide ChooseRecord;
    hide Selected;
    hide ActiveRecord;
  }

  // ---------------------------------------------------------------------------------------------
  // The layout of a record
  // ---------------------------------------------------------------------------------------------

  function RecordFields(r: AccountRecord, checksum: nat, rest: seq<byte>): seq<Field> {
    [Raw(Chars("QACCOUNT")), Number(2, 1), Number(2, r.flags), Number(8, r.generation), Raw(r.salt), Raw(r.verifier),
     Number(4, checksum), Raw(rest)]
  }

  lemma RecordFieldsAre(r: AccountRecord, checksum: nat, rest: seq<byte>)
    ensures var f := RecordFields(r, checksum, rest);
            && |f| == 8
            && f[0] == Raw(MAGIC) && f[1] == Number(2, VERSION) && f[2] == Number(2, r.flags)
            && f[3] == Number(8, r.generation) && f[4] == Raw(r.salt) && f[5] == Raw(r.verifier)
            && f[6] == Number(4, checksum) && f[7] == Raw(rest)
  {
    MagicIs();
  }

  /** A valid record is the packed record "<8sHHQ16s32sI" of its fields, sealed with the checksum of
      what stands before it. */
  lemma RecordLayout(data: seq<byte>)
    requires |data| == RECORD_SIZE && RecordValid(data)
    ensures Record(data, RecordFields(Fields(data), Crc(data[..68]), data[72..512]))
  {
    hide U16;
    hide U32;
    hide U64;
    hide Record;
    hide Crc;
    hide RecordFields;
    RecordFieldsAre(Fields(data), Crc(data[..68]), data[72..512]);
    var f := RecordFields(Fields(data), Crc(data[..68]), data[72..512]);
    RecordEnd(data, f);
    AtRaw(data, f, 7, 72, 512);
    At32(data, f, 6, 68, 72);
    AtRaw(data, f, 5, 36, 68);
    AtRaw(data, f, 4, 20, 36);
    At64(data, f, 3, 12, 20);
    At16(data, f, 2, 10, 12);
    At16(data, f, 1, 8, 10);
    assert data[..8] == data[0..8];
    AtRaw(data, f, 0, 0, 8);
    assert data[0..] == data && f[0..] == f;
  }

  lemma MagicIs()
    ensures MAGIC == Chars("QACCOUNT")
  {
  }
}
