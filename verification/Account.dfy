/** The account driver of kernel/core/account.c over a block device. */
module AccountDriver {
  import opened Bits
  import opened Bytes
  import opened Crc32
  import opened Options
  import opened Device
  import opened AccountRecords
  import Sha256

  const ACCOUNT_LBA: nat := 512

  /** `equal`: the same for every pair of inputs of one length. */
  method Equal(a: seq<byte>, b: seq<byte>, length: nat) returns (same: bool)
    requires length <= |a| && length <= |b|
    ensures same <==> a[..length] == b[..length]
  {
    var difference: nat := 0;
    var i := 0;
    while i < length
      invariant 0 <= i <= length
      invariant difference == 0 <==> a[..i] == b[..i]
    {
      ByteXor(a[i], b[i]);
      XorSelf(a[i]);
      OrZero(difference, Xor(a[i], b[i]));
      assert a[..i + 1] == a[..i] + [a[i]] && b[..i + 1] == b[..i] + [b[i]];
      difference := Or(difference, Xor(a[i], b[i]));
      i := i + 1;
    }
    same := difference == 0;
  }

  lemma OrZero(a: nat, b: nat)
    ensures Or(a, b) == 0 <==> a == 0 && b == 0
  {
    if a != 0 && b != 0 { OrPositive(a, b); }
  }

  lemma {:induction false} OrPositive(a: nat, b: nat)
    requires a != 0 && b != 0
    ensures Or(a, b) != 0
  {
    if a % 2 == 0 && b % 2 == 0 { OrPositive(a / 2, b / 2); }
  }

  method CheckRecord(record: seq<byte>) returns (valid: bool)
    requires |record| == RECORD_SIZE
    ensures valid <==> RecordValid(record)
  {
    var crc := Checksum(record, 68);
    hide Crc;
    hide U32;
    valid := record[0] == 0x51 && record[1] == 0x41 && record[2] == 0x43 && record[3] == 0x43
             && record[4] == 0x4f && record[5] == 0x55 && record[6] == 0x4e && record[7] == 0x54
             && U16(record[8..10]) == VERSION && U32(record[68..72]) == crc;
  }

  /** A field store into a record buffer. */
  method Store(record: array<byte>, at: nat, data: seq<byte>)
    requires at + |data| <= record.Length
    modifies record
    ensures record[..] == Splice(old(record[..]), at, data)
  {
    var index := 0;
    while index < |data|
      invariant 0 <= index <= |data|
      invariant record[..at] == old(record[..at])
      invariant record[at..at + index] == data[..index]
      invariant record[at + index..] == old(record[at + index..])
    {
      record[at + index] := data[index];
      index := index + 1;
    }
    assert record[..] == record[..at] + record[at..at + |data|] + record[at + |data|..];
  }

  /** The hash input: a salt followed by the password. */
  method Salted(salt: seq<byte>, password: seq<byte>) returns (digest: seq<byte>)
    requires |salt| == 16 && PasswordOk(password)
    ensures digest == Sha256.Digest(salt + password)
  {
    var input := new byte[80];
    Store(input, 0, salt);
    Store(input, 16, password);
    hide Sha256.Digest;
    digest := Sha256.Hash(input[..], 16 + |password|);
    assert input[..][..16 + |password|] == salt + password;
  }

  method MixSalt(salt: seq<byte>, generation: nat) returns (mixed: seq<byte>)
    requires |salt| == 16 && generation < B64
    ensures mixed == NextSalt(salt, generation)
  {
    mixed := [];
    var index := 0;
    while index < 16
      invariant 0 <= index <= 16
      invariant mixed == NextSalt(salt, generation)[..index]
    {
      Le64Byte(generation, index % 8);
      ByteXor(salt[index], Shr(generation, index % 8 * 8) % 256);
      mixed := mixed + [Xor(salt[index], Shr(generation, index % 8 * 8) % 256)];
      index := index + 1;
    }
  }

  lemma FillNext(done: seq<byte>, rest: nat, data: seq<byte>)
    requires |data| <= rest
    ensures Splice(done + Zeros(rest), |done|, data) == done + data + Zeros(rest - |data|)
    ensures done == [] ==> done + Zeros(rest) == Zeros(rest) && done + data == data
  {
  }

  lemma RecordParts(r: AccountRecord)
    requires Fits(r)
    ensures Header(r) == MAGIC + Le16(VERSION) + Le16(r.flags) + Le64(r.generation) + r.salt + r.verifier
            && |Header(r)| == 68
    ensures Encode(r) == Header(r) + Le32(Crc(Header(r))) + Zeros(RECORD_SIZE - 72)
  {
  }

  /** The next field, behind what is filled in already. */
  method Append(buffer: array<byte>, at: nat, data: seq<byte>, ghost done: seq<byte>)
    requires buffer.Length == RECORD_SIZE && at == |done| && at + |data| <= RECORD_SIZE
             && buffer[..] == done + Zeros(RECORD_SIZE - at)
    modifies buffer
    ensures buffer[..] == done + data + Zeros(RECORD_SIZE - at - |data|)
  {
    hide Splice;
    FillNext(done, RECORD_SIZE - at, data);
    Store(buffer, at, data);
  }

  /** The fields in front of the checksum. */
  method FillHeader(buffer: array<byte>, generation: nat, salt: seq<byte>, digest: seq<byte>)
    requires generation < B64 && |salt| == 16 && |digest| == 32 && buffer.Length == RECORD_SIZE
             && buffer[..] == Zeros(RECORD_SIZE)
    modifies buffer
    ensures buffer[..] == Header(AccountRecord(generation, salt, digest, 0)) + Zeros(444)
  {
    hide Le16;
    hide Le64;
    hide Zeros;
    hide Header;
    hide Encode;
    RecordParts(AccountRecord(generation, salt, digest, 0));
    assert [] + Zeros(RECORD_SIZE) == Zeros(RECORD_SIZE);
    Append(buffer, 0, MAGIC, []);
    assert [] + MAGIC == MAGIC;
    Append(buffer, 8, Le16(VERSION), MAGIC);
    Append(buffer, 10, Le16(0), MAGIC + Le16(VERSION));
    Append(buffer, 12, Le64(generation), MAGIC + Le16(VERSION) + Le16(0));
    Append(buffer, 20, salt, MAGIC + Le16(VERSION) + Le16(0) + Le64(generation));
    Append(buffer, 36, digest, MAGIC + Le16(VERSION) + Le16(0) + Le64(generation) + salt);
  }

  /** The 512-byte buffer that `quanta_account_change` fills for the next record. */
  method BuildRecord(generation: nat, salt: seq<byte>, digest: seq<byte>) returns (record: seq<byte>)
    requires generation < B64 && |salt| == 16 && |digest| == 32
    ensures record == Encode(AccountRecord(generation, salt, digest, 0))
  {
    hide Crc;
    hide Le32;
    hide Header;
    hide Encode;
    ghost var r := AccountRecord(generation, salt, digest, 0);
    RecordParts(r);
    var buffer := new byte[RECORD_SIZE](_ => 0);
    assert buffer[..] == Zeros(RECORD_SIZE);
    FillHeader(buffer, generation, salt, digest);
    var crc := Checksum(buffer[..], 68);
    assert buffer[..][..68] == Header(r);
    Append(buffer, 68, Le32(crc), Header(r));
    record := buffer[..];
  }

  class AccountStore {
    const device: BlockDevice

    constructor (device: BlockDevice)
      ensures this.device == device
    {
      this.device := device;
    }

    /** The two account sectors, when the device has them. */
    ghost function Stored(): (s: Option<Slots>)
      requires device.Valid()
      reads device
      ensures s.Some? ==> Sized(s.value)
    {
      SlotsOf(device.Image())
    }

    method ReadSlots() returns (ok: bool, first: seq<byte>, second: seq<byte>)
      requires device.Valid()
      modifies device`faults
      ensures device.Valid() && device.Image() == old(device.Image())
      ensures old(device.Healthy()) ==> device.Healthy() && (ok <==> Stored().Some?)
      ensures ok ==> Stored() == Some(Slots(first, second))
    {
      first, second := [], [];
      ok, first := device.Read(ACCOUNT_LBA);
      if !ok { return; }
      ok, second := device.Read(ACCOUNT_LBA + 1);
    }

    /** `quanta_account_verify`: on a device without faults the answer is exactly `Accepts`; with
        faults a refusal may also mean that a sector could not be read. */
    method Verify(password: seq<byte>) returns (ok: bool, temporary: nat)
      requires device.Valid()
      modifies device`faults
      ensures device.Valid() && device.Image() == old(device.Image())
      ensures old(device.Healthy()) ==>
                device.Healthy() && (ok <==> Stored().Some? && Accepts(Stored().value, password))
      ensures ok ==> Stored().Some? && Accepts(Stored().value, password)
      ensures ok ==> temporary == Fields(Slot(Stored().value, Shown(Stored().value).value)).flags % 2
    {
      hide Sha256.Digest;
      hide Shown;
      hide SlotsOf;
      hide U64;
      ok, temporary := false, 0;
      if |password| > 64 { return; }
      var read, first, second := ReadSlots();
      if !read { return; }
      var shown, record := PickShown(first, second);
      if !shown { return; }
      var digest := Salted(record[20..36], password);
      FlagBit(record);
      temporary := And(record[10], FLAG_TEMPORARY);
      ok := Equal(digest, record[36..68], 32);
      assert digest[..32] == digest && record[36..68][..32] == record[36..68];
    }

    /** The read-back check of `quanta_account_change`. */
    method Confirm(target: nat, ghost next: AccountRecord, generation: nat, digest: seq<byte>) returns (ok: bool)
      requires device.Valid() && Fits(next) && generation == next.generation && digest == next.verifier
      requires (target + 1) * SECTOR_SIZE <= |device.Image()|
      requires device.Image()[target * SECTOR_SIZE..(target + 1) * SECTOR_SIZE] == Encode(next)
      modifies device`faults
      ensures device.Valid() && device.Image() == old(device.Image())
      ensures old(device.Healthy()) ==> device.Healthy() && ok
    {
      hide Encode;
      hide Decode;
      hide RecordValid;
      hide U64;
      DecodeEncode(next);
      DecodedFields(Encode(next));
      var read, back := device.Read(target);
      if !read { return false; }
      var valid := CheckRecord(back);
      if !valid || U64(back[12..20]) != generation { return false; }
      ok := Equal(back[36..68], digest, 32);
    }

    /** `quanta_account_change`.  Whatever happens, the device holds what it held before or, in the two
        account sectors, exactly the changed slots, and nothing else is touched; so a stop at any point
        leaves a complete old or a complete new active record.  Without faults it succeeds exactly when
        the password has a usable length, there is a valid record, and the written slots accept it. */
    method Change(password: seq<byte>) returns (ok: bool)
      requires device.Valid()
      modifies device
      ensures device.Valid()
              && (device.Image() == old(device.Image()) || Replaced(old(device.Image()), device.Image(), password))
      ensures ok ==> Replaced(old(device.Image()), device.Image(), password) && Accepts(Stored().value, password)
      ensures old(device.Healthy()) ==>
                device.Healthy()
                && (ok <==> CanChange(old(device.Image()), password)
                            && Accepts(NewSlots(old(device.Image()), password), password))
    {
      ghost var image := device.Image();
      if |password| == 0 || |password| > 64 { return false; }
      var read, first, second := ReadSlots();
      if !read { return false; }
      var found, target, generation, digest, record := Prepare(first, second, password);
      if !found { return false; }
      assert CanChange(image, password);
      hide Encode;
      hide Next;
      hide Selected;
      hide ActiveRecord;
      hide Accepts;
      hide CanChange;
      TargetInside(image, password);
      var written := device.Write(target, record);
      if !written { return false; }
      WriteReplaces(image, device.Image(), password);
      hide NewSlots;
      hide Replaced;
      var confirmed := Confirm(target, Next(ActiveRecord(Slots(first, second)), password), generation, digest);
      if !confirmed { return false; }
      var accepted, _ := Verify(password);
      ok := accepted;
    }

    /** Any sequence of password changes under any schedule of faults: the two sectors go through the run
        of the attempts whose sector write happened, and a change that succeeds is one of them. */
    method Session(passwords: seq<seq<byte>>) returns (results: seq<bool>, ghost attempts: seq<Attempt>)
      requires device.Valid() && Stored().Some? && InUse(Stored().value)
      modifies device
      ensures device.Valid() && |results| == |attempts| == |passwords| && AttemptsOk(attempts)
      ensures Stored() == Some(After(old(Stored()).value, attempts))
      ensures forall i :: 0 <= i < |passwords| && (results[i] || attempts[i].written) ==>
                attempts[i] == Attempt(passwords[i], true)
    {
      hide InUse;
      hide Changed;
      hide Replaced;
      hide Selected;
      hide Accepts;
      hide SlotsOf;
      results, attempts := [], [];
      while |results| < |passwords|
        invariant |results| == |attempts| <= |passwords| && device.Valid() && AttemptsOk(attempts)
        invariant Stored() == Some(After(old(Stored()).value, attempts))
        invariant forall i :: 0 <= i < |results| && (results[i] || attempts[i].written) ==>
                    attempts[i] == Attempt(passwords[i], true)
      {
        ghost var image := device.Image();
        var password := passwords[|results|];
        var ok := Change(password);
        ghost var attempt := if Replaced(image, device.Image(), password) then Attempt(password, true)
                             else Attempt([], false);
        if attempt.written { ReplacedSlots(image, device.Image(), password); }
        assert (attempts + [attempt])[..|attempts|] == attempts;
        results, attempts := results + [ok], attempts + [attempt];
      }
    }
  }

  lemma FlagBit(record: seq<byte>)
    requires |record| == RECORD_SIZE
    ensures And(record[10], FLAG_TEMPORARY) == Fields(record).flags % 2
  {
    var low: nat := record[10];
    assert And(low / 2, FLAG_TEMPORARY / 2) == 0;
  }

  /** The slot selection of `quanta_account_verify`. */
  method PickShown(first: seq<byte>, second: seq<byte>) returns (shown: bool, record: seq<byte>)
    requires |first| == |second| == RECORD_SIZE
    ensures shown <==> Shown(Slots(first, second)).Some?
    ensures shown ==> record == Slot(Slots(first, second), Shown(Slots(first, second)).value)
  {
    hide U64;
    record := first;
    var generation, other: nat := 0, 0;
    if first[..8] == MAGIC { generation := U64(first[12..20]); }
    if second[..8] == MAGIC { other := U64(second[12..20]); }
    if other > generation {
      record := second;
      generation := other;
    }
    shown := generation != 0;
  }

  /** The part of `quanta_account_change` between reading the slots and writing one. */
  method Prepare(first: seq<byte>, second: seq<byte>, password: seq<byte>)
    returns (found: bool, target: nat, generation: nat, digest: seq<byte>, record: seq<byte>)
    requires |first| == |second| == RECORD_SIZE && PasswordOk(password)
    ensures found <==> Selected(Slots(first, second)).Some?
    ensures found ==>
              var s := Slots(first, second);
              var next := Next(ActiveRecord(s), password);
              && target == (if Selected(s).value then ACCOUNT_LBA else ACCOUNT_LBA + 1)
              && generation == next.generation && digest == next.verifier
              && record == Encode(next)
  {
    found, target, generation, digest, record := false, 0, 0, [], [];
    var valid1 := CheckRecord(first);
    var valid2 := CheckRecord(second);
    hide RecordValid;
    hide U64;
    hide Next;
    hide Encode;
    if !valid1 && !valid2 { return; }
    found := true;
    var useSecond := !valid1 || (valid2 && U64(second[12..20]) > U64(first[12..20]));
    var active := if useSecond then second else first;
    target := if useSecond then ACCOUNT_LBA else ACCOUNT_LBA + 1;
    generation, digest, record := NextRecord(active, password);
  }

  method NextRecord(active: seq<byte>, password: seq<byte>)
    returns (generation: nat, digest: seq<byte>, record: seq<byte>)
    requires |active| == RECORD_SIZE && PasswordOk(password)
    ensures var next := Next(Fields(active), password);
            generation == next.generation && digest == next.verifier && record == Encode(next)
  {
    hide U64;
    hide Sha256.Digest;
    hide NextSalt;
    hide Encode;
    generation := (U64(active[12..20]) + 1) % B64;
    var salt := MixSalt(active[20..36], generation);
    digest := Salted(salt, password);
    record := BuildRecord(generation, salt, digest);
  }

  function SlotsOf(image: seq<byte>): (s: Option<Slots>)
    ensures s.Some? ==> Sized(s.value)
  {
    if |image| < (ACCOUNT_LBA + 2) * SECTOR_SIZE then None
    else
      Some(Slots(image[ACCOUNT_LBA * SECTOR_SIZE..(ACCOUNT_LBA + 1) * SECTOR_SIZE],
                 image[(ACCOUNT_LBA + 1) * SECTOR_SIZE..(ACCOUNT_LBA + 2) * SECTOR_SIZE]))
  }

  predicate CanChange(image: seq<byte>, password: seq<byte>) {
    0 < |password| <= PASSWORD_MAX && SlotsOf(image).Some? && Selected(SlotsOf(image).value).Some?
  }

  function NewSlots(image: seq<byte>, password: seq<byte>): (t: Slots)
    requires CanChange(image, password)
    ensures Sized(t)
  {
    Changed(SlotsOf(image).value, password)
  }

  /** `after` is `before` with the account slots changed for `password`, and nothing else. */
  predicate Replaced(before: seq<byte>, after: seq<byte>, password: seq<byte>) {
    && CanChange(before, password)
    && |after| == |before|
    && SlotsOf(after) == Some(NewSlots(before, password))
    && forall i :: 0 <= i < |before| && !(ACCOUNT_LBA * SECTOR_SIZE <= i < (ACCOUNT_LBA + 2) * SECTOR_SIZE) ==>
         after[i] == before[i]
  }

  function Target(s: Slots): nat
    requires Sized(s) && Selected(s).Some?
  {
    if Selected(s).value then ACCOUNT_LBA else ACCOUNT_LBA + 1
  }

  lemma TargetInside(image: seq<byte>, password: seq<byte>)
    requires CanChange(image, password)
    ensures (Target(SlotsOf(image).value) + 1) * SECTOR_SIZE <= |image|
  {
  }

  lemma ReplacedSlots(before: seq<byte>, after: seq<byte>, password: seq<byte>)
    requires Replaced(before, after, password)
    ensures SlotsOf(before).Some? && Selected(SlotsOf(before).value).Some? && PasswordOk(password)
    ensures SlotsOf(after) == Some(Changed(SlotsOf(before).value, password))
  {
    hide SlotsOf;
    hide Changed;
    hide Selected;
  }

  lemma WriteReplaces(before: seq<byte>, after: seq<byte>, password: seq<byte>)
    requires CanChange(before, password)
    requires (Target(SlotsOf(before).value) + 1) * SECTOR_SIZE <= |before|
    requires after == Splice(before, Target(SlotsOf(before).value) * SECTOR_SIZE,
                             Encode(Next(ActiveRecord(SlotsOf(before).value), password)))
    ensures Replaced(before, after, password)
  {
    var s := SlotsOf(before).value;
    var record := Encode(Next(ActiveRecord(s), password));
    hide Encode;
    hide Next;
    hide ActiveRecord;
    hide Selected;
    var at := Target(s) * SECTOR_SIZE;
    SpliceAt(before, at, record);
    if Selected(s).value {
      SpliceElsewhere(before, at, record, (ACCOUNT_LBA + 1) * SECTOR_SIZE, (ACCOUNT_LBA + 2) * SECTOR_SIZE);
    } else {
      SpliceElsewhere(before, at, record, ACCOUNT_LBA * SECTOR_SIZE, (ACCOUNT_LBA + 1) * SECTOR_SIZE);
    }
    hide Splice;
  }

  /** On a store in use and a device without faults, a change with a password of usable length
      succeeds, unless the generation counter is at its end: then it succeeds only if the new password
      happens to match the record that stays active. */
  lemma ChangeOutcome(image: seq<byte>, password: seq<byte>)
    requires SlotsOf(image).Some? && InUse(SlotsOf(image).value) && 0 < |password| <= PASSWORD_MAX
    ensures CanChange(image, password)
    ensures Accepts(NewSlots(image, password), password) <==>
            var active := ActiveRecord(SlotsOf(image).value);
            active.generation < B64 - 1 || PasswordMatches(active, password)
  {
    var s := SlotsOf(image).value;
    assert Fits(ActiveRecord(s));
    hide InUse;
    hide Selected;
    hide ActiveRecord;
    if ActiveRecord(s).generation < B64 - 1 {
      ChangeActivates(s, password);
      ChangeAccepted(s, Changed(s, password), password);
    } else {
      ChangeWraps(s, password);
      InUseAccepts(Changed(s, password), password);
    }
  }

  lemma InUseAccepts(s: Slots, password: seq<byte>)
    requires InUse(s) && PasswordOk(password)
    ensures Accepts(s, password) <==> PasswordMatches(ActiveRecord(s), password)
  {
    SelectionsAgree(s);
    hide Shown;
    hide Selected;
    hide RecordValid;
    hide PasswordMatches;
  }
}
