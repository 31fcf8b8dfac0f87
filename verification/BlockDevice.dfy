/** The block device below the file systems: 512-byte sectors, and a schedule of which of the
    coming transfers fail. */
module Device {
  import opened Bytes

  const SECTOR_SIZE: nat := 512

  predicate SectorSized(sectors: seq<seq<byte>>) {
    forall i :: 0 <= i < |sectors| ==> |sectors[i]| == SECTOR_SIZE
  }

  /** All sectors laid end to end. */
  ghost function Flat(sectors: seq<seq<byte>>): (r: seq<byte>)
    requires SectorSized(sectors)
    ensures |r| == |sectors| * SECTOR_SIZE
  {
    seq(|sectors| * SECTOR_SIZE,
        i requires 0 <= i < |sectors| * SECTOR_SIZE => sectors[i / SECTOR_SIZE][i % SECTOR_SIZE])
  }

  lemma FlatAt(sectors: seq<seq<byte>>, i: nat)
    requires SectorSized(sectors) && i < |Flat(sectors)|
    ensures Flat(sectors)[i] == sectors[i / SECTOR_SIZE][i % SECTOR_SIZE]
  {
  }

  lemma FlatSlice(sectors: seq<seq<byte>>, lba: nat)
    requires SectorSized(sectors) && lba < |sectors|
    ensures (lba + 1) * SECTOR_SIZE <= |Flat(sectors)|
    ensures Flat(sectors)[lba * SECTOR_SIZE..(lba + 1) * SECTOR_SIZE] == sectors[lba]
  {
    var f := Flat(sectors);
    forall i | 0 <= i < SECTOR_SIZE
      ensures f[lba * SECTOR_SIZE + i] == sectors[lba][i]
    {
      assert (lba * SECTOR_SIZE + i) / SECTOR_SIZE == lba && (lba * SECTOR_SIZE + i) % SECTOR_SIZE == i;
      FlatAt(sectors, lba * SECTOR_SIZE + i);
    }
  }

  lemma FlatUpdate(sectors: seq<seq<byte>>, lba: nat, data: seq<byte>)
    requires SectorSized(sectors) && lba < |sectors| && |data| == SECTOR_SIZE
    ensures (lba + 1) * SECTOR_SIZE <= |Flat(sectors)|
    ensures Flat(sectors[lba := data]) == Splice(Flat(sectors), lba * SECTOR_SIZE, data)
  {
    var f, g := Flat(sectors), Flat(sectors[lba := data]);
    var h := Splice(f, lba * SECTOR_SIZE, data);
    forall i | 0 <= i < |f|
      ensures g[i] == h[i]
    {
      SpliceByte(f, lba, data, i);
      FlatAt(sectors, i);
      FlatAt(sectors[lba := data], i);
    }
  }

  /** Whether the next transfer fails on its own account, and the schedule after it. */
  predicate FailsNext(faults: seq<bool>) { faults != [] && faults[0] }

  function Later(faults: seq<bool>): seq<bool> { if faults == [] then [] else faults[1..] }

  /** None of the next `n` transfers fails on its own account. */
  predicate Clear(faults: seq<bool>, n: nat) {
    n == 0 || (!FailsNext(faults) && Clear(Later(faults), n - 1))
  }

  /** The schedule after up to `n` transfers of which the first that fails is the last. */
  function Remaining(faults: seq<bool>, n: nat): seq<bool> {
    if n == 0 then faults else if FailsNext(faults) then Later(faults) else Remaining(Later(faults), n - 1)
  }

  predicate FaultFree(faults: seq<bool>) { forall i :: 0 <= i < |faults| ==> !faults[i] }

  /** Transfer `i` fails and no other does. */
  predicate Lone(faults: seq<bool>, i: nat) {
    i < |faults| && faults[i] && forall k :: 0 <= k < |faults| && k != i ==> !faults[k]
  }

  /** After some transfers `m` of `n` are left: the schedule was `was` at first and is `now`. */
  predicate Due(was: seq<bool>, n: nat, now: seq<bool>, m: nat) {
    (Clear(was, n) <==> Clear(now, m)) && Remaining(was, n) == Remaining(now, m)
  }

  lemma DueStart(faults: seq<bool>, n: nat)
    ensures Due(faults, n, faults, n)
  {
  }

  lemma DueNext(was: seq<bool>, n: nat, now: seq<bool>, m: nat)
    requires Due(was, n, now, m) && m > 0
    ensures if FailsNext(now) then !Clear(was, n) && Remaining(was, n) == Later(now) else Due(was, n, Later(now), m - 1)
  {
  }

  lemma DueStretch(was: seq<bool>, n: nat, now: seq<bool>, a: nat, b: nat)
    requires Due(was, n, now, a + b)
    ensures if Clear(now, a) then Due(was, n, Remaining(now, a), b)
            else !Clear(was, n) && Remaining(was, n) == Remaining(now, a)
  {
    ClearSum(now, a, b);
  }

  lemma DueEnd(was: seq<bool>, n: nat, now: seq<bool>)
    requires Due(was, n, now, 0)
    ensures Clear(was, n) && Remaining(was, n) == now
  {
  }

  /** Transfers in two stretches, the second of which takes place when the first has succeeded. */
  lemma {:induction false} ClearSum(faults: seq<bool>, a: nat, b: nat)
    ensures Clear(faults, a + b) <==> Clear(faults, a) && Clear(Remaining(faults, a), b)
    ensures Remaining(faults, a + b) == if Clear(faults, a) then Remaining(Remaining(faults, a), b)
                                        else Remaining(faults, a)
    decreases a
  {
    if a > 0 && !FailsNext(faults) { ClearSum(Later(faults), a - 1, b); }
  }

  lemma {:induction false} FaultFreeClear(faults: seq<bool>, n: nat)
    requires FaultFree(faults)
    ensures Clear(faults, n) && FaultFree(Remaining(faults, n))
    decreases n
  {
    if n > 0 { FaultFreeClear(Later(faults), n - 1); }
  }

  lemma {:induction false} ClearIs(faults: seq<bool>, n: nat)
    ensures Clear(faults, n) <==> forall i :: 0 <= i < n && i < |faults| ==> !faults[i]
    ensures Clear(faults, n) ==> Remaining(faults, n) == faults[if n < |faults| then n else |faults|..]
    decreases n
  {
    if n > 0 && faults != [] {
      ClearIs(faults[1..], n - 1);
      forall i | 0 <= i < |faults| - 1 ensures faults[1..][i] == faults[i + 1] {}
      if Clear(faults, n) {
        forall i | 0 <= i < n && i < |faults| ensures !faults[i] {
          if i > 0 { assert !faults[1..][i - 1]; }
        }
      }
    } else if n > 0 {
      ClearIs([], n - 1);
    }
  }

  /** The transfers before the `a`-th succeed, one before the `b`-th fails and none after that one: just
      when a single transfer in between is scheduled to fail. */
  lemma {:induction false} LoneFault(faults: seq<bool>, a: nat, b: nat)
    requires a <= b
    ensures Clear(faults, a) && !Clear(faults, b) && FaultFree(Remaining(faults, b))
            <==> exists i :: a <= i < b && Lone(faults, i)
    decreases b
  {
    if b == 0 || faults == [] {
      ClearIs(faults, b);
    } else if faults[0] {
      assert Lone(faults, 0) <==> FaultFree(faults[1..]) by { LoneFirst(faults); }
    } else {
      LoneFault(faults[1..], if a > 0 then a - 1 else 0, b - 1);
      forall i: nat ensures Lone(faults, i + 1) <==> Lone(faults[1..], i) { LoneLater(faults, i); }
      if i: nat :| a <= i < b && Lone(faults, i) { assert Lone(faults[1..], i - 1); }
    }
  }

  lemma LoneFirst(faults: seq<bool>)
    requires FailsNext(faults)
    ensures Lone(faults, 0) <==> FaultFree(faults[1..])
  {
    forall i | 0 <= i < |faults| - 1 ensures faults[1..][i] == faults[i + 1] {}
    if FaultFree(faults[1..]) {
      forall k | 0 < k < |faults| ensures !faults[k] { assert !faults[1..][k - 1]; }
    }
  }

  lemma LoneLater(faults: seq<bool>, i: nat)
    requires faults != [] && !faults[0]
    ensures Lone(faults, i + 1) <==> Lone(faults[1..], i)
  {
    if i + 1 < |faults| {
      assert faults[1..][i] == faults[i + 1];
      if Lone(faults[1..], i) {
        forall k | 0 <= k < |faults| && k != i + 1 ensures !faults[k] {
          if k > 0 { assert !faults[1..][k - 1]; }
        }
      }
    }
  }

  class BlockDevice {
    var sectors: seq<seq<byte>>
    var faults: seq<bool>

    ghost predicate Valid()
      reads this
    {
      SectorSized(sectors)
    }

    /** No transfer will fail on its own account. */
    ghost predicate Healthy()
      reads this
    {
      FaultFree(faults)
    }

    ghost function Image(): (r: seq<byte>)
      requires Valid()
      reads this
    {
      Flat(sectors)
    }

    method NextFault() returns (fault: bool)
      requires Valid()
      modifies this`faults
      ensures Valid() && Image() == old(Image())
      ensures old(Healthy()) ==> Healthy() && !fault
      ensures fault == FailsNext(old(faults)) && faults == Later(old(faults))
    {
      fault := |faults| > 0 && faults[0];
      if |faults| > 0 { faults := faults[1..]; }
    }

    /** `quanta_block_device_read` */
    method Read(lba: nat) returns (ok: bool, data: seq<byte>)
      requires Valid()
      modifies this`faults
      ensures Valid() && Image() == old(Image())
      ensures old(Healthy()) ==> Healthy() && (ok <==> (lba + 1) * SECTOR_SIZE <= |Image()|)
      ensures faults == Later(old(faults)) && (ok <==> !FailsNext(old(faults)) && (lba + 1) * SECTOR_SIZE <= |Image()|)
      ensures ok ==> (lba + 1) * SECTOR_SIZE <= |Image()| && data == Image()[lba * SECTOR_SIZE..(lba + 1) * SECTOR_SIZE]
    {
      data := [];
      var fault := NextFault();
      ok := !fault && lba < |sectors|;
      if ok {
        data := sectors[lba];
        FlatSlice(sectors, lba);
      }
    }

    /** `quanta_block_device_write` */
    method Write(lba: nat, data: seq<byte>) returns (ok: bool)
      requires Valid() && |data| == SECTOR_SIZE
      modifies this
      ensures Valid() && |Image()| == |old(Image())|
      ensures old(Healthy()) ==> Healthy() && (ok <==> (lba + 1) * SECTOR_SIZE <= |Image()|)
      ensures !ok ==> Image() == old(Image())
      ensures ok ==> (lba + 1) * SECTOR_SIZE <= |Image()| && Image() == Splice(old(Image()), lba * SECTOR_SIZE, data)
    {
      var fault := NextFault();
      ok := !fault && lba < |sectors|;
      if ok {
        FlatUpdate(sectors, lba, data);
        sectors := sectors[lba := data];
      }
    }
  }

  lemma SpliceByte(before: seq<byte>, lba: nat, data: seq<byte>, i: nat)
    requires |data| == SECTOR_SIZE && (lba + 1) * SECTOR_SIZE <= |before| && i < |before|
    ensures Splice(before, lba * SECTOR_SIZE, data)[i]
            == if i / SECTOR_SIZE == lba then data[i % SECTOR_SIZE] else before[i]
  {
    SpliceAt(before, lba * SECTOR_SIZE, data);
  }
}
