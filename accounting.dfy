/**
  * The per-tick MIPS accounting of `PowerNetworkHost.updateCloudletsProcessing`
  * as closed-form specification functions: what each guest contributes to the
  * host's utilisation, the history entries recorded for guests and for the
  * host, and the properties of those sums.
  */
module HostAccounting {
  import opened Routing

  /** One utilisation sample: `addStateHistoryEntry(time, allocatedMips, requestedMips, isActive)`. */
  datatype StateEntry = StateEntry(time: real, allocatedMips: real, requestedMips: real, isActive: bool)

  /** A history entry recorded on the guest with id `guestId`. */
  datatype GuestStateEntry = GuestStateEntry(guestId: int, entry: StateEntry)

  /** The migration penalty: a guest migrating away runs at 90% speed, so its allocation is divided by 0.9. */
  const MigrationEfficiency: real := 0.9

  /** What guest `g` adds to the host's utilisation MIPS: never less than its
      allocation nor more than the allocation divided by 0.9, and exactly the
      allocation unless the guest is migrating away with a non-zero allocation. */
  function Charged(g: Guest, mips: int -> real, migratingIn: set<int>): (c: real)
    ensures mips(g.id) >= 0.0 ==> mips(g.id) <= c && c * MigrationEfficiency <= mips(g.id)
    ensures c == mips(g.id) <==> g.id in migratingIn || !g.inMigration || mips(g.id) == 0.0
  {
    if g.id in migratingIn then mips(g.id)
    else if g.inMigration then mips(g.id) / MigrationEfficiency
    else mips(g.id)
  }

  /** The host's utilisation MIPS after the guest loop, summed in list order. */
  function UtilizationMips(guests: seq<Guest>, mips: int -> real, migratingIn: set<int>): real
  {
    if |guests| == 0 then 0.0
    else UtilizationMips(guests[..|guests| - 1], mips, migratingIn) + Charged(guests[|guests| - 1], mips, migratingIn)
  }

  /** The MIPS the scheduler allocated to the guests, without any penalty. */
  function AllocatedMips(guests: seq<Guest>, mips: int -> real): real
  {
    if |guests| == 0 then 0.0
    else AllocatedMips(guests[..|guests| - 1], mips) + mips(guests[|guests| - 1].id)
  }

  /** The MIPS the guests requested, migrating-in guests included. */
  function RequestedMips(guests: seq<Guest>): real
  {
    if |guests| == 0 then 0.0
    else RequestedMips(guests[..|guests| - 1]) + guests[|guests| - 1].requestedTotalMips
  }

  /** The history entry of a guest that is not migrating in: the allocation before the penalty. */
  function EntryOf(g: Guest, mips: int -> real, migratingIn: set<int>, time: real): GuestStateEntry
  {
    GuestStateEntry(g.id, StateEntry(time, mips(g.id), g.requestedTotalMips, g.inMigration && g.id !in migratingIn))
  }

  /** The guest history entries of one tick, in list order; migrating-in guests get none. */
  function GuestEntries(guests: seq<Guest>, mips: int -> real, migratingIn: set<int>, time: real): seq<GuestStateEntry>
  {
    if |guests| == 0 then []
    else
      var g := guests[|guests| - 1];
      GuestEntries(guests[..|guests| - 1], mips, migratingIn, time)
      + (if g.id in migratingIn then [] else [EntryOf(g, mips, migratingIn, time)])
  }

  /** The host history entry of one tick. */
  function HostEntry(guests: seq<Guest>, mips: int -> real, migratingIn: set<int>, time: real): StateEntry
  {
    var u := UtilizationMips(guests, mips, migratingIn);
    StateEntry(time, u, RequestedMips(guests), u > 0.0)
  }

  /** Every guest has a non-negative allocation. */
  predicate NonNegativeAllocation(guests: seq<Guest>, mips: int -> real)
  {
    forall i :: 0 <= i < |guests| ==> mips(guests[i].id) >= 0.0
  }

  /** The penalty only ever adds: utilisation lies between the plain allocation and the allocation divided by 0.9. */
  lemma {:induction false} UtilizationBounds(guests: seq<Guest>, mips: int -> real, migratingIn: set<int>)
    requires NonNegativeAllocation(guests, mips)
    ensures AllocatedMips(guests, mips) <= UtilizationMips(guests, mips, migratingIn)
    ensures UtilizationMips(guests, mips, migratingIn) * MigrationEfficiency <= AllocatedMips(guests, mips)
  {
    if |guests| > 0 {
      var n := |guests| - 1;
      var g := guests[n];
      assert forall i :: 0 <= i < n ==> guests[..n][i] == guests[i];
      UtilizationBounds(guests[..n], mips, migratingIn);
      var c := Charged(g, mips, migratingIn);
      assert mips(g.id) >= 0.0;
      assert mips(g.id) <= c && c * MigrationEfficiency <= mips(g.id);
    }
  }

  /** Without guests migrating away the utilisation is exactly the allocated MIPS. */
  lemma {:induction false} NoMigrationNoPenalty(guests: seq<Guest>, mips: int -> real, migratingIn: set<int>)
    requires forall i :: 0 <= i < |guests| ==> !guests[i].inMigration || guests[i].id in migratingIn
    ensures UtilizationMips(guests, mips, migratingIn) == AllocatedMips(guests, mips)
  {
    if |guests| > 0 {
      var n := |guests| - 1;
      assert forall i :: 0 <= i < n ==> guests[..n][i] == guests[i];
      NoMigrationNoPenalty(guests[..n], mips, migratingIn);
    }
  }

  /** A guest entry is recorded for a guest exactly when it is not migrating in,
      with the tick's time, the allocation before the penalty, the request and
      the migrating-away flag. */
  lemma {:induction false} GuestEntriesExact(guests: seq<Guest>, mips: int -> real, migratingIn: set<int>, time: real, e: GuestStateEntry)
    ensures e in GuestEntries(guests, mips, migratingIn, time) <==>
            exists i :: 0 <= i < |guests| && guests[i].id !in migratingIn && e == EntryOf(guests[i], mips, migratingIn, time)
  {
    if |guests| > 0 {
      var n := |guests| - 1;
      var prefix := guests[..n];
      GuestEntriesExact(prefix, mips, migratingIn, time, e);
      assert forall i :: 0 <= i < n ==> prefix[i] == guests[i];
      if exists i :: 0 <= i < |guests| && guests[i].id !in migratingIn && e == EntryOf(guests[i], mips, migratingIn, time) {
        var i :| 0 <= i < |guests| && guests[i].id !in migratingIn && e == EntryOf(guests[i], mips, migratingIn, time);
        if i < n {
          assert prefix[i] == guests[i];
        }
      }
    }
  }

  /** With non-negative allocations the host is recorded active exactly when some guest got MIPS. */
  lemma {:induction false} HostActiveIffAllocated(guests: seq<Guest>, mips: int -> real, migratingIn: set<int>, time: real)
    requires NonNegativeAllocation(guests, mips)
    ensures HostEntry(guests, mips, migratingIn, time).isActive <==>
            exists i :: 0 <= i < |guests| && mips(guests[i].id) > 0.0
  {
    UtilizationBounds(guests, mips, migratingIn);
    AllocatedPositiveIff(guests, mips);
  }

  lemma {:induction false} AllocatedPositiveIff(guests: seq<Guest>, mips: int -> real)
    requires NonNegativeAllocation(guests, mips)
    ensures AllocatedMips(guests, mips) >= 0.0
    ensures AllocatedMips(guests, mips) > 0.0 <==> exists i :: 0 <= i < |guests| && mips(guests[i].id) > 0.0
  {
    if |guests| > 0 {
      var n := |guests| - 1;
      var prefix := guests[..n];
      assert forall i :: 0 <= i < n ==> prefix[i] == guests[i];
      AllocatedPositiveIff(prefix, mips);
      if exists i :: 0 <= i < |guests| && mips(guests[i].id) > 0.0 {
        var i :| 0 <= i < |guests| && mips(guests[i].id) > 0.0;
        if i < n {
          assert mips(prefix[i].id) > 0.0;
        }
      }
    }
  }
}
