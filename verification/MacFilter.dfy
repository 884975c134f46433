/** The MAC address filter of the driver, updated in place together with its registers. */
module MacFilter {
  import opened HashIndex
  import opened MacTable
  import opened Owners

  class Filter {
    const table: array<Slot>
    const regs: array<AddrReg>

    /** The set bits of the two hash registers. */
    var hash: set<nat>

    const hashing: bool
    const bucket: Mac -> nat

    /** Whether source addresses are filtered too. */
    var sourceFilter: bool

    /** Pairs placed and not yet deleted. */
    ghost var contents: Contents

    ghost predicate Valid()
      reads this, table, regs
    {
      Represents(table[..], contents) && RegsOk(regs[..], table[..])
    }

    constructor (hashing: bool, bucket: Mac -> nat, sourceFilter: bool)
      ensures Valid() && fresh(table) && fresh(regs) && contents == {} && hash == {}
      ensures table.Length == 29 && regs.Length == 32
      ensures HashOk(hash, BucketsOf(table[..], bucket))
      ensures this.hashing == hashing && this.bucket == bucket
    {
      table := new Slot[MAC_SLOTS](_ => VACANT_SLOT);
      regs := new AddrReg[ADDRESS_REGS](_ => CLEARED_REG);
      this.hashing, this.bucket, this.sourceFilter := hashing, bucket, sourceFilter;
      hash, contents := {}, {};
      new;
      assert table[..] == EmptyTable();
      EmptyRepresents(bucket);
    }

    /** The inner loop of tc956x_mac_duplication, on a slot that carries the address. */
    method DuplicationHelper(i: nat, vf: nat)
      requires i < table.Length && |table[i].owners| == OWNERS && IsOwner(vf)
      modifies table
      ensures table[..] == old(table[..])[i := AddOwner(old(table[i]), vf)]
    {
      var owners := table[i].owners;
      var freeIndex := 0;
      for j := 0 to OWNERS
        invariant freeIndex < OWNERS && freeIndex == LastFree(owners, j)
        invariant FindOwner(owners, vf, 0) == FindOwner(owners, vf, j)
        invariant table[..] == old(table[..])
      {
        if owners[j] == 0 {
          freeIndex := j;
        } else if owners[j] == vf {
          return;
        }
      }
      table[i] := table[i].(owners := owners[freeIndex := vf], counter := Inc8(table[i].counter));
    }

    /** tc956x_check_mac_duplication: whether the address is new to the table. */
    method CheckDuplication(mac: Mac, vf: nat) returns (isNew: bool)
      requires TableOk(table[..]) && IsOwner(vf)
      modifies table
      ensures isNew <==> mac != ZERO_MAC && FindMac(old(table[..]), mac, 0).None?
      ensures table[..] == if isNew then old(table[..]) else Add(old(table[..]), mac, vf)
    {
      isNew := false;
      if mac == ZERO_MAC {
        return;
      }
      for i := 0 to MAC_SLOTS
        invariant table[..] == old(table[..])
        invariant FindMac(table[..], mac, 0) == FindMac(table[..], mac, i)
      {
        if table[i].occupied && table[i].mac == mac {
          DuplicationHelper(i, vf);
          return;
        }
      }
      isNew := true;
    }

    /** tc956x_add_actual_mac_table: the first vacant slot, its register and the hash bit. */
    method AddActual(mac: Mac, vf: nat) returns (ok: bool)
      requires TableOk(table[..]) && regs.Length == ADDRESS_REGS
      modifies this`hash, table, regs
      ensures var first := FirstVacant(old(table[..]), 0);
              && ok == first.Some?
              && (!ok ==> table[..] == old(table[..]) && regs[..] == old(regs[..]) && hash == old(hash))
              && (ok ==> && table[..] == old(table[..])[first.value := NewSlot(old(table[..])[first.value], mac, vf)]
                         && regs[..] == old(regs[..])[FIRST_REG + first.value := SetReg(mac, sourceFilter)]
                         && HoldsAddress(regs[3 + first.value], mac, sourceFilter)
                         && hash == if hashing then old(hash) + {bucket(mac)} else old(hash))
    {
      ok := false;
      var i := 0;
      while i < MAC_SLOTS
        invariant 0 <= i <= MAC_SLOTS && !ok && table[..] == old(table[..]) && regs[..] == old(regs[..])
                && hash == old(hash)
        invariant FirstVacant(table[..], 0) == FirstVacant(table[..], i)
      {
        if table[i].occupied {
          i := i + 1;
          continue;
        }
        var s := table[i];
        table[i] := Slot(mac, true, Inc8(s.counter), s.owners[0 := vf]);
        ok := true;
        break;
      }
      if ok {
        if hashing {
          hash := hash + {bucket(mac)};
        }
        regs[FIRST_REG + i] := SetReg(mac, sourceFilter);
        SetRegHolds(mac, sourceFilter);
      }
    }

    /** tc956x_add_sw_mac_table: the pair joins, exactly if the address has or finds a slot; no
        other pair changes, and the registers go on agreeing with the table. */
    method AddAddress(mac: Mac, vf: nat)
      requires Valid() && IsOwner(vf)
      modifies this`hash, this`contents, table, regs
      ensures Valid()
      ensures contents == After(old(contents), AddMac(mac, vf), AddSlot(old(table[..]), mac).Some?)
      ensures TableShape(old(table[..])) && table[..] == Add(old(table[..]), mac, vf)
      ensures Registers(hash, regs[..])
              == RegistersAfter(old(Registers(hash, regs[..])), old(table[..]), AddMac(mac, vf), hashing,
                                bucket, sourceFilter)
      ensures if TakesNewSlot(old(table[..]), mac) then
                var q := 3 + FirstVacant(old(table[..]), 0).value;
                q < regs.Length && SameBut(old(regs[..]), regs[..], q) && HoldsAddress(regs[q], mac, sourceFilter)
              else
                regs[..] == old(regs[..])
      ensures hashing && old(HashOk(hash, BucketsOf(table[..], bucket))) ==> HashOk(hash, BucketsOf(table[..], bucket))
    {
      hide AddOwner, SlotOk, HashOk, RegsOk, HoldsAddress;
      ghost var t, r := table[..], Registers(hash, regs[..]);
      AddKeeps(t, contents, mac, vf);
      RegsKept(r, t, AddMac(mac, vf), hashing, bucket, sourceFilter);
      AddSetsReg(r, t, mac, vf, hashing, bucket, sourceFilter);
      hide SameBut;
      AddHash(hash, t, bucket, mac, vf);
      var isNew := CheckDuplication(mac, vf);
      if isNew {
        var ok := AddActual(mac, vf);
      }
      contents := After(contents, AddMac(mac, vf), AddSlot(t, mac).Some?);
    }

    /** tc956x_del_sw_mac_helper */
    method DelHelper(i: nat, vf: nat)
      requires i < table.Length && |table[i].owners| == OWNERS
      modifies table
      ensures table[..] == old(table[..])[i := DropOwner(old(table[i]), vf)]
    {
      for j := 0 to OWNERS
        invariant table[..] == old(table[..])
        invariant FindOwner(table[i].owners, vf, 0) == FindOwner(table[i].owners, vf, j)
      {
        if table[i].owners[j] == vf {
          var s := table[i];
          var counter := Dec8(s.counter);
          table[i] := s.(owners := s.owners[j := 0], counter := counter, occupied := s.occupied && counter != 0);
          break;
        }
      }
    }

    /** tc956x_del_sw_mac_table for an address that is in the table: exactly that pair leaves, and
        the registers go on agreeing with the table. */
    method DelAddress(mac: Mac, vf: nat)
      requires Valid() && IsOwner(vf) && FindMac(table[..], mac, 0).Some?
      modifies this`hash, this`contents, table, regs
      ensures Valid() && contents == old(contents) - {(mac, vf)}
      ensures TableShape(old(table[..])) && table[..] == Delete(old(table[..]), mac, vf)
      ensures Registers(hash, regs[..])
              == RegistersAfter(old(Registers(hash, regs[..])), old(table[..]), DelMac(mac, vf), hashing,
                                bucket, sourceFilter)
      ensures DeletedRegs(old(regs[..]), regs[..], old(table[..]), table[..], mac)
      ensures hashing && old(HashOk(hash, BucketsOf(table[..], bucket))) ==>
                (HashOk(hash, BucketsOf(table[..], bucket)) <==> !FreesShared(old(table[..]), DelMac(mac, vf), bucket))
    {
      hide DropOwner, SlotOk, HashOk, OwnBucket, RegsOk, DeletedRegs;
      ghost var t, r, op := table[..], Registers(hash, regs[..]), DelMac(mac, vf);
      DeleteKeeps(t, contents, mac, vf);
      RegsKept(r, t, op, hashing, bucket, sourceFilter);
      DeleteClearsReg(r, t, mac, vf, hashing, bucket, sourceFilter);
      if HashOk(hash, BucketsOf(t, bucket)) { HashKept(r, t, op, bucket, sourceFilter); }
      var i := 0;
      while !(table[i].occupied && table[i].mac == mac)
        invariant 0 <= i < MAC_SLOTS && table[..] == t && regs[..] == old(regs[..]) && hash == old(hash)
        invariant FindMac(t, mac, 0) == FindMac(t, mac, i)
        decreases MAC_SLOTS - i
      {
        i := i + 1;
      }
      DelHelper(i, vf);
      if table[i].counter == 0 {
        if hashing {
          hash := hash - {bucket(mac)};
        }
        regs[FIRST_REG + i] := CLEARED_REG;
      }
      contents := contents - {(mac, vf)};
    }
  }
}
