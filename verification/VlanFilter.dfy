/** The VLAN filter of the driver, updated in place. */
module VlanFilter {
  import opened HashIndex
  import opened Owners
  import opened VlanTable

  class Filter {
    const table: array<Slot>

    /** The set bits of the VLAN hash register. */
    var hash: set<nat>

    const hashing: bool

    /** The hash bit of a VLAN, in the register's fixed mode. */
    const bucket: nat -> nat

    /** References admitted and not yet deleted. */
    ghost var contents: Contents

    ghost predicate Valid()
      reads this, table
    {
      Represents(table[..], contents)
    }

    constructor (hashing: bool, bucket: nat -> nat)
      ensures Valid() && fresh(table) && table.Length == 16 && contents == multiset{} && hash == {}
      ensures HashOk(hash, BucketsOf(table[..], bucket))
      ensures this.hashing == hashing && this.bucket == bucket
    {
      table := new Slot[VLAN_SLOTS](_ => VACANT_SLOT);
      this.hashing, this.bucket := hashing, bucket;
      hash, contents := {}, multiset{};
      new;
      assert table[..] == EmptyTable();
      EmptyRepresents(bucket);
    }

    /** tc956x_vlan_duplication_helper */
    method DuplicationHelper(i: nat, vf: nat)
      requires i < table.Length && |table[i].vfs| == OWNERS && IsOwner(vf)
      modifies table
      ensures table[..] == old(table[..])[i := AddOwner(old(table[i]), vf)]
    {
      var vfs := table[i].vfs;
      var freeIndex, found, j := 0, false, 0;
      while j < OWNERS
        invariant 0 <= j <= OWNERS && freeIndex < OWNERS && !found
        invariant freeIndex == LastFree(vfs, j) && FindVf(vfs, vf, 0) == FindVf(vfs, vf, j)
      {
        if vfs[j].vf == 0 {
          freeIndex := j;
        } else if vfs[j].vf == vf {
          found := true;
          break;
        }
        j := j + 1;
      }
      var k := if found then j else freeIndex;
      table[i] := table[i].(vfs := vfs[k := VfStatus(vf, Inc8(vfs[k].count))], total := Inc8(table[i].total));
    }

    /** tc956x_check_vlan_duplication: the answer for a VLAN that no slot carries is left over from
        the last slot. */
    method CheckDuplication(vid: nat, vf: nat) returns (answer: Admission)
      requires TableOk(table[..]) && IsOwner(vf)
      modifies table
      ensures answer == Admit(old(table[..]), vid) && old(|table[..]|) == 16
      ensures answer == ZeroVid <==> vid == 0
      ensures answer == Modified <==> vid != 0 && exists i: nat :: Carries(old(table[..]), i, vid)
      ensures answer == Refused ==> old(table[..])[15].occupied
      ensures answer == Added ==> !old(table[..])[15].occupied
      ensures table[..] == if answer == Modified then Add(old(table[..]), vid, vf) else old(table[..])
    {
      SlotsHaveOwners(table[..]);
      answer := ZeroVid;
      if vid == 0 {
        return;
      }
      for i := 0 to VLAN_SLOTS
        invariant table[..] == old(table[..])
        invariant FindVid(table[..], vid, 0) == FindVid(table[..], vid, i)
        invariant i > 0 ==> answer == if table[i - 1].occupied then Refused else Added
      {
        if table[i].occupied {
          if vid == table[i].vid {
            DuplicationHelper(i, vf);
            return Modified;
          }
          answer := Refused;
        } else {
          answer := Added;
        }
      }
    }

    /** tc956x_add_actual_vlan_table: the first vacant slot, and the hash bit. */
    method AddActual(vid: nat, vf: nat) returns (ok: bool)
      requires TableOk(table[..])
      modifies this`hash, table
      ensures var first := FirstVacant(old(table[..]), 0);
              && ok == first.Some?
              && table[..] == (match first
                               case None => old(table[..])
                               case Some(i) => old(table[..])[i := NewOwner(old(table[..])[i], vid, vf)])
              && hash == if ok && hashing then old(hash) + {bucket(vid)} else old(hash)
    {
      SlotsHaveOwners(table[..]);
      ok := false;
      for i := 0 to VLAN_SLOTS
        invariant !ok && table[..] == old(table[..]) && hash == old(hash)
        invariant FirstVacant(table[..], 0) == FirstVacant(table[..], i)
      {
        if table[i].occupied {
          continue;
        }
        var s := table[i];
        table[i] := Slot(vid, true, Inc8(s.total), s.vfs[0 := VfStatus(vf, Inc8(s.vfs[0].count))]);
        ok := true;
        break;
      }
      if ok && hashing {
        hash := hash + {bucket(vid)};
      }
    }

    /** dwxgmac2_update_vlan_hash: one more reference, exactly if the VLAN is admitted, and right
        exactly as long as the 8-bit counter does not wrap; the hash register goes on showing the
        buckets in use. */
    method UpdateVlanHash(vid: nat, vf: nat)
      requires Valid() && IsOwner(vf)
      modifies this, table
      ensures Valid() <==> Outstanding(old(contents), vid) < 255
      ensures table[..] == Add(old(table[..]), vid, vf)
      ensures old(|table[..]|) == 16
      ensures contents == if vid != 0 && (Outstanding(old(contents), vid) > 0 || !old(table[..])[15].occupied)
              then old(contents) + multiset{(vid, vf)} else old(contents)
      ensures hash == if hashing then HashAfter(old(hash), old(table[..]), VlanTable.AddVlan(vid, vf), bucket)
              else old(hash)
      ensures hashing && old(HashOk(hash, BucketsOf(table[..], bucket))) ==> HashOk(hash, BucketsOf(table[..], bucket))
    {
      hide AddOwner, SlotOk, HashOk, Held;
      ghost var t := table[..];
      SlotsHaveOwners(t);
      AddKeepsIff(t, contents, vid, vf);
      AdmitMeaning(t, contents, vid);
      if HashOk(hash, BucketsOf(t, bucket)) { AddHash(hash, t, bucket, vid, vf); }
      var answer := CheckDuplication(vid, vf);
      if answer == Added {
        var ok := AddActual(vid, vf);
      }
      contents := After(contents, AddVlan(vid, vf), Admitted(answer));
    }

    /** tc956x_del_sw_vlan_helper */
    method DelHelper(i: nat, vf: nat)
      requires i < table.Length && |table[i].vfs| == OWNERS
      modifies table
      ensures table[..] == old(table[..])[i := DropOwner(old(table[i]), vf)]
    {
      for j := 0 to OWNERS
        invariant table[..] == old(table[..])
        invariant FindVf(table[i].vfs, vf, 0) == FindVf(table[i].vfs, vf, j)
      {
        if table[i].vfs[j].vf == vf {
          var s := table[i];
          var entry := VfStatus(s.vfs[j].vf, Dec8(s.vfs[j].count));
          var total := Dec8(s.total);
          if entry.count == 0 {
            entry := entry.(vf := 0);
          }
          table[i] := s.(vfs := s.vfs[j := entry], total := total, occupied := s.occupied && total != 0);
          break;
        }
      }
    }

    /** tc956x_del_sw_vlan_table: one reference less; the hash register goes on showing the buckets
        in use unless the deletion frees a slot whose bucket another live VLAN uses. */
    method DelVlan(vid: nat, vf: nat)
      requires Valid() && IsOwner(vf)
      modifies this, table
      ensures Valid() && table[..] == Delete(old(table[..]), vid, vf)
      ensures contents == old(contents) - multiset{(vid, vf)}
      ensures hash == if hashing then HashAfter(old(hash), old(table[..]), VlanTable.DelVlan(vid, vf), bucket)
              else old(hash)
      ensures hashing && old(HashOk(hash, BucketsOf(table[..], bucket))) ==>
                (HashOk(hash, BucketsOf(table[..], bucket)) <==>
                 !FreesShared(old(table[..]), VlanTable.DelVlan(vid, vf), bucket))
    {
      hide DropOwner, SlotOk, HashOk, Held, OwnBucket;
      ghost var t := table[..];
      SlotsHaveOwners(t);
      DeleteKeeps(t, contents, vid, vf);
      if HashOk(hash, BucketsOf(t, bucket)) { HashKept(hash, t, VlanTable.DelVlan(vid, vf), bucket); }
      var i := 0;
      while i < VLAN_SLOTS && !(table[i].occupied && table[i].vid == vid)
        invariant 0 <= i <= VLAN_SLOTS && table[..] == t && hash == old(hash)
        invariant FindVid(t, vid, 0) == FindVid(t, vid, i)
      {
        i := i + 1;
      }
      contents := contents - multiset{(vid, vf)};
      if i < VLAN_SLOTS {
        DelHelper(i, vf);
        assert Carries(t, i, vid);
        if table[i].total == 0 && hashing {
          hash := hash - {bucket(vid)};
        }
      }
    }
  }
}
