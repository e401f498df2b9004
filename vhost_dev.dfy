// The vhost interface registry of the Linux module (linux/vhost_dev.c): the
// fixed-size table vhost_priv_db of vhost entries, filled at the first free
// slot when a host interface is added and cleared when its link is deleted, the
// lookup of the entry a physical device is attached to, its detach, and the
// interface count that vhost_setup raises and vhost_validate bounds.
//
// A vhost entry (struct vhost_priv) lives in its net_device's private area;
// here it is named by a handle and its state is a value in the registry's
// map.  Physical devices are values; two are the same device exactly when
// they are equal.  VHOST_MAX_INTERFACES, VR_MAX_PHY_INF and the size of
// vp_phys_name[i] are not in the files of this model and are parameters of
// the registry.

module VhostDev {
  import opened Base

  /** ENOMEM, the Linux errno. */
  const ENOMEM: int := 12

  const U32_MOD: nat := 0x1_0000_0000

  /** A physical net_device as the registry sees it: its identity, whether it is of type ARPHRD_ETHER, and its name. */
  datatype PhysDev = PhysDev(id: nat, ether: bool, name: seq<char>)

  /** struct vhost_priv: the slot index (-1 for none), the attached physical devices and their names, and whether IFF_NOARP is set on the vhost device. */
  datatype Priv = Priv(dbIndex: int, phys: seq<Option<PhysDev>>, names: seq<seq<char>>, noArp: bool)

  /** The first free slot from `i` on. */
  function FirstFree(slots: seq<Option<nat>>, i: nat): (r: Option<nat>)
    requires i <= |slots|
    ensures r.Some? ==> i <= r.value < |slots| && slots[r.value].None?
    decreases |slots| - i
  {
    if i == |slots| then None
    else if slots[i].None? then Some(i)
    else FirstFree(slots, i + 1)
  }

  /** FirstFree finds the lowest free slot, and none exactly when every slot is taken. */
  lemma {:induction false} FirstFreeSpec(slots: seq<Option<nat>>, i: nat)
    requires i <= |slots|
    ensures var r := FirstFree(slots, i);
            (r.None? <==> forall k | i <= k < |slots| :: slots[k].Some?) &&
            (r.Some? ==> forall k | i <= k < r.value :: slots[k].Some?)
    decreases |slots| - i
  {
    if i < |slots| && slots[i].Some? {
      FirstFreeSpec(slots, i + 1);
    }
  }

  /** The entry in slot `i` has `dev` among its physical devices. */
  predicate HoldsAt(slots: seq<Option<nat>>, privs: map<nat, Priv>, dev: PhysDev, i: nat)
    requires i < |slots|
  {
    slots[i].Some? && slots[i].value in privs && Some(dev) in privs[slots[i].value].phys
  }

  /** The entry of the first slot from `i` on that holds `dev`. */
  function FirstOwner(slots: seq<Option<nat>>, privs: map<nat, Priv>, dev: PhysDev, i: nat): Option<nat>
    requires i <= |slots|
    decreases |slots| - i
  {
    if i == |slots| then None
    else if HoldsAt(slots, privs, dev, i) then slots[i]
    else FirstOwner(slots, privs, dev, i + 1)
  }

  /** FirstOwner is the entry of the lowest slot holding the device, and none exactly when no slot does. */
  lemma {:induction false} FirstOwnerSpec(slots: seq<Option<nat>>, privs: map<nat, Priv>, dev: PhysDev, i: nat)
    requires i <= |slots|
    ensures var r := FirstOwner(slots, privs, dev, i);
            (r.None? <==> forall k | i <= k < |slots| :: !HoldsAt(slots, privs, dev, k)) &&
            (r.Some? ==> exists k | i <= k < |slots| :: HoldsAt(slots, privs, dev, k) && slots[k] == r &&
                           forall k' | i <= k' < k :: !HoldsAt(slots, privs, dev, k'))
    decreases |slots| - i
  {
    if i < |slots| && !HoldsAt(slots, privs, dev, i) {
      FirstOwnerSpec(slots, privs, dev, i + 1);
    }
  }

  /** The physical devices after vhost_detach_phys: every slot holding `dev` is emptied. */
  function Detached(phys: seq<Option<PhysDev>>, dev: PhysDev): (r: seq<Option<PhysDev>>)
    ensures |r| == |phys| && Some(dev) !in r
    ensures forall k | 0 <= k < |phys| :: r[k] == if phys[k] == Some(dev) then None else phys[k]
  {
    seq(|phys|, k requires 0 <= k < |phys| => if phys[k] == Some(dev) then None else phys[k])
  }

  /** The name strncpy leaves in a buffer of `size` characters: at most `size` less one, for the NUL. */
  function Stored(name: seq<char>, size: nat): (r: seq<char>)
    requires size > 0
    ensures |r| <= |name| && |r| < size && r == name[..|r|]
    ensures |name| < size ==> r == name
  {
    if |name| < size then name else name[..size - 1]
  }

  /** An entry whose physical devices are all released and whose names of attached devices are cleared. */
  function Released(p: Priv): (r: Priv)
    ensures r.dbIndex == -1 && r.noArp == p.noArp && |r.phys| == |p.phys| && |r.names| == |p.names|
    ensures forall k | 0 <= k < |r.phys| :: r.phys[k].None?
    ensures forall k | 0 <= k < |p.names| :: r.names[k] == if k < |p.phys| && p.phys[k].Some? then [] else p.names[k]
  {
    Priv(-1, seq(|p.phys|, _ => None),
         seq(|p.names|, k requires 0 <= k < |p.names| => if k < |p.phys| && p.phys[k].Some? then [] else p.names[k]),
         p.noArp)
  }

  /** The devices and names of an entry after vhost_if_add attaches the vif's bridges, and its IFF_NOARP flag: set exactly when the first device is not Ethernet. */
  function Attached(p: Priv, bridges: seq<Option<PhysDev>>, size: nat): (r: Priv)
    requires |p.phys| == |p.names| == |bridges| > 0 && size > 0
    ensures |r.phys| == |r.names| == |bridges| && r.dbIndex == p.dbIndex
    ensures forall k | 0 <= k < |bridges| ::
              r.phys[k] == (if bridges[k].Some? then bridges[k] else p.phys[k]) &&
              r.names[k] == (if bridges[k].Some? then Stored(bridges[k].value.name, size) else p.names[k])
    ensures r.noArp <==> r.phys[0].Some? && !r.phys[0].value.ether
  {
    var phys := seq(|bridges|, k requires 0 <= k < |bridges| => if bridges[k].Some? then bridges[k] else p.phys[k]);
    var names := seq(|bridges|, k requires 0 <= k < |bridges| => if bridges[k].Some? then Stored(bridges[k].value.name, size) else p.names[k]);
    Priv(p.dbIndex, phys, names, phys[0].Some? && !phys[0].value.ether)
  }

  /** The bridge loop of vhost_if_add and its IFF_NOARP decision. */
  method Attach(p: Priv, bridges: seq<Option<PhysDev>>, size: nat) returns (q: Priv)
    requires |p.phys| == |p.names| == |bridges| > 0 && size > 0
    ensures q == Attached(p, bridges, size)
  {
    var phys, names := p.phys, p.names;
    var i := 0;
    while i < |bridges|
      invariant i <= |bridges| && |phys| == |names| == |bridges|
      invariant forall k | 0 <= k < i ::
                  phys[k] == (if bridges[k].Some? then bridges[k] else p.phys[k]) &&
                  names[k] == (if bridges[k].Some? then Stored(bridges[k].value.name, size) else p.names[k])
      invariant forall k | i <= k < |bridges| :: phys[k] == p.phys[k] && names[k] == p.names[k]
    {
      if bridges[i].Some? {
        phys := phys[i := bridges[i]];
        names := names[i := Stored(bridges[i].value.name, size)];
      }
      i := i + 1;
    }
    var noArp := phys[0].Some? && !phys[0].value.ether;
    q := Priv(p.dbIndex, phys, names, noArp);
  }

  /** The device loop of vhost_dellink: each attached device is dropped and its name cleared. */
  method Release(p: Priv) returns (q: Priv)
    requires |p.phys| == |p.names|
    ensures q == Released(p)
  {
    var phys, names := p.phys, p.names;
    var i := 0;
    while i < |p.phys|
      invariant i <= |p.phys| && |phys| == |names| == |p.phys|
      invariant forall k | 0 <= k < i :: phys[k].None? && names[k] == if p.phys[k].Some? then [] else p.names[k]
      invariant forall k | i <= k < |p.phys| :: phys[k] == p.phys[k] && names[k] == p.names[k]
    {
      if phys[i].Some? {
        phys := phys[i := None];
        names := names[i := []];
      }
      i := i + 1;
    }
    q := Priv(-1, phys, names, p.noArp);
  }

  /** The registry: the slot table, the vhost entries and vhost_num_interfaces. */
  class Vhost {
    /** VHOST_MAX_INTERFACES. */
    const maxInterfaces: nat
    /** VR_MAX_PHY_INF. */
    const maxPhys: nat
    /** sizeof(vp_phys_name[i]). */
    const nameSize: nat
    /** vhost_priv_db. */
    const db: array<Option<nat>>
    var privs: map<nat, Priv>
    /** vhost_num_interfaces, an unsigned int. */
    var numInterfaces: nat

    /** Every entry has VR_MAX_PHY_INF device slots, and the table and the entries' slot indices agree both ways. */
    ghost predicate Valid()
      reads this, db
    {
      db.Length == maxInterfaces && maxPhys > 0 && nameSize > 0 && numInterfaces < U32_MOD &&
      (forall h | h in privs :: |privs[h].phys| == maxPhys && |privs[h].names| == maxPhys) &&
      (forall i | 0 <= i < db.Length && db[i].Some? :: db[i].value in privs && privs[db[i].value].dbIndex == i) &&
      (forall h | h in privs && privs[h].dbIndex >= 0 :: privs[h].dbIndex < db.Length && db[privs[h].dbIndex] == Some(h))
    }

    /** vhost_init: the table is allocated zeroed. */
    constructor (maxInterfaces: nat, maxPhys: nat, nameSize: nat)
      requires maxPhys > 0 && nameSize > 0
      ensures Valid() && fresh(db)
      ensures this.maxInterfaces == maxInterfaces && this.maxPhys == maxPhys && this.nameSize == nameSize
      ensures db[..] == seq(maxInterfaces, _ => None) && privs == map[] && numInterfaces == 0
    {
      this.maxInterfaces, this.maxPhys, this.nameSize := maxInterfaces, maxPhys, nameSize;
      db := new Option<nat>[maxInterfaces](_ => None);
      privs := map[];
      numInterfaces := 0;
    }

    /** vhost_setup for a new vhost device `h`: no slot, no devices, and one more interface. */
    method Setup(h: nat)
      requires Valid() && h !in privs
      modifies this
      ensures Valid() && unchanged(db)
      ensures privs == old(privs)[h := Priv(-1, seq(maxPhys, _ => None), seq(maxPhys, _ => []), false)]
      ensures numInterfaces == (old(numInterfaces) + 1) % U32_MOD
    {
      privs := privs[h := Priv(-1, seq(maxPhys, _ => None), seq(maxPhys, _ => []), false)];
      numInterfaces := (numInterfaces + 1) % U32_MOD;
    }

    /** vhost_validate: a new vhost device is refused once the count reaches VHOST_MAX_INTERFACES. */
    function ValidateResult(): (r: int)
      reads this
      ensures r == -ENOMEM <==> numInterfaces >= maxInterfaces
      ensures r == 0 <==> numInterfaces < maxInterfaces
    {
      if numInterfaces >= maxInterfaces then -ENOMEM else 0
    }

    /**
     * vhost_if_add for vif `h`: `bridges[i]` is the device of vif_bridge[i]
     * (None for NULL).  A host vif takes its bridges' devices and, unless it
     * already has a slot, the lowest free one; a full table leaves it without.
     * Any other vif changes nothing the registry holds.
     */
    method IfAdd(h: nat, isHost: bool, bridges: seq<Option<PhysDev>>)
      requires Valid() && h in privs && |bridges| == maxPhys
      modifies this, db
      ensures Valid()
      ensures !isHost ==> privs == old(privs) && db[..] == old(db[..])
      ensures isHost ==>
                var p := Attached(old(privs)[h], bridges, nameSize);
                if old(privs)[h].dbIndex >= 0 then privs == old(privs)[h := p] && db[..] == old(db[..])
                else match FirstFree(old(db[..]), 0)
                     case None => privs == old(privs)[h := p] && db[..] == old(db[..])
                     case Some(i) => privs == old(privs)[h := p.(dbIndex := i)] && db[..] == old(db[..])[i := Some(h)]
      ensures numInterfaces == old(numInterfaces)
    {
      if !isHost {
        return;
      }
      var p := privs[h];
      var q := Attach(p, bridges, nameSize);
      privs := privs[h := q];
      if p.dbIndex >= 0 {
        return;
      }
      TakeSlot(h);
    }

    /** The slot claim of vhost_if_add for an entry without one: the lowest empty slot, if any. */
    method TakeSlot(h: nat)
      requires Valid() && h in privs && privs[h].dbIndex < 0
      modifies this, db
      ensures Valid() && numInterfaces == old(numInterfaces)
      ensures match FirstFree(old(db[..]), 0)
              case None => privs == old(privs) && db[..] == old(db[..])
              case Some(i) => privs == old(privs)[h := old(privs)[h].(dbIndex := i)] && db[..] == old(db[..])[i := Some(h)]
    {
      var slot := FindFree();
      if slot.Some? {
        privs := privs[h := privs[h].(dbIndex := slot.value)];
        db[slot.value] := Some(h);
      }
    }

    /** The search of vhost_if_add for the lowest empty slot. */
    method FindFree() returns (r: Option<nat>)
      requires db.Length == maxInterfaces
      ensures r == FirstFree(db[..], 0)
    {
      var i := 0;
      while i < maxInterfaces
        invariant i <= maxInterfaces
        invariant FirstFree(db[..], 0) == FirstFree(db[..], i)
      {
        if db[i].None? {
          return Some(i);
        }
        i := i + 1;
      }
      return None;
    }

    /**
     * vhost_dellink for vhost device `h`: its slot is emptied, its index reset
     * to -1, every physical device released with its name cleared, and the
     * count lowered; `bug` is the BUG() of a count already 0, which leaves
     * the count as it was.
     */
    method Dellink(h: nat) returns (bug: bool)
      requires Valid() && h in privs
      modifies this, db
      ensures Valid()
      ensures var p := old(privs)[h];
              privs == old(privs)[h := Released(p)] &&
              db[..] == if p.dbIndex >= 0 then old(db[..])[p.dbIndex := None] else old(db[..])
      ensures bug <==> old(numInterfaces) == 0
      ensures numInterfaces == if bug then old(numInterfaces) else old(numInterfaces) - 1
    {
      var p := privs[h];
      if p.dbIndex >= 0 {
        db[p.dbIndex] := None;
      }
      var q := Release(p);
      privs := privs[h := q];
      if numInterfaces == 0 {
        return true;
      }
      numInterfaces := numInterfaces - 1;
      return false;
    }

    /** Whether entry `p` has `dev` among its physical devices (the inner loop of the lookup). */
    method HasPhys(p: Priv, dev: PhysDev) returns (found: bool)
      requires |p.phys| == maxPhys
      ensures found <==> Some(dev) in p.phys
    {
      var j := 0;
      while j < maxPhys
        invariant j <= maxPhys && Some(dev) !in p.phys[..j]
      {
        if p.phys[j] == Some(dev) {
          return true;
        }
        assert p.phys[..j + 1] == p.phys[..j] + [p.phys[j]];
        j := j + 1;
      }
      assert p.phys[..j] == p.phys;
      return false;
    }

    /** vhost_get_priv_for_phys: the entry of the lowest slot whose physical devices include `dev`, or none. */
    method GetPrivForPhys(dev: PhysDev) returns (r: Option<nat>)
      requires Valid()
      ensures r == FirstOwner(db[..], privs, dev, 0)
    {
      var i := 0;
      while i < maxInterfaces
        invariant i <= maxInterfaces
        invariant FirstOwner(db[..], privs, dev, 0) == FirstOwner(db[..], privs, dev, i)
      {
        var slot := db[i];
        if slot.Some? {
          var found := HasPhys(privs[slot.value], dev);
          if found {
            assert HoldsAt(db[..], privs, dev, i);
            return slot;
          }
        }
        i := i + 1;
      }
      return None;
    }

    /** vhost_detach_phys: in the entry the lookup finds, every slot holding `dev` is emptied; the names stay. */
    method DetachPhys(dev: PhysDev)
      requires Valid()
      modifies this
      ensures Valid() && numInterfaces == old(numInterfaces)
      ensures match FirstOwner(db[..], old(privs), dev, 0)
              case None => privs == old(privs)
              case Some(h) => h in old(privs) && privs == old(privs)[h := old(privs)[h].(phys := Detached(old(privs)[h].phys, dev))]
    {
      var vp := GetPrivForPhys(dev);
      if vp.Some? {
        FirstOwnerSpec(db[..], privs, dev, 0);
        var h := vp.value;
        var p := privs[h];
        var phys := p.phys;
        var i := 0;
        while i < maxPhys
          invariant i <= maxPhys && |phys| == maxPhys
          invariant forall k | 0 <= k < i :: phys[k] == if p.phys[k] == Some(dev) then None else p.phys[k]
          invariant forall k | i <= k < maxPhys :: phys[k] == p.phys[k]
        {
          if phys[i] == Some(dev) {
            phys := phys[i := None];
          }
          i := i + 1;
        }
        assert phys == Detached(p.phys, dev);
        privs := privs[h := p.(phys := phys)];
      }
    }
  }

  /** After the entry `h` lets go of `dev`, the lookup no longer returns `h`. */
  lemma DetachedNotFound(slots: seq<Option<nat>>, privs: map<nat, Priv>, dev: PhysDev, h: nat)
    requires h in privs
    ensures FirstOwner(slots, privs[h := privs[h].(phys := Detached(privs[h].phys, dev))], dev, 0) != Some(h)
  {
    var after := privs[h := privs[h].(phys := Detached(privs[h].phys, dev))];
    FirstOwnerSpec(slots, after, dev, 0);
  }
}
