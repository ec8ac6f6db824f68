/** kernel::ExternController: the table that maps a PLIC interrupt number to the device
    that serves it. */
module ExternControllers {
  import opened Base

  /** The capacity of `device_list_`. */
  const MaxDevices: nat := 8

  /** One registration: an interrupt number (an 8-bit enum) and the device, identified
      by its address. */
  datatype Entry = Entry(irq: nat, device: nat)

  /** The device of the first entry for `irq`, if any. */
  function Lookup(entries: seq<Entry>, irq: nat): (r: Option<nat>)
    ensures r.None? <==> forall k :: 0 <= k < |entries| ==> entries[k].irq != irq
  {
    if entries == [] then None
    else if entries[0].irq == irq then Some(entries[0].device)
    else Lookup(entries[1..], irq)
  }

  /** Lookup finds the earliest registration for the number. */
  lemma {:induction false} LookupFirst(entries: seq<Entry>, irq: nat, i: nat)
    requires i < |entries| && entries[i].irq == irq
    requires forall k :: 0 <= k < i ==> entries[k].irq != irq
    ensures Lookup(entries, irq) == Some(entries[i].device)
  {
    if i > 0 {
      assert forall k :: 0 <= k < i - 1 ==> entries[1..][k].irq != irq by {
        forall k | 0 <= k < i - 1
          ensures entries[1..][k].irq != irq
        {
          assert entries[1..][k] == entries[k + 1];
        }
      }
      LookupFirst(entries[1..], irq, i - 1);
    }
  }

  /** Registering again for a number already registered changes nothing that Lookup
      sees; registering a new number makes Lookup find the new device. */
  lemma {:induction false} LookupAfterRegister(entries: seq<Entry>, e: nat, d: nat, irq: nat)
    ensures Lookup(entries + [Entry(e, d)], irq) ==
      if Lookup(entries, irq).Some? || irq != e then Lookup(entries, irq) else Some(d)
  {
    if entries != [] {
      assert (entries + [Entry(e, d)])[0] == entries[0];
      assert (entries + [Entry(e, d)])[1..] == entries[1..] + [Entry(e, d)];
      LookupAfterRegister(entries[1..], e, d, irq);
    } else {
      assert [Entry(e, d)][1..] == [];
    }
  }

  class ExternController {
    /** `device_list_` and `device_list_size_`. */
    var devices: array<Entry>
    var count: nat

    ghost predicate Valid()
      reads this
    {
      devices.Length == MaxDevices && count <= MaxDevices
    }

    /** The registrations so far, oldest first. */
    ghost function Registered(): seq<Entry>
      reads this, devices
      requires Valid()
    {
      devices[..count]
    }

    constructor ()
      ensures Valid() && Registered() == [] && fresh(devices)
    {
      devices := new Entry[MaxDevices](_ => Entry(0, 0));
      count := 0;
    }

    /** `Register(e, device)`: writes the pair at the next free slot. */
    method Register(e: nat, device: nat)
      requires Valid() && count < MaxDevices
      modifies this, devices
      ensures Valid() && devices == old(devices) && count == old(count) + 1
      ensures Registered() == old(Registered()) + [Entry(e, device)]
    {
      devices[count] := Entry(e, device);
      count := count + 1;
      assert devices[..count] == old(devices[..count]) + [Entry(e, device)];
    }

    /** `GetDeviceByIRQ(irq)`: scans the registrations in order; None is the null
        pointer. */
    method GetDeviceByIRQ(irq: nat) returns (r: Option<nat>)
      requires Valid()
      ensures r == Lookup(Registered(), irq)
      ensures r.Some? ==> exists k :: 0 <= k < count && devices[k] == Entry(irq, r.value)
    {
      var i := 0;
      while i < count
        invariant i <= count
        invariant forall k :: 0 <= k < i ==> devices[k].irq != irq
      {
        if devices[i].irq == irq {
          LookupFirst(Registered(), irq, i);
          return Some(devices[i].device);
        }
        i := i + 1;
      }
      return None;
    }
  }
}
