/** The ring through which the controller hands metadata to the kernel beside the packets
    it sends: writer and reader each advance an index of their own. */
module MetadataRing {

  const MD_MAP_SIZE := 1024

  datatype Metadata = Metadata(moduleIndex: nat, isNetdev: bool, portId: nat, egress: bool)

  /** The number of the last packet, among the first n, that used the slot of packet k. */
  function Latest(k: nat, n: nat): (j: nat)
    requires k <= n
    ensures k <= j <= n && n - j < MD_MAP_SIZE && j % MD_MAP_SIZE == k % MD_MAP_SIZE
    decreases n - k
  {
    if n - k < MD_MAP_SIZE then k else Latest(k + MD_MAP_SIZE, n)
  }

  /** Packet k still has its slot when at most MD_MAP_SIZE packets, itself included, are
      outstanding, and not one more. */
  lemma {:induction false} LatestIsOwn(k: nat, n: nat)
    requires k <= n
    ensures Latest(k, n) == k <==> n - k < MD_MAP_SIZE
    ensures n - k == MD_MAP_SIZE ==> Latest(k, n) == n
  {
  }

  /** Only one packet in a window of MD_MAP_SIZE uses a slot. */
  lemma SameSlot(a: nat, b: nat)
    requires a % MD_MAP_SIZE == b % MD_MAP_SIZE && -MD_MAP_SIZE < a - b < MD_MAP_SIZE
    ensures a == b
  {
  }

  lemma {:induction false} LatestMoves(k: nat, n: nat)
    requires k <= n
    ensures Latest(k, n + 1) == if (n + 1) % MD_MAP_SIZE == k % MD_MAP_SIZE then n + 1 else Latest(k, n)
  {
    var j, j' := Latest(k, n), Latest(k, n + 1);
    if (n + 1) % MD_MAP_SIZE == k % MD_MAP_SIZE {
      SameSlot(j', n + 1);
    } else if j' != n + 1 {
      SameSlot(j', j);
    }
  }

  lemma NextSlot(n: nat)
    ensures (n % MD_MAP_SIZE + 1) % MD_MAP_SIZE == (n + 1) % MD_MAP_SIZE
  {
  }

  class Ring {
    const slots: array<Metadata>
    var writer: nat
    var reader: nat
    ghost var sent: seq<Metadata>     // packet k, from 1 on, carries sent[k - 1]
    ghost var received: nat

    constructor ()
      ensures Valid() && sent == [] && received == 0
    {
      slots := new Metadata[MD_MAP_SIZE](_ => Metadata(0, false, 0, false));
      writer, reader, sent, received := 0, 0, [], 0;
    }

    /** The slot of packet k holds what its last user wrote. */
    ghost predicate SlotOk(k: nat)
      requires slots.Length == MD_MAP_SIZE && k <= |sent|
      reads this`sent, slots
    {
      k > 0 ==> slots[k % MD_MAP_SIZE] == sent[Latest(k, |sent|) - 1]
    }

    /** Each slot that was ever written holds the metadata of the last packet that used
        it. */
    ghost predicate Valid()
      reads this, slots
    {
      && slots.Length == MD_MAP_SIZE && received <= |sent|
      && writer == |sent| % MD_MAP_SIZE && reader == received % MD_MAP_SIZE
      && forall k: nat {:trigger SlotOk(k)} :: k <= |sent| ==> SlotOk(k)
    }

    /** Writes the metadata of a packet, which is then queued behind the earlier ones. */
    method SendPacketToCube(md: Metadata)
      requires Valid()
      modifies this`writer, this`sent, slots
      ensures Valid() && sent == old(sent) + [md]
    {
      ghost var n := |sent|;
      NextSlot(n);
      writer := writer + 1;
      writer := writer % MD_MAP_SIZE;
      slots[writer] := md;
      sent := sent + [md];
      forall k: nat | k <= n + 1 ensures SlotOk(k) {
        if k == n + 1 {
          LatestIsOwn(k, n + 1);
        } else if k > 0 {
          assert old(SlotOk(k));
          LatestMoves(k, n);
        }
      }
    }

    /** Handles the next packet: it meets the metadata written for it if no more packets
        are outstanding than the ring has slots; otherwise those of a later packet. */
    method ModuleRx() returns (md: Metadata)
      requires Valid() && received < |sent|
      modifies this`reader, this`received
      ensures Valid() && received == old(received) + 1
      ensures md == sent[Latest(received, |sent|) - 1]
      ensures |sent| - old(received) <= MD_MAP_SIZE ==> md == sent[received - 1]
    {
      NextSlot(received);
      assert SlotOk(received + 1);
      reader := reader + 1;
      reader := reader % MD_MAP_SIZE;
      md := slots[reader];
      received := received + 1;
      LatestIsOwn(received, |sent|);
    }
  }

  /** The bound is tight: one packet more, and the oldest meets the newest's metadata. */
  method OneTooMany(ring: Ring, md: Metadata) returns (got: Metadata)
    requires ring.Valid() && |ring.sent| - ring.received == MD_MAP_SIZE
    modifies ring, ring.slots
    ensures ring.Valid() && got == md && old(ring.received) < |ring.sent| && ring.sent == old(ring.sent) + [md]
  {
    ring.SendPacketToCube(md);
    got := ring.ModuleRx();
    LatestIsOwn(ring.received, |ring.sent|);
  }
}
