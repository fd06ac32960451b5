// Packets: a fixed byte array with a header that grows to the left and a payload that
// grows to the right, and the pool that hands packets out and takes them back.
module Packets {
  import opened Bytes
  import opened Seqs

  // A view of `size` bytes starting at index `data` of a packet's memory.
  class Buffer {
    const mem: array<Byte>
    var data: nat
    var size: nat
    var capacity: nat

    // After the header of a received packet was dropped, `data + capacity` may lie beyond
    // the memory; the bytes in use never do.
    ghost predicate Valid()
      reads this
    {
      size <= capacity && data + size <= mem.Length
    }

    ghost predicate MayGrowRight()
      reads this
    {
      Valid() && data + capacity <= mem.Length
    }

    ghost predicate MayGrowLeft()
      reads this
    {
      Valid() && capacity <= data + size
    }

    ghost function Contents(): (s: seq<Byte>)
      requires Valid()
      reads this, mem
    {
      mem[data..data + size]
    }

    constructor (mem: array<Byte>)
      ensures this.mem == mem && data == 0 && size == 0 && capacity == 0
    {
      this.mem := mem;
      data, size, capacity := 0, 0, 0;
    }

    method Init(data: nat, capacity: nat, size: nat)
      requires size <= capacity && data + size <= mem.Length
      modifies this
      ensures Valid() && this.data == data && this.capacity == capacity && this.size == size
    {
      this.data := data;
      this.capacity := capacity;
      SetSize(size);
    }

    method SetSize(n: nat)
      requires n <= capacity && data + n <= mem.Length
      modifies this`size
      ensures Valid() && size == n
    {
      size := n;
    }

    // Every access to bytes of the view, checked: where they are in the memory, or an
    // exception if they are not all in the view.
    method Access(offset: nat, n: nat) returns (ok: bool, at: nat)
      requires Valid()
      ensures ok <==> offset + n <= |Contents()|
      ensures ok ==> at + n <= mem.Length && mem[at..at + n] == Contents()[offset..offset + n]
    {
      ok, at := offset + n <= size, data + offset;
      if ok {
        Slice(mem[..], data, data + size, offset, offset + n);
        assert mem[..][data..data + size] == Contents() && mem[..][at..at + n] == mem[at..at + n];
      }
    }

    method Read(offset: nat, n: nat) returns (s: seq<Byte>)
      requires Valid() && offset + n <= size
      ensures s == Contents()[offset..offset + n]
    {
      var ok, at := Access(offset, n);
      s := mem[at..at + n];
    }

    // Extends the view on its right end. `at` is the memory index of the new bytes.
    method GrowRight(n: nat) returns (ok: bool, at: nat)
      requires MayGrowRight()
      modifies this`size
      ensures MayGrowRight()
      ensures ok <==> old(size) + n <= capacity
      ensures ok ==> size == old(size) + n && at == data + old(size) && at + n <= mem.Length
      ensures !ok ==> size == old(size)
    {
      if size + n > capacity {
        return false, 0;
      }
      var offset := size;
      SetSize(size + n);
      return true, data + offset;
    }

    // Extends the view on its left end.
    method GrowLeft(n: nat) returns (ok: bool, at: nat)
      requires MayGrowLeft()
      modifies this`size, this`data
      ensures MayGrowLeft()
      ensures ok <==> old(size) + n <= capacity
      ensures ok ==> size == old(size) + n && at == data == old(data) - n
      ensures !ok ==> size == old(size) && data == old(data)
    {
      if size + n > capacity {
        return false, 0;
      }
      size := size + n;
      data := data - n;
      return true, data;
    }
  }

  class Packet {
    const memory: array<Byte>
    const header: Buffer
    const payload: Buffer
    var pool: RecyclingPool?
    var next: Packet?

    ghost function Repr(): set<object> {
      {this, memory, header, payload}
    }

    ghost predicate Valid()
      reads this, header, payload
    {
      && memory.Length == MAX_PACKET_SIZE
      && header.mem == memory && payload.mem == memory && header != payload
      && header.Valid() && payload.Valid()
    }

    // Header and payload are contiguous and have room on their outer sides.
    ghost predicate Contiguous()
      reads this, header, payload
    {
      && Valid()
      && header.data + header.size == payload.data
      && header.MayGrowLeft() && payload.MayGrowRight()
    }

    // The state of a packet nobody has written to yet.
    ghost predicate Fresh()
      reads this, header, payload
    {
      && Contiguous()
      && header.size == 0 && payload.size == 0
      && header.capacity == MAX_HEADER_SIZE && payload.capacity == MAX_PAYLOAD_SIZE
    }

    // All bytes of the packet, header first.
    ghost function Contents(): (s: seq<Byte>)
      requires Contiguous()
      reads this, header, payload, memory
    {
      memory[header.data..payload.data + payload.size]
    }

    constructor ()
      ensures Fresh() && pool == null && next == null
      ensures memory.Length == 1024 && header.capacity == 128 && payload.capacity == 896
      ensures fresh(memory) && fresh(header) && fresh(payload)
    {
      var m := new Byte[MAX_PACKET_SIZE];
      memory := m;
      header := new Buffer(m);
      payload := new Buffer(m);
      pool, next := null, null;
      new;
      SetHeaderCapacity(MAX_HEADER_SIZE);
    }

    method SetHeaderCapacity(capacity: nat)
      requires memory.Length == MAX_PACKET_SIZE && capacity <= MAX_PACKET_SIZE
      requires header.mem == memory && payload.mem == memory && header != payload
      modifies header, payload
      ensures Contiguous()
      ensures header.size == 0 && header.data == header.capacity == capacity
      ensures payload.size == 0 && payload.data == capacity
      ensures payload.capacity == MAX_PACKET_SIZE - capacity
    {
      header.Init(capacity, capacity, 0);
      payload.Init(capacity, MAX_PACKET_SIZE - capacity, 0);
    }

    // Index of the first byte of the packet in its memory.
    function Data(): nat
      reads this, header
    {
      header.data
    }

    function Size(): nat
      reads this, header, payload
    {
      header.size + payload.size
    }

    // Removes the first `n` payload bytes. The capacity stays as it was, so the payload
    // must not grow afterwards.
    method DropHeader(n: nat)
      requires Valid() && n <= payload.size
      modifies payload
      ensures Valid()
      ensures payload.Contents() == old(payload.Contents())[n..]
      ensures payload.capacity == old(payload.capacity)
    {
      payload.Init(payload.data + n, payload.capacity, payload.size - n);
    }

    // Gives the packet back to the pool it came from; false stands for the exception
    // thrown when there is none.
    method Recycle() returns (ok: bool)
      requires Valid()
      requires pool != null ==> pool.Valid() && pool.Apart(this)
      modifies this, header, payload, pool
      ensures Valid()
      ensures ok <==> old(pool) != null
      ensures ok ==>
                var p := old(pool);
                && p.Valid() && p.exhausted == old(pool.exhausted)
                && p.free == [this] + old(pool.free) && p.objects == old(pool.objects) + Repr()
    {
      SetHeaderCapacity(MAX_HEADER_SIZE);
      if pool == null {
        return false;
      }
      pool.Add(this);
      return true;
    }
  }

  // A free list threaded through the packets' `next` links.
  class RecyclingPool {
    var first: Packet?
    ghost var free: seq<Packet>

    ghost var objects: set<object>   // that the free packets consist of
    ghost var exhausted: bool        // a packet was asked for when there was none

    ghost predicate Valid()
      reads this, objects
    {
      && this !in objects && (first == null <==> free == [])
      && (free != [] ==> first == free[0])
      && (forall i | 0 <= i < |free| :: free[i].Repr() <= objects)
      && (forall i | 0 <= i < |free| :: Linked(i))
      && (forall i, j | 0 <= i < j < |free| :: free[i].Repr() !! free[j].Repr())
    }

    // Packet i of the list is as good as new and points to its successor.
    ghost predicate Linked(i: nat)
      requires i < |free| && free[i].Repr() <= objects
      reads this, objects
    {
      var p := free[i];
      p.Fresh() && p.pool == null && p.next == if i + 1 < |free| then free[i + 1] else null
    }

    // The packet shares no object with any free packet.
    ghost predicate Apart(p: Packet)
      reads this
    {
      p.Repr() !! objects
    }

    constructor ()
      ensures Valid() && free == [] && objects == {} && !exhausted
    {
      first, free, objects, exhausted := null, [], {}, false;
    }

    method Add(p: Packet)
      requires Valid() && Apart(p) && p.Fresh()
      modifies this, p
      ensures Valid() && free == [p] + old(free)
      ensures p.pool == null && objects == old(objects) + p.Repr() && exhausted == old(exhausted)
    {
      p.pool := null;
      p.next := first;
      first := p;
      free, objects := [p] + free, objects + p.Repr();
      forall i | 0 < i < |free| ensures Linked(i) {
        assert free[i] == old(free)[i - 1] && old(Linked(i - 1));
      }
    }

    method Take() returns (p: Packet?)
      requires Valid()
      modifies this, first
      ensures Valid()
      ensures p == null <==> old(free) == []
      ensures exhausted == (old(exhausted) || p == null)
      ensures p == null ==> free == old(free) && objects == old(objects)
      ensures p != null ==>
                && free == old(free)[1..] && p == old(free)[0]
                && p.Fresh() && p.pool == this && Apart(p)
                && p.Repr() <= old(objects) && objects == old(objects) - p.Repr()
    {
      if first == null {
        exhausted := true;
        return null;
      }
      p := first;
      assert Linked(0);
      first := first.next;
      p.pool := this;
      free, objects := free[1..], objects - p.Repr();
      forall i | 0 <= i < |free| ensures Linked(i) {
        assert free[i] == old(free)[i + 1] && old(Linked(i + 1));
      }
    }
  }
}
