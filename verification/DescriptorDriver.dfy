/** The driver's side of the descriptor rings on its linked lists: every call is one or several
    of the steps of DescriptorRing, or leaves the table alone. */
module DescriptorDriver {
  import opened BitStrings
  import opened Results
  import opened IntrusiveList
  import DescriptorRing
  import opened TransmitControl

  type Packet = DescriptorRing.Packet

  /** What grspw2_tx_desc_add_pkt returns or sets as error number. */
  datatype Status = Added | Invalid | NoDescriptor

  /** The bytes copied from a buffer that is not null. */
  function Part(buffer: Option<Packet>, size: nat): Packet
    requires buffer.Some? ==> size <= |buffer.value|
  {
    if buffer.Some? then buffer.value[..size] else []
  }

  predicate SizesAreSound(hdr: Option<Packet>, hdrSize: nat, data: Option<Packet>, dataSize: nat) {
    (hdr.Some? ==> hdrSize <= |hdr.value|) && (data.Some? ==> dataSize <= |data.value|)
  }

  predicate BuffersAreMissing(hdr: Option<Packet>, hdrSize: nat, data: Option<Packet>, dataSize: nat) {
    (hdrSize != 0 && hdr.None?) || (dataSize != 0 && data.None?)
  }

  /** What the core sends: as much of header and data as the size fields of a descriptor say. */
  function Sent(hdr: Option<Packet>, hdrSize: nat, data: Option<Packet>, dataSize: nat): Packet
    requires SizesAreSound(hdr, hdrSize, data, dataSize)
  {
    Part(hdr, hdrSize % HDR_SIZES) + Part(data, dataSize % DATA_SIZES)
  }

  /** A packet is sent whole exactly when its sizes fit their fields. */
  lemma SentWholeIff(hdr: Option<Packet>, hdrSize: nat, data: Option<Packet>, dataSize: nat)
    requires SizesAreSound(hdr, hdrSize, data, dataSize) && !BuffersAreMissing(hdr, hdrSize, data, dataSize)
    ensures Sent(hdr, hdrSize, data, dataSize) == Part(hdr, hdrSize) + Part(data, dataSize)
            <==> hdrSize < HDR_SIZES && dataSize < DATA_SIZES
  {
    assert |Sent(hdr, hdrSize, data, dataSize)| == hdrSize % HDR_SIZES + dataSize % DATA_SIZES;
  }

  /** The bytes grspw2_get_pkt copies from behind the stripped ones are the rest of the packet exactly
      when there is one; otherwise their number wraps. */
  lemma StripFitsIff(size: nat, strip: nat)
    requires size < TWO_32 && strip < TWO_32
    ensures strip + U32(size - strip) == size <==> strip <= size
    ensures strip > size ==> strip + U32(size - strip) == size + TWO_32
  {
  }

  /** Two bytes with four to strip: nearly the whole address space would be copied. */
  lemma ShortPacketWraps()
    ensures U32(2 - 4) == 0xFFFF_FFFE
  {
    assert U32(-2) == U32(TWO_32 - 2);
  }

  function Ids(nodes: seq<Node>): (ids: seq<nat>)
    ensures |ids| == |nodes|
  {
    seq(|nodes|, i requires 0 <= i < |nodes| => nodes[i].id)
  }

  function EnableBits(nodes: seq<Node>): (b: seq<bool>)
    reads nodes`enabled
    ensures |b| == |nodes| && forall i :: 0 <= i < |nodes| ==> b[i] == nodes[i].enabled
  {
    if nodes == [] then [] else EnableBits(nodes[..|nodes| - 1]) + [nodes[|nodes| - 1].enabled]
  }

  function Buffers(nodes: seq<Node>): (b: seq<Packet>)
    reads nodes`buffer
    ensures |b| == |nodes| && forall i :: 0 <= i < |nodes| ==> b[i] == nodes[i].buffer
  {
    if nodes == [] then [] else Buffers(nodes[..|nodes| - 1]) + [nodes[|nodes| - 1].buffer]
  }

  lemma IdsOfMoved(from: seq<Node>, k: nat, to: seq<Node>)
    requires k < |from|
    ensures Ids(Without(from, k)) == Without(Ids(from), k)
    ensures Ids(from)[k] == from[k].id && (k == 0 ==> Without(Ids(from), k) == Ids(from)[1..])
    ensures Ids(to + [from[k]]) == Ids(to) + [from[k].id]
  {
  }

  lemma FirstOf(head: Node, list: seq<Node>)
    requires Circle([head] + list)
    ensures head.next == if list == [] then head else list[0]
    ensures list != [] ==> list[0] != head
  {
    var r := [head] + list;
    NextOf(r, 0);
    if list != [] {
      assert r[1] == list[0];
    }
  }

  /** An element that is moved was in its list once; behind the head the lists change likewise. */
  lemma MovedOnce(head: Node, from: seq<Node>, k: nat)
    requires k < |from| && Circle([head] + from)
    ensures from[k] !in Without(from, k) && from[k] in from && forall m <- Without(from, k) :: m in from
    ensures Without([head] + from, k + 1) == [head] + Without(from, k)
  {
    hide Circle, Distinct;
    var r := [head] + from;
    Neighbours(r, k + 1);
    WithoutIs(r, k + 1);
    var rest := Without(from, k);
    assert Without(r, k + 1) == [head] + rest;
    forall m | m in rest ensures m in from && m != from[k] {
      assert m in [head] + rest;
      var i :| 0 <= i < |rest| && rest[i] == m;
      assert m == from[if i < k then i else i + 1];
    }
  }

  /** One descriptor is disabled and goes to the end of the free list. */
  method Append(node: Node, control: Control, head: Node, ghost t: seq<Node>)
    requires Circle([head] + t) && node != head && node !in t
    modifies node`enabled, node`control, node`next, node`prev, head`next, head`prev, t`next, t`prev
    ensures Circle([head] + (t + [node])) && !node.enabled && node.control == control
  {
    hide Circle;
    node.enabled := false;
    node.control := control;
    AddTail(node, head, [head] + t);
    assert [head] + t + [node] == [head] + (t + [node]);
  }

  /** How many of count descriptors fit a table of the given size. */
  function Fitting(tblSize: nat, descSize: nat, count: nat): (n: nat)
    requires descSize > 0
    ensures n <= count
  {
    if tblSize / descSize > count then count else tblSize / descSize
  }

  /** Every descriptor that is listed lies in the table, and no further one of the driver's would. */
  lemma FittingIsExact(tblSize: nat, descSize: nat, count: nat)
    requires descSize > 0
    ensures var n := Fitting(tblSize, descSize, count);
            && n <= count && n * descSize <= tblSize
            && (n == count || (n + 1) * descSize > tblSize)
  {
    var q := tblSize / descSize;
    assert q * descSize <= tblSize < (q + 1) * descSize;
    if q > count {
      assert q * descSize == count * descSize + (q - count) * descSize;
    }
  }

  const TABLE_SIZE := 1024
  const RX_DESC_SIZE := 8
  const TX_DESC_SIZE := 16

  /** The driver lists all 128 receive and all 64 transmit descriptors of full tables. */
  lemma FullTables()
    ensures Fitting(TABLE_SIZE, RX_DESC_SIZE, 128) == 128 && Fitting(TABLE_SIZE, TX_DESC_SIZE, 64) == 64
    ensures 128 * RX_DESC_SIZE == 64 * TX_DESC_SIZE == TABLE_SIZE
  {
    FittingIsExact(TABLE_SIZE, RX_DESC_SIZE, 128);
    FittingIsExact(TABLE_SIZE, TX_DESC_SIZE, 64);
  }

  /** grspw2_rx_desc_table_init and grspw2_tx_desc_table_init, without the addresses. */
  method TableInit(ring: seq<Node>, tblSize: nat, descSize: nat, control: Control, usedHead: Node, freeHead: Node)
    requires descSize > 0 && usedHead != freeHead && usedHead !in ring && freeHead !in ring
    requires forall i :: 0 <= i < |ring| ==> ring[i].id == i
    modifies usedHead`next, usedHead`prev, freeHead`next, freeHead`prev
    modifies ring`enabled, ring`control, ring`next, ring`prev
    ensures var table := ring[..Fitting(tblSize, descSize, |ring|)];
            && Circle([usedHead]) && Circle([freeHead] + table)
            && forall i :: 0 <= i < |table| ==> !table[i].enabled && table[i].control == control
  {
    hide Circle;
    InitHead(usedHead);
    InitHead(freeHead);
    var n := Fitting(tblSize, descSize, |ring|);
    assert [freeHead] + ring[..0] == [freeHead];
    for i := 0 to n
      invariant Circle([usedHead]) && Circle([freeHead] + ring[..i])
      invariant forall k :: 0 <= k < i ==> !ring[k].enabled && ring[k].control == control
    {
      AllDiffer(ring, i);
      Append(ring[i], control, freeHead, ring[..i]);
      assert ring[..i + 1] == ring[..i] + [ring[i]];
    }
  }

  lemma AllDiffer(ring: seq<Node>, i: nat)
    requires i < |ring| && forall k :: 0 <= k < |ring| ==> ring[k].id == k
    ensures ring[i] !in ring[..i] && forall k :: 0 <= k < i ==> ring[k] != ring[i]
    ensures forall k :: 0 <= k < |ring[..i]| ==> ring[..i][k] in ring
  {
  }

  /** The descriptors of a driver that is not initialised. */
  method NewRing(count: nat) returns (ring: seq<Node>)
    ensures |ring| == count && forall i :: 0 <= i < count ==> fresh(ring[i]) && ring[i].id == i && ring[i].buffer == []
  {
    ring := [];
    while |ring| < count
      invariant |ring| <= count
      invariant forall i :: 0 <= i < |ring| ==> fresh(ring[i]) && ring[i].id == i && ring[i].buffer == []
    {
      var node := new Node(|ring|);
      ring := ring + [node];
    }
  }

  /** A table initialised in the memory of a new driver. */
  method NewTable(count: nat, tblSize: nat, descSize: nat, control: Control)
    returns (table: seq<Node>, usedHead: Node, freeHead: Node)
    requires descSize > 0
    ensures Circle([usedHead]) && Circle([freeHead] + table)
    ensures fresh(usedHead) && fresh(freeHead) && usedHead != freeHead && usedHead !in table && freeHead !in table
    ensures |table| == Fitting(tblSize, descSize, count) && forall m <- table :: fresh(m) && m.control == control
    ensures forall i :: 0 <= i < |table| ==> table[i].id == i && !table[i].enabled && table[i].buffer == []
  {
    hide Circle;
    usedHead := new Node(0);
    freeHead := new Node(0);
    var ring := NewRing(count);
    TableInit(ring, tblSize, descSize, control, usedHead, freeHead);
    table := ring[..Fitting(tblSize, descSize, count)];
  }

  lemma FreshIs(table: seq<Node>)
    requires forall i :: 0 <= i < |table| ==> table[i].id == i && !table[i].enabled && table[i].buffer == []
    ensures DescriptorRing.Ring(|table|, Ids([]), Ids(table), EnableBits(table), Buffers(table), 0)
            == DescriptorRing.FreshRing(|table|)
  {
    var start := DescriptorRing.FreshRing(|table|);
    FreshBits(table);
    hide EnableBits, Buffers;
    assert Ids([]) == start.used && Ids(table) == start.free;
  }

  lemma FreshBits(table: seq<Node>)
    requires forall i :: 0 <= i < |table| ==> !table[i].enabled && table[i].buffer == []
    ensures EnableBits(table) == DescriptorRing.FreshRing(|table|).enabled
    ensures Buffers(table) == DescriptorRing.FreshRing(|table|).buffers
  {
    var bits, buffers := EnableBits(table), Buffers(table);
    hide EnableBits, Buffers;
    assert bits == DescriptorRing.FreshRing(|table|).enabled;
    assert buffers == DescriptorRing.FreshRing(|table|).buffers;
  }

  class Driver {
    const table: seq<Node>
    const usedHead: Node
    const freeHead: Node
    /** The core's position in the table. */
    var hw: nat
    /** Bytes of a received packet that are not handed on, and the numbers of bytes received and sent. */
    const stripHdrBytes: nat
    var rxBytes: nat
    var txBytes: nat
    /** The lists, without their heads. */
    ghost var used: seq<Node>
    ghost var free: seq<Node>

    ghost predicate Valid()
      reads this`used, this`free, usedHead`next, usedHead`prev, freeHead`next, freeHead`prev, used`next, used`prev,
        free`next, free`prev
    {
      && (forall m <- used :: m in table) && (forall m <- free :: m in table)
      && usedHead !in table && freeHead !in table && usedHead != freeHead
      && (forall m <- used :: m !in free)
      && Circle([usedHead] + used) && Circle([freeHead] + free)
      && (forall i :: 0 <= i < |table| ==> table[i].id == i)
    }

    /** The state of the table and the lists, by descriptor numbers. */
    ghost function Abs(): DescriptorRing.Ring
      reads this`used, this`free, this`hw, table`enabled, table`buffer
    {
      DescriptorRing.Ring(|table|, Ids(used), Ids(free), EnableBits(table), Buffers(table), hw)
    }

    /** The tables of rx and tx descriptors start alike: all descriptors are free and disabled. */
    constructor (count: nat, tblSize: nat, descSize: nat, control: Control, stripHdrBytes: nat)
      requires descSize > 0
      ensures Valid() && Abs() == DescriptorRing.FreshRing(Fitting(tblSize, descSize, count))
      ensures this.stripHdrBytes == stripHdrBytes && rxBytes == 0 && txBytes == 0
      ensures forall m <- table :: fresh(m) && m.control == control
      ensures fresh(usedHead) && fresh(freeHead)
    {
      hide Circle, Ids, EnableBits, Buffers, Fitting, DescriptorRing.FreshRing;
      var t, u, f := NewTable(count, tblSize, descSize, control);
      table, usedHead, freeHead := t, u, f;
      used, free, hw := [], t, 0;
      this.stripHdrBytes, rxBytes, txBytes := stripHdrBytes, 0, 0;
      new;
      assert [usedHead] + [] == [usedHead];
      FreshIs(table);
    }

    lemma IdsAreInTable()
      requires Valid()
      ensures forall i :: 0 <= i < |used| ==> used[i].id < |table| && table[used[i].id] == used[i]
      ensures forall i :: 0 <= i < |free| ==> free[i].id < |table| && table[free[i].id] == free[i]
      ensures DescriptorRing.Numbered(Abs()) && Abs().size == |table|
      ensures Abs().free == Ids(free) && (free != [] ==> Abs().free[0] == free[0].id)
    {
      hide Circle, EnableBits, Buffers;
      forall i | 0 <= i < |used| ensures used[i].id < |table| && table[used[i].id] == used[i] {
        assert used[i] in table;
      }
      forall i | 0 <= i < |free| ensures free[i].id < |table| && table[free[i].id] == free[i] {
        assert free[i] in table;
      }
    }

    /** grspw2_rx_desc_move_free and grspw2_tx_desc_move_free of used descriptor number k. */
    method MoveFree(p: Node, ghost k: nat)
      requires Valid() && k < |used| && p == used[k]
      modifies this`used, this`free, table`next, table`prev, usedHead`next, usedHead`prev, freeHead`next, freeHead`prev
      ensures Valid() && used == Without(old(used), k) && free == old(free) + [p]
      ensures Abs() == old(Abs()).(used := Without(old(Abs()).used, k), free := old(Abs()).free + [p.id])
      ensures k == 0 ==> Abs() == DescriptorRing.Release(old(Abs()))
    {
      hide Circle, Ids, EnableBits, Buffers, Without;
      MovedOnce(usedHead, used, k);
      assert forall i :: 0 <= i < |used| ==> used[i] in table;
      assert forall i :: 0 <= i < |free| ==> free[i] in table;
      ghost var from, to := [usedHead] + used, [freeHead] + free;
      IdsOfMoved(used, k, free);
      assert to + [p] == [freeHead] + (free + [p]);
      MoveTail(p, freeHead, from, k + 1, to);
      used, free := Without(used, k), free + [p];
    }

    /** grspw2_rx_desc_move_busy and grspw2_tx_desc_move_busy of free descriptor number k. */
    method MoveBusy(p: Node, ghost k: nat)
      requires Valid() && k < |free| && p == free[k]
      modifies this`used, this`free, table`next, table`prev, usedHead`next, usedHead`prev, freeHead`next, freeHead`prev
      ensures Valid() && used == old(used) + [p] && free == Without(old(free), k)
      ensures Abs() == old(Abs()).(used := old(Abs()).used + [p.id], free := Without(old(Abs()).free, k))
      ensures k == 0 ==> Abs() == DescriptorRing.Move(old(Abs()))
    {
      hide Circle, Ids, EnableBits, Buffers, Without;
      MovedOnce(freeHead, free, k);
      assert forall i :: 0 <= i < |used| ==> used[i] in table;
      assert forall i :: 0 <= i < |free| ==> free[i] in table;
      ghost var from, to := [freeHead] + free, [usedHead] + used;
      IdsOfMoved(free, k, used);
      assert to + [p] == [usedHead] + (used + [p]);
      MoveTail(p, usedHead, from, k + 1, to);
      used, free := used + [p], Without(free, k);
    }

    /** list_filled and the first entry of a list; none when the head is linked to itself. */
    method First(head: Node, ghost list: seq<Node>) returns (p: Node?)
      requires Circle([head] + list)
      ensures p == if list == [] then null else list[0]
    {
      FirstOf(head, list);
      if head.next == head {
        return null;
      }
      return head.next;
    }

    /** The enable bit of a descriptor changes: the driver sets it, the core clears it. */
    method SetEnabled(p: Node, ghost d: nat, value: bool)
      requires Valid() && d < |table| && p == table[d]
      modifies p`enabled
      ensures Valid()
      ensures Abs() == old(Abs()).(enabled := old(Abs()).enabled[d := value])
    {
      hide Circle;
      p.enabled := value;
      assert EnableBits(table) == old(EnableBits(table))[d := value];
    }

    /** grspw2_rx_desc_add. */
    method AddDescriptor() returns (ok: bool)
      requires Valid()
      modifies this`used, this`free, table`enabled, table`next, table`prev, usedHead`next, usedHead`prev, freeHead`next,
        freeHead`prev
      ensures Valid() && ok == (old(free) != [])
      ensures DescriptorRing.Numbered(old(Abs())) && Abs() == DescriptorRing.AddDescriptor(old(Abs()))
    {
      hide Circle;
      IdsAreInTable();
      var p := First(freeHead, free);
      if p == null {
        return false;
      }
      SetEnabled(p, p.id, true);
      MoveBusy(p, 0);
      return true;
    }

    /** The first used descriptor, unless it is still active. */
    method NextReceived() returns (p: Node?)
      requires Valid()
      ensures IsNext(p)
    {
      hide Circle, EnableBits, Buffers;
      IdsAreInTable();
      p := First(usedHead, used);
      if p != null && p.enabled {
        return null;
      }
    }

    /** grspw2_rx_desc_readd. */
    method Readd(p: Node) returns (ok: bool)
      requires Valid() && used != [] && p == used[0]
      modifies this`used, this`free, table`enabled, table`next, table`prev, usedHead`next, usedHead`prev, freeHead`next,
        freeHead`prev
      ensures Valid() && ok && old(Abs()).used != []
      ensures var r := DescriptorRing.Release(old(Abs()));
              DescriptorRing.Numbered(r) && Abs() == DescriptorRing.AddDescriptor(r)
    {
      hide Circle, EnableBits, Buffers;
      IdsAreInTable();
      MoveFree(p, 0);
      IdsAreInTable();
      ok := AddDescriptor();
    }

    /** grspw2_get_pkt: the packet of the first used descriptor without the stripped bytes, if the core
        is done with it, or only its size; the descriptor of a packet handed on is re-added. Nothing is
        promised of the bytes copied from a packet shorter than those to strip. */
    method GetPacket(wanted: bool) returns (size: nat, pkt: Option<Packet>)
      requires Valid()
      modifies this`used, this`free, this`rxBytes
      modifies table`enabled, table`next, table`prev, usedHead`next, usedHead`prev, freeHead`next, freeHead`prev
      ensures Valid() && DescriptorRing.Numbered(old(Abs()))
      ensures var r := old(Abs());
              if r.used == [] || r.enabled[r.used[0]]
              then size == 0 && pkt.None? && Abs() == r && rxBytes == old(rxBytes)
              else
                && var p := r.buffers[r.used[0]];
                && size == U32(|p| - stripHdrBytes)
                && if !wanted then pkt.None? && Abs() == r && rxBytes == old(rxBytes)
                   else
                     && (stripHdrBytes <= |p| ==> pkt == Some(p[stripHdrBytes..])) && rxBytes == U32(old(rxBytes) + |p|)
                     && Abs() == DescriptorRing.AddDescriptor(DescriptorRing.Release(r))
    {
      hide Circle, Driver.Valid, Driver.Abs, U32;
      var p := NextReceived();
      if p == null {
        return 0, None;
      }
      size, pkt := U32(|p.buffer| - stripHdrBytes), None;
      if !wanted {
        return;
      }
      rxBytes := U32(rxBytes + |p.buffer|);
      if stripHdrBytes <= |p.buffer| {
        pkt := Some(p.buffer[stripHdrBytes..]);
      }
      var _ := Readd(p);
    }

    /** grspw2_drop_pkt. */
    method DropPacket() returns (dropped: bool)
      requires Valid()
      modifies this`used, this`free, this`rxBytes
      modifies table`enabled, table`next, table`prev, usedHead`next, usedHead`prev, freeHead`next, freeHead`prev
      ensures Valid() && DescriptorRing.Numbered(old(Abs()))
      ensures var r := old(Abs());
              if r.used == [] || r.enabled[r.used[0]]
              then !dropped && Abs() == r && rxBytes == old(rxBytes)
              else
                && dropped && rxBytes == U32(old(rxBytes) + |r.buffers[r.used[0]]|)
                && Abs() == DescriptorRing.AddDescriptor(DescriptorRing.Release(r))
    {
      hide Circle, Driver.Valid, Driver.Abs, U32;
      var p := NextReceived();
      if p == null {
        return false;
      }
      rxBytes := U32(rxBytes + |p.buffer|);
      var _ := Readd(p);
      return true;
    }

    /** grspw2_tx_desc_move_free_all. */
    method ReleaseAll()
      requires Valid()
      modifies this`used, this`free, table`next, table`prev, usedHead`next, usedHead`prev, freeHead`next, freeHead`prev
      ensures Valid() && DescriptorRing.Numbered(old(Abs())) && Abs() == DescriptorRing.ReleaseAll(old(Abs()))
    {
      hide Circle, Driver.Valid, Driver.Abs;
      IdsAreInTable();
      ghost var before := Abs();
      var p := NextReceived();
      while p != null
        invariant Valid() && DescriptorRing.Numbered(before) && IsNext(p)
        invariant DescriptorRing.ReleaseAll(Abs()) == DescriptorRing.ReleaseAll(before)
        decreases |used|
      {
        p := ReleaseFirst(p);
      }
    }

    method ReleaseFirst(p: Node) returns (next: Node?)
      requires Valid() && IsNext(p)
      modifies this`used, this`free, table`next, table`prev, usedHead`next, usedHead`prev, freeHead`next, freeHead`prev
      ensures Valid() && IsNext(next) && |used| < |old(used)|
      ensures DescriptorRing.Numbered(old(Abs()))
      ensures DescriptorRing.ReleaseAll(Abs()) == DescriptorRing.ReleaseAll(old(Abs()))
    {
      hide Circle, Driver.Valid, Driver.Abs;
      MoveFree(p, 0);
      next := NextReceived();
    }

    /** The first used descriptor, or null if there is none that the core is done with. */
    ghost predicate IsNext(p: Node?)
      reads this`used, this`free, this`hw, used`enabled, used`buffer, table`enabled, table`buffer
    {
      var r := Abs();
      && DescriptorRing.Numbered(r)
      && if used == [] || used[0].enabled then p == null && (r.used == [] || r.enabled[r.used[0]])
         else p == used[0] && r.used != [] && !r.enabled[r.used[0]] && used[0].buffer == r.buffers[r.used[0]]
    }

    /** The first free descriptor. */
    method NextFree() returns (p: Node?)
      requires Valid()
      ensures p == (if free == [] then null else free[0]) && (p == null <==> Abs().free == [])
    {
      hide Circle, EnableBits, Buffers;
      p := First(freeHead, free);
    }

    /** grspw2_tx_desc_add_pkt: header and data are copied to the buffers of a free descriptor. */
    method AddPacket(hdr: Option<Packet>, hdrSize: nat, nonCrcBytes: nat, data: Option<Packet>, dataSize: nat)
      returns (status: Status)
      requires Valid() && SizesAreSound(hdr, hdrSize, data, dataSize)
      modifies this`used, this`free, usedHead`next, usedHead`prev, freeHead`next, freeHead`prev
      modifies table`enabled, table`buffer, table`control, table`next, table`prev
      ensures Valid() && DescriptorRing.Numbered(old(Abs()))
      ensures status.Invalid? <==> BuffersAreMissing(hdr, hdrSize, data, dataSize)
      ensures var added := DescriptorRing.AddPacket(old(Abs()), Sent(hdr, hdrSize, data, dataSize));
              match status
              case Invalid => Abs() == old(Abs())
              case NoDescriptor => added.None? && Abs() == DescriptorRing.ReleaseAll(old(Abs()))
              case Added => added.Some? && Abs() == added.value
      ensures forall m <- table ::
                m.control == if status.Added? && used != [] && m == used[|used| - 1]
                             then SetControl(old(m.control), hdrSize, dataSize, nonCrcBytes) else old(m.control)
    {
      hide Circle, Driver.Valid, Driver.Abs, Sent, SetControl;
      IdsAreInTable();
      if (hdrSize != 0 && hdr.None?) || (dataSize != 0 && data.None?) {
        return Invalid;
      }
      ReleaseAll();
      var e := NextFree();
      if e == null {
        return NoDescriptor;
      }
      Submit(e, Sent(hdr, hdrSize, data, dataSize), SetControl(e.control, hdrSize, dataSize, nonCrcBytes));
      return Added;
    }

    /** grspw2_add_pkt, which also counts the bytes. */
    method SendPacket(hdr: Option<Packet>, hdrSize: nat, nonCrcBytes: nat, data: Option<Packet>, dataSize: nat)
      returns (ok: bool)
      requires Valid() && SizesAreSound(hdr, hdrSize, data, dataSize)
      modifies this`used, this`free, this`txBytes, usedHead`next, usedHead`prev, freeHead`next, freeHead`prev
      modifies table`enabled, table`buffer, table`control, table`next, table`prev
      ensures Valid() && DescriptorRing.Numbered(old(Abs()))
      ensures var added := DescriptorRing.AddPacket(old(Abs()), Sent(hdr, hdrSize, data, dataSize));
              && (ok <==> !BuffersAreMissing(hdr, hdrSize, data, dataSize) && added.Some?)
              && (ok ==> Abs() == added.value)
      ensures txBytes == if ok then U32(old(txBytes) + hdrSize + dataSize) else old(txBytes)
    {
      hide Circle, Driver.Valid, Driver.Abs, U32, Sent;
      var status := AddPacket(hdr, hdrSize, nonCrcBytes, data, dataSize);
      if !status.Added? {
        return false;
      }
      txBytes := U32(txBytes + hdrSize + dataSize);
      return true;
    }

    /** The packet is copied, the descriptor enabled and moved to the used list. */
    method Submit(e: Node, p: Packet, control: Control)
      requires Valid() && free != [] && e == free[0]
      modifies this`used, this`free, usedHead`next, usedHead`prev, freeHead`next, freeHead`prev
      modifies table`enabled, table`buffer, table`control, table`next, table`prev
      ensures Valid() && used == old(used) + [e] && old(Abs()).free != [] && DescriptorRing.Numbered(old(Abs()))
      ensures Abs() == DescriptorRing.Activate(DescriptorRing.Fill(old(Abs()), p))
      ensures forall m <- table :: m.control == if m == e then control else old(m.control)
    {
      hide Circle, Driver.Valid, Driver.Abs;
      IdsAreInTable();
      e.control := control;
      FillBuffer(e, e.id, p);
      SetEnabled(e, e.id, true);
      MoveBusy(e, 0);
    }

    method FillBuffer(e: Node, ghost d: nat, p: Packet)
      requires Valid() && d < |table| && e == table[d]
      modifies e`buffer
      ensures Valid()
      ensures Abs() == old(Abs()).(buffers := old(Abs()).buffers[d := p])
    {
      hide Circle;
      e.buffer := p;
      assert Buffers(table) == old(Buffers(table))[d := p];
    }

    lemma AbsAt(d: nat)
      requires d < |table|
      ensures Abs().size == |Abs().enabled| == |Abs().buffers| == |table| && Abs().hw == hw
      ensures Abs().enabled[d] == table[d].enabled
    {
    }

    /** A step of the core beside the driver: it touches no link, so the lists stay sound. */
    method CoreStep(p: Packet)
      requires Valid() && hw < |table|
      modifies this`hw, table`enabled, table`buffer
      ensures Valid()
      ensures Abs() == if old(Abs()).enabled[old(hw)] then DescriptorRing.Complete(old(Abs()), p) else old(Abs())
    {
      hide Circle, Driver.Valid, Driver.Abs;
      var d := table[hw];
      AbsAt(hw);
      if d.enabled {
        SetEnabled(d, hw, false);
        FillBuffer(d, hw, p);
        Advance();
      }
    }

    method Advance()
      requires Valid()
      modifies this`hw
      ensures Valid() && Abs() == old(Abs()).(hw := DescriptorRing.Next(old(hw), |table|))
    {
      hide Circle, EnableBits, Buffers;
      hw := DescriptorRing.Next(hw, |table|);
    }
  }
}
