/** The ring buffer of entries with its byte budget: `nghttp2_hd_context` with `nghttp2_hd_ringbuf`. */
module HpackRing {
  import opened Bytes
  import opened HpackTable
  import opened HpackFormat
  import opened HpackContext

  /** Slot `i` places after `first` in a ring of `m`. */
  function SlotOf(first: nat, i: nat, m: nat): (r: nat)
    requires m > 0
    ensures r < m
  {
    (first + i) % m
  }

  /** Counted around the ring from `first`, the slots hold `es`. */
  ghost predicate Holds(a: seq<Entry?>, first: nat, es: seq<Entry>) {
    |a| > 0 && |es| <= |a| && forall i :: 0 <= i < |es| ==> a[SlotOf(first, i, |a|)] == es[i]
  }

  /** Counting back from the next number, modulo 2^32, numbers the entries newest first. */
  ghost predicate Numbered(es: seq<Entry>, nextSeq: nat) {
    forall i :: 0 <= i < |es| ==> es[i].seqNo == (nextSeq - 1 - i) % UINT32_SIZE
  }

  lemma FromZero(a: seq<Entry?>, es: seq<Entry>)
    requires 0 < |a| && |es| <= |a| && forall i :: 0 <= i < |es| ==> a[i] == es[i]
    ensures Holds(a, 0, es)
  {
    forall i | 0 <= i < |es| ensures a[SlotOf(0, i, |a|)] == es[i] {
      ModSmall(i, |a|);
    }
  }

  /** Stepping `first` back by one and filling that slot puts an entry in front. */
  lemma FrontHolds(a: seq<Entry?>, first: nat, es: seq<Entry>, now: nat, ent: Entry)
    requires Holds(a, first, es) && |es| < |a| && now % |a| == (first - 1) % |a|
    ensures Holds(a[now % |a| := ent], now, [ent] + es)
  {
    var m := |a|;
    var a', es' := a[now % m := ent], [ent] + es;
    forall i | 0 <= i < |es'| ensures a'[SlotOf(now, i, m)] == es'[i] {
      if i == 0 {
        assert SlotOf(now, 0, m) == now % m;
      } else {
        ModShiftBoth(now, first - 1, i, m);
        ModDistinct(first - 1, i, m);
        assert SlotOf(now, i, m) == SlotOf(first, i - 1, m);
        assert a[SlotOf(first, i - 1, m)] == es[i - 1];
      }
    }
  }

  class HdContext {
    var buffer: array<Entry?>
    var mask: nat
    var first: nat
    var len: nat
    var bufsize: nat
    var bufsizeMax: nat
    var nextSeq: nat
    var bad: bool
    ghost var entries: seq<Entry>
    ghost var bits: nat

    /** The slots from `first` on, counted around the ring, hold the entries newest first. */
    ghost predicate ValidRing()
      reads this, buffer
    {
      && bits <= 64 && buffer.Length == Pow2(bits) == mask + 1
      && first < UINT64_SIZE && nextSeq < UINT32_SIZE
      && len == |entries| <= buffer.Length
      && Holds(buffer[..], first, entries)
      && Distinct(entries)
    }

    /** The byte count is the sum of entry sizes, and an entry's age can be told from its number modulo 2^32. */
    ghost predicate Valid()
      reads this, buffer
    {
      && ValidRing()
      && bufsize == SizeOf(Fields(entries))
      && Numbered(entries, nextSeq)
    }

    /** The table within its budget. */
    ghost predicate Settled()
      reads this, buffer
    {
      Valid() && bufsize <= bufsizeMax <= UINT32_MAX
    }

    ghost function Table(): fields
      reads this
    {
      Fields(entries)
    }

    constructor (size: nat)
      requires size <= 0x8000_0000
      ensures Valid() && fresh(buffer)
      ensures buffer.Length >= size && (buffer.Length > 1 ==> buffer.Length < 2 * size)
      ensures entries == [] && bufsizeMax == DEFAULT_TABLE_SIZE && !bad
    {
      var n, k := NextPow2(size);
      buffer := new Entry?[n](_ => null);
      mask, bits := n - 1, k;
      first, len, bufsize, bufsizeMax, nextSeq, bad := 0, 0, 0, DEFAULT_TABLE_SIZE, 0, false;
      entries := [];
    }

    /** What the C expression `(first + idx) & mask` selects, with its 64-bit wrap. */
    function Slot(idx: nat): (r: nat)
      requires bits <= 64 && buffer.Length == Pow2(bits) == mask + 1
      reads this
      ensures r < buffer.Length
      ensures r == SlotOf(first, idx, buffer.Length)
    {
      WrapThenMask(first + idx, bits);
      (first + idx) % UINT64_SIZE % (mask + 1)
    }

    function Get(idx: nat): (e: Entry)
      requires ValidRing() && idx < len
      reads this, buffer
      ensures e == entries[idx]
    {
      assert buffer[..][SlotOf(first, idx, buffer.Length)] == entries[idx];
      buffer[Slot(idx)]
    }

    /** Makes room for `n` entries, moving them to the start of a larger ring if need be. */
    method Reserve(n: nat)
      requires ValidRing() && n <= 0x8000_0000
      modifies this`buffer, this`mask, this`first, this`bits
      ensures ValidRing() && buffer.Length >= n
      ensures buffer == old(buffer) || fresh(buffer)
    {
      if mask + 1 >= n {
        return;
      }
      var size, k := NextPow2(n);
      var a := new Entry?[size](_ => null);
      for i := 0 to len
        modifies a
        invariant forall j :: 0 <= j < i ==> a[j] == entries[j]
      {
        a[i] := Get(i);
      }
      buffer, mask, first, bits := a, size - 1, 0, k;
      FromZero(buffer[..], entries);
    }

    /** A new entry takes the slot before `first`, counted around the ring. */
    method PushFront(ent: Entry)
      requires ValidRing() && ent !in entries && len < 0x8000_0000
      modifies this`buffer, this`mask, this`first, this`bits, this`len, this`entries, buffer
      ensures ValidRing() && entries == [ent] + old(entries)
      ensures buffer == old(buffer) || fresh(buffer)
    {
      hide Holds, Pow2, SlotOf;
      Reserve(len + 1);
      label reserved:
      first := (first - 1) % UINT64_SIZE;
      StepBack(old@reserved(first), first, bits);
      FrontHolds(buffer[..], old@reserved(first), entries, first, ent);
      buffer[first % (mask + 1)] := ent;
      len := len + 1;
      entries := [ent] + entries;
    }

    /** The chain index, when there is one, covers exactly the ring. */
    ghost predicate Indexed(chains: HdMap?)
      reads this, chains, if chains == null then {} else {chains.table}, entries
    {
      chains != null ==> chains.Indexes(entries) && chains.table != buffer
    }

    method SetMax(max: nat, chains: HdMap?)
      requires Valid() && Indexed(chains)
      modifies this`bufsizeMax
      ensures Valid() && Indexed(chains) && bufsizeMax == max
    {
      bufsizeMax := max;
    }

    /** Drops the oldest entry from the ring, the byte count and its chain. */
    method EvictOldest(chains: HdMap?)
      requires Valid() && len > 0 && Indexed(chains)
      modifies this`len, this`bufsize, this`entries, if chains == null then {} else {chains.table}, entries
      ensures Valid() && Indexed(chains) && entries == old(entries)[..old(len) - 1]
      ensures bufsize == 32 * len + |Octets(Table())|
    {
      ghost var es := entries;
      var ent := PopBack();
      if chains != null {
        chains.Remove(ent, es, |es| - 1);
        assert es[..|es| - 1] + es[|es| - 1 + 1..] == es[..|es| - 1];
      }
      Counts();
    }

    method PopBack() returns (ent: Entry)
      requires Valid() && len > 0
      modifies this`len, this`bufsize, this`entries
      ensures Valid() && entries == old(entries)[..old(len) - 1] && ent == old(entries)[old(len) - 1]
    {
      hide Holds, Numbered, Distinct, Pow2, SizeOf, Fields;
      var idx := len - 1;
      ent := Get(idx);
      LastRoom(entries);
      Prefix(buffer[..], first, entries, nextSeq, idx);
      bufsize := bufsize - Room(ent.field);
      len := len - 1;
      entries := entries[..idx];
    }

    /** What the counters count. */
    lemma Counts()
      requires Valid()
      ensures bufsize == SizeOf(Table()) == 32 * len + |Octets(Table())| && len == |entries| == |Table()|
    {
      SizeLaw(Table());
    }

    /** Evicts until the byte count is within the limit. */
    method ShrinkTableSize(chains: HdMap?)
      requires Valid() && Indexed(chains)
      modifies this`len, this`bufsize, this`entries, if chains == null then {} else {chains.table}, entries
      ensures Valid() && Indexed(chains) && bufsize <= bufsizeMax
      ensures Table() == Fit(old(Table()), bufsizeMax)
      ensures bufsize == 32 * |Table()| + |Octets(Table())|
      ensures entries == old(entries)[..|entries|]
    {
      hide Valid, Indexed, Fit;
      Counts();
      while bufsize > bufsizeMax && len > 0
        invariant Valid() && Indexed(chains) && bufsize == SizeOf(Table()) && len == |entries|
        invariant |entries| <= |old(entries)| && entries == old(entries)[..|entries|]
        invariant Fit(Table(), bufsizeMax) == Fit(old(Table()), bufsizeMax)
        decreases len
      {
        FitDropLast(Table(), bufsizeMax);
        FieldsDropLast(entries);
        EvictOldest(chains);
        Counts();
      }
      FitKeepsAll(Table(), bufsizeMax);
      SizeLaw(Table());
    }

    /** Evicts until `room` more octets fit, or nothing is left. */
    method MakeRoom(room: nat, chains: HdMap?)
      requires Valid() && Indexed(chains)
      modifies this`len, this`bufsize, this`entries, if chains == null then {} else {chains.table}, entries
      ensures Valid() && Indexed(chains)
      ensures Table() == if room > bufsizeMax then [] else Fit(old(Table()), bufsizeMax - room)
      ensures room <= bufsizeMax ==> bufsize + room <= bufsizeMax
      ensures |entries| <= |old(entries)| && entries == old(entries)[..|entries|]
    {
      hide Valid, Indexed, Fit;
      ghost var budget := if room > bufsizeMax then 0 else bufsizeMax - room;
      Counts();
      while bufsize + room > bufsizeMax && len > 0
        invariant Valid() && Indexed(chains) && bufsize == SizeOf(Table()) && len == |entries|
        invariant |entries| <= |old(entries)| && entries == old(entries)[..|entries|]
        invariant Fit(Table(), budget) == Fit(old(Table()), budget)
        decreases len
      {
        if room <= bufsizeMax {
          FitDropLast(Table(), budget);
        } else {
          NothingFits(Table());
          NothingFits(Fields(entries[..len - 1]));
        }
        FieldsDropLast(entries);
        EvictOldest(chains);
        Counts();
      }
      FitKeepsAll(Table(), if room > bufsizeMax then bufsize else budget);
    }

    /** Inserts a field: old entries give way to it, and one that is too large only empties the table. */
    method AddIncremental(f: Field, token: int, chains: HdMap?, hash: nat)
      requires Valid() && Indexed(chains) && bufsizeMax <= UINT32_MAX
      modifies this`buffer, this`mask, this`first, this`bits, this`len, this`entries, this`bufsize, this`nextSeq, buffer
      modifies if chains == null then {} else {chains.table}, entries
      ensures Valid() && Indexed(chains) && bufsize <= bufsizeMax
      ensures Table() == Insert(old(Table()), f, bufsizeMax)
      ensures bufsize == 32 * |Table()| + |Octets(Table())|
      ensures buffer == old(buffer) || fresh(buffer)
      ensures forall i :: 0 <= i < |entries| ==> (entries[i] in old(entries) || (fresh(entries[i])
                && entries[i].field == f && entries[i].token == token && entries[i].hash == hash))
    {
      hide Valid, Indexed, Insert, Fit;
      var room := Room(f);
      InsertIsCons(Table(), f, bufsizeMax);
      MakeRoom(room, chains);
      Counts();
      if room > bufsizeMax {
        return;
      }
      EntryCount(Table());
      ghost var es := entries;
      var ent := StoreAndIndex(f, token, chains, hash);
      FieldsCons(ent, es);
      Counts();
    }

    method StoreAndIndex(f: Field, token: int, chains: HdMap?, hash: nat) returns (ent: Entry)
      requires Valid() && Indexed(chains) && len < 0x8000_0000
      modifies this`buffer, this`mask, this`first, this`bits, this`len, this`entries, this`bufsize, this`nextSeq, buffer
      modifies if chains == null then {} else {chains.table}
      ensures Valid() && Indexed(chains) && entries == [ent] + old(entries)
      ensures fresh(ent) && ent.field == f && ent.token == token && ent.hash == hash
      ensures buffer == old(buffer) || fresh(buffer)
      ensures bufsize == old(bufsize) + Room(f)
    {
      hide Holds, Numbered, Pow2, SizeOf, Fields;
      ghost var es := entries;
      ent := StoreNewest(f, token, hash);
      if chains != null {
        chains.Insert(ent, es);
      }
    }

    /** A new entry with the next number. */
    method StoreNewest(f: Field, token: int, hash: nat) returns (ent: Entry)
      requires Valid() && len < 0x8000_0000
      modifies this`buffer, this`mask, this`first, this`bits, this`len, this`entries, this`bufsize, this`nextSeq, buffer
      ensures Valid() && entries == [ent] + old(entries)
      ensures fresh(ent) && ent.field == f && ent.token == token && ent.hash == hash && ent.next == null
      ensures buffer == old(buffer) || fresh(buffer)
      ensures bufsize == old(bufsize) + Room(f)
    {
      hide Holds, Distinct, Pow2, Numbered, SizeOf, Fields;
      ghost var es := entries;
      ent := new Entry(f, token, nextSeq, hash);
      NumbersShift(es, nextSeq, ent);
      FieldsCons(ent, es);
      PushFront(ent);
      nextSeq := (nextSeq + 1) % UINT32_SIZE;
      bufsize := bufsize + Room(f);
    }
  }

  /** Without its oldest entries a list is held and numbered as before. */
  lemma Prefix(a: seq<Entry?>, first: nat, es: seq<Entry>, nextSeq: nat, k: nat)
    requires k <= |es|
    ensures Holds(a, first, es) ==> Holds(a, first, es[..k])
    ensures Numbered(es, nextSeq) ==> Numbered(es[..k], nextSeq)
    ensures Distinct(es) ==> Distinct(es[..k])
  {
    hide SlotOf;
  }

  lemma NothingFits(t: fields)
    ensures Fit(t, 0) == []
  {
  }

  lemma FieldsCons(e: Entry, es: seq<Entry>)
    ensures Fields([e] + es) == [e.field] + Fields(es)
    ensures SizeOf(Fields([e] + es)) == Room(e.field) + SizeOf(Fields(es))
  {
    assert Fields([e] + es) == [e.field] + Fields(es);
    assert ([e.field] + Fields(es))[1..] == Fields(es);
  }

  lemma InsertIsCons(t: fields, f: Field, max: nat)
    ensures Insert(t, f, max) == if Room(f) > max then [] else [f] + Fit(t, max - Room(f))
  {
    assert ([f] + t)[1..] == t;
  }

  /** Ages read from numbers survive the counter's wrap. */
  lemma NumbersShift(es: seq<Entry>, nextSeq: nat, ent: Entry)
    requires nextSeq < UINT32_SIZE && ent.seqNo == nextSeq && Numbered(es, nextSeq)
    ensures Numbered([ent] + es, (nextSeq + 1) % UINT32_SIZE)
  {
  }

  lemma FieldsDropLast(es: seq<Entry>)
    requires es != []
    ensures Fields(es)[..|es| - 1] == Fields(es[..|es| - 1])
  {
  }

  lemma LastRoom(es: seq<Entry>)
    requires es != []
    ensures var n := |es| - 1; SizeOf(Fields(es)) == SizeOf(Fields(es[..n])) + Room(es[n].field)
  {
    var n := |es| - 1;
    var f := es[n].field;
    assert Fields(es) == Fields(es[..n]) + [f];
    SizeOfAppend(Fields(es[..n]), [f]);
    assert [f][1..] == [];
    assert SizeOf([f]) == Room(f);
  }

  lemma StepBack(was: nat, now: nat, bits: nat)
    requires bits <= 64 && now == (was - 1) % UINT64_SIZE
    ensures now % Pow2(bits) == (was - 1) % Pow2(bits)
  {
    WrapThenMask(was - 1, bits);
  }

  /** The smallest power of two not below `n`. */
  method NextPow2(n: nat) returns (size: nat, ghost k: nat)
    requires n <= 0x8000_0000
    ensures size == Pow2(k) && k <= 31 && size >= n && (size > 1 ==> size < 2 * n)
  {
    size, k := 1, 0;
    while size < n
      invariant size == Pow2(k) && (k > 0 ==> size < 2 * n)
      invariant size <= 0x8000_0000 ==> k <= 31
      decreases n - size
    {
      size, k := 2 * size, k + 1;
      if k >= 32 {
        Pow2Monotone(32, k);
        Pow2Of64();
      }
    }
    if k >= 32 {
      Pow2Monotone(32, k);
      Pow2Of64();
    }
  }
}
