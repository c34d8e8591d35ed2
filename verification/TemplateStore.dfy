/** The five-slot database in memory.  Besides its entry, a slot holds the address of the
    template buffer it owns, because templates are looked up by buffer identity. */
module TemplateStore {
  import opened Bytes
  import opened DbFormat
  import opened DbOps

  /** Address of a template buffer; 0 is NULL. */
  type Address = nat

  datatype Slot = Slot(entry: Fingerprint, buffer: Address)

  function Entries(s: seq<Slot>): (r: seq<Fingerprint>)
    ensures |r| == |s|
    ensures forall i :: 0 <= i < |s| ==> r[i] == s[i].entry
  {
    seq(|s|, i requires 0 <= i < |s| => s[i].entry)
  }

  predicate Used(s: Slot) { s.entry.valid == 1 }

  /** Buffers held by slots in use. */
  function Buffers(s: seq<Slot>): set<Address> {
    set i | 0 <= i < |s| && Used(s[i]) :: s[i].buffer
  }

  /** Every slot in use owns a buffer of its own, and a free slot owns none. */
  ghost predicate Owned(s: seq<Slot>) {
    && (forall i :: 0 <= i < |s| ==> (Used(s[i]) <==> s[i].buffer != 0))
    && (forall i, j :: 0 <= i < j < |s| && Used(s[i]) && Used(s[j]) ==> s[i].buffer != s[j].buffer)
  }

  /** Positions of the slots in use, in order: the meaning of an index into the list handed to
      the matching algorithm. */
  function Positions(s: seq<Slot>): (r: seq<nat>)
    ensures |r| <= |s|
    ensures forall m :: 0 <= m < |r| ==> m <= r[m] < |s| && Used(s[r[m]])
    ensures forall m, n :: 0 <= m < n < |r| ==> r[m] < r[n]
  {
    if s == [] then []
    else
      var n := |s| - 1;
      Positions(s[..n]) + (if Used(s[n]) then [n] else [])
  }

  /** The list of template buffers. */
  function ListOf(s: seq<Slot>): (r: seq<Address>)
    ensures |r| == |Positions(s)|
    ensures forall m :: 0 <= m < |r| ==> r[m] == s[Positions(s)[m]].buffer
  {
    seq(|Positions(s)|, m requires 0 <= m < |Positions(s)| => s[Positions(s)[m]].buffer)
  }

  lemma ListSnoc(s: seq<Slot>, x: Slot)
    ensures ListOf(s + [x]) == ListOf(s) + (if Used(x) then [x.buffer] else [])
  {
    assert (s + [x])[..|s|] == s;
  }

  lemma {:induction false} ListPrefix(s: seq<Slot>, k: nat)
    requires k <= |s|
    ensures ListOf(s[..k]) <= ListOf(s)
  {
    PositionsPrefix(s, k);
  }

  lemma {:induction false} PositionsComplete(s: seq<Slot>, i: nat)
    requires i < |s| && Used(s[i])
    ensures i in Positions(s)
  {
    var n := |s| - 1;
    if i < n {
      PositionsComplete(s[..n], i);
    }
  }

  /** The m-th listed template sits in slot m exactly when slots 0 to m are all in use. */
  lemma {:induction false} ListIndexIsSlot(s: seq<Slot>, m: nat)
    requires m < |Positions(s)|
    ensures Positions(s)[m] == m <==> forall j :: 0 <= j <= m ==> Used(s[j])
  {
    if forall j :: 0 <= j <= m ==> Used(s[j]) {
      PrefixUsed(s, m);
    } else {
      var j :| 0 <= j <= m && !Used(s[j]);
      if Positions(s)[m] == m {
        StrictlyIncreasing(s, j, m);
      }
    }
  }

  lemma {:induction false} StrictlyIncreasing(s: seq<Slot>, j: nat, m: nat)
    requires j <= m < |Positions(s)| && Positions(s)[m] == m
    ensures Positions(s)[j] == j
    decreases m - j
  {
    if j < m {
      StrictlyIncreasing(s, j + 1, m);
    }
  }

  lemma {:induction false} PrefixUsed(s: seq<Slot>, m: nat)
    requires m < |Positions(s)|
    requires forall j :: 0 <= j <= m ==> Used(s[j])
    ensures Positions(s)[m] == m
  {
    var n := |s| - 1;
    if m < n {
      PositionsPrefix(s, m + 1);
      PrefixAll(s[..m + 1]);
    } else {
      PrefixAll(s);
    }
  }

  lemma {:induction false} PrefixAll(s: seq<Slot>)
    requires forall j :: 0 <= j < |s| ==> Used(s[j])
    ensures |Positions(s)| == |s| && forall j :: 0 <= j < |s| ==> Positions(s)[j] == j
  {
    if s != [] {
      PrefixAll(s[..|s| - 1]);
    }
  }

  lemma {:induction false} PositionsPrefix(s: seq<Slot>, k: nat)
    requires k <= |s|
    ensures Positions(s[..k]) <= Positions(s)
  {
    if k < |s| {
      PositionsPrefix(s[..|s| - 1], k);
      assert s[..|s| - 1][..k] == s[..k];
    } else {
      assert s[..k] == s;
    }
  }

  /** Moving slot i to the front and shifting the ones before it. */
  function MoveToFront<T>(s: seq<T>, i: nat): (r: seq<T>)
    requires i < |s|
    ensures |r| == |s|
  {
    [s[i]] + s[..i] + s[i + 1..]
  }

  /** Where slot q goes when slot i moves to the front. */
  function Moved(q: nat, i: nat): nat {
    if q == i then 0 else if q < i then q + 1 else q
  }

  lemma MoveToFrontIsPermutation<T>(s: seq<T>, i: nat)
    requires i < |s|
    ensures multiset(MoveToFront(s, i)) == multiset(s)
    ensures forall q :: 0 <= q < |s| ==> Moved(q, i) < |s| && MoveToFront(s, i)[Moved(q, i)] == s[q]
  {
    assert s == s[..i] + [s[i]] + s[i + 1..];
  }

  lemma MoveKeepsOwned(s: seq<Slot>, i: nat)
    requires i < |s| && Owned(s) && Flagged(Entries(s))
    ensures Owned(MoveToFront(s, i)) && Flagged(Entries(MoveToFront(s, i)))
  {
    var r := MoveToFront(s, i);
    assert forall p :: 0 <= p < |s| ==> r[p] == s[if p == 0 then i else if p <= i then p - 1 else p];
  }

  lemma BuffersAfterWipe(s: seq<Slot>, i: nat, free: Slot)
    requires i < |s| && Owned(s) && !Used(free)
    ensures Buffers(s[i := free]) == Buffers(s) - {s[i].buffer}
  {
    var r := s[i := free];
    forall a | a in Buffers(s) - {s[i].buffer} ensures a in Buffers(r) {
      var j :| 0 <= j < |s| && Used(s[j]) && s[j].buffer == a;
      assert r[j] == s[j];
    }
    forall a | a in Buffers(r) ensures a in Buffers(s) - {s[i].buffer} {
      var j :| 0 <= j < |r| && Used(r[j]) && r[j].buffer == a;
      assert r[j] == s[j];
    }
  }

  /** Callers learn only that a granted block is a new one. */
  method Malloc(inUse: set<Address>, granted: bool) returns (a: Address)
    ensures a != 0 <==> granted
    ensures granted ==> a !in inUse
  {
    if !granted {
      return 0;
    }
    a := 1;
    var rest := inUse;
    while rest != {}
      invariant a >= 1 && rest <= inUse
      invariant forall x :: x in inUse ==> x in rest || x < a
      decreases rest
    {
      var x :| x in rest;
      if x >= a {
        a := x + 1;
      }
      rest := rest - {x};
    }
  }

  class Store {
    var id: uint64
    var hasSet: bool
    var key: uint32
    var setId: Id256
    var stateId: Id256
    const slots: array<Slot>

    ghost predicate Valid()
      reads this, slots
    {
      && slots.Length == SLOTS
      && (hasSet ==> Flagged(Entries(slots[..])) && Owned(slots[..]))
    }

    /** The database held. */
    ghost function View(): Database
      reads this, slots
      requires slots.Length == SLOTS
    {
      Database(id, if hasSet then Some(FingerprintSet(key, setId, stateId, Entries(slots[..]))) else None)
    }

    /** An empty database; the random id stays 0 when the generator fails. */
    constructor (randomId: Option<uint64>)
      ensures Valid() && fresh(slots)
      ensures View() == Database(if randomId.Some? then randomId.value else 0, None)
    {
      id := if randomId.Some? then randomId.value else 0;
      hasSet := false;
      key := 0;
      setId := ZERO_ID;
      stateId := ZERO_ID;
      slots := new Slot[SLOTS](_ => Slot(FREE_ENTRY, 0));
    }

    method TrimId(id: Id256) returns (id32: uint32)
      ensures id32 == TrimId32(id)
    {
      id32 := 0;
      var result := 0;
      for i := 0 to 4
        invariant 0 <= result
        invariant i == 0 ==> result == 0
        invariant i == 1 ==> result == id[0] as int
        invariant i == 2 ==> result == id[0] as int * 0x100 + id[1] as int
        invariant i == 3 ==> result == id[0] as int * 0x1_0000 + id[1] as int * 0x100 + id[2] as int
        invariant i == 4 ==> result == FromBe32(id[..4])
      {
        result := result * 0x100 % TWO_32 + id[i] as int;
      }
      id32 := result;
    }

    /** fpc_db_get_index_of_id32. */
    method FindById(id32: uint32) returns (status: int, index: nat)
      requires Valid()
      ensures var found := IndexOfId32(View(), id32);
              if found.Some? then status == 0 && index == found.value else status == -ERROR_NOENTITY
    {
      index := 0;
      if !hasSet {
        return -ERROR_NOENTITY, 0;
      }
      ghost var es := Entries(slots[..]);
      while index < SLOTS
        invariant index <= SLOTS
        invariant FindId32(es, id32, index) == FindId32(es, id32, 0)
      {
        if Used(slots[index]) {
          var t := TrimId(slots[index].entry.id);
          if t == id32 {
            return 0, index;
          }
        }
        index := index + 1;
      }
      return -ERROR_NOENTITY, 0;
    }

    /** fpc_db_get_index_of_template: by buffer identity. */
    method FindByBuffer(buffer: Address) returns (status: int, index: nat)
      requires Valid()
      ensures status == 0 ==> hasSet && index < SLOTS && Used(slots[index]) && slots[index].buffer == buffer
      ensures status != 0 ==> status == -ERROR_NOENTITY
                              && (hasSet ==> buffer !in Buffers(slots[..]))
    {
      index := 0;
      if !hasSet {
        return -ERROR_NOENTITY, 0;
      }
      while index < SLOTS
        invariant index <= SLOTS
        invariant forall j :: 0 <= j < index ==> !(Used(slots[j]) && slots[j].buffer == buffer)
      {
        if Used(slots[index]) && slots[index].buffer == buffer {
          return 0, index;
        }
        index := index + 1;
      }
      return -ERROR_NOENTITY, 0;
    }

    /** fpc_db_get_all_templates. */
    method AllTemplates(limit: nat) returns (list: seq<Address>)
      requires Valid()
      ensures list == if !hasSet then [] else
                        var all := ListOf(slots[..]); if |all| <= limit then all else all[..limit]
    {
      hide ListOf, Positions, Owned, Flagged;
      list := [];
      if !hasSet {
        return;
      }
      ListEmpty();
      assert slots[..0] == [];
      var i := 0;
      while i < SLOTS
        invariant i <= SLOTS
        invariant |list| <= limit
        invariant list == ListOf(slots[..i])
      {
        if |list| >= limit {
          ListPrefix(slots[..], i);
          assert slots[..][..i] == slots[..i];
          return;
        }
        ListSnoc(slots[..i], slots[i]);
        assert slots[..i] + [slots[i]] == slots[..i + 1];
        if Used(slots[i]) {
          list := list + [slots[i].buffer];
        }
        i := i + 1;
      }
      assert slots[..SLOTS] == slots[..];
    }

    lemma ListEmpty()
      ensures ListOf([]) == []
    {
    }

    /** fpc_db_set_template_first. */
    method SetTemplateFirst(index: nat)
      requires Valid() && hasSet && index < SLOTS
      modifies slots
      ensures Valid()
      ensures slots[..] == MoveToFront(old(slots[..]), index)
    {
      hide Owned, Flagged;
      ghost var before := slots[..];
      var temp := slots[index];
      var i := index;
      while i > 0
        invariant i <= index
        invariant forall j :: 0 <= j <= i ==> slots[j] == before[j]
        invariant forall j :: i < j <= index ==> slots[j] == before[j - 1]
        invariant forall j :: index < j < SLOTS ==> slots[j] == before[j]
      {
        slots[i] := slots[i - 1];
        i := i - 1;
      }
      slots[i] := temp;
      assert slots[..] == MoveToFront(before, index);
      MoveKeepsOwned(before, index);
    }

    /** Writing one slot so that ownership is kept. */
    lemma SlotWritten(before: seq<Slot>, index: nat, s: Slot)
      requires |before| == SLOTS && index < SLOTS && Owned(before) && Flagged(Entries(before))
      requires s.entry.valid in {0, 1} && |s.entry.template| < TWO_32
      requires Used(s) <==> s.buffer != 0
      requires Used(s) ==> s.buffer == before[index].buffer || s.buffer !in Buffers(before)
      ensures Owned(before[index := s]) && Flagged(Entries(before[index := s]))
      ensures Entries(before[index := s]) == Entries(before)[index := s.entry]
    {
      forall j | 0 <= j < SLOTS && Used(before[j]) ensures before[j].buffer in Buffers(before) {
      }
    }

    /** fpc_db_add_fingerprint; `buffer` is the caller's allocation and changes owner. */
    method AddFingerprint(key: uint32, userId: uint64, template: seq<byte>, buffer: Address, w: AddWorld)
      returns (status: int, index: nat)
      requires Valid() && |template| < TWO_32
      requires buffer != 0 && (hasSet ==> buffer !in Buffers(slots[..]))
      modifies this, slots
      ensures Valid()
      ensures var r := Add(old(View()), key, userId, template, w);
              View() == r.db && status == r.status && (status == 0 ==> index == r.index)
      ensures status == 0 ==> slots[index].buffer == buffer
    {
      hide Owned, Flagged;
      if hasSet && this.key != key {
        return -ERROR_INPUT, 0;
      }
      if !hasSet {
        if !w.allocSet {
          return -ERROR_ALLOC, 0;
        }
        if w.setId.None? {
          return -ERROR_IO, 0;
        }
        for i := 0 to SLOTS
          invariant forall j :: 0 <= j < i ==> slots[j] == Slot(FREE_ENTRY, 0)
          invariant !hasSet && id == old(id)
        {
          slots[i] := Slot(FREE_ENTRY, 0);
        }
        this.key := key;
        setId := w.setId.value;
        stateId := ZERO_ID;
        hasSet := true;
        assert Entries(slots[..]) == EmptySet(key, setId).entries;
        FreeSlotsValid(slots[..]);
      }
      index := 0;
      ghost var es := Entries(slots[..]);
      while index < SLOTS && slots[index].entry.valid != 0
        invariant index <= SLOTS
        invariant FirstFree(es, index) == FirstFree(es, 0)
      {
        index := index + 1;
      }
      if index == SLOTS {
        return -ERROR_NOSPACE, 0;
      }
      if w.fingerId.None? {
        return -ERROR_IO, 0;
      }
      var slot := Slot(Fingerprint(1, w.fingerId.value, userId, template), buffer);
      SlotWritten(slots[..], index, slot);
      ghost var before := slots[..];
      slots[index] := slot;
      assert slots[..] == before[index := slot];
      if w.databaseId.Some? {
        id := w.databaseId.value;
      }
      if w.stateId.Some? {
        stateId := w.stateId.value;
      }
      return 0, index;
    }

    lemma FreeSlotsValid(s: seq<Slot>)
      requires forall j :: 0 <= j < |s| ==> s[j] == Slot(FREE_ENTRY, 0)
      ensures Owned(s) && Flagged(Entries(s)) && Buffers(s) == {}
    {
    }

    /** fpc_db_delete_fingerprint. */
    method DeleteFingerprint(key: uint32, index: nat) returns (status: int)
      requires Valid()
      modifies this, slots
      ensures Valid()
      ensures var r := Delete(old(View()), key, index); View() == r.db && status == r.status
      ensures status == 0 && hasSet ==>
                Buffers(slots[..]) == Buffers(old(slots[..])) - {old(slots[..])[index].buffer}
    {
      hide Flagged;
      if index >= SLOTS {
        return -ERROR_INPUT;
      }
      if !hasSet || this.key != key {
        return -ERROR_NOENTITY;
      }
      var slot := Slot(Wiped(slots[index].entry), 0);
      ghost var before := slots[..];
      SlotWritten(before, index, slot);
      BuffersAfterWipe(before, index, slot);
      slots[index] := slot;
      assert slots[..] == before[index := slot];
      var count := 0;
      for i := 0 to SLOTS
        invariant count == 0 <==> forall j :: 0 <= j < i ==> !Used(slots[j])
        invariant count >= 0
      {
        if Used(slots[i]) {
          count := count + 1;
        }
      }
      if count == 0 {
        hasSet := false;
      }
      assert forall j :: 0 <= j < SLOTS ==> Entries(slots[..])[j] == slots[j].entry;
      return 0;
    }
  }
}
