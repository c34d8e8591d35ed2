/** fpc_ta_bio on top of the database: matching a finger and updating templates. */
module Bio {
  import opened Bytes
  import opened DbFormat
  import opened DbOps
  import opened TemplateStore

  /** What the image check (`Refused`) and the matching library answer. */
  datatype Matching =
    | Refused(status: int)
    | Failed(status: int)
    | NoMatch
    | Match(index: nat)

  /** A template the library wants rewritten: its index in the list, and its new contents. */
  datatype Update = Update(index: nat, data: seq<byte>)

  predicate DistinctIndices(updates: seq<Update>) {
    forall i, j :: 0 <= i < j < |updates| ==> updates[i].index != updates[j].index
  }

  /** The entry of a slot after the updates that name its buffer. */
  function Applied(s: Slot, list: seq<Address>, updates: seq<Update>): Fingerprint
    requires forall i :: 0 <= i < |updates| ==> updates[i].index < |list|
  {
    if updates == [] then s.entry
    else
      var u := updates[|updates| - 1];
      if Used(s) && list[u.index] == s.buffer then s.entry.(template := u.data)
      else Applied(s, list, updates[..|updates| - 1])
  }

  predicate Named(s: Slot, list: seq<Address>, updates: seq<Update>)
    requires forall i :: 0 <= i < |updates| ==> updates[i].index < |list|
  {
    Used(s) && exists i :: 0 <= i < |updates| && list[updates[i].index] == s.buffer
  }

  /** The list names buffers of slots in use, each at most once. */
  ghost predicate Lists(list: seq<Address>, s: seq<Slot>) {
    && (forall m :: 0 <= m < |list| ==> list[m] in Buffers(s))
    && (forall m, n :: 0 <= m < n < |list| ==> list[m] != list[n])
  }

  /** What every slot must be after the first updates. */
  ghost predicate UpdatedTo(s: seq<Slot>, before: seq<Slot>, list: seq<Address>, updates: seq<Update>)
    requires forall i :: 0 <= i < |updates| ==> updates[i].index < |list|
  {
    && |s| == |before|
    && forall p :: 0 <= p < |s| ==>
         && s[p].entry == Applied(before[p], list, updates)
         && (!Named(before[p], list, updates) ==> s[p] == before[p])
         && (Named(before[p], list, updates) ==> s[p].buffer != before[p].buffer)
  }

  lemma ListOfLists(s: seq<Slot>)
    requires Owned(s)
    ensures Lists(ListOf(s), s)
  {
    var ps := Positions(s);
    forall m | 0 <= m < |ps| ensures s[ps[m]].buffer in Buffers(s) {
    }
  }

  lemma MoveKeepsList(list: seq<Address>, s: seq<Slot>, i: nat)
    requires i < |s| && Lists(list, s)
    ensures Lists(list, MoveToFront(s, i))
  {
    MoveToFrontIsPermutation(s, i);
    forall a | a in Buffers(s) ensures a in Buffers(MoveToFront(s, i)) {
      var q :| 0 <= q < |s| && Used(s[q]) && s[q].buffer == a;
      assert MoveToFront(s, i)[Moved(q, i)] == s[q];
    }
  }

  lemma NothingUpdated(s: seq<Slot>, list: seq<Address>)
    ensures UpdatedTo(s, s, list, [])
  {
  }

  /** The slot the next update names has not been touched yet. */
  lemma NextSlot(s: seq<Slot>, before: seq<Slot>, list: seq<Address>, updates: seq<Update>, i: nat)
    returns (q: nat)
    requires i < |updates| && forall j :: 0 <= j < |updates| ==> updates[j].index < |list|
    requires DistinctIndices(updates) && Lists(list, before)
    requires UpdatedTo(s, before, list, updates[..i])
    ensures q < |s| && Used(before[q]) && before[q].buffer == list[updates[i].index]
    ensures s[q] == before[q]
  {
    assert list[updates[i].index] in Buffers(before);
    q :| 0 <= q < |before| && Used(before[q]) && before[q].buffer == list[updates[i].index];
    forall j | 0 <= j < i ensures list[updates[..i][j].index] != before[q].buffer {
      assert updates[j].index != updates[i].index;
    }
  }

  lemma StepUpdated(s: seq<Slot>, before: seq<Slot>, list: seq<Address>, updates: seq<Update>,
                    i: nat, q: nat, slot: Slot)
    requires i < |updates| && forall j :: 0 <= j < |updates| ==> updates[j].index < |list|
    requires UpdatedTo(s, before, list, updates[..i]) && Owned(before)
    requires q < |s| && Used(before[q]) && before[q].buffer == list[updates[i].index]
    requires slot.entry == before[q].entry.(template := updates[i].data) && slot.buffer != before[q].buffer
    ensures UpdatedTo(s[q := slot], before, list, updates[..i + 1])
  {
    var us := updates[..i + 1];
    assert us[..i] == updates[..i] && us[i] == updates[i];
    forall p | 0 <= p < |s| && p != q
      ensures Applied(before[p], list, us) == Applied(before[p], list, updates[..i])
      ensures Named(before[p], list, updates[..i]) ==> Named(before[p], list, us)
    {
      if Named(before[p], list, updates[..i]) {
        var j :| 0 <= j < i && list[updates[..i][j].index] == before[p].buffer;
        assert us[j] == updates[..i][j];
      }
    }
  }

  /** Only templates have changed. */
  ghost predicate SameIdentities(s: seq<Slot>, before: seq<Slot>) {
    |s| == |before| && forall p :: 0 <= p < |s| ==> s[p].entry == before[p].entry.(template := s[p].entry.template)
  }

  /** The same slots are named, for templates of the same sizes. */
  predicate SameShape(a: seq<Update>, b: seq<Update>) {
    |a| == |b| && forall i :: 0 <= i < |a| ==> a[i].index == b[i].index && |a[i].data| == |b[i].data|
  }

  /** The handles found for the first updates. */
  ghost predicate Located(at: seq<nat>, before: seq<Slot>, list: seq<Address>, us: seq<Update>)
    requires forall j :: 0 <= j < |us| ==> us[j].index < |list|
  {
    && |at| == |us|
    && forall i :: 0 <= i < |at| ==>
         at[i] < |before| && Used(before[at[i]]) && before[at[i]].buffer == list[us[i].index]
  }

  lemma NothingLocated(before: seq<Slot>, list: seq<Address>)
    ensures Located([], before, list, []) && SameIdentities(before, before)
  {
  }

  lemma LocateNext(at: seq<nat>, before: seq<Slot>, list: seq<Address>, us: seq<Update>, u: Update, q: nat)
    requires u.index < |list| && forall j :: 0 <= j < |us| ==> us[j].index < |list|
    requires Located(at, before, list, us)
    requires q < |before| && Used(before[q]) && before[q].buffer == list[u.index]
    ensures Located(at + [q], before, list, us + [u])
  {
  }

  lemma RewriteKeeps(s: seq<Slot>, before: seq<Slot>, i: nat, slot: Slot)
    requires i < |s| && SameIdentities(s, before)
    requires slot.entry == s[i].entry.(template := slot.entry.template)
    ensures SameIdentities(s[i := slot], before)
  {
  }

  /** Memory as malloc hands it out. */
  method Uninitialised(n: nat) returns (s: seq<byte>)
    ensures |s| == n
  {
    s := *;
    if |s| != n {
      s := Repeat(0, n);
    }
  }

  lemma {:induction false} AppliedOther(s: Slot, list: seq<Address>, us: seq<Update>, i: nat, u: Update)
    requires forall j :: 0 <= j < |us| ==> us[j].index < |list|
    requires i < |us| && u.index == us[i].index && list[u.index] != s.buffer
    ensures Applied(s, list, us[i := u]) == Applied(s, list, us)
    ensures Named(s, list, us) ==> Named(s, list, us[i := u])
  {
    var n := |us| - 1;
    if i < n {
      AppliedOther(s, list, us[..n], i, u);
      assert us[i := u][..n] == us[..n][i := u];
    } else {
      assert us[i := u][..n] == us[..n];
    }
    if Named(s, list, us) {
      var j :| 0 <= j < |us| && list[us[j].index] == s.buffer;
      assert us[i := u][j].index == us[j].index;
    }
  }

  /** Writing the contents of the i-th update into its slot. */
  lemma StepFilled(s: seq<Slot>, before: seq<Slot>, list: seq<Address>, us: seq<Update>,
                   i: nat, u: Update, q: nat)
    requires forall j :: 0 <= j < |us| ==> us[j].index < |list|
    requires i < |us| && u.index == us[i].index && DistinctIndices(us)
    requires Lists(list, before) && Owned(before) && UpdatedTo(s, before, list, us)
    requires q < |s| && Used(before[q]) && before[q].buffer == list[u.index]
    ensures var slot := s[q].(entry := s[q].entry.(template := u.data));
            UpdatedTo(s[q := slot], before, list, us[i := u])
  {
    AppliedTo(before[q], list, us, u.index);
    AppliedTo(before[q], list, us[i := u], u.index);
    assert us[i := u][i] == u;
    forall p | 0 <= p < |s| && p != q
      ensures Applied(before[p], list, us[i := u]) == Applied(before[p], list, us)
      ensures Named(before[p], list, us) ==> Named(before[p], list, us[i := u])
    {
      if Used(before[p]) {
        AppliedOther(before[p], list, us, i, u);
      } else {
        Unused(before[p], list, us);
        Unused(before[p], list, us[i := u]);
      }
    }
  }

  lemma Unused(s: Slot, list: seq<Address>, us: seq<Update>)
    requires forall j :: 0 <= j < |us| ==> us[j].index < |list|
    requires !Used(s)
    ensures Applied(s, list, us) == s.entry && !Named(s, list, us)
  {
  }

  lemma {:induction false} AppliedKeepsIdentity(s: Slot, list: seq<Address>, updates: seq<Update>)
    requires forall i :: 0 <= i < |updates| ==> updates[i].index < |list|
    ensures Applied(s, list, updates) == s.entry.(template := Applied(s, list, updates).template)
  {
    if updates != [] {
      AppliedKeepsIdentity(s, list, updates[..|updates| - 1]);
    }
  }

  lemma {:induction false} AppliedTo(
    s: Slot, list: seq<Address>, updates: seq<Update>, m: nat)
    requires forall i :: 0 <= i < |updates| ==> updates[i].index < |list|
    requires forall i, j :: 0 <= i < j < |list| ==> list[i] != list[j]
    requires Used(s) && m < |list| && list[m] == s.buffer
    requires DistinctIndices(updates)
    ensures forall i :: 0 <= i < |updates| && updates[i].index == m ==>
              Applied(s, list, updates) == s.entry.(template := updates[i].data)
    ensures (forall i :: 0 <= i < |updates| ==> updates[i].index != m) ==>
              Applied(s, list, updates) == s.entry
  {
    if updates != [] {
      AppliedTo(s, list, updates[..|updates| - 1], m);
    }
  }

  /** Identify, then update: seen from the slots before the match, no slot is lost or doubled;
      the slot of the j-th listed template keeps its id and user id and gets a new buffer with
      new contents exactly if index j was among the updates; every other slot is as it was. */
  lemma IdentifyThenUpdate(before: seq<Slot>, matched: nat, updates: seq<Update>, after: seq<Slot>)
    requires Owned(before) && matched < |before|
    requires DistinctIndices(updates)
    requires forall i :: 0 <= i < |updates| ==> updates[i].index < |ListOf(before)|
    requires UpdatedTo(after, MoveToFront(before, matched), ListOf(before), updates)
    ensures |after| == |before|
    ensures forall q :: 0 <= q < |before| ==>
              && Moved(q, matched) < |after|
              && (var f := after[Moved(q, matched)].entry;
                  f == before[q].entry.(template := f.template))
    ensures forall j, i {:trigger Positions(before)[j], updates[i]} ::
              0 <= j < |Positions(before)| && 0 <= i < |updates| && updates[i].index == j ==>
              && after[Moved(Positions(before)[j], matched)].entry.template == updates[i].data
              && after[Moved(Positions(before)[j], matched)].buffer != before[Positions(before)[j]].buffer
    ensures forall j :: 0 <= j < |Positions(before)| && (forall i :: 0 <= i < |updates| ==> updates[i].index != j)
              ==> after[Moved(Positions(before)[j], matched)] == before[Positions(before)[j]]
    ensures forall q :: 0 <= q < |before| && !Used(before[q]) ==> after[Moved(q, matched)] == before[q]
  {
    hide Owned, Positions, MoveToFront;
    var list := ListOf(before);
    ListOfLists(before);
    MoveToFrontIsPermutation(before, matched);
    forall q | 0 <= q < |before|
      ensures after[Moved(q, matched)].entry == Applied(before[q], list, updates)
      ensures Named(before[q], list, updates) ==> after[Moved(q, matched)].buffer != before[q].buffer
      ensures !Named(before[q], list, updates) ==> after[Moved(q, matched)] == before[q]
      ensures var f := after[Moved(q, matched)].entry; f == before[q].entry.(template := f.template)
      ensures !Used(before[q]) ==> after[Moved(q, matched)] == before[q]
    {
      AppliedKeepsIdentity(before[q], list, updates);
    }
    forall j | 0 <= j < |Positions(before)|
      ensures forall i :: 0 <= i < |updates| && updates[i].index == j ==>
                && after[Moved(Positions(before)[j], matched)].entry.template == updates[i].data
                && after[Moved(Positions(before)[j], matched)].buffer != before[Positions(before)[j]].buffer
      ensures (forall i :: 0 <= i < |updates| ==> updates[i].index != j) ==>
                after[Moved(Positions(before)[j], matched)] == before[Positions(before)[j]]
    {
      assert list[j] == before[Positions(before)[j]].buffer;
      AppliedTo(before[Positions(before)[j]], list, updates, j);
    }
  }

  /** The matched template ends up in slot 0 exactly when all slots up to its list index are in
      use: what is moved is the slot numbered by the list index. */
  lemma MatchedBecomesFirst(before: seq<Slot>, m: nat)
    requires Owned(before) && m < |Positions(before)|
    ensures MoveToFront(before, m)[0] == before[Positions(before)[m]]
            <==> forall j :: 0 <= j <= m ==> Used(before[j])
  {
    ListIndexIsSlot(before, m);
  }

  /** With slot 0 free, a match of the only template, in slot 1, leaves it there. */
  lemma HoleKeepsMatchBack(f: Slot, free: Slot)
    requires Used(f) && !Used(free)
    ensures var s := [free, f, free, free, free];
            Positions(s) == [1] && MoveToFront(s, 0)[0] != f
  {
    var s := [free, f, free, free, free];
    assert s[..4] == [free, f, free, free] && s[..3] == [free, f, free] && s[..2] == [free, f]
           && s[..1] == [free];
    assert Positions(s[..1]) == [];
    assert s[..2][..1] == s[..1];
    assert Positions(s[..2]) == [1];
    assert s[..3][..2] == s[..2] && s[..4][..3] == s[..3];
    assert Positions(s[..3]) == [1];
    assert Positions(s[..4]) == [1];
  }

  class BioTa {
    const db: Store
    var activeKey: uint32
    var list: seq<Address>
    var matchedId: uint32

    ghost predicate Valid()
      reads this, db, db.slots
    {
      db.Valid()
    }

    /** fpc_ta_bio_init: an empty database, no active set, nothing matched. */
    constructor (randomId: Option<uint64>)
      ensures Valid() && fresh(db) && fresh(db.slots)
      ensures !db.hasSet && activeKey == 0xFFFF_FFFF && list == [] && matchedId == 0
    {
      db := new Store(randomId);
      activeKey := 0xFFFF_FFFF;
      list := [];
      matchedId := 0;
    }

    /** fpc_ta_bio_identify.  A match reports the id of the listed template, found again by its
        buffer, and moves the slot whose number is the list index to the front. */
    method Identify(answer: Matching) returns (status: int, id: uint32)
      requires Valid()
      requires answer.Match? && db.hasSet ==> answer.index < |Positions(db.slots[..])|
      requires answer.Refused? || answer.Failed? ==> answer.status != 0
      modifies this`list, this`matchedId, db.slots
      ensures Valid()
      ensures answer.Refused? ==> status == answer.status && list == old(list)
      ensures !answer.Refused? ==> list == if db.hasSet then ListOf(old(db.slots[..])) else []
      ensures !answer.Refused? && list == [] ==> status == -ERROR_NOENTITY
      ensures answer.Failed? && list != [] ==> status == answer.status
      ensures answer.NoMatch? && list != [] ==> status == 0
      ensures answer.Match? && list != [] ==> status == if db.key == activeKey then 0 else -ERROR_NOENTITY
      ensures status == 0 && answer.Match? ==>
                && db.hasSet && db.key == activeKey
                && list == ListOf(old(db.slots[..])) && Lists(list, db.slots[..])
                && (var before := old(db.slots[..]);
                    && id == TrimId32(before[Positions(before)[answer.index]].entry.id)
                    && db.slots[..] == MoveToFront(before, answer.index))
                && matchedId == id
      ensures status != 0 || answer.NoMatch? ==>
                db.slots[..] == old(db.slots[..]) && matchedId == old(matchedId) && id == 0
    {
      hide Owned, Flagged, Positions, MoveToFront, TrimId32, Lists;
      id := 0;
      if answer.Refused? {
        return answer.status, 0;
      }
      list := db.AllTemplates(SLOTS);
      if |list| == 0 {
        return -ERROR_NOENTITY, 0;
      }
      if answer.Failed? {
        return answer.status, 0;
      }
      if answer.NoMatch? {
        return 0, 0;
      }
      ghost var before := db.slots[..];
      ListOfLists(before);
      var index;
      status, index := db.FindByBuffer(list[answer.index]);
      if status < 0 {
        assert false;
      }
      SameBuffer(before, index, Positions(before)[answer.index]);
      if db.key != activeKey {
        return -ERROR_NOENTITY, 0;
      }
      id := db.TrimId(db.slots[index].entry.id);
      matchedId := id;
      MoveKeepsList(list, before, answer.index);
      db.SetTemplateFirst(answer.index);
      return 0, id;
    }

    lemma SameBuffer(s: seq<Slot>, i: nat, j: nat)
      requires i < |s| && j < |s| && Owned(s) && Used(s[i]) && Used(s[j])
      requires s[i].buffer == s[j].buffer
      ensures i == j
    {
    }

    /** fpc_ta_bio_update_template.  `memory` says which allocations succeed; `prepared`, `filled`
        and `ended` are the answers of the library when asked which templates to rewrite, to write
        them, and to finish.

        Whatever it names, no id and no user id changes.  When the indices are distinct and the
        list is the one of the last identification, exactly the named slots get a new buffer,
        and if an update is reported the new contents; otherwise the first `done` of them have
        buffers of the new sizes with unknown contents (`raw`). */
    method UpdateTemplates(updates: seq<Update>, memory: nat -> bool, prepared: int, filled: int, ended: int)
      returns (status: int, updated: bool, done: nat, ghost raw: seq<Update>)
      requires Valid()
      requires forall i :: 0 <= i < |updates| ==> updates[i].index < |list| && |updates[i].data| < TWO_32
      modifies db.slots
      ensures Valid() && SameIdentities(db.slots[..], old(db.slots[..]))
      ensures done <= |updates| && SameShape(raw, updates[..done])
      ensures prepared != 0 ==> status == prepared && done == 0
      ensures updated <==> prepared == 0 && updates != [] && done == |updates| && filled == 0
      ensures status == 0 <==> prepared == 0 && (updated || updates == []) && ended == 0
      ensures DistinctIndices(updates) && db.hasSet && old(Lists(list, db.slots[..])) ==>
                && UpdatedTo(db.slots[..], old(db.slots[..]), list, raw)
                && (updated ==> raw == updates)
                && (prepared == 0 && updates != [] ==> Stopped(|updates|, memory, done, status) || done == |updates|)
    {
      hide Owned, Flagged, UpdatedTo, Lists;
      ghost var before := db.slots[..];
      raw, done, updated := [], 0, false;
      NothingUpdated(before, list);
      status := prepared;
      if status != 0 {
        return;
      }
      if updates != [] {
        var at;
        status, done, at, raw := Reallocate(updates, memory);
        if status != 0 {
          return;
        }
        status := filled;
        if status != 0 {
          return;
        }
        Fill(updates, at, before, raw);
        raw, updated := updates, true;
      }
      status := ended;
    }

    /** The loop over n updates stops early: the set is not the active one, or memory runs out. */
    ghost predicate Stopped(n: nat, memory: nat -> bool, done: nat, status: int)
      reads this, db
    {
      && done < n
      && if db.key != activeKey then done == 0 && status == -ERROR_NOENTITY
         else !memory(done) && status == -ERROR_ALLOC
    }

    /** The loop of fpc_ta_bio_update_template: look the slot up by the listed buffer, and give it
        a buffer of the new size. */
    method Reallocate(updates: seq<Update>, memory: nat -> bool)
      returns (status: int, done: nat, at: seq<nat>, ghost raw: seq<Update>)
      requires Valid()
      requires forall i :: 0 <= i < |updates| ==> updates[i].index < |list| && |updates[i].data| < TWO_32
      modifies db.slots
      ensures Valid() && SameIdentities(db.slots[..], old(db.slots[..]))
      ensures done <= |updates| && (status == 0 <==> done == |updates|) && (done > 0 ==> db.hasSet)
      ensures |at| == done && forall i :: 0 <= i < done ==> at[i] < SLOTS && Used(db.slots[at[i]])
      ensures SameShape(raw, updates[..done])
      ensures DistinctIndices(updates) && db.hasSet && old(Lists(list, db.slots[..])) ==>
                && UpdatedTo(db.slots[..], old(db.slots[..]), list, raw)
                && Located(at, old(db.slots[..]), list, raw)
                && (done < |updates| ==> Stopped(|updates|, memory, done, status))
    {
      hide Owned, Flagged, UpdatedTo, Lists, Located, SameIdentities, DistinctIndices, Buffers;
      ghost var before := db.slots[..];
      ghost var good := DistinctIndices(updates) && db.hasSet && Lists(list, before);
      NothingUpdated(before, list);
      NothingLocated(before, list);
      status, done, at, raw := 0, 0, [], [];
      while done < |updates|
        invariant Valid() && SameIdentities(db.slots[..], before) && (done > 0 ==> db.hasSet)
        invariant done <= |updates| && status == 0
        invariant |at| == done && forall i :: 0 <= i < done ==> at[i] < SLOTS && Used(db.slots[at[i]])
        invariant SameShape(raw, updates[..done])
        invariant good ==> UpdatedTo(db.slots[..], before, list, raw) && Located(at, before, list, raw)
        invariant done > 0 ==> db.key == activeKey
      {
        var u := updates[done];
        var index;
        status, index := db.FindByBuffer(list[u.index]);
        var data := Uninitialised(|u.data|);
        ghost var more := raw + [Update(u.index, data)];
        ghost var q := 0;
        if good {
          q := LookedUp(db.slots[..], before, list, updates, raw, done, data);
        }
        if status != 0 {
          return;
        }
        if good {
          SameBuffer(db.slots[..], index, q);
        }
        if db.key != activeKey {
          return -ERROR_NOENTITY, done, at, raw;
        }
        var address := Malloc(Buffers(db.slots[..]), memory(done));
        if address == 0 {
          return -ERROR_ALLOC, done, at, raw;
        }
        var slot := Slot(db.slots[index].entry.(template := data), address);
        if good {
          assert more[..done] == raw && more[..done + 1] == more;
          StepUpdated(db.slots[..], before, list, more, done, q, slot);
          LocateNext(at, before, list, raw, more[done], q);
        }
        RewriteKeeps(db.slots[..], before, index, slot);
        Rewrite(index, slot);
        done, at, raw := done + 1, at + [index], more;
      }
    }

    /** The slot that the next update names is there, and untouched so far. */
    lemma LookedUp(s: seq<Slot>, before: seq<Slot>, list: seq<Address>, updates: seq<Update>,
                   raw: seq<Update>, i: nat, data: seq<byte>) returns (q: nat)
      requires i < |updates| && forall j :: 0 <= j < |updates| ==> updates[j].index < |list|
      requires DistinctIndices(updates) && SameShape(raw, updates[..i]) && Lists(list, before)
      requires UpdatedTo(s, before, list, raw)
      ensures q < |s| && Used(before[q]) && before[q].buffer == list[updates[i].index]
      ensures s[q] == before[q] && s[q].buffer in Buffers(s)
    {
      var more := raw + [Update(updates[i].index, data)];
      forall j | 0 <= j < |more| ensures more[j].index == updates[j].index {
        assert j < i ==> raw[j].index == updates[..i][j].index;
      }
      assert more[..i] == raw;
      q := NextSlot(s, before, list, more, i);
    }

    /** The library writes the new contents behind the template handles. */
    method Fill(updates: seq<Update>, at: seq<nat>, ghost before: seq<Slot>, ghost raw: seq<Update>)
      requires Valid() && db.hasSet && SameShape(raw, updates) && |at| == |updates|
      requires forall i :: 0 <= i < |updates| ==> updates[i].index < |list| && |updates[i].data| < TWO_32
      requires forall i :: 0 <= i < |at| ==> at[i] < SLOTS && Used(db.slots[at[i]])
      modifies db.slots
      ensures Valid() && SameIdentities(db.slots[..], old(db.slots[..]))
      ensures DistinctIndices(updates) && Owned(before) && Lists(list, before)
              && old(UpdatedTo(db.slots[..], before, list, raw)) && Located(at, before, list, raw)
              ==> UpdatedTo(db.slots[..], before, list, updates)
    {
      hide Owned, Flagged, UpdatedTo, Lists;
      ghost var good := DistinctIndices(updates) && Owned(before) && Lists(list, before)
                        && UpdatedTo(db.slots[..], before, list, raw) && Located(at, before, list, raw);
      ghost var us := raw;
      for i := 0 to |updates|
        invariant Valid() && SameIdentities(db.slots[..], old(db.slots[..]))
        invariant SameShape(us, updates) && us[..i] == updates[..i]
        invariant good ==> UpdatedTo(db.slots[..], before, list, us)
      {
        var slot := db.slots[at[i]];
        slot := slot.(entry := slot.entry.(template := updates[i].data));
        ghost var s := db.slots[..];
        if good {
          assert raw[i].index == us[i].index;
          StepFilled(s, before, list, us, i, updates[i], at[i]);
        }
        Rewrite(at[i], slot);
        us := us[i := updates[i]];
        assert us[..i + 1] == updates[..i + 1];
      }
      assert us == us[..|updates|] == updates;
    }

    /** Change the template of a slot in use, and possibly its buffer. */
    method Rewrite(index: nat, slot: Slot)
      requires Valid() && db.hasSet && index < SLOTS && Used(db.slots[index])
      requires slot.entry == db.slots[index].entry.(template := slot.entry.template)
      requires |slot.entry.template| < TWO_32
      requires slot.buffer == db.slots[index].buffer || (slot.buffer != 0 && slot.buffer !in Buffers(db.slots[..]))
      modifies db.slots
      ensures Valid() && db.slots[..] == old(db.slots[..])[index := slot]
    {
      ghost var s := db.slots[..];
      assert s[index] == db.slots[index];
      db.SlotWritten(s, index, slot);
      db.slots[index] := slot;
      assert db.slots[..] == s[index := slot];
    }
  }
}
