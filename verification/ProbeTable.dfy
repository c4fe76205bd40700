/** Linear probing on a table of entries: the invariant of every reachable table, and what a
    cyclic search from a key's home slot finds in it. */
module ProbeTable {
  import opened Powers
  import opened Bytes
  import opened Records

  /** The slot d steps after home, wrapping around once. */
  function SlotFrom(home: nat, d: nat, n: nat): (i: nat)
    requires home < n && d <= n
    ensures d < n ==> i < n
  {
    if home + d < n then home + d else home + d - n
  }

  /** How many steps a cyclic search from home needs to reach slot i. */
  function Displacement(home: nat, i: nat, n: nat): (d: nat)
    requires home < n && i < n
    ensures d < n && SlotFrom(home, d, n) == i
  {
    if home <= i then i - home else i + n - home
  }

  function Home(hash: Hasher, key: Key, n: nat): (h: nat)
    requires 0 < n
    ensures h < n
  {
    hash(key) % n
  }

  ghost predicate HasKey(t: Table, key: Key) {
    exists i :: 0 <= i < |t| && t[i].Some? && t[i].value.key == key
  }

  ghost predicate ChainOccupied(t: Table, home: nat, length: nat)
    requires home < |t| && length <= |t|
  {
    forall d :: 0 <= d < length ==> t[SlotFrom(home, d, |t|)].Some?
  }

  /** From a key's home to the slot that holds it there is no empty slot. */
  ghost predicate Chained(t: Table, hash: Hasher) {
    forall i :: 0 <= i < |t| && t[i].Some? ==>
      var home := Home(hash, t[i].value.key, |t|);
      ChainOccupied(t, home, Displacement(home, i, |t|))
  }

  ghost predicate Distinct(t: Table) {
    forall i, j :: 0 <= i < j < |t| && t[i].Some? && t[j].Some? ==> t[i].value.key != t[j].value.key
  }

  function Count(t: Table): (c: nat)
    ensures c <= |t|
  {
    if |t| == 0 then 0 else Count(t[..|t| - 1]) + if t[|t| - 1].Some? then 1 else 0
  }

  /** Every stored key is at most this far from its home. */
  ghost predicate WithinCollisions(t: Table, hash: Hasher, maxCollisions: nat) {
    forall i :: 0 <= i < |t| && t[i].Some? ==>
      Displacement(Home(hash, t[i].value.key, |t|), i, |t|) <= maxCollisions
  }

  ghost predicate WellFormed(t: Table, hash: Hasher) {
    Chained(t, hash) && Distinct(t) && Count(t) < |t|
  }

  // ---------- searching

  predicate Stops(cell: Option<Entry>, key: Key) {
    cell.None? || cell.value.key == key
  }

  /** The first distance at or after d at which a search stops, or n if it never does. */
  function StopDistance(t: Table, key: Key, home: nat, d: nat): (r: nat)
    requires home < |t| && d <= |t|
    ensures d <= r <= |t|
    ensures r < |t| ==> Stops(t[SlotFrom(home, r, |t|)], key)
    ensures forall e :: d <= e < r ==> !Stops(t[SlotFrom(home, e, |t|)], key)
    decreases |t| - d
  {
    if d == |t| then d
    else if Stops(t[SlotFrom(home, d, |t|)], key) then d
    else StopDistance(t, key, home, d + 1)
  }

  lemma {:induction false} EmptySlotExists(t: Table)
    requires Count(t) < |t|
    ensures exists i :: 0 <= i < |t| && t[i].None?
  {
    var m := |t| - 1;
    if t[m].Some? {
      EmptySlotExists(t[..m]);
      var i :| 0 <= i < m && t[..m][i].None?;
      assert t[i].None?;
    }
  }

  /** In a well-formed table every search ends: on the key's slot if the key is stored, and on an
      empty slot otherwise. */
  lemma SearchIsCorrect(t: Table, hash: Hasher, key: Key)
    requires 0 < |t| && WellFormed(t, hash)
    ensures var home := Home(hash, key, |t|);
            var d := StopDistance(t, key, home, 0);
            && d < |t|
            && (HasKey(t, key) <==> t[SlotFrom(home, d, |t|)].Some?)
  {
    hide Chained, Distinct, Count, Home, Displacement, SlotFrom;
    var home := Home(hash, key, |t|);
    EmptySlotExists(t);
    var e :| 0 <= e < |t| && t[e].None?;
    StopsAt(t, key, home, e);
    if HasKey(t, key) {
      var i :| 0 <= i < |t| && t[i].Some? && t[i].value.key == key;
      StopsAt(t, key, home, i);
      ChainAt(t, hash, i);
      OnTheChain(t, home, Displacement(home, i, |t|), StopDistance(t, key, home, 0));
    }
  }

  lemma ChainAt(t: Table, hash: Hasher, i: nat)
    requires i < |t| && t[i].Some? && Chained(t, hash)
    ensures var home := Home(hash, t[i].value.key, |t|); ChainOccupied(t, home, Displacement(home, i, |t|))
  {
    hide ChainOccupied, Displacement, Home;
  }

  /** Up to a stored key's slot and at it, every slot from home is occupied. */
  lemma OnTheChain(t: Table, home: nat, length: nat, d: nat)
    requires home < |t| && length < |t| && ChainOccupied(t, home, length) && d <= length
    requires t[SlotFrom(home, length, |t|)].Some?
    ensures t[SlotFrom(home, d, |t|)].Some?
  {
  }

  /** A search gets no further than a slot it stops at. */
  lemma StopsAt(t: Table, key: Key, home: nat, i: nat)
    requires home < |t| && i < |t| && Stops(t[i], key)
    ensures StopDistance(t, key, home, 0) <= Displacement(home, i, |t|)
  {
    var d := Displacement(home, i, |t|);
    assert Stops(t[SlotFrom(home, d, |t|)], key);
  }

  /** Finding a stored key inspects its displacement plus one slots, so maxCollisions bounds it. */
  lemma SearchIsBounded(t: Table, hash: Hasher, key: Key, maxCollisions: nat)
    requires 0 < |t| && WellFormed(t, hash) && WithinCollisions(t, hash, maxCollisions)
    requires HasKey(t, key)
    ensures StopDistance(t, key, Home(hash, key, |t|), 0) <= maxCollisions
  {
    var n, home := |t|, Home(hash, key, |t|);
    var i :| 0 <= i < n && t[i].Some? && t[i].value.key == key;
    assert Stops(t[SlotFrom(home, Displacement(home, i, n), n)], key);
  }

  /** The slots of a search, counted from the hash of the key. */
  lemma SlotIsModular(h: nat, d: nat, n: nat)
    requires 0 < n && d < n
    ensures 0 <= (h + d) % n < n && SlotFrom(h % n, d, n) == (h + d) % n
  {
    DivModSplit(h, n);
    var q := h / n;
    if h % n + d < n {
      DivModUnique(h + d, n, q, h % n + d);
    } else {
      MulDistributes(n, q, 1);
      DivModUnique(h + d, n, q + 1, h % n + d - n);
    }
  }

  /** The cell that a search for a hash h inspects after d others. */
  function CellAt(t: Table, h: nat, d: nat): Option<Entry>
    requires 0 < |t|
  {
    t[(h + d) % |t|]
  }

  predicate PassesOver(t: Table, h: nat, d: nat, key: Key)
    requires 0 < |t|
  {
    CellAt(t, h, d).Some? && CellAt(t, h, d).value.key != key
  }

  /** From the slot h modulo the number of slots on, the first d slots have other keys, and the next is
      empty or has the key. */
  ghost predicate SearchEnds(t: Table, h: nat, d: nat, key: Key) {
    && d < |t| && (forall k :: 0 <= k < d ==> PassesOver(t, h, k, key))
    && Stops(CellAt(t, h, d), key)
  }

  lemma SearchedInOrder(t: Table, hash: Hasher, key: Key)
    requires 0 < |t| && WellFormed(t, hash)
    ensures var d := StopDistance(t, key, Home(hash, key, |t|), 0);
            && SearchEnds(t, hash(key), d, key)
            && SlotFrom(Home(hash, key, |t|), d, |t|) == (hash(key) + d) % |t|
            && (HasKey(t, key) <==> CellAt(t, hash(key), d).Some?)
  {
    hide SlotFrom, WellFormed, HasKey;
    SearchIsCorrect(t, hash, key);
    var h, home := hash(key), Home(hash, key, |t|);
    var d := StopDistance(t, key, home, 0);
    SlotIsModular(h, d, |t|);
    forall k | 0 <= k < d
      ensures PassesOver(t, h, k, key)
    {
      PassedAt(t, h, k, key);
    }
  }

  lemma PassedAt(t: Table, h: nat, k: nat, key: Key)
    requires 0 < |t| && k < StopDistance(t, key, h % |t|, 0)
    ensures PassesOver(t, h, k, key)
  {
    hide SlotFrom;
    SlotIsModular(h, k, |t|);
    assert !Stops(t[SlotFrom(h % |t|, k, |t|)], key);
  }

  // ---------- inserting

  lemma {:induction false} CountOfUpdate(t: Table, i: nat, e: Entry)
    requires i < |t| && t[i].None?
    ensures Count(t[i := Some(e)]) == Count(t) + 1
  {
    var m := |t| - 1;
    if i < m {
      CountOfUpdate(t[..m], i, e);
      assert t[i := Some(e)][..m] == t[..m][i := Some(e)];
    } else {
      assert t[i := Some(e)][..m] == t[..m];
    }
  }

  lemma {:induction false} CountOfEmpty(n: nat)
    ensures Count(seq(n, _ => None)) == 0
  {
    if n != 0 {
      var t: Table := seq(n, _ => None);
      assert t[..n - 1] == seq(n - 1, _ => None);
      CountOfEmpty(n - 1);
    }
  }

  /** Writing a new key where its search stopped keeps the table well-formed while a slot stays
      empty, and the search distance joins the collision bound. */
  lemma InsertKeepsInvariant(t: Table, hash: Hasher, e: Entry, maxCollisions: nat)
    requires 0 < |t| && WellFormed(t, hash) && WithinCollisions(t, hash, maxCollisions)
    requires !HasKey(t, e.key) && Count(t) + 1 < |t|
    ensures var home := Home(hash, e.key, |t|);
            var d := StopDistance(t, e.key, home, 0);
            && d < |t|
            && var i := SlotFrom(home, d, |t|);
            && t[i].None?
            && WellFormed(t[i := Some(e)], hash)
            && Count(t[i := Some(e)]) == Count(t) + 1
            && WithinCollisions(t[i := Some(e)], hash, if maxCollisions < d then d else maxCollisions)
  {
    hide Chained, Distinct, Count, Home, HasKey, WithinCollisions, StopDistance, Displacement;
    var n, home := |t|, Home(hash, e.key, |t|);
    SearchIsCorrect(t, hash, e.key);
    var d := StopDistance(t, e.key, home, 0);
    var i := SlotFrom(home, d, n);
    CountOfUpdate(t, i, e);
    DisplacementOfSlot(home, d, n);
    InsertIsDistinct(t, i, e);
    SearchedSlots(t, e.key, home);
    InsertKeepsChains(t, hash, e, i, d);
    InsertWithinCollisions(t, hash, e, i, d, maxCollisions);
  }

  lemma DisplacementOfSlot(home: nat, d: nat, n: nat)
    requires home < n && d < n
    ensures Displacement(home, SlotFrom(home, d, n), n) == d
  {
  }

  lemma SearchedSlots(t: Table, key: Key, home: nat)
    requires home < |t|
    ensures ChainOccupied(t, home, StopDistance(t, key, home, 0))
  {
  }

  lemma InsertKeepsChains(t: Table, hash: Hasher, e: Entry, i: nat, d: nat)
    requires i < |t| && t[i].None? && Chained(t, hash)
    requires var home := Home(hash, e.key, |t|); d == Displacement(home, i, |t|) && ChainOccupied(t, home, d)
    ensures Chained(t[i := Some(e)], hash)
  {
    hide Home, Displacement, SlotFrom;
    var t' := t[i := Some(e)];
    forall j | 0 <= j < |t| && t'[j].Some?
      ensures var h := Home(hash, t'[j].value.key, |t|); ChainOccupied(t', h, Displacement(h, j, |t|))
    {
      if j != i {
        ChainAt(t, hash, j);
      }
    }
  }

  lemma InsertWithinCollisions(t: Table, hash: Hasher, e: Entry, i: nat, d: nat, maxCollisions: nat)
    requires i < |t| && t[i].None? && WithinCollisions(t, hash, maxCollisions)
    requires d == Displacement(Home(hash, e.key, |t|), i, |t|)
    ensures WithinCollisions(t[i := Some(e)], hash, if maxCollisions < d then d else maxCollisions)
  {
    hide Home, Displacement;
  }

  // ---------- the table as a map

  ghost function EntryMap(t: Table): map<Key, Entry>
    requires Distinct(t)
  {
    map i | 0 <= i < |t| && t[i].Some? :: t[i].value.key := t[i].value
  }

  lemma EntryMapKey(t: Table, key: Key)
    requires Distinct(t)
    ensures key in EntryMap(t) <==> HasKey(t, key)
  {
  }

  /** What a search reads is what the map holds. */
  lemma SearchReadsMap(t: Table, hash: Hasher, key: Key)
    requires 0 < |t| && WellFormed(t, hash)
    ensures var home := Home(hash, key, |t|);
            var d := StopDistance(t, key, home, 0);
            && d < |t|
            && var cell := t[SlotFrom(home, d, |t|)];
               if key in EntryMap(t) then cell == Some(EntryMap(t)[key]) else cell.None?
  {
    SearchIsCorrect(t, hash, key);
    var home := Home(hash, key, |t|);
    var i := SlotFrom(home, StopDistance(t, key, home, 0), |t|);
    if t[i].Some? {
      assert t[i].value.key in EntryMap(t);
    }
  }

  lemma EntryMapAt(t: Table, j: nat)
    requires Distinct(t) && j < |t| && t[j].Some?
    ensures HasKey(t, t[j].value.key) && t[j].value.key in EntryMap(t) && EntryMap(t)[t[j].value.key] == t[j].value
  {
  }

  lemma InsertHasKey(t: Table, i: nat, e: Entry, key: Key)
    requires i < |t| && t[i].None?
    ensures HasKey(t[i := Some(e)], key) <==> key == e.key || HasKey(t, key)
  {
    var t' := t[i := Some(e)];
    assert t'[i].Some?;
    if HasKey(t, key) {
      var j :| 0 <= j < |t| && t[j].Some? && t[j].value.key == key;
      assert t'[j] == t[j];
    }
  }

  lemma InsertIsDistinct(t: Table, i: nat, e: Entry)
    requires Distinct(t) && i < |t| && t[i].None? && !HasKey(t, e.key)
    ensures Distinct(t[i := Some(e)])
  {
  }

  lemma MapOfInsert(t: Table, i: nat, e: Entry)
    requires Distinct(t) && i < |t| && t[i].None? && !HasKey(t, e.key)
    ensures Distinct(t[i := Some(e)])
    ensures EntryMap(t[i := Some(e)]) == EntryMap(t)[e.key := e]
  {
    hide Distinct, EntryMap;
    var t' := t[i := Some(e)];
    InsertIsDistinct(t, i, e);
    forall key
      ensures key in EntryMap(t') <==> key in EntryMap(t)[e.key := e]
      ensures key in EntryMap(t') ==> EntryMap(t')[key] == EntryMap(t)[e.key := e][key]
    {
      EntryMapKey(t, key);
      EntryMapKey(t', key);
      InsertHasKey(t, i, e, key);
      if HasKey(t', key) {
        var j :| 0 <= j < |t'| && t'[j].Some? && t'[j].value.key == key;
        EntryMapAt(t', j);
        if j != i {
          EntryMapAt(t, j);
        }
      }
    }
  }

  lemma MapOfEmpty(n: nat)
    ensures Distinct(seq(n, _ => None)) && EntryMap(seq(n, _ => None)) == map[]
  {
  }
}
