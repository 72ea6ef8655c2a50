/**
 * The packet filter table seen through its message IDs: the lookup
 * DS_TableFindMsgID, the message ID hash index kept beside the table
 * (DS_TableAddMsgID extends it, DS_TableCreateHash rebuilds it), and what
 * registering and unregistering a message ID do to later lookups.
 *
 * The hash function and the bucket chains are not modelled; the index is a
 * map from registered message ID to table index.
 */
module DsTable {
  import opened DsTypes

  /**
   * DS_TableFindMsgID: the index of an entry holding `mid`, or INDEX_NONE
   * when no entry holds it; looking up INVALID_MID finds an unused entry.
   * The model takes the lowest such index.
   */
  function FindMsgId(table: seq<PacketEntry>, mid: MsgId): (r: int)
    ensures r == INDEX_NONE || 0 <= r < |table|
    ensures r == INDEX_NONE <==> forall i :: 0 <= i < |table| ==> table[i].messageId != mid
    ensures r != INDEX_NONE ==> table[r].messageId == mid
    ensures r != INDEX_NONE ==> forall i :: 0 <= i < r ==> table[i].messageId != mid
  {
    if |table| == 0 then INDEX_NONE
    else if table[0].messageId == mid then 0
    else
      var r' := FindMsgId(table[1..], mid);
      if r' == INDEX_NONE then INDEX_NONE else r' + 1
  }

  /** Every entry has its full set of filter slots. */
  ghost predicate WellFormed(table: seq<PacketEntry>) {
    forall i :: 0 <= i < |table| ==> |table[i].filters| == FILTERS_PER_PACKET
  }

  /** No registered message ID occupies two entries. */
  ghost predicate UniqueMids(table: seq<PacketEntry>) {
    forall i, j :: 0 <= i < |table| && 0 <= j < |table| && i != j && table[i].messageId != INVALID_MID ==>
      table[i].messageId != table[j].messageId
  }

  /**
   * The hash index agrees with the table: every key is a registered message
   * ID mapped to an entry that holds it, and every registered message ID of
   * the table is a key. Unused entries have no mapping.
   */
  ghost predicate IndexAgrees(index: map<MsgId, int>, table: seq<PacketEntry>) {
    && (forall m :: m in index ==> m != INVALID_MID && 0 <= index[m] < |table| && table[index[m]].messageId == m)
    && (forall i :: 0 <= i < |table| && table[i].messageId != INVALID_MID ==> table[i].messageId in index)
  }

  /** The filter slots of a freshly added or freshly removed entry. */
  function DefaultFilters(): seq<FilterParms> {
    seq(FILTERS_PER_PACKET, _ => DEFAULT_FILTER)
  }

  /**
   * The table after entry `idx` is given message ID `mid` and default filter
   * slots: AddMID with a registered `mid`, RemoveMID with INVALID_MID.
   */
  function Assign(table: seq<PacketEntry>, idx: nat, mid: MsgId): seq<PacketEntry>
    requires idx < |table|
  {
    table[idx := PacketEntry(mid, DefaultFilters())]
  }

  /** The table with filter slot `k` of entry `idx` replaced by `f`. */
  function WithFilter(table: seq<PacketEntry>, idx: nat, k: nat, f: FilterParms): seq<PacketEntry>
    requires idx < |table| && k < |table[idx].filters|
  {
    table[idx := table[idx].(filters := table[idx].filters[k := f])]
  }

  /** DS_TableCreateHash: the index rebuilt from the table contents. */
  ghost function BuildIndex(table: seq<PacketEntry>): (index: map<MsgId, int>)
    ensures IndexAgrees(index, table)
    ensures forall m :: m in index ==> index[m] == FindMsgId(table, m)
  {
    map m | m in (set i | 0 <= i < |table| :: table[i].messageId) && m != INVALID_MID :: FindMsgId(table, m)
  }

  /** Two tables that hold `mid` at the same places answer a lookup of `mid` alike. */
  lemma {:induction false} FindSamePlaces(t1: seq<PacketEntry>, t2: seq<PacketEntry>, mid: MsgId)
    requires |t1| == |t2|
    requires forall i :: 0 <= i < |t1| ==> (t1[i].messageId == mid <==> t2[i].messageId == mid)
    ensures FindMsgId(t1, mid) == FindMsgId(t2, mid)
  {
    if |t1| > 0 && t1[0].messageId != mid {
      FindSamePlaces(t1[1..], t2[1..], mid);
    }
  }

  /**
   * Looking a registered message ID up in an index that agrees with a table
   * of unique message IDs gives what DS_TableFindMsgID gives.
   */
  lemma IndexLookup(index: map<MsgId, int>, table: seq<PacketEntry>, mid: MsgId)
    requires IndexAgrees(index, table) && UniqueMids(table) && mid != INVALID_MID
    ensures mid in index <==> FindMsgId(table, mid) != INDEX_NONE
    ensures mid in index ==> index[mid] == FindMsgId(table, mid)
  {
    var r := FindMsgId(table, mid);
    if r != INDEX_NONE {
      assert table[r].messageId in index;
    }
  }

  /** Over a table of unique message IDs, at most one index agrees with it. */
  lemma IndexDetermined(a: map<MsgId, int>, b: map<MsgId, int>, table: seq<PacketEntry>)
    requires IndexAgrees(a, table) && IndexAgrees(b, table) && UniqueMids(table)
    ensures a == b
  {
    forall m | m in a
      ensures m in b && a[m] == b[m]
    {
      IndexLookup(a, table, m);
      IndexLookup(b, table, m);
    }
    forall m | m in b
      ensures m in a
    {
      IndexLookup(a, table, m);
      IndexLookup(b, table, m);
    }
  }

  /**
   * AddMID on the table: filling the lowest unused entry with a message ID
   * the table does not hold keeps message IDs unique, makes a lookup of the
   * new ID return that entry, leaves every other registered ID where it was,
   * and moves the next free entry past it.
   */
  lemma {:induction false} AssignRegisters(table: seq<PacketEntry>, mid: MsgId)
    requires UniqueMids(table) && mid != INVALID_MID
    requires FindMsgId(table, mid) == INDEX_NONE
    requires FindMsgId(table, INVALID_MID) != INDEX_NONE
    ensures var idx := FindMsgId(table, INVALID_MID);
      var t' := Assign(table, idx, mid);
      && UniqueMids(t')
      && FindMsgId(t', mid) == idx
      && (forall m :: m != mid && m != INVALID_MID ==> FindMsgId(t', m) == FindMsgId(table, m))
      && (FindMsgId(t', INVALID_MID) == INDEX_NONE || FindMsgId(t', INVALID_MID) > idx)
  {
    var idx := FindMsgId(table, INVALID_MID);
    var t' := Assign(table, idx, mid);
    forall m | m != mid && m != INVALID_MID
      ensures FindMsgId(t', m) == FindMsgId(table, m)
    {
      FindSamePlaces(table, t', m);
    }
    var found := FindMsgId(t', mid);
    assert t'[idx].messageId == mid;
    assert found != INDEX_NONE && found <= idx;
    assert t'[found] == table[found] || found == idx;
    var free := FindMsgId(t', INVALID_MID);
    if free != INDEX_NONE {
      assert free != idx;
    }
  }

  /**
   * AddMID on the index: inserting the new message ID at the entry it was
   * given keeps the index in agreement with the table.
   */
  lemma AssignExtendsIndex(index: map<MsgId, int>, table: seq<PacketEntry>, idx: nat, mid: MsgId)
    requires IndexAgrees(index, table) && UniqueMids(table)
    requires idx < |table| && table[idx].messageId == INVALID_MID
    requires mid != INVALID_MID && mid !in index
    ensures IndexAgrees(index[mid := idx], Assign(table, idx, mid))
  {
    var t' := Assign(table, idx, mid);
    forall m | m in index
      ensures 0 <= index[m] < |t'| && t'[index[m]].messageId == m
    {
      assert index[m] != idx;
    }
  }

  /**
   * RemoveMID on the table: marking the entry of a registered message ID as
   * unused keeps message IDs unique, makes a lookup of that ID fail, leaves
   * every other registered ID where it was, and gives the table a free entry
   * no later than the one released.
   */
  lemma {:induction false} AssignUnregisters(table: seq<PacketEntry>, idx: nat)
    requires UniqueMids(table) && idx < |table| && table[idx].messageId != INVALID_MID
    ensures var mid := table[idx].messageId;
      var t' := Assign(table, idx, INVALID_MID);
      && UniqueMids(t')
      && FindMsgId(t', mid) == INDEX_NONE
      && (forall m :: m != mid && m != INVALID_MID ==> FindMsgId(t', m) == FindMsgId(table, m))
      && 0 <= FindMsgId(t', INVALID_MID) <= idx
  {
    var mid := table[idx].messageId;
    var t' := Assign(table, idx, INVALID_MID);
    forall i | 0 <= i < |t'|
      ensures t'[i].messageId != mid
    {
      if i != idx {
        assert table[i].messageId != mid;
      }
    }
    forall m | m != mid && m != INVALID_MID
      ensures FindMsgId(t', m) == FindMsgId(table, m)
    {
      FindSamePlaces(table, t', m);
    }
    assert t'[idx].messageId == INVALID_MID;
  }

  /**
   * RemoveMID on the index: the rebuilt index is the old one without the
   * removed message ID, so every other registered ID keeps its entry.
   */
  lemma RebuildDropsOnly(index: map<MsgId, int>, table: seq<PacketEntry>, idx: nat)
    requires IndexAgrees(index, table) && UniqueMids(table)
    requires idx < |table| && table[idx].messageId != INVALID_MID
    ensures BuildIndex(Assign(table, idx, INVALID_MID)) == index - {table[idx].messageId}
  {
    var mid := table[idx].messageId;
    var t' := Assign(table, idx, INVALID_MID);
    AssignUnregisters(table, idx);
    var smaller := index - {mid};
    forall m | m in smaller
      ensures 0 <= smaller[m] < |t'| && t'[smaller[m]].messageId == m
    {
      IndexLookup(index, table, mid);
      assert index[m] != idx;
    }
    assert IndexAgrees(smaller, t');
    IndexDetermined(BuildIndex(t'), smaller, t');
  }

  /**
   * The three filter set-commands rewrite one filter slot and keep every
   * message ID, so the table stays well formed, the index still agrees with
   * it and every lookup answers as before.
   */
  lemma WithFilterKeepsIds(index: map<MsgId, int>, table: seq<PacketEntry>, idx: nat, k: nat, f: FilterParms)
    requires WellFormed(table) && UniqueMids(table) && IndexAgrees(index, table)
    requires idx < |table| && k < |table[idx].filters|
    ensures var t' := WithFilter(table, idx, k, f);
      && WellFormed(t') && UniqueMids(t') && IndexAgrees(index, t')
      && forall m :: FindMsgId(t', m) == FindMsgId(table, m)
  {
    var t' := WithFilter(table, idx, k, f);
    forall m
      ensures FindMsgId(t', m) == FindMsgId(table, m)
    {
      FindSamePlaces(table, t', m);
    }
  }

  /** Tables holding the same message IDs at the same places have the same index. */
  lemma SameIdsSameIndex(t1: seq<PacketEntry>, t2: seq<PacketEntry>)
    requires |t1| == |t2|
    requires forall i :: 0 <= i < |t1| ==> t1[i].messageId == t2[i].messageId
    ensures BuildIndex(t1) == BuildIndex(t2)
  {
    forall m
      ensures FindMsgId(t1, m) == FindMsgId(t2, m)
    {
      FindSamePlaces(t1, t2, m);
    }
    assert (set i | 0 <= i < |t1| :: t1[i].messageId) == (set i | 0 <= i < |t2| :: t2[i].messageId);
  }

  /**
   * AddMID on table and index together: the lowest unused entry receives
   * the new message ID, the table stays valid, the extended index agrees
   * with it, a lookup of the new ID finds that entry and every other lookup
   * of a registered ID is unchanged.
   */
  lemma Register(index: map<MsgId, int>, table: seq<PacketEntry>, mid: MsgId)
    requires WellFormed(table) && UniqueMids(table) && IndexAgrees(index, table)
    requires mid != INVALID_MID && FindMsgId(table, mid) == INDEX_NONE
    requires FindMsgId(table, INVALID_MID) != INDEX_NONE
    ensures var idx := FindMsgId(table, INVALID_MID);
      var t' := Assign(table, idx, mid);
      && WellFormed(t') && UniqueMids(t') && IndexAgrees(index[mid := idx], t')
      && mid !in index
      && FindMsgId(t', mid) == idx
      && (forall m :: m in index ==> FindMsgId(t', m) == FindMsgId(table, m))
  {
    var idx := FindMsgId(table, INVALID_MID);
    IndexLookup(index, table, mid);
    AssignRegisters(table, mid);
    AssignExtendsIndex(index, table, idx, mid);
  }

  /**
   * RemoveMID on table and index together: the entry of a registered message
   * ID becomes unused, the table stays valid, the rebuilt index is the old
   * one without that ID, a lookup of it fails and every other lookup of a
   * registered ID is unchanged.
   */
  lemma Unregister(index: map<MsgId, int>, table: seq<PacketEntry>, idx: nat)
    requires WellFormed(table) && UniqueMids(table) && IndexAgrees(index, table)
    requires idx < |table| && table[idx].messageId != INVALID_MID
    ensures var mid := table[idx].messageId;
      var t' := Assign(table, idx, INVALID_MID);
      && WellFormed(t') && UniqueMids(t')
      && BuildIndex(t') == index - {mid}
      && FindMsgId(t', mid) == INDEX_NONE
      && (forall m :: m in index - {mid} ==> FindMsgId(t', m) == FindMsgId(table, m))
  {
    AssignUnregisters(table, idx);
    RebuildDropsOnly(index, table, idx);
  }
}
