/**
 * The DS ground-command handlers. Each handler checks its command in a fixed
 * order; the first failed check rejects the command, which raises the
 * rejected-command counter and changes nothing else. A command that passes
 * every check changes exactly the fields it addresses and raises the
 * accepted-command counter (Reset instead zeroes all counters).
 *
 * The command length comparison is the `lengthOk` argument of every handler.
 */
module DsCmds {
  import opened DsTypes
  import opened DsTable

  /** One destination's record of the file info packet, taken from its status. */
  ghost predicate IsFileInfo(info: FileInfo, st: FileStatus, destLoaded: bool) {
    && info.fileAge == st.fileAge
    && info.fileSize == st.fileSize
    && info.fileRate == st.fileRate
    && info.sequenceCount == st.fileCount
    && info.enableState == (if destLoaded then st.fileState else DISABLED)
    && (info.openState == CLOSED <==> st.fileHandle == Undefined)
    && (info.openState == OPEN <==> st.fileHandle != Undefined)
    && info.fileName == (if st.fileHandle == Undefined then [] else StrNCopy(st.fileName, TOTAL_FNAME_BUFSIZE))
  }

  /** The file info packet is a record-by-record projection of the status array. */
  ghost predicate IsFileInfoPacket(info: seq<FileInfo>, statuses: seq<FileStatus>, destLoaded: bool) {
    |info| == |statuses| && forall i :: 0 <= i < |info| ==> IsFileInfo(info[i], statuses[i], destLoaded)
  }

  /**
   * The effects of closing destinations 0 .. k-1 in order: for each one
   * whose handle is defined, a header update followed by a close.
   */
  ghost function Closings(statuses: seq<FileStatus>, k: nat): seq<Effect>
    requires k <= |statuses|
  {
    if k == 0 then []
    else Closings(statuses, k - 1) + Closing(statuses[k - 1], k - 1)
  }

  ghost function Closing(st: FileStatus, i: nat): seq<Effect> {
    if st.fileHandle == Undefined then [] else [HeaderUpdated(i), DestClosed(i)]
  }

  /**
   * Close-all touches exactly the open destinations: it updates the header
   * of and closes every destination whose handle is defined, and no other.
   */
  lemma {:induction false} ClosingsCover(statuses: seq<FileStatus>, k: nat)
    requires k <= |statuses|
    ensures forall e :: e in Closings(statuses, k) ==>
      && (e.HeaderUpdated? || e.DestClosed?)
      && e.dest < k && statuses[e.dest].fileHandle != Undefined
    ensures forall j :: 0 <= j < k && statuses[j].fileHandle != Undefined ==>
      HeaderUpdated(j) in Closings(statuses, k) && DestClosed(j) in Closings(statuses, k)
  {
    if k > 0 {
      ClosingsCover(statuses, k - 1);
      var c' := Closings(statuses, k - 1);
      var t := Closing(statuses[k - 1], k - 1);
      assert Closings(statuses, k) == c' + t;
      forall e: Effect | e in c' + t
        ensures (e.HeaderUpdated? || e.DestClosed?) && e.dest < k && statuses[e.dest].fileHandle != Undefined
      {
        if e !in c' {
          assert e in t;
        }
      }
      forall j | 0 <= j < k && statuses[j].fileHandle != Undefined
        ensures HeaderUpdated(j) in c' + t && DestClosed(j) in c' + t
      {
        if j < k - 1 {
          assert HeaderUpdated(j) in c' && DestClosed(j) in c';
        } else {
          assert t == [HeaderUpdated(j), DestClosed(j)];
        }
      }
    }
  }

  /** Every close in `c` immediately follows the header update of the same file. */
  ghost predicate HeaderBeforeClose(c: seq<Effect>) {
    forall p :: 0 <= p < |c| && c[p].DestClosed? ==> 0 < p && c[p - 1] == HeaderUpdated(c[p].dest)
  }

  /** Close-all updates a file's header immediately before closing it. */
  lemma {:induction false} ClosingsPaired(statuses: seq<FileStatus>, k: nat)
    requires k <= |statuses|
    ensures HeaderBeforeClose(Closings(statuses, k))
  {
    if k > 0 {
      ClosingsPaired(statuses, k - 1);
      var c' := Closings(statuses, k - 1);
      var t := Closing(statuses[k - 1], k - 1);
      var c := c' + t;
      assert Closings(statuses, k) == c;
      forall p | 0 <= p < |c| && c[p].DestClosed?
        ensures 0 < p && c[p - 1] == HeaderUpdated(c[p].dest)
      {
        if p < |c'| {
          assert c'[p] == c[p];
          assert HeaderBeforeClose(c');
          assert c[p - 1] == c'[p - 1];
        } else {
          assert p == |c'| + 1;
        }
      }
    }
  }

  class AppData {
    /** The table verification predicates and the message ID check. */
    const verify: Verifiers
    /** The packet filter table entries. */
    const packets: array<PacketEntry>
    /** The destination file table entries. */
    const dests: array<DestFileEntry>
    /** The runtime status of each destination file. */
    const status: array<FileStatus>
    /** Whether a packet filter table is loaded. */
    var filterLoaded: bool
    /** Whether a destination file table is loaded. */
    var destLoaded: bool
    var appEnableState: uint16
    var counters: Counters
    /** The message ID hash index. */
    ghost var midIndex: map<MsgId, int>
    /** Effects on the critical data store, the software bus and the files, oldest first. */
    ghost var trace: seq<Effect>

    ghost predicate Valid()
      reads this, packets
    {
      && verify.Sound()
      && packets.Length == PACKETS_IN_FILTER_TABLE
      && dests.Length == DEST_FILE_CNT
      && status.Length == DEST_FILE_CNT
      && WellFormed(packets[..])
      && UniqueMids(packets[..])
      && IndexAgrees(midIndex, packets[..])
    }

    /**
     * The application data once the table services have supplied the tables:
     * counters zero, the hash index built from the filter table.
     */
    constructor (verify: Verifiers, filterTable: seq<PacketEntry>, filterLoaded: bool,
                 destTable: seq<DestFileEntry>, destLoaded: bool, fileStatus: seq<FileStatus>,
                 appEnableState: uint16)
      requires verify.Sound()
      requires |filterTable| == PACKETS_IN_FILTER_TABLE && WellFormed(filterTable) && UniqueMids(filterTable)
      requires |destTable| == DEST_FILE_CNT && |fileStatus| == DEST_FILE_CNT
      ensures Valid() && fresh(packets) && fresh(dests) && fresh(status)
      ensures this.verify == verify && this.filterLoaded == filterLoaded && this.destLoaded == destLoaded
      ensures packets[..] == filterTable && dests[..] == destTable && status[..] == fileStatus
      ensures this.appEnableState == appEnableState && counters == ZERO_COUNTERS
      ensures midIndex == BuildIndex(filterTable) && trace == []
    {
      this.verify := verify;
      packets := new PacketEntry[|filterTable|](i requires 0 <= i < |filterTable| => filterTable[i]);
      dests := new DestFileEntry[|destTable|](i requires 0 <= i < |destTable| => destTable[i]);
      status := new FileStatus[|fileStatus|](i requires 0 <= i < |fileStatus| => fileStatus[i]);
      this.filterLoaded := filterLoaded;
      this.destLoaded := destLoaded;
      this.appEnableState := appEnableState;
      counters := ZERO_COUNTERS;
      midIndex := BuildIndex(filterTable);
      trace := [];
      new;
      assert packets[..] == filterTable;
      assert dests[..] == destTable;
      assert status[..] == fileStatus;
    }

    // ---- Frame conditions ----

    twostate predicate FilterTableKept()
      reads this, packets
    {
      packets[..] == old(packets[..]) && filterLoaded == old(filterLoaded) && midIndex == old(midIndex)
    }

    twostate predicate DestTableKept()
      reads this, dests
    {
      dests[..] == old(dests[..]) && destLoaded == old(destLoaded)
    }

    twostate predicate StatusKept()
      reads status
    {
      status[..] == old(status[..])
    }

    twostate predicate AppStateKept()
      reads this
    {
      appEnableState == old(appEnableState)
    }

    twostate predicate TraceKept()
      reads this
    {
      trace == old(trace)
    }

    /** The command was rejected: one more rejection and nothing else changed. */
    twostate predicate Rejected()
      reads this, packets, dests, status
    {
      && counters == old(counters).BumpRejected()
      && FilterTableKept() && DestTableKept() && StatusKept() && AppStateKept() && TraceKept()
    }

    /** The command was accepted and changed nothing but the accepted-command counter. */
    twostate predicate AcceptedOnly()
      reads this, packets, dests, status
    {
      && counters == old(counters).BumpAccepted()
      && FilterTableKept() && DestTableKept() && StatusKept() && AppStateKept() && TraceKept()
    }

    /** The command was accepted and changed only the destination file table contents. */
    twostate predicate AcceptedDestOnly()
      reads this, packets, dests, status
    {
      && counters == old(counters).BumpAccepted()
      && FilterTableKept() && destLoaded == old(destLoaded) && StatusKept() && AppStateKept() && TraceKept()
    }

    /** The command was accepted and changed only the filter table entries. */
    twostate predicate AcceptedFilterOnly()
      reads this, packets, dests, status
    {
      && counters == old(counters).BumpAccepted()
      && filterLoaded == old(filterLoaded) && midIndex == old(midIndex)
      && DestTableKept() && StatusKept() && AppStateKept() && TraceKept()
    }

    // ---- Check chains ----

    /** The checks shared by the three filter commands, in the handlers' order. */
    predicate FilterCmdAccepted(lengthOk: bool, mid: MsgId, filterParmsIndex: uint16, argOk: bool)
      reads this, packets
    {
      && lengthOk
      && verify.isValidMsgId(mid)
      && filterParmsIndex < FILTERS_PER_PACKET
      && argOk
      && filterLoaded
      && FindMsgId(packets[..], mid) != INDEX_NONE
    }

    /** The checks shared by the destination commands, in the handlers' order. */
    predicate DestCmdAccepted(lengthOk: bool, fileTableIndex: uint16, argOk: bool)
      reads this
    {
      lengthOk && verify.fileIndex(fileTableIndex) && argOk && destLoaded
    }

    predicate AddMidAccepted(cmd: AddMidCmd, lengthOk: bool)
      reads this, packets
    {
      && lengthOk
      && verify.isValidMsgId(cmd.messageId)
      && filterLoaded
      && FindMsgId(packets[..], cmd.messageId) == INDEX_NONE
      && FindMsgId(packets[..], INVALID_MID) != INDEX_NONE
    }

    predicate RemoveMidAccepted(cmd: RemoveMidCmd, lengthOk: bool)
      reads this, packets
    {
      && lengthOk
      && verify.isValidMsgId(cmd.messageId)
      && filterLoaded
      && FindMsgId(packets[..], cmd.messageId) != INDEX_NONE
    }

    // ---- Handlers ----

    /** DS_CmdNoop */
    method CmdNoop(lengthOk: bool)
      requires Valid()
      modifies this
      ensures Valid()
      ensures !lengthOk ==> Rejected()
      ensures lengthOk ==> AcceptedOnly()
    {
      if !lengthOk {
        counters := counters.BumpRejected();
      } else {
        counters := counters.BumpAccepted();
      }
    }

    /** DS_CmdReset: zeroes every housekeeping counter, the command counters included. */
    method CmdReset(lengthOk: bool)
      requires Valid()
      modifies this
      ensures Valid()
      ensures !lengthOk ==> Rejected()
      ensures lengthOk ==>
        && counters == ZERO_COUNTERS
        && FilterTableKept() && DestTableKept() && StatusKept() && AppStateKept() && TraceKept()
    {
      if !lengthOk {
        counters := counters.BumpRejected();
      } else {
        counters := ZERO_COUNTERS;
      }
    }

    /** DS_CmdSetAppState: sets the application state and pushes it to the critical data store. */
    method CmdSetAppState(cmd: AppStateCmd, lengthOk: bool)
      requires Valid()
      modifies this
      ensures Valid()
      ensures !(lengthOk && verify.state(cmd.enableState)) ==> Rejected()
      ensures lengthOk && verify.state(cmd.enableState) ==>
        && appEnableState == cmd.enableState
        && trace == old(trace) + [CdsUpdated]
        && counters == old(counters).BumpAccepted()
        && FilterTableKept() && DestTableKept() && StatusKept()
    {
      if !lengthOk {
        counters := counters.BumpRejected();
      } else if !verify.state(cmd.enableState) {
        counters := counters.BumpRejected();
      } else {
        appEnableState := cmd.enableState;
        trace := trace + [CdsUpdated];
        counters := counters.BumpAccepted();
      }
    }

    /** DS_CmdSetFilterFile: sets the destination file of one filter slot of a registered message ID. */
    method CmdSetFilterFile(cmd: FilterFileCmd, lengthOk: bool)
      requires Valid()
      modifies this, packets
      ensures Valid()
      ensures !old(FilterCmdAccepted(lengthOk, cmd.messageId, cmd.filterParmsIndex, verify.fileIndex(cmd.fileTableIndex))) ==>
        Rejected()
      ensures old(FilterCmdAccepted(lengthOk, cmd.messageId, cmd.filterParmsIndex, verify.fileIndex(cmd.fileTableIndex))) ==>
        var t, idx, k := old(packets[..]), FindMsgId(old(packets[..]), cmd.messageId), cmd.filterParmsIndex;
        && AcceptedFilterOnly()
        && packets[..] == WithFilter(t, idx, k, t[idx].filters[k].(fileTableIndex := cmd.fileTableIndex))
    {
      if !lengthOk {
        counters := counters.BumpRejected();
      } else if !verify.isValidMsgId(cmd.messageId) {
        counters := counters.BumpRejected();
      } else if cmd.filterParmsIndex >= FILTERS_PER_PACKET {
        counters := counters.BumpRejected();
      } else if !verify.fileIndex(cmd.fileTableIndex) {
        counters := counters.BumpRejected();
      } else if !filterLoaded {
        counters := counters.BumpRejected();
      } else {
        var idx := FindMsgId(packets[..], cmd.messageId);
        if idx == INDEX_NONE {
          counters := counters.BumpRejected();
        } else {
          var entry := packets[idx];
          var k := cmd.filterParmsIndex;
          var f := entry.filters[k].(fileTableIndex := cmd.fileTableIndex);
          packets[idx] := entry.(filters := entry.filters[k := f]);
          counters := counters.BumpAccepted();
          WithFilterKeepsIds(midIndex, old(packets[..]), idx, k, f);
        }
      }
    }

    /** DS_CmdSetFilterType: sets the filter type of one filter slot of a registered message ID. */
    method CmdSetFilterType(cmd: FilterTypeCmd, lengthOk: bool)
      requires Valid()
      modifies this, packets
      ensures Valid()
      ensures !old(FilterCmdAccepted(lengthOk, cmd.messageId, cmd.filterParmsIndex, verify.nameType(cmd.filterType))) ==>
        Rejected()
      ensures old(FilterCmdAccepted(lengthOk, cmd.messageId, cmd.filterParmsIndex, verify.nameType(cmd.filterType))) ==>
        var t, idx, k := old(packets[..]), FindMsgId(old(packets[..]), cmd.messageId), cmd.filterParmsIndex;
        && AcceptedFilterOnly()
        && packets[..] == WithFilter(t, idx, k, t[idx].filters[k].(filterType := cmd.filterType))
    {
      if !lengthOk {
        counters := counters.BumpRejected();
      } else if !verify.isValidMsgId(cmd.messageId) {
        counters := counters.BumpRejected();
      } else if cmd.filterParmsIndex >= FILTERS_PER_PACKET {
        counters := counters.BumpRejected();
      } else if !verify.nameType(cmd.filterType) {
        counters := counters.BumpRejected();
      } else if !filterLoaded {
        counters := counters.BumpRejected();
      } else {
        var idx := FindMsgId(packets[..], cmd.messageId);
        if idx == INDEX_NONE {
          counters := counters.BumpRejected();
        } else {
          var entry := packets[idx];
          var k := cmd.filterParmsIndex;
          var f := entry.filters[k].(filterType := cmd.filterType);
          packets[idx] := entry.(filters := entry.filters[k := f]);
          counters := counters.BumpAccepted();
          WithFilterKeepsIds(midIndex, old(packets[..]), idx, k, f);
        }
      }
    }

    /** DS_CmdSetFilterParms: sets the N, X and O parameters of one filter slot of a registered message ID. */
    method CmdSetFilterParms(cmd: FilterParmsCmd, lengthOk: bool)
      requires Valid()
      modifies this, packets
      ensures Valid()
      ensures !old(FilterCmdAccepted(lengthOk, cmd.messageId, cmd.filterParmsIndex,
                                     verify.parms(cmd.algorithmN, cmd.algorithmX, cmd.algorithmO))) ==>
        Rejected()
      ensures old(FilterCmdAccepted(lengthOk, cmd.messageId, cmd.filterParmsIndex,
                                    verify.parms(cmd.algorithmN, cmd.algorithmX, cmd.algorithmO))) ==>
        var t, idx, k := old(packets[..]), FindMsgId(old(packets[..]), cmd.messageId), cmd.filterParmsIndex;
        && AcceptedFilterOnly()
        && packets[..] == WithFilter(t, idx, k, t[idx].filters[k].(n := cmd.algorithmN, x := cmd.algorithmX, o := cmd.algorithmO))
    {
      if !lengthOk {
        counters := counters.BumpRejected();
      } else if !verify.isValidMsgId(cmd.messageId) {
        counters := counters.BumpRejected();
      } else if cmd.filterParmsIndex >= FILTERS_PER_PACKET {
        counters := counters.BumpRejected();
      } else if !verify.parms(cmd.algorithmN, cmd.algorithmX, cmd.algorithmO) {
        counters := counters.BumpRejected();
      } else if !filterLoaded {
        counters := counters.BumpRejected();
      } else {
        var idx := FindMsgId(packets[..], cmd.messageId);
        if idx == INDEX_NONE {
          counters := counters.BumpRejected();
        } else {
          var entry := packets[idx];
          var k := cmd.filterParmsIndex;
          var f := entry.filters[k].(n := cmd.algorithmN, x := cmd.algorithmX, o := cmd.algorithmO);
          packets[idx] := entry.(filters := entry.filters[k := f]);
          counters := counters.BumpAccepted();
          WithFilterKeepsIds(midIndex, old(packets[..]), idx, k, f);
        }
      }
    }

    /** DS_CmdSetDestType: sets the filename type of one destination. */
    method CmdSetDestType(cmd: DestTypeCmd, lengthOk: bool)
      requires Valid()
      modifies this, dests
      ensures Valid()
      ensures !old(DestCmdAccepted(lengthOk, cmd.fileTableIndex, verify.nameType(cmd.fileNameType))) ==> Rejected()
      ensures old(DestCmdAccepted(lengthOk, cmd.fileTableIndex, verify.nameType(cmd.fileNameType))) ==>
        && AcceptedDestOnly()
        && dests[..] == old(dests[..])[cmd.fileTableIndex := old(dests[cmd.fileTableIndex]).(fileNameType := cmd.fileNameType)]
    {
      if !lengthOk {
        counters := counters.BumpRejected();
      } else if !verify.fileIndex(cmd.fileTableIndex) {
        counters := counters.BumpRejected();
      } else if !verify.nameType(cmd.fileNameType) {
        counters := counters.BumpRejected();
      } else if !destLoaded {
        counters := counters.BumpRejected();
      } else {
        var i := cmd.fileTableIndex;
        dests[i] := dests[i].(fileNameType := cmd.fileNameType);
        counters := counters.BumpAccepted();
      }
    }

    /**
     * DS_CmdSetDestState: sets the enable state of one destination in both the
     * table and the file status. The critical data store is not updated.
     */
    method CmdSetDestState(cmd: DestStateCmd, lengthOk: bool)
      requires Valid()
      modifies this, dests, status
      ensures Valid()
      ensures !old(DestCmdAccepted(lengthOk, cmd.fileTableIndex, verify.state(cmd.enableState))) ==> Rejected()
      ensures old(DestCmdAccepted(lengthOk, cmd.fileTableIndex, verify.state(cmd.enableState))) ==>
        var i := cmd.fileTableIndex;
        && counters == old(counters).BumpAccepted()
        && FilterTableKept() && destLoaded == old(destLoaded) && AppStateKept() && TraceKept()
        && dests[..] == old(dests[..])[i := old(dests[i]).(enableState := cmd.enableState)]
        && status[..] == old(status[..])[i := old(status[i]).(fileState := cmd.enableState)]
    {
      if !lengthOk {
        counters := counters.BumpRejected();
      } else if !verify.fileIndex(cmd.fileTableIndex) {
        counters := counters.BumpRejected();
      } else if !verify.state(cmd.enableState) {
        counters := counters.BumpRejected();
      } else if !destLoaded {
        counters := counters.BumpRejected();
      } else {
        var i := cmd.fileTableIndex;
        dests[i] := dests[i].(enableState := cmd.enableState);
        status[i] := status[i].(fileState := cmd.enableState);
        counters := counters.BumpAccepted();
      }
    }

    /** DS_CmdSetDestPath: sets the path part of one destination's filename. */
    method CmdSetDestPath(cmd: DestPathCmd, lengthOk: bool)
      requires Valid()
      modifies this, dests
      ensures Valid()
      ensures !old(DestCmdAccepted(lengthOk, cmd.fileTableIndex, true)) ==> Rejected()
      ensures old(DestCmdAccepted(lengthOk, cmd.fileTableIndex, true)) ==>
        var i := cmd.fileTableIndex;
        && AcceptedDestOnly()
        && dests[..] == old(dests[..])[i := old(dests[i]).(pathname := StrNCopy(cmd.pathname, PATHNAME_BUFSIZE))]
    {
      if !lengthOk {
        counters := counters.BumpRejected();
      } else if !verify.fileIndex(cmd.fileTableIndex) {
        counters := counters.BumpRejected();
      } else if !destLoaded {
        counters := counters.BumpRejected();
      } else {
        var i := cmd.fileTableIndex;
        dests[i] := dests[i].(pathname := StrNCopy(cmd.pathname, PATHNAME_BUFSIZE));
        counters := counters.BumpAccepted();
      }
    }

    /** DS_CmdSetDestBase: sets the base part of one destination's filename. */
    method CmdSetDestBase(cmd: DestBaseCmd, lengthOk: bool)
      requires Valid()
      modifies this, dests
      ensures Valid()
      ensures !old(DestCmdAccepted(lengthOk, cmd.fileTableIndex, true)) ==> Rejected()
      ensures old(DestCmdAccepted(lengthOk, cmd.fileTableIndex, true)) ==>
        var i := cmd.fileTableIndex;
        && AcceptedDestOnly()
        && dests[..] == old(dests[..])[i := old(dests[i]).(basename := StrNCopy(cmd.basename, BASENAME_BUFSIZE))]
    {
      if !lengthOk {
        counters := counters.BumpRejected();
      } else if !verify.fileIndex(cmd.fileTableIndex) {
        counters := counters.BumpRejected();
      } else if !destLoaded {
        counters := counters.BumpRejected();
      } else {
        var i := cmd.fileTableIndex;
        dests[i] := dests[i].(basename := StrNCopy(cmd.basename, BASENAME_BUFSIZE));
        counters := counters.BumpAccepted();
      }
    }

    /** DS_CmdSetDestExt: sets the extension part of one destination's filename. */
    method CmdSetDestExt(cmd: DestExtCmd, lengthOk: bool)
      requires Valid()
      modifies this, dests
      ensures Valid()
      ensures !old(DestCmdAccepted(lengthOk, cmd.fileTableIndex, true)) ==> Rejected()
      ensures old(DestCmdAccepted(lengthOk, cmd.fileTableIndex, true)) ==>
        var i := cmd.fileTableIndex;
        && AcceptedDestOnly()
        && dests[..] == old(dests[..])[i := old(dests[i]).(extension := StrNCopy(cmd.extension, EXTENSION_BUFSIZE))]
    {
      if !lengthOk {
        counters := counters.BumpRejected();
      } else if !verify.fileIndex(cmd.fileTableIndex) {
        counters := counters.BumpRejected();
      } else if !destLoaded {
        counters := counters.BumpRejected();
      } else {
        var i := cmd.fileTableIndex;
        dests[i] := dests[i].(extension := StrNCopy(cmd.extension, EXTENSION_BUFSIZE));
        counters := counters.BumpAccepted();
      }
    }

    /** DS_CmdSetDestSize: sets the size limit of one destination. */
    method CmdSetDestSize(cmd: DestSizeCmd, lengthOk: bool)
      requires Valid()
      modifies this, dests
      ensures Valid()
      ensures !old(DestCmdAccepted(lengthOk, cmd.fileTableIndex, verify.size(cmd.maxFileSize))) ==> Rejected()
      ensures old(DestCmdAccepted(lengthOk, cmd.fileTableIndex, verify.size(cmd.maxFileSize))) ==>
        var i := cmd.fileTableIndex;
        && AcceptedDestOnly()
        && dests[..] == old(dests[..])[i := old(dests[i]).(maxFileSize := cmd.maxFileSize)]
    {
      if !lengthOk {
        counters := counters.BumpRejected();
      } else if !verify.fileIndex(cmd.fileTableIndex) {
        counters := counters.BumpRejected();
      } else if !verify.size(cmd.maxFileSize) {
        counters := counters.BumpRejected();
      } else if !destLoaded {
        counters := counters.BumpRejected();
      } else {
        var i := cmd.fileTableIndex;
        dests[i] := dests[i].(maxFileSize := cmd.maxFileSize);
        counters := counters.BumpAccepted();
      }
    }

    /** DS_CmdSetDestAge: sets the age limit of one destination. */
    method CmdSetDestAge(cmd: DestAgeCmd, lengthOk: bool)
      requires Valid()
      modifies this, dests
      ensures Valid()
      ensures !old(DestCmdAccepted(lengthOk, cmd.fileTableIndex, verify.age(cmd.maxFileAge))) ==> Rejected()
      ensures old(DestCmdAccepted(lengthOk, cmd.fileTableIndex, verify.age(cmd.maxFileAge))) ==>
        var i := cmd.fileTableIndex;
        && AcceptedDestOnly()
        && dests[..] == old(dests[..])[i := old(dests[i]).(maxFileAge := cmd.maxFileAge)]
    {
      if !lengthOk {
        counters := counters.BumpRejected();
      } else if !verify.fileIndex(cmd.fileTableIndex) {
        counters := counters.BumpRejected();
      } else if !verify.age(cmd.maxFileAge) {
        counters := counters.BumpRejected();
      } else if !destLoaded {
        counters := counters.BumpRejected();
      } else {
        var i := cmd.fileTableIndex;
        dests[i] := dests[i].(maxFileAge := cmd.maxFileAge);
        counters := counters.BumpAccepted();
      }
    }

    /**
     * DS_CmdSetDestCount: sets the sequence count of one destination in both
     * the table and the file status, and pushes it to the critical data store.
     */
    method CmdSetDestCount(cmd: DestCountCmd, lengthOk: bool)
      requires Valid()
      modifies this, dests, status
      ensures Valid()
      ensures !old(DestCmdAccepted(lengthOk, cmd.fileTableIndex, verify.count(cmd.sequenceCount))) ==> Rejected()
      ensures old(DestCmdAccepted(lengthOk, cmd.fileTableIndex, verify.count(cmd.sequenceCount))) ==>
        var i := cmd.fileTableIndex;
        && counters == old(counters).BumpAccepted()
        && FilterTableKept() && destLoaded == old(destLoaded) && AppStateKept()
        && dests[..] == old(dests[..])[i := old(dests[i]).(sequenceCount := cmd.sequenceCount)]
        && status[..] == old(status[..])[i := old(status[i]).(fileCount := cmd.sequenceCount)]
        && trace == old(trace) + [CdsUpdated]
    {
      if !lengthOk {
        counters := counters.BumpRejected();
      } else if !verify.fileIndex(cmd.fileTableIndex) {
        counters := counters.BumpRejected();
      } else if !verify.count(cmd.sequenceCount) {
        counters := counters.BumpRejected();
      } else if !destLoaded {
        counters := counters.BumpRejected();
      } else {
        var i := cmd.fileTableIndex;
        dests[i] := dests[i].(sequenceCount := cmd.sequenceCount);
        status[i] := status[i].(fileCount := cmd.sequenceCount);
        trace := trace + [CdsUpdated];
        counters := counters.BumpAccepted();
      }
    }

    /** DS_FileUpdateHeader, reduced to the fact that the header of file i was updated. */
    method FileUpdateHeader(i: nat)
      modifies this
      ensures trace == old(trace) + [HeaderUpdated(i)]
      ensures counters == old(counters) && filterLoaded == old(filterLoaded) && destLoaded == old(destLoaded)
      ensures appEnableState == old(appEnableState) && midIndex == old(midIndex)
    {
      trace := trace + [HeaderUpdated(i)];
    }

    /** DS_FileCloseDest, reduced to: file i is closed and its handle becomes undefined. */
    method FileCloseDest(i: nat)
      requires i < status.Length
      modifies this, status
      ensures status[..] == old(status[..])[i := old(status[i]).(fileHandle := Undefined)]
      ensures trace == old(trace) + [DestClosed(i)]
      ensures counters == old(counters) && filterLoaded == old(filterLoaded) && destLoaded == old(destLoaded)
      ensures appEnableState == old(appEnableState) && midIndex == old(midIndex)
    {
      status[i] := status[i].(fileHandle := Undefined);
      trace := trace + [DestClosed(i)];
    }

    /**
     * DS_CmdCloseFile: closes one destination if it is open; a valid index is
     * accepted whether or not the file was open.
     */
    method CmdCloseFile(cmd: CloseFileCmd, lengthOk: bool)
      requires Valid()
      modifies this, status
      ensures Valid()
      ensures !(lengthOk && verify.fileIndex(cmd.fileTableIndex)) ==> Rejected()
      ensures lengthOk && verify.fileIndex(cmd.fileTableIndex) ==>
        var i := cmd.fileTableIndex;
        && counters == old(counters).BumpAccepted()
        && FilterTableKept() && DestTableKept() && AppStateKept()
        && status[..] == old(status[..])[i := old(status[i]).(fileHandle := Undefined)]
        && trace == old(trace) + Closing(old(status[i]), i)
    {
      if !lengthOk {
        counters := counters.BumpRejected();
      } else if !verify.fileIndex(cmd.fileTableIndex) {
        counters := counters.BumpRejected();
      } else {
        var i := cmd.fileTableIndex;
        if status[i].fileHandle != Undefined {
          FileUpdateHeader(i);
          FileCloseDest(i);
        }
        counters := counters.BumpAccepted();
      }
    }

    /**
     * DS_CmdCloseAll: walks the status array, updating the header of and
     * closing every open destination; afterwards no handle is defined.
     */
    method CmdCloseAll(lengthOk: bool)
      requires Valid()
      modifies this, status
      ensures Valid()
      ensures !lengthOk ==> Rejected()
      ensures lengthOk ==>
        && counters == old(counters).BumpAccepted()
        && FilterTableKept() && DestTableKept() && AppStateKept()
        && (forall i :: 0 <= i < status.Length ==> status[i] == old(status[i]).(fileHandle := Undefined))
        && trace == old(trace) + Closings(old(status[..]), DEST_FILE_CNT)
    {
      if !lengthOk {
        counters := counters.BumpRejected();
      } else {
        CloseOpenFiles();
        counters := counters.BumpAccepted();
      }
    }

    /** The loop of DS_CmdCloseAll over the destination file status array. */
    method CloseOpenFiles()
      requires status.Length == DEST_FILE_CNT
      modifies this, status
      ensures forall i :: 0 <= i < status.Length ==> status[i] == old(status[i]).(fileHandle := Undefined)
      ensures trace == old(trace) + Closings(old(status[..]), DEST_FILE_CNT)
      ensures counters == old(counters) && filterLoaded == old(filterLoaded) && destLoaded == old(destLoaded)
      ensures appEnableState == old(appEnableState) && midIndex == old(midIndex)
    {
      var i := 0;
      while i < DEST_FILE_CNT
        invariant 0 <= i <= DEST_FILE_CNT
        invariant forall j :: 0 <= j < i ==> status[j] == old(status[j]).(fileHandle := Undefined)
        invariant forall j :: i <= j < DEST_FILE_CNT ==> status[j] == old(status[j])
        invariant trace == old(trace) + Closings(old(status[..]), i)
        invariant counters == old(counters) && filterLoaded == old(filterLoaded) && destLoaded == old(destLoaded)
        invariant appEnableState == old(appEnableState) && midIndex == old(midIndex)
      {
        if status[i].fileHandle != Undefined {
          FileUpdateHeader(i);
          FileCloseDest(i);
        }
        i := i + 1;
      }
    }

    /** The file info records of every destination, in destination order. */
    method FileInfoSnapshot() returns (info: seq<FileInfo>)
      ensures IsFileInfoPacket(info, status[..], destLoaded)
    {
      info := [];
      var i := 0;
      while i < status.Length
        invariant 0 <= i <= status.Length
        invariant |info| == i
        invariant forall j :: 0 <= j < i ==> IsFileInfo(info[j], status[j], destLoaded)
      {
        var st := status[i];
        var enableState := if destLoaded then st.fileState else DISABLED;
        var openState, fileName := CLOSED, [];
        if st.fileHandle != Undefined {
          openState := OPEN;
          fileName := StrNCopy(st.fileName, TOTAL_FNAME_BUFSIZE);
        }
        info := info + [FileInfo(st.fileAge, st.fileSize, st.fileRate, st.fileCount, enableState, openState, fileName)];
        i := i + 1;
      }
    }

    /**
     * DS_CmdGetFileInfo: sends the file info packet, a projection of the
     * status array, and changes nothing but the accepted-command counter.
     */
    method CmdGetFileInfo(lengthOk: bool) returns (sent: Option<seq<FileInfo>>)
      requires Valid()
      modifies this
      ensures Valid()
      ensures !lengthOk ==> Rejected() && sent == None
      ensures lengthOk ==> AcceptedOnly() && sent.Some? && IsFileInfoPacket(sent.value, status[..], destLoaded)
    {
      if !lengthOk {
        counters := counters.BumpRejected();
        sent := None;
      } else {
        counters := counters.BumpAccepted();
        var info := FileInfoSnapshot();
        sent := Some(info);
      }
    }

    /**
     * DS_CmdAddMID: gives the lowest unused filter table entry the new message
     * ID and default filter slots, adds it to the hash index and subscribes
     * to it.
     */
    method CmdAddMid(cmd: AddMidCmd, lengthOk: bool)
      requires Valid()
      modifies this, packets
      ensures Valid()
      ensures !old(AddMidAccepted(cmd, lengthOk)) ==> Rejected()
      ensures old(AddMidAccepted(cmd, lengthOk)) ==>
        var idx := FindMsgId(old(packets[..]), INVALID_MID);
        && counters == old(counters).BumpAccepted()
        && filterLoaded == old(filterLoaded) && DestTableKept() && StatusKept() && AppStateKept()
        && packets[..] == Assign(old(packets[..]), idx, cmd.messageId)
        && midIndex == old(midIndex)[cmd.messageId := idx]
        && FindMsgId(packets[..], cmd.messageId) == idx
        && trace == old(trace) + [Subscribed(cmd.messageId)]
    {
      if !lengthOk {
        counters := counters.BumpRejected();
      } else if !verify.isValidMsgId(cmd.messageId) {
        counters := counters.BumpRejected();
      } else if !filterLoaded {
        counters := counters.BumpRejected();
      } else if FindMsgId(packets[..], cmd.messageId) != INDEX_NONE {
        counters := counters.BumpRejected();
      } else {
        var idx := FindMsgId(packets[..], INVALID_MID);
        if idx == INDEX_NONE {
          counters := counters.BumpRejected();
        } else {
          RegisterEntry(idx, cmd.messageId);
          trace := trace + [Subscribed(cmd.messageId)];
          counters := counters.BumpAccepted();
        }
      }
    }

    /** The loop over the filter slots of entry idx that AddMID and RemoveMID share. */
    method ResetFilters(idx: nat, ghost before: seq<PacketEntry>)
      requires idx < packets.Length == |before| && WellFormed(before)
      requires packets[..] == before[idx := before[idx].(messageId := packets[idx].messageId)]
      modifies packets
      ensures packets[..] == Assign(before, idx, old(packets[idx].messageId))
    {
      var i := 0;
      while i < FILTERS_PER_PACKET
        invariant 0 <= i <= FILTERS_PER_PACKET
        invariant packets[idx].messageId == old(packets[idx].messageId)
        invariant |packets[idx].filters| == FILTERS_PER_PACKET
        invariant forall k :: 0 <= k < i ==> packets[idx].filters[k] == DEFAULT_FILTER
        invariant packets[..] == before[idx := packets[idx]]
      {
        packets[idx] := packets[idx].(filters := packets[idx].filters[i := DEFAULT_FILTER]);
        i := i + 1;
      }
      assert packets[idx].filters == DefaultFilters();
    }

    /**
     * DS_CmdRemoveMID: marks the entry of a registered message ID unused,
     * rebuilds the hash index, resets the entry's filter slots and
     * unsubscribes. The lookup happens before any check.
     */
    method CmdRemoveMid(cmd: RemoveMidCmd, lengthOk: bool)
      requires Valid()
      modifies this, packets
      ensures Valid()
      ensures !old(RemoveMidAccepted(cmd, lengthOk)) ==> Rejected()
      ensures old(RemoveMidAccepted(cmd, lengthOk)) ==>
        var idx := FindMsgId(old(packets[..]), cmd.messageId);
        && counters == old(counters).BumpAccepted()
        && filterLoaded == old(filterLoaded) && DestTableKept() && StatusKept() && AppStateKept()
        && packets[..] == Assign(old(packets[..]), idx, INVALID_MID)
        && midIndex == old(midIndex) - {cmd.messageId}
        && FindMsgId(packets[..], cmd.messageId) == INDEX_NONE
        && (forall m :: m in midIndex ==> FindMsgId(packets[..], m) == FindMsgId(old(packets[..]), m))
        && trace == old(trace) + [Unsubscribed(cmd.messageId)]
    {
      var idx := FindMsgId(packets[..], cmd.messageId);
      if !lengthOk {
        counters := counters.BumpRejected();
      } else if !verify.isValidMsgId(cmd.messageId) {
        counters := counters.BumpRejected();
      } else if !filterLoaded {
        counters := counters.BumpRejected();
      } else if idx == INDEX_NONE {
        counters := counters.BumpRejected();
      } else {
        assert packets[idx].messageId == cmd.messageId != INVALID_MID;
        ReleaseEntry(idx);
        trace := trace + [Unsubscribed(cmd.messageId)];
        counters := counters.BumpAccepted();
      }
    }

    /**
     * The filter table part of AddMID's success path: the lowest unused entry
     * takes the message ID, the hash index gains it, and the entry's filter
     * slots are reset.
     */
    method RegisterEntry(idx: int, mid: MsgId)
      requires Valid() && mid != INVALID_MID && FindMsgId(packets[..], mid) == INDEX_NONE
      requires idx == FindMsgId(packets[..], INVALID_MID) && idx != INDEX_NONE
      modifies this, packets
      ensures Valid()
      ensures packets[..] == Assign(old(packets[..]), idx, mid)
      ensures midIndex == old(midIndex)[mid := idx]
      ensures FindMsgId(packets[..], mid) == idx
      ensures counters == old(counters) && trace == old(trace) && filterLoaded == old(filterLoaded)
      ensures destLoaded == old(destLoaded) && appEnableState == old(appEnableState)
    {
      ghost var before := packets[..];
      packets[idx] := packets[idx].(messageId := mid);
      // DS_TableAddMsgID
      midIndex := midIndex[mid := idx];
      ResetFilters(idx, before);
      Register(old(midIndex), before, mid);
    }

    /**
     * The filter table part of RemoveMID's success path: the entry is marked
     * unused, the hash index is rebuilt, and the entry's filter slots are reset.
     */
    method ReleaseEntry(idx: int)
      requires Valid() && 0 <= idx < packets.Length && packets[idx].messageId != INVALID_MID
      modifies this, packets
      ensures Valid()
      ensures packets[..] == Assign(old(packets[..]), idx, INVALID_MID)
      ensures midIndex == old(midIndex) - {old(packets[idx].messageId)}
      ensures FindMsgId(packets[..], old(packets[idx].messageId)) == INDEX_NONE
      ensures forall m :: m in midIndex ==> FindMsgId(packets[..], m) == FindMsgId(old(packets[..]), m)
      ensures counters == old(counters) && trace == old(trace) && filterLoaded == old(filterLoaded)
      ensures destLoaded == old(destLoaded) && appEnableState == old(appEnableState)
    {
      ghost var before := packets[..];
      packets[idx] := packets[idx].(messageId := INVALID_MID);
      // DS_TableCreateHash
      midIndex := BuildIndex(packets[..]);
      ResetFilters(idx, before);
      SameIdsSameIndex(before[idx := before[idx].(messageId := INVALID_MID)], packets[..]);
      Unregister(old(midIndex), before, idx);
    }
  }
}
