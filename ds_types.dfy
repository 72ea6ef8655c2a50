/**
 * Data model of the CFS Data Storage (DS) application data touched by the
 * ground-command handlers: platform constants, the packet filter table entry,
 * the destination file table entry, the runtime file status, the housekeeping
 * counters, the file info telemetry record and the command records.
 */
module DsTypes {

  type uint16 = x: int | 0 <= x < 0x1_0000
  type uint32 = x: int | 0 <= x < 0x1_0000_0000

  /** A software bus message identifier. */
  type MsgId = uint32

  // Platform configuration (default values of the DS platform configuration).
  const DEST_FILE_CNT: nat := 16
  const PACKETS_IN_FILTER_TABLE: nat := 256
  const FILTERS_PER_PACKET: nat := 4
  const PATHNAME_BUFSIZE: nat := 64
  const BASENAME_BUFSIZE: nat := 64
  const EXTENSION_BUFSIZE: nat := 8
  const TOTAL_FNAME_BUFSIZE: nat := 64

  // Application definitions.
  const DISABLED: uint16 := 0
  const ENABLED: uint16 := 1
  const CLOSED: uint16 := 0
  const OPEN: uint16 := 1
  const BY_COUNT: uint16 := 1
  const BY_TIME: uint16 := 2

  /** Result of a filter table lookup that found nothing. */
  const INDEX_NONE: int := -1

  /** The sentinel message ID that marks an unused filter table entry. */
  const INVALID_MID: MsgId := 0xFFFF_FFFF

  const NUL: char := '\0'

  datatype Option<T> = None | Some(value: T)

  /** One filter parameter slot of a packet filter table entry. */
  datatype FilterParms = FilterParms(
    fileTableIndex: uint16,
    filterType: uint16,
    n: uint16,
    x: uint16,
    o: uint16)

  /** The values AddMID and RemoveMID write into every filter slot. */
  const DEFAULT_FILTER: FilterParms := FilterParms(0, BY_COUNT, 0, 0, 0)

  /** One packet filter table entry: a message ID and its filter slots. */
  datatype PacketEntry = PacketEntry(messageId: MsgId, filters: seq<FilterParms>)

  /** One destination file table entry. */
  datatype DestFileEntry = DestFileEntry(
    pathname: string,
    basename: string,
    extension: string,
    fileNameType: uint16,
    enableState: uint16,
    maxFileSize: uint32,
    maxFileAge: uint32,
    sequenceCount: uint32)

  /** An operating-system object ID: a file handle that is defined or not. */
  datatype OsId = Undefined | Defined(id: nat)

  /** Runtime status of one destination file. */
  datatype FileStatus = FileStatus(
    fileHandle: OsId,
    fileAge: uint32,
    fileSize: uint32,
    fileRate: uint32,
    fileCount: uint32,
    fileState: uint16,
    fileName: string)

  /** One destination's record in the file info telemetry packet. */
  datatype FileInfo = FileInfo(
    fileAge: uint32,
    fileSize: uint32,
    fileRate: uint32,
    sequenceCount: uint32,
    enableState: uint16,
    openState: uint16,
    fileName: string)

  /** The housekeeping counters of the application data. */
  datatype Counters = Counters(
    cmdAcceptedCounter: nat,
    cmdRejectedCounter: nat,
    disabledPktCounter: nat,
    ignoredPktCounter: nat,
    filteredPktCounter: nat,
    passedPktCounter: nat,
    fileWriteCounter: nat,
    fileWriteErrCounter: nat,
    fileUpdateCounter: nat,
    fileUpdateErrCounter: nat,
    destTblLoadCounter: nat,
    destTblErrCounter: nat,
    filterTblLoadCounter: nat,
    filterTblErrCounter: nat)
  {
    /** The counters after one more command was accepted. */
    function BumpAccepted(): Counters {
      this.(cmdAcceptedCounter := cmdAcceptedCounter + 1)
    }

    /** The counters after one more command was rejected. */
    function BumpRejected(): Counters {
      this.(cmdRejectedCounter := cmdRejectedCounter + 1)
    }
  }

  const ZERO_COUNTERS: Counters := Counters(0, 0, 0, 0, 0, 0, 0, 0, 0, 0, 0, 0, 0, 0)

  /**
   * Effects on collaborators outside the application data: the critical data
   * store, the software bus subscriptions and the destination files.
   */
  datatype Effect =
    | CdsUpdated
    | Subscribed(mid: MsgId)
    | Unsubscribed(mid: MsgId)
    | HeaderUpdated(dest: nat)
    | DestClosed(dest: nat)

  /**
   * The table verification predicates and the software bus message ID check.
   * Their definitions are outside this model; the model only relies on a
   * verified file index being in range and on the invalid message ID being
   * rejected.
   */
  datatype Verifiers = Verifiers(
    fileIndex: uint16 -> bool,
    state: uint16 -> bool,
    nameType: uint16 -> bool,
    size: uint32 -> bool,
    age: uint32 -> bool,
    count: uint32 -> bool,
    parms: (uint16, uint16, uint16) -> bool,
    isValidMsgId: MsgId -> bool)
  {
    ghost predicate Sound() {
      && (forall i: uint16 :: fileIndex(i) ==> i < DEST_FILE_CNT)
      && !isValidMsgId(INVALID_MID)
    }
  }

  // Command records (the payload of each ground command).
  datatype AppStateCmd = AppStateCmd(enableState: uint16)
  datatype FilterFileCmd = FilterFileCmd(messageId: MsgId, filterParmsIndex: uint16, fileTableIndex: uint16)
  datatype FilterTypeCmd = FilterTypeCmd(messageId: MsgId, filterParmsIndex: uint16, filterType: uint16)
  datatype FilterParmsCmd = FilterParmsCmd(messageId: MsgId, filterParmsIndex: uint16,
                                           algorithmN: uint16, algorithmX: uint16, algorithmO: uint16)
  datatype DestTypeCmd = DestTypeCmd(fileTableIndex: uint16, fileNameType: uint16)
  datatype DestStateCmd = DestStateCmd(fileTableIndex: uint16, enableState: uint16)
  datatype DestPathCmd = DestPathCmd(fileTableIndex: uint16, pathname: string)
  datatype DestBaseCmd = DestBaseCmd(fileTableIndex: uint16, basename: string)
  datatype DestExtCmd = DestExtCmd(fileTableIndex: uint16, extension: string)
  datatype DestSizeCmd = DestSizeCmd(fileTableIndex: uint16, maxFileSize: uint32)
  datatype DestAgeCmd = DestAgeCmd(fileTableIndex: uint16, maxFileAge: uint32)
  datatype DestCountCmd = DestCountCmd(fileTableIndex: uint16, sequenceCount: uint32)
  datatype CloseFileCmd = CloseFileCmd(fileTableIndex: uint16)
  datatype AddMidCmd = AddMidCmd(messageId: MsgId)
  datatype RemoveMidCmd = RemoveMidCmd(messageId: MsgId)

  /**
   * The string a C `strncpy(dst, src, n)` leaves readable in an n-byte buffer:
   * the characters of `s` up to its first NUL, at most `n` of them.
   */
  function StrNCopy(s: string, n: nat): (r: string)
    ensures |r| <= n && r <= s
    ensures NUL !in r
    ensures |r| < n && |r| < |s| ==> s[|r|] == NUL
  {
    if n == 0 || |s| == 0 || s[0] == NUL then []
    else [s[0]] + StrNCopy(s[1..], n - 1)
  }
}
