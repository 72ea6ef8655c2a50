# DS ground-command handlers

This project models the ground-command handlers of the CFS Data Storage (DS)
application (`fsw/src/ds_cmds.c`). It covers the no-op and reset commands, the
application enable state, the packet filter table edits (filter file, type and
parameters, add and remove message ID), the destination file table edits (type,
state, path, base name, extension, size, age and sequence count), closing one
or all destination files, and the file info telemetry packet.

The application data is the class `DsCmds.AppData`:

- `packets`: the packet filter table, an `array` of 256 entries, each holding 4 filter slots.
- `dests`: the destination file table, 16 entries.
- `status`: the runtime file status, 16 entries.
- `filterLoaded` and `destLoaded`: whether each table pointer is non-NULL.
- `appEnableState`: the application enable state.
- `counters`: the fourteen housekeeping counters.
- Two ghost fields. `midIndex` is the message ID hash index. `trace` records, in order, the effects on collaborators that this model does not contain: critical data store updates, software bus subscriptions, and file header updates and closes.

Every handler takes its command record and a boolean `lengthOk`. The boolean
stands for the comparison of the command's actual length with its expected
length.

Every handler follows the same pattern:

- The checks run in the order the C code runs them. The first failing check rejects the command (`Rejected()`): `CmdRejectedCounter` goes up by one and nothing else changes.
- An accepted command raises `CmdAcceptedCounter` and changes exactly the fields its `ensures` names. Reset is the exception: it zeroes every counter.

The table verification functions (`DS_TableVerifyFileIndex`, `…State`,
`…Type`, `…Size`, `…Age`, `…Count`, `…Parms`) and `CFE_SB_IsValidMsgId` are
defined outside `ds_cmds.c`. They are function-valued fields of
`DsTypes.Verifiers`. The model relies on only two facts about them:

- a verified file index is below `DS_DEST_FILE_CNT`;
- the invalid message ID is not a valid message ID.

`DS_TableFindMsgID` is `DsTable.FindMsgId`. It returns a table index holding
the message ID, or `DS_INDEX_NONE`; asked for the invalid message ID, it returns
an unused entry. The model takes the lowest such index (see "## Left out"). The
hash index is a map from each registered message ID to its table index.
`DS_TableAddMsgID` extends that map, and `DS_TableCreateHash` rebuilds it
(`DsTable.BuildIndex`).

Critical data store and filter slot details:

- `DS_CmdSetDestState` writes the enable state to the destination table and to the file status (ds_cmds.c:674-675). It does not update the critical data store. Only `DS_CmdSetAppState` (ds_cmds.c:184) and `DS_CmdSetDestCount` (ds_cmds.c:1125) do.
- AddMID and RemoveMID write file 0, type by-count and N = X = O = 0 into every filter slot of the entry (ds_cmds.c:1420-1427, 1527-1532).

## Model

| member | source | states |
|---|---|---|
| DsTypes.StrNCopy | fsw/src/ds_cmds.c:742 | The result of a bounded `strncpy` is a prefix of the source, at most n characters long, free of NUL. It stops early only at a NUL. |
| DsTable.FindMsgId | fsw/src/ds_cmds.c:1385-1405 | Returns `DS_INDEX_NONE` exactly when no entry holds the ID. Otherwise it returns the lowest index whose entry holds it. |
| DsTable.BuildIndex | fsw/src/ds_cmds.c:1521 | The rebuilt hash index agrees with the table. It maps every registered ID, and nothing else, to the entry a table lookup returns. |
| DsTable.IndexLookup | fsw/src/ds_cmds.c:1385 | On a table of unique IDs, a hash index lookup agrees with the table lookup. Both directions of membership are covered. |
| DsTable.IndexDetermined | fsw/src/ds_cmds.c:1521 | Over a table of unique IDs, at most one index agrees with the table. |
| DsTable.AssignRegisters | fsw/src/ds_cmds.c:1396-1428 | Filling the lowest unused entry with a new ID keeps IDs unique. A lookup of the new ID returns that entry, and all other lookups are unchanged. The next free entry lies after it. |
| DsTable.AssignExtendsIndex | fsw/src/ds_cmds.c:1416 | Adding the new ID at its entry keeps the hash index in agreement with the table. |
| DsTable.AssignUnregisters | fsw/src/ds_cmds.c:1518-1533 | Marking a registered entry unused keeps IDs unique. A lookup of the removed ID fails, and all other lookups are unchanged. A free entry now exists at or before the released one. |
| DsTable.RebuildDropsOnly | fsw/src/ds_cmds.c:1518-1521 | After a removal, the rebuilt hash index equals the old index minus the removed ID. |
| DsTable.WithFilterKeepsIds | fsw/src/ds_cmds.c:282-289 | Rewriting one filter slot keeps the table well formed and the IDs unique. The index still agrees, and every lookup gives the same answer. |
| DsTable.Register | fsw/src/ds_cmds.c:1396-1430 | AddMID on table and index together. The table stays valid, the index gains exactly the new ID at the lowest free entry, and the new ID's lookup finds that entry. All other lookups are unchanged. |
| DsTable.Unregister | fsw/src/ds_cmds.c:1463-1533 | RemoveMID on table and index together. The table stays valid, the rebuilt index is the old one without the ID, and the ID's lookup fails. All other lookups are unchanged. |
| DsCmds.ClosingsCover | fsw/src/ds_cmds.c:1219-1226 | Close-all updates the header of, and closes, every destination whose handle is defined. It touches no other destination. |
| DsCmds.ClosingsPaired | fsw/src/ds_cmds.c:1219-1226 | Every close immediately follows the header update of the same file. |
| DsCmds.AppData.CmdNoop | fsw/src/ds_cmds.c:49-77 | A bad length is rejected. Otherwise only the accepted counter changes. |
| DsCmds.AppData.CmdReset | fsw/src/ds_cmds.c:85-137 | A bad length is rejected. Otherwise all fourteen counters become zero, the command counters included, and nothing else changes. |
| DsCmds.AppData.CmdSetAppState | fsw/src/ds_cmds.c:145-191 | Checks the length, then the state. On success it sets the state and pushes one critical data store update. |
| DsCmds.AppData.CmdSetFilterFile | fsw/src/ds_cmds.c:199-304 | Checks the length, the valid ID, slot < 4, the file index, the table loaded, and the ID present. On success exactly the file index of that slot of the ID's entry changes. |
| DsCmds.AppData.CmdSetFilterType | fsw/src/ds_cmds.c:312-417 | The same checks with the type check. On success exactly the filter type of that slot changes. |
| DsCmds.AppData.CmdSetFilterParms | fsw/src/ds_cmds.c:425-535 | The same checks with the N/X/O check. On success exactly N, X and O of that slot change. |
| DsCmds.AppData.CmdSetDestType | fsw/src/ds_cmds.c:543-612 | Checks the length, the index, the type, and the table loaded. On success only that destination's filename type changes. |
| DsCmds.AppData.CmdSetDestState | fsw/src/ds_cmds.c:620-688 | On success it sets the destination's enable state and the file status state, with no critical data store update. |
| DsCmds.AppData.CmdSetDestPath | fsw/src/ds_cmds.c:696-755 | Checks the length, the index, and the table loaded. On success the path becomes the bounded copy of the command's path. |
| DsCmds.AppData.CmdSetDestBase | fsw/src/ds_cmds.c:763-822 | As for the path, for the base name. |
| DsCmds.AppData.CmdSetDestExt | fsw/src/ds_cmds.c:830-889 | As for the path, for the extension, with an 8-character buffer. |
| DsCmds.AppData.CmdSetDestSize | fsw/src/ds_cmds.c:897-966 | On success only that destination's maximum size changes. |
| DsCmds.AppData.CmdSetDestAge | fsw/src/ds_cmds.c:974-1043 | On success only that destination's maximum age changes. |
| DsCmds.AppData.CmdSetDestCount | fsw/src/ds_cmds.c:1051-1133 | On success it sets the table sequence count and the file status count, and pushes one critical data store update. |
| DsCmds.AppData.CmdCloseFile | fsw/src/ds_cmds.c:1141-1187 | Checks the length and the index; there is no table-loaded check. An open file gets a header update and is closed. A closed file is left alone, and the command is still accepted. |
| DsCmds.AppData.CmdCloseAll | fsw/src/ds_cmds.c:1195-1232 | Afterwards every handle is undefined. The effects are exactly the closings of the open files, in index order. |
| DsCmds.AppData.FileUpdateHeader | fsw/src/ds_cmds.c:1223 | Appends exactly one `HeaderUpdated(i)` effect and keeps the counters, the table flags, the application state and the hash index. |
| DsCmds.AppData.FileCloseDest | fsw/src/ds_cmds.c:1224 | The handle of file i becomes `Undefined` and the rest of the status array is unchanged. It appends exactly one `DestClosed(i)` effect and keeps the counters, the table flags, the application state and the hash index. |
| DsCmds.AppData.CloseOpenFiles | fsw/src/ds_cmds.c:1219-1226 | After the loop, every handle is undefined and the other status fields are unchanged. The effects are `Closings` of the old status array. |
| DsCmds.AppData.FileInfoSnapshot | fsw/src/ds_cmds.c:1277-1323 | Record i copies age, size, rate and count from status i. Its state is DISABLED when no destination table is loaded. It is CLOSED exactly when the handle is undefined. It carries the bounded file name only when open. |
| DsCmds.AppData.CmdGetFileInfo | fsw/src/ds_cmds.c:1240-1332 | A bad length is rejected and nothing is sent. Otherwise it sends that projection and changes only the accepted counter. |
| DsCmds.AppData.ResetFilters | fsw/src/ds_cmds.c:1418-1428 | After the loop, every filter slot of the entry holds the default filter, and the rest of the table is unchanged. |
| DsCmds.AppData.RegisterEntry | fsw/src/ds_cmds.c:1411-1428 | The lowest unused entry takes the ID and the default filter slots, and the hash index gains the ID at that entry. The table stays valid, and the ID's lookup finds that entry. |
| DsCmds.AppData.ReleaseEntry | fsw/src/ds_cmds.c:1516-1533 | The entry becomes unused with the default filter slots. The rebuilt index is the old index without the ID, the ID's lookup fails, and the lookups of the remaining IDs are unchanged. |
| DsCmds.AppData.CmdAddMid | fsw/src/ds_cmds.c:1340-1443 | Four rejections: bad length, invalid ID, no table, ID already present. A fifth covers a table with no free entry. On success the lowest free entry gets the ID and default filters, the index gains the ID, the ID's lookup finds that entry, and one subscription is made. |
| DsCmds.AppData.CmdRemoveMid | fsw/src/ds_cmds.c:1451-1549 | The lookup runs before the checks. On success the entry becomes unused with default filters, the index loses exactly the ID, the ID's lookup fails, the other IDs' lookups are unchanged, and one unsubscription is made. |

## Left out

- Event messages (`CFE_EVS_SendEvent`) are not modelled. They do not affect the application data.
- `CFE_TBL_Modified` notifications are not modelled. They only tell the table service that the data changed.
- The command length comes in as the boolean `lengthOk`. Message sizes and `CFE_MSG_GetSize` are not modelled.
- The hash function, bucket chains and hash table capacity of `DS_TableCreateHash`, `DS_TableAddMsgID` and `DS_TableHashFunction` are not modelled. The index is a map from message ID to table index, and the hash table index that AddMID and RemoveMID report in their events is not computed.
- The bodies of the table verification functions and `CFE_SB_IsValidMsgId` are not part of this model (ds_table.c is not part of this model). Only the two facts stated under `Verifiers.Sound` are assumed.
- The contents written to the critical data store are not modelled; an update is recorded as one `CdsUpdated` effect.
- Subscription quality of service and pipe limits are not modelled; subscriptions are recorded as effects.
- `DsCmds.AppData.FileUpdateHeader`: does not model what the header update writes into the file, or its effect on the file I/O counters. ds_file.c is not part of this model.
- `DsCmds.AppData.FileCloseDest`: models only that the handle becomes undefined. It does not model the close's effect on the file's age, size, name, or the file I/O counters (ds_file.c).
- Counter width: counters are unbounded naturals. Their C width is declared in ds_app.h, which is not part of this model, so wrap-around is not modelled.
- Loaded filter tables are assumed to hold each registered message ID at most once (`UniqueMids`). This is an assumption of the model, not something shown to be enforced: the C handlers accept tables with duplicate message IDs, and the model says nothing about how they behave on such tables.
- `DsTable.FindMsgId`: the lookup is modelled as returning the lowest matching index. This is an assumption about the order in which ds_table.c walks its hash chains, and ds_table.c is not part of this model. It decides which unused entry AddMID fills (`DsCmds.AppData.CmdAddMid`, `DsCmds.AppData.RegisterEntry`, `DsTable.AssignRegisters`).
- Table pointer identity is not modelled. A NULL table pointer is the boolean `filterLoaded` or `destLoaded`, and the arrays always exist. RemoveMID's lookup runs before its checks, even when no filter table is loaded. Its behaviour on a NULL table depends on ds_table.c and is not modelled; its result is used only when the table is loaded.
- The telemetry header and timestamp of the file info packet are not modelled. For a closed file the name is empty, because `CFE_MSG_Init` zero-fills the packet.
